/** What objstore_read returns: its count-down loops visit, in order, the pages
    that the write side's addressing names. */
module Reading {
  import opened Blocks
  import opened BlockLayer
  import opened StoreModel
  import opened Ownership

  function Min(a: int, b: int): int {
    if a < b then a else b
  }

  function Max(a: int, b: int): int {
    if a < b then b else a
  }

  /** The block a page's pointer names (zeros when it names none). */
  ghost function PageBlock(s: Store, o: int, page: int): Block
    requires WellFormed(s)
  {
    View(s.layer, Ptr(s, Page(o, page)) - WRITE_OFFSET)
  }

  /** n pages of o from page a on. */
  ghost function Pages(s: Store, o: int, a: int, n: nat): (r: seq<Block>)
    requires WellFormed(s)
    ensures |r| == n
  {
    seq<Block>(n, i => PageBlock(s, o, a + i))
  }

  lemma PagesSplit(s: Store, o: int, a: int, m: nat, n: nat)
    requires WellFormed(s)
    ensures Pages(s, o, a, m) + Pages(s, o, a + m, n) == Pages(s, o, a, m + n)
  {
  }

  ghost predicate SameViews(y: Layer, z: Layer) {
    && y.cached == z.cached
    && forall x :: View(y, x) == View(z, x)
  }

  lemma FetchPtrView(layer: Layer, base: Layer, ptr: int)
    requires Coherent(layer) && SameViews(layer, base)
    ensures var (y, block) := FetchPtr(layer, ptr); SameViews(y, base) && block == View(base, ptr - WRITE_OFFSET)
  {
    hide Coherent, View, Fetch, ReadBlock;
    if IsData(ptr - WRITE_OFFSET) {
      ReadBlockView(layer, ptr - WRITE_OFFSET);
    } else {
      NoView(base, ptr - WRITE_OFFSET);
    }
  }

  lemma NoView(layer: Layer, b: int)
    requires !IsData(b)
    ensures View(layer, b) == Zero()
  {
  }

  /** Slots i.. of ptrs hold the pointers of pages a.. of o. */
  ghost predicate Slots(s: Store, o: int, a: int, ptrs: seq<int>)
    requires WellFormed(s)
  {
    forall i :: 0 <= i < |ptrs| ==> ptrs[i] == Ptr(s, Page(o, a + i))
  }

  lemma {:induction false} ReadSlotsPages(s: Store, o: int, a: int, c: Cursor, ptrs: seq<int>, i: nat)
    requires WellFormed(s) && Slots(s, o, a, ptrs) && i <= |ptrs|
    requires Coherent(c.layer) && SameViews(c.layer, s.layer)
    ensures var (r, n) := (ReadSlots(c, ptrs, i), Min(c.left, Max(0, |ptrs| - i - c.skip)));
      && SameViews(r.layer, s.layer)
      && r.left == c.left - n
      && (0 < c.left ==> r.skip == Max(0, c.skip - (|ptrs| - i)))
      && r.out == c.out + Pages(s, o, a + i + c.skip, n)
    decreases |ptrs| - i
  {
    hide View, Coherent, Ptr, FetchPtr, WellFormed;
    if i == |ptrs| || c.left == 0 {
    } else if 0 < c.skip {
      ReadSlotsPages(s, o, a, c.(skip := c.skip - 1), ptrs, i + 1);
    } else {
      FetchPtrView(c.layer, s.layer, ptrs[i]);
      var (y, block) := FetchPtr(c.layer, ptrs[i]);
      var c' := Cursor(y, 0, c.left - 1, c.out + [block]);
      ReadSlotsPages(s, o, a, c', ptrs, i + 1);
      var n := Min(c.left, |ptrs| - i);
      PagesSplit(s, o, a + i, 1, n - 1);
      assert block == PageBlock(s, o, a + i);
      assert [block] == Pages(s, o, a + i, 1);
    }
  }

  lemma GroupSlots(s: Store, o: nat, j: nat)
    requires WellFormed(s) && o < MAX_OBJECTS && j < 4
    ensures Slots(s, o, 4 + 1024 * j, Words(View(s.layer, s.objs[o].indirect[j] - WRITE_OFFSET)))
  {
    hide Coherent, View;
    var block := View(s.layer, s.objs[o].indirect[j] - WRITE_OFFSET);
    forall e | 0 <= e < WORDS_PER_BLOCK ensures Words(block)[e] == Ptr(s, Page(o, 4 + 1024 * j + e)) {
      assert GroupOf(4 + 1024 * j + e) == j && EntryOf(4 + 1024 * j + e) == e;
      if s.objs[o].indirect[j] == 0 {
        NoBlock(s.layer, e);
      }
    }
  }

  lemma NoBlock(layer: Layer, e: nat)
    requires e < WORDS_PER_BLOCK
    ensures WordAt(View(layer, -WRITE_OFFSET), e) == 0
  {
    ZeroWords(e);
  }

  lemma DirectSlots(s: Store, o: nat)
    requires WellFormed(s) && o < MAX_OBJECTS
    ensures Slots(s, o, 0, s.objs[o].direct) && Coherent(s.layer) && SameViews(s.layer, s.layer)
    ensures |s.objs| == MAX_OBJECTS && |s.objs[o].direct| == 4 == |s.objs[o].indirect|
    ensures forall a :: Pages(s, o, a, 0) == []
  {
    hide Coherent, View;
  }

  lemma {:induction false} ReadGroupsPages(s: Store, o: nat, c: Cursor, j: nat)
    requires WellFormed(s) && o < MAX_OBJECTS && j <= 4
    requires Coherent(c.layer) && SameViews(c.layer, s.layer)
    ensures var (r, n) := (ReadGroups(c, s.objs[o].indirect, j), Min(c.left, Max(0, 1024 * (4 - j) - c.skip)));
      && SameViews(r.layer, s.layer)
      && r.left == c.left - n
      && r.out == c.out + Pages(s, o, 4 + 1024 * j + c.skip, n)
    decreases 4 - j
  {
    hide View, Coherent, Ptr, FetchPtr, ReadSlots, Slots, Pages, SameViews, Words, WellFormed;
    DirectSlots(s, o);
    var indirect := s.objs[o].indirect;
    if j < 4 && c.left != 0 {
      FetchPtrView(c.layer, s.layer, indirect[j]);
      var (y, block) := FetchPtr(c.layer, indirect[j]);
      GroupSlots(s, o, j);
      ReadSlotsPages(s, o, 4 + 1024 * j, c.(layer := y), Words(block), 0);
      var c' := ReadSlots(c.(layer := y), Words(block), 0);
      ReadGroupsPages(s, o, c', j + 1);
      var m := Min(c.left, Max(0, 1024 - c.skip));
      var n := Min(c'.left, Max(0, 1024 * (3 - j) - c'.skip));
      PagesSplit(s, o, 4 + 1024 * j + c.skip, m, n);
    }
  }

  /** objstore_read fetches pages PageOf(offset), PageOf(offset) + 1, ... in order,
      one for each 4096 bytes asked for, and disturbs nothing that is seen. */
  lemma ReadAllPages(s: Store, o: nat, size: nat, offset: nat)
    requires WellFormed(s) && o < MAX_OBJECTS
    requires PageOf(offset) + BlocksFor(size) <= MAX_PAGES
    ensures ReadAll(s, o, size, offset).out == Pages(s, o, PageOf(offset), BlocksFor(size))
    ensures SameViews(ReadAll(s, o, size, offset).layer, s.layer)
  {
    hide View, Coherent, ReadSlots, ReadGroups, PageOf, BlocksFor, Slots, Ptr, SameViews, Pages;
    var (first, n) := (PageOf(offset), BlocksFor(size));
    var c := Cursor(s.layer, first, n, []);
    DirectSlots(s, o);
    ReadSlotsPages(s, o, 0, c, s.objs[o].direct, 0);
    var c1 := ReadSlots(c, s.objs[o].direct, 0);
    ReadGroupsPages(s, o, c1, 0);
    var m: nat := Min(n, Max(0, 4 - first as int));
    PagesSplit(s, o, first, m, n - m);
  }

  /** An object of 16 MB, wherever in it a read starts, lies within the pages there are. */
  lemma LargestObjectFits(size: nat, offset: nat)
    requires offset + size <= 16 * 1024 * 1024
    ensures PageOf(offset) + BlocksFor(size) <= MAX_PAGES
  {
  }

  /** Past the first four pages, group and entry name a page and no other. */
  lemma AddressingIsExact(page: nat, other: nat)
    requires DIRECT <= page < MAX_PAGES && DIRECT <= other < MAX_PAGES
    ensures page == DIRECT + WORDS_PER_BLOCK * GroupOf(page) + EntryOf(page)
    ensures GroupOf(page) == GroupOf(other) && EntryOf(page) == EntryOf(other) ==> page == other
  {
  }
}
