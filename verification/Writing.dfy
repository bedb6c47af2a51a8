/** What one objstore_write does to ownership and to contents, and exactly when
    it does what a write should. */
module Writing {
  import opened Options
  import opened Blocks
  import opened BlockLayer
  import opened StoreModel
  import opened Ownership

  lemma TakenEffect(s: Store, b: nat, block: Block)
    requires WellFormed(s) && IsData(b) && !s.data[b] && Owned(s.data, s.inode, Pointers(s))
    ensures forall t :: Ptr(Taken(s, b, block), t) == Ptr(s, t)
    ensures forall x :: View(Taken(s, b, block).layer, x) == if x == b then block else View(s.layer, x)
  {
    WriteBlockView(s.layer, b, block);
    SamePointers(s, Taken(s, b, block));
  }

  // ---------- the pointers after each branch ----------

  lemma DirectPointers(s: Store, o: nat, page: nat, b: nat, size: nat, adjust: nat)
    requires WellFormed(s) && o < MAX_OBJECTS && page < DIRECT
    ensures var s' := WriteDirect(s, o, page, b, size, adjust);
      forall t ::
          Ptr(s', t) ==
            (if t != Page(o, page) then Ptr(s, t)
             else if Ptr(s, t) == 0 then WRITE_OFFSET + b else b + adjust)
  {
  }

  /** A word of an indirect block is set, the block being n. */
  ghost predicate EntrySet(s: Store, s': Store, o: nat, page: nat, n: nat, v: int)
    requires WellFormed(s) && WellFormed(s') && o < MAX_OBJECTS && DIRECT <= page < MAX_PAGES
  {
    var g := GroupOf(page);
    && IsData(n)
    && (s.objs[o].indirect[g] == 0 || s.objs[o].indirect[g] == WRITE_OFFSET + n)
    && (forall k :: 0 <= k < MAX_OBJECTS ==> s'.objs[k].direct == s.objs[k].direct)
    && (forall k :: 0 <= k < MAX_OBJECTS && k != o ==> s'.objs[k].indirect == s.objs[k].indirect)
    && s'.objs[o].indirect == s.objs[o].indirect[g := WRITE_OFFSET + n]
    && (forall x :: x != n ==> View(s'.layer, x) == View(s.layer, x))
    && (forall e :: 0 <= e < WORDS_PER_BLOCK ==>
          WordAt(View(s'.layer, n), e) ==
            (if e == EntryOf(page) then v
             else if s.objs[o].indirect[g] == 0 then 0
             else WordAt(View(s.layer, n), e)))
  }

  lemma EntrySetPointers(s: Store, s': Store, o: nat, page: nat, n: nat, v: int)
    requires WellFormed(s) && WellFormed(s') && o < MAX_OBJECTS && DIRECT <= page < MAX_PAGES
    requires EntrySet(s, s', o, page, n, v)
    requires forall k, l :: 0 <= k < MAX_OBJECTS && 0 <= l < 4 && (k != o || l != GroupOf(page)) ==>
      s.objs[k].indirect[l] != WRITE_OFFSET + n
    ensures forall t ::
        Ptr(s', t) ==
          (if t == Page(o, page) then v
           else if t == Indirect(o, GroupOf(page)) then WRITE_OFFSET + n
           else Ptr(s, t))
  {
    forall t | t != Page(o, page) && t != Indirect(o, GroupOf(page)) ensures Ptr(s', t) == Ptr(s, t) {
      if IsSite(t) && t.Page? && DIRECT <= t.page {
        if t.o == o && GroupOf(t.page) == GroupOf(page) {
          assert EntryOf(t.page) != EntryOf(page);
        } else {
          assert s.objs[t.o].indirect[GroupOf(t.page)] != WRITE_OFFSET + n;
        }
      }
    }
  }

  lemma NewIndirectSets(s: Store, o: nat, page: nat, b: nat, size: nat)
    requires WellFormed(s) && o < MAX_OBJECTS && DIRECT <= page < MAX_PAGES && IsData(b)
    requires s.objs[o].indirect[GroupOf(page)] == 0
    requires FirstClear(s.data) < DATA_BLOCKS
    ensures EntrySet(s, WriteNewIndirect(s, o, page, b, size), o, page, FirstClear(s.data), WRITE_OFFSET + b)
  {
    hide GroupOf, EntryOf, WriteBlock, Coherent;
    var n := FirstClear(s.data);
    var block := PutWord(Zero(), EntryOf(page), WRITE_OFFSET + b);
    WriteBlockView(s.layer, n, block);
    forall e | 0 <= e < WORDS_PER_BLOCK
      ensures WordAt(block, e) == if e == EntryOf(page) then WRITE_OFFSET + b else 0
    {
      PutWordReads(Zero(), EntryOf(page), WRITE_OFFSET + b, e);
      ZeroWords(e);
    }
  }

  lemma IndirectSets(s: Store, o: nat, page: nat, b: nat, size: nat, adjust: nat)
    requires WellFormed(s) && o < MAX_OBJECTS && DIRECT <= page < MAX_PAGES && IsData(b)
    requires s.objs[o].indirect[GroupOf(page)] != 0
    ensures var (s', n) := (WriteIndirect(s, o, page, b, size, adjust),
        s.objs[o].indirect[GroupOf(page)] - WRITE_OFFSET);
      && EntrySet(s, s', o, page, n, WRITE_OFFSET + b)
      && s'.data == if Ptr(s, Page(o, page)) == 0 then s.data else Toggle(s.data, Ptr(s, Page(o, page)) - adjust)
  {
    hide GroupOf, EntryOf, WriteBlock, Coherent, View, SetEntry, WordAt;
    SetEntryView(s.layer, s.objs[o].indirect[GroupOf(page)] - WRITE_OFFSET, EntryOf(page), WRITE_OFFSET + b);
  }

  // ---------- what a write is for ----------

  /** What a reader finds at a page of an object: nothing, or a block. */
  ghost function Content(s: Store, o: int, page: int): Option<Block>
    requires WellFormed(s)
  {
    if Ptr(s, Page(o, page)) == 0 then None else Some(View(s.layer, Ptr(s, Page(o, page)) - WRITE_OFFSET))
  }

  /** A block that is the buffer, and zeros after it. */
  ghost predicate HoldsBuf(c: Option<Block>, buf: seq<Byte>) {
    c.Some? && forall k :: 0 <= k < BLOCK_SIZE ==> c.value[k] == if k < |buf| then buf[k] else 0
  }

  lemma HoldsPad(c: Option<Block>, buf: seq<Byte>)
    requires |buf| <= BLOCK_SIZE
    ensures HoldsBuf(c, buf) <==> c == Some(Pad(buf))
  {
    hide Pad;
    if HoldsBuf(c, buf) {
      assert c.value == Pad(buf);
    }
  }

  /** s' is s with one page replaced by the buffer and zeros, and is sound. */
  ghost predicate Stored(s: Store, s': Store, o: nat, page: nat, buf: seq<Byte>)
    requires WellFormed(s) && |buf| <= BLOCK_SIZE
  {
    && Inv(s')
    && HoldsBuf(Content(s', o, page), buf)
    && forall k, p :: !(k == o && p == page) ==> Content(s', k, p) == Content(s, k, p)
  }

  /** One site is given block b, releasing the block it had, if any. */
  lemma PlaceOwner(data: seq<bool>, inode: seq<bool>, p: Site -> int, p': Site -> int, t: Site, b: nat)
    requires Owned(data, inode, p) && b < |data| && !data[b]
    requires 0 <= t.o < |inode| && inode[t.o]
    requires forall u :: p'(u) == if u == t then WRITE_OFFSET + b else p(u)
    ensures p(t) == 0 ==> Owned(data[b := true], inode, p')
    ensures p(t) != 0 ==> Owned(Toggle(data[b := true], p(t) - WRITE_OFFSET), inode, p')
  {
    if p(t) == 0 {
      AddOwner(data, inode, p, p', t, b);
    } else {
      var q := (u: Site) => if u == t then 0 else p(u);
      DropOwner(data, inode, p, q, t);
      var data1 := Toggle(data, p(t) - WRITE_OFFSET);
      AddOwner(data1, inode, q, p', t, b);
      assert data1[b := true] == Toggle(data[b := true], p(t) - WRITE_OFFSET);
    }
  }

  /** Page page of o now points at b, and a new indirect slot, if any, at n. */
  ghost predicate Repointed(s: Store, s': Store, o: nat, page: nat, b: nat, grows: bool, n: nat)
    requires WellFormed(s) && WellFormed(s') && (grows ==> DIRECT <= page)
  {
    forall t :: Ptr(s', t) ==
      (if t == Page(o, page) then WRITE_OFFSET + b
       else if grows && t == Indirect(o, GroupOf(page)) then WRITE_OFFSET + n
       else Ptr(s, t))
  }

  /** Block b holds the buffer; the blocks of all pages are seen as before. */
  ghost predicate Filled(s: Store, layer': Layer, b: nat, buf: seq<Byte>)
    requires WellFormed(s) && |buf| <= BLOCK_SIZE
  {
    && View(layer', b) == Pad(buf)
    && forall k, p :: Ptr(s, Page(k, p)) != 0 ==>
         View(layer', Ptr(s, Page(k, p)) - WRITE_OFFSET) == View(s.layer, Ptr(s, Page(k, p)) - WRITE_OFFSET)
  }

  /** The bit of b is set, and so is that of n or cleared that of the old block. */
  ghost predicate Rebooked(s: Store, data': seq<bool>, o: nat, page: nat, b: nat, grows: bool, n: nat)
    requires WellFormed(s) && IsData(b) && (grows ==> IsData(n))
  {
    data' ==
      (if grows then s.data[b := true][n := true]
       else if Ptr(s, Page(o, page)) == 0 then s.data[b := true]
       else Toggle(s.data[b := true], Ptr(s, Page(o, page)) - WRITE_OFFSET))
  }

  /** What each branch of a write amounts to. */
  ghost predicate Placed(s: Store, s': Store, o: nat, page: nat, b: nat, buf: seq<Byte>, grows: bool, n: nat)
    requires WellFormed(s) && |buf| <= BLOCK_SIZE && IsData(b) && (grows ==> IsData(n) && DIRECT <= page)
  {
    && WellFormed(s') && Numbered(s') && s'.inode == s.inode
    && Repointed(s, s', o, page, b, grows, n)
    && Filled(s, s'.layer, b, buf)
    && Rebooked(s, s'.data, o, page, b, grows, n)
  }

  lemma PlacedOwned(s: Store, s': Store, o: nat, page: nat, b: nat, buf: seq<Byte>, grows: bool, n: nat)
    requires Inv(s) && Live(s, o) && page < MAX_PAGES && IsData(b) && !s.data[b] && |buf| <= BLOCK_SIZE
    requires grows ==> DIRECT <= page && IsData(n) && n != b && !s.data[n]
    requires grows ==> Ptr(s, Page(o, page)) == 0 && Ptr(s, Indirect(o, GroupOf(page))) == 0
    requires Placed(s, s', o, page, b, buf, grows, n)
    ensures Owned(s'.data, s'.inode, Pointers(s'))
  {
    hide GroupOf, EntryOf, WriteBlock, Coherent, Owned, View, Ptr;
    var p := Pointers(s);
    if grows {
      var q := (t: Site) => if t == Page(o, page) then WRITE_OFFSET + b else p(t);
      AddOwner(s.data, s.inode, p, q, Page(o, page), b);
      AddOwner(s.data[b := true], s.inode, q, Pointers(s'), Indirect(o, GroupOf(page)), n);
    } else {
      PlaceOwner(s.data, s.inode, p, Pointers(s'), Page(o, page), b);
    }
  }

  lemma PlacedGrouped(s: Store, s': Store, o: nat, page: nat, b: nat, grows: bool, n: nat)
    requires WellFormed(s) && WellFormed(s') && Grouped(s) && page < MAX_PAGES && (grows ==> DIRECT <= page)
    requires Repointed(s, s', o, page, b, grows, n)
    ensures Grouped(s')
  {
    hide Ptr, WellFormed, GroupOf;
    forall k, l | Ptr(s', Indirect(k, l)) != 0 ensures HasPage(s', k, l) {
      if Ptr(s, Indirect(k, l)) != 0 {
        assert HasPage(s, k, l);
        var p :| DIRECT <= p < MAX_PAGES && GroupOf(p) == l && Ptr(s, Page(k, p)) != 0;
        assert Ptr(s', Page(k, p)) != 0;
      } else {
        assert Ptr(s', Page(o, page)) != 0;
      }
    }
  }

  lemma PlacedContents(s: Store, s': Store, o: nat, page: nat, b: nat, buf: seq<Byte>, grows: bool, n: nat)
    requires Inv(s) && Live(s, o) && page < MAX_PAGES && IsData(b) && !s.data[b] && |buf| <= BLOCK_SIZE
    requires grows ==> DIRECT <= page && IsData(n) && n != b && !s.data[n]
    requires grows ==> Ptr(s, Page(o, page)) == 0 && Ptr(s, Indirect(o, GroupOf(page))) == 0
    requires Placed(s, s', o, page, b, buf, grows, n)
    ensures forall k, p :: Content(s', k, p) == if k == o && p == page then Some(Pad(buf)) else Content(s, k, p)
  {
    hide GroupOf, EntryOf, WriteBlock, Coherent, Owned, View, Ptr, WellFormed, Numbered;
  }

  lemma PlacedStores(s: Store, s': Store, o: nat, page: nat, b: nat, buf: seq<Byte>, grows: bool, n: nat)
    requires Inv(s) && Live(s, o) && page < MAX_PAGES && IsData(b) && !s.data[b] && |buf| <= BLOCK_SIZE
    requires grows ==> DIRECT <= page && IsData(n) && n != b && !s.data[n]
    requires grows ==> Ptr(s, Page(o, page)) == 0 && Ptr(s, Indirect(o, GroupOf(page))) == 0
    requires Placed(s, s', o, page, b, buf, grows, n)
    ensures Stored(s, s', o, page, buf)
  {
    assert Inv(s') by {
      PlacedOwned(s, s', o, page, b, buf, grows, n);
      PlacedGrouped(s, s', o, page, b, grows, n);
    }
    PlacedContents(s, s', o, page, b, buf, grows, n);
    hide GroupOf, EntryOf, WriteBlock, Inv, Placed, Coherent, Owned, View, Ptr, WellFormed;
  }

  /** Pages are seen unchanged when only b (a free block) and n (free, or an
      indirect block) were written. */
  lemma OnlyFreeOrIndirect(s: Store, layer': Layer, b: nat, n: nat, buf: seq<Byte>)
    requires Inv(s) && |buf| <= BLOCK_SIZE
    requires IsData(b) && !s.data[b]
    requires IsData(n) && (!s.data[n] || exists k, l :: Ptr(s, Indirect(k, l)) == WRITE_OFFSET + n)
    requires forall x :: x != n && x != b ==> View(layer', x) == View(s.layer, x)
    requires View(layer', b) == Pad(buf)
    ensures Filled(s, layer', b, buf)
  {
    hide Coherent, Owned, View, Ptr;
    forall k, p | Ptr(s, Page(k, p)) != 0
      ensures View(layer', Ptr(s, Page(k, p)) - WRITE_OFFSET) == View(s.layer, Ptr(s, Page(k, p)) - WRITE_OFFSET)
    {
      SiteInUse(s, Page(k, p));
    }
  }

  /** No branch of a write touches an object's number, or a dead object at all. */
  lemma PlaceNumbered(s: Store, o: nat, page: nat, b: nat, size: nat, adjust: nat, s': Store)
    requires WellFormed(s) && Numbered(s) && Live(s, o) && page < MAX_PAGES && IsData(b)
    requires NeedsTwo(s.objs[o], page) ==> FirstClear(s.data) < DATA_BLOCKS
    requires s' == Place(s, o, page, b, size, adjust)
    ensures WellFormed(s') && Numbered(s') && s'.inode == s.inode
  {
    hide GroupOf, EntryOf, WriteBlock, Coherent, View;
  }

  lemma DirectPlaces(s: Store, o: nat, page: nat, b: nat, buf: seq<Byte>, adjust: nat, s': Store)
    requires Inv(s) && Live(s, o) && page < DIRECT && IsData(b) && !s.data[b] && |buf| <= BLOCK_SIZE
    requires Ptr(s, Page(o, page)) == 0 || adjust == WRITE_OFFSET
    requires s' == WriteDirect(Taken(s, b, Pad(buf)), o, page, b, |buf|, adjust)
    ensures Repointed(s, s', o, page, b, false, 0)
    ensures Filled(s, s'.layer, b, buf)
    ensures Rebooked(s, s'.data, o, page, b, false, 0)
  {
    hide Coherent, Owned, View, WriteBlock;
    var s2 := Taken(s, b, Pad(buf));
    TakenEffect(s, b, Pad(buf));
    DirectPointers(s2, o, page, b, |buf|, adjust);
    assert Ptr(s, Page(o, page)) == s2.objs[o].direct[page];
    hide Ptr;
    OnlyFreeOrIndirect(s, s2.layer, b, b, buf);
  }

  lemma NewIndirectPlaces(s: Store, o: nat, page: nat, b: nat, buf: seq<Byte>, s': Store)
    requires Inv(s) && Live(s, o) && DIRECT <= page < MAX_PAGES && IsData(b) && !s.data[b] && |buf| <= BLOCK_SIZE
    requires s.objs[o].indirect[GroupOf(page)] == 0
    requires FirstClear(s.data[b := true]) < DATA_BLOCKS
    requires s' == WriteNewIndirect(Taken(s, b, Pad(buf)), o, page, b, |buf|)
    ensures Repointed(s, s', o, page, b, true, FirstClear(s.data[b := true]))
    ensures Filled(s, s'.layer, b, buf)
    ensures Rebooked(s, s'.data, o, page, b, true, FirstClear(s.data[b := true]))
  {
    hide Coherent, Owned, View, WriteBlock, GroupOf, EntryOf;
    var s2 := Taken(s, b, Pad(buf));
    var n := FirstClear(s2.data);
    TakenEffect(s, b, Pad(buf));
    NewIndirectSets(s2, o, page, b, |buf|);
    forall k, l | 0 <= k < MAX_OBJECTS && 0 <= l < 4 ensures s2.objs[k].indirect[l] != WRITE_OFFSET + n {
      if s2.objs[k].indirect[l] != 0 {
        assert Ptr(s, Indirect(k, l)) == s2.objs[k].indirect[l];
        SiteInUse(s, Indirect(k, l));
      }
    }
    EntrySetPointers(s2, s', o, page, n, WRITE_OFFSET + b);
    hide Ptr;
    OnlyFreeOrIndirect(s, s'.layer, b, n, buf);
  }

  lemma IndirectSlot(s: Store, o: nat, g: nat)
    requires WellFormed(s) && o < MAX_OBJECTS && g < 4
    ensures Ptr(s, Indirect(o, g)) == s.objs[o].indirect[g]
    ensures s.objs[o].indirect[g] != 0 ==> IsData(s.objs[o].indirect[g] - WRITE_OFFSET)
  {
  }

  lemma IndirectPlaces(s: Store, o: nat, page: nat, b: nat, buf: seq<Byte>, adjust: nat, s': Store)
    requires Inv(s) && Live(s, o) && DIRECT <= page < MAX_PAGES && IsData(b) && !s.data[b] && |buf| <= BLOCK_SIZE
    requires s.objs[o].indirect[GroupOf(page)] != 0
    requires Ptr(s, Page(o, page)) == 0 || adjust == WRITE_OFFSET
    requires s' == WriteIndirect(Taken(s, b, Pad(buf)), o, page, b, |buf|, adjust)
    ensures Repointed(s, s', o, page, b, false, 0)
    ensures Filled(s, s'.layer, b, buf)
    ensures Rebooked(s, s'.data, o, page, b, false, 0)
  {
    hide Coherent, Owned, Numbered, Grouped, View, Ptr, WriteBlock, GroupOf, EntryOf, WriteIndirect;
    var i := Indirect(o, GroupOf(page));
    var n := s.objs[o].indirect[GroupOf(page)] - WRITE_OFFSET;
    IndirectSlot(s, o, GroupOf(page));
    var s2 := Taken(s, b, Pad(buf));
    TakenEffect(s, b, Pad(buf));
    WriteIndirectPointers(s, s2, o, page, b, |buf|, adjust);
    SiteInUse(s, i);
    OnlyFreeOrIndirect(s, s'.layer, b, n, buf);
  }

  lemma WriteIndirectPointers(s: Store, s2: Store, o: nat, page: nat, b: nat, size: nat, adjust: nat)
    requires Inv(s) && WellFormed(s2) && o < MAX_OBJECTS && DIRECT <= page < MAX_PAGES && IsData(b)
    requires s2.objs == s.objs && forall t :: Ptr(s2, t) == Ptr(s, t)
    requires s.objs[o].indirect[GroupOf(page)] != 0
    ensures var (s', n) := (WriteIndirect(s2, o, page, b, size, adjust),
        s.objs[o].indirect[GroupOf(page)] - WRITE_OFFSET);
      && (forall t :: Ptr(s', t) == if t == Page(o, page) then WRITE_OFFSET + b else Ptr(s, t))
      && (forall x :: x != n ==> View(s'.layer, x) == View(s2.layer, x))
      && s'.data == if Ptr(s, Page(o, page)) == 0 then s2.data else Toggle(s2.data, Ptr(s, Page(o, page)) - adjust)
  {
    hide Coherent, Owned, Numbered, Grouped, View, Ptr, WriteBlock, SetEntry, GroupOf, EntryOf, WriteIndirect;
    var n := s.objs[o].indirect[GroupOf(page)] - WRITE_OFFSET;
    var s' := WriteIndirect(s2, o, page, b, size, adjust);
    IndirectSlot(s, o, GroupOf(page));
    IndirectSets(s2, o, page, b, size, adjust);
    SiteInUse(s, Indirect(o, GroupOf(page)));
    forall k, l | 0 <= k < MAX_OBJECTS && 0 <= l < 4 && (k != o || l != GroupOf(page))
      ensures s2.objs[k].indirect[l] != WRITE_OFFSET + n
    {
      IndirectSlot(s, k, l);
    }
    EntrySetPointers(s2, s', o, page, n, WRITE_OFFSET + b);
  }

  // ---------- exactly when a write is right ----------

  lemma PlaceStores(s: Store, o: nat, page: nat, b: nat, buf: seq<Byte>, adjust: nat)
    requires Inv(s) && Live(s, o) && page < MAX_PAGES && IsData(b) && !s.data[b] && |buf| <= BLOCK_SIZE
    requires NeedsTwo(s.objs[o], page) ==> FirstClear(s.data[b := true]) < DATA_BLOCKS
    requires Ptr(s, Page(o, page)) == 0 || adjust == WRITE_OFFSET
    ensures Stored(s, Place(Taken(s, b, Pad(buf)), o, page, b, |buf|, adjust), o, page, buf)
  {
    var s2 := Taken(s, b, Pad(buf));
    var s' := Place(s2, o, page, b, |buf|, adjust);
    assert Numbered(s2);
    hide Coherent, Owned, View, Numbered, Repointed, Filled, Rebooked, Stored, WriteBlock;
    PlaceNumbered(s2, o, page, b, |buf|, adjust, s');
    if page < DIRECT {
      DirectPlaces(s, o, page, b, buf, adjust, s');
      PlacedStores(s, s', o, page, b, buf, false, 0);
    } else if s.objs[o].indirect[GroupOf(page)] == 0 {
      NewIndirectPlaces(s, o, page, b, buf, s');
      PlacedStores(s, s', o, page, b, buf, true, FirstClear(s.data[b := true]));
    } else {
      IndirectPlaces(s, o, page, b, buf, adjust, s');
      PlacedStores(s, s', o, page, b, buf, false, 0);
    }
  }

  /** Marking a chunk of the table changes no pointer. */
  lemma MarkKeeps(s: Store, o: nat)
    requires Inv(s) && o < MAX_OBJECTS
    ensures Inv(Mark(s, o))
    ensures forall t :: Ptr(Mark(s, o), t) == Ptr(s, t)
  {
    SamePointers(s, Mark(s, o));
    SameGroups(s, Mark(s, o));
    hide Grouped;
    OwnedExt(s.data, s.inode, Pointers(s), Pointers(Mark(s, o)));
  }

  lemma StoredSinceMark(s: Store, s': Store, o: nat, page: nat, buf: seq<Byte>)
    requires Inv(s) && o < MAX_OBJECTS && |buf| <= BLOCK_SIZE
    ensures Stored(Mark(s, o), s', o, page, buf) <==> Stored(s, s', o, page, buf)
  {
    MarkKeeps(s, o);
    assert Mark(s, o).layer == s.layer;
    hide GroupOf, EntryOf, WriteBlock, Inv, Coherent, Owned, View, Ptr, Mark;
    assert forall k, p :: Content(Mark(s, o), k, p) == Content(s, k, p);
  }

  lemma WriteStores(s: Store, objid: int, buf: seq<Byte>, offset: nat, adjust: nat)
    requires Inv(s) && CanWrite(s, objid, buf, offset) && 2 <= objid && Live(s, objid - 2)
    requires FirstClear(s.data) < DATA_BLOCKS
    requires Ptr(s, Page(objid - 2, PageOf(offset))) == 0 || adjust == WRITE_OFFSET
    ensures Stored(s, Write(s, objid, buf, offset, adjust).0, objid - 2, PageOf(offset), buf)
  {
    hide GroupOf, EntryOf, WriteBlock, Coherent, Owned, View, Ptr, Stored;
    MarkKeeps(s, objid - 2);
    PlaceStores(Mark(s, objid - 2), objid - 2, PageOf(offset), FirstClear(s.data), buf, adjust);
    StoredSinceMark(s, Write(s, objid, buf, offset, adjust).0, objid - 2, PageOf(offset), buf);
  }

  /** Replacing a direct page without the adjustment: either the new block is
      left unowned, or (when the wrong bit is the new block's) the write is lost. */
  lemma DirectOverwriteFails(s: Store, o: nat, page: nat, b: nat, buf: seq<Byte>, adjust: nat)
    requires Inv(s) && Live(s, o) && page < DIRECT && IsData(b) && !s.data[b] && |buf| <= BLOCK_SIZE
    requires Ptr(s, Page(o, page)) != 0 && adjust != WRITE_OFFSET
    requires Content(s, o, page) != Some(Pad(buf))
    ensures !Stored(s, WriteDirect(Taken(s, b, Pad(buf)), o, page, b, |buf|, adjust), o, page, buf)
  {
    hide GroupOf, EntryOf, WriteBlock, Coherent, Owned, Ptr, View, Pad, Grouped, Numbered, Stored;
    var s2 := Taken(s, b, Pad(buf));
    TakenEffect(s, b, Pad(buf));
    var s' := WriteDirect(s2, o, page, b, |buf|, adjust);
    DirectPointers(s2, o, page, b, |buf|, adjust);
    var prior := Ptr(s, Page(o, page));
    SiteInUse(s, Page(o, page));
    DirectBit(s2, o, page, b, |buf|, adjust);
    if prior - adjust == b {
      assert Content(s', o, page) == Content(s, o, page);
      NotStored(s, s', o, page, buf);
    } else {
      forall t ensures Ptr(s', t) != WRITE_OFFSET + b {
        if Ptr(s, t) == WRITE_OFFSET + b {
          SiteInUse(s, t);
        }
      }
      Unowned(s', b);
      NotStored(s, s', o, page, buf);
    }
  }

  lemma DirectBit(s: Store, o: nat, page: nat, b: nat, size: nat, adjust: nat)
    requires WellFormed(s) && o < MAX_OBJECTS && page < DIRECT && IsData(b) && s.data[b]
    requires Ptr(s, Page(o, page)) != 0
    ensures var s' := WriteDirect(s, o, page, b, size, adjust);
      s'.layer == s.layer && (Ptr(s, Page(o, page)) - adjust != b ==> InUse(s'.data, WRITE_OFFSET + b))
  {
    hide Coherent, View;
  }

  /** A set bit that no pointer names. */
  lemma Unowned(s: Store, b: nat)
    requires WellFormed(s) && InUse(s.data, WRITE_OFFSET + b) && forall t :: Ptr(s, t) != WRITE_OFFSET + b
    ensures !Inv(s)
  {
    hide Coherent, Numbered, Grouped, Ptr, View;
    if Inv(s) {
      SetBitHasOneOwner(s.data, s.inode, Pointers(s));
    }
  }

  lemma NotStored(s: Store, s': Store, o: nat, page: nat, buf: seq<Byte>)
    requires WellFormed(s) && WellFormed(s') && |buf| <= BLOCK_SIZE
    requires !Inv(s') || Content(s', o, page) != Some(Pad(buf))
    ensures !Stored(s, s', o, page, buf)
  {
    hide Inv, Content, Pad, WellFormed;
    if WellFormed(s') {
      HoldsPad(Content(s', o, page), buf);
    }
  }

  /** Replacing an indirect page without the adjustment: the old block stays set
      with no pointer to it. */
  lemma IndirectOverwriteFails(s: Store, o: nat, page: nat, b: nat, buf: seq<Byte>, adjust: nat)
    requires Inv(s) && Live(s, o) && DIRECT <= page < MAX_PAGES && IsData(b) && !s.data[b] && |buf| <= BLOCK_SIZE
    requires Ptr(s, Page(o, page)) != 0 && adjust != WRITE_OFFSET
    requires s.objs[o].indirect[GroupOf(page)] != 0
    ensures !Stored(s, WriteIndirect(Taken(s, b, Pad(buf)), o, page, b, |buf|, adjust), o, page, buf)
  {
    hide GroupOf, EntryOf, WriteBlock, Coherent, Owned;
    var s2 := Taken(s, b, Pad(buf));
    TakenEffect(s, b, Pad(buf));
    var s' := WriteIndirect(s2, o, page, b, |buf|, adjust);
    WriteIndirectPointers(s, s2, o, page, b, |buf|, adjust);
    var prior := Ptr(s, Page(o, page));
    SiteInUse(s, Page(o, page));
    assert InUse(s'.data, prior);
    SetBitHasOneOwner(s'.data, s'.inode, Pointers(s'));
    assert forall t :: Pointers(s')(t) != prior;
  }

  /** How a write to a mapped page branches. */
  lemma MappedBranch(s: Store, objid: int, buf: seq<Byte>, offset: nat, adjust: nat)
    requires Inv(s) && CanWrite(s, objid, buf, offset) && 2 <= objid && Live(s, objid - 2)
    requires FirstClear(s.data) < DATA_BLOCKS && Ptr(s, Page(objid - 2, PageOf(offset))) != 0
    ensures var (o, page, b) := (objid - 2, PageOf(offset), FirstClear(s.data));
      && WellFormed(s) && o < MAX_OBJECTS && page < MAX_PAGES && |buf| <= BLOCK_SIZE && !s.data[b]
      && WellFormed(Mark(s, o)) && Live(Mark(s, o), o) && IsData(b) && Mark(s, o) == s.(marked := Mark(s, o).marked)
      && (DIRECT <= page ==> s.objs[o].indirect[GroupOf(page)] != 0)
      && var s2 := Taken(Mark(s, o), b, Pad(buf));
         && s2.objs == s.objs
         && Write(s, objid, buf, offset, adjust).1 == |buf|
         && Write(s, objid, buf, offset, adjust).0 ==
              if page < DIRECT then WriteDirect(s2, o, page, b, |buf|, adjust)
              else WriteIndirect(s2, o, page, b, |buf|, adjust)
  {
    hide Coherent, Owned, Grouped, Numbered, View, WriteBlock, WriteDirect, WriteIndirect, WriteNewIndirect, GroupOf,
      EntryOf, WordAt, Pad;
  }

  lemma SameContent(s: Store, s1: Store, o: int, page: int)
    requires WellFormed(s) && WellFormed(s1) && s1.layer == s.layer && forall t :: Ptr(s1, t) == Ptr(s, t)
    ensures Content(s1, o, page) == Content(s, o, page)
  {
    hide WellFormed, Ptr, View;
  }

  lemma OverwriteFails(s: Store, objid: int, buf: seq<Byte>, offset: nat, adjust: nat)
    requires Inv(s) && CanWrite(s, objid, buf, offset) && 2 <= objid && Live(s, objid - 2)
    requires FirstClear(s.data) < DATA_BLOCKS
    requires Ptr(s, Page(objid - 2, PageOf(offset))) != 0 && adjust != WRITE_OFFSET
    requires Content(s, objid - 2, PageOf(offset)) != Some(Pad(buf))
    ensures !Stored(s, Write(s, objid, buf, offset, adjust).0, objid - 2, PageOf(offset), buf)
  {
    hide GroupOf, Inv, WellFormed, CanWrite, Ptr, Stored, Content, Write, Mark, WriteDirect, WriteIndirect, Taken, Pad,
      Live, PageOf;
    var (o, page, b) := (objid - 2, PageOf(offset), FirstClear(s.data));
    MappedBranch(s, objid, buf, offset, adjust);
    MarkKeeps(s, o);
    var s1 := Mark(s, o);
    SameContent(s, s1, o, page);
    StoredSinceMark(s, Write(s, objid, buf, offset, adjust).0, o, page, buf);
    if page < DIRECT {
      DirectOverwriteFails(s1, o, page, b, buf, adjust);
    } else {
      IndirectOverwriteFails(s1, o, page, b, buf, adjust);
    }
  }

  /** objstore_write stores every buffer at this place, keeping the store sound
      and every other page of every object, exactly when the page holds no block
      yet. With the adjustment it does so whatever the page holds. */
  lemma WriteRightIffUnmapped(s: Store, objid: int, offset: nat, adjust: nat)
    requires Inv(s) && 2 <= objid && CanWrite(s, objid, [], offset) && Live(s, objid - 2)
    requires FirstClear(s.data) < DATA_BLOCKS
    ensures (forall buf: seq<Byte> | |buf| <= BLOCK_SIZE ::
               Stored(s, Write(s, objid, buf, offset, adjust).0, objid - 2, PageOf(offset), buf))
        <==> Content(s, objid - 2, PageOf(offset)) == None || adjust == WRITE_OFFSET
  {
    hide GroupOf, EntryOf, WriteBlock, Coherent, Owned, View, Ptr, Stored, Write;
    var (o, page) := (objid - 2, PageOf(offset));
    if Content(s, o, page) == None || adjust == WRITE_OFFSET {
      forall buf: seq<Byte> | |buf| <= BLOCK_SIZE
        ensures Stored(s, Write(s, objid, buf, offset, adjust).0, o, page, buf)
      {
        WriteStores(s, objid, buf, offset, adjust);
      }
    } else {
      var buf: seq<Byte> := [if Content(s, o, page).value[0] == 0 then 1 else 0];
      assert Pad(buf)[0] == buf[0];
      OverwriteFails(s, objid, buf, offset, adjust);
    }
  }

  // ---------- what an overwrite does as it stands ----------

  /** Bit b is set, and then bit n, if the map has one, is flipped. */
  ghost predicate SetThenFlipped(data: seq<bool>, data': seq<bool>, b: nat, n: int) {
    && |data'| == |data|
    && forall k :: 0 <= k < |data| ==> data'[k] == ((data[k] || k == b) != (k == n))
  }

  predicate SameButPointers(a: Object, b: Object) {
    a.id == b.id && a.size == b.size && a.key == b.key && a.field == b.field
  }

  /** Block b holds the buffer and the blocks of all pages are as they were. A direct
      page's pointer is b itself, an indirect page's WRITE_OFFSET + b, and no other
      pointer changes. The bit whose number is the old pointer is flipped. Sizes,
      names and numbers stay. */
  ghost predicate Overwritten(s: Store, s': Store, o: nat, page: nat, b: nat, buf: seq<Byte>)
    requires WellFormed(s)
  {
    && WellFormed(s') && s'.inode == s.inode
    && (forall t :: Ptr(s', t) ==
          if t != Page(o, page) then Ptr(s, t) else if page < DIRECT then b else WRITE_OFFSET + b)
    && HoldsBuf(Some(View(s'.layer, b)), buf)
    && (forall k, p :: Ptr(s, Page(k, p)) != 0 ==>
          View(s'.layer, Ptr(s, Page(k, p)) - WRITE_OFFSET) == View(s.layer, Ptr(s, Page(k, p)) - WRITE_OFFSET))
    && SetThenFlipped(s.data, s'.data, b, Ptr(s, Page(o, page)))
    && forall k :: 0 <= k < MAX_OBJECTS ==> SameButPointers(s'.objs[k], s.objs[k])
  }

  /** objstore_write on a page that is mapped: the answer, and the whole effect. */
  lemma OverwriteIs(s: Store, objid: int, buf: seq<Byte>, offset: nat)
    requires Inv(s) && CanWrite(s, objid, buf, offset) && 2 <= objid && Live(s, objid - 2)
    requires FirstClear(s.data) < DATA_BLOCKS && Ptr(s, Page(objid - 2, PageOf(offset))) != 0
    ensures var (s', r) := Write(s, objid, buf, offset, 0);
      r == |buf| && Overwritten(s, s', objid - 2, PageOf(offset), FirstClear(s.data), buf)
  {
    hide GroupOf, Inv, WellFormed, CanWrite, Ptr, Overwritten, Write, Mark, WriteDirect, WriteIndirect, Taken, Pad,
      Live, PageOf;
    var (o, page, b) := (objid - 2, PageOf(offset), FirstClear(s.data));
    MappedBranch(s, objid, buf, offset, 0);
    MarkKeeps(s, o);
    var s1 := Mark(s, o);
    if page < DIRECT {
      DirectOverwritten(s1, o, page, b, buf);
    } else {
      IndirectOverwritten(s1, o, page, b, buf);
    }
    OverwrittenSinceMark(s, Write(s, objid, buf, offset, 0).0, o, page, b, buf);
  }

  lemma MarkOnly(s: Store, o: nat)
    requires Inv(s) && o < MAX_OBJECTS
    ensures WellFormed(s) && WellFormed(Mark(s, o)) && Mark(s, o) == s.(marked := Mark(s, o).marked)
  {
    hide Coherent, Owned, Numbered, Grouped;
  }

  lemma OverwrittenSinceMark(s: Store, s': Store, o: nat, page: nat, b: nat, buf: seq<Byte>)
    requires Inv(s) && o < MAX_OBJECTS && Overwritten(Mark(s, o), s', o, page, b, buf)
    ensures Overwritten(s, s', o, page, b, buf)
  {
    hide Inv, WellFormed, View, Ptr, Mark, HoldsBuf, SetThenFlipped, SameButPointers;
    MarkKeeps(s, o);
    MarkOnly(s, o);
  }

  lemma DirectOverwritten(s: Store, o: nat, page: nat, b: nat, buf: seq<Byte>)
    requires Inv(s) && Live(s, o) && page < DIRECT && IsData(b) && !s.data[b] && |buf| <= BLOCK_SIZE
    requires Ptr(s, Page(o, page)) != 0
    ensures Overwritten(s, WriteDirect(Taken(s, b, Pad(buf)), o, page, b, |buf|, 0), o, page, b, buf)
  {
    hide Coherent, Owned, View, WriteBlock;
    var s2 := Taken(s, b, Pad(buf));
    TakenEffect(s, b, Pad(buf));
    DirectPointers(s2, o, page, b, |buf|, 0);
    assert Ptr(s, Page(o, page)) == s2.objs[o].direct[page];
    hide Ptr;
    OnlyFreeOrIndirect(s, s2.layer, b, b, buf);
    HoldsPad(Some(View(s2.layer, b)), buf);
  }

  lemma IndirectOverwritten(s: Store, o: nat, page: nat, b: nat, buf: seq<Byte>)
    requires Inv(s) && Live(s, o) && DIRECT <= page < MAX_PAGES && IsData(b) && !s.data[b] && |buf| <= BLOCK_SIZE
    requires Ptr(s, Page(o, page)) != 0 && s.objs[o].indirect[GroupOf(page)] != 0
    ensures Overwritten(s, WriteIndirect(Taken(s, b, Pad(buf)), o, page, b, |buf|, 0), o, page, b, buf)
  {
    hide Coherent, Owned, Numbered, Grouped, View, Ptr, WriteBlock, GroupOf, EntryOf, WriteIndirect, Pad, Filled;
    var s2 := Taken(s, b, Pad(buf));
    var s' := WriteIndirect(s2, o, page, b, |buf|, 0);
    var n := s.objs[o].indirect[GroupOf(page)] - WRITE_OFFSET;
    IndirectSlot(s, o, GroupOf(page));
    TakenEffect(s, b, Pad(buf));
    WriteIndirectPointers(s, s2, o, page, b, |buf|, 0);
    SiteInUse(s, Indirect(o, GroupOf(page)));
    OnlyFreeOrIndirect(s, s'.layer, b, n, buf);
    IndirectReplaces(s2, o, page, b, |buf|);
    FilledHolds(s, s'.layer, b, buf);
  }

  lemma FilledHolds(s: Store, layer': Layer, b: nat, buf: seq<Byte>)
    requires WellFormed(s) && |buf| <= BLOCK_SIZE && Filled(s, layer', b, buf)
    ensures HoldsBuf(Some(View(layer', b)), buf)
    ensures forall k, p :: Ptr(s, Page(k, p)) != 0 ==>
      View(layer', Ptr(s, Page(k, p)) - WRITE_OFFSET) == View(s.layer, Ptr(s, Page(k, p)) - WRITE_OFFSET)
  {
    hide WellFormed, View, Ptr, Pad;
    HoldsPad(Some(View(layer', b)), buf);
  }

  lemma IndirectReplaces(s: Store, o: nat, page: nat, b: nat, size: nat)
    requires WellFormed(s) && o < MAX_OBJECTS && DIRECT <= page < MAX_PAGES && IsData(b)
    requires s.objs[o].indirect[GroupOf(page)] != 0 && Ptr(s, Page(o, page)) != 0
    ensures var s' := WriteIndirect(s, o, page, b, size, 0);
      WellFormed(s') && s'.objs == s.objs && s'.inode == s.inode
  {
    hide GroupOf, EntryOf, WriteBlock, Coherent, View, SetEntry, WordAt;
    SetEntryView(s.layer, s.objs[o].indirect[GroupOf(page)] - WRITE_OFFSET, EntryOf(page), WRITE_OFFSET + b);
  }
}
