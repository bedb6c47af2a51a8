/** Whole sessions: mount, a run of operations, unmount. The chunk an operation
    marks is the one it changes if 46 entries fill a chunk, as they do where a long
    has four bytes; where it has eight the struct is longer, and marks can miss. */
module Sessions {
  import opened Options
  import opened Blocks
  import opened BlockLayer
  import opened StoreModel
  import opened Ownership
  import opened Writing
  import opened FileMap
  import opened Encoding
  import opened Restart

  // ---------- operations leave the metadata part of the disk alone ----------

  ghost predicate SameMeta(y: Layer, z: Layer) {
    |y.disk| == |z.disk| == DISK_BLOCKS && forall x :: 0 <= x < WRITE_OFFSET ==> z.disk[x] == y.disk[x]
  }

  lemma LayerMeta(l: Layer, b: nat, buf: Block)
    requires Coherent(l) && IsData(b)
    ensures SameMeta(l, WriteBlock(l, b, buf)) && SameMeta(l, Fetch(l, b)) && SameMeta(l, Discard(l, b))
  {
  }

  lemma ReleaseMeta(data: seq<bool>, layer: Layer, ptr: int)
    requires |data| == DATA_BLOCKS && Coherent(layer)
    ensures SameMeta(layer, Release(data, layer, ptr).1)
  {
    if IsData(ptr - WRITE_OFFSET) {
      LayerMeta(layer, ptr - WRITE_OFFSET, Zero());
    }
  }

  lemma {:induction false} DirectMeta(data: seq<bool>, layer: Layer, direct: seq<int>, l: nat)
    requires |data| == DATA_BLOCKS && Coherent(layer) && l <= |direct|
    ensures SameMeta(layer, ReleaseDirect(data, layer, direct, l).1)
    decreases |direct| - l
  {
    hide Coherent, Release;
    if l < |direct| {
      ReleaseMeta(data, layer, direct[l]);
      var (d1, y1) := Release(data, layer, direct[l]);
      DirectMeta(d1, y1, direct, l + 1);
    } else {
      assert SameMeta(layer, layer) by { ShapedMeta(layer); }
    }
  }

  lemma ShapedMeta(layer: Layer)
    requires Coherent(layer)
    ensures SameMeta(layer, layer)
  {
  }

  lemma {:induction false} EntriesMeta(data: seq<bool>, layer: Layer, block: Block, e: nat)
    requires |data| == DATA_BLOCKS && Coherent(layer) && e <= WORDS_PER_BLOCK
    ensures SameMeta(layer, ReleaseEntries(data, layer, block, e).1)
    decreases WORDS_PER_BLOCK - e
  {
    hide Coherent, Release, WordAt;
    if e < WORDS_PER_BLOCK {
      ReleaseMeta(data, layer, WordAt(block, e));
      var (d1, y1) := Release(data, layer, WordAt(block, e));
      EntriesMeta(d1, y1, block, e + 1);
    } else {
      ShapedMeta(layer);
    }
  }

  lemma {:induction false} IndirectMeta(data: seq<bool>, layer: Layer, o: Object, l: nat)
    requires |data| == DATA_BLOCKS && Coherent(layer) && ObjectShaped(o) && l <= 4
    ensures SameMeta(layer, ReleaseIndirect(data, layer, o, l).1)
    decreases 4 - l
  {
    hide Coherent, Release, ReleaseEntries, Fetch, ReadBlock;
    if l == 4 {
      ShapedMeta(layer);
    } else if o.indirect[l] == 0 {
      IndirectMeta(data, layer, o, l + 1);
    } else {
      var b := o.indirect[l] - WRITE_OFFSET;
      ReadBlockView(layer, b);
      LayerMeta(layer, b, Zero());
      EntriesMeta(data, Fetch(layer, b), ReadBlock(layer, b), 0);
      var (d1, y1) := ReleaseEntries(data, Fetch(layer, b), ReadBlock(layer, b), 0);
      ReleaseMeta(d1, y1, o.indirect[l]);
      var (d2, y2) := Release(d1, y1, o.indirect[l]);
      IndirectMeta(d2, y2, o, l + 1);
    }
  }

  lemma {:induction false} SlotsMeta(c: Cursor, ptrs: seq<int>, i: nat)
    requires Coherent(c.layer) && i <= |ptrs|
    ensures SameMeta(c.layer, ReadSlots(c, ptrs, i).layer)
    decreases |ptrs| - i
  {
    hide Coherent, Fetch, ReadBlock;
    if i == |ptrs| || c.left == 0 {
      ShapedMeta(c.layer);
    } else if 0 < c.skip {
      SlotsMeta(c.(skip := c.skip - 1), ptrs, i + 1);
    } else {
      FetchMeta(c.layer, ptrs[i]);
      var (y, block) := FetchPtr(c.layer, ptrs[i]);
      SlotsMeta(Cursor(y, 0, c.left - 1, c.out + [block]), ptrs, i + 1);
    }
  }

  lemma FetchMeta(layer: Layer, ptr: int)
    requires Coherent(layer)
    ensures SameMeta(layer, FetchPtr(layer, ptr).0)
  {
    if IsData(ptr - WRITE_OFFSET) {
      LayerMeta(layer, ptr - WRITE_OFFSET, Zero());
    }
  }

  lemma {:induction false} GroupsMeta(c: Cursor, indirect: seq<int>, j: nat)
    requires Coherent(c.layer) && j <= |indirect|
    ensures SameMeta(c.layer, ReadGroups(c, indirect, j).layer)
    decreases |indirect| - j
  {
    hide Coherent, FetchPtr, ReadSlots, Words;
    if j == |indirect| || c.left == 0 {
      ShapedMeta(c.layer);
    } else {
      FetchMeta(c.layer, indirect[j]);
      var (y, block) := FetchPtr(c.layer, indirect[j]);
      SlotsMeta(c.(layer := y), Words(block), 0);
      GroupsMeta(ReadSlots(c.(layer := y), Words(block), 0), indirect, j + 1);
    }
  }

  lemma PlaceMeta(s: Store, o: nat, page: nat, b: nat, size: nat, adjust: nat)
    requires WellFormed(s) && o < MAX_OBJECTS && page < MAX_PAGES && IsData(b)
    requires NeedsTwo(s.objs[o], page) ==> FirstClear(s.data) < DATA_BLOCKS
    ensures SameMeta(s.layer, Place(s, o, page, b, size, adjust).layer)
    ensures Place(s, o, page, b, size, adjust).marked == s.marked
  {
    hide Coherent, WriteBlock, Fetch, ReadBlock, PutWord, WordAt;
    if page < DIRECT {
      ShapedMeta(s.layer);
    } else if s.objs[o].indirect[GroupOf(page)] == 0 {
      LayerMeta(s.layer, FirstClear(s.data), PutWord(Zero(), EntryOf(page), WRITE_OFFSET + b));
    } else {
      var n := s.objs[o].indirect[GroupOf(page)] - WRITE_OFFSET;
      LayerMeta(s.layer, n, Zero());
      ReadBlockView(s.layer, n);
      LayerMeta(Fetch(s.layer, n), n, PutWord(ReadBlock(s.layer, n), EntryOf(page), WRITE_OFFSET + b));
    }
  }

  // ---------- which entry an operation touches ----------

  /** The entry an operation changes and marks; -1 when it changes none. */
  ghost function Touched(s: Store, op: Op): (o: int)
    requires WellFormed(s)
    ensures -1 <= o
  {
    match op
    case OpCreate(_) => if FirstClear(s.inode) < MAX_OBJECTS then FirstClear(s.inode) else -1
    case OpRename(key, _) => if Lookup(s.inode, s.objs, key) < MAX_OBJECTS then Lookup(s.inode, s.objs, key) else -1
    case OpDestroy(key) => if Lookup(s.inode, s.objs, key) < MAX_OBJECTS then Lookup(s.inode, s.objs, key) else -1
    case OpWrite(objid, _, _) => if 2 <= objid then objid - 2 else -1
    case _ => -1
  }

  /** s' differs from s, as far as unmounting is concerned, in entry o, which it marks. */
  ghost predicate Touches(s: Store, s': Store, o: int) {
    && |s'.objs| == |s.objs| == MAX_OBJECTS
    && |s.marked| == |s'.marked| == MARKS
    && SameMeta(s.layer, s'.layer)
    && (forall k :: 0 <= k < MAX_OBJECTS && k != o ==> s'.objs[k] == s.objs[k])
    && s'.marked == if 0 <= o < MAX_OBJECTS then s.marked[o / ENTRIES_PER_MARK := true] else s.marked
  }

  lemma DestroyTouches(s: Store, key: Name)
    requires WellFormed(s)
    ensures Touches(s, Destroy(s, key).0, Touched(s, OpDestroy(key)))
  {
    ShapedMeta(s.layer);
    hide Coherent, ReleaseDirect, ReleaseIndirect, SameMeta, Emptied;
    var o := Lookup(s.inode, s.objs, key);
    if o < MAX_OBJECTS {
      DirectMeta(s.data, s.layer, s.objs[o].direct, 0);
      var (d1, y1) := ReleaseDirect(s.data, s.layer, s.objs[o].direct, 0);
      IndirectMeta(d1, y1, s.objs[o], 0);
      MetaChain(s.layer, y1, ReleaseIndirect(d1, y1, s.objs[o], 0).1);
    }
  }

  lemma MetaChain(x: Layer, y: Layer, z: Layer)
    requires SameMeta(x, y) && SameMeta(y, z)
    ensures SameMeta(x, z)
  {
  }

  lemma WriteTouches(s: Store, objid: int, buf: seq<Byte>, offset: nat, adjust: nat)
    requires Inv(s) && CanWrite(s, objid, buf, offset)
    ensures Touches(s, Write(s, objid, buf, offset, adjust).0, Touched(s, OpWrite(objid, buf, offset)))
  {
    ShapedMeta(s.layer);
    hide Coherent, Owned, Grouped, Numbered, View, WriteBlock, Place;
    var b := FirstClear(s.data);
    if 2 <= objid && b < DATA_BLOCKS {
      var o := objid - 2;
      LayerMeta(s.layer, b, Pad(buf));
      PlaceMeta(Taken(Mark(s, o), b, Pad(buf)), o, PageOf(offset), b, |buf|, adjust);
      PlaceTable(Taken(Mark(s, o), b, Pad(buf)), o, PageOf(offset), b, |buf|, adjust);
    }
  }

  lemma ReadTouches(s: Store, objid: int, size: nat, offset: nat)
    requires WellFormed(s) && (2 <= objid ==> objid - 2 < MAX_OBJECTS)
    ensures Touches(s, Read(s, objid, size, offset).0, -1)
  {
    ShapedMeta(s.layer);
    hide Coherent, ReadSlots, ReadGroups;
    if 2 <= objid {
      var c := Cursor(s.layer, PageOf(offset), BlocksFor(size), []);
      SlotsMeta(c, s.objs[objid - 2].direct, 0);
      GroupsMeta(ReadSlots(c, s.objs[objid - 2].direct, 0), s.objs[objid - 2].indirect, 0);
    }
  }

  /** Each operation changes at most the entry it touches, marks the chunk numbered
      by that entry's number over 46, and writes nothing to the metadata blocks. */
  lemma StepTouches(s: Store, op: Op, adjust: nat)
    requires Inv(s) && Legal(s, op, adjust)
    ensures Touches(s, Step(s, op, adjust).0, Touched(s, op))
  {
    ShapedMeta(s.layer);
    hide Coherent, Owned, Grouped, Numbered, Ptr, View, Destroy, Write, Read;
    match op
    case OpDestroy(key) => DestroyTouches(s, key);
    case OpWrite(objid, buf, offset) => WriteTouches(s, objid, buf, offset, adjust);
    case OpRead(objid, size, offset) => ReadTouches(s, objid, size, offset);
    case _ =>
  }

  // ---------- which entries their own mark covers ----------

  /** Every byte of entry k lies in the chunk that touching k marks. */
  ghost predicate Covered(k: nat, w: Width) {
    forall j: nat :: j < EntrySize(w) ==> At(w, k, j) / CHUNK == k / ENTRIES_PER_MARK
  }

  /** Entries of 88 bytes, 46 to a chunk, are all covered. Of 96 bytes, covered are
      the first (4048 - 368q) / 96 of the 46 numbers that share mark q. */
  lemma CoveredExactly(k: nat, w: Width)
    ensures Covered(k, w) <==>
      w == 4 || 368 * (k / ENTRIES_PER_MARK) + 96 * (k % ENTRIES_PER_MARK + 1) <= CHUNK
  {
    var (q, r) := (k / ENTRIES_PER_MARK, k % ENTRIES_PER_MARK);
    assert k == 46 * q + r;
    if w == 4 {
      forall j: nat | j < EntrySize(w) ensures At(w, k, j) / CHUNK == q {
        assert CHUNK * q <= At(w, k, j) < CHUNK * (q + 1);
      }
    } else if 368 * q + 96 * (r + 1) <= CHUNK {
      forall j: nat | j < EntrySize(w) ensures At(w, k, j) / CHUNK == q {
        assert CHUNK * q <= At(w, k, j) < CHUNK * (q + 1);
      }
    } else {
      assert CHUNK * (q + 1) <= At(w, k, 95);
      assert At(w, k, 95) / CHUNK != q;
    }
  }

  /** With eight-byte longs the first 42 entries are covered and the next is not. */
  lemma FirstFortyTwo(k: nat)
    ensures k < 42 ==> Covered(k, 8)
    ensures !Covered(42, 8)
  {
    CoveredExactly(k, 8);
    CoveredExactly(42, 8);
  }

  // ---------- a run of operations ----------

  /** No file is larger than its pages. */
  ghost predicate SizesFit(f: Files) {
    forall id :: id in f ==> SizeFits(f[id])
  }

  lemma SpecSizes(f: Files, op: Op, f': Files, a: Answer)
    requires SizesFit(f) && Spec(f, op, f', a)
    requires op.OpWrite? ==> PageOf(op.offset) < MAX_PAGES && |op.buf| <= BLOCK_SIZE
    ensures SizesFit(f')
  {
    hide Unused, Cells, Fetched, Written;
    if op.OpWrite? && op.objid in f {
      WrittenSizes(f[op.objid], PageOf(op.offset), op.buf);
    }
  }

  ghost predicate SizeFits(f: File) {
    && (forall p :: p in f.pages ==> 0 <= p < MAX_PAGES)
    && 0 <= f.size <= BLOCK_SIZE * |f.pages|
  }

  lemma WrittenSizes(f: File, page: nat, buf: seq<Byte>)
    requires SizeFits(f) && page < MAX_PAGES && |buf| <= BLOCK_SIZE
    ensures SizeFits(Written(f, page, buf))
  {
    var pages := f.pages[page := PageWith(buf)];
    if page in f.pages {
      assert pages.Keys == f.pages.Keys;
    } else {
      assert pages.Keys == f.pages.Keys + {page};
    }
    assert |pages| == |pages.Keys| && |f.pages| == |f.pages.Keys|;
  }

  lemma FewPages(pages: map<int, Block>)
    requires forall p :: p in pages ==> 0 <= p < MAX_PAGES
    ensures |pages| <= MAX_PAGES
  {
    var data := seq(MAX_PAGES, _ => true);
    CountBits(data, MAX_PAGES);
    var rest := BitsBelow(data, MAX_PAGES) - pages.Keys;
    assert BitsBelow(data, MAX_PAGES) == pages.Keys + rest;
  }

  lemma NumberedAt(s: Store, o: nat)
    requires Inv(s) && o < MAX_OBJECTS
    ensures 0 <= s.objs[o].id < MAX_OBJECTS + 2 && (!s.inode[o] ==> s.objs[o].size == 0)
  {
    hide Coherent, Owned, Grouped;
  }

  lemma PointerFits(s: Store, o: nat, l: nat)
    requires Inv(s) && o < MAX_OBJECTS && l < 4
    ensures |s.objs[o].direct| == 4 == |s.objs[o].indirect|
    ensures 0 <= s.objs[o].direct[l] < 0x8000_0000 && 0 <= s.objs[o].indirect[l] < 0x8000_0000
  {
    hide Coherent, Owned, Grouped, Numbered, View;
    assert Ptr(s, Page(o, l)) == s.objs[o].direct[l];
    if Ptr(s, Page(o, l)) != 0 {
      SiteInUse(s, Page(o, l));
    }
  }

  /** A sound store's entries fit their fields in the struct, of either size. */
  lemma SoundStorable(s: Store, o: nat, w: Width)
    requires Inv(s) && SizesFit(FilesOf(s)) && o < MAX_OBJECTS
    ensures Storable(s.objs[o], w)
  {
    hide Coherent, Owned, Grouped, Numbered, View, WordAt, PagesOf, Ptr;
    NumberedAt(s, o);
    forall l | 0 <= l < 4
      ensures 0 <= s.objs[o].direct[l] < 0x8000_0000 && 0 <= s.objs[o].indirect[l] < 0x8000_0000
    {
      PointerFits(s, o, l);
    }
    FilesAt(s, o + 2);
    if s.inode[o] {
      FewPages(FilesOf(s)[o + 2].pages);
    }
  }

  /** What every operation keeps of a mounted store. */
  ghost predicate Fit(s: Store) {
    Inv(s) && SizesFit(FilesOf(s))
  }

  lemma FitStorables(s: Store, w: Width)
    requires Fit(s)
    ensures Storables(s.objs, w)
  {
    hide SizesFit, FilesOf, Storable, Grouped, Owned, Numbered, Coherent;
    forall o | 0 <= o < MAX_OBJECTS ensures Storable(s.objs[o], w) {
      SoundStorable(s, o, w);
    }
  }

  /** A mounted store at any moment: sound, and every entry's bytes on disk or to be
      written. */
  ghost predicate Session(s: Store, w: Width) {
    Fit(s) && Storables(s.objs, w) && Synced(s, w)
  }

  /** Mark i is that of an entry in touched. */
  ghost predicate MarkedBy(touched: set<int>, i: int) {
    exists o :: o in touched && o / ENTRIES_PER_MARK == i
  }

  /** s' is reached from s by operations that touched the entries in touched. */
  ghost predicate Reached(s: Store, s': Store, touched: set<int>) {
    && |s.objs| == |s'.objs| == MAX_OBJECTS && |s.marked| == |s'.marked| == MARKS
    && SameMeta(s.layer, s'.layer)
    && (forall o :: 0 <= o < MAX_OBJECTS && o !in touched ==> s'.objs[o] == s.objs[o])
    && (forall o :: o in touched ==> 0 <= o < MAX_OBJECTS)
    && (forall i :: 0 <= i < MARKS ==> (s'.marked[i] <==> s.marked[i] || MarkedBy(touched, i)))
  }

  ghost function TouchedBy(s: Store, op: Op): set<int>
    requires WellFormed(s)
  {
    if Touched(s, op) == -1 then {} else {Touched(s, op)}
  }

  lemma StepReaches(s: Store, op: Op, adjust: nat)
    requires Fit(s) && Legal(s, op, adjust)
    ensures Fit(Step(s, op, adjust).0) && Reached(s, Step(s, op, adjust).0, TouchedBy(s, op))
  {
    var (s', a) := Step(s, op, adjust);
    assert Touched(s, op) < MAX_OBJECTS;
    assert op.OpWrite? ==> PageOf(op.offset) < MAX_PAGES && |op.buf| <= BLOCK_SIZE;
    hide Coherent, Owned, Grouped, Numbered, View, Ptr, FilesOf, Spec, Step, Touched, Legal, SizesFit, Touches,
      Reached;
    StepMeets(s, op, adjust);
    SpecSizes(FilesOf(s), op, FilesOf(s'), a);
    StepTouches(s, op, adjust);
    hide Inv;
    TouchesReach(s, s', Touched(s, op));
  }

  lemma TouchesReach(s: Store, s': Store, o: int)
    requires Touches(s, s', o) && -1 <= o < MAX_OBJECTS
    ensures Reached(s, s', if o == -1 then {} else {o})
  {
    hide SameMeta;
  }

  /** The entries a run touches. */
  ghost function TouchedIn(s: Store, ops: seq<Op>, adjust: nat): set<int>
    requires WellFormed(s) && LegalRun(s, ops, adjust)
    decreases |ops|
  {
    if |ops| == 0 then {}
    else TouchedBy(s, ops[0]) + TouchedIn(Step(s, ops[0], adjust).0, ops[1..], adjust)
  }

  lemma ReachedThere(s: Store)
    requires WellFormed(s)
    ensures Reached(s, s, {})
  {
  }

  lemma ReachedChain(s: Store, t: Store, u: Store, a: set<int>, b: set<int>)
    requires Reached(s, t, a) && Reached(t, u, b)
    ensures Reached(s, u, a + b)
  {
  }

  lemma {:induction false} RunReaches(s: Store, ops: seq<Op>, adjust: nat)
    requires Fit(s) && LegalRun(s, ops, adjust)
    ensures Fit(Run(s, ops, adjust).0) && Reached(s, Run(s, ops, adjust).0, TouchedIn(s, ops, adjust))
    decreases |ops|
  {
    assert WellFormed(s);
    hide Coherent, Owned, Grouped, Numbered, View, Ptr, FilesOf, Spec, Step, Touched, SizesFit, WellFormed, Inv,
      Reached, TouchedBy;
    if |ops| == 0 {
      ReachedThere(s);
    } else {
      StepReaches(s, ops[0], adjust);
      var s1 := Step(s, ops[0], adjust).0;
      RunReaches(s1, ops[1..], adjust);
      ReachedChain(s, s1, Run(s1, ops[1..], adjust).0, TouchedBy(s, ops[0]), TouchedIn(s1, ops[1..], adjust));
    }
  }

  // ---------- what comes back after a session ----------

  /** Byte n of the table will be written: its chunk is marked in s already, or is
      marked for an entry in touched. */
  ghost predicate MarkedFor(s: Store, touched: set<int>, n: nat)
    requires |s.marked| == MARKS
  {
    n < TABLE_BYTES && (s.marked[n / CHUNK] || MarkedBy(touched, n / CHUNK))
  }

  /** Each byte that matters to entry o of objs is in a chunk marked in s or for an
      entry in touched, or was on the disk of s already. */
  ghost predicate Saved(s: Store, touched: set<int>, objs: seq<Object>, o: nat, w: Width)
    requires |s.layer.disk| == DISK_BLOCKS && |s.marked| == MARKS
  {
    && o < |objs| && Storable(objs[o], w)
    && forall j: nat :: j < EntrySize(w) && Matters(objs[o], j, w) ==>
         MarkedFor(s, touched, At(w, o, j)) || DiskByte(s.layer.disk, At(w, o, j)) == EntryBytes(objs[o], w)[j]
  }

  ghost predicate AllSaved(s: Store, touched: set<int>, objs: seq<Object>, w: Width)
    requires |s.layer.disk| == DISK_BLOCKS && |s.marked| == MARKS
  {
    forall o: nat :: o in touched ==> Saved(s, touched, objs, o, w)
  }

  lemma SameDiskByte(y: Layer, z: Layer, n: nat)
    requires SameMeta(y, z)
    ensures DiskByte(z.disk, n) == DiskByte(y.disk, n)
  {
  }

  lemma MarksAtUnmount(s: Store, s': Store, touched: set<int>, n: nat)
    requires Reached(s, s', touched)
    ensures WillWrite(s', n) <==> MarkedFor(s, touched, n)
    ensures WillWrite(s, n) ==> WillWrite(s', n)
  {
    hide MarkedBy;
  }

  lemma EntrySyncedIff(s: Store, s': Store, touched: set<int>, o: nat, w: Width)
    requires Session(s, w) && Fit(s') && Storables(s'.objs, w) && Reached(s, s', touched) && o < MAX_OBJECTS
    ensures EntrySynced(s', o, w) <==> (o in touched ==> Saved(s, touched, s'.objs, o, w))
  {
    assert |s.layer.disk| == DISK_BLOCKS && EntrySynced(s, o, w);
    assert o !in touched ==> s'.objs[o] == s.objs[o];
    assert Storable(s'.objs[o], w);
    hide Fit, Inv, Synced, Storables, EntryBytes, Storable, Matters, At, WillWrite, MarkedFor, DiskByte, SameMeta;
    forall j: nat | j < EntrySize(w)
      ensures DiskByte(s'.layer.disk, At(w, o, j)) == DiskByte(s.layer.disk, At(w, o, j))
      ensures WillWrite(s, At(w, o, j)) ==> WillWrite(s', At(w, o, j))
      ensures WillWrite(s', At(w, o, j)) <==> MarkedFor(s, touched, At(w, o, j))
    {
      SameDiskByte(s.layer, s'.layer, At(w, o, j));
      MarksAtUnmount(s, s', touched, At(w, o, j));
    }
  }

  lemma SyncedIff(s: Store, s': Store, touched: set<int>, w: Width)
    requires Session(s, w) && Fit(s') && Storables(s'.objs, w) && Reached(s, s', touched)
    ensures Synced(s', w) <==> AllSaved(s, touched, s'.objs, w)
  {
    assert WellFormed(s') && |s.layer.disk| == DISK_BLOCKS;
    hide Session, Fit, Storable, Saved, EntrySynced, WellFormed;
    forall o: nat | o < MAX_OBJECTS
      ensures EntrySynced(s', o, w) <==> (o in touched ==> Saved(s, touched, s'.objs, o, w))
    {
      EntrySyncedIff(s, s', touched, o, w);
    }
  }

  /** All of s' is there in t, and the next session starts as sound as the last. */
  ghost predicate Restored(s': Store, t: Store, w: Width)
    requires WellFormed(s')
  {
    && t.inode == s'.inode && t.data == s'.data && AllAlike(t.objs, s'.objs)
    && Session(t, w) && FilesOf(t) == FilesOf(s')
  }

  lemma ReachedRestoresIff(s: Store, s': Store, touched: set<int>, cached: bool, w: Width)
    requires Session(s, w) && Fit(s') && Storables(s'.objs, w) && Reached(s, s', touched)
    ensures var t := Mounted(Unmounted(s', w), cached, w);
      && t.inode == s'.inode && t.data == s'.data
      && (Restored(s', t, w) <==> AllSaved(s, touched, s'.objs, w))
  {
    SyncedIff(s, s', touched, w);
    RestartRestoresIff(s', cached, w);
    assert WellFormed(s') && Inv(s');
    hide Synced, Inv, Unmounted, Mounted, Storables, SizesFit, FilesOf, WellFormed, AllSaved, Reached;
  }

  /** After any legal run, unmounting and mounting with either build brings back the
      bitmaps always, and the table and the files exactly when each entry the run
      touched is saved: what matters of it is in a chunk that was marked, or is marked
      for an entry the run touched, or was on the disk. */
  lemma SessionRestoresIff(s: Store, ops: seq<Op>, adjust: nat, cached: bool, w: Width)
    requires Session(s, w) && LegalRun(s, ops, adjust)
    ensures var s' := Run(s, ops, adjust).0;
      && Storables(s'.objs, w)
      && var t := Mounted(Unmounted(s', w), cached, w);
         && t.inode == s'.inode && t.data == s'.data
         && (Restored(s', t, w) <==> AllSaved(s, TouchedIn(s, ops, adjust), s'.objs, w))
  {
    assert WellFormed(s);
    hide Session, Fit, Run, LegalRun, TouchedIn, Reached, WellFormed, Storables, Unmounted, Mounted, Restored,
      AllSaved;
    assert Fit(s) by { SessionFit(s, w); }
    RunReaches(s, ops, adjust);
    var s' := Run(s, ops, adjust).0;
    FitStorables(s', w);
    ReachedRestoresIff(s, s', TouchedIn(s, ops, adjust), cached, w);
  }

  /** Entry by entry: one comes back exactly when the run did not touch it, or it is
      saved. */
  lemma EntryRestoredIff(s: Store, ops: seq<Op>, adjust: nat, o: nat, w: Width)
    requires Session(s, w) && LegalRun(s, ops, adjust) && o < MAX_OBJECTS
    ensures var s' := Run(s, ops, adjust).0;
      && Storables(s'.objs, w)
      && var touched := TouchedIn(s, ops, adjust);
         (Alike(MountEntry(Unmounted(s', w), o, w), s'.objs[o])
          <==> (o in touched ==> Saved(s, touched, s'.objs, o, w)))
  {
    SessionFit(s, w);
    FitWellFormed(s);
    hide Session, Fit, Run, LegalRun, TouchedIn, Reached, WellFormed, Storables, Unmounted, MountEntry, Saved,
      EntrySynced;
    RunReaches(s, ops, adjust);
    var s' := Run(s, ops, adjust).0;
    FitStorables(s', w);
    EntryBackIff(s', o, w);
    EntrySyncedIff(s, s', TouchedIn(s, ops, adjust), o, w);
  }

  lemma SessionFit(s: Store, w: Width)
    requires Session(s, w)
    ensures Fit(s)
  {
  }

  /** Every byte of entry o is in a chunk marked in s or for an entry in touched. */
  ghost predicate AllMarked(s: Store, touched: set<int>, o: nat, w: Width)
    requires |s.marked| == MARKS
  {
    forall j: nat :: j < EntrySize(w) ==> MarkedFor(s, touched, At(w, o, j))
  }

  lemma MarkedSaved(s: Store, touched: set<int>, objs: seq<Object>, o: nat, w: Width)
    requires |s.layer.disk| == DISK_BLOCKS && |s.marked| == MARKS
    requires o < |objs| && Storable(objs[o], w) && AllMarked(s, touched, o, w)
    ensures Saved(s, touched, objs, o, w)
  {
    hide Storable, EntryBytes, Matters, DiskByte, At, MarkedFor;
  }

  lemma CoveredMarked(s: Store, touched: set<int>, o: nat, w: Width)
    requires |s.marked| == MARKS && o in touched && o < MAX_OBJECTS && Covered(o, w)
    ensures AllMarked(s, touched, o, w)
  {
    hide At;
    forall j: nat | j < EntrySize(w) ensures MarkedFor(s, touched, At(w, o, j)) {
      assert At(w, o, j) / CHUNK == o / ENTRIES_PER_MARK;
    }
  }

  lemma ReachedEntry(s: Store, s': Store, touched: set<int>, o: nat, w: Width)
    requires WellFormed(s) && Reached(s, s', touched) && Storables(s'.objs, w) && o in touched
    ensures |s.layer.disk| == DISK_BLOCKS && |s.marked| == MARKS && o < |s'.objs| == MAX_OBJECTS
    ensures Storable(s'.objs[o], w)
  {
    hide Storable, SameMeta, MarkedBy;
  }

  /** A run whose touched entries lie in marked chunks, whoever marked them, comes
      back whole. */
  lemma MarkedRunRestores(s: Store, ops: seq<Op>, adjust: nat, cached: bool, w: Width)
    requires Session(s, w) && LegalRun(s, ops, adjust)
    requires var touched := TouchedIn(s, ops, adjust); forall o: nat :: o in touched ==> AllMarked(s, touched, o, w)
    ensures var s' := Run(s, ops, adjust).0;
      Storables(s'.objs, w) && Restored(s', Mounted(Unmounted(s', w), cached, w), w)
  {
    assert WellFormed(s) && Fit(s);
    hide Session, Fit, LegalRun, Run, TouchedIn, Storables, Unmounted, Mounted, Restored, Saved, AllMarked, Reached,
      WellFormed;
    SessionRestoresIff(s, ops, adjust, cached, w);
    RunReaches(s, ops, adjust);
    var s' := Run(s, ops, adjust).0;
    var touched := TouchedIn(s, ops, adjust);
    forall o: nat | o in touched ensures Saved(s, touched, s'.objs, o, w) {
      ReachedEntry(s, s', touched, o, w);
      MarkedSaved(s, touched, s'.objs, o, w);
    }
  }

  /** With four-byte longs every legal run comes back whole. */
  lemma NarrowRunsRestore(s: Store, ops: seq<Op>, adjust: nat, cached: bool)
    requires Session(s, 4) && LegalRun(s, ops, adjust)
    ensures var s' := Run(s, ops, adjust).0;
      Storables(s'.objs, 4) && Restored(s', Mounted(Unmounted(s', 4), cached, 4), 4)
  {
    assert WellFormed(s) && Fit(s);
    hide Session, Fit, LegalRun, Run, TouchedIn, Storables, Unmounted, Mounted, Restored, AllMarked, Reached,
      Covered, WellFormed;
    RunReaches(s, ops, adjust);
    var s' := Run(s, ops, adjust).0;
    FitStorables(s', 4);
    var touched := TouchedIn(s, ops, adjust);
    forall o: nat | o in touched ensures AllMarked(s, touched, o, 4) {
      CoveredExactly(o, 4);
      ReachedEntry(s, s', touched, o, 4);
      CoveredMarked(s, touched, o, 4);
    }
    MarkedRunRestores(s, ops, adjust, cached, 4);
  }

  // ---------- a change lost ----------

  /** The three low bytes of the first indirect pointer, where they are in its entry. */
  lemma IndirectByte(o: Object, i: nat, w: Width)
    requires Storable(o, w) && i < 3
    ensures EntryBytes(o, w)[2 * w + 64 + i] ==
      if i == 0 then o.indirect[0] % 0x100
      else if i == 1 then o.indirect[0] / 0x100 % 0x100
      else o.indirect[0] / 0x1_0000 % 0x100
  {
    EntryParts(o, w);
    var t := EntryBytes(o, w);
    hide EntryBytes;
    assert t[2 * w + 64 + i] == t[2 * w + 64..2 * w + 80][i];
    assert Le32s(o.indirect)[i] == Le32(o.indirect[0])[i];
  }

  lemma LowBytes(v: int)
    requires 0 < v < 0x100_0000
    ensures v % 0x100 != 0 || v / 0x100 % 0x100 != 0 || v / 0x1_0000 % 0x100 != 0
  {
  }

  lemma NonzeroByte(o: Object, w: Width) returns (i: nat)
    requires Storable(o, w) && 0 < o.indirect[0] < 0x100_0000
    ensures i < 3 && EntryBytes(o, w)[2 * w + 64 + i] != 0
  {
    var v := o.indirect[0];
    LowBytes(v);
    i := if v % 0x100 != 0 then 0 else if v / 0x100 % 0x100 != 0 then 1 else 2;
    IndirectByte(o, i, w);
  }

  /** An entry its mark does not cover has its indirect pointers in another chunk. */
  lemma UncoveredTail(k: nat, i: nat, w: Width)
    requires !Covered(k, w) && i < 3
    ensures w == 8 && At(w, k, 2 * w + 64 + i) / CHUNK != k / ENTRIES_PER_MARK
  {
    CoveredExactly(k, w);
    var (q, r) := (k / ENTRIES_PER_MARK, k % ENTRIES_PER_MARK);
    assert k == 46 * q + r;
    assert CHUNK * (q + 1) <= 96 * k + 80;
  }

  /** From a fresh mount, an uncovered entry that gets its first indirect block is
      not saved. */
  lemma UncoveredUnsaved(s: Store, s': Store, k: nat, w: Width)
    requires WellFormed(s) && Storables(s.objs, w) && Synced(s, w) && WellFormed(s') && Storables(s'.objs, w)
    requires (forall i :: 0 <= i < MARKS ==> !s.marked[i]) && k < MAX_OBJECTS && !Covered(k, w)
    requires s.objs[k].indirect[0] == 0 && s'.objs[k].indirect[0] != 0
    ensures !Saved(s, {k as int}, s'.objs, k, w)
  {
    assert EntrySynced(s, k, w) && Storable(s.objs[k], w) && Storable(s'.objs[k], w) && ObjectShaped(s'.objs[k]);
    assert IsData(s'.objs[k].indirect[0] - WRITE_OFFSET);
    hide Synced, Storables, Storable, EntryBytes, At, DiskByte, Coherent, ObjectShaped, WellFormed, Covered;
    var i := NonzeroByte(s'.objs[k], w);
    UncoveredTail(k, i, w);
    IndirectByte(s.objs[k], i, w);
    var n := At(w, k, 2 * w + 64 + i);
    assert !WillWrite(s, n) && !MarkedFor(s, {k as int}, n);
    assert Matters(s.objs[k], 2 * w + 64 + i, w) && Matters(s'.objs[k], 2 * w + 64 + i, w);
  }

  /** The write that gives entry k its first indirect block. */
  ghost predicate FirstIndirect(s: Store, k: nat, buf: seq<Byte>)
    requires WellFormed(s)
  {
    && k < MAX_OBJECTS && Live(s, k) && s.objs[k].indirect[0] == 0
    && CanWrite(s, k + 2, buf, DIRECT * BLOCK_SIZE) && FirstClear(s.data) < DATA_BLOCKS
  }

  lemma FirstIndirectReaches(s: Store, k: nat, buf: seq<Byte>, adjust: nat)
    requires Fit(s) && FirstIndirect(s, k, buf)
    ensures var s' := Write(s, k + 2, buf, DIRECT * BLOCK_SIZE, adjust).0;
      && Fit(s') && Reached(s, s', {k as int})
      && s'.objs[k].indirect[0] != 0
  {
    hide Fit, Inv, WellFormed, FirstIndirect, CanWrite, Live, Ptr, Write, Legal, Touched, Stored, Reached;
    FirstIndirectLegal(s, k, buf, adjust);
    var op := OpWrite(k + 2, buf, DIRECT * BLOCK_SIZE);
    var s' := Write(s, k + 2, buf, DIRECT * BLOCK_SIZE, adjust).0;
    StepReaches(s, op, adjust);
    WriteStores(s, k + 2, buf, DIRECT * BLOCK_SIZE, adjust);
    FirstIndirectThere(s, s', k, buf);
  }

  lemma FirstIndirectLegal(s: Store, k: nat, buf: seq<Byte>, adjust: nat)
    requires Fit(s) && FirstIndirect(s, k, buf)
    ensures var op := OpWrite(k + 2, buf, DIRECT * BLOCK_SIZE);
      Legal(s, op, adjust) && Touched(s, op) == k && TouchedBy(s, op) == {k as int}
    ensures Inv(s) && WellFormed(s) && CanWrite(s, k + 2, buf, DIRECT * BLOCK_SIZE) && k < MAX_OBJECTS && Live(s, k)
    ensures PageOf(DIRECT * BLOCK_SIZE) == DIRECT && |buf| <= BLOCK_SIZE && FirstClear(s.data) < DATA_BLOCKS
    ensures Ptr(s, Page(k, DIRECT)) == 0 && s.objs[k].indirect[0] == 0
  {
    assert GroupOf(DIRECT) == 0;
    hide Coherent, Owned, Grouped, Numbered, View, SizesFit;
  }

  lemma FirstIndirectThere(s: Store, s': Store, k: nat, buf: seq<Byte>)
    requires WellFormed(s) && k < MAX_OBJECTS && |buf| <= BLOCK_SIZE && Stored(s, s', k, DIRECT, buf)
    ensures WellFormed(s') && s'.objs[k].indirect[0] != 0
  {
    assert Content(s', k, DIRECT).Some?;
    hide View, Coherent, Owned, Grouped, Numbered;
    assert GroupOf(DIRECT) == 0;
  }

  lemma SessionParts(s: Store, w: Width)
    requires Session(s, w)
    ensures Fit(s) && WellFormed(s) && Storables(s.objs, w) && Synced(s, w)
  {
  }

  /** Just after a mount, the first write past an entry's direct pages survives
      unmount and mount exactly when the entry is covered by its mark. */
  lemma WriteSurvivesIffCovered(s: Store, k: nat, buf: seq<Byte>, adjust: nat, cached: bool, w: Width)
    requires Session(s, w) && (forall i :: 0 <= i < MARKS ==> !s.marked[i]) && FirstIndirect(s, k, buf)
    ensures var s' := Write(s, k + 2, buf, DIRECT * BLOCK_SIZE, adjust).0;
      && Storables(s'.objs, w)
      && (Restored(s', Mounted(Unmounted(s', w), cached, w), w) <==> Covered(k, w))
  {
    hide Session, Fit, Storables, Synced, Unmounted, Mounted, Restored, Write, Covered, Reached, WellFormed, Saved,
      AllMarked, FirstIndirect, CanWrite, Inv;
    SessionParts(s, w);
    FirstIndirectLegal(s, k, buf, adjust);
    var s' := Write(s, k + 2, buf, DIRECT * BLOCK_SIZE, adjust).0;
    FirstIndirectReaches(s, k, buf, adjust);
    FitWellFormed(s');
    FitStorables(s', w);
    ReachedRestoresIff(s, s', {k as int}, cached, w);
    ReachedEntry(s, s', {k as int}, k, w);
    if Covered(k, w) {
      CoveredMarked(s, {k as int}, k, w);
      MarkedSaved(s, {k as int}, s'.objs, k, w);
    } else {
      UncoveredUnsaved(s, s', k, w);
    }
  }

  lemma FitWellFormed(s: Store)
    requires Fit(s)
    ensures WellFormed(s)
  {
  }

  // ---------- where sessions start ----------

  ghost predicate ZeroDisk(disk: seq<Block>) {
    |disk| == DISK_BLOCKS && forall x :: 0 <= x < DISK_BLOCKS ==> disk[x] == Zero()
  }

  lemma ZeroByteBits(j: nat)
    ensures !BitOf(0, j)
  {
  }

  lemma ZeroDiskByte(disk: seq<Block>, n: nat)
    requires ZeroDisk(disk)
    ensures DiskByte(disk, n) == 0
  {
  }

  lemma FieldOf(b: seq<Byte>, w: Width)
    requires |b| == EntrySize(w) && forall j :: 0 <= j < EntrySize(w) ==> b[j] == 0
    ensures EntryFrom(b, w).field == Blank().field
  {
    hide FromLong, FromLe32s, NameFrom;
  }

  lemma BlankObject(disk: seq<Block>, o: nat, w: Width)
    requires ZeroDisk(disk)
    ensures MountEntry(disk, o, w) == Blank()
  {
    hide EntryFrom, EntryBytes, DiskByte;
    BlankBytes(0, w);
    forall j: nat | j < EntrySize(w)
      ensures MountBytes(disk, o, w)[j] == 0 == EntryBytes(Blank(), w)[j]
    {
      ZeroDiskByte(disk, At(w, o, j));
      BlankBytes(j, w);
    }
    EntryIff(MountBytes(disk, o, w), Blank(), w);
    FieldOf(MountBytes(disk, o, w), w);
  }

  lemma BlankBits(disk: seq<Block>, base: nat, n: nat)
    requires ZeroDisk(disk)
    requires base <= DISK_BLOCKS && BITS_PER_BLOCK * (DISK_BLOCKS - base) >= n
    ensures forall m :: 0 <= m < n ==> !MountBits(disk, base, n)[m]
  {
    forall m | 0 <= m < n ensures !MountBits(disk, base, n)[m] {
      ZeroByteBits(m % BITS_PER_BLOCK % 8);
    }
  }

  lemma BlankSound(s: Store)
    requires |s.inode| == MAX_OBJECTS && (forall o :: 0 <= o < MAX_OBJECTS ==> !s.inode[o])
    requires |s.data| == DATA_BLOCKS && (forall b :: 0 <= b < DATA_BLOCKS ==> !s.data[b])
    requires |s.objs| == MAX_OBJECTS && (forall o :: 0 <= o < MAX_OBJECTS ==> s.objs[o] == Blank())
    requires |s.marked| == MARKS && Coherent(s.layer)
    ensures Inv(s) && FilesOf(s) == map[]
  {
    assert forall t :: Ptr(s, t) == 0;
    hide Ptr, Coherent, View;
    var p := Pointers(s);
    assert forall t :: p(t) == 0;
    assert Owns(s.data, s.inode, p, map[]);
  }

  /** What a disk of zeros mounts as. */
  lemma BlankMounts(disk: seq<Block>, cached: bool, w: Width)
    requires ZeroDisk(disk)
    ensures var s := Mounted(disk, cached, w);
      && (forall o :: 0 <= o < MAX_OBJECTS ==> !s.inode[o] && s.objs[o] == Blank())
      && (forall b :: 0 <= b < DATA_BLOCKS ==> !s.data[b])
      && (forall i :: 0 <= i < MARKS ==> !s.marked[i])
      && s.layer.disk == disk && Coherent(s.layer)
  {
    var s := Mounted(disk, cached, w);
    BlankBits(disk, OBJECT_BLOCKS, MAX_OBJECTS);
    BlankBits(disk, OBJECT_BLOCKS + INODE_BIT_BLOCKS, DATA_BLOCKS);
    hide MountEntry, MountBits;
    forall o | 0 <= o < MAX_OBJECTS ensures s.objs[o] == Blank() {
      BlankObject(disk, o, w);
    }
  }

  /** A disk of zeros mounts as an empty store. */
  lemma BlankDiskMounts(disk: seq<Block>, cached: bool, w: Width)
    requires ZeroDisk(disk)
    ensures Session(Mounted(disk, cached, w), w) && FilesOf(Mounted(disk, cached, w)) == map[]
  {
    var s := Mounted(disk, cached, w);
    BlankMounts(disk, cached, w);
    hide Mounted, ZeroDisk;
    BlankSound(s);
    hide Inv, FilesOf;
    BlankBytes(0, w);
    forall o: nat | o < MAX_OBJECTS ensures EntrySynced(s, o, w) {
      hide EntryBytes, DiskByte, Storable;
      forall j: nat | j < EntrySize(w) ensures DiskByte(disk, At(w, o, j)) == EntryBytes(Blank(), w)[j] {
        ZeroDiskByte(disk, At(w, o, j));
        BlankBytes(j, w);
      }
    }
  }

  // ---------- a run that loses a name ----------

  /** n objects called key, one after the other. */
  function Creates(n: nat, key: Name): seq<Op> {
    seq(n, _ => OpCreate(key))
  }

  /** The store on the zero disk with its first i entries taken, no more than one
      mark's worth. */
  ghost predicate Holds(s: Store, disk: seq<Block>, i: nat, key: Name) {
    && WellFormed(s) && s.layer.disk == disk
    && (forall o :: 0 <= o < MAX_OBJECTS ==> (s.inode[o] <==> o < i))
    && (forall o :: 0 <= o < i && o < MAX_OBJECTS ==> s.objs[o].key == key)
    && (forall o :: i <= o < MAX_OBJECTS ==> s.objs[o] == Blank())
    && (forall c :: 0 < c < MARKS ==> !s.marked[c])
  }

  lemma CreateHolds(s: Store, disk: seq<Block>, i: nat, key: Name)
    requires Holds(s, disk, i, key) && i < ENTRIES_PER_MARK
    ensures Holds(Create(s, key).0, disk, i + 1, key)
  {
    hide Coherent;
    FirstClearAt(s.inode, i);
  }

  lemma FirstClearAt(bits: seq<bool>, i: nat)
    requires i < |bits| && forall k :: 0 <= k < |bits| ==> (bits[k] <==> k < i)
    ensures FirstClear(bits) == i
  {
    assert !bits[i];
  }

  lemma {:induction false} CreatesHold(s: Store, disk: seq<Block>, i: nat, n: nat, key: Name, adjust: nat)
    requires Holds(s, disk, i, key) && i + n <= ENTRIES_PER_MARK
    ensures LegalRun(s, Creates(n, key), adjust) && Holds(Run(s, Creates(n, key), adjust).0, disk, i + n, key)
    decreases n
  {
    hide Holds, Create, WellFormed, Creates, LegalRun, Run, Step, Legal;
    HoldsFormed(s, disk, i, key);
    if n == 0 {
      NoCreates(s, key, adjust);
    } else {
      CreateHolds(s, disk, i, key);
      var s1, a := FirstOfCreates(s, n, key, adjust);
      CreatesHold(s1, disk, i + 1, n - 1, key, adjust);
      StepThenRun(s, s1, a, Creates(n, key), adjust);
    }
  }

  lemma HoldsFormed(s: Store, disk: seq<Block>, i: nat, key: Name)
    requires Holds(s, disk, i, key)
    ensures WellFormed(s)
  {
  }

  lemma NoCreates(s: Store, key: Name, adjust: nat)
    requires WellFormed(s)
    ensures LegalRun(s, Creates(0, key), adjust) && Run(s, Creates(0, key), adjust).0 == s
  {
    hide WellFormed;
  }

  lemma FirstOfCreates(s: Store, n: nat, key: Name, adjust: nat) returns (s1: Store, a: Answer)
    requires WellFormed(s) && n > 0
    ensures var ops := Creates(n, key);
      && |ops| == n && ops[0] == OpCreate(key) && ops[1..] == Creates(n - 1, key)
      && Legal(s, ops[0], adjust) && (s1, a) == Step(s, ops[0], adjust)
    ensures s1 == Create(s, key).0 && WellFormed(s1)
  {
    hide WellFormed, Create;
    s1, a := Create(s, key).0, Code(Create(s, key).1);
  }

  /** The entries taken are the first i. */
  ghost predicate FirstTaken(s: Store, i: nat) {
    WellFormed(s) && forall o :: 0 <= o < MAX_OBJECTS ==> (s.inode[o] <==> o < i)
  }

  lemma CreateTakes(s: Store, i: nat, key: Name)
    requires FirstTaken(s, i) && i < MAX_OBJECTS
    ensures FirstTaken(Create(s, key).0, i + 1) && Touched(s, OpCreate(key)) == i
  {
    hide Coherent;
    FirstClearAt(s.inode, i);
  }

  /** i, i + 1, ... : n of them. */
  ghost function Numbers(i: int, n: nat): (r: set<int>)
    ensures forall o :: o in r <==> i <= o < i + n
    decreases n
  {
    if n == 0 then {} else {i} + Numbers(i + 1, n - 1)
  }

  lemma {:induction false} CreatesTouch(s: Store, i: nat, n: nat, key: Name, adjust: nat)
    requires FirstTaken(s, i) && i + n <= MAX_OBJECTS
    ensures LegalRun(s, Creates(n, key), adjust)
    ensures TouchedIn(s, Creates(n, key), adjust) == Numbers(i, n)
    decreases n
  {
    assert WellFormed(s);
    hide FirstTaken, Create, WellFormed, Touched;
    if n > 0 {
      var ops := Creates(n, key);
      assert ops[0] == OpCreate(key) && ops[1..] == Creates(n - 1, key);
      CreateTakes(s, i, key);
      assert Step(s, ops[0], adjust).0 == Create(s, key).0;
      CreatesTouch(Create(s, key).0, i + 1, n - 1, key, adjust);
    }
  }

  /** The chunks of n entries of 96 bytes are among those that creating them marks. */
  predicate MarksReach(n: nat) {
    0 < n <= MAX_OBJECTS && (96 * n - 1) / CHUNK <= (n - 1) / ENTRIES_PER_MARK
  }

  /** Marked by one entry, needed by another. */
  lemma AllMarkedByRun(s: Store, n: nat, o: nat)
    requires |s.marked| == MARKS && MarksReach(n) && o < n
    ensures AllMarked(s, Numbers(0, n), o, 8)
  {
    forall j: nat | j < EntrySize(8) ensures MarkedFor(s, Numbers(0, n), At(8, o, j)) {
      var c := At(8, o, j) / CHUNK;
      assert c <= (n - 1) / ENTRIES_PER_MARK;
      var k := if ENTRIES_PER_MARK * c < n then ENTRIES_PER_MARK * c else n - 1;
      assert k in Numbers(0, n) && k / ENTRIES_PER_MARK == c;
    }
  }

  /** With eight-byte longs too, creating n objects in one session comes back whole
      where their marks reach, whether each mark covers its own entry or not. */
  lemma CreatesRestore(s: Store, n: nat, key: Name, adjust: nat, cached: bool)
    requires Session(s, 8) && FirstTaken(s, 0) && MarksReach(n)
    ensures LegalRun(s, Creates(n, key), adjust)
    ensures var s' := Run(s, Creates(n, key), adjust).0;
      Storables(s'.objs, 8) && Restored(s', Mounted(Unmounted(s', 8), cached, 8), 8)
  {
    SessionFit(s, 8);
    FitWellFormed(s);
    CreatesTouch(s, 0, n, key, adjust);
    hide Session, Fit, LegalRun, Run, TouchedIn, Storables, Unmounted, Mounted, Restored, AllMarked, Reached,
      WellFormed, MarksReach, FirstTaken, Creates;
    forall o: nat | o in TouchedIn(s, Creates(n, key), adjust) ensures AllMarked(s, Numbers(0, n), o, 8) {
      AllMarkedByRun(s, n, o);
    }
    MarkedRunRestores(s, Creates(n, key), adjust, cached, 8);
  }

  /** As for a hundred objects, though not all are covered by their own marks. */
  lemma HundredReach()
    ensures MarksReach(100) && !Covered(42, 8) && !Covered(91, 8)
  {
    CoveredExactly(42, 8);
    CoveredExactly(91, 8);
  }

  lemma NameLost(s: Store, disk: seq<Block>, key: Name, cached: bool)
    requires ZeroDisk(disk) && Holds(s, disk, 43, key) && Storables(s.objs, 8)
    ensures Mounted(Unmounted(s, 8), cached, 8).objs[42].key == []
  {
    var n := At(8, 42, 16);
    assert n == CHUNK && !WillWrite(s, n);
    ZeroDiskByte(disk, n);
    hide Holds, ZeroDisk, Storables, Unmounted, DiskByte;
    UnmountedByte(s, n, 8);
    var bytes := MountBytes(Unmounted(s, 8), 42, 8);
    assert bytes[16] == 0;
    assert bytes[16..64][0] == 0;
  }

  lemma ZeroDiskLong(disk: seq<Block>)
    requires ZeroDisk(disk)
    ensures |disk| == DISK_BLOCKS
  {
  }

  /** With eight-byte longs, create forty-three objects on a disk of zeros, unmount
      and mount: the last has lost its name. */
  lemma FortyThirdNameLost(disk: seq<Block>, key: Name, adjust: nat, cached: bool)
    requires ZeroDisk(disk) && key != []
    ensures var (s, ops) := (Mounted(disk, cached, 8), Creates(43, key));
      && Session(s, 8) && LegalRun(s, ops, adjust)
      && var s' := Run(s, ops, adjust).0;
         && Storables(s'.objs, 8) && s'.objs[42].key == key
         && Mounted(Unmounted(s', 8), cached, 8).objs[42].key == []
  {
    hide Mounted, ZeroDisk, Session, Unmounted, Storables, LegalRun, Run, Holds, Fit, WellFormed;
    ZeroDiskLong(disk);
    var s := Mounted(disk, cached, 8);
    BlankHolds(disk, key, cached);
    BlankDiskMounts(disk, cached, 8);
    SessionFit(s, 8);
    FitWellFormed(s);
    CreatesHold(s, disk, 0, 43, key, adjust);
    var s' := Run(s, Creates(43, key), adjust).0;
    CreatesFit(s, 43, key, adjust);
    HoldsKey(s', disk, 43, key, 42);
    NameLost(s', disk, key, cached);
  }

  lemma BlankHolds(disk: seq<Block>, key: Name, cached: bool)
    requires ZeroDisk(disk)
    ensures Holds(Mounted(disk, cached, 8), disk, 0, key)
  {
    BlankMounts(disk, cached, 8);
    BlankDiskMounts(disk, cached, 8);
    hide Mounted, ZeroDisk;
  }

  lemma CreatesFit(s: Store, n: nat, key: Name, adjust: nat)
    requires Fit(s) && LegalRun(s, Creates(n, key), adjust)
    ensures Storables(Run(s, Creates(n, key), adjust).0.objs, 8)
  {
    FitWellFormed(s);
    hide Fit, LegalRun, Run, Storables, Reached, WellFormed;
    RunReaches(s, Creates(n, key), adjust);
    FitStorables(Run(s, Creates(n, key), adjust).0, 8);
  }

  lemma HoldsKey(s: Store, disk: seq<Block>, i: nat, key: Name, o: nat)
    requires Holds(s, disk, i, key) && o < i <= ENTRIES_PER_MARK
    ensures |s.objs| == MAX_OBJECTS && s.objs[o].key == key
  {
  }

  /** A run comes back whole, if it is a legal run of a session. */
  ghost predicate ComesBack(s: Store, ops: seq<Op>, adjust: nat, cached: bool, w: Width) {
    Session(s, w) && LegalRun(s, ops, adjust) ==>
      var s' := Run(s, ops, adjust).0;
      Storables(s'.objs, w) && Restored(s', Mounted(Unmounted(s', w), cached, w), w)
  }

  /** Every legal run of every session comes back whole exactly when a long has four
      bytes, so that 46 entries fill a chunk. */
  lemma AlwaysRestoresIff(w: Width)
    ensures (forall s, ops, adjust, cached :: ComesBack(s, ops, adjust, cached, w)) <==> w == 4
  {
    hide ComesBack, Mounted;
    if w == 4 {
      forall s, ops, adjust, cached ensures ComesBack(s, ops, adjust, cached, w) {
        NarrowComesBack(s, ops, adjust, cached);
      }
    } else {
      WideLoses(Zeros());
      assert !ComesBack(Mounted(Zeros(), false, 8), Creates(43, [1]), 0, false, w);
    }
  }

  lemma NarrowComesBack(s: Store, ops: seq<Op>, adjust: nat, cached: bool)
    ensures ComesBack(s, ops, adjust, cached, 4)
  {
    if Session(s, 4) && LegalRun(s, ops, adjust) {
      NarrowRunsRestore(s, ops, adjust, cached);
    }
    hide Session, LegalRun, Run, Storables, Unmounted, Mounted, Restored;
  }

  lemma WideLoses(disk: seq<Block>)
    requires ZeroDisk(disk)
    ensures !ComesBack(Mounted(disk, false, 8), Creates(43, [1]), 0, false, 8)
  {
    hide ZeroDisk, Session, LegalRun, Run, Storables, Unmounted, Mounted;
    FortyThirdNameLost(disk, [1], 0, false);
  }

  function Zeros(): (disk: seq<Block>)
    ensures ZeroDisk(disk)
  {
    seq<Block>(DISK_BLOCKS, _ => Zero())
  }

  // ---------- an overwrite lost ----------

  /** The store is sound, and its object 2 holds buf in its first page. */
  ghost predicate OnePage(s: Store, buf: seq<Byte>)
    requires |buf| <= BLOCK_SIZE
  {
    && Inv(s) && Live(s, 0) && HoldsBuf(Content(s, 0, 0), buf)
    && FirstClear(s.data) < DATA_BLOCKS
  }

  /** Nothing is in use. */
  ghost predicate Empty(s: Store) {
    && Inv(s)
    && (forall o :: 0 <= o < MAX_OBJECTS ==> !s.inode[o] && s.objs[o] == Blank())
    && (forall b :: 0 <= b < DATA_BLOCKS ==> !s.data[b])
  }

  lemma BlankEmpty(disk: seq<Block>, cached: bool, w: Width)
    requires ZeroDisk(disk)
    ensures Empty(Mounted(disk, cached, w))
  {
    BlankMounts(disk, cached, w);
    BlankDiskMounts(disk, cached, w);
    hide Mounted, ZeroDisk, FilesOf, Inv, Synced, Storables;
  }

  lemma FirstCreated(s: Store, key: Name)
    requires Empty(s)
    ensures var s1 := Create(s, key).0;
      && Inv(s1) && Live(s1, 0) && s1.objs[0].direct == [0, 0, 0, 0] && s1.data == s.data
  {
    CreateKeeps(s, key);
    hide Coherent, Owned, Grouped, Numbered, View, Ptr;
    FirstClearAt(s.inode, 0);
  }

  lemma FirstWritten(s: Store, buf: seq<Byte>)
    requires Inv(s) && Live(s, 0) && s.objs[0].direct == [0, 0, 0, 0] && |buf| <= BLOCK_SIZE
    requires forall b :: 0 <= b < DATA_BLOCKS ==> !s.data[b]
    ensures CanWrite(s, 2, buf, 0) && OnePage(Write(s, 2, buf, 0, 0).0, buf)
  {
    FirstClearAt(s.data, 0);
    assert Ptr(s, Page(0, 0)) == 0;
    hide Coherent, Owned, Grouped, Numbered, View, Ptr;
    WriteStores(s, 2, buf, 0, 0);
    WriteTable(s, 2, buf, 0, 0);
    SecondFree(s, buf);
    hide Write, Inv;
  }

  lemma SecondFree(s: Store, buf: seq<Byte>)
    requires Inv(s) && Live(s, 0) && s.objs[0].direct == [0, 0, 0, 0] && CanWrite(s, 2, buf, 0)
    requires forall b :: 0 <= b < DATA_BLOCKS ==> !s.data[b]
    ensures FirstClear(Write(s, 2, buf, 0, 0).0.data) == 1
  {
    hide Coherent, Owned, Grouped, Numbered, View, Ptr, WriteBlock;
    FirstClearAt(s.data, 0);
    FirstClearAt(s.data[0 := true], 1);
  }

  lemma OverwriteOnePage(s: Store)
    requires OnePage(s, [1])
    ensures CanWrite(s, 2, [2], 0) && !Stored(s, Write(s, 2, [2], 0, 0).0, 0, 0, [2])
  {
    assert Pad([1])[0] == 1 && Pad([2])[0] == 2;
    assert Ptr(s, Page(0, 0)) != 0;
    hide Coherent, Owned, Grouped, Numbered, View, Stored, Ptr;
    assert CanWrite(s, 2, [2], 0);
    hide Write, Content;
    OverwriteFails(s, 2, [2], 0, 0);
  }

  /** The failing overwrite is reached from the zero disk by create, write, write:
      the second write is legal in all but that the page is mapped, and is not stored. */
  lemma OverwriteReached(disk: seq<Block>, key: Name, cached: bool, w: Width)
    requires ZeroDisk(disk)
    ensures Inv(Mounted(disk, cached, w))
    ensures var s1 := Create(Mounted(disk, cached, w), key).0;
      && Inv(s1) && CanWrite(s1, 2, [1], 0)
      && var s2 := Write(s1, 2, [1], 0, 0).0;
         Inv(s2) && CanWrite(s2, 2, [2], 0) && !Stored(s2, Write(s2, 2, [2], 0, 0).0, 0, 0, [2])
  {
    BlankEmpty(disk, cached, w);
    hide Mounted, ZeroDisk, Create, Write, Stored, Content, WellFormed;
    var s := Mounted(disk, cached, w);
    FirstCreated(s, key);
    FirstWritten(Create(s, key).0, [1]);
    OverwriteOnePage(Write(Create(s, key).0, 2, [1], 0, 0).0);
  }
}
