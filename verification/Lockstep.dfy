/** The build with the cache and the build without it, side by side: over every
    legal run they answer alike, keep the same bitmaps and the same object table,
    and show the same contents in every block that is in use. */
module Lockstep {
  import opened Blocks
  import opened BlockLayer
  import opened StoreModel
  import opened Ownership
  import opened Writing
  import opened Releasing
  import opened Reading
  import opened FileMap

  /** Alike in all but the layer below, and there alike wherever a bit is set. */
  ghost predicate Agree(s: Store, t: Store) {
    && s.inode == t.inode && s.data == t.data && s.objs == t.objs && s.marked == t.marked
    && SeeAlike(s.data, s.layer, t.layer)
  }

  ghost predicate SeeAlike(data: seq<bool>, y: Layer, z: Layer) {
    forall b :: 0 <= b < |data| && data[b] ==> View(z, b) == View(y, b)
  }

  lemma AgreePointers(s: Store, t: Store)
    requires Inv(s) && WellFormed(t) && Agree(s, t)
    ensures forall u :: Ptr(t, u) == Ptr(s, u)
    ensures Inv(t)
  {
    hide Coherent, Owned, Grouped, View, Ptr;
    SamePointers(s, t);
    SameGroups(s, t);
    OwnedExt(s.data, s.inode, Pointers(s), Pointers(t));
  }

  lemma AgreePages(s: Store, t: Store, o: int, p: int)
    requires Inv(s) && WellFormed(t) && Agree(s, t)
    ensures PageBlock(t, o, p) == PageBlock(s, o, p)
  {
    hide Coherent, Owned, Grouped, Ptr;
    AgreePointers(s, t);
    if Ptr(s, Page(o, p)) != 0 {
      SiteInUse(s, Page(o, p));
    }
  }

  // ---------- destroy ----------

  lemma SameBits(d: seq<bool>, e: seq<bool>)
    requires |d| == |e| && forall v :: InUse(d, v) <==> InUse(e, v)
    ensures d == e
  {
    forall b | 0 <= b < |d| ensures d[b] == e[b] {
      assert InUse(d, WRITE_OFFSET + b) <==> InUse(e, WRITE_OFFSET + b);
    }
  }

  lemma DestroyAlike(s: Store, t: Store, key: Name)
    requires Inv(s) && WellFormed(t) && Agree(s, t)
    ensures Destroy(s, key).1 == Destroy(t, key).1
    ensures Agree(Destroy(s, key).0, Destroy(t, key).0)
  {
    hide Coherent, Owned, Grouped, Numbered, View, Ptr, Owner, InUse, ReleaseDirect, ReleaseIndirect;
    var o := Lookup(s.inode, s.objs, key);
    if o < MAX_OBJECTS {
      var (s', t') := (Destroy(s, key).0, Destroy(t, key).0);
      assert s'.inode == t'.inode && s'.objs == t'.objs && s'.marked == t'.marked;
      hide Destroy;
      AgreePointers(s, t);
      var own := OwnerExists(s);
      SameOwner(s, t, own);
      DestroyFrees(s, own, key);
      DestroyFrees(t, own, key);
      SameBits(s'.data, t'.data);
      FreedAlike(s, t, own, o, s', t');
    }
  }

  lemma SameOwner(s: Store, t: Store, own: map<int, Site>)
    requires WellFormed(s) && WellFormed(t) && Owner(s, own) && Agree(s, t)
    requires forall u :: Ptr(t, u) == Ptr(s, u)
    ensures Owner(t, own)
  {
    hide Coherent, View, Ptr;
  }

  lemma FreedAlike(s: Store, t: Store, own: map<int, Site>, o: int, s': Store, t': Store)
    requires WellFormed(s) && WellFormed(s') && WellFormed(t) && WellFormed(t') && Owner(s, own)
    requires Agree(s, t) && Freed(s, own, o, s') && Freed(t, own, o, t')
    ensures SeeAlike(s'.data, s'.layer, t'.layer)
  {
    hide Coherent, View, Ptr;
    forall b | 0 <= b < |s'.data| && s'.data[b] ensures View(t'.layer, b) == View(s'.layer, b) {
      var v := WRITE_OFFSET + b;
      assert InUse(s'.data, v);
      assert v in own && InUse(s.data, v);
      assert View(s'.layer, v - WRITE_OFFSET) == View(s.layer, v - WRITE_OFFSET);
      assert View(t'.layer, v - WRITE_OFFSET) == View(t.layer, v - WRITE_OFFSET);
    }
  }

  // ---------- write ----------

  lemma TakenAlike(s: Store, t: Store, b: nat, block: Block)
    requires WellFormed(s) && WellFormed(t) && Agree(s, t) && IsData(b) && !s.data[b]
    ensures Agree(Taken(s, b, block), Taken(t, b, block))
  {
    WriteBlockView(s.layer, b, block);
    WriteBlockView(t.layer, b, block);
    hide Coherent, View, WriteBlock;
  }

  lemma SetEntryExact(layer: Layer, n: nat, e: nat, v: Word)
    requires Coherent(layer) && IsData(n) && e < WORDS_PER_BLOCK
    ensures forall x :: View(SetEntry(layer, n, e, v).0, x)
                     == if x == n then PutWord(View(layer, n), e, v) else View(layer, x)
    ensures SetEntry(layer, n, e, v).1 == WordAt(View(layer, n), e)
  {
    ReadBlockView(layer, n);
    WriteBlockView(Fetch(layer, n), n, PutWord(View(layer, n), e, v));
    hide View, Coherent, PutWord, WordAt;
  }

  lemma PlaceAlike(s: Store, t: Store, o: nat, page: nat, b: nat, size: nat, adjust: nat)
    requires WellFormed(s) && WellFormed(t) && Agree(s, t)
    requires o < MAX_OBJECTS && page < MAX_PAGES && IsData(b)
    requires NeedsTwo(s.objs[o], page) ==> FirstClear(s.data) < DATA_BLOCKS
    requires DIRECT <= page && !NeedsTwo(s.objs[o], page) ==>
      InUse(s.data, s.objs[o].indirect[GroupOf(page)])
    requires page < DIRECT && s.objs[o].direct[page] != 0 ==>
      adjust == WRITE_OFFSET && InUse(s.data, s.objs[o].direct[page])
    requires DIRECT <= page && !NeedsTwo(s.objs[o], page) ==>
      var v := WordAt(View(s.layer, s.objs[o].indirect[GroupOf(page)] - WRITE_OFFSET), EntryOf(page));
      v != 0 ==> adjust == WRITE_OFFSET && InUse(s.data, v)
    ensures Agree(Place(s, o, page, b, size, adjust), Place(t, o, page, b, size, adjust))
  {
    hide Coherent, View, WriteBlock, SetEntry, PutWord, WordAt, GroupOf, EntryOf;
    if page < DIRECT {
    } else if s.objs[o].indirect[GroupOf(page)] == 0 {
      var n := FirstClear(s.data);
      WriteBlockView(s.layer, n, PutWord(Zero(), EntryOf(page), WRITE_OFFSET + b));
      WriteBlockView(t.layer, n, PutWord(Zero(), EntryOf(page), WRITE_OFFSET + b));
    } else {
      var n := s.objs[o].indirect[GroupOf(page)] - WRITE_OFFSET;
      SetEntryExact(s.layer, n, EntryOf(page), WRITE_OFFSET + b);
      SetEntryExact(t.layer, n, EntryOf(page), WRITE_OFFSET + b);
    }
  }

  lemma WriteAlike(s: Store, t: Store, objid: int, buf: seq<Byte>, offset: nat, adjust: nat)
    requires Inv(s) && WellFormed(t) && Agree(s, t) && Legal(s, OpWrite(objid, buf, offset), adjust)
    ensures Write(s, objid, buf, offset, adjust).1 == Write(t, objid, buf, offset, adjust).1
    ensures Agree(Write(s, objid, buf, offset, adjust).0, Write(t, objid, buf, offset, adjust).0)
  {
    hide Coherent, Owned, Grouped, Numbered, View, Place, Taken;
    var b := FirstClear(s.data);
    if 2 <= objid && b < DATA_BLOCKS {
      var (o, page) := (objid - 2, PageOf(offset));
      var (s1, t1) := (Mark(s, o), Mark(t, o));
      MarkKeeps(s, o);
      TakenAlike(s1, t1, b, Pad(buf));
      var (s2, t2) := (Taken(s1, b, Pad(buf)), Taken(t1, b, Pad(buf)));
      PlaceReady(s1, o, page, b, Pad(buf), adjust);
      PlaceAlike(s2, t2, o, page, b, |buf|, adjust);
    }
  }

  /** What a placement relies on: the pointers it follows name blocks in use. */
  lemma InUseMore(data: seq<bool>, b: nat)
    requires b < |data|
    ensures forall v :: InUse(data, v) ==> InUse(data[b := true], v)
  {
  }

  lemma PlaceReady(s: Store, o: nat, page: nat, b: nat, block: Block, adjust: nat)
    requires Inv(s) && o < MAX_OBJECTS && page < MAX_PAGES && IsData(b) && !s.data[b]
    requires Ptr(s, Page(o, page)) == 0 || adjust == WRITE_OFFSET
    ensures var s2 := Taken(s, b, block);
      && s2.objs == s.objs && s2.data == s.data[b := true]
      && (page < DIRECT && s2.objs[o].direct[page] != 0 ==>
           adjust == WRITE_OFFSET && InUse(s2.data, s2.objs[o].direct[page]))
      && (DIRECT <= page && !NeedsTwo(s2.objs[o], page) ==>
           var ind := s2.objs[o].indirect[GroupOf(page)];
           && InUse(s2.data, ind)
           && var v := WordAt(View(s2.layer, ind - WRITE_OFFSET), EntryOf(page));
              v != 0 ==> adjust == WRITE_OFFSET && InUse(s2.data, v))
  {
    hide Coherent, Owned, Grouped, Numbered, View, WriteBlock, InUse, GroupOf, EntryOf, WordAt;
    var s2 := Taken(s, b, block);
    TakenEffect(s, b, block);
    InUseMore(s.data, b);
    assert Ptr(s2, Page(o, page)) == Ptr(s, Page(o, page));
    if Ptr(s, Page(o, page)) != 0 {
      SiteInUse(s, Page(o, page));
    }
    if DIRECT <= page && !NeedsTwo(s.objs[o], page) {
      IndirectSlot(s, o, GroupOf(page));
      SiteInUse(s, Indirect(o, GroupOf(page)));
    }
  }

  // ---------- read, and all steps ----------

  lemma ReadAlike(s: Store, t: Store, objid: int, size: nat, offset: nat)
    requires Inv(s) && WellFormed(t) && Agree(s, t) && Legal(s, OpRead(objid, size, offset), 0)
    ensures Read(s, objid, size, offset).1 == Read(t, objid, size, offset).1
    ensures Agree(Read(s, objid, size, offset).0, Read(t, objid, size, offset).0)
  {
    hide Coherent, Owned, Grouped, Numbered, View, Ptr, ReadAll, PageOf, BlocksFor, PageBlock;
    if 2 <= objid {
      var (o, first, n) := (objid - 2, PageOf(offset), BlocksFor(size));
      ReadAllPages(s, o, size, offset);
      ReadAllPages(t, o, size, offset);
      forall p ensures PageBlock(t, o, p) == PageBlock(s, o, p) {
        AgreePages(s, t, o, p);
      }
      assert Pages(s, o, first, n) == Pages(t, o, first, n);
    }
  }

  lemma LegalAlike(s: Store, t: Store, op: Op, adjust: nat)
    requires Inv(s) && WellFormed(t) && Agree(s, t) && Legal(s, op, adjust)
    ensures Legal(t, op, adjust)
  {
    hide Coherent, Owned, Grouped, Numbered, View, Ptr, SeeAlike;
    AgreePointers(s, t);
  }

  lemma StepAlike(s: Store, t: Store, op: Op, adjust: nat)
    requires Inv(s) && WellFormed(t) && Agree(s, t) && Legal(s, op, adjust)
    ensures Legal(t, op, adjust)
    ensures Step(s, op, adjust).1 == Step(t, op, adjust).1
    ensures Agree(Step(s, op, adjust).0, Step(t, op, adjust).0)
  {
    LegalAlike(s, t, op, adjust);
    hide Coherent, Owned, Grouped, Numbered, View, Ptr, Destroy, Write, Read;
    match op
    case OpDestroy(key) => DestroyAlike(s, t, key);
    case OpWrite(objid, buf, offset) => WriteAlike(s, t, objid, buf, offset, adjust);
    case OpRead(objid, size, offset) => ReadAlike(s, t, objid, size, offset);
    case _ =>
  }

  /** The two builds step in lockstep over every legal run. */
  lemma {:induction false} RunAlike(s: Store, t: Store, ops: seq<Op>, adjust: nat)
    requires Inv(s) && WellFormed(t) && Agree(s, t) && LegalRun(s, ops, adjust)
    ensures LegalRun(t, ops, adjust)
    ensures Run(s, ops, adjust).1 == Run(t, ops, adjust).1
    ensures Agree(Run(s, ops, adjust).0, Run(t, ops, adjust).0)
    decreases |ops|
  {
    hide Coherent, Owned, Grouped, Numbered, Ptr, Step, Agree, Spec;
    if |ops| != 0 {
      StepAlike(s, t, ops[0], adjust);
      StepMeets(s, ops[0], adjust);
      RunAlike(Step(s, ops[0], adjust).0, Step(t, ops[0], adjust).0, ops[1..], adjust);
    }
  }
}
