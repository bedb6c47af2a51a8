/** What destroy_object does: it flips exactly the bits of the blocks its object
    owned, each once, and loses nothing any other object can see. */
module Releasing {
  import opened Blocks
  import opened BlockLayer
  import opened StoreModel
  import opened Ownership

  // ---------- the order in which an object's blocks are released ----------

  /** Direct pages first; then, group by group, the entries and the indirect block. */
  function Rank(t: Site): int {
    match t
    case Page(_, p) => if p < DIRECT then p else 4 + 1025 * ((p - 4) / 1024) + (p - 4) % 1024
    case Indirect(_, l) => 4 + 1025 * l + 1024
  }

  predicate Done(t: Site, o: int, r: int) {
    t.o == o && Rank(t) < r
  }

  lemma RankOrders(t: Site, u: Site)
    requires IsSite(t) && IsSite(u) && t.o == u.o
    ensures Rank(t) == Rank(u) ==> t == u
    ensures 0 <= Rank(t) < 4104
  {
  }

  lemma RankOfEntry(o: int, g: nat, e: nat)
    requires g < 4 && e < WORDS_PER_BLOCK
    ensures var p := 4 + 1024 * g + e;
      p < MAX_PAGES && GroupOf(p) == g && EntryOf(p) == e && Rank(Page(o, p)) == 4 + 1025 * g + e
  {
  }

  /** The owner map is right about s, and no site holds two ranks. */
  ghost predicate Owner(s: Store, own: map<int, Site>)
    requires WellFormed(s)
  {
    && (forall v :: v in own <==> InUse(s.data, v))
    && (forall v :: v in own ==> IsSite(own[v]) && Live(s, own[v].o) && Ptr(s, own[v]) == v)
    && (forall t :: Ptr(s, t) != 0 ==> Ptr(s, t) in own && own[Ptr(s, t)] == t)
  }

  lemma SitesOnly(s: Store)
    requires WellFormed(s)
    ensures |s.inode| == MAX_OBJECTS && forall t :: Ptr(s, t) != 0 ==> IsSite(t)
  {
    hide View, Coherent;
  }

  lemma OwnerExists(s: Store) returns (own: map<int, Site>)
    requires Inv(s)
    ensures Owner(s, own)
  {
    hide WellFormed, Numbered, Grouped, Ptr, InUse, IsSite;
    var p := Pointers(s);
    SitesOnly(s);
    own :| Owns(s.data, s.inode, p, own);
    forall v | v in own ensures v != 0 && Ptr(s, own[v]) == v {
      assert p(own[v]) == v;
      assert InUse(s.data, v);
      InUseNonzero(s.data, v);
    }
    forall t | Ptr(s, t) != 0 ensures Ptr(s, t) in own && own[Ptr(s, t)] == t {
      assert p(t) != 0;
    }
  }

  lemma InUseNonzero(data: seq<bool>, v: int)
    requires InUse(data, v)
    ensures v != 0
  {
  }

  /** A line of the cache has block b. */
  ghost predicate Held(l: Layer, b: int) {
    IsData(b) && Shaped(l) && l.cached && l.tag[SlotOf(b)] == TagOf(b)
  }

  /** Exactly the blocks of o with rank below r have been released, and no line has
      them; every block still owned is seen as it was. */
  ghost predicate AtStage(s: Store, own: map<int, Site>, o: int, r: int, data: seq<bool>, layer: Layer) {
    && |data| == DATA_BLOCKS
    && Coherent(layer)
    && layer.cached == s.layer.cached
    && (forall v :: InUse(data, v) <==> v in own && !Done(own[v], o, r))
    && (forall v :: v in own && !Done(own[v], o, r) ==>
          View(layer, v - WRITE_OFFSET) == View(s.layer, v - WRITE_OFFSET))
    && (forall v :: v in own && Done(own[v], o, r) ==> !Held(layer, v - WRITE_OFFSET))
  }

  lemma ReleaseBits(data: seq<bool>, layer: Layer, ptr: int)
    requires |data| == DATA_BLOCKS && Coherent(layer)
    ensures var (d, y) := Release(data, layer, ptr);
      && (InUse(data, ptr) ==> forall v :: InUse(d, v) <==> InUse(data, v) && v != ptr)
      && y.cached == layer.cached
      && (forall b :: b != ptr - WRITE_OFFSET ==> View(y, b) == View(layer, b))
      && (InUse(data, ptr) ==> !Held(y, ptr - WRITE_OFFSET))
      && (forall b :: Held(y, b) ==> Held(layer, b))
  {
    hide Coherent, View, Discard, Held;
    var b := ptr - WRITE_OFFSET;
    if ptr != 0 && IsData(b) {
      DiscardView(layer, b);
      DiscardHeld(layer, b);
    }
  }

  lemma DiscardHeld(l: Layer, b: nat)
    requires Coherent(l) && IsData(b)
    ensures !Held(Discard(l, b), b) && forall x :: Held(Discard(l, b), x) ==> Held(l, x)
  {
  }

  lemma FetchHeld(l: Layer, b: nat)
    requires Coherent(l) && IsData(b)
    ensures forall x :: Held(Fetch(l, b), x) && x != b ==> Held(l, x)
  {
    hide Home, SlotOf, TagOf;
    HomeOfSlot(b);
    forall x | Held(Fetch(l, b), x) && x != b ensures Held(l, x) {
      HomeOfSlot(x);
    }
  }

  /** Releasing what one site holds moves the stage past that site. */
  lemma ReleaseSite(s: Store, own: map<int, Site>, t: Site, data: seq<bool>, layer: Layer)
    requires WellFormed(s) && Owner(s, own) && IsSite(t)
    requires AtStage(s, own, t.o, Rank(t), data, layer)
    ensures var (d, y) := Release(data, layer, Ptr(s, t)); AtStage(s, own, t.o, Rank(t) + 1, d, y)
  {
    hide Held, Release, View, Ptr, Coherent, InUse, Done, WellFormed;
    var ptr := Ptr(s, t);
    var (d, y) := Release(data, layer, ptr);
    forall v | v in own
      ensures Done(own[v], t.o, Rank(t) + 1) <==> Done(own[v], t.o, Rank(t)) || v == ptr
    {
      DoneNext(own[v], t);
      InUseNonzero(s.data, v);
    }
    DoneNext(t, t);
    ReleaseBits(data, layer, ptr);
    ReleaseNothing(data, layer);
  }

  lemma DoneNext(u: Site, t: Site)
    requires IsSite(u) && IsSite(t)
    ensures Done(u, t.o, Rank(t) + 1) <==> Done(u, t.o, Rank(t)) || u == t
    ensures !Done(t, t.o, Rank(t))
  {
    if u.o == t.o {
      RankOrders(u, t);
    }
  }

  lemma ReleaseNothing(data: seq<bool>, layer: Layer)
    requires |data| == DATA_BLOCKS && Coherent(layer)
    ensures Release(data, layer, 0) == (data, layer)
  {
  }

  // ---------- the three loops ----------

  lemma {:induction false} DirectStage(s: Store, own: map<int, Site>, o: int, l: nat, data: seq<bool>, layer: Layer)
    requires WellFormed(s) && Owner(s, own) && 0 <= o < MAX_OBJECTS && l <= DIRECT
    requires AtStage(s, own, o, l, data, layer)
    requires |data| == DATA_BLOCKS && Coherent(layer)
    ensures var (d, y) := ReleaseDirect(data, layer, s.objs[o].direct, l); AtStage(s, own, o, DIRECT, d, y)
    decreases DIRECT - l
  {
    hide AtStage, Owner, Release;
    if l < DIRECT {
      assert Ptr(s, Page(o, l)) == s.objs[o].direct[l];
      ReleaseSite(s, own, Page(o, l), data, layer);
      var (d, y) := Release(data, layer, s.objs[o].direct[l]);
      DirectStage(s, own, o, l + 1, d, y);
    }
  }

  lemma {:induction false} EntriesStage(s: Store, own: map<int, Site>, o: int, g: nat, e: nat, data: seq<bool>,
      layer: Layer)
    requires WellFormed(s) && Owner(s, own) && 0 <= o < MAX_OBJECTS && g < 4 && e <= WORDS_PER_BLOCK
    requires s.objs[o].indirect[g] != 0
    requires AtStage(s, own, o, 4 + 1025 * g + e, data, layer)
    requires |data| == DATA_BLOCKS && Coherent(layer)
    ensures var block := View(s.layer, s.objs[o].indirect[g] - WRITE_OFFSET);
      var (d, y) := ReleaseEntries(data, layer, block, e);
      AtStage(s, own, o, 4 + 1025 * g + 1024, d, y)
    decreases WORDS_PER_BLOCK - e
  {
    hide AtStage, Owner, Release, View;
    if e < WORDS_PER_BLOCK {
      var t := Page(o, 4 + 1024 * g + e);
      RankOfEntry(o, g, e);
      var block := View(s.layer, s.objs[o].indirect[g] - WRITE_OFFSET);
      assert Ptr(s, t) == WordAt(block, e);
      ReleaseSite(s, own, t, data, layer);
      var (d, y) := Release(data, layer, WordAt(block, e));
      EntriesStage(s, own, o, g, e + 1, d, y);
    }
  }

  /** A group without an indirect block holds nothing. */
  lemma SkipGroup(s: Store, own: map<int, Site>, o: int, g: nat, data: seq<bool>, layer: Layer)
    requires WellFormed(s) && Owner(s, own) && 0 <= o < MAX_OBJECTS && g < 4
    requires s.objs[o].indirect[g] == 0
    requires AtStage(s, own, o, 4 + 1025 * g, data, layer)
    ensures AtStage(s, own, o, 4 + 1025 * (g + 1), data, layer)
  {
    hide Coherent, View, WellFormed, Owner, Done, InUse;
    forall v | v in own ensures Done(own[v], o, 4 + 1025 * (g + 1)) <==> Done(own[v], o, 4 + 1025 * g) {
      NoneInGroup(s, own, o, g, v);
    }
  }

  lemma NoneInGroup(s: Store, own: map<int, Site>, o: int, g: nat, v: int)
    requires WellFormed(s) && Owner(s, own) && 0 <= o < MAX_OBJECTS && g < 4
    requires s.objs[o].indirect[g] == 0 && v in own
    ensures Done(own[v], o, 4 + 1025 * (g + 1)) <==> Done(own[v], o, 4 + 1025 * g)
  {
    hide Coherent, View;
    assert v != 0 && Ptr(s, own[v]) == v;
  }

  /** Reading a block back into the cache releases nothing. */
  lemma FetchStage(s: Store, own: map<int, Site>, o: int, g: nat, data: seq<bool>, layer: Layer)
    requires WellFormed(s) && Owner(s, own) && 0 <= o < MAX_OBJECTS && g < 4
    requires s.objs[o].indirect[g] != 0
    requires AtStage(s, own, o, 4 + 1025 * g, data, layer)
    ensures var b := s.objs[o].indirect[g] - WRITE_OFFSET;
      && Coherent(Fetch(layer, b))
      && AtStage(s, own, o, 4 + 1025 * g, data, Fetch(layer, b))
      && ReadBlock(layer, b) == View(s.layer, b)
  {
    hide View;
    var t := Indirect(o, g);
    assert Ptr(s, t) == s.objs[o].indirect[g] && own[Ptr(s, t)] == t;
    hide Fetch, ReadBlock, Held;
    ReadBlockView(layer, s.objs[o].indirect[g] - WRITE_OFFSET);
    FetchHeld(layer, s.objs[o].indirect[g] - WRITE_OFFSET);
  }

  lemma {:induction false} IndirectStage(s: Store, own: map<int, Site>, o: int, g: nat, data: seq<bool>, layer: Layer)
    requires WellFormed(s) && Owner(s, own) && 0 <= o < MAX_OBJECTS && g <= 4
    requires AtStage(s, own, o, 4 + 1025 * g, data, layer)
    requires |data| == DATA_BLOCKS && Coherent(layer)
    ensures var (d, y) := ReleaseIndirect(data, layer, s.objs[o], g); AtStage(s, own, o, 4104, d, y)
    decreases 4 - g
  {
    hide AtStage, Owner, Release, View, Fetch, ReadBlock, ReleaseEntries, Coherent;
    if g == 4 {
    } else if s.objs[o].indirect[g] == 0 {
      SkipGroup(s, own, o, g, data, layer);
      IndirectStage(s, own, o, g + 1, data, layer);
    } else {
      var b := s.objs[o].indirect[g] - WRITE_OFFSET;
      assert Ptr(s, Indirect(o, g)) == s.objs[o].indirect[g];
      FetchStage(s, own, o, g, data, layer);
      EntriesStage(s, own, o, g, 0, data, Fetch(layer, b));
      var (d1, y1) := ReleaseEntries(data, Fetch(layer, b), ReadBlock(layer, b), 0);
      ReleaseSite(s, own, Indirect(o, g), d1, y1);
      var (d2, y2) := Release(d1, y1, s.objs[o].indirect[g]);
      IndirectStage(s, own, o, g + 1, d2, y2);
    }
  }

  // ---------- the whole operation ----------

  lemma DestroyStage(s: Store, own: map<int, Site>, key: Name)
    requires WellFormed(s) && Owner(s, own)
    requires Lookup(s.inode, s.objs, key) < MAX_OBJECTS
    ensures AtStage(s, own, Lookup(s.inode, s.objs, key), 4104, Destroy(s, key).0.data, Destroy(s, key).0.layer)
  {
    hide Owner, View, Ptr, ReleaseDirect, ReleaseIndirect;
    var o := Lookup(s.inode, s.objs, key);
    assert AtStage(s, own, o, 0, s.data, s.layer) by {
      StageZero(s, own, o);
    }
    hide AtStage;
    DirectStage(s, own, o, 0, s.data, s.layer);
    var (d1, y1) := ReleaseDirect(s.data, s.layer, s.objs[o].direct, 0);
    IndirectStage(s, own, o, 0, d1, y1);
  }

  lemma StageZero(s: Store, own: map<int, Site>, o: int)
    requires WellFormed(s) && Owner(s, own)
    ensures AtStage(s, own, o, 0, s.data, s.layer)
  {
    hide View, Ptr, Coherent;
    forall v | v in own ensures !Done(own[v], o, 0) {
      RankOrders(own[v], own[v]);
    }
  }

  /** After destroy: the object's pointers are gone, exactly its blocks are free, no
      line of the cache has one of them, and every block another object points to is
      seen as before. */
  ghost predicate Freed(s: Store, own: map<int, Site>, o: int, s': Store)
    requires WellFormed(s) && WellFormed(s')
  {
    && (forall t :: Ptr(s', t) == if t.o == o then 0 else Ptr(s, t))
    && (forall v :: InUse(s'.data, v) <==> v in own && own[v].o != o)
    && (forall v :: v in own && own[v].o != o ==> View(s'.layer, v - WRITE_OFFSET) == View(s.layer, v - WRITE_OFFSET))
    && (forall v :: v in own && own[v].o == o ==> !Held(s'.layer, v - WRITE_OFFSET))
  }

  /** Once every rank of o is past, only o's blocks have gone. */
  lemma LastStage(s: Store, own: map<int, Site>, o: int, data: seq<bool>, layer: Layer)
    requires WellFormed(s) && Owner(s, own) && AtStage(s, own, o, 4104, data, layer)
    ensures forall v :: InUse(data, v) <==> v in own && own[v].o != o
    ensures forall v :: v in own && own[v].o != o ==> View(layer, v - WRITE_OFFSET) == View(s.layer, v - WRITE_OFFSET)
    ensures forall v :: v in own && own[v].o == o ==> !Held(layer, v - WRITE_OFFSET)
  {
    hide View, Ptr, Coherent, InUse, Held;
    forall v | v in own ensures Done(own[v], o, 4104) <==> own[v].o == o {
      RankOrders(own[v], own[v]);
    }
  }

  lemma DestroyPointers(s: Store, own: map<int, Site>, o: int, s': Store)
    requires WellFormed(s) && Owner(s, own) && WellFormed(s') && 0 <= o < MAX_OBJECTS
    requires s'.objs == s.objs[o := Emptied(s.objs[o])]
    requires forall v :: v in own && own[v].o != o ==>
      View(s'.layer, v - WRITE_OFFSET) == View(s.layer, v - WRITE_OFFSET)
    ensures forall t :: Ptr(s', t) == if t.o == o then 0 else Ptr(s, t)
  {
    hide View, Coherent, InUse;
    forall t: Site | t.o != o ensures Ptr(s', t) == Ptr(s, t) {
      if IsSite(t) && t.Page? && DIRECT <= t.page && s.objs[t.o].indirect[GroupOf(t.page)] != 0 {
        var i := Indirect(t.o, GroupOf(t.page));
        assert Ptr(s, i) == s.objs[t.o].indirect[GroupOf(t.page)] && own[Ptr(s, i)] == i;
      }
    }
  }

  /** Of the table, only the entry goes to size and pointers zero; of the inode bits,
      only its own; of the marks, that of its chunk. */
  lemma DestroyTable(s: Store, key: Name)
    requires WellFormed(s) && Lookup(s.inode, s.objs, key) < MAX_OBJECTS
    ensures var (s', o) := (Destroy(s, key).0, Lookup(s.inode, s.objs, key));
      && s'.objs == s.objs[o := Emptied(s.objs[o])]
      && s'.objs[o] == Object(s.objs[o].id, 0, s.objs[o].key, s.objs[o].field, [0, 0, 0, 0], [0, 0, 0, 0])
      && s'.inode == s.inode[o := false] && s'.marked == s.marked[o / 46 := true]
  {
    hide Coherent, ReleaseDirect, ReleaseIndirect;
  }

  lemma DestroyFrees(s: Store, own: map<int, Site>, key: Name)
    requires WellFormed(s) && Owner(s, own)
    requires Lookup(s.inode, s.objs, key) < MAX_OBJECTS
    ensures Freed(s, own, Lookup(s.inode, s.objs, key), Destroy(s, key).0)
  {
    hide View, Coherent, Ptr, AtStage, InUse, Destroy, Emptied, Owner;
    var o := Lookup(s.inode, s.objs, key);
    var s' := Destroy(s, key).0;
    DestroyTable(s, key);
    DestroyStage(s, own, key);
    LastStage(s, own, o, s'.data, s'.layer);
    DestroyPointers(s, own, o, s');
  }

  lemma FreedOwned(s: Store, own: map<int, Site>, o: int, s': Store)
    requires WellFormed(s) && Owner(s, own) && WellFormed(s') && Freed(s, own, o, s')
    requires 0 <= o < MAX_OBJECTS && s'.inode == s.inode[o := false]
    ensures Owned(s'.data, s'.inode, Pointers(s'))
  {
    hide View, Coherent, Ptr, InUse;
    var own' := map v | v in own && own[v].o != o :: own[v];
    var p' := Pointers(s');
    forall v | v in own' ensures p'(own'[v]) == v {
      assert Ptr(s', own[v]) == v;
    }
    forall t | p'(t) != 0 ensures p'(t) in own' && own'[p'(t)] == t {
      assert p'(t) == Ptr(s', t);
    }
    assert Owns(s'.data, s'.inode, p', own');
  }

  lemma FreedGrouped(s: Store, own: map<int, Site>, o: int, s': Store)
    requires WellFormed(s) && WellFormed(s') && Freed(s, own, o, s') && Grouped(s)
    ensures Grouped(s')
  {
    hide View, WellFormed, Ptr, InUse, GroupOf;
    forall k, l | Ptr(s', Indirect(k, l)) != 0 ensures HasPage(s', k, l) {
      assert HasPage(s, k, l);
      var p :| DIRECT <= p < MAX_PAGES && GroupOf(p) == l && Ptr(s, Page(k, p)) != 0;
      assert Ptr(s', Page(k, p)) != 0;
    }
  }

  lemma DestroyNumbered(s: Store, key: Name)
    requires WellFormed(s) && Numbered(s)
    ensures Numbered(Destroy(s, key).0)
  {
    if Lookup(s.inode, s.objs, key) < MAX_OBJECTS {
      DestroyTable(s, key);
      hide Destroy;
    }
  }

  /** Destroying keeps the invariant. */
  lemma DestroyKeeps(s: Store, key: Name)
    requires Inv(s)
    ensures Inv(Destroy(s, key).0)
  {
    var o := Lookup(s.inode, s.objs, key);
    if o < MAX_OBJECTS {
      hide Ptr, View, Coherent, Owned, Owner, Freed, Numbered, Grouped, Destroy;
      var own := OwnerExists(s);
      var s' := Destroy(s, key).0;
      DestroyTable(s, key);
      DestroyFrees(s, own, key);
      FreedOwned(s, own, o, s');
      FreedGrouped(s, own, o, s');
      DestroyNumbered(s, key);
    }
  }

  // ---------- conservation ----------

  function SetBits(data: seq<bool>): set<int> {
    set b | 0 <= b < |data| && data[b]
  }

  /** The data blocks that object o points to, from its entry or from its indirect blocks. */
  ghost function BlocksOf(s: Store, o: int): set<int>
    requires WellFormed(s)
  {
    set b | b in SetBits(s.data) && exists t: Site :: t.o == o && Ptr(s, t) == WRITE_OFFSET + b
  }

  /** destroy_object frees exactly the blocks of its object: the set bits lose
      those of the object, all of which were set, and nothing else. */
  lemma DestroyConserves(s: Store, key: Name)
    requires Inv(s) && Lookup(s.inode, s.objs, key) < MAX_OBJECTS
    ensures var (s', gone) := (Destroy(s, key).0, BlocksOf(s, Lookup(s.inode, s.objs, key)));
      && gone <= SetBits(s.data)
      && SetBits(s'.data) == SetBits(s.data) - gone
      && |SetBits(s'.data)| == |SetBits(s.data)| - |gone|
  {
    hide Ptr, View, Coherent, Destroy;
    var o := Lookup(s.inode, s.objs, key);
    var s' := Destroy(s, key).0;
    var own := OwnerExists(s);
    DestroyFrees(s, own, key);
    forall b ensures b in SetBits(s'.data) <==> b in SetBits(s.data) - BlocksOf(s, o) {
      var v := WRITE_OFFSET + b;
      assert b in SetBits(s.data) <==> InUse(s.data, v);
      assert b in SetBits(s'.data) <==> InUse(s'.data, v);
      hide InUse, SetBits;
      if v in own {
        assert Ptr(s, own[v]) == v;
      }
    }
  }
}
