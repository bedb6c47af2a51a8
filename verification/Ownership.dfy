/** Who owns each data block. The invariant: a data bit is set exactly when one
    pointer of one live object names the block, and no two pointers name the same. */
module Ownership {
  import opened Blocks
  import opened BlockLayer
  import opened StoreModel

  /** A place that can hold a block pointer: the page-th page of object o (a
      direct slot, or a word of an indirect block) or its l-th indirect slot. */
  datatype Site = Page(o: int, page: int) | Indirect(o: int, l: int)

  predicate IsSite(t: Site) {
    && 0 <= t.o < MAX_OBJECTS
    && match t case Page(_, p) => 0 <= p < MAX_PAGES case Indirect(_, l) => 0 <= l < 4
  }

  /** The pointer held at a site; 0 when there is none. */
  ghost function Ptr(s: Store, t: Site): int
    requires WellFormed(s)
  {
    if !IsSite(t) then 0
    else
      var obj := s.objs[t.o];
      match t
      case Indirect(_, l) => obj.indirect[l]
      case Page(_, p) =>
        if p < DIRECT then obj.direct[p]
        else if obj.indirect[GroupOf(p)] == 0 then 0
        else WordAt(View(s.layer, obj.indirect[GroupOf(p)] - WRITE_OFFSET), EntryOf(p))
  }

  ghost function Pointers(s: Store): (p: Site -> int)
    requires WellFormed(s)
    ensures forall t {:trigger p(t)} :: p(t) == Ptr(s, t)
  {
    (t: Site) => Ptr(s, t)
  }

  // ---------- the invariant, over any assignment of pointers to sites ----------

  predicate InUse(data: seq<bool>, v: int) {
    0 <= v - WRITE_OFFSET < |data| && data[v - WRITE_OFFSET]
  }

  /** own maps each pointer value in use to the one site holding it. */
  ghost predicate Owns(data: seq<bool>, inode: seq<bool>, p: Site -> int, own: map<int, Site>) {
    && (forall v :: v in own <==> InUse(data, v))
    && (forall v :: v in own ==> p(own[v]) == v && 0 <= own[v].o < |inode| && inode[own[v].o])
    && (forall t :: p(t) != 0 ==> p(t) in own && own[p(t)] == t)
  }

  ghost predicate Owned(data: seq<bool>, inode: seq<bool>, p: Site -> int) {
    exists own :: Owns(data, inode, p, own)
  }

  /** An empty site takes a block that was free. */
  lemma AddOwner(data: seq<bool>, inode: seq<bool>, p: Site -> int, p': Site -> int, t: Site, b: nat)
    requires Owned(data, inode, p) && p(t) == 0
    requires b < |data| && !data[b]
    requires 0 <= t.o < |inode| && inode[t.o]
    requires forall u :: p'(u) == if u == t then WRITE_OFFSET + b else p(u)
    ensures Owned(data[b := true], inode, p')
  {
    var own :| Owns(data, inode, p, own);
    var own' := own[WRITE_OFFSET + b := t];
    assert WRITE_OFFSET + b !in own;
    assert Owns(data[b := true], inode, p', own');
  }

  /** A site gives its block up. */
  lemma DropOwner(data: seq<bool>, inode: seq<bool>, p: Site -> int, p': Site -> int, t: Site)
    requires Owned(data, inode, p) && p(t) != 0
    requires forall u :: p'(u) == if u == t then 0 else p(u)
    ensures InUse(data, p(t))
    ensures Owned(Toggle(data, p(t) - WRITE_OFFSET), inode, p')
  {
    var own :| Owns(data, inode, p, own);
    var own' := own - {p(t)};
    assert Owns(Toggle(data, p(t) - WRITE_OFFSET), inode, p', own');
  }

  /** A pointer held somewhere names a block in use, and is held nowhere else. */
  lemma HolderIsOwner(data: seq<bool>, inode: seq<bool>, p: Site -> int, t: Site)
    requires Owned(data, inode, p) && p(t) != 0
    ensures InUse(data, p(t)) && 0 <= t.o < |inode| && inode[t.o]
    ensures forall u :: p(u) == p(t) ==> u == t
  {
    var own :| Owns(data, inode, p, own);
    assert own[p(t)] == t;
  }

  /** The invariant in words: a bit is set iff a live pointer names its block,
      no two pointers name one block, and dead objects name nothing. */
  lemma {:induction false} SetBitHasOneOwner(data: seq<bool>, inode: seq<bool>, p: Site -> int)
    ensures Owned(data, inode, p) ==>
      && (forall v :: InUse(data, v) <==> exists t :: p(t) == v && v != 0)
      && (forall t, u :: p(t) == p(u) && p(t) != 0 ==> t == u)
      && (forall t :: p(t) != 0 ==> 0 <= t.o < |inode| && inode[t.o])
  {
    if own :| Owns(data, inode, p, own) {
      forall v ensures InUse(data, v) <==> exists t :: p(t) == v && v != 0 {
        if InUse(data, v) {
          assert p(own[v]) == v;
        }
      }
    }
  }

  // ---------- the invariant of a store ----------

  /** A live entry carries its own number; a dead one has size 0. */
  ghost predicate Numbered(s: Store)
    requires WellFormed(s)
  {
    forall o :: 0 <= o < MAX_OBJECTS ==>
      && 0 <= s.objs[o].id < MAX_OBJECTS + 2
      && if s.inode[o] then s.objs[o].id == o + 2 else s.objs[o].size == 0
  }

  /** An indirect block in use holds at least one page. */
  ghost predicate Grouped(s: Store)
    requires WellFormed(s)
  {
    forall o, l :: Ptr(s, Indirect(o, l)) != 0 ==> HasPage(s, o, l)
  }

  ghost predicate HasPage(s: Store, o: int, l: int)
    requires WellFormed(s)
  {
    exists p :: DIRECT <= p < MAX_PAGES && GroupOf(p) == l && Ptr(s, Page(o, p)) != 0
  }

  ghost predicate Inv(s: Store) {
    && WellFormed(s)
    && Numbered(s)
    && Grouped(s)
    && Owned(s.data, s.inode, Pointers(s))
  }

  lemma SameGroups(s: Store, s': Store)
    requires WellFormed(s) && WellFormed(s') && Grouped(s) && forall t :: Ptr(s', t) == Ptr(s, t)
    ensures Grouped(s')
  {
    hide Ptr, WellFormed, GroupOf;
    forall o, l | Ptr(s', Indirect(o, l)) != 0 ensures HasPage(s', o, l) {
      assert HasPage(s, o, l);
      var p :| DIRECT <= p < MAX_PAGES && GroupOf(p) == l && Ptr(s, Page(o, p)) != 0;
      assert Ptr(s', Page(o, p)) != 0;
    }
  }

  /** A block is known to be in use because some site names it. */
  lemma SiteInUse(s: Store, t: Site)
    requires WellFormed(s) && Owned(s.data, s.inode, Pointers(s)) && Ptr(s, t) != 0
    ensures InUse(s.data, Ptr(s, t)) && Live(s, t.o)
    ensures forall u :: u != t ==> Ptr(s, u) != Ptr(s, t)
  {
    hide GroupOf, EntryOf, Owned, Ptr;
    var p := Pointers(s);
    HolderIsOwner(s.data, s.inode, p, t);
    forall u | u != t ensures Ptr(s, u) != Ptr(s, t) {
      assert p(u) == Ptr(s, u);
    }
  }

  /** Pointers depend on the object table and on what is seen in owned blocks. */
  lemma SamePointers(s: Store, s': Store)
    requires WellFormed(s) && WellFormed(s') && Owned(s.data, s.inode, Pointers(s))
    requires forall o :: 0 <= o < MAX_OBJECTS ==>
      s'.objs[o].direct == s.objs[o].direct && s'.objs[o].indirect == s.objs[o].indirect
    requires forall b :: IsData(b) && s.data[b] ==> View(s'.layer, b) == View(s.layer, b)
    ensures forall t :: Ptr(s', t) == Ptr(s, t)
  {
    hide GroupOf, EntryOf, Coherent, Owned;
    forall t ensures Ptr(s', t) == Ptr(s, t) {
      if IsSite(t) && t.Page? && DIRECT <= t.page && s.objs[t.o].indirect[GroupOf(t.page)] != 0 {
        SiteInUse(s, Indirect(t.o, GroupOf(t.page)));
      }
    }
  }

  lemma OwnedExt(data: seq<bool>, inode: seq<bool>, p: Site -> int, p': Site -> int)
    requires Owned(data, inode, p) && forall t :: p(t) == p'(t)
    ensures Owned(data, inode, p')
  {
    var own :| Owns(data, inode, p, own);
    assert Owns(data, inode, p', own);
  }

  lemma CreateKeeps(s: Store, key: Name)
    requires Inv(s)
    ensures Inv(Create(s, key).0)
    ensures forall t :: Ptr(Create(s, key).0, t) == Ptr(s, t)
  {
    hide GroupOf, EntryOf, Coherent, View;
    var s' := Create(s, key).0;
    SamePointers(s, s');
    SameGroups(s, s');
    hide Grouped;
    var own :| Owns(s.data, s.inode, Pointers(s), own);
    forall t ensures Pointers(s')(t) == Pointers(s)(t) {
      assert Ptr(s', t) == Ptr(s, t);
    }
    assert Owns(s'.data, s'.inode, Pointers(s'), own);
  }

  lemma RenameKeeps(s: Store, key: Name, newname: Name)
    requires Inv(s)
    ensures Inv(Rename(s, key, newname).0)
    ensures forall t :: Ptr(Rename(s, key, newname).0, t) == Ptr(s, t)
  {
    hide GroupOf, EntryOf, Coherent, View;
    var s' := Rename(s, key, newname).0;
    SamePointers(s, s');
    SameGroups(s, s');
    hide Grouped;
    OwnedExt(s.data, s.inode, Pointers(s), Pointers(s'));
  }
}
