/** Ass1/actual.c as it runs: table words written in place while the image is built,
    and the teardown's loops over the frames it has collected. */
module ImageMemory {
  import opened Options
  import opened PageTables
  import opened ProcessImage

  const SEGMENTS := 3

  /** Which segment a turn of the building loop maps. */
  function TurnPath(g: Segments, i: nat): (p: Path)
    ensures |p| == LEVELS && ValidPath(p)
  {
    if i == 1 then CodePath(g) else if i == 0 then StackPath(g) else DataPath(g)
  }

  function TurnWrite(g: Segments, i: nat): bool {
    if i == 1 then g.codeWrite else if i == 0 then g.stackWrite else g.dataWrite
  }

  /** One turn of the building loop; the third maps the caller's frame. */
  function Turn(m: Memory, root: Pfn, g: Segments, i: nat): Memory {
    var page := if i != 2 then FirstFree(m.pageFree) else g.argFrame;
    var (t, free, used) := PutSegment(m.tables, root, m.tableFree, TurnPath(g, i), TurnWrite(g, i), page);
    Memory(t, free, if i != 2 then Rest(m.pageFree, used) else m.pageFree)
  }

  function Turns(m: Memory, root: Pfn, g: Segments, n: nat): Memory {
    if n == 0 then m else Turn(Turns(m, root, g, n - 1), root, g, n - 1)
  }

  /** The memory once the top table is taken and cleared. */
  function Begun(m: Memory): Memory {
    m.(tables := m.tables[Root(m) := ZeroTable()], tableFree := RestFree(m.tableFree))
  }

  lemma ThreeTurns(m: Memory, g: Segments)
    ensures Turns(Begun(m), Root(m), g, 3) == Prepare(m, g)
  {
    hide PutSegment, PathOf;
    var (m0, root) := (Begun(m), Root(m));
    assert Turns(m0, root, g, 1) == Turn(Turns(m0, root, g, 0), root, g, 0);
    assert Turns(m0, root, g, 2) == Turn(Turns(m0, root, g, 1), root, g, 1);
    assert Turns(m0, root, g, 3) == Turn(Turns(m0, root, g, 2), root, g, 2);
  }

  // ---------- what the teardown writes and gives back ----------

  function Cleared(t: Tables, f: Pfn, i: int): Tables
    requires 0 <= i < ENTRIES
  {
    t[f := TableOf(t, f)[i := 0]]
  }

  /** The frame of the table k indices down, and the word of p in it. */
  function ClearWord(now: Tables, t: Tables, root: Pfn, p: Path, k: nat): Tables
    requires k < |p| && ValidPath(p)
  {
    Cleared(now, FrameAt(t, root, p[..k]), p[k])
  }

  /** The four words found on the way to p, the lowest first. */
  function ClearPath(now: Tables, t: Tables, root: Pfn, p: Path): Tables
    requires |p| == LEVELS && ValidPath(p)
  {
    ClearWord(ClearWord(ClearWord(ClearWord(now, t, root, p, 3), t, root, p, 2), t, root, p, 1), t, root, p, 0)
  }

  /** The order of the teardown's loops. */
  function DownPath(g: Segments, i: nat): (p: Path)
    ensures |p| == LEVELS && ValidPath(p)
  {
    if i == 0 then CodePath(g) else if i == 1 then StackPath(g) else DataPath(g)
  }

  function ClearPaths(t: Tables, root: Pfn, g: Segments, n: nat): Tables {
    if n == 0 then t else ClearPath(ClearPaths(t, root, g, n - 1), t, root, DownPath(g, n - 1))
  }

  /** Word i of frame f is one that a walk along p reads. */
  ghost predicate OnPath(t: Tables, root: Pfn, p: Path, f: Pfn, i: int)
    requires |p| == LEVELS && ValidPath(p)
  {
    exists k: nat :: WordOf(t, root, p, k, f, i)
  }

  ghost predicate WordOf(t: Tables, root: Pfn, p: Path, k: nat, f: Pfn, i: int)
    requires |p| == LEVELS && ValidPath(p)
  {
    k < LEVELS && f == FrameAt(t, root, p[..k]) && i == p[k]
  }

  /** One word goes to zero, and no other changes. */
  lemma OneWordCleared(now: Tables, t: Tables, root: Pfn, p: Path, k: nat, f: Pfn, i: int)
    requires |p| == LEVELS && ValidPath(p) && k < LEVELS && 0 <= i < ENTRIES
    ensures TableOf(ClearWord(now, t, root, p, k), f)[i] ==
      if WordOf(t, root, p, k, f, i) then 0 else TableOf(now, f)[i]
  {
    hide FrameAt;
  }

  /** The four words of a path go to zero, and no other changes. */
  lemma PathCleared(now: Tables, t: Tables, root: Pfn, p: Path, f: Pfn, i: int)
    requires |p| == LEVELS && ValidPath(p) && 0 <= i < ENTRIES
    ensures TableOf(ClearPath(now, t, root, p), f)[i] == if OnPath(t, root, p, f, i) then 0 else TableOf(now, f)[i]
  {
    hide FrameAt, WordOf, ClearWord, TableOf;
    var now1 := ClearWord(now, t, root, p, 3);
    var now2 := ClearWord(now1, t, root, p, 2);
    var now3 := ClearWord(now2, t, root, p, 1);
    OneWordCleared(now, t, root, p, 3, f, i);
    OneWordCleared(now1, t, root, p, 2, f, i);
    OneWordCleared(now2, t, root, p, 1, f, i);
    OneWordCleared(now3, t, root, p, 0, f, i);
    if k: nat :| WordOf(t, root, p, k, f, i) {
      FewLevels(t, root, p, k, f, i);
    }
  }

  lemma FewLevels(t: Tables, root: Pfn, p: Path, k: nat, f: Pfn, i: int)
    requires |p| == LEVELS && ValidPath(p) && WordOf(t, root, p, k, f, i)
    ensures k == 0 || k == 1 || k == 2 || k == 3
  {
  }

  /** Any tables: the words on the three paths, as they were found, go to zero, and
      no other changes. */
  lemma WordsCleared(t: Tables, root: Pfn, g: Segments, f: Pfn, i: int)
    requires 0 <= i < ENTRIES
    ensures TableOf(ClearPaths(t, root, g, SEGMENTS), f)[i] ==
      if OnPath(t, root, CodePath(g), f, i) || OnPath(t, root, StackPath(g), f, i) || OnPath(t, root, DataPath(g), f, i)
      then 0 else TableOf(t, f)[i]
  {
    hide OnPath, ClearPath, CodePath, StackPath, DataPath, TableOf;
    assert ClearPaths(t, root, g, 0) == t;
    var t1 := ClearPath(t, t, root, CodePath(g));
    var t2 := ClearPath(t1, t, root, StackPath(g));
    assert ClearPaths(t, root, g, 1) == t1 && ClearPaths(t, root, g, 2) == t2;
    PathCleared(t, t, root, CodePath(g), f, i);
    PathCleared(t1, t, root, StackPath(g), f, i);
    PathCleared(t2, t, root, DataPath(g), f, i);
  }

  /** Word i of frame f is the one that leads to q. */
  ghost predicate LeadsTo(at: map<Path, Pfn>, q: Path, f: Pfn, i: int) {
    q in at && q != [] && Up(q) in at && at[Up(q)] == f && Last(q) == i
  }

  ghost predicate LeadsOn(at: map<Path, Pfn>, f: Pfn, i: int) {
    exists q :: LeadsTo(at, q, f, i)
  }

  /** The words read on the way to a page of the tree are those that lead to it and to
      the tables above it. */
  lemma OnPathIff(t: Tables, root: Pfn, at: map<Path, Pfn>, p: Path, f: Pfn, i: int)
    requires Tree(t, root, at) && p in at && |p| == LEVELS && ValidPath(p)
    ensures OnPath(t, root, p, f, i) <==> exists q :: q <= p && LeadsTo(at, q, f, i)
  {
    hide Tree, FrameAt, WordOf, LeadsTo;
    if OnPath(t, root, p, f, i) {
      var k: nat :| WordOf(t, root, p, k, f, i);
      WordLeads(t, root, at, p, k, f, i);
      assert LeadsTo(at, p[..k + 1], f, i);
    }
    if q :| q <= p && LeadsTo(at, q, f, i) {
      LedByWord(t, root, at, p, q, f, i);
    }
  }

  lemma WordLeads(t: Tables, root: Pfn, at: map<Path, Pfn>, p: Path, k: nat, f: Pfn, i: int)
    requires Tree(t, root, at) && p in at && |p| == LEVELS && ValidPath(p) && WordOf(t, root, p, k, f, i)
    ensures k < LEVELS && p[..k + 1] <= p && LeadsTo(at, p[..k + 1], f, i)
  {
    hide Tree, FrameAt;
    FrameAtIs(t, root, at, p, k);
    FrameAtIs(t, root, at, p, k + 1);
    assert p[..k + 1][..k] == p[..k];
  }

  lemma LedByWord(t: Tables, root: Pfn, at: map<Path, Pfn>, p: Path, q: Path, f: Pfn, i: int)
    requires Tree(t, root, at) && p in at && |p| == LEVELS && ValidPath(p) && q <= p && LeadsTo(at, q, f, i)
    ensures OnPath(t, root, p, f, i)
  {
    hide Tree, FrameAt;
    var k := |q| - 1;
    FrameAtIs(t, root, at, p, k);
    assert q == p[..k + 1] && Up(q) == p[..k];
    assert WordOf(t, root, p, k, f, i);
  }

  /** An image: exactly the words that lead to its tables and pages go to zero. */
  lemma ImageCleared(t: Tables, root: Pfn, at: map<Path, Pfn>, g: Segments, f: Pfn, i: int)
    requires Tree(t, root, at) && Tight(at, g) && 0 <= i < ENTRIES
    ensures TableOf(ClearPaths(t, root, g, SEGMENTS), f)[i] ==
      if LeadsOn(at, f, i) then 0 else TableOf(t, f)[i]
  {
    hide Tree, CodePath, StackPath, DataPath, OnPath, ClearPaths, TableOf, Up, Last;
    WordsCleared(t, root, g, f, i);
    TreeRooted(t, root, at);
    OnPathIff(t, root, at, CodePath(g), f, i);
    OnPathIff(t, root, at, StackPath(g), f, i);
    OnPathIff(t, root, at, DataPath(g), f, i);
  }

  /** Whatever was there, no address of the three pages leads anywhere afterwards. */
  lemma NothingLeads(t: Tables, root: Pfn, g: Segments, va: nat)
    requires OnImage(g, va)
    ensures Descend(ClearPaths(t, root, g, SEGMENTS), root, PathOf(va)) == None
  {
    hide PathOf, PageNo, PageNos, CodePath, StackPath, DataPath, ClearPaths, Descend, OnPath;
    PathsAre(g, va);
    var p := PathOf(va);
    assert p == CodePath(g) || p == StackPath(g) || p == DataPath(g);
    RootWordOn(t, root, p);
    WordsCleared(t, root, g, root, p[0]);
    ZeroNotPresent();
    RootTable(t, root, g);
    NoDescent(ClearPaths(t, root, g, SEGMENTS), root, p);
  }

  lemma RootWordOn(t: Tables, root: Pfn, p: Path)
    requires |p| == LEVELS && ValidPath(p)
    ensures OnPath(t, root, p, root, p[0])
  {
    RootItself(t, root, p);
    assert WordOf(t, root, p, 0, root, p[0]);
  }

  lemma RootItself(t: Tables, root: Pfn, p: Path)
    requires |p| == LEVELS
    ensures p[..0] == [] && FrameAt(t, root, p[..0]) == root
  {
  }

  lemma NoDescent(t: Tables, root: Pfn, p: Path)
    requires |p| == LEVELS && ValidPath(p) && !Present(TableOf(t, root)[p[0]])
    requires root in t && |t[root]| == ENTRIES
    ensures Descend(t, root, p) == None
  {
    hide Present;
  }

  /** The top table is written last in every turn. */
  lemma RootTable(t: Tables, root: Pfn, g: Segments)
    ensures root in ClearPaths(t, root, g, SEGMENTS) && |ClearPaths(t, root, g, SEGMENTS)[root]| == ENTRIES
  {
    hide ClearPaths, FrameAt, DownPath;
    RootItself(t, root, DownPath(g, 2));
    LastTurn(t, root, g);
  }

  lemma LastTurn(t: Tables, root: Pfn, g: Segments)
    ensures ClearPaths(t, root, g, SEGMENTS) == ClearPath(ClearPaths(t, root, g, 2), t, root, DownPath(g, 2))
  {
    hide ClearPath, DownPath;
  }

  /** An image taken down leads no address anywhere. */
  lemma NothingLeft(t: Tables, root: Pfn, at: map<Path, Pfn>, g: Segments, va: nat)
    requires Tree(t, root, at) && Tight(at, g)
    ensures Descend(ClearPaths(t, root, g, SEGMENTS), root, PathOf(va)) == None
  {
    hide Tree, Tight, PathOf, ClearPaths, Descend, TableOf, Present;
    var p := PathOf(va);
    ImageCleared(t, root, at, g, root, p[0]);
    RootEntry(t, root, at, p[0]);
    ZeroNotPresent();
    RootTable(t, root, g);
    NoDescent(ClearPaths(t, root, g, SEGMENTS), root, p);
  }

  lemma RootEntry(t: Tables, root: Pfn, at: map<Path, Pfn>, i: int)
    requires Tree(t, root, at) && 0 <= i < ENTRIES
    ensures Present(TableOf(t, root)[i]) ==> LeadsOn(at, root, i)
    ensures !Present(0)
  {
    TableIs(t, root, at, []);
    assert TableAt(t, at, []) && EntryAt(t, at, [], i);
    assert [] + [i] == [i] && Up([i]) == [] && Last([i]) == i;
    assert Present(t[root][i]) ==> LeadsTo(at, [i], root, i);
  }

  // ---------- the frames given back ----------

  /** One turn of a freeing loop, at place i: free the frame and blank its later
      copies, unless it has been blanked. */
  function FreeOne(back: seq<Pfn>, lev: seq<Pfn>, i: nat): (seq<Pfn>, seq<Pfn>)
    requires i < |lev|
  {
    if lev[i] == 0 then (back, lev) else (back + [lev[i]], lev[..i + 1] + Blank(lev[i + 1..], lev[i]))
  }

  /** A turn takes the first of the frames still to be given back. */
  lemma FreeOneFirsts(back: seq<Pfn>, lev: seq<Pfn>, i: nat)
    requires i < |lev|
    ensures var (back', lev') := FreeOne(back, lev, i);
      |lev'| == |lev| && back' + Firsts(lev'[i + 1..]) == back + Firsts(lev[i..])
  {
    assert lev[i..][0] == lev[i] && lev[i..][1..] == lev[i + 1..];
    var (back', lev') := FreeOne(back, lev, i);
    if lev[i] != 0 {
      assert lev'[i + 1..] == Blank(lev[i + 1..], lev[i]);
    }
  }

  /** The frames given back by the first n turns, and the list as they leave it. */
  function FreeTurns(lev: seq<Pfn>, n: nat): (r: (seq<Pfn>, seq<Pfn>))
    requires n <= |lev|
    ensures |r.1| == |lev|
  {
    if n == 0 then ([], lev)
    else
      var (back, now) := FreeTurns(lev, n - 1);
      FreeOne(back, now, n - 1)
  }

  /** They are the frames of the first n places; what is blanked is among them. */
  lemma {:induction false} FreeTurnsAre(lev: seq<Pfn>, n: nat)
    requires n <= |lev|
    ensures var (back, now) := FreeTurns(lev, n);
      && (forall f :: f in back <==> f != 0 && f in lev[..n])
      && (forall k :: n <= k < |lev| ==> now[k] == lev[k] || (now[k] == 0 && lev[k] in back))
    decreases n
  {
    if n > 0 {
      FreeTurnsAre(lev, n - 1);
      var (back, now) := FreeTurns(lev, n - 1);
      assert lev[..n] == lev[..n - 1] + [lev[n - 1]];
      var (back', now') := FreeOne(back, now, n - 1);
      forall k | n <= k < |lev| ensures now'[k] == lev[k] || (now'[k] == 0 && lev[k] in back') {
        if now[n - 1] != 0 {
          assert now'[k] == Blank(now[n..], now[n - 1])[k - n] && now[n..][k - n] == now[k];
        }
      }
    }
  }

  /** Some turn clears a word of a table that an earlier turn has freed. */
  ghost predicate ClearsFreed(t: Tables, root: Pfn, g: Segments) {
    exists i: nat, k: nat :: ClearsFreedAt(t, root, g, i, k)
  }

  ghost predicate ClearsFreedAt(t: Tables, root: Pfn, g: Segments, i: nat, k: nat) {
    && i < SEGMENTS && k < LEVELS
    && FrameAt(t, root, DownPath(g, i)[..k]) in FreeTurns(Three(t, root, g, 3), i).0
  }

  ghost predicate SharesLowest(g: Segments, i: nat, j: nat) {
    j < i < SEGMENTS && DownPath(g, i)[..3] == DownPath(g, j)[..3]
  }

  /** A word cleared in turn i is in a table freed before exactly when it is the lowest
      one, and an earlier path has the same three indices. */
  lemma ClearedEarlier(t: Tables, root: Pfn, at: map<Path, Pfn>, g: Segments, i: nat, k: nat)
    requires Tree(t, root, at) && Tight(at, g) && NonZero(at) && i < SEGMENTS && k < LEVELS
    ensures ClearsFreedAt(t, root, g, i, k) <==> k == 3 && exists j: nat :: SharesLowest(g, i, j)
  {
    hide Tree, Tight, FrameAt, Rooted, FreeTurns, Three, DownPath;
    var lev := Three(t, root, g, 3);
    FreeTurnsAre(lev, i);
    DownIn(at, g, i);
    FrameAtIs(t, root, at, DownPath(g, i), k);
    TreeRooted(t, root, at);
    var f := FrameAt(t, root, DownPath(g, i)[..k]);
    forall j: nat | j < i
      ensures DownPath(g, j)[..3] in at && lev[j] == at[DownPath(g, j)[..3]] && |DownPath(g, j)[..3]| == 3
    {
      DownIn(at, g, j);
      FrameAtIs(t, root, at, DownPath(g, j), 3);
      ThreeByTurn(t, root, g, j);
    }
    if f in lev[..i] {
      var j: nat :| j < i && lev[j] == f;
      assert DownPath(g, i)[..k] == DownPath(g, j)[..3];
      assert |DownPath(g, i)[..k]| == k;
      assert SharesLowest(g, i, j);
    }
    if k == 3 && exists j: nat :: SharesLowest(g, i, j) {
      var j: nat :| SharesLowest(g, i, j);
      assert lev[..i][j] == f;
    }
  }

  lemma DownIn(at: map<Path, Pfn>, g: Segments, i: nat)
    requires Tight(at, g)
    ensures DownPath(g, i) in at && |DownPath(g, i)| == LEVELS
  {
  }

  /** Two of three pages are in the same 2 MB. */
  predicate SameRegion(n: (int, int, int)) {
    n.0 / 512 == n.1 / 512 || n.0 / 512 == n.2 / 512 || n.1 / 512 == n.2 / 512
  }

  /** The teardown clears a word of a table it has freed exactly when two of the three
      pages are in the same 2 MB, so that they share the lowest table. */
  lemma ClearsFreedIff(t: Tables, root: Pfn, at: map<Path, Pfn>, g: Segments)
    requires Tree(t, root, at) && Tight(at, g) && NonZero(at)
    ensures ClearsFreed(t, root, g) <==> SameRegion(PageNos(g))
  {
    RegionsAre(g);
    hide PageNos;
    forall i: nat, k: nat | i < SEGMENTS && k < LEVELS
      ensures ClearsFreedAt(t, root, g, i, k) <==> k == 3 && exists j: nat :: SharesLowest(g, i, j)
    {
      ClearedEarlier(t, root, at, g, i, k);
    }
    PairsShare(g);
    hide Tree, Tight, NonZero, ClearsFreedAt, SharesLowest, CodePath, StackPath, DataPath;
    if i: nat, j: nat :| SharesLowest(g, i, j) {
      SharesBound(g, i, j);
      assert ClearsFreedAt(t, root, g, i, 3);
    }
    if i: nat, k: nat :| ClearsFreedAt(t, root, g, i, k) {
      ClearsBound(t, root, g, i, k);
    }
  }

  lemma SharesBound(g: Segments, i: nat, j: nat)
    requires SharesLowest(g, i, j)
    ensures i < SEGMENTS
  {
  }

  lemma ClearsBound(t: Tables, root: Pfn, g: Segments, i: nat, k: nat)
    requires ClearsFreedAt(t, root, g, i, k)
    ensures i < SEGMENTS && k < LEVELS
  {
  }

  lemma PairsShare(g: Segments)
    ensures var (pc, ps, pd) := (CodePath(g)[..3], StackPath(g)[..3], DataPath(g)[..3]);
      (exists i: nat, j: nat :: SharesLowest(g, i, j)) <==> pc == ps || pc == pd || ps == pd
  {
    hide CodePath, StackPath, DataPath;
    assert SharesLowest(g, 1, 0) <==> CodePath(g)[..3] == StackPath(g)[..3];
    assert SharesLowest(g, 2, 0) <==> CodePath(g)[..3] == DataPath(g)[..3];
    assert SharesLowest(g, 2, 1) <==> StackPath(g)[..3] == DataPath(g)[..3];
  }

  lemma BlankedAfter(was: seq<Pfn>, now: seq<Pfn>, i: nat)
    requires i < |was| == |now|
    requires forall k :: 0 <= k <= i ==> now[k] == was[k]
    requires forall k :: i < k < |was| ==> now[k] == if was[k] == was[i] then 0 else was[k]
    ensures now == was[..i + 1] + Blank(was[i + 1..], was[i])
  {
    var r := was[..i + 1] + Blank(was[i + 1..], was[i]);
    forall k | 0 <= k < |now| ensures now[k] == r[k] {
      if k > i {
        assert was[i + 1..][k - i - 1] == was[k];
      }
    }
  }

  class Image {
    var tables: Tables
    var tableFree: seq<Pfn>
    var pageFree: seq<Pfn>
    var pgd: Pfn
    var tableBack: seq<Pfn>
    var pageBack: seq<Pfn>

    ghost function Value(): Memory
      reads this
    {
      Memory(tables, tableFree, pageFree)
    }

    constructor (m: Memory)
      ensures Value() == m && tableBack == [] && pageBack == []
    {
      tables, tableFree, pageFree := m.tables, m.tableFree, m.pageFree;
      pgd, tableBack, pageBack := 0, [], [];
    }

    function Word(f: Pfn, i: int): int
      requires 0 <= i < ENTRIES
      reads this`tables
    {
      TableOf(tables, f)[i]
    }

    method SetWord(f: Pfn, i: int, word: int)
      requires 0 <= i < ENTRIES
      modifies this`tables
      ensures tables == old(tables)[f := TableOf(old(tables), f)[i := word]]
    {
      tables := tables[f := TableOf(tables, f)[i := word]];
    }

    /** Zero a frame word by word. */
    method Clean(frame: Pfn)
      modifies this`tables
      ensures tables == old(tables)[frame := ZeroTable()]
    {
      var i := 0;
      while i < ENTRIES
        invariant 0 <= i <= ENTRIES
        invariant i > 0 ==> tables == old(tables)[frame := TableOf(tables, frame)]
        invariant i == 0 ==> tables == old(tables)
        invariant forall k :: 0 <= k < i ==> TableOf(tables, frame)[k] == 0
      {
        SetWord(frame, i, 0);
        i := i + 1;
      }
      assert TableOf(tables, frame) == ZeroTable();
    }

    method AllocClean() returns (n: Pfn)
      modifies this`tables, this`tableFree
      ensures n == FirstFree(old(tableFree)) && tableFree == RestFree(old(tableFree))
      ensures tables == old(tables)[n := ZeroTable()]
    {
      n := FirstFree(tableFree);
      tableFree := RestFree(tableFree);
      Clean(n);
    }

    method Stage(f: Pfn, i: int, write: bool) returns (next: Pfn)
      requires 0 <= i < ENTRIES
      modifies this`tables, this`tableFree
      ensures (tables, tableFree, next) == Level(old(tables), old(tableFree), f, i, write)
    {
      var word := Word(f, i);
      if Present(word) {
        next := Frame(word);
        if write {
          SetWord(f, i, WithFlags(word, true));
        }
      } else {
        next := AllocClean();
        SetWord(f, i, NewEntry(next, write));
      }
    }

    /** One turn of the building loop. */
    method PrepareTurn(g: Segments, i: nat)
      modifies this`tables, this`tableFree, this`pageFree
      ensures Value() == Turn(old(Value()), pgd, g, i)
    {
      hide Level, WithFlags, NewEntry, Frame, Present, TurnPath, TurnWrite, TableOf;
      var p := TurnPath(g, i);
      var write := TurnWrite(g, i);
      var frame := Stage(pgd, p[0], write);
      frame := Stage(frame, p[1], write);
      frame := Stage(frame, p[2], write);
      if Present(Word(frame, p[3])) { return; }
      if i != 2 {
        var page := FirstFree(pageFree);
        pageFree := RestFree(pageFree);
        SetWord(frame, p[3], NewEntry(page, write));
      } else {
        SetWord(frame, p[3], NewEntry(g.argFrame, write));
      }
    }

    method PrepareContext(g: Segments)
      modifies this`tables, this`tableFree, this`pageFree, this`pgd
      ensures pgd == Root(old(Value())) && Value() == Prepare(old(Value()), g)
    {
      pgd := AllocClean();
      ghost var begun := Begun(old(Value()));
      var i := 0;
      while i < SEGMENTS
        invariant 0 <= i <= SEGMENTS && pgd == Root(old(Value()))
        invariant Value() == Turns(begun, pgd, g, i)
      {
        PrepareTurn(g, i);
        i := i + 1;
      }
      ThreeTurns(old(Value()), g);
    }

    /** Blank later copies of the frame at i and give it back. */
    method FreeTurn(lev: array<Pfn>, i: nat)
      requires i < lev.Length
      modifies lev, this`tableBack
      ensures (tableBack, lev[..]) == FreeOne(old(tableBack), old(lev[..]), i)
    {
      hide Blank;
      if lev[i] == 0 { return; }
      var f := lev[i];
      tableBack := tableBack + [f];
      var j := i + 1;
      while j < lev.Length
        invariant i + 1 <= j <= lev.Length && tableBack == old(tableBack) + [f]
        invariant forall k :: 0 <= k <= i ==> lev[k] == old(lev[k])
        invariant forall k :: i < k < j ==> lev[k] == if old(lev[k]) == f then 0 else old(lev[k])
        invariant forall k :: j <= k < lev.Length ==> lev[k] == old(lev[k])
      {
        if lev[j] == lev[i] { lev[j] := 0; }
        j := j + 1;
      }
      BlankedAfter(old(lev[..]), lev[..], i);
    }

    method FreeLevel(lev: array<Pfn>)
      modifies lev, this`tableBack
      ensures tableBack == old(tableBack) + Firsts(old(lev[..]))
    {
      var i := 0;
      assert lev[..][0..] == lev[..];
      while i < lev.Length
        invariant 0 <= i <= lev.Length
        invariant tableBack + Firsts(lev[..][i..]) == old(tableBack) + Firsts(old(lev[..]))
      {
        FreeOneFirsts(tableBack, lev[..], i);
        FreeTurn(lev, i);
        i := i + 1;
      }
    }
  
    /** Walk to one segment's page, whatever the words say. */
    method Follow(p: Path) returns (f3: Pfn, f2: Pfn, f1: Pfn, f0: Pfn)
      requires |p| == LEVELS && ValidPath(p)
      ensures f3 == FrameAt(tables, pgd, p[..1]) && f2 == FrameAt(tables, pgd, p[..2])
      ensures f1 == FrameAt(tables, pgd, p[..3]) && f0 == FrameAt(tables, pgd, p[..4])
    {
      f3 := Frame(Word(pgd, p[0]));
      f2 := Frame(Word(f3, p[1]));
      f1 := Frame(Word(f2, p[2]));
      f0 := Frame(Word(f1, p[3]));
      FrameAtNext(tables, pgd, p, 0);
      FrameAtNext(tables, pgd, p, 1);
      FrameAtNext(tables, pgd, p, 2);
      FrameAtNext(tables, pgd, p, 3);
      hide FrameAt, Frame, TableOf;
      assert p[..0] == [];
    }

    /** One turn of the first loop: the page frame goes back, the tables' are noted. */
    method NoteTurn(g: Segments, i: nat, lev1: array<Pfn>, lev2: array<Pfn>, lev3: array<Pfn>)
      requires i < SEGMENTS && lev1.Length == SEGMENTS && lev2.Length == SEGMENTS && lev3.Length == SEGMENTS
      requires lev1 != lev2 && lev1 != lev3 && lev2 != lev3
      modifies this`pageBack, lev1, lev2, lev3
      ensures lev1[..] == old(lev1[..])[i := Three(tables, pgd, g, 3)[i]]
      ensures lev2[..] == old(lev2[..])[i := Three(tables, pgd, g, 2)[i]]
      ensures lev3[..] == old(lev3[..])[i := Three(tables, pgd, g, 1)[i]]
      ensures pageBack == old(pageBack) + [Three(tables, pgd, g, 4)[i]]
    {
      hide FrameAt, Three, DownPath;
      var f3, f2, f1, f0 := Follow(DownPath(g, i));
      ThreeByTurn(tables, pgd, g, i);
      pageBack := pageBack + [f0];
      lev1[i], lev2[i], lev3[i] := f1, f2, f3;
    }

    method Collect(g: Segments) returns (lev1: array<Pfn>, lev2: array<Pfn>, lev3: array<Pfn>)
      modifies this`pageBack
      ensures fresh(lev1) && fresh(lev2) && fresh(lev3) && lev1 != lev2 && lev1 != lev3 && lev2 != lev3
      ensures lev1[..] == Three(tables, pgd, g, 3) && lev2[..] == Three(tables, pgd, g, 2)
      ensures lev3[..] == Three(tables, pgd, g, 1)
      ensures pageBack == old(pageBack) + Three(tables, pgd, g, 4)
    {
      hide Three;
      lev1, lev2, lev3 := new Pfn[SEGMENTS], new Pfn[SEGMENTS], new Pfn[SEGMENTS];
      ghost var s1, s2, s3, s4 := Three(tables, pgd, g, 3), Three(tables, pgd, g, 2), Three(tables, pgd, g, 1),
        Three(tables, pgd, g, 4);
      var i := 0;
      while i < SEGMENTS
        invariant 0 <= i <= SEGMENTS
        invariant Noted(lev1[..], s1, i) && Noted(lev2[..], s2, i) && Noted(lev3[..], s3, i)
        invariant pageBack == old(pageBack) + s4[..i]
      {
        NoteTurn(g, i, lev1, lev2, lev3);
        i := i + 1;
      }
      assert s4[..i] == s4;
    }

    /** Clear the words a walk to p went through, the lowest first. */
    method ClearWords(p: Path, f3: Pfn, f2: Pfn, f1: Pfn)
      requires |p| == LEVELS && ValidPath(p)
      modifies this`tables
      ensures tables == Cleared(Cleared(Cleared(Cleared(old(tables), f1, p[3]), f2, p[2]), f3, p[1]), pgd, p[0])
    {
      SetWord(f1, p[3], 0);
      SetWord(f2, p[2], 0);
      SetWord(f3, p[1], 0);
      SetWord(pgd, p[0], 0);
    }

    /** The second loop: each turn clears a path's words and frees its lowest table. */
    method ClearAndFree(g: Segments, lev1: array<Pfn>, store1: seq<Pfn>, store2: seq<Pfn>, store3: seq<Pfn>)
      requires lev1[..] == store1 == Three(tables, pgd, g, 3)
      requires store2 == Three(tables, pgd, g, 2) && store3 == Three(tables, pgd, g, 1)
      modifies this`tables, this`tableBack, lev1
      ensures tables == ClearPaths(old(tables), pgd, g, SEGMENTS)
      ensures tableBack == old(tableBack) + Firsts(store1)
    {
      hide FrameAt, Three, DownPath, Firsts, Cleared;
      ghost var was := tables;
      var i := 0;
      assert lev1[..][0..] == lev1[..];
      while i < SEGMENTS
        invariant 0 <= i <= SEGMENTS && lev1.Length == SEGMENTS
        invariant tables == ClearPaths(was, pgd, g, i)
        invariant tableBack + Firsts(lev1[..][i..]) == old(tableBack) + Firsts(store1)
      {
        ThreeByTurn(was, pgd, g, i);
        RootItself(was, pgd, DownPath(g, i));
        ClearWords(DownPath(g, i), store3[i], store2[i], store1[i]);
        FreeOneFirsts(tableBack, lev1[..], i);
        FreeTurn(lev1, i);
        i := i + 1;
      }
      NoneFirst();
      assert lev1[..][i..] == [];
    }

    /** Pages first; then, level by level from the lowest, each table once; the top
        table last. The words on the three paths are cleared on the way. */
    method CleanupContext(g: Segments)
      modifies this`tables, this`tableBack, this`pageBack
      ensures tableBack == old(tableBack) + Teardown(old(tables), pgd, g).tables
      ensures pageBack == old(pageBack) + Teardown(old(tables), pgd, g).users
      ensures tables == ClearPaths(old(tables), pgd, g, SEGMENTS)
      ensures forall va :: OnImage(g, va) ==> Descend(tables, pgd, PathOf(va)) == None
    {
      hide Three, DownPath, Firsts, ClearPaths, Descend, OnImage;
      ghost var was := tables;
      forall va | OnImage(g, va) ensures Descend(ClearPaths(was, pgd, g, SEGMENTS), pgd, PathOf(va)) == None {
        NothingLeads(was, pgd, g, va);
      }
      var lev1, lev2, lev3 := Collect(g);
      ClearAndFree(g, lev1, lev1[..], lev2[..], lev3[..]);
      FreeLevel(lev2);
      FreeLevel(lev3);
      tableBack := tableBack + [pgd];
      Joined(old(tableBack), Firsts(Three(was, pgd, g, 3)), Firsts(Three(was, pgd, g, 2)), Firsts(Three(was, pgd, g,
        1)), [pgd]);
    }

    // ---------- the case-split teardown of Ass1/context_mm.c ----------

    /** Append a level's frames from place n on, comparing each pair. */
    method AppendSplit(to: array<Pfn>, n: nat, code: Pfn, stack: Pfn, data: Pfn) returns (m: nat)
      requires n + |CaseSplit([code, stack, data])| <= to.Length
      modifies to
      ensures n <= m <= to.Length && to[..m] == old(to[..n]) + CaseSplit([code, stack, data])
    {
      m := n;
      if code != stack {
        to[m], to[m + 1] := code, stack;
        m := m + 2;
        if data != stack && data != code {
          to[m] := data;
          m := m + 1;
        }
      } else {
        to[m] := code;
        m := m + 1;
        if data != code {
          to[m] := data;
          m := m + 1;
        }
      }
    }

    method FreeTables(frames: array<Pfn>, n: nat)
      requires n <= frames.Length
      modifies this`tableBack
      ensures tableBack == old(tableBack) + frames[..n]
    {
      var i := 0;
      while i < n
        invariant i <= n && tableBack == old(tableBack) + frames[..i]
      {
        tableBack := tableBack + [frames[i]];
        i := i + 1;
      }
    }

    method FreePages(frames: array<Pfn>, n: nat)
      requires n <= frames.Length
      modifies this`pageBack
      ensures pageBack == old(pageBack) + frames[..n]
    {
      var i := 0;
      while i < n
        invariant i <= n && pageBack == old(pageBack) + frames[..i]
      {
        pageBack := pageBack + [frames[i]];
        i := i + 1;
      }
    }

    /** Collect each level's frames and the top table's into nine places, then free
        them in order. */
    method CollectTables(code: seq<Pfn>, stack: seq<Pfn>, data: seq<Pfn>, g: Segments)
      requires |code| == |stack| == |data| == 4 && |SplitFrames(tables, pgd, g)| <= MAX_N
      requires forall k :: 0 <= k < 4 ==> Three(tables, pgd, g, k + 1) == [code[k], stack[k], data[k]]
      modifies this`tableBack
      ensures tableBack == old(tableBack) + SplitFrames(tables, pgd, g)
    {
      hide Three, CaseSplit;
      SplitByLevel(tables, pgd, g);
      var pfnOs := new Pfn[MAX_N];
      var os, i := 0, 0;
      while i < 3
        invariant 0 <= i <= 3 && os <= MAX_N && tableBack == old(tableBack)
        invariant pfnOs[..os] == SplitLevels(tables, pgd, g, i)
      {
        SplitPrefix(tables, pgd, g, i + 1);
        os := AppendSplit(pfnOs, os, code[i], stack[i], data[i]);
        i := i + 1;
      }
      pfnOs[os] := pgd;
      os := os + 1;
      assert pfnOs[..os] == SplitFrames(tables, pgd, g);
      FreeTables(pfnOs, os);
    }

    /** The whole teardown, where nine places are enough. */
    method CleanupBySplit(g: Segments)
      requires |SplitFrames(tables, pgd, g)| <= MAX_N
      modifies this`tableBack, this`pageBack
      ensures tableBack == old(tableBack) + SplitFrames(tables, pgd, g)
      ensures pageBack == old(pageBack) + CaseSplit(Three(tables, pgd, g, 4))
    {
      hide FrameAt, CodePath, StackPath, DataPath, CaseSplit, SplitFrames;
      var c3, c2, c1, c0 := Follow(CodePath(g));
      var s3, s2, s1, s0 := Follow(StackPath(g));
      var d3, d2, d1, d0 := Follow(DataPath(g));
      var pfnUsr := new Pfn[3];
      SplitLength([c0, s0, d0]);
      var usr := AppendSplit(pfnUsr, 0, c0, s0, d0);
      assert pfnUsr[..usr] == CaseSplit([c0, s0, d0]);
      FreePages(pfnUsr, usr);
      assert Three(tables, pgd, g, 4) == [c0, s0, d0];
      CollectTables([c3, c2, c1, c0], [s3, s2, s1, s0], [d3, d2, d1, d0], g);
    }
  }

  function SplitLevels(t: Tables, root: Pfn, g: Segments, n: nat): seq<Pfn>
    requires n <= LEVELS
  {
    if n == 0 then [] else SplitLevels(t, root, g, n - 1) + CaseSplit(Three(t, root, g, n))
  }

  lemma SplitByLevel(t: Tables, root: Pfn, g: Segments)
    ensures SplitFrames(t, root, g) == SplitLevels(t, root, g, 3) + [root]
  {
    hide Three, CaseSplit;
    assert SplitLevels(t, root, g, 1) == CaseSplit(Three(t, root, g, 1));
    assert SplitLevels(t, root, g, 2) == SplitLevels(t, root, g, 1) + CaseSplit(Three(t, root, g, 2));
  }

  lemma {:induction false} SplitPrefix(t: Tables, root: Pfn, g: Segments, n: nat)
    requires n <= 3
    ensures |SplitLevels(t, root, g, n)| <= |SplitLevels(t, root, g, 3)|
    decreases 3 - n
  {
    hide Three, CaseSplit;
    if n < 3 {
      SplitPrefix(t, root, g, n + 1);
    }
  }

  lemma SplitLength(s: seq<Pfn>)
    requires |s| == 3
    ensures |CaseSplit(s)| <= 3
  {
  }

  lemma Joined(s: seq<Pfn>, a: seq<Pfn>, b: seq<Pfn>, c: seq<Pfn>, d: seq<Pfn>)
    ensures s + a + b + c + d == s + (a + b + c + d)
  {
  }

  ghost predicate Noted(lev: seq<Pfn>, s: seq<Pfn>, i: nat) {
    |lev| == |s| == SEGMENTS && forall k :: 0 <= k < i && k < SEGMENTS ==> lev[k] == s[k]
  }

  lemma NoneFirst()
    ensures Firsts([]) == []
  {
  }

  /** One index further. */
  lemma {:induction false} FrameAtNext(t: Tables, f: Pfn, p: Path, k: nat)
    requires ValidPath(p) && k < |p|
    ensures FrameAt(t, f, p[..k + 1]) == Frame(TableOf(t, FrameAt(t, f, p[..k]))[p[k]])
    decreases k
  {
    if k == 0 {
      assert p[..1][1..] == [];
    } else {
      var next := Frame(TableOf(t, f)[p[0]]);
      assert p[..k + 1][1..] == p[1..][..k] && p[..k][1..] == p[1..][..k - 1];
      FrameAtNext(t, next, p[1..], k - 1);
    }
  }

  lemma ThreeByTurn(t: Tables, root: Pfn, g: Segments, i: nat)
    requires i < SEGMENTS
    ensures var p := DownPath(g, i);
      && Three(t, root, g, 4)[i] == FrameAt(t, root, p[..4]) && Three(t, root, g, 3)[i] == FrameAt(t, root, p[..3])
      && Three(t, root, g, 2)[i] == FrameAt(t, root, p[..2]) && Three(t, root, g, 1)[i] == FrameAt(t, root, p[..1])
  {
    hide FrameAt, CodePath, StackPath, DataPath;
  }
}
