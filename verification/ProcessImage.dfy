/** Building and tearing down a process's first three pages (Ass1/actual.c, and the
    teardown of Ass1/context_mm.c): the tables on the way to each are shared where
    the paths share them. */
module ProcessImage {
  import opened Options
  import opened PageTables

  // ---------- preparing one segment ----------

  /** One stage as this file writes it: a present entry is widened only for writes. */
  function Level(t: Tables, free: seq<Pfn>, f: Pfn, i: int, write: bool): (Tables, seq<Pfn>, Pfn)
    requires 0 <= i < ENTRIES
  {
    var e := TableOf(t, f)[i];
    if Present(e) then (if write then t[f := TableOf(t, f)[i := WithFlags(e, true)]] else t, free, Frame(e))
    else StepDown(t, free, f, i, write)
  }

  function Levels(t: Tables, root: Pfn, free: seq<Pfn>, p: Path, write: bool): (Tables, seq<Pfn>, Pfn)
    requires |p| == LEVELS && ValidPath(p)
  {
    var (t1, free1, f1) := Level(t, free, root, p[0], write);
    var (t2, free2, f2) := Level(t1, free1, f1, p[1], write);
    Level(t2, free2, f2, p[2], write)
  }

  /** The tables, then the page, unless one is already there; whether the page was used. */
  function PutSegment(t: Tables, root: Pfn, free: seq<Pfn>, p: Path, write: bool, page: Pfn): (Tables, seq<Pfn>, bool)
    requires |p| == LEVELS && ValidPath(p)
  {
    var (t3, free3, f3) := Levels(t, root, free, p, write);
    if Present(TableOf(t3, f3)[p[3]]) then (t3, free3, false)
    else (t3[f3 := TableOf(t3, f3)[p[3] := NewEntry(page, write)]], free3, true)
  }

  /** A user page already grants what |5 would add. */
  lemma NothingToWiden(e: int)
    requires Present(e) && User(e)
    ensures WithFlags(e, false) == e
  {
    LowBits(e / 8, e % 8);
    assert e == e / 8 * 8 + e % 8;
  }

  /** On a tree the stage is the walk-and-extend stage of the demand pager. */
  lemma LevelIsStep(t: Tables, root: Pfn, at: map<Path, Pfn>, free: seq<Pfn>, p: Path, i: int, write: bool)
    requires Tree(t, root, at) && p in at && |p| < LEVELS && 0 <= i < ENTRIES
    ensures Level(t, free, at[p], i, write) == StepDown(t, free, at[p], i, write)
  {
    assert TableAt(t, at, p) && EntryAt(t, at, p, i);
    var e := t[at[p]][i];
    if Present(e) && !write {
      NothingToWiden(e);
      hide Present, WithFlags, Frame, User, Writable, Tree;
      assert t[at[p]][i := e] == t[at[p]];
      assert t[at[p] := t[at[p]]] == t;
    }
  }

  lemma LevelsAreSteps(t: Tables, root: Pfn, at: map<Path, Pfn>, free: seq<Pfn>, p: Path, write: bool)
    requires Tree(t, root, at) && Pool(at, free) && |free| >= 3 && |p| == LEVELS && ValidPath(p)
    ensures Levels(t, root, free, p, write) == StepDowns(t, root, free, p, write)
  {
    hide Tree, Pool, StepDown, Level, Entry, Writable;
    TreeRoot(t, root, at);
    LevelIsStep(t, root, at, free, [], p[0], write);
    StepKeeps(t, root, at, free, [], p[0], write);
    var (t1, free1, f1) := StepDown(t, free, root, p[0], write);
    var at1 := Added(at, [] + [p[0]], FirstFree(free));
    LevelIsStep(t1, root, at1, free1, [] + [p[0]], p[1], write);
    StepKeeps(t1, root, at1, free1, [] + [p[0]], p[1], write);
    var (t2, free2, f2) := StepDown(t1, free1, f1, p[1], write);
    var at2 := Added(at1, [] + [p[0]] + [p[1]], FirstFree(free1));
    LevelIsStep(t2, root, at2, free2, [] + [p[0]] + [p[1]], p[2], write);
  }

  ghost function PutAt(at: map<Path, Pfn>, free: seq<Pfn>, p: Path, page: Pfn): map<Path, Pfn>
    requires |p| == LEVELS
  {
    if p in at then at else WithTables(at, free, p)[p := page]
  }

  ghost function FreeAt(at: map<Path, Pfn>, free: seq<Pfn>, p: Path): seq<Pfn>
    requires |p| == LEVELS
  {
    if p in at then free else FreeWith(at, free, p)
  }

  /** What putting a segment at p leaves. */
  ghost predicate Put(t: Tables, t': Tables, root: Pfn, at: map<Path, Pfn>, at': map<Path, Pfn>,
                      p: Path, write: bool, page: Pfn)
    requires |p| == LEVELS
  {
    && Tree(t', root, at')
    && p in at'
    && (p !in at ==> at'[p] == page && (Writable(Entry(t', at', p)) <==> write))
    && (forall q :: q in at ==> q in at' && at'[q] == at[q])
    && (forall q :: q in at && |q| == LEVELS ==> Entry(t', at', q) == Entry(t, at, q))
    && (forall q :: q in at' && q !in at ==> q <= p && at'[q] != 0)
  }

  lemma PathThere(at: map<Path, Pfn>, free: seq<Pfn>, p: Path)
    requires Rooted(at) && p in at && |p| == LEVELS
    ensures WithTables(at, free, p) == at && FreeWith(at, free, p) == free
  {
    PrefixIn(at, p, 1);
    PrefixIn(at, p, 2);
    PrefixIn(at, p, 3);
    assert p[..1] == [] + [p[0]] && p[..2] == [] + [p[0]] + [p[1]] && p[..3] == [] + [p[0]] + [p[1]] + [p[2]];
  }

  lemma PutThere(t: Tables, root: Pfn, at: map<Path, Pfn>, free: seq<Pfn>, p: Path, write: bool, page: Pfn)
    requires Tree(t, root, at) && Pool(at, free) && |free| >= 3 && |p| == LEVELS && ValidPath(p) && p in at
    ensures var (t', free', used) := PutSegment(t, root, free, p, write, page);
      Put(t, t', root, at, at, p, write, page) && free' == free && !used
  {
    LevelsAreSteps(t, root, at, free, p, write);
    TablesKept(t, root, at, free, p, write);
    LeafSeen(t, root, at, free, p, write);
    hide Levels, Tree, Pool, StepDowns, Entry, Writable, WithTables, FreeWith, NewEntry, Present;
    TreeRooted(t, root, at);
    PathThere(at, free, p);
  }

  lemma FreeNonZero(at: map<Path, Pfn>, free: seq<Pfn>)
    requires Pool(at, free)
    ensures 0 !in free
  {
  }

  lemma UnclaimedNonZero(at: map<Path, Pfn>, free: seq<Pfn>, page: Pfn)
    requires Unclaimed(at, free, page)
    ensures page != 0
  {
  }

  lemma ExtendedIsPut(t: Tables, t': Tables, root: Pfn, at: map<Path, Pfn>, at': map<Path, Pfn>,
                      p: Path, write: bool, page: Pfn)
    requires |p| == LEVELS && p !in at && Extended(t, t', root, at, at', p, write, page)
    requires forall q :: q in at' && q !in at ==> q <= p && at'[q] != 0
    ensures Put(t, t', root, at, at', p, write, page)
  {
    hide Tree, Entry, Writable;
  }

  lemma PutNew(t: Tables, root: Pfn, at: map<Path, Pfn>, free: seq<Pfn>, p: Path, write: bool, page: Pfn)
    requires Tree(t, root, at) && Pool(at, free) && |free| >= 3 && |p| == LEVELS && ValidPath(p) && p !in at
    requires Unclaimed(at, free, page)
    ensures var (t', free', used) := PutSegment(t, root, free, p, write, page);
      var at' := WithTables(at, free, p)[p := page];
      && Put(t, t', root, at, at', p, write, page)
      && free' == FreeWith(at, free, p) && Pool(at', free') && used
  {
    hide Levels, Tree, Pool, Unclaimed, StepDowns, Entry, Writable, FreeWith, NewEntry, Present, WithTables,
      ValidPath, Put;
    LevelsAreSteps(t, root, at, free, p, write);
    LeafSeen(t, root, at, free, p, write);
    ExtendKeeps(t, root, at, free, p, write, page);
    WithTablesKeeps(at, free, p);
    ShortPrefixes(p);
    FreeNonZero(at, free);
    assert page != 0 by {
      UnclaimedNonZero(at, free, page);
    }
    var t' := PutSegment(t, root, free, p, write, page).0;
    var at' := WithTables(at, free, p)[p := page];
    assert Extended(t, t', root, at, at', p, write, page);
    hide PutSegment, Extend;
    ExtendedIsPut(t, t', root, at, at', p, write, page);
  }

  lemma PutKeeps(t: Tables, root: Pfn, at: map<Path, Pfn>, free: seq<Pfn>, p: Path, write: bool, page: Pfn)
    requires Tree(t, root, at) && Pool(at, free) && |free| >= 3 && |p| == LEVELS && ValidPath(p)
    requires Unclaimed(at, free, page)
    ensures var (t', free', used) := PutSegment(t, root, free, p, write, page);
      && Put(t, t', root, at, PutAt(at, free, p, page), p, write, page)
      && free' == FreeAt(at, free, p) && Pool(PutAt(at, free, p, page), free')
      && (used <==> p !in at)
  {
    hide PutSegment, Put, Tree, Pool, Unclaimed, WithTables, FreeWith;
    if p in at {
      PutThere(t, root, at, free, p, write, page);
    } else {
      PutNew(t, root, at, free, p, write, page);
    }
  }

  lemma ShortPrefixes(p: Path)
    requires |p| == LEVELS
    ensures [p[0]] <= p && [p[0], p[1]] <= p && [p[0], p[1], p[2]] <= p
  {
  }

  /** At the last level the entry is present exactly when the page was mapped. */
  lemma LeafSeen(t: Tables, root: Pfn, at: map<Path, Pfn>, free: seq<Pfn>, p: Path, write: bool)
    requires Tree(t, root, at) && Pool(at, free) && |free| >= 3 && |p| == LEVELS && ValidPath(p)
    ensures var (t3, free3, f3) := StepDowns(t, root, free, p, write);
      Present(TableOf(t3, f3)[p[3]]) <==> p in at
  {
    hide StepDowns, WithTables, FreeWith, Entry, Writable, Pool, Tree, Present;
    TablesKept(t, root, at, free, p, write);
    TablesOnly(at, free, p);
    var (t3, free3, f3) := StepDowns(t, root, free, p, write);
    var at3 := WithTables(at, free, p);
    LeafIs(t3, root, at3, [p[0], p[1], p[2]], p[3], p);
  }

  /** The walk's own places are tables. */
  lemma TablesOnly(at: map<Path, Pfn>, free: seq<Pfn>, p: Path)
    requires |free| >= 3 && |p| == LEVELS
    ensures p in WithTables(at, free, p) <==> p in at
  {
    hide WithTables;
    WithTablesKeeps(at, free, p);
    assert |[p[0]]| == 1 && |[p[0], p[1]]| == 2 && |[p[0], p[1], p[2]]| == 3;
  }

  lemma LeafIs(t: Tables, root: Pfn, at: map<Path, Pfn>, q: Path, i: int, p: Path)
    requires Tree(t, root, at) && q in at && |q| < LEVELS && 0 <= i < ENTRIES && p == q + [i]
    ensures Present(TableOf(t, at[q])[i]) <==> p in at
  {
    assert TableAt(t, at, q) && EntryAt(t, at, q, i);
  }

  // ---------- preparing the whole image ----------

  /** What the context gives: where each segment's first page is, whether it may be
      written, and the frame the caller has already filled for the data page. */
  datatype Segments = Segments(
    stackEnd: Address, codeStart: Address, dataStart: Address,
    stackWrite: bool, codeWrite: bool, dataWrite: bool,
    argFrame: Pfn)

  datatype Memory = Memory(tables: Tables, tableFree: seq<Pfn>, pageFree: seq<Pfn>)

  function StackPath(g: Segments): (p: Path)
    ensures |p| == LEVELS && ValidPath(p)
  {
    PathOf((g.stackEnd - PAGE_SIZE) % U64)
  }

  function CodePath(g: Segments): (p: Path)
    ensures |p| == LEVELS && ValidPath(p)
  {
    PathOf(g.codeStart)
  }

  function DataPath(g: Segments): (p: Path)
    ensures |p| == LEVELS && ValidPath(p)
  {
    PathOf(g.dataStart)
  }

  function Rest(free: seq<Pfn>, used: bool): seq<Pfn> {
    if used then RestFree(free) else free
  }

  function Root(m: Memory): Pfn {
    FirstFree(m.tableFree)
  }

  /** Stack, code, then data: the loop's three turns after the top table is cleared. */
  function Prepare(m: Memory, g: Segments): Memory {
    var root := Root(m);
    var (t1, free1, used1) := PutSegment(m.tables[root := ZeroTable()], root, RestFree(m.tableFree),
                                         StackPath(g), g.stackWrite, FirstFree(m.pageFree));
    var pages1 := Rest(m.pageFree, used1);
    var (t2, free2, used2) := PutSegment(t1, root, free1, CodePath(g), g.codeWrite, FirstFree(pages1));
    var (t3, free3, used3) := PutSegment(t2, root, free2, DataPath(g), g.dataWrite, g.argFrame);
    Memory(t3, free3, Rest(pages1, used2))
  }

  /** Frames enough for the worst case, each of its own, the caller's among neither list. */
  ghost predicate Ample(m: Memory, g: Segments) {
    && |m.tableFree| >= 10 && Pool(map[], m.tableFree)
    && |m.pageFree| >= 2 && Pool(map[], m.pageFree)
    && (forall f :: f in m.tableFree ==> f !in m.pageFree)
    && 0 < g.argFrame < PFN_LIMIT && g.argFrame !in m.tableFree && g.argFrame !in m.pageFree
  }

  ghost function At0(m: Memory): map<Path, Pfn> {
    map[[] := Root(m)]
  }

  ghost function At1(m: Memory, g: Segments): map<Path, Pfn> {
    PutAt(At0(m), RestFree(m.tableFree), StackPath(g), FirstFree(m.pageFree))
  }

  ghost function Free1(m: Memory, g: Segments): seq<Pfn> {
    FreeAt(At0(m), RestFree(m.tableFree), StackPath(g))
  }

  ghost function At2(m: Memory, g: Segments): map<Path, Pfn> {
    PutAt(At1(m, g), Free1(m, g), CodePath(g), FirstFree(RestFree(m.pageFree)))
  }

  ghost function Free2(m: Memory, g: Segments): seq<Pfn> {
    FreeAt(At1(m, g), Free1(m, g), CodePath(g))
  }

  /** Which frame each path reaches once the image is prepared. */
  ghost function AtPrepared(m: Memory, g: Segments): map<Path, Pfn> {
    PutAt(At2(m, g), Free2(m, g), DataPath(g), g.argFrame)
  }

  ghost function Free3(m: Memory, g: Segments): seq<Pfn> {
    FreeAt(At2(m, g), Free2(m, g), DataPath(g))
  }

  /** A frame kept apart stays apart when another is put in. */
  lemma UnclaimedStays(at: map<Path, Pfn>, free: seq<Pfn>, p: Path, page: Pfn, other: Pfn)
    requires |free| >= 3 && |p| == LEVELS && Unclaimed(at, free, other) && other != page
    ensures Unclaimed(PutAt(at, free, p, page), FreeAt(at, free, p), other)
  {
    WithTablesKeeps(at, free, p);
    FreeWithKeeps(at, free, p);
    hide WithTables, FreeWith;
  }

  lemma FreeWithKeeps(at: map<Path, Pfn>, free: seq<Pfn>, p: Path)
    requires |p| == LEVELS && |free| >= 3
    ensures |FreeWith(at, free, p)| >= |free| - 3 && forall f :: f in FreeWith(at, free, p) ==> f in free
  {
  }

  lemma FreeAtKeeps(at: map<Path, Pfn>, free: seq<Pfn>, p: Path)
    requires |p| == LEVELS && |free| >= 3
    ensures |FreeAt(at, free, p)| >= |free| - 3
  {
    FreeWithKeeps(at, free, p);
    hide FreeWith;
  }

  /** Before the first segment: a lone root, and every frame to come kept apart. */
  lemma AtStart(m: Memory, g: Segments)
    requires Ample(m, g)
    ensures Tree(m.tables[Root(m) := ZeroTable()], Root(m), At0(m))
    ensures Pool(At0(m), RestFree(m.tableFree)) && |RestFree(m.tableFree)| >= 9
    ensures StackPath(g) !in At0(m)
    ensures |m.pageFree| >= 2
    ensures var (a, b, c) := (m.pageFree[0], m.pageFree[1], g.argFrame);
      && a != b && a != c && b != c
      && Unclaimed(At0(m), RestFree(m.tableFree), a)
      && Unclaimed(At0(m), RestFree(m.tableFree), b)
      && Unclaimed(At0(m), RestFree(m.tableFree), c)
  {
    LoneRoot(m.tables[Root(m) := ZeroTable()], Root(m));
    assert m.pageFree[0] in m.pageFree && m.pageFree[1] in m.pageFree && m.tableFree[0] in m.tableFree;
  }

  /** The three turns, each a Put. */
  lemma PrepareSteps(m: Memory, g: Segments) returns (t0: Tables, t1: Tables, t2: Tables)
    requires Ample(m, g)
    ensures |m.pageFree| >= 2
    ensures var (m', root) := (Prepare(m, g), Root(m));
      && Put(t0, t1, root, At0(m), At1(m, g), StackPath(g), g.stackWrite, m.pageFree[0])
      && Put(t1, t2, root, At1(m, g), At2(m, g), CodePath(g), g.codeWrite, m.pageFree[1])
      && Put(t2, m'.tables, root, At2(m, g), AtPrepared(m, g), DataPath(g), g.dataWrite, g.argFrame)
      && m'.tableFree == Free3(m, g) && Pool(AtPrepared(m, g), m'.tableFree)
      && m'.pageFree == (if CodePath(g) in At1(m, g) then m.pageFree[1..] else m.pageFree[2..])
      && |Free1(m, g)| >= 6 && |Free2(m, g)| >= 3
  {
    hide Tree, Pool, Put, PutSegment, PutAt, FreeAt, PathOf, Unclaimed, At0, StackPath, CodePath, DataPath, Ample;
    AtStart(m, g);
    var (root, f0) := (Root(m), RestFree(m.tableFree));
    var (a, b, c) := (m.pageFree[0], m.pageFree[1], g.argFrame);
    t0 := m.tables[root := ZeroTable()];
    FreeAtKeeps(At0(m), f0, StackPath(g));
    PutKeeps(t0, root, At0(m), f0, StackPath(g), g.stackWrite, a);
    PutTree(t0, root, At0(m), f0, StackPath(g), g.stackWrite, a);
    UnclaimedStays(At0(m), f0, StackPath(g), a, b);
    UnclaimedStays(At0(m), f0, StackPath(g), a, c);
    t1 := PutSegment(t0, root, f0, StackPath(g), g.stackWrite, a).0;
    var f1 := Free1(m, g);
    FreeAtKeeps(At1(m, g), f1, CodePath(g));
    PutKeeps(t1, root, At1(m, g), f1, CodePath(g), g.codeWrite, b);
    PutTree(t1, root, At1(m, g), f1, CodePath(g), g.codeWrite, b);
    UnclaimedStays(At1(m, g), f1, CodePath(g), b, c);
    t2 := PutSegment(t1, root, f1, CodePath(g), g.codeWrite, b).0;
    PutKeeps(t2, root, At2(m, g), Free2(m, g), DataPath(g), g.dataWrite, c);
  }

  lemma PutTree(t: Tables, root: Pfn, at: map<Path, Pfn>, free: seq<Pfn>, p: Path, write: bool, page: Pfn)
    requires |p| == LEVELS && ValidPath(p)
    requires Put(t, PutSegment(t, root, free, p, write, page).0, root, at, PutAt(at, free, p, page), p, write, page)
    ensures Tree(PutSegment(t, root, free, p, write, page).0, root, PutAt(at, free, p, page))
  {
  }

  // ---------- what preparing gives ----------

  /** The numbers of the pages of the stack's last word, and of the first words of
      code and data; the first is a difference in 64-bit arithmetic. */
  ghost function PageNos(g: Segments): (int, int, int) {
    (PageNo(if g.stackEnd < PAGE_SIZE then U64 + g.stackEnd - PAGE_SIZE else g.stackEnd - PAGE_SIZE),
     PageNo(g.codeStart), PageNo(g.dataStart))
  }

  /** Three different pages. */
  ghost predicate Distinct(g: Segments) {
    var (stack, code, data) := PageNos(g);
    stack != code && stack != data && code != data
  }

  /** The address is on one of the three pages. */
  ghost predicate OnImage(g: Segments, va: nat) {
    var (stack, code, data) := PageNos(g);
    PageNo(va) == stack || PageNo(va) == code || PageNo(va) == data
  }

  /** Which of the three an address is on. */
  lemma PathsAre(g: Segments, va: nat)
    ensures var ((stack, code, data), p) := (PageNos(g), PathOf(va));
      && (p == StackPath(g) <==> PageNo(va) == stack)
      && (p == CodePath(g) <==> PageNo(va) == code)
      && (p == DataPath(g) <==> PageNo(va) == data)
    ensures var (stack, code, data) := PageNos(g);
      && (CodePath(g) == StackPath(g) <==> code == stack)
      && (DataPath(g) == StackPath(g) <==> data == stack)
      && (DataPath(g) == CodePath(g) <==> data == code)
  {
    hide PathOf, PageNo;
    var end := if g.stackEnd < PAGE_SIZE then U64 + g.stackEnd - PAGE_SIZE else g.stackEnd - PAGE_SIZE;
    assert (g.stackEnd - PAGE_SIZE) % U64 == end by {
      Quotient(g.stackEnd - PAGE_SIZE, U64, if g.stackEnd < PAGE_SIZE then -1 else 0, end);
    }
    SamePathIff(va, end);
    SamePathIff(va, g.codeStart);
    SamePathIff(va, g.dataStart);
    SamePathIff(g.codeStart, end);
    SamePathIff(g.dataStart, end);
    SamePathIff(g.dataStart, g.codeStart);
  }

  /** Every place in the tree is on the way to one of the three pages. */
  ghost predicate Tight(at: map<Path, Pfn>, g: Segments) {
    && StackPath(g) in at && CodePath(g) in at && DataPath(g) in at
    && forall q :: q in at ==> q <= StackPath(g) || q <= CodePath(g) || q <= DataPath(g)
  }

  ghost predicate NonZero(at: map<Path, Pfn>) {
    forall p :: p in at ==> at[p] != 0
  }

  /** The prepared image: a tree holding the three pages and the tables on the way
      to them, and nothing else. */
  lemma PreparedTree(m: Memory, g: Segments)
    requires Ample(m, g)
    ensures var (m', at) := (Prepare(m, g), AtPrepared(m, g));
      Tree(m'.tables, Root(m), at) && Pool(at, m'.tableFree) && Tight(at, g) && NonZero(at)
  {
    hide Put, Tree, Pool, Ample, Prepare, StackPath, CodePath, DataPath, At0, At1, At2, AtPrepared, Free3;
    var t0, t1, t2 := PrepareSteps(m, g);
    var root := Root(m);
    PutAdds(t0, t1, root, At0(m), At1(m, g), StackPath(g), g.stackWrite, m.pageFree[0]);
    PutAdds(t1, t2, root, At1(m, g), At2(m, g), CodePath(g), g.codeWrite, m.pageFree[1]);
    PutAdds(t2, Prepare(m, g).tables, root, At2(m, g), AtPrepared(m, g), DataPath(g), g.dataWrite, g.argFrame);
    OnlyRoot(m, g, StackPath(g));
    hide NonZero;
  }

  lemma OnlyRoot(m: Memory, g: Segments, p: Path)
    requires Ample(m, g)
    ensures NonZero(At0(m)) && forall q :: q in At0(m) ==> q <= p
  {
  }

  lemma PutAdds(t: Tables, t': Tables, root: Pfn, at: map<Path, Pfn>, at': map<Path, Pfn>,
                p: Path, write: bool, page: Pfn)
    requires |p| == LEVELS && Put(t, t', root, at, at', p, write, page)
    ensures p in at' && Tree(t', root, at')
    ensures forall q :: q in at ==> q in at'
    ensures forall q :: q in at' ==> q in at || q <= p
    ensures NonZero(at) ==> NonZero(at')
  {
    hide Tree, Entry, Writable;
  }

  /** Where the frames are: the stack's page has the first, whatever else is on it; the
      code's, if it is another, the second; the data's, if it is a third, the caller's. */
  ghost predicate Placed(t: Tables, at: map<Path, Pfn>, g: Segments, first: Pfn, second: Pfn) {
    var (ps, pc, pd) := (StackPath(g), CodePath(g), DataPath(g));
    && ps in at && pc in at && pd in at
    && at[ps] == first && (Writable(Entry(t, at, ps)) <==> g.stackWrite)
    && (pc != ps ==> at[pc] == second && (Writable(Entry(t, at, pc)) <==> g.codeWrite))
    && (pd != ps && pd != pc ==> at[pd] == g.argFrame && (Writable(Entry(t, at, pd)) <==> g.dataWrite))
  }

  lemma PreparedPlaces(m: Memory, g: Segments)
    requires Ample(m, g)
    ensures |m.pageFree| >= 2 && Tree(Prepare(m, g).tables, Root(m), AtPrepared(m, g))
    ensures Placed(Prepare(m, g).tables, AtPrepared(m, g), g, m.pageFree[0], m.pageFree[1])
    ensures Prepare(m, g).pageFree == if CodePath(g) == StackPath(g) then m.pageFree[1..] else m.pageFree[2..]
  {
    hide Put, Tree, Pool, Ample, Prepare, StackPath, CodePath, DataPath, Entry, Writable, At0, At1, At2, AtPrepared,
      Free3, Root;
    var (ps, pc, pd) := (StackPath(g), CodePath(g), DataPath(g));
    var (t, root, at) := (Prepare(m, g).tables, Root(m), AtPrepared(m, g));
    var (at0, at1, at2) := (At0(m), At1(m, g), At2(m, g));
    var t0, t1, t2 := PrepareSteps(m, g);
    var (a, b, c) := (m.pageFree[0], m.pageFree[1], g.argFrame);
    NoPagesYet(m, ps);
    NoPagesYet(m, pc);
    NoPagesYet(m, pd);
    PutLeaf(t0, t1, root, at0, at1, ps, g.stackWrite, a, ps);
    PutLeaf(t0, t1, root, at0, at1, ps, g.stackWrite, a, pc);
    PutLeaf(t0, t1, root, at0, at1, ps, g.stackWrite, a, pd);
    PutLeaf(t1, t2, root, at1, at2, pc, g.codeWrite, b, ps);
    PutLeaf(t1, t2, root, at1, at2, pc, g.codeWrite, b, pc);
    PutLeaf(t1, t2, root, at1, at2, pc, g.codeWrite, b, pd);
    PutLeaf(t2, t, root, at2, at, pd, g.dataWrite, c, ps);
    PutLeaf(t2, t, root, at2, at, pd, g.dataWrite, c, pc);
    PutLeaf(t2, t, root, at2, at, pd, g.dataWrite, c, pd);
  }

  /** What putting a segment at p means for a full path q. */
  lemma PutLeaf(t: Tables, t': Tables, root: Pfn, at: map<Path, Pfn>, at': map<Path, Pfn>,
                p: Path, write: bool, page: Pfn, q: Path)
    requires |p| == LEVELS && |q| == LEVELS && Put(t, t', root, at, at', p, write, page)
    ensures Tree(t', root, at') && (q in at' <==> q in at || q == p)
    ensures q in at ==> at'[q] == at[q] && (Writable(Entry(t', at', q)) <==> Writable(Entry(t, at, q)))
    ensures q !in at && q == p ==> at'[q] == page && (Writable(Entry(t', at', q)) <==> write)
  {
    hide Tree, Entry, Writable;
  }

  /** Every address, after preparing: on the stack's page it leads to the first free
      frame, on the code's to the second, on the data's to the caller's, each page
      having the rights of its own flag though the tables above are shared; a page
      asked for twice is the earlier one's. No other address leads anywhere. */
  lemma PreparedMaps(m: Memory, g: Segments, va: nat)
    requires Ample(m, g)
    ensures var ((stack, code, data), page) := (PageNos(g), PageNo(va));
      var (t, root, p) := (Prepare(m, g).tables, Root(m), PathOf(va));
      && |m.pageFree| >= 2
      && (page == stack ==> Leads(t, root, p, m.pageFree[0], g.stackWrite))
      && (page == code && page != stack ==> Leads(t, root, p, m.pageFree[1], g.codeWrite))
      && (page == data && page != stack && page != code ==> Leads(t, root, p, g.argFrame, g.dataWrite))
      && (page != stack && page != code && page != data ==> Descend(t, root, p) == None)
    ensures var (stack, code, data) := PageNos(g);
      Prepare(m, g).pageFree == if code == stack then m.pageFree[1..] else m.pageFree[2..]
  {
    hide Tree, Tight, Pool, NonZero, Ample, Prepare, StackPath, CodePath, DataPath, Entry, Writable, AtPrepared, Root,
      Leads, PageNos, PageNo, PathOf, Descend;
    var (t, root, at) := (Prepare(m, g).tables, Root(m), AtPrepared(m, g));
    PathsAre(g, va);
    PreparedTree(m, g);
    PreparedPlaces(m, g);
    if PathOf(va) in at {
      LeadsTo(t, root, at, PathOf(va));
      TightPages(at, g, PathOf(va));
    } else {
      WalkFinds(t, root, at, PathOf(va));
    }
  }

  /** The pages of a tight tree are the three. */
  lemma TightPages(at: map<Path, Pfn>, g: Segments, p: Path)
    requires Tight(at, g) && p in at && |p| == LEVELS
    ensures p == StackPath(g) || p == CodePath(g) || p == DataPath(g)
  {
    hide StackPath, CodePath, DataPath;
  }

  lemma NoPagesYet(m: Memory, p: Path)
    requires |p| == LEVELS
    ensures p !in At0(m)
  {
  }

  predicate Leads(t: Tables, root: Pfn, p: Path, f: Pfn, write: bool) {
    Descend(t, root, p) == Some(f) && UserAllowed(t, root, p) && (WriteAllowed(t, root, p) <==> write)
  }

  lemma LeadsTo(t: Tables, root: Pfn, at: map<Path, Pfn>, p: Path)
    requires Tree(t, root, at) && p in at && |p| == LEVELS
    ensures Leads(t, root, p, at[p], Writable(Entry(t, at, p)))
  {
    hide Entry, Writable, Descend, WriteAllowed, UserAllowed;
    WalkFinds(t, root, at, p);
    Rights(t, root, at, p);
  }

  lemma PutConserves(at: map<Path, Pfn>, free: seq<Pfn>, p: Path, page: Pfn)
    requires |free| >= 3 && |p| == LEVELS
    ensures TableFrames(PutAt(at, free, p, page)) + SetOf(FreeAt(at, free, p)) == TableFrames(at) + SetOf(free)
  {
    hide WithTables, FreeWith, TableFrames, PageFrames, SetOf;
    if p !in at {
      ExtendConserves(at, free, p, page);
    }
  }

  /** The table frames in the image and those left are those there were. */
  lemma PrepareConserves(m: Memory, g: Segments)
    requires Ample(m, g)
    ensures TableFrames(AtPrepared(m, g)) + SetOf(Prepare(m, g).tableFree) == SetOf(m.tableFree)
  {
    hide Put, Pool, Ample, Prepare, PathOf, PutAt, FreeAt, At0, TableFrames, SetOf;
    var t0, t1, t2 := PrepareSteps(m, g);
    RootConserves(m, g);
    PutConserves(At0(m), RestFree(m.tableFree), StackPath(g), FirstFree(m.pageFree));
    PutConserves(At1(m, g), Free1(m, g), CodePath(g), FirstFree(RestFree(m.pageFree)));
    PutConserves(At2(m, g), Free2(m, g), DataPath(g), g.argFrame);
  }

  lemma RootConserves(m: Memory, g: Segments)
    requires Ample(m, g)
    ensures |RestFree(m.tableFree)| >= 9
    ensures TableFrames(At0(m)) + SetOf(RestFree(m.tableFree)) == SetOf(m.tableFree)
  {
    assert m.tableFree == [Root(m)] + RestFree(m.tableFree);
    assert SetOf(m.tableFree) == {Root(m)} + SetOf(RestFree(m.tableFree));
    assert [] in At0(m);
    assert TableFrames(At0(m)) == {Root(m)};
  }

  // ---------- tearing down ----------

  /** The frame a path leads to, present or not: the teardown does not look. */
  function FrameAt(t: Tables, f: Pfn, p: Path): Pfn
    requires ValidPath(p)
    decreases |p|
  {
    if |p| == 0 then f else FrameAt(t, Frame(TableOf(t, f)[p[0]]), p[1..])
  }

  /** Later copies of f are overwritten with zero. */
  function Blank(s: seq<Pfn>, f: Pfn): (r: seq<Pfn>)
    ensures |r| == |s| && forall i :: 0 <= i < |s| ==> r[i] == if s[i] == f then 0 else s[i]
  {
    if |s| == 0 then [] else [if s[0] == f then 0 else s[0]] + Blank(s[1..], f)
  }

  /** The frames the loop frees: zeros are passed over, and each frame freed blanks
      its later copies. */
  function Firsts(s: seq<Pfn>): seq<Pfn>
    decreases |s|
  {
    if |s| == 0 then []
    else if s[0] == 0 then Firsts(s[1..])
    else [s[0]] + Firsts(Blank(s[1..], s[0]))
  }

  ghost predicate NoDup(s: seq<Pfn>) {
    forall j, k :: 0 <= j < k < |s| ==> s[j] != s[k]
  }

  lemma NoDupCons(f: Pfn, s: seq<Pfn>)
    requires NoDup(s) && f !in s
    ensures NoDup([f] + s)
  {
  }

  /** Each frame of the list once. */
  lemma {:induction false} FirstsOnce(s: seq<Pfn>)
    ensures NoDup(Firsts(s))
    ensures forall f :: f in Firsts(s) <==> f in s && f != 0
    decreases |s|
  {
    if |s| > 0 {
      assert s == [s[0]] + s[1..];
      if s[0] == 0 {
        FirstsOnce(s[1..]);
      } else {
        var rest := Blank(s[1..], s[0]);
        FirstsOnce(rest);
        assert forall i :: 0 <= i < |rest| ==> rest[i] != s[0];
        forall f | f in rest && f != 0 ensures f in s {
          var i :| 0 <= i < |rest| && rest[i] == f;
          assert s[i + 1] == f;
        }
        forall f | f in s && f != 0 && f != s[0] ensures f in rest {
          var i :| 0 <= i < |s| && s[i] == f;
          assert rest[i - 1] == f;
        }
        NoDupCons(s[0], Firsts(rest));
      }
    }
  }

  datatype Released = Released(tables: seq<Pfn>, users: seq<Pfn>)

  function Three(t: Tables, root: Pfn, g: Segments, k: nat): (r: seq<Pfn>)
    requires k <= LEVELS
    ensures |r| == 3
  {
    [FrameAt(t, root, CodePath(g)[..k]), FrameAt(t, root, StackPath(g)[..k]), FrameAt(t, root, DataPath(g)[..k])]
  }

  /** What is given back, in order: the pages, then each level's tables, then the root. */
  function Teardown(t: Tables, root: Pfn, g: Segments): Released {
    Released(Firsts(Three(t, root, g, 3)) + Firsts(Three(t, root, g, 2)) + Firsts(Three(t, root, g, 1)) + [root],
             Three(t, root, g, 4))
  }

  lemma {:induction false} FrameAtFrom(t: Tables, root: Pfn, at: map<Path, Pfn>, pre: Path, rest: Path)
    requires Tree(t, root, at) && pre in at && pre + rest in at && ValidPath(rest)
    ensures FrameAt(t, at[pre], rest) == at[pre + rest]
    decreases |rest|
  {
    if |rest| == 0 {
      assert pre + rest == pre;
    } else {
      TreeRooted(t, root, at);
      OneOn(pre, rest);
      PrefixIn(at, pre + rest, |pre| + 1);
      assert TableAt(t, at, pre) && EntryAt(t, at, pre, rest[0]);
      hide Tree, TableAt, Entry, Rooted, Separate;
      FrameAtFrom(t, root, at, pre + [rest[0]], rest[1..]);
    }
  }

  lemma FrameAtIs(t: Tables, root: Pfn, at: map<Path, Pfn>, p: Path, k: nat)
    requires Tree(t, root, at) && p in at && k <= |p|
    ensures p[..k] in at && ValidPath(p[..k]) && FrameAt(t, root, p[..k]) == at[p[..k]]
  {
    TreeRooted(t, root, at);
    PrefixIn(at, p, k);
    assert [] + p[..k] == p[..k];
    TreeRoot(t, root, at);
    FrameAtFrom(t, root, at, [], p[..k]);
  }

  ghost function LevelFrames(at: map<Path, Pfn>, k: nat): set<Pfn> {
    set q | q in at && |q| == k :: at[q]
  }

  lemma ThreeAre(t: Tables, root: Pfn, at: map<Path, Pfn>, g: Segments, k: nat)
    requires Tree(t, root, at) && Tight(at, g) && k <= LEVELS
    ensures CodePath(g)[..k] in at && StackPath(g)[..k] in at && DataPath(g)[..k] in at
    ensures Three(t, root, g, k) == [at[CodePath(g)[..k]], at[StackPath(g)[..k]], at[DataPath(g)[..k]]]
    ensures SetOf(Three(t, root, g, k)) == LevelFrames(at, k)
  {
    FrameAtIs(t, root, at, CodePath(g), k);
    FrameAtIs(t, root, at, StackPath(g), k);
    FrameAtIs(t, root, at, DataPath(g), k);
    hide Tree, FrameAt, Tight, CodePath, StackPath, DataPath, LevelFrames;
    ThreeCover(at, g, k);
    SetOfThree(at[CodePath(g)[..k]], at[StackPath(g)[..k]], at[DataPath(g)[..k]]);
  }

  lemma SetOfThree(a: Pfn, b: Pfn, c: Pfn)
    ensures SetOf([a, b, c]) == {a, b, c}
  {
    var s := [a, b, c];
    assert s[0] in s && s[1] in s && s[2] in s;
  }

  lemma ThreeCover(at: map<Path, Pfn>, g: Segments, k: nat)
    requires Tight(at, g) && k <= LEVELS
    requires CodePath(g)[..k] in at && StackPath(g)[..k] in at && DataPath(g)[..k] in at
    ensures LevelFrames(at, k) == {at[CodePath(g)[..k]], at[StackPath(g)[..k]], at[DataPath(g)[..k]]}
  {
    var (pc, ps, pd) := (CodePath(g), StackPath(g), DataPath(g));
    assert |pc| == LEVELS && |ps| == LEVELS && |pd| == LEVELS;
    hide CodePath, StackPath, DataPath;
    forall q | q in at && |q| == k ensures q == pc[..k] || q == ps[..k] || q == pd[..k] {
    }
    assert |pc[..k]| == k && |ps[..k]| == k && |pd[..k]| == k;
  }

  lemma LevelsCover(at: map<Path, Pfn>)
    requires Rooted(at) && [] in at
    ensures TableFrames(at) == {at[[]]} + LevelFrames(at, 1) + LevelFrames(at, 2) + LevelFrames(at, 3)
    ensures PageFrames(at) == LevelFrames(at, 4)
  {
    var all := {at[[]]} + LevelFrames(at, 1) + LevelFrames(at, 2) + LevelFrames(at, 3);
    forall f | f in TableFrames(at) ensures f in all {
      var q :| q in at && |q| < LEVELS && at[q] == f;
      assert |q| == 0 ==> q == [];
      assert |q| > 0 ==> f in LevelFrames(at, |q|);
    }
    forall f | f in all ensures f in TableFrames(at) {
    }
  }

  lemma LevelsApart(at: map<Path, Pfn>, j: nat, k: nat)
    requires Separate(at) && j != k
    ensures LevelFrames(at, j) !! LevelFrames(at, k)
  {
  }

  lemma NoDupJoin(a: seq<Pfn>, b: seq<Pfn>)
    requires NoDup(a) && NoDup(b) && SetOf(a) !! SetOf(b)
    ensures NoDup(a + b) && SetOf(a + b) == SetOf(a) + SetOf(b)
  {
    forall j, k | 0 <= j < k < |a + b| ensures (a + b)[j] != (a + b)[k] {
      if j < |a| <= k {
        assert a[j] in SetOf(a) && b[k - |a|] in SetOf(b);
      }
    }
  }

  /** One level's frees: each of its tables once. */
  lemma LevelOnce(t: Tables, root: Pfn, at: map<Path, Pfn>, g: Segments, k: nat)
    requires Tree(t, root, at) && Tight(at, g) && k <= LEVELS && NonZero(at)
    ensures NoDup(Firsts(Three(t, root, g, k))) && SetOf(Firsts(Three(t, root, g, k))) == LevelFrames(at, k)
  {
    hide Tree, Tight, Three, Firsts, NoDup, LevelFrames, SetOf, NonZero;
    ThreeAre(t, root, at, g, k);
    FirstsOnce(Three(t, root, g, k));
    SameFrames(Firsts(Three(t, root, g, k)), Three(t, root, g, k), at, k);
  }

  lemma SameFrames(a: seq<Pfn>, b: seq<Pfn>, at: map<Path, Pfn>, k: nat)
    requires forall f :: f in a <==> f in b && f != 0
    requires NonZero(at) && SetOf(b) == LevelFrames(at, k)
    ensures SetOf(a) == SetOf(b)
  {
    assert 0 !in LevelFrames(at, k);
    assert 0 in b ==> 0 in SetOf(b);
    assert forall f :: f in a <==> f in b;
  }

  /** The teardown of a tight tree gives back every table frame exactly once. */
  lemma TablesReleasedOnce(t: Tables, root: Pfn, at: map<Path, Pfn>, g: Segments)
    requires Tree(t, root, at) && Tight(at, g) && NonZero(at)
    ensures NoDup(Teardown(t, root, g).tables) && SetOf(Teardown(t, root, g).tables) == TableFrames(at)
  {
    TreeRooted(t, root, at);
    TreeRoot(t, root, at);
    LevelsCover(at);
    LevelOnce(t, root, at, g, 1);
    LevelOnce(t, root, at, g, 2);
    LevelOnce(t, root, at, g, 3);
    LevelsApart(at, 3, 2);
    LevelsApart(at, 3, 1);
    LevelsApart(at, 2, 1);
    RootApart(at);
    hide Tree, Tight, Three, Firsts, NoDup, LevelFrames, TableFrames, SetOf, NonZero, Separate, Rooted;
    var (a, b, c) := (Firsts(Three(t, root, g, 3)), Firsts(Three(t, root, g, 2)), Firsts(Three(t, root, g, 1)));
    NoDupJoin(a, b);
    NoDupJoin(a + b, c);
    Alone(root);
    NoDupJoin(a + b + c, [root]);
  }

  /** No table goes back before one that it leads to. */
  lemma DeepestFirst(t: Tables, root: Pfn, at: map<Path, Pfn>, g: Segments, j: nat, k: nat, p: Path, q: Path)
    requires Tree(t, root, at) && Tight(at, g) && NonZero(at) && p in at && q in at
    requires j < k < |Teardown(t, root, g).tables|
    requires Teardown(t, root, g).tables[j] == at[p] && Teardown(t, root, g).tables[k] == at[q]
    ensures |p| >= |q|
  {
    hide Tree, Tight, Three, Firsts, NoDup, NonZero, Rooted;
    TreeRooted(t, root, at);
    TreeRoot(t, root, at);
    LevelOnce(t, root, at, g, 1);
    LevelOnce(t, root, at, g, 2);
    LevelOnce(t, root, at, g, 3);
    var (a, b, c) := (Firsts(Three(t, root, g, 3)), Firsts(Three(t, root, g, 2)), Firsts(Three(t, root, g, 1)));
    var all := a + b + c + [root];
    AtLevel(at, all[j], p, if j < |a| then 3 else if j < |a| + |b| then 2 else if j < |a| + |b| + |c| then 1 else 0);
    AtLevel(at, all[k], q, if k < |a| then 3 else if k < |a| + |b| then 2 else if k < |a| + |b| + |c| then 1 else 0);
  }

  lemma AtLevel(at: map<Path, Pfn>, f: Pfn, p: Path, k: nat)
    requires Separate(at) && [] in at && p in at && at[p] == f && (f in LevelFrames(at, k) || (k == 0 && f == at[[]]))
    ensures |p| == k
  {
  }

  lemma RootApart(at: map<Path, Pfn>)
    requires Separate(at) && [] in at
    ensures at[[]] !in LevelFrames(at, 1) && at[[]] !in LevelFrames(at, 2) && at[[]] !in LevelFrames(at, 3)
  {
  }

  lemma Alone(f: Pfn)
    ensures NoDup([f]) && SetOf([f]) == {f}
  {
  }

  /** The user frames given back are the mapped ones; none is given back twice
      exactly when the three pages are distinct. */
  lemma UsersReleased(t: Tables, root: Pfn, at: map<Path, Pfn>, g: Segments)
    requires Tree(t, root, at) && Tight(at, g)
    ensures Teardown(t, root, g).users == [at[CodePath(g)], at[StackPath(g)], at[DataPath(g)]]
    ensures SetOf(Teardown(t, root, g).users) == PageFrames(at)
    ensures NoDup(Teardown(t, root, g).users) <==> Distinct(g)
  {
    hide Tree, Rooted, StackPath, CodePath, DataPath, LevelFrames, PageFrames, TableFrames, SetOf, Separate, NoDup,
      Three, Firsts, Distinct;
    TreeRooted(t, root, at);
    TreeRoot(t, root, at);
    LevelsCover(at);
    ThreeAre(t, root, at, g, 4);
    hide Tight;
    var (pc, ps, pd) := (CodePath(g), StackPath(g), DataPath(g));
    assert pc[..4] == pc && ps[..4] == ps && pd[..4] == pd;
    ApartFrames(at, pc, ps, pd);
    DistinctPaths(g);
  }

  lemma DistinctPaths(g: Segments)
    ensures Distinct(g) <==>
      CodePath(g) != StackPath(g) && CodePath(g) != DataPath(g) && StackPath(g) != DataPath(g)
  {
    hide PageNos, PathOf, StackPath, CodePath, DataPath;
    PathsAre(g, 0);
  }

  lemma ApartFrames(at: map<Path, Pfn>, p: Path, q: Path, r: Path)
    requires Separate(at) && p in at && q in at && r in at
    ensures NoDup([at[p], at[q], at[r]]) <==> p != q && p != r && q != r
  {
    var u := [at[p], at[q], at[r]];
    assert NoDup(u) <==> u[0] != u[1] && u[0] != u[2] && u[1] != u[2];
  }

  /** Prepare, then tear down: the table frames taken are exactly those given back,
      each once; of user frames, the two taken and the caller's come back. */
  lemma PrepareThenTeardown(m: Memory, g: Segments)
    requires Ample(m, g)
    ensures var (m', r) := (Prepare(m, g), Teardown(Prepare(m, g).tables, Root(m), g));
      && NoDup(r.tables)
      && SetOf(r.tables) !! SetOf(m'.tableFree)
      && SetOf(r.tables) + SetOf(m'.tableFree) == SetOf(m.tableFree)
      && (NoDup(r.users) <==> Distinct(g))
      && |m.pageFree| >= 2
      && var ((stack, code, data), first, second) := (PageNos(g), m.pageFree[0], m.pageFree[1]);
         && r.users == [if code == stack then first else second,
                        first,
                        if data == stack then first else if data == code then second else g.argFrame]
         && m'.pageFree == if code == stack then m.pageFree[1..] else m.pageFree[2..]
  {
    hide Tree, Tight, NonZero, Pool, Ample, Prepare, Teardown, NoDup, AtPrepared, TableFrames, PageFrames, SetOf,
      StackPath, CodePath, DataPath, PageNos, Distinct, Root, Entry, Writable;
    PreparedTree(m, g);
    PrepareConserves(m, g);
    var (m', at) := (Prepare(m, g), AtPrepared(m, g));
    TablesReleasedOnce(m'.tables, Root(m), at, g);
    UsersReleased(m'.tables, Root(m), at, g);
    PoolApart(at, m'.tableFree);
    PreparedPlaces(m, g);
    PathsAre(g, 0);
  }

  lemma PoolApart(at: map<Path, Pfn>, free: seq<Pfn>)
    requires Pool(at, free)
    ensures TableFrames(at) !! SetOf(free)
  {
  }

  // ---------- the case-split teardown ----------

  /** The size of the array the case-split teardown collects its frames in. */
  const MAX_N := 9

  /** Code, stack and data frames, a repeated one once, by comparing each pair. */
  function CaseSplit(s: seq<Pfn>): seq<Pfn>
    requires |s| == 3
  {
    var (code, stack, data) := (s[0], s[1], s[2]);
    if code != stack then [code, stack] + (if data != stack && data != code then [data] else [])
    else [code] + (if data != code then [data] else [])
  }

  /** Comparing pairs keeps what blanking later copies keeps. */
  lemma CaseSplitIsFirsts(a: Pfn, b: Pfn, c: Pfn)
    requires a != 0 && b != 0 && c != 0
    ensures CaseSplit([a, b, c]) == Firsts([a, b, c])
  {
    assert [a, b, c][1..] == [b, c];
    var r := Blank([b, c], a);
    assert r == [if b == a then 0 else b, if c == a then 0 else c];
    assert r[1..] == [r[1]] && Blank([r[1]], b)[0] == if r[1] == b then 0 else r[1];
    assert forall x :: Firsts([x]) == if x == 0 then [] else [x] by {
      forall x ensures Firsts([x]) == if x == 0 then [] else [x] {
        LoneFirst(x);
      }
    }
    assert b != a ==> Firsts(r) == [b] + Firsts(Blank(r[1..], b));
    assert b != a ==> Blank(r[1..], b) == [if r[1] == b then 0 else r[1]];
  }

  lemma LoneFirst(x: Pfn)
    ensures Firsts([x]) == if x == 0 then [] else [x]
  {
    assert [x][1..] == [] && Blank([], x) == [];
  }

  /** Every table frame the case-split teardown frees, the top table last. */
  function SplitFrames(t: Tables, root: Pfn, g: Segments): seq<Pfn> {
    CaseSplit(Three(t, root, g, 1)) + CaseSplit(Three(t, root, g, 2)) + CaseSplit(Three(t, root, g, 3)) + [root]
  }

  lemma LevelSplit(t: Tables, root: Pfn, at: map<Path, Pfn>, g: Segments, k: nat)
    requires Tree(t, root, at) && Tight(at, g) && NonZero(at) && k <= LEVELS
    ensures var s := CaseSplit(Three(t, root, g, k)); NoDup(s) && SetOf(s) == LevelFrames(at, k)
  {
    hide Tree, Tight, LevelFrames, SetOf, CaseSplit, Firsts, NoDup, CodePath, StackPath, DataPath;
    LevelOnce(t, root, at, g, k);
    ThreeAre(t, root, at, g, k);
    hide Three;
    CaseSplitIsFirsts(at[CodePath(g)[..k]], at[StackPath(g)[..k]], at[DataPath(g)[..k]]);
  }

  /** Both teardowns free the same table frames, each once; comparing pairs also
      frees a shared page once, where the loop frees it again. */
  lemma SplitFreesTheSame(t: Tables, root: Pfn, at: map<Path, Pfn>, g: Segments)
    requires Tree(t, root, at) && Tight(at, g) && NonZero(at)
    ensures NoDup(SplitFrames(t, root, g)) && SetOf(SplitFrames(t, root, g)) == SetOf(Teardown(t, root, g).tables)
    ensures var users := CaseSplit(Three(t, root, g, 4)); NoDup(users) && SetOf(users) == PageFrames(at)
  {
    hide Tree, Tight, Three, Firsts, NoDup, LevelFrames, TableFrames, PageFrames, SetOf, NonZero, Separate, Rooted,
      CaseSplit, Teardown;
    TreeRooted(t, root, at);
    TreeRoot(t, root, at);
    TablesReleasedOnce(t, root, at, g);
    LevelsCover(at);
    LevelSplit(t, root, at, g, 1);
    LevelSplit(t, root, at, g, 2);
    LevelSplit(t, root, at, g, 3);
    LevelSplit(t, root, at, g, 4);
    LevelsApart(at, 1, 2);
    LevelsApart(at, 1, 3);
    LevelsApart(at, 2, 3);
    RootApart(at);
    var a := CaseSplit(Three(t, root, g, 1));
    var b := CaseSplit(Three(t, root, g, 2));
    var c := CaseSplit(Three(t, root, g, 3));
    NoDupJoin(a, b);
    NoDupJoin(a + b, c);
    Alone(root);
    NoDupJoin(a + b + c, [root]);
  }

  lemma SplitSize(a: Pfn, b: Pfn, c: Pfn)
    ensures |CaseSplit([a, b, c])| <= 3
    ensures |CaseSplit([a, b, c])| == 3 <==> a != b && a != c && b != c
  {
  }

  lemma LevelSize(t: Tables, root: Pfn, at: map<Path, Pfn>, g: Segments, k: nat)
    requires Tree(t, root, at) && Tight(at, g) && k <= LEVELS
    ensures var n := |CaseSplit(Three(t, root, g, k))|;
      var (pc, ps, pd) := (CodePath(g)[..k], StackPath(g)[..k], DataPath(g)[..k]);
      n <= 3 && (n == 3 <==> pc != ps && pc != pd && ps != pd)
  {
    hide Tree, Tight, LevelFrames, SetOf, CaseSplit, CodePath, StackPath, DataPath;
    TreeRooted(t, root, at);
    ThreeAre(t, root, at, g, k);
    hide Three;
    SplitSize(at[CodePath(g)[..k]], at[StackPath(g)[..k]], at[DataPath(g)[..k]]);
  }

  /** The array is large enough exactly when two of the three pages are in the same
      512 GB, so that they share the table of the second level; otherwise ten frames
      go into its nine places. */
  lemma MaxNIff(t: Tables, root: Pfn, at: map<Path, Pfn>, g: Segments)
    requires Tree(t, root, at) && Tight(at, g)
    ensures var (stack, code, data) := PageNos(g);
      var (s, c, d) := (stack / 0x800_0000, code / 0x800_0000, data / 0x800_0000);
      && (|SplitFrames(t, root, g)| <= MAX_N <==> c == s || c == d || s == d)
      && (|SplitFrames(t, root, g)| > MAX_N ==> |SplitFrames(t, root, g)| == 10)
  {
    hide Tree, Tight, Three, CaseSplit, CodePath, StackPath, DataPath, PageNos;
    LevelSize(t, root, at, g, 1);
    LevelSize(t, root, at, g, 2);
    LevelSize(t, root, at, g, 3);
    TopIndices(CodePath(g), StackPath(g));
    TopIndices(CodePath(g), DataPath(g));
    TopIndices(StackPath(g), DataPath(g));
    RegionsAre(g);
  }

  /** Which of the three share the top index, and the top three. */
  lemma RegionsAre(g: Segments)
    ensures var (stack, code, data) := PageNos(g);
      && (CodePath(g)[0] == StackPath(g)[0] <==> code / 0x800_0000 == stack / 0x800_0000)
      && (CodePath(g)[0] == DataPath(g)[0] <==> code / 0x800_0000 == data / 0x800_0000)
      && (StackPath(g)[0] == DataPath(g)[0] <==> stack / 0x800_0000 == data / 0x800_0000)
      && (CodePath(g)[..3] == StackPath(g)[..3] <==> code / 512 == stack / 512)
      && (CodePath(g)[..3] == DataPath(g)[..3] <==> code / 512 == data / 512)
      && (StackPath(g)[..3] == DataPath(g)[..3] <==> stack / 512 == data / 512)
  {
    hide PathOf, PageNo;
    var end := if g.stackEnd < PAGE_SIZE then U64 + g.stackEnd - PAGE_SIZE else g.stackEnd - PAGE_SIZE;
    assert (g.stackEnd - PAGE_SIZE) % U64 == end by {
      Quotient(g.stackEnd - PAGE_SIZE, U64, if g.stackEnd < PAGE_SIZE then -1 else 0, end);
    }
    RegionsIff(g.codeStart, end);
    RegionsIff(g.codeStart, g.dataStart);
    RegionsIff(end, g.dataStart);
  }

  lemma TopIndices(p: Path, q: Path)
    requires |p| == LEVELS && |q| == LEVELS
    ensures p[..1] == q[..1] <==> p[0] == q[0]
    ensures p[0] != q[0] ==> p[..2] != q[..2] && p[..3] != q[..3]
  {
    assert p[..1] == [p[0]] && q[..1] == [q[0]];
    assert p[..2][0] == p[0] && q[..2][0] == q[0] && p[..3][0] == p[0] && q[..3][0] == q[0];
  }
}
