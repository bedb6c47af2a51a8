/** A process's user address space (Ass2/entry.c): pages appear on demand, the two
    growable segments move their ends, and shrinking gives pages back. */
module AddressSpace {
  import opened Options
  import opened PageTables

  const ADDRESS_END := 0x1_0000_0000_0000

  /** [start, next) is what has been handed out of [start, end). */
  datatype Segment = Segment(start: nat, end: nat, next: nat, write: bool)

  datatype Space = Space(
    tables: Tables, root: Pfn,
    tableFree: seq<Pfn>, pageFree: seq<Pfn>,
    data: Segment, rodata: Segment, stack: Segment)

  predicate Aligned(g: Segment) {
    && g.start % PAGE_SIZE == 0 && g.end % PAGE_SIZE == 0 && g.next % PAGE_SIZE == 0
    && 0 < g.start <= g.next <= g.end <= ADDRESS_END
  }

  predicate Apart(g: Segment, h: Segment) {
    g.end <= h.start || h.end <= g.start
  }

  predicate Layout(s: Space) {
    && Aligned(s.data) && Aligned(s.rodata) && Aligned(s.stack)
    && Apart(s.data, s.rodata) && Apart(s.data, s.stack) && Apart(s.rodata, s.stack)
  }

  // ---------- pages and paths ----------

  /** The first address of the page a full path leads to. */
  function PageAddr(p: Path): int
    requires |p| == LEVELS
  {
    (((p[0] * 512 + p[1]) * 512 + p[2]) * 512 + p[3]) * PAGE_SIZE
  }

  lemma PathPage(va: nat)
    requires va < ADDRESS_END
    ensures PageAddr(PathOf(va)) == va / PAGE_SIZE * PAGE_SIZE
  {
    Digits(va);
  }

  lemma PagePath(p: Path)
    requires |p| == LEVELS && ValidPath(p)
    ensures 0 <= PageAddr(p) < ADDRESS_END && PageAddr(p) % PAGE_SIZE == 0 && PathOf(PageAddr(p)) == p
  {
    var (a, b, c) := (p[0], p[0] * 512 + p[1], (p[0] * 512 + p[1]) * 512 + p[2]);
    var d := c * 512 + p[3];
    Quotient(d * PAGE_SIZE, PAGE_SIZE, d, 0);
    Quotient(d, 512, c, p[3]);
    Quotient(c, 512, b, p[2]);
    Quotient(b, 512, a, p[1]);
    Quotient(a, 512, 0, a);
    PageDigits(d * PAGE_SIZE);
  }

  // ---------- the page-fault handler ----------

  predicate Within(g: Segment, va: nat) {
    g.start <= va < g.next
  }

  /** The segment whose branch takes the fault, in the order the branches are tried. */
  function Serving(s: Space, va: nat, err: nat): Option<Segment> {
    if Within(s.data, va) && err % 2 == 0 then Some(s.data)
    else if Within(s.rodata, va) && err / 2 % 2 == 0 && err % 2 == 0 then Some(s.rodata)
    else if s.stack.start <= va < s.stack.end && err % 2 == 0 then Some(s.stack)
    else None
  }

  function MapPage(s: Space, va: nat, write: bool): Space {
    var (t, free) := Extend(s.tables, s.root, s.tableFree, PathOf(va), write, FirstFree(s.pageFree));
    s.(tables := t, tableFree := free, pageFree := RestFree(s.pageFree))
  }

  /** Whether the process goes on; an address no branch takes ends it. */
  function Fault(s: Space, va: nat, err: nat): (Space, bool) {
    match Serving(s, va, err)
    case Some(g) => (MapPage(s, va, g.write), true)
    case None => (s, false)
  }

  // ---------- expand and shrink ----------

  function Seg(s: Space, readOnly: bool): Segment {
    if readOnly then s.rodata else s.data
  }

  function WithNext(s: Space, readOnly: bool, next: nat): Space {
    if readOnly then s.(rodata := s.rodata.(next := next)) else s.(data := s.data.(next := next))
  }

  /** In 64-bit arithmetic: n pages more, if the new end stays within the segment. */
  function Expand(s: Space, n: nat, readOnly: bool): (Space, int) {
    var g := Seg(s, readOnly);
    var size := n * PAGE_SIZE % U64;
    if (g.next + size) % U64 > g.end then (s, 0)
    else (WithNext(s, readOnly, (g.next + size) % U64), g.next)
  }

  function Returned(free: seq<Pfn>, f: Option<Pfn>): seq<Pfn> {
    if f.Some? then [f.value] + free else free
  }

  /** Unmap n pages downwards from cur, each freed frame going back to the front. */
  function FreePages(t: Tables, root: Pfn, free: seq<Pfn>, cur: int, n: nat): (Tables, seq<Pfn>)
    decreases n
  {
    if n == 0 then (t, free)
    else
      var (t1, f) := Unmap(t, root, PathOf((cur - PAGE_SIZE) % U64));
      FreePages(t1, root, Returned(free, f), cur - PAGE_SIZE, n - 1)
  }

  function Shrink(s: Space, n: nat, readOnly: bool): (Space, int) {
    var g := Seg(s, readOnly);
    var next := (g.next - n * PAGE_SIZE) % U64;
    if next < g.start then (s, 0)
    else
      var (t, free) := FreePages(s.tables, s.root, s.pageFree, g.next, n);
      (WithNext(s.(tables := t, pageFree := free), readOnly, next), next)
  }

  // ---------- what a well-kept space is ----------

  /** A page inside a growable segment is below its next address; in each segment
      the write right is the segment's own. */
  predicate InPlace(s: Space, addr: int, write: bool) {
    && (s.data.start <= addr < s.data.end ==> addr < s.data.next && write == s.data.write)
    && (s.rodata.start <= addr < s.rodata.end ==> addr < s.rodata.next && write == s.rodata.write)
    && (s.stack.start <= addr < s.stack.end ==> write == s.stack.write)
  }

  ghost predicate Placed(s: Space, at: map<Path, Pfn>) {
    forall p :: p in at && |p| == LEVELS ==> InPlace(s, PageAddr(p), Writable(Entry(s.tables, at, p)))
  }

  ghost predicate Pools(at: map<Path, Pfn>, tableFree: seq<Pfn>, pageFree: seq<Pfn>) {
    && Pool(at, tableFree) && Pool(at, pageFree)
    && (forall f :: f in tableFree ==> f !in pageFree)
    && (forall p :: p in at ==> 0 < at[p] < PFN_LIMIT)
  }

  ghost predicate Good(s: Space, at: map<Path, Pfn>) {
    && Tree(s.tables, s.root, at)
    && Pools(at, s.tableFree, s.pageFree)
    && Layout(s)
    && Placed(s, at)
  }

  // ---------- what the caller sees ----------

  /** The mapped pages with their write rights, and where the segments end. */
  datatype Picture = Picture(pages: map<Path, bool>, data: Segment, rodata: Segment, stack: Segment)

  ghost function Pages(t: Tables, at: map<Path, Pfn>): map<Path, bool> {
    map p | p in at && |p| == LEVELS :: Writable(Entry(t, at, p))
  }

  ghost function View(s: Space, at: map<Path, Pfn>): Picture {
    Picture(Pages(s.tables, at), s.data, s.rodata, s.stack)
  }

  datatype Op =
    | Touch(va: nat, err: nat)
    | Grow(n: nat, readOnly: bool)
    | Give(n: nat, readOnly: bool)

  function Act(s: Space, op: Op): (Space, int) {
    match op
    case Touch(va, err) => var (s', ok) := Fault(s, va, err); (s', if ok then 1 else 0)
    case Grow(n, ro) => Expand(s, n, ro)
    case Give(n, ro) => Shrink(s, n, ro)
  }

  /** Which write right a touched address gets, if it is one the process may touch. */
  function Grant(v: Picture, va: nat, err: nat): Option<bool> {
    if err % 2 == 1 then None
    else if v.data.start <= va < v.data.next then Some(v.data.write)
    else if v.rodata.start <= va < v.rodata.next && err / 2 % 2 == 0 then Some(v.rodata.write)
    else if v.stack.start <= va < v.stack.end then Some(v.stack.write)
    else None
  }

  ghost function Below(pages: map<Path, bool>, lo: int, hi: int): map<Path, bool>
    requires forall p :: p in pages ==> |p| == LEVELS
  {
    map p | p in pages && !(lo <= PageAddr(p) < hi) :: pages[p]
  }

  /** The same requests over unbounded arithmetic and a plain set of pages. */
  ghost function Meaning(v: Picture, op: Op): (Picture, int)
    requires forall p :: p in v.pages ==> |p| == LEVELS
  {
    match op
    case Touch(va, err) =>
      (match Grant(v, va, err)
       case Some(w) => (v.(pages := v.pages[PathOf(va) := w]), 1)
       case None => (v, 0))
    case Grow(n, ro) =>
      var g := if ro then v.rodata else v.data;
      if g.next + n * PAGE_SIZE > g.end then (v, 0)
      else if ro then (v.(rodata := g.(next := g.next + n * PAGE_SIZE)), g.next)
      else (v.(data := g.(next := g.next + n * PAGE_SIZE)), g.next)
    case Give(n, ro) =>
      var g := if ro then v.rodata else v.data;
      if n * PAGE_SIZE > g.next - g.start then (v, 0)
      else
        var next := g.next - n * PAGE_SIZE;
        var w := v.(pages := Below(v.pages, next, g.next));
        (if ro then w.(rodata := g.(next := next)) else w.(data := g.(next := next)), next)
  }

  // ---------- the 64-bit sums ----------

  /** The request fits, or is refused after the sum has wrapped. */
  predicate GrowSound(g: Segment, n: nat) {
    g.next + n * PAGE_SIZE <= g.end || (g.next + n * PAGE_SIZE) % U64 > g.end
  }

  predicate GiveSound(g: Segment, n: nat) {
    n * PAGE_SIZE <= g.next - g.start || (g.next - n * PAGE_SIZE) % U64 < g.start
  }

  lemma ModAdd(a: int, b: int)
    ensures (a + b % U64) % U64 == (a + b) % U64
  {
    var q := b / U64;
    assert a + b == a + b % U64 + q * U64;
    ModShift(a + b % U64, q);
  }

  lemma ModShift(a: int, q: int)
    ensures (a + q * U64) % U64 == a % U64
  {
    Quotient(a + q * U64, U64, a / U64 + q, a % U64);
  }

  /** Expand does what is asked of it exactly when the request fits or the wrapped
      sum is still beyond the segment. */
  lemma ExpandRightIff(s: Space, at: map<Path, Pfn>, n: nat, readOnly: bool)
    requires Layout(s)
    ensures var (r, m) := (Expand(s, n, readOnly), Meaning(View(s, at), Grow(n, readOnly)));
      ((View(r.0, at), r.1) == m <==> GrowSound(Seg(s, readOnly), n))
  {
    hide Pages;
    var g := Seg(s, readOnly);
    ModAdd(g.next, n * PAGE_SIZE);
    if g.next + n * PAGE_SIZE <= g.end {
      Quotient(g.next + n * PAGE_SIZE, U64, 0, g.next + n * PAGE_SIZE);
    }
  }

  /** 2^52 pages are 2^64 bytes: the sum does not move, and the request is granted. */
  lemma ExpandWraps(s: Space, readOnly: bool)
    requires Layout(s)
    ensures Expand(s, 0x10_0000_0000_0000, readOnly) == (s, Seg(s, readOnly).next)
    ensures !GrowSound(Seg(s, readOnly), 0x10_0000_0000_0000)
  {
    var g := Seg(s, readOnly);
    Quotient(g.next, U64, 0, g.next);
    ModShift(g.next, 1);
  }

  // ---------- giving pages back ----------

  ghost function Without(at: map<Path, Pfn>, lo: int, hi: int): map<Path, Pfn> {
    map p | p in at && !(|p| == LEVELS && lo <= PageAddr(p) < hi) :: at[p]
  }

  lemma OnlyPage(q: Path, lo: nat)
    requires |q| == LEVELS && ValidPath(q) && lo < ADDRESS_END && lo % PAGE_SIZE == 0
    requires lo <= PageAddr(q) < lo + PAGE_SIZE
    ensures q == PathOf(lo)
  {
    PagePath(q);
    hide PageAddr, PathOf, ValidPath;
    Quotient(PageAddr(q), PAGE_SIZE, lo / PAGE_SIZE, PageAddr(q) - lo);
  }

  /** Taking the page just below hi is taking its path. */
  lemma OnePage(at: map<Path, Pfn>, hi: int)
    requires Rooted(at) && PAGE_SIZE <= hi <= ADDRESS_END && hi % PAGE_SIZE == 0
    ensures at - {PathOf(hi - PAGE_SIZE)} == Without(at, hi - PAGE_SIZE, hi)
  {
    hide PageAddr, PathOf, ValidPath;
    var p := PathOf(hi - PAGE_SIZE);
    PathPage(hi - PAGE_SIZE);
    assert PageAddr(p) == hi - PAGE_SIZE;
    forall q | q in at && |q| == LEVELS && hi - PAGE_SIZE <= PageAddr(q) < hi ensures q == p {
      OnlyPage(q, hi - PAGE_SIZE);
    }
  }

  lemma WithoutTwice(at: map<Path, Pfn>, lo: int, mid: int, hi: int)
    requires lo <= mid <= hi
    ensures Without(Without(at, mid, hi), lo, mid) == Without(at, lo, hi)
  {
  }

  lemma PoolsReturn(at: map<Path, Pfn>, tableFree: seq<Pfn>, free: seq<Pfn>, p: Path)
    requires Pools(at, tableFree, free) && Separate(at) && p in at
    ensures Pools(at - {p}, tableFree, [at[p]] + free)
  {
  }

  lemma PageReturns(at: map<Path, Pfn>, free: seq<Pfn>, p: Path)
    requires p in at && |p| == LEVELS
    ensures PageFrames(at - {p}) + SetOf([at[p]] + free) == PageFrames(at) + SetOf(free)
    ensures TableFrames(at - {p}) == TableFrames(at)
  {
    var at' := at - {p};
    assert SetOf([at[p]] + free) == {at[p]} + SetOf(free);
    forall f | f in PageFrames(at) ensures f in PageFrames(at') + {at[p]} {
      var q :| q in at && |q| == LEVELS && at[q] == f;
      assert q == p || (q in at' && at'[q] == f);
    }
    forall f | f in TableFrames(at) ensures f in TableFrames(at') {
      var q :| q in at && |q| < LEVELS && at[q] == f;
      assert q in at' && at'[q] == f;
    }
  }

  /** What giving back the pages of [lo, hi) leaves. */
  ghost predicate GivenBack(t: Tables, t': Tables, root: Pfn, at: map<Path, Pfn>, at': map<Path, Pfn>,
                            tableFree: seq<Pfn>, free: seq<Pfn>, free': seq<Pfn>) {
    && Tree(t', root, at')
    && Pools(at', tableFree, free')
    && at'.Keys <= at.Keys
    && (forall p :: p in at' && p != [] ==> Entry(t', at', p) == Entry(t, at, p))
    && PageFrames(at') + SetOf(free') == PageFrames(at) + SetOf(free)
    && TableFrames(at') == TableFrames(at)
  }

  lemma GiveOne(t: Tables, root: Pfn, at: map<Path, Pfn>, tableFree: seq<Pfn>, free: seq<Pfn>, hi: int)
    requires Tree(t, root, at) && Pools(at, tableFree, free)
    requires PAGE_SIZE <= hi <= ADDRESS_END && hi % PAGE_SIZE == 0
    ensures var (t', f) := Unmap(t, root, PathOf(hi - PAGE_SIZE));
      GivenBack(t, t', root, at, Without(at, hi - PAGE_SIZE, hi), tableFree, free, Returned(free, f))
  {
    hide Unmap, Entry, Without, PathOf, Tree, Rooted, Pools, PageFrames, TableFrames, SetOf;
    var p := PathOf(hi - PAGE_SIZE);
    var at' := at - {p};
    TreeRooted(t, root, at);
    UnmapKeeps(t, root, at, p);
    OnePage(at, hi);
    if p in at {
      PoolsReturn(at, tableFree, free, p);
      PageReturns(at, free, p);
    } else {
      assert at' == at;
    }
  }

  lemma GivenBackTwice(t: Tables, t1: Tables, t2: Tables, root: Pfn,
                       at: map<Path, Pfn>, at1: map<Path, Pfn>, at2: map<Path, Pfn>,
                       tableFree: seq<Pfn>, free: seq<Pfn>, free1: seq<Pfn>, free2: seq<Pfn>)
    requires GivenBack(t, t1, root, at, at1, tableFree, free, free1)
    requires GivenBack(t1, t2, root, at1, at2, tableFree, free1, free2)
    ensures GivenBack(t, t2, root, at, at2, tableFree, free, free2)
  {
    hide Tree, Pools, Entry, PageFrames, TableFrames, SetOf;
  }

  lemma FreesOneMore(t: Tables, root: Pfn, free: seq<Pfn>, cur: int, n: nat)
    requires n > 0
    ensures var (t1, f) := Unmap(t, root, PathOf((cur - PAGE_SIZE) % U64));
      FreePages(t, root, free, cur, n) == FreePages(t1, root, Returned(free, f), cur - PAGE_SIZE, n - 1)
  {
    hide Unmap, PathOf;
  }

  /** Exactly the pages of the range go, and their frames come back to the list. */
  lemma {:induction false} FreePagesKeeps(t: Tables, root: Pfn, at: map<Path, Pfn>,
                                          tableFree: seq<Pfn>, free: seq<Pfn>, hi: int, n: nat)
    requires Tree(t, root, at) && Pools(at, tableFree, free)
    requires n * PAGE_SIZE <= hi <= ADDRESS_END && hi % PAGE_SIZE == 0
    ensures var (t', free') := FreePages(t, root, free, hi, n);
      GivenBack(t, t', root, at, Without(at, hi - n * PAGE_SIZE, hi), tableFree, free, free')
    decreases n
  {
    hide Tree, Pools, Entry, PageFrames, TableFrames, SetOf, Unmap, PathOf, PageAddr;
    if n == 0 {
      assert Without(at, hi, hi) == at;
    } else {
      hide Without;
      var mid := hi - PAGE_SIZE;
      var (t1, f) := Unmap(t, root, PathOf(mid));
      GiveOne(t, root, at, tableFree, free, hi);
      var at1 := Without(at, mid, hi);
      var free1 := Returned(free, f);
      Quotient(mid, U64, 0, mid);
      FreesOneMore(t, root, free, hi, n);
      FreePagesKeeps(t1, root, at1, tableFree, free1, mid, n - 1);
      var lo := hi - n * PAGE_SIZE;
      assert mid - (n - 1) * PAGE_SIZE == lo;
      WithoutTwice(at, lo, mid, hi);
      var (t2, free2) := FreePages(t1, root, free1, mid, n - 1);
      hide FreePages;
      GivenBackTwice(t, t1, t2, root, at, at1, Without(at, lo, hi), tableFree, free, free1, free2);
    }
  }

  lemma LayoutAfter(s: Space, n: nat, readOnly: bool)
    requires Layout(s) && n * PAGE_SIZE <= Seg(s, readOnly).next - Seg(s, readOnly).start
    ensures Layout(WithNext(s, readOnly, Seg(s, readOnly).next - n * PAGE_SIZE))
  {
    var g := Seg(s, readOnly);
    Quotient(g.next - n * PAGE_SIZE, PAGE_SIZE, g.next / PAGE_SIZE - n, 0);
  }

  lemma ShrinkIs(s: Space, n: nat, readOnly: bool)
    requires Layout(s) && n * PAGE_SIZE <= Seg(s, readOnly).next - Seg(s, readOnly).start
    ensures var lo := Seg(s, readOnly).next - n * PAGE_SIZE;
      var (t, free) := FreePages(s.tables, s.root, s.pageFree, Seg(s, readOnly).next, n);
      Shrink(s, n, readOnly) == (WithNext(s.(tables := t, pageFree := free), readOnly, lo), lo)
  {
    hide FreePages;
    var lo := Seg(s, readOnly).next - n * PAGE_SIZE;
    Quotient(lo, U64, 0, lo);
  }

  lemma PlacedAfter(s: Space, at: map<Path, Pfn>, n: nat, readOnly: bool, s': Space, at': map<Path, Pfn>)
    requires Layout(s) && Placed(s, at) && n * PAGE_SIZE <= Seg(s, readOnly).next - Seg(s, readOnly).start
    requires var lo := Seg(s, readOnly).next - n * PAGE_SIZE;
      && s' == WithNext(s, readOnly, lo).(tables := s'.tables, pageFree := s'.pageFree)
      && at' == Without(at, lo, Seg(s, readOnly).next)
    requires forall p :: p in at' && p != [] ==> Entry(s'.tables, at', p) == Entry(s.tables, at, p)
    ensures Placed(s', at')
  {
    hide Entry, Writable, PageAddr;
    forall p | p in at' && |p| == LEVELS
      ensures InPlace(s', PageAddr(p), Writable(Entry(s'.tables, at', p)))
    {
      assert InPlace(s, PageAddr(p), Writable(Entry(s.tables, at, p)));
    }
  }

  lemma PagesAfter(t: Tables, t': Tables, at: map<Path, Pfn>, lo: int, hi: int)
    requires var at' := Without(at, lo, hi);
      forall p :: p in at' && p != [] ==> Entry(t', at', p) == Entry(t, at, p)
    ensures Pages(t', Without(at, lo, hi)) == Below(Pages(t, at), lo, hi)
  {
    hide Entry, Writable, PageAddr;
  }

  lemma ShrinkKeeps(s: Space, at: map<Path, Pfn>, n: nat, readOnly: bool)
    requires Good(s, at) && n * PAGE_SIZE <= Seg(s, readOnly).next - Seg(s, readOnly).start
    ensures var (s', r) := Shrink(s, n, readOnly);
      var g := Seg(s, readOnly);
      var at' := Without(at, g.next - n * PAGE_SIZE, g.next);
      && Good(s', at')
      && (View(s', at'), r) == Meaning(View(s, at), Give(n, readOnly))
      && GivenBack(s.tables, s'.tables, s.root, at, at', s.tableFree, s.pageFree, s'.pageFree)
  {
    hide Tree, Pools, Entry, Writable, PageFrames, TableFrames, SetOf, FreePages, Without, Pages, Shrink, PageAddr,
      Layout, Placed, Below;
    var g := Seg(s, readOnly);
    var lo := g.next - n * PAGE_SIZE;
    var (s', r) := Shrink(s, n, readOnly);
    var at' := Without(at, lo, g.next);
    InBounds(s, readOnly);
    ShrinkIs(s, n, readOnly);
    FreePagesKeeps(s.tables, s.root, at, s.tableFree, s.pageFree, g.next, n);
    LayoutAfter(s, n, readOnly);
    LayoutSame(WithNext(s, readOnly, lo), s');
    PlacedAfter(s, at, n, readOnly, s', at');
    PagesAfter(s.tables, s'.tables, at, lo, g.next);
  }

  lemma InBounds(s: Space, readOnly: bool)
    requires Layout(s)
    ensures var g := Seg(s, readOnly);
      0 < g.start <= g.next <= g.end <= ADDRESS_END && g.next % PAGE_SIZE == 0
  {
  }

  lemma LayoutSame(s: Space, s': Space)
    requires Layout(s) && s'.data == s.data && s'.rodata == s.rodata && s'.stack == s.stack
    ensures Layout(s')
  {
  }

  /** Shrink does what is asked of it exactly when the segment has the pages to
      give, or the wrapped difference falls short of the segment. */
  lemma ShrinkRightIff(s: Space, at: map<Path, Pfn>, n: nat, readOnly: bool)
    requires Good(s, at)
    ensures var (s', r) := Shrink(s, n, readOnly);
      var g := Seg(s, readOnly);
      var fits := n * PAGE_SIZE <= g.next - g.start;
      var at' := if fits then Without(at, g.next - n * PAGE_SIZE, g.next) else at;
      ((View(s', at'), r) == Meaning(View(s, at), Give(n, readOnly)) <==> GiveSound(g, n))
  {
    hide Tree, Pools, Placed, Pages, FreePages, Without, Below, GivenBack;
    if n * PAGE_SIZE <= Seg(s, readOnly).next - Seg(s, readOnly).start {
      hide Shrink, Layout;
      ShrinkKeeps(s, at, n, readOnly);
    }
  }

  /** Asked for 2^52 pages, Shrink does not refuse. */
  lemma ShrinkWraps(s: Space, readOnly: bool)
    requires Layout(s)
    ensures Shrink(s, 0x10_0000_0000_0000, readOnly).1 == Seg(s, readOnly).next
    ensures !GiveSound(Seg(s, readOnly), 0x10_0000_0000_0000)
  {
    hide FreePages;
    var g := Seg(s, readOnly);
    Quotient(g.next, U64, 0, g.next);
    ModShift(g.next, -1);
  }

  // ---------- a page on demand ----------

  /** What the handler needs: the fault is on a page that is not there, and the
      allocator has frames. */
  ghost predicate Ready(s: Space, at: map<Path, Pfn>, va: nat, err: nat) {
    Grant(View(s, at), va, err).Some? ==> PathOf(va) !in at && |s.tableFree| >= 3 && |s.pageFree| >= 1
  }

  ghost function Touched(s: Space, at: map<Path, Pfn>, va: nat): map<Path, Pfn> {
    WithTables(at, s.tableFree, PathOf(va))[PathOf(va) := FirstFree(s.pageFree)]
  }

  lemma PoolsExtend(at: map<Path, Pfn>, tableFree: seq<Pfn>, pageFree: seq<Pfn>, p: Path, tableFree': seq<Pfn>)
    requires Pools(at, tableFree, pageFree) && |tableFree| >= 3 && |pageFree| >= 1 && |p| == LEVELS && p !in at
    requires forall f :: f in tableFree' ==> f in tableFree
    requires Pool(WithTables(at, tableFree, p)[p := pageFree[0]], tableFree')
    ensures Pools(WithTables(at, tableFree, p)[p := pageFree[0]], tableFree', pageFree[1..])
  {
    hide WithTables, Pool;
    var at' := WithTables(at, tableFree, p)[p := pageFree[0]];
    forall q | q in at' ensures 0 < at'[q] < PFN_LIMIT && at'[q] !in pageFree[1..] {
      ExtendedEntry(at, tableFree, pageFree, p, q);
    }
    PoolRest(at, pageFree, at');
  }

  lemma ExtendedEntry(at: map<Path, Pfn>, tableFree: seq<Pfn>, pageFree: seq<Pfn>, p: Path, q: Path)
    requires Pools(at, tableFree, pageFree) && |tableFree| >= 3 && |pageFree| >= 1 && |p| == LEVELS
    requires q in WithTables(at, tableFree, p)[p := pageFree[0]]
    ensures var v := WithTables(at, tableFree, p)[p := pageFree[0]][q]; 0 < v < PFN_LIMIT && v !in pageFree[1..]
  {
    hide WithTables;
    WithTablesKeeps(at, tableFree, p);
    if q != p && q !in at {
      assert WithTables(at, tableFree, p)[q] in tableFree;
    }
  }

  lemma PoolRest(at: map<Path, Pfn>, free: seq<Pfn>, at': map<Path, Pfn>)
    requires Pool(at, free) && |free| >= 1 && forall q :: q in at' ==> at'[q] !in free[1..]
    ensures Pool(at', free[1..])
  {
  }

  /** Which branch takes a fault does not depend on the order they are tried in. */
  lemma ServingGrants(s: Space, at: map<Path, Pfn>, va: nat, err: nat)
    ensures Grant(View(s, at), va, err) ==
      (match Serving(s, va, err) case Some(g) => Some(g.write) case None => None)
  {
    hide Pages;
  }

  lemma ServedInside(s: Space, va: nat, err: nat)
    requires Layout(s) && Serving(s, va, err).Some?
    ensures va < ADDRESS_END
    ensures InPlace(s, va / PAGE_SIZE * PAGE_SIZE, Serving(s, va, err).value.write)
  {
    var a := va / PAGE_SIZE * PAGE_SIZE;
    PageIn(s.data, va);
    PageIn(s.rodata, va);
    PageIn(s.stack, va);
  }

  /** A page lies inside an aligned range exactly when any of its addresses does. */
  lemma PageIn(g: Segment, va: nat)
    requires Aligned(g)
    ensures var a := va / PAGE_SIZE * PAGE_SIZE;
      && (g.start <= a <==> g.start <= va) && (a < g.end <==> va < g.end) && (a < g.next <==> va < g.next)
  {
    RoundDown(g.start, va);
    RoundDown(g.end, va);
    RoundDown(g.next, va);
  }

  lemma RoundDown(b: nat, va: nat)
    requires b % PAGE_SIZE == 0
    ensures b <= va / PAGE_SIZE * PAGE_SIZE <==> b <= va
  {
  }

  lemma PlacedTouch(s: Space, at: map<Path, Pfn>, t': Tables, at': map<Path, Pfn>, va: nat, write: bool, page: Pfn)
    requires Placed(s, at) && va < ADDRESS_END && InPlace(s, va / PAGE_SIZE * PAGE_SIZE, write)
    requires Extended(s.tables, t', s.root, at, at', PathOf(va), write, page)
    ensures Placed(s.(tables := t'), at')
  {
    PathPage(va);
    hide Entry, Writable, PageAddr, PathOf, Tree;
    forall p | p in at' && |p| == LEVELS
      ensures InPlace(s.(tables := t'), PageAddr(p), Writable(Entry(t', at', p)))
    {
      if p == PathOf(va) {
        InPlaceSame(s, s.(tables := t'), PageAddr(p), write);
      } else {
        var w := Writable(Entry(s.tables, at, p));
        assert InPlace(s, PageAddr(p), w);
        InPlaceSame(s, s.(tables := t'), PageAddr(p), w);
      }
      hide InPlace;
    }
  }

  lemma InPlaceSame(s: Space, s': Space, addr: int, write: bool)
    requires InPlace(s, addr, write) && s'.data == s.data && s'.rodata == s.rodata && s'.stack == s.stack
    ensures InPlace(s', addr, write)
  {
  }

  lemma PagesTouch(t: Tables, t': Tables, root: Pfn, at: map<Path, Pfn>, at': map<Path, Pfn>, p: Path, write: bool,
      page: Pfn)
    requires |p| == LEVELS && Extended(t, t', root, at, at', p, write, page)
    ensures Pages(t', at') == Pages(t, at)[p := write]
  {
    hide Entry, Writable, Tree;
  }

  /** A fault the handler takes adds its page, and that page alone. */
  lemma TouchKeeps(s: Space, at: map<Path, Pfn>, va: nat, err: nat)
    requires Good(s, at) && Ready(s, at, va, err) && Serving(s, va, err).Some?
    ensures var g := Serving(s, va, err).value;
      var (s', at') := (MapPage(s, va, g.write), Touched(s, at, va));
      && Good(s', at')
      && Extended(s.tables, s'.tables, s.root, at, at', PathOf(va), g.write, s.pageFree[0])
      && Pages(s'.tables, at') == Pages(s.tables, at)[PathOf(va) := g.write]
      && s'.tableFree == FreeWith(at, s.tableFree, PathOf(va))
  {
    var (g, p, page) := (Serving(s, va, err).value, PathOf(va), s.pageFree[0]);
    ServedInside(s, va, err);
    assert Unclaimed(at, s.tableFree, page);
    hide Tree, Pages, Entry, Writable, PathOf, Serving, InPlace, Placed, StepDowns, WithTables, FreeWith, Aligned,
      Apart, Pool;
    ExtendKeeps(s.tables, s.root, at, s.tableFree, p, g.write, page);
    FreeShrinks(s.tables, s.root, s.tableFree, p, g.write);
    var (t', tableFree') := Extend(s.tables, s.root, s.tableFree, p, g.write, page);
    PoolsExtend(at, s.tableFree, s.pageFree, p, tableFree');
    PlacedTouch(s, at, t', Touched(s, at, va), va, g.write, page);
    PagesTouch(s.tables, t', s.root, at, Touched(s, at, va), p, g.write, page);
    PlacedSame(s.(tables := t'), MapPage(s, va, g.write), Touched(s, at, va));
  }

  lemma PlacedSame(s: Space, s': Space, at: map<Path, Pfn>)
    requires Placed(s, at) && s'.tables == s.tables
    requires s'.data == s.data && s'.rodata == s.rodata && s'.stack == s.stack
    ensures Placed(s', at)
  {
    hide Entry, Writable, PageAddr;
    forall p | p in at && |p| == LEVELS
      ensures InPlace(s', PageAddr(p), Writable(Entry(s'.tables, at, p)))
    {
      assert InPlace(s, PageAddr(p), Writable(Entry(s.tables, at, p)));
    }
  }

  // ---------- one request, and a whole run ----------

  ghost predicate Legal(s: Space, at: map<Path, Pfn>, op: Op) {
    match op
    case Touch(va, err) => Ready(s, at, va, err)
    case Grow(n, ro) => GrowSound(Seg(s, ro), n)
    case Give(n, ro) => GiveSound(Seg(s, ro), n)
  }

  ghost function AtAfter(s: Space, at: map<Path, Pfn>, op: Op): map<Path, Pfn> {
    match op
    case Touch(va, err) => if Grant(View(s, at), va, err).Some? then Touched(s, at, va) else at
    case Grow(n, ro) => at
    case Give(n, ro) =>
      var g := Seg(s, ro);
      if n * PAGE_SIZE <= g.next - g.start then Without(at, g.next - n * PAGE_SIZE, g.next) else at
  }

  /** No frame is lost or made. */
  ghost predicate Conserved(s: Space, at: map<Path, Pfn>, s': Space, at': map<Path, Pfn>) {
    && PageFrames(at') + SetOf(s'.pageFree) == PageFrames(at) + SetOf(s.pageFree)
    && TableFrames(at') + SetOf(s'.tableFree) == TableFrames(at) + SetOf(s.tableFree)
  }

  lemma TouchConserves(s: Space, at: map<Path, Pfn>, va: nat)
    requires |s.tableFree| >= 3 && |s.pageFree| >= 1 && PathOf(va) !in at
    ensures var at' := Touched(s, at, va);
      && PageFrames(at') + SetOf(s.pageFree[1..]) == PageFrames(at) + SetOf(s.pageFree)
      && TableFrames(at') + SetOf(FreeWith(at, s.tableFree, PathOf(va))) == TableFrames(at) + SetOf(s.tableFree)
  {
    hide PageFrames, TableFrames, WithTables, FreeWith, PathOf;
    ExtendConserves(at, s.tableFree, PathOf(va), s.pageFree[0]);
    var rest := s.pageFree[1..];
    assert s.pageFree == [s.pageFree[0]] + rest;
    assert SetOf(s.pageFree) == {s.pageFree[0]} + SetOf(rest);
  }

  lemma TouchMeets(s: Space, at: map<Path, Pfn>, va: nat, err: nat)
    requires Good(s, at) && Ready(s, at, va, err)
    ensures var ((s', r), at') := (Act(s, Touch(va, err)), AtAfter(s, at, Touch(va, err)));
      && Good(s', at') && (View(s', at'), r) == Meaning(View(s, at), Touch(va, err))
      && Conserved(s, at, s', at')
  {
    ServingGrants(s, at, va, err);
    hide Good, Touched, Extended, PageFrames, TableFrames, Pages, Extend, FreeWith, PathOf, Serving, Grant;
    if Serving(s, va, err).Some? {
      TouchKeeps(s, at, va, err);
      hide Good, Serving;
      TouchConserves(s, at, va);
    }
  }

  lemma GrowMeets(s: Space, at: map<Path, Pfn>, n: nat, readOnly: bool)
    requires Good(s, at) && GrowSound(Seg(s, readOnly), n)
    ensures var (s', r) := Expand(s, n, readOnly);
      && Good(s', at) && (View(s', at), r) == Meaning(View(s, at), Grow(n, readOnly))
      && Conserved(s, at, s', at)
  {
    ExpandRightIff(s, at, n, readOnly);
    ExpandIs(s, n, readOnly);
    hide Expand, Tree, Pools, PageFrames, TableFrames, Pages, Layout, Placed;
    var g := Seg(s, readOnly);
    if g.next + n * PAGE_SIZE <= g.end {
      GrowLayout(s, n, readOnly);
      GrowPlaced(s, at, n, readOnly);
    }
  }

  lemma ExpandIs(s: Space, n: nat, readOnly: bool)
    requires Layout(s) && GrowSound(Seg(s, readOnly), n)
    ensures var (g, size) := (Seg(s, readOnly), n * PAGE_SIZE);
      Expand(s, n, readOnly) ==
        if g.next + size <= g.end then (WithNext(s, readOnly, g.next + size), g.next) else (s, 0)
  {
    var g := Seg(s, readOnly);
    ModAdd(g.next, n * PAGE_SIZE);
    if g.next + n * PAGE_SIZE <= g.end {
      Quotient(g.next + n * PAGE_SIZE, U64, 0, g.next + n * PAGE_SIZE);
    }
  }

  lemma GrowLayout(s: Space, n: nat, readOnly: bool)
    requires Layout(s) && Seg(s, readOnly).next + n * PAGE_SIZE <= Seg(s, readOnly).end
    ensures Layout(WithNext(s, readOnly, Seg(s, readOnly).next + n * PAGE_SIZE))
  {
    var g := Seg(s, readOnly);
    Quotient(g.next + n * PAGE_SIZE, PAGE_SIZE, g.next / PAGE_SIZE + n, 0);
  }

  lemma GrowPlaced(s: Space, at: map<Path, Pfn>, n: nat, readOnly: bool)
    requires Placed(s, at) && Seg(s, readOnly).next + n * PAGE_SIZE <= Seg(s, readOnly).end
    ensures Placed(WithNext(s, readOnly, Seg(s, readOnly).next + n * PAGE_SIZE), at)
  {
    hide Entry, Writable, PageAddr;
    var s' := WithNext(s, readOnly, Seg(s, readOnly).next + n * PAGE_SIZE);
    forall p | p in at && |p| == LEVELS
      ensures InPlace(s', PageAddr(p), Writable(Entry(s'.tables, at, p)))
    {
      assert InPlace(s, PageAddr(p), Writable(Entry(s.tables, at, p)));
    }
  }

  lemma GiveMeets(s: Space, at: map<Path, Pfn>, n: nat, readOnly: bool)
    requires Good(s, at) && GiveSound(Seg(s, readOnly), n)
    ensures var ((s', r), at') := (Shrink(s, n, readOnly), AtAfter(s, at, Give(n, readOnly)));
      && Good(s', at') && (View(s', at'), r) == Meaning(View(s, at), Give(n, readOnly))
      && Conserved(s, at, s', at')
  {
    hide Good, PageFrames, TableFrames, Pages, Without, FreePages, Below, Tree, Pools;
    var g := Seg(s, readOnly);
    if n * PAGE_SIZE <= g.next - g.start {
      ShrinkKeeps(s, at, n, readOnly);
      ShrinkTables(s, n, readOnly);
    }
  }

  lemma ShrinkTables(s: Space, n: nat, readOnly: bool)
    ensures Shrink(s, n, readOnly).0.tableFree == s.tableFree
  {
    hide FreePages;
  }

  /** A place that is there before and after leads to the same frame. */
  ghost predicate FramesStay(at: map<Path, Pfn>, at': map<Path, Pfn>) {
    forall p :: p in at && p in at' ==> at'[p] == at[p]
  }

  lemma StepStays(s: Space, at: map<Path, Pfn>, op: Op)
    requires Good(s, at) && Legal(s, at, op)
    ensures FramesStay(at, AtAfter(s, at, op))
  {
    hide Tree, Entry, Writable, Grant, View, Layout, Placed, PageAddr, WithTables, PathOf, Pools;
    if op.Touch? && Grant(View(s, at), op.va, op.err).Some? {
      WithTablesKeeps(at, s.tableFree, PathOf(op.va));
    }
  }

  /** One request: the space stays well kept, what the caller sees changes as the
      request means, every frame is accounted for, and a page that stays mapped
      keeps its frame. */
  lemma StepMeets(s: Space, at: map<Path, Pfn>, op: Op)
    requires Good(s, at) && Legal(s, at, op)
    ensures var ((s', r), at') := (Act(s, op), AtAfter(s, at, op));
      && Good(s', at') && (View(s', at'), r) == Meaning(View(s, at), op)
      && Conserved(s, at, s', at') && FramesStay(at, at')
  {
    StepStays(s, at, op);
    hide Good, View, Conserved, Expand, Shrink, FramesStay;
    match op
    case Touch(va, err) => TouchMeets(s, at, va, err);
    case Grow(n, ro) => GrowMeets(s, at, n, ro);
    case Give(n, ro) => GiveMeets(s, at, n, ro);
  }

  function Run(s: Space, ops: seq<Op>): (Space, seq<int>)
    decreases |ops|
  {
    if |ops| == 0 then (s, [])
    else
      var (s1, r) := Act(s, ops[0]);
      var (s2, rs) := Run(s1, ops[1..]);
      (s2, [r] + rs)
  }

  ghost predicate RunLegal(s: Space, at: map<Path, Pfn>, ops: seq<Op>)
    decreases |ops|
  {
    |ops| == 0 || (Legal(s, at, ops[0]) && RunLegal(Act(s, ops[0]).0, AtAfter(s, at, ops[0]), ops[1..]))
  }

  ghost function AtEnd(s: Space, at: map<Path, Pfn>, ops: seq<Op>): map<Path, Pfn>
    decreases |ops|
  {
    if |ops| == 0 then at else AtEnd(Act(s, ops[0]).0, AtAfter(s, at, ops[0]), ops[1..])
  }

  ghost predicate FullPaths(v: Picture) {
    forall p :: p in v.pages ==> |p| == LEVELS
  }

  ghost function RunMeaning(v: Picture, ops: seq<Op>): (Picture, seq<int>)
    requires FullPaths(v)
    decreases |ops|
  {
    if |ops| == 0 then (v, [])
    else
      var (v1, r) := Meaning(v, ops[0]);
      var (v2, rs) := RunMeaning(v1, ops[1..]);
      (v2, [r] + rs)
  }

  /** Over every run of faults, expands and shrinks: the answers and the pages are
      those of the plain meaning, the tables stay a tree, every page of a growable
      segment is below its next address, and frames are neither lost nor made. */
  lemma {:induction false} RunMeets(s: Space, at: map<Path, Pfn>, ops: seq<Op>)
    requires Good(s, at) && RunLegal(s, at, ops)
    ensures FullPaths(View(s, at))
    ensures var ((s', rs), at') := (Run(s, ops), AtEnd(s, at, ops));
      && Good(s', at') && (View(s', at'), rs) == RunMeaning(View(s, at), ops)
      && Conserved(s, at, s', at')
    decreases |ops|
  {
    ViewFull(s, at);
    hide Good, View, Meaning, AtAfter, Act, Legal, FullPaths, PageFrames, TableFrames, SetOf;
    if |ops| > 0 {
      StepMeets(s, at, ops[0]);
      var ((s1, r), at1) := (Act(s, ops[0]), AtAfter(s, at, ops[0]));
      RunMeets(s1, at1, ops[1..]);
    }
  }

  lemma ViewFull(s: Space, at: map<Path, Pfn>)
    ensures FullPaths(View(s, at))
  {
  }

  // ---------- counting ----------

  lemma {:induction false} SetOfSize(free: seq<Pfn>)
    requires forall j, k :: 0 <= j < k < |free| ==> free[j] != free[k]
    ensures |SetOf(free)| == |free|
  {
    if |free| > 0 {
      SetOfSize(free[1..]);
      assert free == [free[0]] + free[1..];
      assert SetOf(free) == {free[0]} + SetOf(free[1..]);
      assert free[0] !in SetOf(free[1..]);
    }
  }

  ghost function Image(keys: set<Path>, at: map<Path, Pfn>): set<Pfn>
    requires keys <= at.Keys
  {
    set q | q in keys :: at[q]
  }

  lemma {:induction false} ImageSize(keys: set<Path>, at: map<Path, Pfn>)
    requires keys <= at.Keys && Separate(at)
    ensures |Image(keys, at)| == |keys|
    decreases |keys|
  {
    if keys != {} {
      var q: Path :| q in keys;
      ImageSize(keys - {q}, at);
      assert Image(keys, at) == Image(keys - {q}, at) + {at[q]};
      assert at[q] !in Image(keys - {q}, at);
    }
  }

  /** The user frames out are as many as the pages mapped. */
  lemma FramesCounted(s: Space, at: map<Path, Pfn>)
    requires Good(s, at)
    ensures |PageFrames(at) + SetOf(s.pageFree)| == |View(s, at).pages| + |s.pageFree|
  {
    var keys := set q | q in at && |q| == LEVELS;
    ImageSize(keys, at);
    assert PageFrames(at) == Image(keys, at);
    assert View(s, at).pages.Keys == keys;
    SetOfSize(s.pageFree);
    assert PageFrames(at) !! SetOf(s.pageFree);
  }

  /** Over every run the free user frames and the mapped pages add up to the same number. */
  lemma OutstandingIsMapped(s: Space, at: map<Path, Pfn>, ops: seq<Op>)
    requires Good(s, at) && RunLegal(s, at, ops)
    ensures var (s', at') := (Run(s, ops).0, AtEnd(s, at, ops));
      |s'.pageFree| + |View(s', at').pages| == |s.pageFree| + |View(s, at).pages|
  {
    RunMeets(s, at, ops);
    var (s', at') := (Run(s, ops).0, AtEnd(s, at, ops));
    hide Good, View, PageFrames, TableFrames, SetOf, Run, AtEnd, RunLegal;
    FramesCounted(s, at);
    FramesCounted(s', at');
  }

  /** Where runs may start: a cleared top table, and nothing mapped. */
  lemma EmptySpaceGood(s: Space)
    requires s.root in s.tables && s.tables[s.root] == ZeroTable() && Layout(s)
    requires Pools(map[[] := s.root], s.tableFree, s.pageFree)
    ensures Good(s, map[[] := s.root]) && View(s, map[[] := s.root]).pages == map[]
  {
    LoneRoot(s.tables, s.root);
    hide Tree, Pools, Layout, Entry, Writable, PageAddr;
  }

  // ---------- a handled fault, seen by the walk ----------

  /** The handler goes on exactly when the page was not there and the address is in
      what the data segment has handed out, or, for a read, in what the read-only one
      has, or anywhere in the stack. Then the touched page leads to a frame that was
      free, with that segment's right, and every other page leads where it did, with
      the right it had. */
  lemma FaultRightIff(s: Space, at: map<Path, Pfn>, va: nat, err: nat, other: nat)
    requires Good(s, at) && Ready(s, at, va, err) && other < ADDRESS_END
    ensures var (s', goesOn) := Fault(s, va, err);
      var inData := s.data.start <= va < s.data.next;
      var inRodata := s.rodata.start <= va < s.rodata.next;
      var inStack := s.stack.start <= va < s.stack.end;
      && (goesOn <==> err % 2 == 0 && (inData || (inRodata && err / 2 % 2 == 0) || inStack))
      && (!goesOn ==> s' == s)
      && (goesOn ==>
            var write := if inData then s.data.write else if inRodata then s.rodata.write else s.stack.write;
            var (t, t', q) := (s.tables, s'.tables, PathOf(other));
            && |s.pageFree| > 0 && s'.pageFree == s.pageFree[1..]
            && (other / PAGE_SIZE == va / PAGE_SIZE ==>
                 && Descend(t', s.root, q) == Some(s.pageFree[0])
                 && UserAllowed(t', s.root, q) && (WriteAllowed(t', s.root, q) <==> write))
            && (other / PAGE_SIZE != va / PAGE_SIZE ==>
                 && Descend(t', s.root, q) == Descend(t, s.root, q)
                 && (Descend(t, s.root, q).Some? ==>
                       (WriteAllowed(t', s.root, q) <==> WriteAllowed(t, s.root, q)))))
  {
    hide Good, Descend, WriteAllowed, UserAllowed, MapPage, PathOf, Touched, Pages;
    ServedIn(s, at, va, err);
    if Serving(s, va, err).Some? {
      FaultAddsOne(s, at, va, err, other);
      MappedSpends(s, va, Serving(s, va, err).value.write);
    }
  }

  lemma ServedIn(s: Space, at: map<Path, Pfn>, va: nat, err: nat)
    requires Good(s, at)
    ensures var inData := s.data.start <= va < s.data.next;
      var inRodata := s.rodata.start <= va < s.rodata.next;
      var inStack := s.stack.start <= va < s.stack.end;
      && (Serving(s, va, err).Some? <==> err % 2 == 0 && (inData || (inRodata && err / 2 % 2 == 0) || inStack))
      && (Serving(s, va, err).Some? ==>
            Serving(s, va, err).value.write ==
              if inData then s.data.write else if inRodata then s.rodata.write else s.stack.write)
  {
    hide Tree, Pools, Placed;
  }

  lemma MappedSpends(s: Space, va: nat, write: bool)
    requires |s.pageFree| > 0
    ensures MapPage(s, va, write).pageFree == s.pageFree[1..]
  {
    hide Extend, PathOf;
  }

  lemma FaultAddsOne(s: Space, at: map<Path, Pfn>, va: nat, err: nat, other: nat)
    requires Good(s, at) && Ready(s, at, va, err) && Serving(s, va, err).Some? && other < ADDRESS_END
    ensures var (s', g) := (Fault(s, va, err).0, Serving(s, va, err).value);
      var (t, t', q) := (s.tables, s'.tables, PathOf(other));
      && |s.pageFree| > 0
      && (other / PAGE_SIZE == va / PAGE_SIZE ==>
           && Descend(t', s.root, q) == Some(s.pageFree[0])
           && UserAllowed(t', s.root, q) && (WriteAllowed(t', s.root, q) <==> g.write))
      && (other / PAGE_SIZE != va / PAGE_SIZE ==>
           && Descend(t', s.root, q) == Descend(t, s.root, q)
           && (Descend(t, s.root, q).Some? ==> (WriteAllowed(t', s.root, q) <==> WriteAllowed(t, s.root, q))))
  {
    hide Tree, Touched, MapPage, PathOf, Pages, Placed, Layout, Pools, Descend, WriteAllowed, UserAllowed, Extended,
      InPlace;
    ServedReady(s, at, va, err);
    var (p, q, g) := (PathOf(va), PathOf(other), Serving(s, va, err).value);
    SamePathSamePage(va, other);
    TouchKeeps(s, at, va, err);
    var (s', at') := (MapPage(s, va, g.write), Touched(s, at, va));
    TouchedThere(s, at, va);
    OneTranslationMore(s.tables, s'.tables, s.root, at, at', p, g.write, s.pageFree[0], q);
    WalkFinds(s.tables, s.root, at, q);
  }

  lemma ServedReady(s: Space, at: map<Path, Pfn>, va: nat, err: nat)
    requires Good(s, at) && Ready(s, at, va, err) && Serving(s, va, err).Some?
    ensures va < ADDRESS_END && |s.tableFree| >= 3 && |s.pageFree| >= 1 && PathOf(va) !in at
    ensures Tree(s.tables, s.root, at)
  {
    hide Tree, Pools, Placed, PathOf, InPlace;
    ServingGrants(s, at, va, err);
    ServedInside(s, va, err);
  }

  lemma TouchedThere(s: Space, at: map<Path, Pfn>, va: nat)
    requires |s.pageFree| >= 1
    ensures PathOf(va) in Touched(s, at, va) && Touched(s, at, va)[PathOf(va)] == s.pageFree[0]
  {
    hide PathOf, WithTables;
  }

  // ---------- the two checks before a write to the console ----------

  predicate Mapped(s: Space, va: nat) {
    Descend(s.tables, s.root, PathOf(va)).Some?
  }

  /** The walk finds a page at an address exactly when one of the tree's pages has it. */
  lemma MappedIff(s: Space, at: map<Path, Pfn>, va: nat)
    requires Good(s, at) && va < ADDRESS_END
    ensures Mapped(s, va) <==>
      exists p :: p in at && |p| == LEVELS && PageAddr(p) <= va < PageAddr(p) + PAGE_SIZE
  {
    hide Pools, Layout, Placed, PathOf, PageAddr, Descend, ValidPath;
    WalkFinds(s.tables, s.root, at, PathOf(va));
    PathPage(va);
    TreeRooted(s.tables, s.root, at);
    hide Tree;
    if p: Path :| p in at && |p| == LEVELS && PageAddr(p) <= va < PageAddr(p) + PAGE_SIZE {
      PagePath(p);
      Quotient(PageAddr(p), PAGE_SIZE, PageAddr(p) / PAGE_SIZE, 0);
      Quotient(va, PAGE_SIZE, PageAddr(p) / PAGE_SIZE, va - PageAddr(p));
      SamePathSamePage(va, PageAddr(p));
    }
  }

  /** -1, or the number of bytes printed. */
  function Write(s: Space, buf: nat, n: nat): int {
    if n > 1024 then -1
    else if !Mapped(s, buf) || !Mapped(s, (buf + n - 1) % U64) then -1
    else n
  }

  lemma PageMod(x: nat)
    ensures x % U64 / PAGE_SIZE == x / PAGE_SIZE % 0x10_0000_0000_0000
  {
    var (q, r) := (x / U64, x % U64);
    Quotient(x, PAGE_SIZE, q * 0x10_0000_0000_0000 + r / PAGE_SIZE, r % PAGE_SIZE);
    Quotient(x / PAGE_SIZE, 0x10_0000_0000_0000, q, r / PAGE_SIZE);
  }

  lemma PageFixesPath(a: nat, b: nat)
    requires a / PAGE_SIZE == b / PAGE_SIZE
    ensures PathOf(a) == PathOf(b)
  {
    PageDigits(a);
    PageDigits(b);
  }

  /** A byte of a buffer of at most a page is on the first byte's page or the last's. */
  lemma EitherEnd(buf: nat, n: nat, i: nat)
    requires 1 <= n <= 1024 && i < n && buf < U64
    ensures PathOf((buf + i) % U64) == PathOf(buf) || PathOf((buf + i) % U64) == PathOf((buf + n - 1) % U64)
  {
    PageMod(buf);
    PageMod(buf + i);
    PageMod(buf + n - 1);
    Quotient(buf, U64, 0, buf);
    hide PathOf;
    assert (buf + i) / PAGE_SIZE == buf / PAGE_SIZE || (buf + i) / PAGE_SIZE == (buf + n - 1) / PAGE_SIZE;
    if (buf + i) / PAGE_SIZE == buf / PAGE_SIZE {
      PageFixesPath((buf + i) % U64, buf);
    } else {
      PageFixesPath((buf + i) % U64, (buf + n - 1) % U64);
    }
  }

  /** Byte i of the buffer, in 64-bit arithmetic, is in a mapped page. */
  predicate ByteMapped(s: Space, buf: nat, i: nat) {
    Mapped(s, (buf + i) % U64)
  }

  /** Checking the two ends is checking every byte. */
  lemma WriteChecksAll(s: Space, buf: nat, n: nat)
    requires 1 <= n && buf < U64
    ensures Write(s, buf, n) == if n <= 1024 && (forall i: nat :: i < n ==> ByteMapped(s, buf, i)) then n else -1
  {
    hide Descend, PathOf;
    if n <= 1024 {
      Quotient(buf, U64, 0, buf);
      assert ByteMapped(s, buf, 0) == Mapped(s, buf);
      assert ByteMapped(s, buf, n - 1) == Mapped(s, (buf + n - 1) % U64);
      forall i: nat | i < n && Mapped(s, buf) && Mapped(s, (buf + n - 1) % U64) ensures ByteMapped(s, buf, i) {
        EitherEnd(buf, n, i);
      }
    }
  }

  /** A zero-length write is accepted exactly when the buffer's address and the one
      before it are mapped, though it has no byte at either. */
  lemma EmptyWriteIff(s: Space, buf: nat)
    requires buf < U64
    ensures Write(s, buf, 0) == 0 <==> Mapped(s, buf) && Mapped(s, (buf - 1) % U64)
    ensures Write(s, buf, 0) == 0 || Write(s, buf, 0) == -1
  {
    hide Descend, PathOf;
    assert buf + 0 - 1 == buf - 1;
  }

  /** So it is refused at the foot of a mapped page with none below. */
  lemma EmptyWriteRefused(s: Space, at: map<Path, Pfn>)
    requires Good(s, at) && PathOf(s.data.start) in at && PathOf(s.data.start - 1) !in at
    ensures Mapped(s, s.data.start) && Write(s, s.data.start, 0) == -1
  {
    hide PathOf, Descend, Tree, Pools, Placed;
    Quotient(s.data.start - 1, U64, 0, s.data.start - 1);
    WalkFinds(s.tables, s.root, at, PathOf(s.data.start));
    WalkFinds(s.tables, s.root, at, PathOf(s.data.start - 1));
    EmptyWriteIff(s, s.data.start);
  }
}
