/** Four-level page tables held in physical frames (Intel SDM Volume 3A, section
    4.5): walking them, adding one translation, and taking one away. */
module PageTables {
  import opened Options

  const ENTRIES := 512
  const LEVELS := 4
  const PAGE_SIZE := 4096
  const U32 := 0x1_0000_0000
  const U64 := 0x1_0000_0000_0000_0000
  /** A frame number shifted left by 12 in 32-bit arithmetic keeps its value below this. */
  const PFN_LIMIT := 0x10_0000

  /** A u64. */
  type Address = va: int | 0 <= va < 0x1_0000_0000_0000_0000

  type Pfn = int
  type Path = seq<int>
  type Tables = map<int, seq<int>>

  // ---------- entries ----------

  predicate Present(e: int) {
    e % 2 == 1
  }

  predicate Writable(e: int) {
    e / 2 % 2 == 1
  }

  predicate User(e: int) {
    e / 4 % 2 == 1
  }

  /** The u32 that e >> 12 is stored in. */
  function Frame(e: int): Pfn {
    e / PAGE_SIZE % U32
  }

  function Flags(write: bool): int {
    if write then 7 else 5
  }

  /** A new entry: the frame shifted in u32, plus present, user and, if asked, write. */
  function NewEntry(f: Pfn, write: bool): int {
    f * PAGE_SIZE % U32 + Flags(write)
  }

  /** e | 5, or e | 7: the three low bits are replaced, the rest kept. */
  function WithFlags(e: int, write: bool): int {
    e / 8 * 8 + (if Writable(e) || write then 7 else 5)
  }

  lemma Quotient(a: int, d: int, q: int, r: int)
    requires d > 0 && a == q * d + r && 0 <= r < d
    ensures a / d == q && a % d == r
  {
    assert a == a / d * d + a % d;
    Grows(a / d + 1, q, d);
    Grows(q + 1, a / d, d);
  }

  lemma Grows(x: int, y: int, d: int)
    requires d > 0
    ensures x <= y ==> x * d <= y * d
  {
  }

  /** The low three bits of a word are its flags; the rest is its high part. */
  lemma LowBits(h: int, k: int)
    requires 0 <= k < 8
    ensures Present(h * 8 + k) == Present(k) && Writable(h * 8 + k) == Writable(k) && User(h * 8 + k) == User(k)
    ensures (h * 8 + k) / PAGE_SIZE == h / 512
  {
    var e := h * 8 + k;
    Quotient(e, 2, h * 4 + k / 2, k % 2);
    Quotient(e / 2, 2, h * 2 + k / 4, k / 2 % 2);
    Quotient(e, 4, h * 2 + k / 4, k % 4);
    Quotient(e / 4, 2, h, k / 4);
    Quotient(e, PAGE_SIZE, h / 512, h % 512 * 8 + k);
  }

  lemma NewEntryParts(f: Pfn, write: bool)
    requires 0 <= f < PFN_LIMIT
    ensures var e := NewEntry(f, write); Present(e) && User(e) && (Writable(e) <==> write) && Frame(e) == f
  {
    Quotient(f * PAGE_SIZE, U32, 0, f * PAGE_SIZE);
    LowBits(f * 512, Flags(write));
    Quotient(f * 512, 512, f, 0);
    Quotient(f, U32, 0, f);
    assert NewEntry(f, write) == f * 512 * 8 + Flags(write);
  }

  /** A new entry is the flags and, above the low twelve bits, the low twenty bits of
      the frame number: the frame itself exactly when the number has no more. */
  lemma NewEntryWord(f: Pfn, write: bool)
    requires 0 <= f < 0x1_0000_0000
    ensures NewEntry(f, write) % 4096 == if write then 7 else 5
    ensures NewEntry(f, write) / 4096 == f % 0x10_0000
    ensures Frame(NewEntry(f, write)) == f <==> f < 0x10_0000
  {
    var (q, r) := (f / 0x10_0000, f % 0x10_0000);
    Quotient(f * PAGE_SIZE, U32, q, r * PAGE_SIZE);
    Quotient(NewEntry(f, write), PAGE_SIZE, r, Flags(write));
    Quotient(r, U32, 0, r);
  }

  /** Of an entry that is there, only the three low bits may change. */
  lemma WithFlagsWord(e: int, write: bool)
    ensures WithFlags(e, write) / 8 == e / 8
    ensures WithFlags(e, write) % 8 == if write || e % 4 >= 2 then 7 else 5
  {
    LowBits(e / 8, e % 8);
    Quotient(WithFlags(e, write), 8, e / 8, if Writable(e) || write then 7 else 5);
    Quotient(e, 4, e / 8 * 2 + e % 8 / 4, e % 8 % 4);
  }

  lemma WithFlagsParts(e: int, write: bool)
    ensures var d := WithFlags(e, write);
      Present(d) && User(d) && (Writable(d) <==> Writable(e) || write) && Frame(d) == Frame(e)
  {
    LowBits(e / 8, if Writable(e) || write then 7 else 5);
    LowBits(e / 8, e % 8);
    assert e == e / 8 * 8 + e % 8;
    hide Writable;
  }

  // ---------- addresses ----------

  function Index(va: nat, level: int): int
    requires 1 <= level <= LEVELS
  {
    if level == 4 then va / 0x80_0000_0000 % ENTRIES
    else if level == 3 then va / 0x4000_0000 % ENTRIES
    else if level == 2 then va / 0x20_0000 % ENTRIES
    else va / 0x1000 % ENTRIES
  }

  function PathOf(va: nat): (p: Path)
    ensures |p| == LEVELS && ValidPath(p)
  {
    [Index(va, 4), Index(va, 3), Index(va, 2), Index(va, 1)]
  }

  predicate ValidPath(p: Path) {
    |p| <= LEVELS && forall k :: 0 <= k < |p| ==> 0 <= p[k] < ENTRIES
  }

  /** The number of the page an address is on: bits 12 to 47 of it. */
  function PageNo(va: nat): nat {
    va / PAGE_SIZE % 0x10_0000_0000
  }

  /** The four indices are the nine-bit digits of the page number, the highest first. */
  lemma PathDigits(va: nat)
    ensures var p := PathOf(va); PageNo(va) == ((p[0] * 512 + p[1]) * 512 + p[2]) * 512 + p[3]
  {
    PageDigits(va);
    var p := va / PAGE_SIZE;
    var (q, r, s) := (p / 512, p / 512 / 512, p / 512 / 512 / 512);
    var k := s / 512;
    assert p == 512 * q + p % 512 && q == 512 * r + q % 512 && r == 512 * s + r % 512 && s == 512 * k + s % 512;
    var low := (((s % 512) * 512 + r % 512) * 512 + q % 512) * 512 + p % 512;
    Quotient(p, 0x10_0000_0000, k, low);
  }

  /** Two addresses have the same path exactly when they have the same page number. */
  lemma SamePathIff(a: nat, b: nat)
    ensures PathOf(a) == PathOf(b) <==> PageNo(a) == PageNo(b)
  {
    PathDigits(a);
    PathDigits(b);
    hide PathOf, PageNo;
    var (p, q) := (PathOf(a), PathOf(b));
    if PageNo(a) == PageNo(b) {
      SameDigits(p, q);
      assert p == [p[0], p[1], p[2], p[3]] && q == [q[0], q[1], q[2], q[3]];
    }
  }

  lemma SameDigits(p: Path, q: Path)
    requires |p| == |q| == LEVELS && ValidPath(p) && ValidPath(q)
    requires ((p[0] * 512 + p[1]) * 512 + p[2]) * 512 + p[3] == ((q[0] * 512 + q[1]) * 512 + q[2]) * 512 + q[3]
    ensures p[0] == q[0] && p[1] == q[1] && p[2] == q[2] && p[3] == q[3]
  {
  }

  /** The top index is which 512 GB the page is in; the top three are which 2 MB. */
  lemma RegionsIff(a: nat, b: nat)
    ensures PathOf(a)[0] == PathOf(b)[0] <==> PageNo(a) / 0x800_0000 == PageNo(b) / 0x800_0000
    ensures PathOf(a)[..3] == PathOf(b)[..3] <==> PageNo(a) / 512 == PageNo(b) / 512
  {
    PathDigits(a);
    PathDigits(b);
    hide PathOf, PageNo;
    RegionOf(PathOf(a), PageNo(a));
    RegionOf(PathOf(b), PageNo(b));
    TopThree(PathOf(a), PathOf(b));
  }

  lemma RegionOf(p: Path, n: nat)
    requires |p| == LEVELS && ValidPath(p) && n == ((p[0] * 512 + p[1]) * 512 + p[2]) * 512 + p[3]
    ensures n / 0x800_0000 == p[0] && n / 512 == (p[0] * 512 + p[1]) * 512 + p[2]
  {
    Quotient(n, 512, (p[0] * 512 + p[1]) * 512 + p[2], p[3]);
    Quotient(n, 0x800_0000, p[0], (p[1] * 512 + p[2]) * 512 + p[3]);
  }

  lemma TopThree(p: Path, q: Path)
    requires |p| == |q| == LEVELS && ValidPath(p) && ValidPath(q)
    ensures p[..3] == q[..3] <==> (p[0] * 512 + p[1]) * 512 + p[2] == (q[0] * 512 + q[1]) * 512 + q[2]
  {
    if (p[0] * 512 + p[1]) * 512 + p[2] == (q[0] * 512 + q[1]) * 512 + q[2] {
      assert p[0] == q[0] && p[1] == q[1] && p[2] == q[2];
      assert p[..3] == [p[0], p[1], p[2]] && q[..3] == [q[0], q[1], q[2]];
    } else {
      assert p[..3][0] == p[0] && p[..3][1] == p[1] && p[..3][2] == p[2];
      assert q[..3][0] == q[0] && q[..3][1] == q[1] && q[..3][2] == q[2];
    }
  }

  /** Addresses below 2^48 have the same path exactly when they are on the same page. */
  lemma SamePathSamePage(a: nat, b: nat)
    requires a < 0x1_0000_0000_0000 && b < 0x1_0000_0000_0000
    ensures PathOf(a) == PathOf(b) <==> a / PAGE_SIZE == b / PAGE_SIZE
  {
    Digits(a);
    Digits(b);
    if a / PAGE_SIZE == b / PAGE_SIZE {
      PageDigits(a);
      PageDigits(b);
    }
  }

  lemma Digits(a: nat)
    requires a < 0x1_0000_0000_0000
    ensures a / PAGE_SIZE == ((Index(a, 4) * 512 + Index(a, 3)) * 512 + Index(a, 2)) * 512 + Index(a, 1)
  {
    PageDigits(a);
  }

  lemma PageDigits(a: nat)
    ensures var p := a / PAGE_SIZE;
      && Index(a, 1) == p % 512 && Index(a, 2) == p / 512 % 512
      && Index(a, 3) == p / 512 / 512 % 512 && Index(a, 4) == p / 512 / 512 / 512 % 512
  {
  }

  // ---------- walking ----------

  /** Follow a path of indices from a frame; None where an entry is not present. */
  function Descend(t: Tables, f: Pfn, p: Path): Option<Pfn>
    decreases |p|
  {
    if |p| == 0 then Some(f)
    else if f !in t || !(0 <= p[0] < |t[f]|) || !Present(t[f][p[0]]) then None
    else Descend(t, Frame(t[f][p[0]]), p[1..])
  }

  /** Whether every entry along the path allows writes: the processor's rule
      (section 4.6), the path being present. */
  predicate WriteAllowed(t: Tables, f: Pfn, p: Path)
    decreases |p|
  {
    |p| == 0 ||
    (f in t && 0 <= p[0] < |t[f]| && Writable(t[f][p[0]]) && WriteAllowed(t, Frame(t[f][p[0]]), p[1..]))
  }

  predicate UserAllowed(t: Tables, f: Pfn, p: Path)
    decreases |p|
  {
    |p| == 0 ||
    (f in t && 0 <= p[0] < |t[f]| && User(t[f][p[0]]) && UserAllowed(t, Frame(t[f][p[0]]), p[1..]))
  }

  // ---------- the tables form a tree ----------

  /** at says which frame each path of indices reaches: the root by the empty
      path, tables by up to three indices, pages by four. No frame is reached
      by two paths; an entry is present exactly when its path is in at. */
  ghost predicate Tree(t: Tables, root: Pfn, at: map<Path, Pfn>) {
    && [] in at && at[[]] == root
    && Rooted(at)
    && Separate(at)
    && (forall p :: p in at && |p| < LEVELS ==> TableAt(t, at, p))
    && Granted(t, at)
  }

  ghost predicate Rooted(at: map<Path, Pfn>) {
    forall p :: p in at ==> ValidPath(p) && (p != [] ==> Up(p) in at)
  }

  ghost predicate Separate(at: map<Path, Pfn>) {
    forall p, q :: p in at && q in at && at[p] == at[q] ==> p == q
  }

  lemma TreeRooted(t: Tables, root: Pfn, at: map<Path, Pfn>)
    requires Tree(t, root, at)
    ensures Rooted(at) && Separate(at)
  {
  }

  function Up(p: Path): Path
    requires p != []
  {
    p[..|p| - 1]
  }

  function Last(p: Path): int
    requires p != []
  {
    p[|p| - 1]
  }

  ghost predicate TableAt(t: Tables, at: map<Path, Pfn>, p: Path)
    requires p in at
  {
    && at[p] in t && |t[at[p]]| == ENTRIES
    && forall i :: 0 <= i < ENTRIES ==> EntryAt(t, at, p, i)
  }

  ghost predicate EntryAt(t: Tables, at: map<Path, Pfn>, p: Path, i: int)
    requires p in at && at[p] in t && |t[at[p]]| == ENTRIES && 0 <= i < ENTRIES
  {
    var e := t[at[p]][i];
    && (Present(e) <==> p + [i] in at)
    && (Present(e) ==> User(e) && Frame(e) == at[p + [i]])
  }

  /** The entry that leads to p. */
  ghost function Entry(t: Tables, at: map<Path, Pfn>, p: Path): int
    requires p != []
  {
    if Up(p) in at && at[Up(p)] in t && 0 <= Last(p) < |t[at[Up(p)]]| then t[at[Up(p)]][Last(p)] else 0
  }

  lemma SplitPath(p: Path)
    requires p != []
    ensures p == Up(p) + [Last(p)] && |Up(p)| == |p| - 1 && (ValidPath(p) ==> 0 <= Last(p) < ENTRIES)
  {
  }

  lemma EntrySame(t: Tables, at: map<Path, Pfn>, t': Tables, at': map<Path, Pfn>, p: Path)
    requires p != [] && Up(p) in at && Up(p) in at' && at[Up(p)] == at'[Up(p)]
    requires var f := at[Up(p)];
      f in t && f in t' && |t[f]| == |t'[f]| && 0 <= Last(p) < |t[f]| && t[f][Last(p)] == t'[f][Last(p)]
    ensures Entry(t, at, p) == Entry(t', at', p)
  {
  }

  /** Write access is never granted below an entry that withholds it. */
  ghost predicate Granted(t: Tables, at: map<Path, Pfn>) {
    forall p :: p in at && 2 <= |p| && Writable(Entry(t, at, p)) ==> Writable(Entry(t, at, Up(p)))
  }

  // ---------- what a tree says about walks ----------

  lemma TableIs(t: Tables, root: Pfn, at: map<Path, Pfn>, q: Path)
    requires Tree(t, root, at) && q in at && |q| < LEVELS
    ensures at[q] in t && |t[at[q]]| == ENTRIES && TableOf(t, at[q]) == t[at[q]]
  {
    assert TableAt(t, at, q);
  }

  lemma {:induction false} PrefixIn(at: map<Path, Pfn>, p: Path, k: nat)
    requires Rooted(at) && p in at && k <= |p|
    ensures p[..k] in at
    decreases |p| - k
  {
    if k == |p| {
      assert p[..k] == p;
    } else {
      PrefixIn(at, p, k + 1);
      assert Up(p[..k + 1]) == p[..k];
    }
  }

  lemma OneOn(pre: Path, rest: Path)
    requires |rest| > 0
    ensures pre + rest == pre + [rest[0]] + rest[1..] && (pre + rest)[..|pre| + 1] == pre + [rest[0]]
    ensures (pre + rest)[|pre|] == rest[0] && Up(pre + [rest[0]]) == pre && Last(pre + [rest[0]]) == rest[0]
  {
  }

  /** From the frame at pre, the rest of a path leads where at says. */
  lemma {:induction false} DescendsTo(t: Tables, root: Pfn, at: map<Path, Pfn>, pre: Path, rest: Path)
    requires Tree(t, root, at) && pre in at && ValidPath(pre + rest)
    ensures Descend(t, at[pre], rest) == if pre + rest in at then Some(at[pre + rest]) else None
    decreases |rest|
  {
    if |rest| == 0 {
      assert pre + rest == pre;
    } else {
      var i := rest[0];
      OneOn(pre, rest);
      assert TableAt(t, at, pre) && EntryAt(t, at, pre, i);
      if pre + [i] in at {
        DescendsTo(t, root, at, pre + [i], rest[1..]);
      } else if pre + rest in at {
        PrefixIn(at, pre + rest, |pre| + 1);
      }
    }
  }

  /** Walking finds exactly the frame at records, or finds nothing. */
  lemma WalkFinds(t: Tables, root: Pfn, at: map<Path, Pfn>, p: Path)
    requires Tree(t, root, at) && ValidPath(p)
    ensures Descend(t, root, p) == if p in at then Some(at[p]) else None
  {
    assert [] + p == p;
    DescendsTo(t, root, at, [], p);
  }

  lemma {:induction false} GrantedAbove(t: Tables, at: map<Path, Pfn>, p: Path, k: nat)
    requires Rooted(at) && Granted(t, at) && p in at && 1 <= k <= |p| && Writable(Entry(t, at, p))
    ensures Writable(Entry(t, at, p[..k]))
    decreases |p| - k
  {
    if k == |p| {
      assert p[..k] == p;
    } else {
      GrantedAbove(t, at, p, k + 1);
      PrefixIn(at, p, k + 1);
      assert Up(p[..k + 1]) == p[..k];
    }
  }

  lemma EntryHere(t: Tables, at: map<Path, Pfn>, p: Path, i: int)
    requires p in at && at[p] in t && |t[at[p]]| == ENTRIES && 0 <= i < ENTRIES
    ensures Entry(t, at, p + [i]) == t[at[p]][i] && p + [i] != []
  {
    assert Up(p + [i]) == p && Last(p + [i]) == i;
  }

  /** The first step from pre to pre + rest, which is on the tree. */
  lemma FirstStepOn(t: Tables, root: Pfn, at: map<Path, Pfn>, pre: Path, rest: Path)
    requires Tree(t, root, at) && pre + rest in at && pre in at && |rest| > 0
    ensures var (i, f) := (rest[0], at[pre]);
      && pre + [i] in at && f in t && 0 <= i < |t[f]|
      && User(t[f][i]) && Frame(t[f][i]) == at[pre + [i]] && Entry(t, at, pre + [i]) == t[f][i]
      && pre + [i] + rest[1..] == pre + rest && (pre + rest)[..|pre| + 1] == pre + [i]
    ensures Rooted(at) && Granted(t, at)
  {
    hide User, Frame, Present, Entry, Granted, Separate, Up, Last;
    OneOn(pre, rest);
    PrefixIn(at, pre + rest, |pre| + 1);
    assert TableAt(t, at, pre) && EntryAt(t, at, pre, rest[0]);
    EntryHere(t, at, pre, rest[0]);
  }

  lemma {:induction false} RightsFrom(t: Tables, root: Pfn, at: map<Path, Pfn>, pre: Path, rest: Path)
    requires Tree(t, root, at) && pre + rest in at && pre in at && |rest| > 0
    ensures WriteAllowed(t, at[pre], rest) <==> Writable(Entry(t, at, pre + rest))
    ensures UserAllowed(t, at[pre], rest)
    decreases |rest|
  {
    hide Tree, Entry, Granted, Rooted, Writable, User, Frame;
    var (i, p) := (rest[0], pre + rest);
    FirstStepOn(t, root, at, pre, rest);
    if |rest| == 1 {
      assert p == pre + [i];
    } else {
      RightsFrom(t, root, at, pre + [i], rest[1..]);
      if Writable(Entry(t, at, p)) {
        GrantedAbove(t, at, p, |pre| + 1);
      }
    }
  }

  /** The effective rights of a mapped page: user access always, write access
      exactly when its own entry grants it. */
  lemma Rights(t: Tables, root: Pfn, at: map<Path, Pfn>, p: Path)
    requires Tree(t, root, at) && p in at && |p| > 0
    ensures WriteAllowed(t, root, p) <==> Writable(Entry(t, at, p))
    ensures UserAllowed(t, root, p)
  {
    assert [] + p == p;
    RightsFrom(t, root, at, [], p);
  }

  // ---------- one level of walk-and-extend ----------

  function ZeroTable(): (r: seq<int>)
    ensures |r| == 512 && forall i :: 0 <= i < 512 ==> r[i] == 0
  {
    seq(512, _ => 0)
  }

  function TableOf(t: Tables, f: Pfn): (r: seq<int>)
    ensures |r| == 512
  {
    if f in t && |t[f]| == 512 then t[f] else ZeroTable()
  }

  function FirstFree(free: seq<Pfn>): Pfn {
    if |free| == 0 then 0 else free[0]
  }

  function RestFree(free: seq<Pfn>): seq<Pfn> {
    if |free| == 0 then [] else free[1..]
  }

  /** At entry i of the table in frame f: widen a present entry's rights and follow
      it, or point the entry at a cleared frame off the free list. */
  function StepDown(t: Tables, free: seq<Pfn>, f: Pfn, i: int, write: bool): (r: (Tables, seq<Pfn>, Pfn))
    requires 0 <= i < ENTRIES
  {
    var e := TableOf(t, f)[i];
    if Present(e) then (t[f := TableOf(t, f)[i := WithFlags(e, write)]], free, Frame(e))
    else
      var n := FirstFree(free);
      var t1 := t[n := ZeroTable()];
      (t1[f := TableOf(t1, f)[i := NewEntry(n, write)]], RestFree(free), n)
  }

  ghost function Added(at: map<Path, Pfn>, p: Path, f: Pfn): map<Path, Pfn> {
    if p in at then at else at[p := f]
  }

  /** Free frames are distinct, nonzero, small enough to shift, and none is in use. */
  ghost predicate Pool(at: map<Path, Pfn>, free: seq<Pfn>) {
    && (forall k :: 0 <= k < |free| ==> 0 < free[k] < PFN_LIMIT)
    && (forall j, k :: 0 <= j < k < |free| ==> free[j] != free[k])
    && (forall p, k :: p in at && 0 <= k < |free| ==> at[p] != free[k])
  }

  lemma PresentTables(t: Tables, root: Pfn, at: map<Path, Pfn>, p: Path, i: int, t': Tables, e: int)
    requires Tree(t, root, at) && p in at && |p| < LEVELS && 0 <= i < ENTRIES && p + [i] in at
    requires at[p] in t && |t[at[p]]| == ENTRIES && t' == t[at[p] := t[at[p]][i := e]]
    requires Present(e) && User(e) && Frame(e) == Frame(t[at[p]][i])
    ensures forall q :: q in at && |q| < LEVELS ==> TableAt(t', at, q)
  {
    hide Frame, Present, Writable, User, Rooted, Granted;
    forall q | q in at && |q| < LEVELS ensures TableAt(t', at, q) {
      assert TableAt(t, at, q);
      assert q != p ==> at[q] != at[p];
      forall j | 0 <= j < ENTRIES ensures EntryAt(t', at, q, j) {
        assert EntryAt(t, at, q, j);
      }
    }
  }

  /** Widening the rights of a present entry keeps the tree and changes no other entry. */
  lemma PresentStep(t: Tables, root: Pfn, at: map<Path, Pfn>, p: Path, i: int, write: bool)
    requires Tree(t, root, at) && p in at && |p| < LEVELS - 1 && 0 <= i < ENTRIES && p + [i] in at
    requires write && p != [] ==> Writable(Entry(t, at, p))
    ensures var t' := t[at[p] := t[at[p]][i := WithFlags(t[at[p]][i], write)]];
      && Tree(t', root, at)
      && (write ==> Writable(Entry(t', at, p + [i])))
      && (Writable(Entry(t, at, p + [i])) ==> Writable(Entry(t', at, p + [i])))
      && (forall q :: q in at && q != [] && q != p + [i] ==> Entry(t', at, q) == Entry(t, at, q))
  {
    hide WithFlags, Frame, Present, Writable, User, TableAt, Separate, Granted, Entry, Up, Last, ValidPath;
    TableIs(t, root, at, p);
    var e := t[at[p]][i];
    var t' := t[at[p] := t[at[p]][i := WithFlags(e, write)]];
    WithFlagsParts(e, write);
    PresentTables(t, root, at, p, i, t', WithFlags(e, write));
    PresentEntries(t, root, at, p, i, t', WithFlags(e, write));
    EntryHere(t, at, p, i);
    EntryHere(t', at, p, i);
    TreeRooted(t, root, at);
    PresentGranted(t, t', at, p, i, write);
  }

  lemma PresentGranted(t: Tables, t': Tables, at: map<Path, Pfn>, p: Path, i: int, write: bool)
    requires Rooted(at) && Granted(t, at) && p + [i] in at && (write && p != [] ==> Writable(Entry(t, at, p)))
    requires forall q :: q in at && q != [] && q != p + [i] ==> Entry(t', at, q) == Entry(t, at, q)
    requires Writable(Entry(t', at, p + [i])) <==> Writable(Entry(t, at, p + [i])) || write
    ensures Granted(t', at)
  {
    hide Writable, Entry, ValidPath;
    assert Up(p + [i]) == p;
  }

  lemma PresentEntries(t: Tables, root: Pfn, at: map<Path, Pfn>, p: Path, i: int, t': Tables, e: int)
    requires Tree(t, root, at) && p in at && |p| < LEVELS && 0 <= i < ENTRIES
    requires at[p] in t && |t[at[p]]| == ENTRIES && t' == t[at[p] := t[at[p]][i := e]]
    ensures forall q :: q in at && q != [] && q != p + [i] ==> Entry(t', at, q) == Entry(t, at, q)
  {
    hide TableAt, Granted, Entry, Up, Last;
    forall q | q in at && q != [] && q != p + [i] ensures Entry(t', at, q) == Entry(t, at, q) {
      SplitPath(q);
      TableIs(t, root, at, Up(q));
      assert Up(q) != p ==> at[Up(q)] != at[p];
      EntrySame(t, at, t', at, q);
    }
  }

  lemma ApartFromFree(at: map<Path, Pfn>, free: seq<Pfn>)
    requires Pool(at, free) && |free| > 0
    ensures forall p :: p in at ==> at[p] != FirstFree(free)
    ensures 0 < FirstFree(free) < PFN_LIMIT
  {
  }

  /** No table but the one at p has changed. */
  ghost predicate OthersSame(t: Tables, t': Tables, at: map<Path, Pfn>, p: Path) {
    forall q :: q in at && q != p && at[q] in t ==> at[q] in t' && t'[at[q]] == t[at[q]]
  }

  /** A new place in the tree: where at has it, the entry that leads to it, and
      that nothing else has moved. */
  lemma RootedAdd(at: map<Path, Pfn>, p: Path, i: int, n: Pfn)
    requires Rooted(at) && Separate(at) && p in at && |p| < LEVELS && 0 <= i < ENTRIES
    requires p + [i] !in at && forall q :: q in at ==> at[q] != n
    ensures Rooted(at[p + [i] := n]) && Separate(at[p + [i] := n])
    ensures forall j :: p + [i] + [j] !in at
  {
    assert Up(p + [i]) == p;
    forall j ensures p + [i] + [j] !in at {
      assert Up(p + [i] + [j]) == p + [i];
    }
  }

  lemma ParentTable(t: Tables, at: map<Path, Pfn>, p: Path, i: int, n: Pfn, write: bool, t': Tables)
    requires p in at && TableAt(t, at, p) && 0 <= i < ENTRIES && p + [i] !in at && 0 < n < PFN_LIMIT
    requires at[p] in t' && t'[at[p]] == t[at[p]][i := NewEntry(n, write)]
    ensures TableAt(t', at[p + [i] := n], p)
  {
    NewEntryParts(n, write);
    assert |p + [i]| == |p| + 1;
    hide NewEntry, Frame, Present, Writable, User;
    var at' := at[p + [i] := n];
    forall j | 0 <= j < ENTRIES ensures EntryAt(t', at', p, j) {
      assert EntryAt(t, at, p, j);
      assert (p + [j])[|p|] == j && (p + [i])[|p|] == i;
    }
  }

  lemma OtherTable(t: Tables, at: map<Path, Pfn>, p: Path, i: int, n: Pfn, t': Tables, q: Path)
    requires p in at && q in at && q != p && TableAt(t, at, q) && p + [i] !in at
    requires at[q] in t' && t'[at[q]] == t[at[q]]
    ensures TableAt(t', at[p + [i] := n], q)
  {
    hide Frame, Present, Writable, User;
    var at' := at[p + [i] := n];
    forall j | 0 <= j < ENTRIES ensures EntryAt(t', at', q, j) {
      assert EntryAt(t, at, q, j);
      assert Up(q + [j]) == q && Up(p + [i]) == p;
    }
  }

  lemma EmptyTable(at: map<Path, Pfn>, p: Path, t': Tables)
    requires p in at && at[p] in t' && t'[at[p]] == ZeroTable()
    requires forall j :: p + [j] !in at
    ensures TableAt(t', at, p)
  {
  }

  lemma AbsentTable(t: Tables, root: Pfn, at: map<Path, Pfn>, p: Path, i: int, n: Pfn, write: bool, t': Tables)
    requires Tree(t, root, at) && p in at && |p| < LEVELS && 0 <= i < ENTRIES && p + [i] !in at
    requires 0 < n < PFN_LIMIT && forall q :: q in at ==> at[q] != n
    requires at[p] in t' && t'[at[p]] == t[at[p]][i := NewEntry(n, write)]
    requires OthersSame(t, t', at, p)
    requires |p| < LEVELS - 1 ==> n in t' && t'[n] == ZeroTable()
    ensures forall q :: q in at[p + [i] := n] && |q| < LEVELS ==> TableAt(t', at[p + [i] := n], q)
  {
    var at' := at[p + [i] := n];
    RootedAdd(at, p, i, n);
    assert |p + [i]| == |p| + 1;
    forall q | q in at' && |q| < LEVELS ensures TableAt(t', at', q) {
      if q == p + [i] {
        forall j ensures q + [j] !in at' {
          assert |q + [j]| == |q| + 1;
        }
        hide TableAt;
        EmptyTable(at', q, t');
      } else {
        assert TableAt(t, at, q) && at[q] in t;
        hide TableAt, NewEntry;
        if q == p {
          ParentTable(t, at, p, i, n, write, t');
        } else {
          OtherTable(t, at, p, i, n, t', q);
        }
      }
    }
  }

  lemma ZeroNotPresent()
    ensures !Present(0)
  {
  }

  /** Hanging a frame below p at entry i keeps the tree; the new entry grants what
      is asked, and no other entry changes. */
  lemma AbsentStep(t: Tables, root: Pfn, at: map<Path, Pfn>, p: Path, i: int, n: Pfn, write: bool, t': Tables)
    requires Tree(t, root, at) && p in at && |p| < LEVELS && 0 <= i < ENTRIES && p + [i] !in at
    requires write && p != [] ==> Writable(Entry(t, at, p))
    requires 0 < n < PFN_LIMIT && forall q :: q in at ==> at[q] != n
    requires at[p] in t' && t'[at[p]] == t[at[p]][i := NewEntry(n, write)]
    requires OthersSame(t, t', at, p)
    requires |p| < LEVELS - 1 ==> n in t' && t'[n] == ZeroTable()
    ensures var at' := at[p + [i] := n];
      && Tree(t', root, at')
      && (Writable(Entry(t', at', p + [i])) <==> write)
      && (forall q :: q in at && q != [] ==> Entry(t', at', q) == Entry(t, at, q))
  {
    var at' := at[p + [i] := n];
    AbsentTable(t, root, at, p, i, n, write, t');
    RootedAdd(at, p, i, n);
    NewEntryParts(n, write);
    assert Up(p + [i]) == p && Last(p + [i]) == i;
    assert [] != p + [i];
    hide NewEntry, Frame, Present, Writable, User, TableAt, Separate;
    AbsentEntries(t, root, at, p, i, n, write, t');
    forall q | q in at' && 2 <= |q| && Writable(Entry(t', at', q)) ensures Writable(Entry(t', at', Up(q))) {
      if q != p + [i] {
        assert Up(q) in at && Writable(Entry(t, at, q));
        assert Writable(Entry(t, at, Up(q)));
      }
    }
  }

  lemma AbsentEntries(t: Tables, root: Pfn, at: map<Path, Pfn>, p: Path, i: int, n: Pfn, write: bool, t': Tables)
    requires Tree(t, root, at) && p in at && |p| < LEVELS && 0 <= i < ENTRIES && p + [i] !in at
    requires forall q :: q in at ==> at[q] != n
    requires at[p] in t' && t'[at[p]] == t[at[p]][i := NewEntry(n, write)]
    requires OthersSame(t, t', at, p)
    ensures var at' := at[p + [i] := n];
      && Entry(t', at', p + [i]) == NewEntry(n, write)
      && (forall q :: q in at && q != [] ==> Entry(t', at', q) == Entry(t, at, q))
  {
    var at' := at[p + [i] := n];
    assert Up(p + [i]) == p && Last(p + [i]) == i && p != p + [i];
    assert Entry(t', at', p + [i]) == NewEntry(n, write) by {
      TableIs(t, root, at, p);
    }
    hide NewEntry, Entry, TableAt, Granted, Up, Last;
    forall q | q in at && q != [] ensures Entry(t', at', q) == Entry(t, at, q) {
      SplitPath(q);
      TableIs(t, root, at, Up(q));
      assert Up(q) in at && Up(q) != p + [i];
      EntrySame(t, at, t', at', q);
    }
  }

  /** A cleared top table is a tree on its own. */
  lemma LoneRoot(t: Tables, root: Pfn)
    requires root in t && t[root] == ZeroTable()
    ensures Tree(t, root, map[[] := root])
  {
    var at := map[[] := root];
    ZeroNotPresent();
    assert TableAt(t, at, []);
  }

  // ---------- a whole walk-and-extend ----------

  /** The frames spent come off the front of the free list, one for each path that
      was not there. */
  ghost function FreeAfter(at: map<Path, Pfn>, p: Path, free: seq<Pfn>): seq<Pfn> {
    if p in at then free else RestFree(free)
  }

  /** One level of the walk: the tree stays a tree, the place is in it, and only the
      entry that leads there has changed. */
  lemma StepKeeps(t: Tables, root: Pfn, at: map<Path, Pfn>, free: seq<Pfn>, p: Path, i: int, write: bool)
    requires Tree(t, root, at) && Pool(at, free) && |free| > 0
    requires p in at && |p| < LEVELS - 1 && 0 <= i < ENTRIES
    requires write && p != [] ==> Writable(Entry(t, at, p))
    ensures var (t', free', n) := StepDown(t, free, at[p], i, write);
      var at' := Added(at, p + [i], FirstFree(free));
      && Tree(t', root, at') && at'[p + [i]] == n
      && free' == FreeAfter(at, p + [i], free) && Pool(at', free')
      && (write ==> Writable(Entry(t', at', p + [i])))
      && (forall q :: q in at && q != [] && q != p + [i] ==> Entry(t', at', q) == Entry(t, at, q))
  {
    StepIs(t, root, at, free, p, i, write);
    hide StepDown, Tree, Pool, Entry, Writable, NewEntry, WithFlags;
    if p + [i] in at {
      PresentStep(t, root, at, p, i, write);
    } else {
      ApartFromFree(at, free);
      var (t', free', n) := StepDown(t, free, at[p], i, write);
      AbsentStep(t, root, at, p, i, n, write, t');
      PoolRest(at, free, p + [i]);
    }
  }

  /** What one level computes, in terms of the tree. */
  lemma StepIs(t: Tables, root: Pfn, at: map<Path, Pfn>, free: seq<Pfn>, p: Path, i: int, write: bool)
    requires Tree(t, root, at) && Pool(at, free) && |free| > 0
    requires p in at && |p| < LEVELS - 1 && 0 <= i < ENTRIES
    ensures var (t', free', n) := StepDown(t, free, at[p], i, write);
      && at[p] in t && |t[at[p]]| == ENTRIES
      && free' == FreeAfter(at, p + [i], free)
      && (p + [i] in at ==> t' == t[at[p] := t[at[p]][i := WithFlags(t[at[p]][i], write)]] && n == at[p + [i]])
      && (p + [i] !in at ==>
           && n == FirstFree(free) && at[p] in t' && t'[at[p]] == t[at[p]][i := NewEntry(n, write)]
           && OthersSame(t, t', at, p) && n in t' && t'[n] == ZeroTable())
  {
    assert TableAt(t, at, p) && EntryAt(t, at, p, i);
    assert TableOf(t, at[p]) == t[at[p]];
    hide WithFlags, NewEntry, Frame, Writable, User, Present, Rooted, Granted, TableAt;
    ApartFromFree(at, free);
    if p + [i] !in at {
      var n := FirstFree(free);
      assert at[p] != n;
      assert TableOf(t[n := ZeroTable()], at[p]) == t[at[p]];
      forall q | q in at && q != p && at[q] in t
        ensures at[q] != n && at[q] != at[p]
      {
      }
    }
  }

  lemma PoolRest(at: map<Path, Pfn>, free: seq<Pfn>, p: Path)
    requires Pool(at, free) && |free| > 0 && p !in at
    ensures Pool(at[p := FirstFree(free)], RestFree(free))
  {
  }

  function StepDowns(t: Tables, root: Pfn, free: seq<Pfn>, p: Path, write: bool): (Tables, seq<Pfn>, Pfn)
    requires |p| == LEVELS && ValidPath(p)
  {
    var (t1, free1, f1) := StepDown(t, free, root, p[0], write);
    var (t2, free2, f2) := StepDown(t1, free1, f1, p[1], write);
    StepDown(t2, free2, f2, p[2], write)
  }

  /** The three table levels, then the page. */
  function Extend(t: Tables, root: Pfn, free: seq<Pfn>, p: Path, write: bool, page: Pfn): (Tables, seq<Pfn>)
    requires |p| == LEVELS && ValidPath(p)
  {
    var (t3, free3, f3) := StepDowns(t, root, free, p, write);
    (t3[f3 := TableOf(t3, f3)[p[3] := NewEntry(page, write)]], free3)
  }

  /** The tree once the three tables on the way to p are in it. */
  ghost function WithTables(at: map<Path, Pfn>, free: seq<Pfn>, p: Path): map<Path, Pfn>
    requires |p| == LEVELS
  {
    var at1 := Added(at, [] + [p[0]], FirstFree(free));
    var free1 := FreeAfter(at, [] + [p[0]], free);
    var at2 := Added(at1, [] + [p[0]] + [p[1]], FirstFree(free1));
    var free2 := FreeAfter(at1, [] + [p[0]] + [p[1]], free1);
    Added(at2, [] + [p[0]] + [p[1]] + [p[2]], FirstFree(free2))
  }

  /** The free list once the walk's tables are in. */
  ghost function FreeWith(at: map<Path, Pfn>, free: seq<Pfn>, p: Path): seq<Pfn>
    requires |p| == LEVELS
  {
    var at1, free1 := Added(at, [] + [p[0]], FirstFree(free)), FreeAfter(at, [] + [p[0]], free);
    var at2, free2 := Added(at1, [] + [p[0]] + [p[1]], FirstFree(free1)), FreeAfter(at1, [] + [p[0]] + [p[1]], free1);
    FreeAfter(at2, [] + [p[0]] + [p[1]] + [p[2]], free2)
  }

  /** What adding the page p does, at' being the tree after. */
  ghost predicate Extended(t: Tables, t': Tables, root: Pfn, at: map<Path, Pfn>, at': map<Path, Pfn>,
                           p: Path, write: bool, page: Pfn)
    requires |p| == LEVELS
  {
    && Tree(t', root, at')
    && p in at' && at'[p] == page
    && (Writable(Entry(t', at', p)) <==> write)
    && (forall q :: q in at ==> q in at' && at'[q] == at[q])
    && (forall q :: q in at' && |q| == LEVELS && q != p ==> q in at && Entry(t', at', q) == Entry(t, at, q))
  }

  /** The table levels, put together. */
  lemma TablesKept(t: Tables, root: Pfn, at: map<Path, Pfn>, free: seq<Pfn>, p: Path, write: bool)
    requires Tree(t, root, at) && Pool(at, free) && |free| >= 3 && |p| == LEVELS && ValidPath(p)
    ensures var (t3, free3, f3) := StepDowns(t, root, free, p, write);
      var at3 := WithTables(at, free, p);
      && Tree(t3, root, at3) && Pool(at3, free3) && free3 == FreeWith(at, free, p)
      && [p[0], p[1], p[2]] in at3 && at3[[p[0], p[1], p[2]]] == f3
      && (write ==> Writable(Entry(t3, at3, [p[0], p[1], p[2]])))
      && (forall q :: q in at && |q| == LEVELS ==> q in at3 && Entry(t3, at3, q) == Entry(t, at, q))
  {
    hide Tree, Pool, StepDown, Entry, Writable;
    assert at[[]] == root && [] in at by {
      TreeRoot(t, root, at);
    }
    StepKeeps(t, root, at, free, [], p[0], write);
    var (t1, free1, f1) := StepDown(t, free, root, p[0], write);
    var at1 := Added(at, [] + [p[0]], FirstFree(free));
    StepKeeps(t1, root, at1, free1, [] + [p[0]], p[1], write);
    var (t2, free2, f2) := StepDown(t1, free1, f1, p[1], write);
    var at2 := Added(at1, [] + [p[0]] + [p[1]], FirstFree(free1));
    StepKeeps(t2, root, at2, free2, [] + [p[0]] + [p[1]], p[2], write);
    assert [] + [p[0]] + [p[1]] + [p[2]] == [p[0], p[1], p[2]];
  }

  lemma TreeRoot(t: Tables, root: Pfn, at: map<Path, Pfn>)
    requires Tree(t, root, at)
    ensures [] in at && at[[]] == root
  {
  }

  lemma AddedKeeps(at: map<Path, Pfn>, free: seq<Pfn>, p: Path)
    requires |free| > 0
    ensures var (at', free') := (Added(at, p, FirstFree(free)), FreeAfter(at, p, free));
      && (forall q :: q in at' <==> q in at || q == p)
      && (forall q :: q in at ==> at'[q] == at[q])
      && (p in at' && (p in at || at'[p] == free[0]))
      && |free| - 1 <= |free'| && free' == free[|free| - |free'|..]
  {
  }

  /** The places the walk adds are the three prefixes; what was there stays; the
      frames come off the free list. */
  lemma WithTablesKeeps(at: map<Path, Pfn>, free: seq<Pfn>, p: Path)
    requires |free| >= 3 && |p| == LEVELS
    ensures var at3 := WithTables(at, free, p);
      && (forall q :: q in at3 <==> q in at || q == [p[0]] || q == [p[0], p[1]] || q == [p[0], p[1], p[2]])
      && (forall q :: q in at ==> at3[q] == at[q])
      && (forall q :: q in at3 && q !in at ==> at3[q] in free)
  {
    assert [] + [p[0]] == [p[0]] && [p[0]] + [p[1]] == [p[0], p[1]] && [p[0], p[1]] + [p[2]] == [p[0], p[1], p[2]];
    var at1, free1 := Added(at, [p[0]], FirstFree(free)), FreeAfter(at, [p[0]], free);
    AddedKeeps(at, free, [p[0]]);
    var at2, free2 := Added(at1, [p[0], p[1]], FirstFree(free1)), FreeAfter(at1, [p[0], p[1]], free1);
    AddedKeeps(at1, free1, [p[0], p[1]]);
    AddedKeeps(at2, free2, [p[0], p[1], p[2]]);
    hide Added, FreeAfter;
  }

  /** A page frame of its own, taken by no path and not among the free tables. */
  ghost predicate Unclaimed(at: map<Path, Pfn>, free: seq<Pfn>, page: Pfn) {
    && 0 < page < PFN_LIMIT
    && page !in free
    && forall q :: q in at ==> at[q] != page
  }

  /** The page put in: a tree again, with the page where it was asked for. */
  lemma ExtendKeeps(t: Tables, root: Pfn, at: map<Path, Pfn>, free: seq<Pfn>, p: Path, write: bool, page: Pfn)
    requires Tree(t, root, at) && Pool(at, free) && |free| >= 3 && |p| == LEVELS && ValidPath(p) && p !in at
    requires Unclaimed(at, free, page)
    ensures var (t', free') := Extend(t, root, free, p, write, page);
      var at' := WithTables(at, free, p)[p := page];
      && Extended(t, t', root, at, at', p, write, page)
      && Pool(at', free') && free' == FreeWith(at, free, p)
  {
    hide StepDowns, Entry, Writable, WithTables, FreeWith, NewEntry, Tree, Pool;
    var (t3, free3, f3) := StepDowns(t, root, free, p, write);
    var at3 := WithTables(at, free, p);
    TablesKept(t, root, at, free, p, write);
    WithTablesKeeps(at, free, p);
    FreeShrinks(t, root, free, p, write);
    var q3 := [p[0], p[1], p[2]];
    assert q3 + [p[3]] == p;
    TableIs(t3, root, at3, q3);
    PutPage(t3, root, at3, q3, p[3], write, page);
    PoolWith(at3, free3, p, page);
  }

  lemma PoolWith(at: map<Path, Pfn>, free: seq<Pfn>, p: Path, page: Pfn)
    requires Pool(at, free) && page !in free
    ensures Pool(at[p := page], free)
  {
  }

  lemma FreeShrinks(t: Tables, root: Pfn, free: seq<Pfn>, p: Path, write: bool)
    requires |p| == LEVELS && ValidPath(p)
    ensures var (t3, free3, f3) := StepDowns(t, root, free, p, write);
      forall f :: f in free3 ==> f in free
  {
  }

  lemma PutPage(t: Tables, root: Pfn, at: map<Path, Pfn>, q: Path, i: int, write: bool, page: Pfn)
    requires Tree(t, root, at) && q in at && |q| == 3 && 0 <= i < ENTRIES && q + [i] !in at
    requires at[q] in t && |t[at[q]]| == ENTRIES
    requires write ==> Writable(Entry(t, at, q))
    requires 0 < page < PFN_LIMIT && forall r :: r in at ==> at[r] != page
    ensures var (t', at') := (t[at[q] := t[at[q]][i := NewEntry(page, write)]], at[q + [i] := page]);
      && Tree(t', root, at')
      && (Writable(Entry(t', at', q + [i])) <==> write)
      && (forall r :: r in at && r != [] ==> Entry(t', at', r) == Entry(t, at, r))
  {
    var t' := t[at[q] := t[at[q]][i := NewEntry(page, write)]];
    assert OthersSame(t, t', at, q);
    hide Rooted, Granted, TableAt, Separate, Entry, Writable;
    AbsentStep(t, root, at, q, i, page, write, t');
  }

  // ---------- exactly one translation more ----------

  /** After the page is put in, its address leads to it with the rights asked for,
      and every other address translates, and may be written, as before. */
  lemma OneTranslationMore(t: Tables, t': Tables, root: Pfn, at: map<Path, Pfn>, at': map<Path, Pfn>,
                           p: Path, write: bool, page: Pfn, q: Path)
    requires Tree(t, root, at) && |p| == LEVELS && p !in at && Extended(t, t', root, at, at', p, write, page)
    requires ValidPath(q) && |q| == LEVELS
    ensures Descend(t', root, q) == if q == p then Some(page) else Descend(t, root, q)
    ensures q in at' ==> UserAllowed(t', root, q)
    ensures q == p ==> (WriteAllowed(t', root, q) <==> write)
    ensures q != p && q in at ==> (WriteAllowed(t', root, q) <==> WriteAllowed(t, root, q))
  {
    hide Tree, Descend, WriteAllowed, UserAllowed, Entry, Writable;
    WalkFinds(t, root, at, q);
    WalkFinds(t', root, at', q);
    if q in at' {
      Rights(t', root, at', q);
    }
    if q in at {
      Rights(t, root, at, q);
    }
  }

  // ---------- taking a page away ----------

  /** Walk the three table levels; where the last entry is present, give up its
      frame and clear the entry. */
  function Unmap(t: Tables, root: Pfn, p: Path): (Tables, Option<Pfn>)
    requires |p| == LEVELS && ValidPath(p)
  {
    match Descend(t, root, p[..3])
    case None => (t, None)
    case Some(f) =>
      var e := TableOf(t, f)[p[3]];
      if Present(e) then (t[f := TableOf(t, f)[p[3] := 0]], Some(Frame(e))) else (t, None)
  }

  lemma ClearParent(t: Tables, at: map<Path, Pfn>, q: Path, i: int, t': Tables)
    requires q in at && TableAt(t, at, q) && 0 <= i < ENTRIES
    requires at[q] in t' && t'[at[q]] == t[at[q]][i := 0] && q != q + [i]
    ensures TableAt(t', at - {q + [i]}, q)
  {
    ZeroNotPresent();
    hide Frame, Present, Writable, User;
    var at' := at - {q + [i]};
    forall j | 0 <= j < ENTRIES ensures EntryAt(t', at', q, j) {
      assert EntryAt(t, at, q, j);
      assert (q + [j])[|q|] == j && (q + [i])[|q|] == i;
    }
  }

  lemma ClearOther(t: Tables, at: map<Path, Pfn>, p: Path, t': Tables, r: Path)
    requires p != [] && r in at && r != p && r != Up(p) && TableAt(t, at, r)
    requires at[r] in t' && t'[at[r]] == t[at[r]]
    ensures TableAt(t', at - {p}, r)
  {
    hide Frame, Present, Writable, User;
    var at' := at - {p};
    forall j | 0 <= j < ENTRIES ensures EntryAt(t', at', r, j) {
      assert EntryAt(t, at, r, j);
      assert Up(r + [j]) == r;
    }
  }

  lemma ClearTables(t: Tables, root: Pfn, at: map<Path, Pfn>, q: Path, i: int)
    requires Tree(t, root, at) && q in at && |q| == 3 && 0 <= i < ENTRIES && q + [i] in at
    requires at[q] in t && |t[at[q]]| == ENTRIES
    ensures var (t', at') := (t[at[q] := t[at[q]][i := 0]], at - {q + [i]});
      forall r :: r in at' && |r| < LEVELS ==> TableAt(t', at', r)
  {
    var (t', at') := (t[at[q] := t[at[q]][i := 0]], at - {q + [i]});
    assert Up(q + [i]) == q && |q + [i]| == LEVELS;
    forall r | r in at' && |r| < LEVELS ensures TableAt(t', at', r) {
      assert TableAt(t, at, r);
      assert r != q ==> at[r] != at[q];
      assert at[r] in t;
      hide TableAt, Rooted, Granted;
      if r == q {
        ClearParent(t, at, q, i, t');
      } else {
        ClearOther(t, at, q + [i], t', r);
      }
    }
  }

  lemma ClearEntries(t: Tables, root: Pfn, at: map<Path, Pfn>, q: Path, i: int)
    requires Tree(t, root, at) && q in at && |q| == 3 && 0 <= i < ENTRIES && q + [i] in at
    requires at[q] in t && |t[at[q]]| == ENTRIES
    ensures var (t', at') := (t[at[q] := t[at[q]][i := 0]], at - {q + [i]});
      forall r :: r in at' && r != [] ==> Entry(t', at', r) == Entry(t, at, r)
  {
    var (t', at') := (t[at[q] := t[at[q]][i := 0]], at - {q + [i]});
    hide TableAt, Granted, Entry, Up, Last;
    forall r | r in at' && r != [] ensures Entry(t', at', r) == Entry(t, at, r) {
      SplitPath(r);
      TableIs(t, root, at, Up(r));
      assert Up(r) != q ==> at[Up(r)] != at[q];
      assert Up(r) in at';
      EntrySame(t, at, t', at', r);
    }
  }

  /** Without a full path the tree is still a tree. */
  lemma PagePathOff(at: map<Path, Pfn>, p: Path)
    requires Rooted(at) && Separate(at) && [] in at && p in at && |p| == LEVELS
    ensures Rooted(at - {p}) && Separate(at - {p}) && [] in at - {p}
    ensures forall q :: q in at - {p} && q != [] ==> Up(q) in at - {p}
  {
    forall q | q in at && q != [] ensures |Up(q)| < LEVELS {
    }
  }

  lemma UnmapIs(t: Tables, root: Pfn, at: map<Path, Pfn>, p: Path)
    requires Tree(t, root, at) && |p| == LEVELS && ValidPath(p)
    ensures p !in at ==> Unmap(t, root, p) == (t, None)
    ensures p in at ==>
      && p[..3] in at && at[p[..3]] in t && |t[at[p[..3]]]| == ENTRIES
      && Unmap(t, root, p) == (t[at[p[..3]] := t[at[p[..3]]][p[3] := 0]], Some(at[p]))
  {
    var q := p[..3];
    assert q + [p[3]] == p && ValidPath(q) && Up(p) == q;
    WalkFinds(t, root, at, q);
    if q in at {
      TableIs(t, root, at, q);
      assert TableAt(t, at, q) && EntryAt(t, at, q, p[3]);
    }
    hide Descend, Entry, Writable, Frame, User, TableAt;
  }

  /** Word by word: the one that led to the page goes to zero, and no other changes. */
  lemma UnmapClears(t: Tables, root: Pfn, at: map<Path, Pfn>, p: Path, f: Pfn, i: int)
    requires Tree(t, root, at) && |p| == LEVELS && ValidPath(p) && 0 <= i < ENTRIES
    ensures TableOf(Unmap(t, root, p).0, f)[i] ==
      if p in at && p[..3] in at && f == at[p[..3]] && i == p[3] then 0 else TableOf(t, f)[i]
  {
    UnmapIs(t, root, at, p);
    hide Unmap, Tree;
  }

  lemma GrantedSame(t: Tables, at: map<Path, Pfn>, t': Tables, at': map<Path, Pfn>)
    requires Granted(t, at) && at'.Keys <= at.Keys
    requires forall r :: r in at' && r != [] ==> Up(r) in at' && Entry(t', at', r) == Entry(t, at, r)
    ensures Granted(t', at')
  {
    hide Entry, Writable;
  }

  /** Unmapping gives up the page's frame if the page is mapped, and nothing else;
      what is left is a tree in which only that page has gone. */
  lemma UnmapKeeps(t: Tables, root: Pfn, at: map<Path, Pfn>, p: Path)
    requires Tree(t, root, at) && |p| == LEVELS && ValidPath(p)
    ensures var (t', f) := Unmap(t, root, p);
      && f == (if p in at then Some(at[p]) else None)
      && Tree(t', root, at - {p})
      && (forall r :: r in at - {p} && r != [] ==> Entry(t', at - {p}, r) == Entry(t, at, r))
  {
    var q := p[..3];
    assert q + [p[3]] == p && Up(p) == q;
    UnmapIs(t, root, at, p);
    hide Unmap, Entry, Writable, TableAt, Granted;
    if p in at {
      ClearTables(t, root, at, q, p[3]);
      ClearEntries(t, root, at, q, p[3]);
      PagePathOff(at, p);
      hide Rooted, Separate, Up;
      GrantedSame(t, at, Unmap(t, root, p).0, at - {p});
    } else {
      assert at - {p} == at;
    }
  }

  // ---------- conservation of frames ----------

  function SetOf(free: seq<Pfn>): set<Pfn> {
    set f | f in free
  }

  ghost function TableFrames(at: map<Path, Pfn>): set<Pfn> {
    set q | q in at && |q| < LEVELS :: at[q]
  }

  ghost function PageFrames(at: map<Path, Pfn>): set<Pfn> {
    set q | q in at && |q| == LEVELS :: at[q]
  }

  lemma AddedConserves(at: map<Path, Pfn>, free: seq<Pfn>, p: Path)
    requires |free| > 0 && |p| < LEVELS
    ensures var (at', free') := (Added(at, p, FirstFree(free)), FreeAfter(at, p, free));
      && TableFrames(at') + SetOf(free') == TableFrames(at) + SetOf(free)
      && PageFrames(at') == PageFrames(at)
  {
    if p !in at {
      var at' := at[p := free[0]];
      assert free == [free[0]] + free[1..];
      assert SetOf(free) == {free[0]} + SetOf(free[1..]);
      forall f | f in TableFrames(at) ensures f in TableFrames(at') {
        var q :| q in at && |q| < LEVELS && at[q] == f;
        assert q in at' && at'[q] == f;
      }
      assert p in at' && at'[p] == free[0];
      assert TableFrames(at') == TableFrames(at) + {free[0]};
      forall f | f in PageFrames(at) ensures f in PageFrames(at') {
        var q :| q in at && |q| == LEVELS && at[q] == f;
        assert q in at' && at'[q] == f;
      }
      assert PageFrames(at') == PageFrames(at);
    }
  }

  lemma PageAddsFrame(at: map<Path, Pfn>, p: Path, page: Pfn)
    requires |p| == LEVELS && p !in at
    ensures PageFrames(at[p := page]) == PageFrames(at) + {page}
    ensures TableFrames(at[p := page]) == TableFrames(at)
  {
    var at' := at[p := page];
    forall f | f in PageFrames(at) ensures f in PageFrames(at') {
      var q :| q in at && |q| == LEVELS && at[q] == f;
      assert q in at' && at'[q] == f;
    }
    assert p in at' && at'[p] == page;
    forall f | f in TableFrames(at) ensures f in TableFrames(at') {
      var q :| q in at && |q| < LEVELS && at[q] == f;
      assert q in at' && at'[q] == f;
    }
  }

  /** Every table frame the walk spends goes into the tree. */
  lemma TablesConserve(at: map<Path, Pfn>, free: seq<Pfn>, p: Path)
    requires |free| >= 3 && |p| == LEVELS
    ensures var at' := WithTables(at, free, p);
      && PageFrames(at') == PageFrames(at)
      && TableFrames(at') + SetOf(FreeWith(at, free, p)) == TableFrames(at) + SetOf(free)
  {
    var at1, free1 := Added(at, [] + [p[0]], FirstFree(free)), FreeAfter(at, [] + [p[0]], free);
    AddedConserves(at, free, [] + [p[0]]);
    AddedKeeps(at, free, [] + [p[0]]);
    var at2, free2 := Added(at1, [] + [p[0]] + [p[1]], FirstFree(free1)), FreeAfter(at1, [] + [p[0]] + [p[1]], free1);
    AddedConserves(at1, free1, [] + [p[0]] + [p[1]]);
    AddedKeeps(at1, free1, [] + [p[0]] + [p[1]]);
    AddedConserves(at2, free2, [] + [p[0]] + [p[1]] + [p[2]]);
    hide Added, FreeAfter, TableFrames, PageFrames, SetOf;
  }

  /** With the page put in as well. */
  lemma ExtendConserves(at: map<Path, Pfn>, free: seq<Pfn>, p: Path, page: Pfn)
    requires |free| >= 3 && |p| == LEVELS && p !in at
    ensures var at' := WithTables(at, free, p)[p := page];
      && PageFrames(at') == PageFrames(at) + {page}
      && TableFrames(at') + SetOf(FreeWith(at, free, p)) == TableFrames(at) + SetOf(free)
  {
    WithTablesKeeps(at, free, p);
    TablesConserve(at, free, p);
    hide WithTables, FreeWith, TableFrames, PageFrames, SetOf;
    PageAddsFrame(WithTables(at, free, p), p, page);
  }
}
