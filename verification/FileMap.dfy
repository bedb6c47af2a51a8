/** The store as its users see it: a map from object numbers to files, a file
    being a name, a size and a map from page numbers to blocks. Every operation
    of the store does to this map what the specification below says. */
module FileMap {
  import opened Options
  import opened Blocks
  import opened BlockLayer
  import opened StoreModel
  import opened Ownership
  import opened Writing
  import opened Releasing
  import opened Reading

  datatype File = File(key: Name, size: int, pages: map<int, Block>)

  type Files = map<int, File>

  ghost function PagesOf(s: Store, o: int): map<int, Block>
    requires WellFormed(s)
  {
    map p | 0 <= p < MAX_PAGES && Ptr(s, Page(o, p)) != 0 :: PageBlock(s, o, p)
  }

  predicate HasFile(s: Store, id: int)
    requires |s.inode| == MAX_OBJECTS
  {
    Live(s, id - 2)
  }

  ghost function FilesOf(s: Store): Files
    requires WellFormed(s)
  {
    map id | 2 <= id < MAX_OBJECTS + 2 && HasFile(s, id) ::
      File(s.objs[id - 2].key, s.objs[id - 2].size, PagesOf(s, id - 2))
  }

  // ---------- the specification ----------

  datatype Op =
    | OpFind(key: Name)
    | OpCreate(key: Name)
    | OpRename(key: Name, newname: Name)
    | OpDestroy(key: Name)
    | OpWrite(objid: int, buf: seq<Byte>, offset: nat)
    | OpRead(objid: int, size: nat, offset: nat)

  /** id is the lowest number whose file is called key; -1 when there is none. */
  ghost predicate Named(f: Files, key: Name, id: int) {
    if id == -1 then forall k :: k in f ==> f[k].key != key
    else id in f && f[id].key == key && forall k :: k in f && k < id ==> f[k].key != key
  }

  /** id is the lowest number not taken; -1 when all are. */
  ghost predicate Unused(f: Files, id: int) {
    if id == -1 then forall k :: 2 <= k < MAX_OBJECTS + 2 ==> k in f
    else 2 <= id < MAX_OBJECTS + 2 && id !in f && forall k :: 2 <= k < id ==> k in f
  }

  /** What a file occupies: a block for each page, and one for each group of 1024
      pages past the first four that has a page. */
  ghost function Cells(f: Files): set<Site> {
    (set id, p | id in f && p in f[id].pages :: Page(id - 2, p))
    + (set id, p | id in f && p in f[id].pages && DIRECT <= p :: Indirect(id - 2, GroupOf(p)))
  }

  /** A page that holds buf, and zeros after it. */
  ghost function PageWith(buf: seq<Byte>): Block
    requires |buf| <= BLOCK_SIZE
  {
    seq<Byte>(BLOCK_SIZE, k requires 0 <= k < BLOCK_SIZE => if k < |buf| then buf[k] else 0)
  }

  lemma PadIs(buf: seq<Byte>)
    requires |buf| <= BLOCK_SIZE
    ensures Pad(buf) == PageWith(buf)
  {
    hide Pad;
  }

  ghost function Written(f: File, page: int, buf: seq<Byte>): File
    requires |buf| <= BLOCK_SIZE
  {
    File(f.key, if page in f.pages then f.size else f.size + |buf|, f.pages[page := PageWith(buf)])
  }

  /** Byte i of a read at offset is byte i of the pages from the one offset lies in. */
  ghost predicate Fetched(f: File, size: nat, offset: nat, bytes: seq<Byte>) {
    && |bytes| == size
    && forall i :: 0 <= i < size ==>
         && PageOf(offset) + i / BLOCK_SIZE in f.pages
         && bytes[i] == f.pages[PageOf(offset) + i / BLOCK_SIZE][i % BLOCK_SIZE]
  }

  /** What each operation does to the files and answers. */
  ghost predicate Spec(f: Files, op: Op, f': Files, a: Answer) {
    match op
    case OpFind(key) =>
      f' == f && a.Code? && Named(f, key, a.value)
    case OpCreate(key) =>
      && a.Code? && Unused(f, a.value)
      && f' == if a.value == -1 then f else f[a.value := File(key, 0, map[])]
    case OpRename(key, newname) =>
      && a.Code? && Named(f, key, a.value)
      && f' == if a.value == -1 then f else f[a.value := f[a.value].(key := newname)]
    case OpDestroy(key) =>
      exists id :: Named(f, key, id) && f' == f - {id} && a == Code(if id == -1 then -1 else 0)
    case OpWrite(objid, buf, offset) =>
      if objid < 2 || |Cells(f)| == DATA_BLOCKS then f' == f && a == Code(-1)
      else
        && objid in f && |buf| <= BLOCK_SIZE && a == Code(|buf|)
        && f' == f[objid := Written(f[objid], PageOf(offset), buf)]
    case OpRead(objid, size, offset) =>
      && f' == f
      && if objid < 2 then a == Code(-1)
         else objid in f && a.Bytes? && Fetched(f[objid], size, offset, a.bytes)
  }

  // ---------- the store's step ----------

  /** What the source leaves to the callers: numbers of live objects, one block
      per write, page numbers below 4100, a second free block for a new indirect
      block, and reads of mapped pages behind present indirect blocks. A write
      goes to a page with no block, unless the overwrite lines are adjusted. */
  ghost predicate Legal(s: Store, op: Op, adjust: nat)
    requires WellFormed(s)
  {
    match op
    case OpWrite(objid, buf, offset) =>
      && CanWrite(s, objid, buf, offset)
      && (2 <= objid ==> Live(s, objid - 2))
      && (2 <= objid ==> Ptr(s, Page(objid - 2, PageOf(offset))) == 0 || adjust == WRITE_OFFSET)
    case OpRead(objid, size, offset) =>
      2 <= objid ==> CanRead(s, objid - 2, PageOf(offset), BlocksFor(size))
    case _ => true
  }

  ghost predicate CanRead(s: Store, o: int, first: nat, n: nat)
    requires WellFormed(s)
  {
    && Live(s, o)
    && first + n <= MAX_PAGES
    && (forall p :: first <= p < first + n ==> Ptr(s, Page(o, p)) != 0)
    && (forall l :: 0 <= l < 4 && 0 < n && 4 + 1024 * l < first + n ==> Ptr(s, Indirect(o, l)) != 0)
  }

  /** A read may be asked for exactly when every byte of it is on a page that is there,
      and so is every indirect block up to the one the last byte is behind. */
  lemma LegalReadIff(s: Store, objid: int, size: nat, offset: nat, adjust: nat)
    requires WellFormed(s) && 2 <= objid && 0 < size
    ensures Legal(s, OpRead(objid, size, offset), adjust) <==>
      && Live(s, objid - 2)
      && (forall i :: 0 <= i < size ==> Ptr(s, Page(objid - 2, offset / 4096 + i / 4096)) != 0)
      && (forall l :: 0 <= l < 4 && 4 + 1024 * l <= offset / 4096 + (size - 1) / 4096 ==>
            Ptr(s, Indirect(objid - 2, l)) != 0)
  {
    PagesOfRead(size);
    hide WellFormed, Live, BlocksFor;
    var (first, n, o) := (offset / 4096, BlocksFor(size), objid - 2);
    if Legal(s, OpRead(objid, size, offset), adjust) {
      forall i | 0 <= i < size ensures Ptr(s, Page(o, first + i / 4096)) != 0 {
        assert first <= first + i / 4096 < first + n;
      }
    }
    if forall i :: 0 <= i < size ==> Ptr(s, Page(o, first + i / 4096)) != 0 {
      forall p | first <= p < first + n ensures Ptr(s, Page(o, p)) != 0 && p < MAX_PAGES {
        var i := (p - first) * 4096;
        assert i / 4096 == p - first;
        assert 0 <= i < size;
      }
      assert first + n - 1 < MAX_PAGES;
    }
  }

  lemma PagesOfRead(size: nat)
    requires 0 < size
    ensures BlocksFor(size) == (size - 1) / 4096 + 1
    ensures forall i :: 0 <= i < size ==> i / 4096 < BlocksFor(size)
    ensures forall k :: 0 <= k < BlocksFor(size) ==> k * 4096 < size
  {
  }

  /** One block of the store is free. */
  ghost predicate OneFree(data: seq<bool>) {
    exists b :: 0 <= b < |data| && !data[b] && forall k :: 0 <= k < |data| && k != b ==> data[k]
  }

  lemma OneFreeIff(data: seq<bool>)
    ensures OneFree(data) <==>
      FirstClear(data) < |data| && FirstClear(data[FirstClear(data) := true]) == |data|
  {
    var b := FirstClear(data);
    if b < |data| {
      var more := data[b := true];
      var c := FirstClear(more);
      hide FirstClear;
      if c < |data| {
        assert !data[b] && !data[c] && b != c;
      } else {
        forall k | 0 <= k < |data| && k != b ensures data[k] {
          assert more[k];
        }
      }
    }
  }

  /** A write may be asked for exactly when the buffer is at most a page, the page is
      one of the 4100 and is not there (or the lines are adjusted), and the store does
      not run out between the page's block and a new indirect block. */
  lemma LegalWriteIff(s: Store, objid: int, buf: seq<Byte>, offset: nat, adjust: nat)
    requires WellFormed(s) && 2 <= objid
    ensures Legal(s, OpWrite(objid, buf, offset), adjust) <==>
      && Live(s, objid - 2) && |buf| <= 4096 && offset / 4096 < 4100
      && (Ptr(s, Page(objid - 2, offset / 4096)) == 0 || adjust == WRITE_OFFSET)
      && !(4 <= offset / 4096 && Ptr(s, Indirect(objid - 2, (offset / 4096 - 4) / 1024)) == 0 && OneFree(s.data))
  {
    OneFreeIff(s.data);
    hide FirstClear, OneFree, Coherent;
  }

  function Step(s: Store, op: Op, adjust: nat): (r: (Store, Answer))
    requires WellFormed(s)
    requires op.OpWrite? ==> CanWrite(s, op.objid, op.buf, op.offset)
    requires op.OpRead? && 2 <= op.objid ==> op.objid - 2 < MAX_OBJECTS
    ensures WellFormed(r.0)
  {
    match op
    case OpFind(key) => (s, Code(Find(s, key)))
    case OpCreate(key) => var (s', v) := Create(s, key); (s', Code(v))
    case OpRename(key, newname) => var (s', v) := Rename(s, key, newname); (s', Code(v))
    case OpDestroy(key) => var (s', v) := Destroy(s, key); (s', Code(v))
    case OpWrite(objid, buf, offset) => var (s', v) := Write(s, objid, buf, offset, adjust); (s', Code(v))
    case OpRead(objid, size, offset) => Read(s, objid, size, offset)
  }

  // ---------- each operation meets its specification ----------

  lemma FilesAt(s: Store, id: int)
    requires WellFormed(s)
    ensures id in FilesOf(s) <==> 2 <= id < MAX_OBJECTS + 2 && s.inode[id - 2]
    ensures id in FilesOf(s) ==> FilesOf(s)[id] == File(s.objs[id - 2].key, s.objs[id - 2].size, PagesOf(s, id - 2))
  {
  }

  lemma LookupNames(s: Store, key: Name)
    requires Inv(s)
    ensures Named(FilesOf(s), key, Find(s, key))
    ensures var o := Lookup(s.inode, s.objs, key); Find(s, key) == if o == MAX_OBJECTS then -1 else o + 2
  {
    hide Coherent, Owned, Grouped, Ptr, PagesOf;
    var f := FilesOf(s);
    forall k | k in f ensures s.inode[k - 2] && f[k].key == s.objs[k - 2].key {
      FilesAt(s, k);
    }
  }

  /** Same pointers and same sight of the pages: same page maps. */
  lemma SamePages(s: Store, s': Store, o: int)
    requires WellFormed(s) && WellFormed(s')
    requires forall p :: Ptr(s', Page(o, p)) == Ptr(s, Page(o, p))
    requires forall p :: Ptr(s, Page(o, p)) != 0 ==> PageBlock(s', o, p) == PageBlock(s, o, p)
    ensures PagesOf(s', o) == PagesOf(s, o)
  {
    hide WellFormed, Ptr, PageBlock;
  }

  /** One entry of the table changes, or comes to life, and all pages stay. */
  lemma OneEntryChanged(s: Store, s': Store, o: nat)
    requires WellFormed(s) && WellFormed(s') && o < MAX_OBJECTS && s'.inode == s.inode[o := true]
    requires forall k :: 0 <= k < MAX_OBJECTS && k != o ==> s'.objs[k] == s.objs[k]
    requires forall k: int :: k != o ==> PagesOf(s', k) == PagesOf(s, k)
    ensures FilesOf(s') == FilesOf(s)[o + 2 := File(s'.objs[o].key, s'.objs[o].size, PagesOf(s', o))]
  {
    hide Coherent, Ptr, View, PagesOf;
    forall id ensures id in FilesOf(s') <==> id in FilesOf(s) || id == o + 2 {
      FilesAt(s, id);
      FilesAt(s', id);
    }
  }

  lemma AllPagesSame(s: Store, s': Store)
    requires WellFormed(s) && WellFormed(s') && s'.layer == s.layer
    requires forall t :: Ptr(s', t) == Ptr(s, t)
    ensures forall k: int :: PagesOf(s', k) == PagesOf(s, k)
  {
    hide Coherent, Ptr, View;
    forall k: int ensures PagesOf(s', k) == PagesOf(s, k) {
      SamePages(s, s', k);
    }
  }

  lemma FindMeets(s: Store, key: Name)
    requires Inv(s)
    ensures Spec(FilesOf(s), OpFind(key), FilesOf(s), Code(Find(s, key)))
  {
    LookupNames(s, key);
  }

  lemma RenameMeets(s: Store, key: Name, newname: Name)
    requires Inv(s)
    ensures var (s', v) := Rename(s, key, newname); Spec(FilesOf(s), OpRename(key, newname), FilesOf(s'), Code(v))
  {
    hide Coherent, Owned, Grouped, Ptr, Named, View, PagesOf, FilesOf;
    LookupNames(s, key);
    var o := Lookup(s.inode, s.objs, key);
    if o < MAX_OBJECTS {
      var s' := Rename(s, key, newname).0;
      RenameKeeps(s, key, newname);
      AllPagesSame(s, s');
      FilesAt(s, o + 2);
      OneEntryChanged(s, s', o);
    }
  }

  lemma CreateMeets(s: Store, key: Name)
    requires Inv(s)
    ensures var (s', v) := Create(s, key); Spec(FilesOf(s), OpCreate(key), FilesOf(s'), Code(v))
  {
    hide Coherent, Owned, Grouped, Ptr, View, PagesOf, FilesOf;
    var (s', v) := Create(s, key);
    var o := FirstClear(s.inode);
    forall k ensures k in FilesOf(s) <==> 2 <= k < MAX_OBJECTS + 2 && s.inode[k - 2] {
      FilesAt(s, k);
    }
    if o < MAX_OBJECTS {
      CreateKeeps(s, key);
      AllPagesSame(s, s');
      DeadIsEmpty(s, o);
      OneEntryChanged(s, s', o);
    }
  }

  lemma DeadIsEmpty(s: Store, o: nat)
    requires Inv(s) && o < MAX_OBJECTS && !s.inode[o]
    ensures PagesOf(s, o) == map[] && s.objs[o].size == 0
  {
    hide Coherent, Owned, Grouped, Ptr, View;
    forall p ensures Ptr(s, Page(o, p)) == 0 {
      if Ptr(s, Page(o, p)) != 0 {
        SiteInUse(s, Page(o, p));
      }
    }
  }

  lemma DestroyMeets(s: Store, key: Name)
    requires Inv(s)
    ensures var (s', v) := Destroy(s, key); Spec(FilesOf(s), OpDestroy(key), FilesOf(s'), Code(v))
  {
    hide Coherent, ObjectShaped, Owned, Grouped, Numbered, Named, FilesOf, Destroy;
    var (f, o) := (FilesOf(s), Lookup(s.inode, s.objs, key));
    LookupNames(s, key);
    DestroyAnswers(s, key);
    if o < MAX_OBJECTS {
      DestroyFiles(s, key);
      assert Named(f, key, o + 2);
    } else {
      assert Named(f, key, -1);
    }
  }

  lemma DestroyAnswers(s: Store, key: Name)
    requires WellFormed(s)
    ensures Destroy(s, key).1 == if Lookup(s.inode, s.objs, key) < MAX_OBJECTS then 0 else -1
    ensures Lookup(s.inode, s.objs, key) == MAX_OBJECTS ==> Destroy(s, key).0 == s && FilesOf(s) - {-1} == FilesOf(s)
  {
    hide Coherent, ReleaseDirect, ReleaseIndirect;
  }

  lemma DestroyFiles(s: Store, key: Name)
    requires Inv(s) && Lookup(s.inode, s.objs, key) < MAX_OBJECTS
    ensures FilesOf(Destroy(s, key).0) == FilesOf(s) - {Lookup(s.inode, s.objs, key) + 2}
  {
    hide Coherent, Owned, Grouped, Numbered, Owner, FilesOf, Freed, Destroy, Emptied;
    DestroyTable(s, key);
    var own := OwnerExists(s);
    DestroyFrees(s, own, key);
    FreedFiles(s, own, Lookup(s.inode, s.objs, key), Destroy(s, key).0);
  }

  lemma FreedFiles(s: Store, own: map<int, Site>, o: nat, s': Store)
    requires WellFormed(s) && Owner(s, own) && WellFormed(s') && Freed(s, own, o, s') && o < MAX_OBJECTS
    requires s'.objs == s.objs[o := Emptied(s.objs[o])] && s'.inode == s.inode[o := false]
    ensures FilesOf(s') == FilesOf(s) - {o + 2}
  {
    hide Coherent, Owner, View, Ptr, Freed, PagesOf, Emptied;
    forall k | k != o ensures PagesOf(s', k) == PagesOf(s, k) {
      OthersKeepPages(s, own, o, s', k);
    }
    assert FilesOf(s') == FilesOf(s) - {o + 2};
  }

  lemma OthersKeepPages(s: Store, own: map<int, Site>, o: int, s': Store, k: int)
    requires WellFormed(s) && Owner(s, own) && WellFormed(s') && Freed(s, own, o, s') && k != o
    ensures PagesOf(s', k) == PagesOf(s, k)
  {
    hide Coherent, WellFormed, Ptr, View, InUse;
    forall p | Ptr(s, Page(k, p)) != 0 ensures PageBlock(s', k, p) == PageBlock(s, k, p) {
      assert own[Ptr(s, Page(k, p))] == Page(k, p);
    }
    SamePages(s, s', k);
  }

  // ---------- counting ----------

  ghost function BitsBelow(data: seq<bool>, n: nat): set<int>
    requires n <= |data|
  {
    set b: int | 0 <= b < n && data[b]
  }

  /** The sites owning the first n bits. */
  ghost function SitesBelow(data: seq<bool>, own: map<int, Site>, n: nat): set<Site>
    requires n <= |data|
  {
    set b: int | 0 <= b < n && data[b] && WRITE_OFFSET + b in own :: own[WRITE_OFFSET + b]
  }

  lemma BitsBelowStep(data: seq<bool>, n: nat)
    requires n < |data|
    ensures BitsBelow(data, n + 1) == BitsBelow(data, n) + (if data[n] then {n} else {})
    ensures n !in BitsBelow(data, n)
  {
  }

  lemma SitesBelowStep(data: seq<bool>, own: map<int, Site>, n: nat)
    requires n < |data| && (data[n] ==> WRITE_OFFSET + n in own)
    requires forall v, w :: v in own && w in own && own[v] == own[w] ==> v == w
    ensures SitesBelow(data, own, n + 1) == SitesBelow(data, own, n) + (if data[n] then {own[WRITE_OFFSET + n]} else {})
    ensures data[n] ==> own[WRITE_OFFSET + n] !in SitesBelow(data, own, n)
  {
  }

  lemma {:induction false} SitesBelowSize(data: seq<bool>, own: map<int, Site>, n: nat)
    requires n <= |data|
    requires forall b :: 0 <= b < |data| && data[b] ==> WRITE_OFFSET + b in own
    requires forall v, w :: v in own && w in own && own[v] == own[w] ==> v == w
    ensures |SitesBelow(data, own, n)| == |BitsBelow(data, n)|
  {
    assert SitesBelow(data, own, 0) == {} && BitsBelow(data, 0) == {};
    hide SitesBelow, BitsBelow;
    if n != 0 {
      SitesBelowSize(data, own, n - 1);
      BitsBelowStep(data, n - 1);
      SitesBelowStep(data, own, n - 1);
    }
  }

  lemma {:induction false} CountBits(data: seq<bool>, n: nat)
    requires n <= |data|
    ensures |BitsBelow(data, n)| <= n
    ensures |BitsBelow(data, n)| == n <==> forall k :: 0 <= k < n ==> data[k]
  {
    if n != 0 {
      CountBits(data, n - 1);
      BitsBelowStep(data, n - 1);
    }
  }

  /** No clear bit is found exactly when as many bits are set as there are. */
  lemma FullWhenAllSet(data: seq<bool>)
    ensures FirstClear(data) == |data| <==> |SetBits(data)| == |data|
  {
    CountBits(data, |data|);
    assert SetBits(data) == BitsBelow(data, |data|);
  }

  lemma PageCell(s: Store, o: int, p: int)
    requires Inv(s)
    ensures Page(o, p) in Cells(FilesOf(s)) <==> Ptr(s, Page(o, p)) != 0
  {
    FilesAt(s, o + 2);
    hide Coherent, Owned, Numbered, Grouped, View, GroupOf, FilesOf;
    if Ptr(s, Page(o, p)) != 0 {
      SiteInUse(s, Page(o, p));
      assert p in FilesOf(s)[o + 2].pages;
      assert Page(o, p) == Page(o + 2 - 2, p);
    }
  }

  lemma PageBehindIndirect(s: Store, o: int, p: int)
    requires WellFormed(s) && Ptr(s, Page(o, p)) != 0 && DIRECT <= p
    ensures Ptr(s, Indirect(o, GroupOf(p))) != 0
  {
    hide Coherent, View;
  }

  lemma IndirectCell(s: Store, o: int, l: int)
    requires Inv(s)
    ensures Indirect(o, l) in Cells(FilesOf(s)) <==> Ptr(s, Indirect(o, l)) != 0
  {
    FilesAt(s, o + 2);
    hide Coherent, Owned, Numbered, View, GroupOf, FilesOf, Ptr;
    if Ptr(s, Indirect(o, l)) == 0 {
      forall p | DIRECT <= p && Ptr(s, Page(o, p)) != 0 ensures GroupOf(p) != l {
        PageBehindIndirect(s, o, p);
      }
    } else {
      SiteInUse(s, Indirect(o, l));
      assert HasPage(s, o, l);
      var p :| DIRECT <= p < MAX_PAGES && GroupOf(p) == l && Ptr(s, Page(o, p)) != 0;
      assert p in FilesOf(s)[o + 2].pages;
      assert Indirect(o, l) == Indirect(o + 2 - 2, GroupOf(p));
    }
  }

  /** The cells of the files are the sites that hold a pointer. */
  lemma CellsAreSites(s: Store, t: Site)
    requires Inv(s)
    ensures t in Cells(FilesOf(s)) <==> Ptr(s, t) != 0
  {
    hide Inv, Ptr, FilesOf, Cells;
    match t
    case Page(o, p) => PageCell(s, o, p);
    case Indirect(o, l) => IndirectCell(s, o, l);
  }

  lemma OwnersAreSites(s: Store, own: map<int, Site>, t: Site)
    requires WellFormed(s) && Owner(s, own)
    ensures t in SitesBelow(s.data, own, DATA_BLOCKS) <==> Ptr(s, t) != 0
  {
    hide Coherent, Ptr;
    if Ptr(s, t) != 0 {
      var b := Ptr(s, t) - WRITE_OFFSET;
      assert s.data[b] && own[WRITE_OFFSET + b] == t;
    }
  }

  /** Conservation: the bits set are as many as the cells the files occupy. */
  lemma BitsCountCells(s: Store)
    requires Inv(s)
    ensures |SetBits(s.data)| == |Cells(FilesOf(s))|
  {
    assert SetBits(s.data) == BitsBelow(s.data, DATA_BLOCKS);
    hide Coherent, Ptr, View, FilesOf, Cells, SetBits, SitesBelow, BitsBelow, Owned, Grouped, Numbered;
    var own := OwnerExists(s);
    forall b | 0 <= b < |s.data| && s.data[b] ensures WRITE_OFFSET + b in own {
      assert InUse(s.data, WRITE_OFFSET + b);
    }
    forall v, w | v in own && w in own && own[v] == own[w] ensures v == w {
      assert Ptr(s, own[v]) == v;
    }
    SitesBelowSize(s.data, own, DATA_BLOCKS);
    forall t ensures t in SitesBelow(s.data, own, DATA_BLOCKS) <==> t in Cells(FilesOf(s)) {
      OwnersAreSites(s, own, t);
      CellsAreSites(s, t);
    }
    assert SitesBelow(s.data, own, DATA_BLOCKS) == Cells(FilesOf(s));
  }

  // ---------- write and read ----------

  lemma FreeMeansRoom(s: Store)
    requires Inv(s)
    ensures FirstClear(s.data) == DATA_BLOCKS <==> |Cells(FilesOf(s))| == DATA_BLOCKS
  {
    hide Coherent, Owned, Numbered, Grouped, FilesOf, Cells, SetBits;
    FullWhenAllSet(s.data);
    BitsCountCells(s);
  }

  /** A write changes the entry of its own object only, and there, besides
      pointers, only the size, which grows when the page is new. */
  lemma PlaceTable(s: Store, o: nat, page: nat, b: nat, size: nat, adjust: nat)
    requires WellFormed(s) && o < MAX_OBJECTS && page < MAX_PAGES && IsData(b)
    requires NeedsTwo(s.objs[o], page) ==> FirstClear(s.data) < DATA_BLOCKS
    ensures var s' := Place(s, o, page, b, size, adjust);
      && s'.inode == s.inode
      && (forall k :: 0 <= k < MAX_OBJECTS && k != o ==> s'.objs[k] == s.objs[k])
      && s'.objs[o].key == s.objs[o].key
      && s'.objs[o].size == (if Ptr(s, Page(o, page)) == 0 then s.objs[o].size + size else s.objs[o].size)
  {
    hide Coherent, View, WordAt, SetEntry;
    if DIRECT <= page && s.objs[o].indirect[GroupOf(page)] != 0 {
      SetEntryView(s.layer, s.objs[o].indirect[GroupOf(page)] - WRITE_OFFSET, EntryOf(page), WRITE_OFFSET + b);
    }
  }

  lemma WriteTable(s: Store, objid: int, buf: seq<Byte>, offset: nat, adjust: nat)
    requires Inv(s) && CanWrite(s, objid, buf, offset) && 2 <= objid
    requires FirstClear(s.data) < DATA_BLOCKS
    ensures var (s', o) := (Write(s, objid, buf, offset, adjust).0, objid - 2);
      && s'.inode == s.inode
      && (forall k :: 0 <= k < MAX_OBJECTS && k != o ==> s'.objs[k] == s.objs[k])
      && s'.objs[o].key == s.objs[o].key
      && s'.objs[o].size == s.objs[o].size + (if Ptr(s, Page(o, PageOf(offset))) == 0 then |buf| else 0)
  {
    hide Coherent, View, Ptr, Owned, Grouped, Place;
    var (o, b) := (objid - 2, FirstClear(s.data));
    MarkKeeps(s, o);
    TakenEffect(Mark(s, o), b, Pad(buf));
    PlaceTable(Taken(Mark(s, o), b, Pad(buf)), o, PageOf(offset), b, |buf|, adjust);
  }

  lemma StoredHere(s: Store, s': Store, o: nat, page: nat, buf: seq<Byte>)
    requires WellFormed(s) && o < MAX_OBJECTS && page < MAX_PAGES && |buf| <= BLOCK_SIZE
    requires Stored(s, s', o, page, buf)
    ensures WellFormed(s') && Ptr(s', Page(o, page)) != 0 && PageBlock(s', o, page) == Pad(buf)
  {
    assert Content(s', o, page) == Some(Pad(buf)) by {
      HoldsPad(Content(s', o, page), buf);
    }
    assert WellFormed(s');
    hide Inv, Ptr, View, WellFormed, Pad;
  }

  lemma StoredElsewhere(s: Store, s': Store, o: nat, page: nat, buf: seq<Byte>, k: int, p: int)
    requires WellFormed(s) && o < MAX_OBJECTS && page < MAX_PAGES && |buf| <= BLOCK_SIZE
    requires Stored(s, s', o, page, buf) && !(k == o && p == page)
    ensures WellFormed(s') && (Ptr(s', Page(k, p)) == 0 <==> Ptr(s, Page(k, p)) == 0)
    ensures Ptr(s, Page(k, p)) != 0 ==> PageBlock(s', k, p) == PageBlock(s, k, p)
  {
    assert Content(s', k, p) == Content(s, k, p);
    assert WellFormed(s');
    hide Inv, Ptr, View, WellFormed, Pad, Stored;
  }

  lemma StoredPages(s: Store, s': Store, o: nat, page: nat, buf: seq<Byte>, k: int)
    requires WellFormed(s) && o < MAX_OBJECTS && page < MAX_PAGES && |buf| <= BLOCK_SIZE
    requires Stored(s, s', o, page, buf)
    ensures PagesOf(s', k) == if k == o then PagesOf(s, o)[page := Pad(buf)] else PagesOf(s, k)
  {
    hide Stored, Ptr, PageBlock, WellFormed, Pad;
    StoredHere(s, s', o, page, buf);
    forall p | !(k == o && p == page)
      ensures Ptr(s', Page(k, p)) == 0 <==> Ptr(s, Page(k, p)) == 0
      ensures Ptr(s, Page(k, p)) != 0 ==> PageBlock(s', k, p) == PageBlock(s, k, p)
    {
      StoredElsewhere(s, s', o, page, buf, k, p);
    }
  }

  lemma WriteMeets(s: Store, objid: int, buf: seq<Byte>, offset: nat, adjust: nat)
    requires Inv(s) && Legal(s, OpWrite(objid, buf, offset), adjust)
    ensures var (s', v) := Write(s, objid, buf, offset, adjust);
      Inv(s') && Spec(FilesOf(s), OpWrite(objid, buf, offset), FilesOf(s'), Code(v))
  {
    hide Coherent, View, Ptr, Owned, Numbered, Grouped, FilesOf, Cells, Written, Stored, Taken, Place;
    FreeMeansRoom(s);
    if objid < 2 {
    } else if FirstClear(s.data) == DATA_BLOCKS {
      MarkKeeps(s, objid - 2);
      MarkFiles(s, objid - 2);
    } else {
      FilesAt(s, objid);
      WriteKeeps(s, objid, buf, offset, adjust);
      WriteFiles(s, objid, buf, offset, adjust);
    }
  }

  lemma WriteKeeps(s: Store, objid: int, buf: seq<Byte>, offset: nat, adjust: nat)
    requires Inv(s) && Legal(s, OpWrite(objid, buf, offset), adjust) && 2 <= objid
    requires FirstClear(s.data) < DATA_BLOCKS
    ensures Inv(Write(s, objid, buf, offset, adjust).0)
  {
    hide Inv, Ptr, Write;
    WriteStores(s, objid, buf, offset, adjust);
  }

  lemma MarkFiles(s: Store, o: nat)
    requires Inv(s) && o < MAX_OBJECTS
    ensures FilesOf(Mark(s, o)) == FilesOf(s)
  {
    hide Coherent, View, Ptr, PagesOf, Owned, Numbered, Grouped;
    MarkKeeps(s, o);
    AllPagesSame(s, Mark(s, o));
  }

  lemma WriteAllowed(s: Store, objid: int, buf: seq<Byte>, offset: nat, adjust: nat)
    requires Inv(s) && Legal(s, OpWrite(objid, buf, offset), adjust) && 2 <= objid
    ensures WellFormed(s) && objid < MAX_OBJECTS + 2 && CanWrite(s, objid, buf, offset) && Live(s, objid - 2)
    ensures |buf| <= BLOCK_SIZE && PageOf(offset) < MAX_PAGES && s.inode == s.inode[objid - 2 := true]
    ensures Ptr(s, Page(objid - 2, PageOf(offset))) == 0 || adjust == WRITE_OFFSET
  {
    hide Coherent, Ptr, Owned, Numbered, Grouped;
  }

  lemma WritePages(s: Store, objid: int, buf: seq<Byte>, offset: nat, adjust: nat, k: int)
    requires Inv(s) && Legal(s, OpWrite(objid, buf, offset), adjust) && 2 <= objid
    requires FirstClear(s.data) < DATA_BLOCKS
    ensures var (s', o) := (Write(s, objid, buf, offset, adjust).0, objid - 2);
      PagesOf(s', k) == if k == o then PagesOf(s, o)[PageOf(offset) := Pad(buf)] else PagesOf(s, k)
  {
    hide Inv, WellFormed, Legal, CanWrite, Live, Ptr, PagesOf, Write, Stored, Pad;
    WriteAllowed(s, objid, buf, offset, adjust);
    WriteStores(s, objid, buf, offset, adjust);
    StoredPages(s, Write(s, objid, buf, offset, adjust).0, objid - 2, PageOf(offset), buf, k);
  }

  lemma PageThere(s: Store, o: int, page: nat)
    requires WellFormed(s) && page < MAX_PAGES
    ensures page in PagesOf(s, o) <==> Ptr(s, Page(o, page)) != 0
  {
    hide WellFormed, Ptr, PageBlock;
  }

  lemma WriteFiles(s: Store, objid: int, buf: seq<Byte>, offset: nat, adjust: nat)
    requires Inv(s) && Legal(s, OpWrite(objid, buf, offset), adjust) && 2 <= objid
    requires FirstClear(s.data) < DATA_BLOCKS
    ensures objid in FilesOf(s)
    ensures FilesOf(Write(s, objid, buf, offset, adjust).0)
         == FilesOf(s)[objid := Written(FilesOf(s)[objid], PageOf(offset), buf)]
  {
    hide Inv, WellFormed, Legal, CanWrite, Ptr, PagesOf, FilesOf, Write, Pad, PageWith;
    WriteAllowed(s, objid, buf, offset, adjust);
    var (o, page) := (objid - 2, PageOf(offset));
    var s' := Write(s, objid, buf, offset, adjust).0;
    WriteTable(s, objid, buf, offset, adjust);
    forall k: int ensures PagesOf(s', k) == if k == o then PagesOf(s, o)[page := Pad(buf)] else PagesOf(s, k) {
      WritePages(s, objid, buf, offset, adjust, k);
    }
    PageThere(s, o, page);
    PadIs(buf);
    FilesAt(s, objid);
    OneEntryChanged(s, s', o);
  }

  lemma ReadMeets(s: Store, objid: int, size: nat, offset: nat)
    requires Inv(s) && Legal(s, OpRead(objid, size, offset), 0)
    ensures var (s', a) := Read(s, objid, size, offset);
      && SameViews(s'.layer, s.layer) && s' == s.(layer := s'.layer)
      && Spec(FilesOf(s), OpRead(objid, size, offset), FilesOf(s), a)
  {
    hide Coherent, Owned, Grouped, Numbered, View, Ptr, ReadAll, SameViews, FilesOf, PagesOf, Fetched;
    if 2 <= objid {
      FilesAt(s, objid);
      ReadAllPages(s, objid - 2, size, offset);
      GotFetched(s, objid, size, offset);
    } else {
      assert SameViews(s.layer, s.layer) by {
        SameViewsSelf(s.layer);
      }
    }
  }

  lemma SameViewsSelf(y: Layer)
    ensures SameViews(y, y)
  {
  }

  lemma BlocksCover(size: nat)
    ensures size <= BLOCK_SIZE * BlocksFor(size)
    ensures forall i :: 0 <= i < size ==> i / BLOCK_SIZE < BlocksFor(size)
  {
  }

  lemma FlatByte(blocks: seq<Block>, i: nat)
    requires i < BLOCK_SIZE * |blocks|
    ensures i / BLOCK_SIZE < |blocks| && Flatten(blocks)[i] == blocks[i / BLOCK_SIZE][i % BLOCK_SIZE]
  {
    hide Flatten;
  }

  lemma ReadPageMapped(s: Store, o: int, first: nat, n: nat, k: nat)
    requires WellFormed(s) && CanRead(s, o, first, n) && k < n
    ensures first + k in PagesOf(s, o) && PagesOf(s, o)[first + k] == PageBlock(s, o, first + k)
  {
    hide WellFormed, PagesOf, PageBlock, Ptr;
    MappedPage(s, o, first + k);
  }

  /** Byte i of the pages read is that byte of the file's page. */
  lemma GotByte(s: Store, o: nat, size: nat, offset: nat, i: nat)
    requires WellFormed(s) && CanRead(s, o, PageOf(offset), BlocksFor(size)) && i < size
    ensures var got := Flatten(ReadAll(s, o, size, offset).out);
      && size <= |got| && PageOf(offset) + i / BLOCK_SIZE in PagesOf(s, o)
      && got[i] == PagesOf(s, o)[PageOf(offset) + i / BLOCK_SIZE][i % BLOCK_SIZE]
  {
    assert o < MAX_OBJECTS && PageOf(offset) + BlocksFor(size) <= MAX_PAGES;
    hide WellFormed, CanRead, ReadAll, PagesOf, PageOf, BlocksFor, Pages, Flatten, PageBlock, SameViews;
    var (first, n) := (PageOf(offset), BlocksFor(size));
    BlocksCover(size);
    ReadAllPages(s, o, size, offset);
    FlatByte(ReadAll(s, o, size, offset).out, i);
    ReadPageMapped(s, o, first, n, i / BLOCK_SIZE);
    PageInOrder(s, o, first, n, i / BLOCK_SIZE);
  }

  lemma GotFetched(s: Store, objid: int, size: nat, offset: nat)
    requires Inv(s) && 2 <= objid && CanRead(s, objid - 2, PageOf(offset), BlocksFor(size))
    ensures objid in FilesOf(s)
    ensures var a := Read(s, objid, size, offset).1; a.Bytes? && Fetched(FilesOf(s)[objid], size, offset, a.bytes)
  {
    assert WellFormed(s) && Live(s, objid - 2);
    FilesAt(s, objid);
    hide Inv, CanRead, WellFormed, ReadAll, FilesOf, PagesOf, PageOf, BlocksFor, Flatten;
    forall i: nat | i < size
      ensures var got := Flatten(ReadAll(s, objid - 2, size, offset).out);
        && size <= |got| && PageOf(offset) + i / BLOCK_SIZE in PagesOf(s, objid - 2)
        && got[i] == PagesOf(s, objid - 2)[PageOf(offset) + i / BLOCK_SIZE][i % BLOCK_SIZE]
    {
      GotByte(s, objid - 2, size, offset, i);
    }
  }

  lemma PageInOrder(s: Store, o: int, first: int, n: nat, k: nat)
    requires WellFormed(s) && k < n
    ensures Pages(s, o, first, n)[k] == PageBlock(s, o, first + k)
  {
    hide WellFormed, PageBlock;
  }

  lemma MappedPage(s: Store, o: int, p: int)
    requires WellFormed(s) && 0 <= p < MAX_PAGES && Ptr(s, Page(o, p)) != 0
    ensures p in PagesOf(s, o) && PagesOf(s, o)[p] == PageBlock(s, o, p)
  {
  }

  /** A read moves cache lines about and leaves the store sound. */
  lemma ReadKeeps(s: Store, objid: int, size: nat, offset: nat)
    requires Inv(s) && Legal(s, OpRead(objid, size, offset), 0)
    ensures Inv(Read(s, objid, size, offset).0) && FilesOf(Read(s, objid, size, offset).0) == FilesOf(s)
    ensures forall t :: Ptr(Read(s, objid, size, offset).0, t) == Ptr(s, t)
  {
    hide Coherent, Owned, Grouped, View, Ptr, FilesOf, PagesOf, Spec, Read, SameViews;
    var s' := Read(s, objid, size, offset).0;
    ReadMeets(s, objid, size, offset);
    SeenTheSame(s, s');
  }

  lemma SeenTheSame(s: Store, s': Store)
    requires Inv(s) && WellFormed(s') && s' == s.(layer := s'.layer) && SameViews(s'.layer, s.layer)
    ensures Inv(s') && FilesOf(s') == FilesOf(s)
    ensures forall t :: Ptr(s', t) == Ptr(s, t)
  {
    hide Coherent, Owned, Grouped, View, Ptr, PagesOf;
    SamePointers(s, s');
    SameGroups(s, s');
    OwnedExt(s.data, s.inode, Pointers(s), Pointers(s'));
    forall k: int ensures PagesOf(s', k) == PagesOf(s, k) {
      SamePages(s, s', k);
    }
  }

  // ---------- runs ----------

  /** Every operation keeps the store sound and does to the files what the
      specification says. */
  lemma StepMeets(s: Store, op: Op, adjust: nat)
    requires Inv(s) && Legal(s, op, adjust)
    ensures var (s', a) := Step(s, op, adjust); Inv(s') && Spec(FilesOf(s), op, FilesOf(s'), a)
  {
    hide Inv, Spec, FilesOf, Find, Create, Rename, Destroy, Write, Read;
    match op
    case OpFind(key) =>
      FindMeets(s, key);
    case OpCreate(key) =>
      CreateMeets(s, key);
      CreateKeeps(s, key);
    case OpRename(key, newname) =>
      RenameMeets(s, key, newname);
      RenameKeeps(s, key, newname);
    case OpDestroy(key) =>
      DestroyMeets(s, key);
      DestroyKeeps(s, key);
    case OpWrite(objid, buf, offset) =>
      WriteMeets(s, objid, buf, offset, adjust);
    case OpRead(objid, size, offset) =>
      ReadMeets(s, objid, size, offset);
      ReadKeeps(s, objid, size, offset);
  }

  /** A run of operations, each legal where it is made. */
  ghost predicate LegalRun(s: Store, ops: seq<Op>, adjust: nat)
    requires WellFormed(s)
    decreases |ops|
  {
    |ops| == 0 || (Legal(s, ops[0], adjust) && LegalRun(Step(s, ops[0], adjust).0, ops[1..], adjust))
  }

  ghost function Run(s: Store, ops: seq<Op>, adjust: nat): (r: (Store, seq<Answer>))
    requires WellFormed(s) && LegalRun(s, ops, adjust)
    ensures WellFormed(r.0) && |r.1| == |ops|
    decreases |ops|
  {
    if |ops| == 0 then (s, [])
    else
      var (s1, a) := Step(s, ops[0], adjust);
      var (s2, rest) := Run(s1, ops[1..], adjust);
      (s2, [a] + rest)
  }

  /** The files after some operations, and the answers, as specified. */
  ghost predicate SpecRun(f: Files, ops: seq<Op>, f': Files, answers: seq<Answer>)
    decreases |ops|
  {
    && |answers| == |ops|
    && if |ops| == 0 then f' == f
       else exists g :: Spec(f, ops[0], g, answers[0]) && SpecRun(g, ops[1..], f', answers[1..])
  }

  /** Over every legal run the store is sound, and its files and its answers are
      those the specification gives. */
  lemma {:induction false} RunMeets(s: Store, ops: seq<Op>, adjust: nat)
    requires Inv(s) && LegalRun(s, ops, adjust)
    ensures var (s', answers) := Run(s, ops, adjust);
      Inv(s') && SpecRun(FilesOf(s), ops, FilesOf(s'), answers)
    decreases |ops|
  {
    hide Coherent, Owned, Grouped, Numbered, Spec, FilesOf, Step, Ptr;
    if |ops| != 0 {
      StepMeets(s, ops[0], adjust);
      var (s1, a) := Step(s, ops[0], adjust);
      RunMeets(s1, ops[1..], adjust);
      var (s', answers) := Run(s, ops, adjust);
      assert answers == [a] + Run(s1, ops[1..], adjust).1;
      assert answers[1..] == Run(s1, ops[1..], adjust).1;
    }
  }

  // ---------- what the specification promises a user ----------

  /** The operation neither writes the page nor destroys the file. */
  ghost predicate Spares(f: Files, op: Op, id: int, page: int) {
    && (op.OpWrite? ==> !(op.objid == id && PageOf(op.offset) == page))
    && (op.OpDestroy? ==> !Named(f, op.key, id))
  }

  lemma SparedStays(f: Files, op: Op, f': Files, a: Answer, id: int, page: int)
    requires Spec(f, op, f', a) && Spares(f, op, id, page)
    requires id in f && 2 <= id < MAX_OBJECTS + 2 && page in f[id].pages
    ensures id in f' && page in f'[id].pages && f'[id].pages[page] == f[id].pages[page]
  {
    hide Cells, Fetched;
  }

  ghost predicate SparingStep(f: Files, op: Op, f': Files, a: Answer, id: int, page: int) {
    Spec(f, op, f', a) && Spares(f, op, id, page)
  }

  /** A run, as specified, of operations that all spare the page. */
  ghost predicate SparingRun(f: Files, ops: seq<Op>, f': Files, answers: seq<Answer>, id: int, page: int)
    decreases |ops|
  {
    && |answers| == |ops|
    && if |ops| == 0 then f' == f
       else exists g :: SparingStep(f, ops[0], g, answers[0], id, page)
                     && SparingRun(g, ops[1..], f', answers[1..], id, page)
  }

  lemma {:induction false} SparedThroughout(f: Files, ops: seq<Op>, f': Files, answers: seq<Answer>, id: int, page: int)
    requires SparingRun(f, ops, f', answers, id, page) && id in f && 2 <= id < MAX_OBJECTS + 2 && page in f[id].pages
    ensures id in f' && page in f'[id].pages && f'[id].pages[page] == f[id].pages[page]
    decreases |ops|
  {
    hide Spec, Spares;
    if |ops| > 0 {
      var g :| SparingStep(f, ops[0], g, answers[0], id, page) && SparingRun(g, ops[1..], f', answers[1..], id, page);
      SparedStays(f, ops[0], g, answers[0], id, page);
      SparedThroughout(g, ops[1..], f', answers[1..], id, page);
    }
  }

  /** What is written to a page, and zeros up to the page's end, is what any later read
      of the page returns, whatever has gone between that neither wrote the page nor
      destroyed the file. */
  lemma WrittenIsRead(f: Files, objid: int, buf: seq<Byte>, offset: nat, f1: Files, a: Answer,
                      ops: seq<Op>, f2: Files, answers: seq<Answer>, size: nat, from: nat, f3: Files, b: Answer)
    requires 2 <= objid < MAX_OBJECTS + 2
    requires Spec(f, OpWrite(objid, buf, offset), f1, a) && a != Code(-1)
    requires SparingRun(f1, ops, f2, answers, objid, PageOf(offset))
    requires Spec(f2, OpRead(objid, size, from), f3, b)
    ensures b.Bytes? && |b.bytes| == size && |buf| <= BLOCK_SIZE
    ensures forall i :: 0 <= i < size && PageOf(from) + i / BLOCK_SIZE == PageOf(offset) ==>
      b.bytes[i] == if i % BLOCK_SIZE < |buf| then buf[i % BLOCK_SIZE] else 0
  {
    hide Cells;
    SparedThroughout(f1, ops, f2, answers, objid, PageOf(offset));
  }

  /** A run, legal throughout, of operations that spare the page where they are made. */
  ghost predicate SparesRun(s: Store, ops: seq<Op>, adjust: nat, id: int, page: int): (r: bool)
    requires WellFormed(s)
    ensures r ==> LegalRun(s, ops, adjust)
    decreases |ops|
  {
    |ops| == 0 || (
      && Legal(s, ops[0], adjust) && Spares(FilesOf(s), ops[0], id, page)
      && SparesRun(Step(s, ops[0], adjust).0, ops[1..], adjust, id, page))
  }

  lemma {:induction false} RunSpares(s: Store, ops: seq<Op>, adjust: nat, id: int, page: int)
    requires Inv(s) && SparesRun(s, ops, adjust, id, page)
    ensures Inv(Run(s, ops, adjust).0)
    ensures SparingRun(FilesOf(s), ops, FilesOf(Run(s, ops, adjust).0), Run(s, ops, adjust).1, id, page)
    decreases |ops|
  {
    assert WellFormed(s);
    hide Inv, Spec, Spares, FilesOf, Step, Legal, WellFormed;
    if |ops| != 0 {
      StepMeets(s, ops[0], adjust);
      var (s1, a) := Step(s, ops[0], adjust);
      RunSpares(s1, ops[1..], adjust, id, page);
      assert SparingStep(FilesOf(s), ops[0], FilesOf(s1), a, id, page);
      assert Run(s, ops, adjust).1[1..] == Run(s1, ops[1..], adjust).1;
    }
  }

  /** A run that is not empty, taken apart. */
  lemma FirstOf(s: Store, ops: seq<Op>, adjust: nat) returns (s1: Store, a: Answer)
    requires WellFormed(s) && LegalRun(s, ops, adjust) && |ops| > 0
    ensures Legal(s, ops[0], adjust) && (s1, a) == Step(s, ops[0], adjust)
    ensures WellFormed(s1) && LegalRun(s1, ops[1..], adjust)
    ensures Run(s, ops, adjust) == (Run(s1, ops[1..], adjust).0, [a] + Run(s1, ops[1..], adjust).1)
  {
    hide Coherent, ObjectShaped;
    s1, a := Step(s, ops[0], adjust).0, Step(s, ops[0], adjust).1;
    hide Step, CanRead;
  }

  /** And put together. */
  lemma StepThenRun(s: Store, s1: Store, a: Answer, ops: seq<Op>, adjust: nat)
    requires WellFormed(s) && |ops| > 0 && Legal(s, ops[0], adjust) && (s1, a) == Step(s, ops[0], adjust)
    requires LegalRun(s1, ops[1..], adjust)
    ensures LegalRun(s, ops, adjust)
    ensures Run(s, ops, adjust) == (Run(s1, ops[1..], adjust).0, [a] + Run(s1, ops[1..], adjust).1)
  {
    hide Coherent, ObjectShaped, Step, CanRead;
  }

  lemma FirstThenRest<T>(a: seq<T>, b: seq<T>)
    requires |a| > 0
    ensures |a + b| > 0 && (a + b)[0] == a[0] && (a + b)[1..] == a[1..] + b
  {
  }

  lemma OneThenBoth<T>(x: T, y: seq<T>, z: seq<T>)
    ensures ([x] + y) + z == [x] + (y + z)
  {
  }

  /** A run and another from where it ends are one run. */
  lemma {:induction false} RunsJoin(s: Store, a: seq<Op>, b: seq<Op>, adjust: nat)
    requires WellFormed(s) && LegalRun(s, a, adjust) && LegalRun(Run(s, a, adjust).0, b, adjust)
    ensures LegalRun(s, a + b, adjust)
    ensures var ((t, x), (u, y)) := (Run(s, a, adjust), Run(Run(s, a, adjust).0, b, adjust));
      Run(s, a + b, adjust) == (u, x + y)
    decreases |a|
  {
    if |a| == 0 {
      hide WellFormed;
      assert a + b == b && [] + Run(s, b, adjust).1 == Run(s, b, adjust).1;
    } else {
      hide WellFormed, Legal, Step, Run, LegalRun;
      var s1, answer := FirstOf(s, a, adjust);
      RunsJoin(s1, a[1..], b, adjust);
      FirstThenRest(a, b);
      StepThenRun(s, s1, answer, a + b, adjust);
      OneThenBoth(answer, Run(s1, a[1..], adjust).1, Run(Run(s, a, adjust).0, b, adjust).1);
    }
  }

  lemma OneStepRun(s: Store, op: Op, adjust: nat)
    requires WellFormed(s) && Legal(s, op, adjust)
    ensures LegalRun(s, [op], adjust) && Run(s, [op], adjust) == (Step(s, op, adjust).0, [Step(s, op, adjust).1])
  {
    hide Coherent, ObjectShaped, Step;
    var (s1, a) := Step(s, op, adjust);
    assert [op][1..] == [] && [a] + [] == [a];
    StepThenRun(s, s1, a, [op], adjust);
  }

  /** Of the store itself: in a run that writes a page, goes on with operations that
      spare it, and ends in a read, what the read answers of the page is what was
      written, and zeros where the buffer fell short of the page. */
  lemma RunReturnsWritten(s: Store, objid: int, buf: seq<Byte>, offset: nat, ops: seq<Op>, size: nat, from: nat,
                          adjust: nat)
    requires Inv(s) && 2 <= objid && Legal(s, OpWrite(objid, buf, offset), adjust)
    requires Step(s, OpWrite(objid, buf, offset), adjust).1 != Code(-1)
    requires var s1 := Step(s, OpWrite(objid, buf, offset), adjust).0;
      && SparesRun(s1, ops, adjust, objid, PageOf(offset))
      && Legal(Run(s1, ops, adjust).0, OpRead(objid, size, from), adjust)
    ensures var all := [OpWrite(objid, buf, offset)] + ops + [OpRead(objid, size, from)];
      && LegalRun(s, all, adjust) && |buf| <= BLOCK_SIZE
      && var last := Run(s, all, adjust).1[|ops| + 1];
         && last.Bytes? && |last.bytes| == size
         && forall i :: 0 <= i < size && PageOf(from) + i / BLOCK_SIZE == PageOf(offset) ==>
              last.bytes[i] == if i % BLOCK_SIZE < |buf| then buf[i % BLOCK_SIZE] else 0
  {
    hide Inv, WellFormed, Legal, Step, Spec, SparesRun, SparingRun, LegalRun, Run, FilesOf, Pad,
      CanWrite;
    WriteAllowed(s, objid, buf, offset, adjust);
    var (write, read) := (OpWrite(objid, buf, offset), OpRead(objid, size, from));
    var (s1, a) := Step(s, write, adjust);
    StepMeets(s, write, adjust);
    RunSpares(s1, ops, adjust, objid, PageOf(offset));
    var (s2, answers) := Run(s1, ops, adjust);
    StepMeets(s2, read, adjust);
    var (s3, b) := Step(s2, read, adjust);
    WrittenIsRead(FilesOf(s), objid, buf, offset, FilesOf(s1), a, ops, FilesOf(s2), answers, size, from,
      FilesOf(s3), b);
    OneStepRun(s, write, adjust);
    OneStepRun(s2, read, adjust);
    RunsJoin(s, [write], ops, adjust);
    RunsJoin(s, [write] + ops, [read], adjust);
    assert ([a] + answers + [b])[|ops| + 1] == b;
  }

  /** A write leaves every other page of every file, and the files there are. */
  lemma WriteSparesOthers(f: Files, objid: int, buf: seq<Byte>, offset: nat, f': Files, a: Answer)
    requires Spec(f, OpWrite(objid, buf, offset), f', a)
    ensures f'.Keys == f.Keys && forall id :: id in f ==> f'[id].key == f[id].key
    ensures forall id, p :: id in f && !(id == objid && p == PageOf(offset)) ==>
      && (p in f'[id].pages <==> p in f[id].pages)
      && (p in f[id].pages ==> f'[id].pages[p] == f[id].pages[p])
  {
    hide Cells, PageWith;
  }

  // ---------- offsets inside a page ----------

  /** Byte n of the file is b. */
  ghost predicate ByteIs(f: File, n: nat, b: Byte) {
    n / BLOCK_SIZE in f.pages && f.pages[n / BLOCK_SIZE][n % BLOCK_SIZE] == b
  }

  /** The bytes of the file from offset on are these. */
  ghost predicate InPlace(f: File, offset: nat, bytes: seq<Byte>) {
    forall i :: 0 <= i < |bytes| ==> ByteIs(f, offset + i, bytes[i])
  }

  lemma AlignedParts(offset: nat, i: nat)
    requires offset % BLOCK_SIZE == 0
    ensures (offset + i) / BLOCK_SIZE == PageOf(offset) + i / BLOCK_SIZE && (offset + i) % BLOCK_SIZE == i % BLOCK_SIZE
  {
  }

  lemma AlignedRead(f: File, size: nat, offset: nat, bytes: seq<Byte>)
    requires Fetched(f, size, offset, bytes) && offset % BLOCK_SIZE == 0
    ensures InPlace(f, offset, bytes)
  {
    forall i | 0 <= i < |bytes| ensures ByteIs(f, offset + i, bytes[i]) {
      AlignedParts(offset, i);
    }
  }

  /** n pages from first on, each of a one and zeros. */
  ghost function OnesPages(first: int, n: nat): (pages: map<int, Block>)
    ensures forall p :: p in pages <==> first <= p < first + n
    ensures forall p :: p in pages ==> pages[p] == PageWith([1])
    decreases n
  {
    if n == 0 then map[] else OnesPages(first + 1, n - 1)[first := PageWith([1])]
  }

  /** A file with enough such pages for a read of size bytes. */
  ghost function Ones(first: int, size: nat): File {
    File([], 0, OnesPages(first, size + 1))
  }

  function OnesRead(size: nat): (bytes: seq<Byte>)
    ensures |bytes| == size && forall i :: 0 <= i < size ==> bytes[i] == if i % BLOCK_SIZE == 0 then 1 else 0
  {
    seq<Byte>(size, i => if i % BLOCK_SIZE == 0 then 1 else 0)
  }

  lemma OnesFetched(size: nat, offset: nat)
    ensures Fetched(Ones(PageOf(offset), size), size, offset, OnesRead(size))
  {
    hide PageOf;
    forall i | 0 <= i < size ensures PageWith([1])[i % BLOCK_SIZE] == OnesRead(size)[i] {
    }
  }

  lemma OnesMisplaced(size: nat, offset: nat)
    requires 0 < size && offset % BLOCK_SIZE != 0
    ensures !InPlace(Ones(PageOf(offset), size), offset, OnesRead(size))
  {
    assert OnesRead(size)[0] == 1 && PageWith([1])[offset % BLOCK_SIZE] == 0;
    assert !ByteIs(Ones(PageOf(offset), size), offset + 0, 1);
  }

  /** A read of any length that is not zero starts at the offset asked for, for all
      files, exactly when the offset is the start of a page. */
  lemma ReadInPlaceIff(size: nat, offset: nat)
    requires 0 < size
    ensures (forall f, bytes :: Fetched(f, size, offset, bytes) ==> InPlace(f, offset, bytes))
            <==> offset % BLOCK_SIZE == 0
  {
    hide Fetched, InPlace, Ones;
    if offset % BLOCK_SIZE == 0 {
      forall f, bytes | Fetched(f, size, offset, bytes) ensures InPlace(f, offset, bytes) {
        AlignedRead(f, size, offset, bytes);
      }
    } else {
      OnesFetched(size, offset);
      OnesMisplaced(size, offset);
    }
  }

  /** And a write likewise. */
  lemma WriteInPlaceIff(n: nat, offset: nat)
    requires 0 < n <= BLOCK_SIZE
    ensures (forall f, buf :: |buf| == n ==> InPlace(Written(f, PageOf(offset), buf), offset, buf))
            <==> offset % BLOCK_SIZE == 0
  {
    if offset % BLOCK_SIZE == 0 {
      forall f: File, buf: seq<Byte> | |buf| == n ensures InPlace(Written(f, PageOf(offset), buf), offset, buf) {
        WrittenInPlace(f, buf, offset);
      }
    } else {
      var (f, buf) := (Ones(0, 0), OnesRead(n));
      assert buf[0] == 1 && PageWith(buf)[offset % BLOCK_SIZE] == 0;
      assert !ByteIs(Written(f, PageOf(offset), buf), offset + 0, 1);
      assert !InPlace(Written(f, PageOf(offset), buf), offset, buf);
    }
  }

  lemma WrittenInPlace(f: File, buf: seq<Byte>, offset: nat)
    requires |buf| <= BLOCK_SIZE && offset % BLOCK_SIZE == 0
    ensures InPlace(Written(f, PageOf(offset), buf), offset, buf)
  {
    forall i | 0 <= i < |buf| ensures ByteIs(Written(f, PageOf(offset), buf), offset + i, buf[i]) {
      AlignedParts(offset, i);
    }
  }

  /** A read of one byte at offset 100 returns the file's first byte. */
  lemma ReadAtHundred(f: File, bytes: seq<Byte>)
    requires Fetched(f, 1, 100, bytes)
    ensures 0 in f.pages && bytes == [f.pages[0][0]]
  {
    assert PageOf(100) + 0 / BLOCK_SIZE == 0;
    assert 0 in f.pages && bytes[0] == f.pages[0][0];
  }

  // ---------- the bytes of a file ----------

  /** start is the last multiple of 4096 up to the offset. */
  predicate PageStart(start: nat, offset: nat) {
    start % BLOCK_SIZE == 0 && start <= offset < start + BLOCK_SIZE
  }

  lemma StartsPage(start: nat, offset: nat)
    requires PageStart(start, offset)
    ensures PageOf(start) == PageOf(offset) && start == BLOCK_SIZE * PageOf(offset)
  {
  }

  lemma ReadFromStart(f: File, size: nat, offset: nat, start: nat, bytes: seq<Byte>)
    requires Fetched(f, size, offset, bytes) && PageStart(start, offset)
    ensures InPlace(f, start, bytes)
  {
    StartsPage(start, offset);
    AlignedRead(f, size, start, bytes);
  }

  /** Of the store itself: byte i of a read is byte start + i of the file, from the
      page boundary at or before the offset asked for. */
  lemma ReadsInPlace(s: Store, objid: int, size: nat, offset: nat, start: nat)
    requires Inv(s) && 2 <= objid && Legal(s, OpRead(objid, size, offset), 0) && PageStart(start, offset)
    ensures var a := Read(s, objid, size, offset).1;
      objid in FilesOf(s) && a.Bytes? && |a.bytes| == size && InPlace(FilesOf(s)[objid], start, a.bytes)
  {
    ReadMeets(s, objid, size, offset);
    hide Inv, FilesOf, Read, Legal, InPlace, PageStart, Fetched;
    ReadFromStart(FilesOf(s)[objid], size, offset, start, Read(s, objid, size, offset).1.bytes);
  }

  /** A write, by bytes: the 4096 from the page boundary on are the buffer and
      zeros, and every other byte of the file is as before. */
  ghost predicate Rewritten(f: File, f': File, start: nat, buf: seq<Byte>) {
    forall n: nat, x: Byte :: ByteIs(f', n, x) <==>
      if n < start || start + BLOCK_SIZE <= n then ByteIs(f, n, x)
      else x == if n - start < |buf| then buf[n - start] else 0
  }

  lemma WrittenBytes(f: File, buf: seq<Byte>, offset: nat, start: nat)
    requires |buf| <= BLOCK_SIZE && PageStart(start, offset)
    ensures Rewritten(f, Written(f, PageOf(offset), buf), start, buf)
  {
    StartsPage(start, offset);
    var page := PageOf(offset);
    assert forall n: nat :: n / BLOCK_SIZE == page <==> start <= n < start + BLOCK_SIZE;
    hide PageOf;
  }

  lemma SpecRewrites(f: Files, objid: int, buf: seq<Byte>, offset: nat, f': Files, a: Answer, start: nat)
    requires Spec(f, OpWrite(objid, buf, offset), f', a) && a != Code(-1) && PageStart(start, offset)
    ensures objid in f && f'.Keys == f.Keys && (forall id :: id in f && id != objid ==> f'[id] == f[id])
    ensures Rewritten(f[objid], f'[objid], start, buf)
  {
    hide Cells, Written, Rewritten, PageStart, PageOf;
    WrittenBytes(f[objid], buf, offset, start);
  }

  /** Of the store itself: any successful write, at any offset. */
  lemma WritesInPlace(s: Store, objid: int, buf: seq<Byte>, offset: nat, adjust: nat, start: nat)
    requires Inv(s) && 2 <= objid && Legal(s, OpWrite(objid, buf, offset), adjust) && PageStart(start, offset)
    requires Step(s, OpWrite(objid, buf, offset), adjust).1 != Code(-1)
    ensures var (f, f') := (FilesOf(s), FilesOf(Step(s, OpWrite(objid, buf, offset), adjust).0));
      && objid in f && f'.Keys == f.Keys && (forall id :: id in f && id != objid ==> f'[id] == f[id])
      && Rewritten(f[objid], f'[objid], start, buf)
  {
    hide Inv, FilesOf, Step, Spec, Legal, Rewritten, CanWrite, PageStart;
    WriteAllowed(s, objid, buf, offset, adjust);
    StepMeets(s, OpWrite(objid, buf, offset), adjust);
    var (s', a) := Step(s, OpWrite(objid, buf, offset), adjust);
    SpecRewrites(FilesOf(s), objid, buf, offset, FilesOf(s'), a, start);
  }
}
