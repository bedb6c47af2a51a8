/** What the object store sees below it: data blocks 0, 1, 2, ... kept on disk
    from WRITE_OFFSET on, in one build directly and in the other behind a
    direct-mapped write-back cache. */
module BlockLayer {
  import opened Blocks

  const CACHE_BLOCKS := 32768
  const OBJECT_BLOCKS := 22528
  const INODE_BIT_BLOCKS := 31
  const DATA_BIT_BLOCKS := 256
  const WRITE_OFFSET := 22815
  const DATA_BLOCKS := 8388608
  const DISK_BLOCKS := 8411423

  /** disk is the whole device; tag, dirty and line are the cache. */
  datatype Layer = Layer(cached: bool, disk: seq<Block>, tag: seq<int>, dirty: seq<bool>, line: seq<Block>)

  predicate IsData(b: int) {
    0 <= b < DATA_BLOCKS
  }

  function SlotOf(b: nat): (c: nat)
    ensures c < CACHE_BLOCKS
  {
    b % CACHE_BLOCKS
  }

  function TagOf(b: nat): nat {
    b / CACHE_BLOCKS
  }

  function Home(t: int, c: nat): int {
    t * CACHE_BLOCKS + c
  }

  lemma HomeOfSlot(b: nat)
    ensures Home(TagOf(b), SlotOf(b)) == b
    ensures forall t, c: nat :: c < CACHE_BLOCKS && Home(t, c) == b ==> t == TagOf(b) && c == SlotOf(b)
  {
  }

  ghost predicate Shaped(l: Layer) {
    && |l.disk| == DISK_BLOCKS
    && |l.tag| == CACHE_BLOCKS
    && |l.dirty| == CACHE_BLOCKS
    && |l.line| == CACHE_BLOCKS
    && forall c :: 0 <= c < CACHE_BLOCKS ==> -1 <= l.tag[c] < 256
  }

  /** A dirty line knows its block; a clean line with a block equals the disk.
      The build without a cache never fills a line. */
  ghost predicate Coherent(l: Layer) {
    && Shaped(l)
    && (forall c :: 0 <= c < CACHE_BLOCKS && l.dirty[c] ==> 0 <= l.tag[c])
    && (forall c :: 0 <= c < CACHE_BLOCKS && !l.cached ==> l.tag[c] == -1)
    && (forall c :: 0 <= c < CACHE_BLOCKS && 0 <= l.tag[c] && !l.dirty[c] ==>
          l.line[c] == l.disk[WRITE_OFFSET + Home(l.tag[c], c)])
  }

  /** The contents of data block b, wherever the newest copy is. */
  ghost function View(l: Layer, b: int): Block {
    if !IsData(b) || !Shaped(l) then Zero()
    else if l.cached && l.tag[SlotOf(b)] == TagOf(b) then l.line[SlotOf(b)]
    else l.disk[WRITE_OFFSET + b]
  }

  function WriteBack(l: Layer, c: nat): (r: Layer)
    requires Shaped(l) && c < CACHE_BLOCKS
    requires l.dirty[c] ==> 0 <= l.tag[c]
    ensures Shaped(r)
  {
    if l.dirty[c] then l.(disk := l.disk[WRITE_OFFSET + Home(l.tag[c], c) := l.line[c]]) else l
  }

  function WriteBlock(l: Layer, b: nat, buf: Block): (r: Layer)
    requires Coherent(l) && IsData(b)
    ensures Shaped(r)
  {
    if !l.cached then l.(disk := l.disk[WRITE_OFFSET + b := buf])
    else
      var c := SlotOf(b);
      var l1 := WriteBack(l, c);
      l1.(line := l1.line[c := buf], tag := l1.tag[c := TagOf(b)], dirty := l1.dirty[c := true])
  }

  function Fetch(l: Layer, b: nat): (r: Layer)
    requires Coherent(l) && IsData(b)
    ensures Shaped(r)
  {
    var c := SlotOf(b);
    if !l.cached || l.tag[c] == TagOf(b) then l
    else
      var l1 := WriteBack(l, c);
      l1.(line := l1.line[c := l1.disk[WRITE_OFFSET + b]], tag := l1.tag[c := TagOf(b)], dirty := l1.dirty[c := false])
  }

  function ReadBlock(l: Layer, b: nat): Block
    requires Coherent(l) && IsData(b)
  {
    if !l.cached then l.disk[WRITE_OFFSET + b] else Fetch(l, b).line[SlotOf(b)]
  }

  function Discard(l: Layer, b: nat): (r: Layer)
    requires Coherent(l) && IsData(b)
    ensures Shaped(r)
  {
    var c := SlotOf(b);
    if l.cached && l.tag[c] == TagOf(b) then l.(tag := l.tag[c := -1], dirty := l.dirty[c := false]) else l
  }

  lemma WriteBackView(l: Layer, c: nat)
    requires Coherent(l) && c < CACHE_BLOCKS
    ensures Shaped(WriteBack(l, c))
    ensures forall x :: View(WriteBack(l, c), x) == View(l, x)
    ensures l.cached && 0 <= l.tag[c] ==> l.line[c] == WriteBack(l, c).disk[WRITE_OFFSET + Home(l.tag[c], c)]
    ensures forall d :: 0 <= d < CACHE_BLOCKS && d != c && 0 <= l.tag[d] ==>
        WriteBack(l, c).disk[WRITE_OFFSET + Home(l.tag[d], d)] == l.disk[WRITE_OFFSET + Home(l.tag[d], d)]
  {
    forall x ensures View(WriteBack(l, c), x) == View(l, x) {
      if IsData(x) {
        HomeOfSlot(x);
      }
    }
  }

  /** A block write changes what is seen at that block only. */
  lemma WriteBlockView(l: Layer, b: nat, buf: Block)
    requires Coherent(l) && IsData(b)
    ensures Coherent(WriteBlock(l, b, buf))
    ensures WriteBlock(l, b, buf).cached == l.cached
    ensures forall x :: View(WriteBlock(l, b, buf), x) == if x == b then buf else View(l, x)
  {
    hide Home, SlotOf, TagOf;
    HomeOfSlot(b);
    if l.cached {
      WriteBackView(l, SlotOf(b));
    }
    forall x ensures View(WriteBlock(l, b, buf), x) == if x == b then buf else View(l, x) {
      if IsData(x) {
        HomeOfSlot(x);
      }
    }
  }

  lemma FetchMiss(l: Layer, b: nat)
    requires Coherent(l) && IsData(b) && l.cached && l.tag[SlotOf(b)] != TagOf(b)
    ensures Coherent(Fetch(l, b))
    ensures Fetch(l, b).line[SlotOf(b)] == View(l, b)
    ensures forall x :: View(Fetch(l, b), x) == View(l, x)
  {
    hide Home, SlotOf, TagOf;
    HomeOfSlot(b);
    WriteBackView(l, SlotOf(b));
    assert View(WriteBack(l, SlotOf(b)), b) == View(l, b);
    forall x ensures View(Fetch(l, b), x) == View(l, x) {
      assert View(WriteBack(l, SlotOf(b)), x) == View(l, x);
      if IsData(x) {
        HomeOfSlot(x);
      }
    }
  }

  /** A block read returns the newest copy and changes nothing that is seen. */
  lemma ReadBlockView(l: Layer, b: nat)
    requires Coherent(l) && IsData(b)
    ensures ReadBlock(l, b) == View(l, b)
    ensures Coherent(Fetch(l, b))
    ensures Fetch(l, b).cached == l.cached
    ensures forall x :: View(Fetch(l, b), x) == View(l, x)
  {
    if l.cached && l.tag[SlotOf(b)] != TagOf(b) {
      FetchMiss(l, b);
    }
  }

  /** Dropping a freed block's line disturbs no other block. */
  lemma DiscardView(l: Layer, b: nat)
    requires Coherent(l) && IsData(b)
    ensures Coherent(Discard(l, b))
    ensures Discard(l, b).cached == l.cached
    ensures forall x :: x != b ==> View(Discard(l, b), x) == View(l, x)
  {
    HomeOfSlot(b);
    forall x | x != b ensures View(Discard(l, b), x) == View(l, x) {
      if IsData(x) {
        HomeOfSlot(x);
      }
    }
  }

  // ---------- what reaches the disk ----------

  /** Lines other than c are as they were. */
  predicate OtherLinesSame(l: Layer, m: Layer, c: nat)
    requires |l.tag| == |m.tag| && |l.dirty| == |m.dirty| && |l.line| == |m.line|
  {
    && (forall d :: 0 <= d < |l.tag| && d != c ==> m.tag[d] == l.tag[d])
    && (forall d :: 0 <= d < |l.dirty| && d != c ==> m.dirty[d] == l.dirty[d])
    && forall d :: 0 <= d < |l.line| && d != c ==> m.line[d] == l.line[d]
  }

  /** Disk block x is the home of the dirty line that block b's use of the cache turns out. */
  predicate TurnsOut(l: Layer, b: nat, x: nat)
    requires Shaped(l)
  {
    var c := b % 32768;
    l.dirty[c] && x == 22815 + 32768 * l.tag[c] + c
  }

  /** The cache writes back and not through: the disk changes only where a dirty line
      is turned out, and there to what was seen of that line's block. A read that hits,
      and a drop, leave the disk alone. */
  lemma WritesBackOnly(l: Layer, b: nat, buf: Block, x: nat)
    requires Coherent(l) && IsData(b) && l.cached && x < DISK_BLOCKS
    ensures WriteBlock(l, b, buf).disk[x] == if TurnsOut(l, b, x) then View(l, x - 22815) else l.disk[x]
    ensures Fetch(l, b).disk[x] ==
      if l.tag[b % 32768] != b / 32768 && TurnsOut(l, b, x) then View(l, x - 22815) else l.disk[x]
    ensures Discard(l, b).disk == l.disk
  {
    if TurnsOut(l, b, x) {
      HomeOfSlot(x - 22815);
      assert x - 22815 == Home(l.tag[b % 32768], b % 32768);
    }
  }

  /** The line of the block used is the only one that changes: a write leaves it dirty,
      a read that misses clean, a read that hits as it was, and a drop empty. */
  lemma OneLineChanges(l: Layer, b: nat, buf: Block)
    requires Coherent(l) && IsData(b) && l.cached
    ensures var (m, n, d) := (WriteBlock(l, b, buf), Fetch(l, b), Discard(l, b));
      var (c, hit) := (b % 32768, l.tag[b % 32768] == b / 32768);
      && OtherLinesSame(l, m, c) && m.tag[c] == b / 32768 && m.dirty[c]
      && OtherLinesSame(l, n, c) && n.tag[c] == b / 32768 && n.dirty[c] == (hit && l.dirty[c])
      && OtherLinesSame(l, d, c)
      && (if hit then d.tag[c] == -1 && !d.dirty[c] else d == l)
  {
  }
}
