/** The object store as it runs: global arrays changed in place by scan loops, over
    a disk reached directly or through the cache. Each method computes the function
    of StoreModel it is named after, whichever build it is. */
module ObjectStore {
  import opened Blocks
  import opened BlockLayer
  import opened StoreModel
  import opened Ownership
  import opened Writing
  import opened Releasing
  import opened Reading
  import opened FileMap
  import opened Bitmaps
  import opened Encoding
  import opened Restart

  class ObjStore {
    /** Whether this is the build with the cache. */
    const cached: bool
    /** sizeof(long) of the build. */
    const w: Width
    const inode: array<bv32>
    const data: array<bv32>
    const objs: array<Object>
    const marked: array<bool>
    const disk: array<Block>
    const tag: array<int>
    const dirty: array<bool>
    const line: array<Block>

    ghost predicate Allocated() {
      && 32 * inode.Length == MAX_OBJECTS && 32 * data.Length == DATA_BLOCKS
      && objs.Length == MAX_OBJECTS && marked.Length == MARKS
      && disk.Length == DISK_BLOCKS
      && tag.Length == dirty.Length == line.Length == CACHE_BLOCKS
      && inode != data && disk != line && marked != dirty
    }

    ghost function LayerOf(): Layer
      reads disk, tag, dirty, line
    {
      Layer(cached, disk[..], tag[..], dirty[..], line[..])
    }

    ghost function Value(): Store
      reads inode, data, objs, marked, disk, tag, dirty, line
    {
      Store(Bits(inode[..]), Bits(data[..]), objs[..], marked[..], LayerOf())
    }

    ghost predicate Valid()
      reads inode, data, objs, marked, disk, tag, dirty, line
    {
      Allocated() && WellFormed(Value())
    }

    // ---------- mount ----------

    /** objstore_init: empty cache and marks, then the table and both bitmaps as the
        disk has them. */
    constructor Mount(cached: bool, w: Width, disk: array<Block>)
      requires disk.Length == DISK_BLOCKS
      ensures Allocated() && this.disk == disk && disk[..] == old(disk[..]) && this.w == w
      ensures Value() == Mounted(disk[..], cached, w)
    {
      this.cached, this.w, this.disk := cached, w, disk;
      inode, data := new bv32[MAX_OBJECTS / 32](_ => 0), new bv32[DATA_BLOCKS / 32](_ => 0);
      objs, marked := new Object[MAX_OBJECTS](_ => Blank()), new bool[MARKS](_ => false);
      tag, dirty := new int[CACHE_BLOCKS](_ => -1), new bool[CACHE_BLOCKS](_ => false);
      line := new Block[CACHE_BLOCKS](_ => Zero());
      new;
      hide Mounted, LayerOf, Value, Bits, Blank, Zero, NothingCached;
      NothingYet();
      LoadMetadata();
    }

    /** No block has been read and none is marked. */
    lemma NothingYet()
      requires forall i :: 0 <= i < marked.Length ==> !marked[i]
      requires forall c :: 0 <= c < tag.Length ==> tag[c] == -1
      requires forall c :: 0 <= c < dirty.Length ==> !dirty[c]
      requires forall c :: 0 <= c < line.Length ==> line[c] == Zero()
      ensures NothingCached()
    {
    }

    /** No marks, and no line that holds a block. */
    ghost predicate NothingCached()
      reads marked, tag, dirty, line
    {
      && (forall i :: 0 <= i < marked.Length ==> !marked[i])
      && (forall c :: 0 <= c < tag.Length ==> tag[c] == -1)
      && (forall c :: 0 <= c < dirty.Length ==> !dirty[c])
      && (forall c :: 0 <= c < line.Length ==> line[c] == Zero())
    }

    method LoadMetadata()
      requires Allocated() && NothingCached()
      requires forall i :: 0 <= i < inode.Length ==> inode[i] == 0
      requires forall i :: 0 <= i < data.Length ==> data[i] == 0
      modifies inode, data, objs
      ensures Value() == Mounted(disk[..], cached, w)
    {
      hide MountEntry, MountBits, Bits, BitSet, BlockBit, EntriesRead, Mounted;
      LoadTable();
      LoadBits(inode, OBJECT_BLOCKS);
      LoadBits(data, OBJECT_BLOCKS + INODE_BIT_BLOCKS);
      MountedIs(Value(), disk[..], cached, w);
    }

    /** The memory is as the chunks on disk have it. */
    ghost predicate Copied(mem: array<Byte>)
      reads disk, mem
    {
      && disk.Length == DISK_BLOCKS && mem.Length == TABLE_MEMORY
      && forall n :: 0 <= n < mem.Length ==> mem[n] == DiskByte(disk[..], n)
    }

    /** Copy the 4048 bytes of each chunk into the memory that is the table. */
    method LoadChunks(mem: array<Byte>)
      requires disk.Length == DISK_BLOCKS && mem.Length == TABLE_MEMORY
      requires forall n :: 0 <= n < mem.Length ==> mem[n] == 0
      modifies mem
      ensures Copied(mem)
    {
      hide DiskByte;
      var i := 0;
      while i < OBJECT_BLOCKS
        invariant 0 <= i <= OBJECT_BLOCKS && disk[..] == old(disk[..])
        invariant forall n :: 0 <= n < CHUNK * i ==> mem[n] == DiskByte(disk[..], n)
        invariant forall n :: CHUNK * i <= n < mem.Length ==> mem[n] == 0
      {
        LoadChunk(mem, i);
        i := i + 1;
      }
      PastChunks(disk[..]);
    }

    method LoadChunk(mem: array<Byte>, i: nat)
      requires disk.Length == DISK_BLOCKS && mem.Length == TABLE_MEMORY && i < OBJECT_BLOCKS
      modifies mem
      ensures forall n :: CHUNK * i <= n < CHUNK * (i + 1) ==> mem[n] == DiskByte(disk[..], n)
      ensures forall n :: 0 <= n < mem.Length && !(CHUNK * i <= n < CHUNK * (i + 1)) ==> mem[n] == old(mem[n])
    {
      hide DiskByte;
      var doIt := disk[i];
      var k := 0;
      while k < CHUNK
        invariant 0 <= k <= CHUNK
        invariant forall n :: CHUNK * i <= n < CHUNK * i + k ==> mem[n] == DiskByte(disk[..], n)
        invariant forall n :: 0 <= n < mem.Length && !(CHUNK * i <= n < CHUNK * i + k) ==> mem[n] == old(mem[n])
      {
        mem[i * CHUNK + k] := doIt[k];
        ChunkByteOf(disk[..], i, k);
        k := k + 1;
      }
    }

    method LoadTable()
      requires disk.Length == DISK_BLOCKS && objs.Length == MAX_OBJECTS
      modifies objs
      ensures EntriesRead(objs[..], disk[..], MAX_OBJECTS, w)
    {
      hide EntriesRead;
      var mem := new Byte[TABLE_MEMORY](_ => 0);
      LoadChunks(mem);
      ReadEntries(mem);
    }

    /** The table is that memory, seen as structs. */
    method ReadEntries(mem: array<Byte>)
      requires Copied(mem) && objs.Length == MAX_OBJECTS
      modifies objs
      ensures EntriesRead(objs[..], disk[..], MAX_OBJECTS, w)
    {
      ghost var was := disk[..];
      hide Copied, EntriesRead;
      NoEntriesRead(objs[..], was, w);
      var i := 0;
      while i < MAX_OBJECTS
        invariant 0 <= i <= MAX_OBJECTS && Copied(mem) && disk[..] == was
        invariant EntriesRead(objs[..], was, i, w)
      {
        OneEntryRead(objs[..], was, i, w);
        ReadEntry(mem, i);
        i := i + 1;
      }
    }

    method ReadEntry(mem: array<Byte>, o: nat)
      requires Copied(mem) && objs.Length == MAX_OBJECTS && o < MAX_OBJECTS
      modifies objs
      ensures objs[..] == old(objs[..])[o := MountEntry(disk[..], o, w)]
    {
      EntryRead(mem[..], disk[..], o, w);
      hide At, EntrySize, EntryFrom, MountEntry, Copied;
      var start := At(w, o, 0);
      objs[o] := EntryFrom(mem[start..start + EntrySize(w)], w);
    }

    /** A bitmap off the disk, bit by bit, into words that start clear. */
    method LoadBits(words: array<bv32>, base: nat)
      requires disk.Length == DISK_BLOCKS && base + BitBlocks(words) <= DISK_BLOCKS
      requires words.Length % 1024 == 0 && forall i :: 0 <= i < words.Length ==> words[i] == 0
      modifies words
      ensures Bits(words[..]) == MountBits(disk[..], base, 32 * words.Length)
    {
      hide Mask, BitSet, BlockBit;
      ghost var want := MountBits(disk[..], base, 32 * words.Length);
      ClearWords(words[..]);
      var m := 0;
      while m < 32 * words.Length
        invariant 0 <= m <= 32 * words.Length
        invariant forall k :: 0 <= k < 32 * words.Length ==> Bits(words[..])[k] == (k < m && want[k])
      {
        if BlockBit(disk[base + m / BITS_PER_BLOCK], m % BITS_PER_BLOCK) {
          SetBit(words, m);
        }
        m := m + 1;
      }
    }

    function BitBlocks(words: array<bv32>): nat {
      words.Length / 1024
    }

    lemma ClearWords(words: seq<bv32>)
      requires forall i :: 0 <= i < |words| ==> words[i] == 0
      ensures forall k :: 0 <= k < |Bits(words)| ==> !Bits(words)[k]
    {
      hide Mask;
      forall k | 0 <= k < |Bits(words)| ensures !Bits(words)[k] {
        assert 0 & Mask(k % 32) == 0;
      }
    }

    // ---------- the cache ----------

    method WriteCached(buf: Block, b: nat)
      requires Allocated() && cached && Coherent(LayerOf()) && IsData(b)
      modifies disk, tag, dirty, line
      ensures LayerOf() == WriteBlock(old(LayerOf()), b, buf)
    {
      var c, index := b % CACHE_BLOCKS, b / CACHE_BLOCKS;
      if dirty[c] {
        disk[WRITE_OFFSET + tag[c] * CACHE_BLOCKS + c] := line[c];
      }
      line[c] := buf;
      tag[c] := index;
      dirty[c] := true;
    }

    method ReadCached(b: nat) returns (buf: Block)
      requires Allocated() && cached && Coherent(LayerOf()) && IsData(b)
      modifies disk, tag, dirty, line
      ensures LayerOf() == Fetch(old(LayerOf()), b) && buf == ReadBlock(old(LayerOf()), b)
    {
      var c, index := b % CACHE_BLOCKS, b / CACHE_BLOCKS;
      if tag[c] != index {
        if dirty[c] {
          disk[WRITE_OFFSET + tag[c] * CACHE_BLOCKS + c] := line[c];
        }
        line[c] := disk[WRITE_OFFSET + b];
        buf := line[c];
        tag[c] := index;
        dirty[c] := false;
      } else {
        buf := line[c];
      }
    }

    method FindCache(b: nat)
      requires Allocated() && cached && Coherent(LayerOf()) && IsData(b)
      modifies tag, dirty
      ensures LayerOf() == Discard(old(LayerOf()), b)
    {
      var c, index := b % CACHE_BLOCKS, b / CACHE_BLOCKS;
      if tag[c] == index {
        tag[c] := -1;
        dirty[c] := false;
      }
    }

    // ---------- the two builds ----------

    method PutBlock(b: nat, buf: Block)
      requires Allocated() && Coherent(LayerOf()) && IsData(b)
      modifies disk, tag, dirty, line
      ensures LayerOf() == WriteBlock(old(LayerOf()), b, buf) && Coherent(LayerOf())
    {
      WriteBlockView(LayerOf(), b, buf);
      if cached {
        WriteCached(buf, b);
      } else {
        disk[WRITE_OFFSET + b] := buf;
      }
    }

    method GetBlock(b: nat) returns (buf: Block)
      requires Allocated() && Coherent(LayerOf()) && IsData(b)
      modifies disk, tag, dirty, line
      ensures LayerOf() == Fetch(old(LayerOf()), b) && buf == ReadBlock(old(LayerOf()), b) && Coherent(LayerOf())
    {
      ReadBlockView(LayerOf(), b);
      if cached {
        buf := ReadCached(b);
      } else {
        buf := disk[WRITE_OFFSET + b];
      }
    }

    method DropBlock(b: nat)
      requires Allocated() && Coherent(LayerOf()) && IsData(b)
      modifies tag, dirty
      ensures LayerOf() == Discard(old(LayerOf()), b) && Coherent(LayerOf())
    {
      DiscardView(LayerOf(), b);
      if cached {
        FindCache(b);
      }
    }

    // ---------- names ----------

    /** The scan all three name operations begin with. */
    method ScanLive(key: Name) returns (n: nat)
      requires Allocated()
      ensures n == Lookup(Bits(inode[..]), objs[..], key)
    {
      ghost var live, table := Bits(inode[..]), objs[..];
      hide Lookup, Bits, NoneBefore, Mask, Hits, Doubled;
      NoneAtFirst(live, table, key);
      var i := 0;
      while i < inode.Length
        invariant i <= inode.Length && NoneBefore(live, table, key, 32 * i)
      {
        var val: bv32 := 1;
        FirstMask();
        var j := 0;
        while j < 32
          invariant j <= 32 && (j < 32 ==> val == Mask(j)) && NoneBefore(live, table, key, 32 * i + j)
        {
          var cnt := 32 * i + j;
          BitAt(inode[..], i, j);
          if Hits(inode[i], val) {
            if objs[cnt].key == key {
              LookupIs(live, table, key, cnt);
              return cnt;
            }
          }
          NoneThere(live, table, key, cnt);
          if j < 31 {
            MaskDoubles(j);
          }
          val := Doubled(val);
          j := j + 1;
        }
        i := i + 1;
      }
      n := MAX_OBJECTS;
      LookupIs(live, table, key, n);
    }

    method FindObjectId(key: Name) returns (id: int)
      requires Valid()
      ensures id == Find(Value(), key)
    {
      var n := ScanLive(key);
      id := if n == MAX_OBJECTS then -1 else objs[n].id;
    }

    /** Mark the chunk of entry n for writing. */
    method MarkEntry(n: nat)
      requires Valid() && n < MAX_OBJECTS
      modifies marked
      ensures Value() == Mark(old(Value()), n) && Valid()
    {
      hide Bits, Coherent, ObjectShaped;
      marked[n / ENTRIES_PER_MARK] := true;
      assert Value() == Mark(old(Value()), n);
    }

    method CreateObject(key: Name) returns (id: int)
      requires Valid()
      modifies inode, objs, marked
      ensures Valid() && (Value(), id) == Create(old(Value()), key)
    {
      hide Bits, LayerOf, WellFormed, FirstClear, SetName, Create;
      CreateFull(Value(), key);
      var n := ScanClear(inode);
      if n == MAX_OBJECTS {
        return -1;
      }
      MarkEntry(n);
      FillEntry(n, key);
      id := objs[n].id;
      CreateIs(old(Value()), key, Value());
    }

    /** Number and name entry n, and set its bit. */
    method FillEntry(n: nat, key: Name)
      requires Allocated() && n < MAX_OBJECTS
      modifies inode, objs
      ensures Bits(inode[..]) == old(Bits(inode[..]))[n := true]
      ensures objs[..] == old(objs[..])[n := SetName(old(objs[n]).(id := n + 2), key)]
      ensures objs[n].id == n + 2
    {
      hide Bits;
      objs[n] := SetName(objs[n].(id := n + 2), key);
      SetBit(inode, n);
    }

    method RenameObject(key: Name, newname: Name) returns (id: int)
      requires Valid()
      modifies objs, marked
      ensures Valid() && (Value(), id) == Rename(old(Value()), key, newname)
    {
      hide Bits, LayerOf, WellFormed, Lookup;
      var n := ScanLive(key);
      if n == MAX_OBJECTS {
        return -1;
      }
      MarkEntry(n);
      objs[n] := SetName(objs[n], newname);
      id := objs[n].id;
      assert Value() == Rename(old(Value()), key, newname).0;
    }

    // ---------- destroy ----------

    ghost function DataBits(): seq<bool>
      reads data
    {
      Bits(data[..])
    }

    /** Flip the block's bit and forget its cache line. */
    method GiveBack(ptr: int)
      requires Allocated() && Coherent(LayerOf()) && IsData(ptr - WRITE_OFFSET)
      modifies data, tag, dirty
      ensures Coherent(LayerOf())
      ensures (DataBits(), LayerOf()) == Release(old(DataBits()), old(LayerOf()), ptr)
    {
      hide Bits, BitSet, Coherent;
      var del := ptr - WRITE_OFFSET;
      FlipBit(data, del);
      DropBlock(del);
    }

    /** The loop over the 1024 words of one indirect block. */
    method GiveBackEntries(block: Block, ghost s0: Store, ghost own: map<int, Site>, ghost o: int, ghost g: nat)
      requires Allocated() && WellFormed(s0) && Owner(s0, own) && 0 <= o < MAX_OBJECTS && g < 4
      requires s0.objs[o].indirect[g] != 0 && block == View(s0.layer, s0.objs[o].indirect[g] - WRITE_OFFSET)
      requires AtStage(s0, own, o, 4 + 1025 * g, DataBits(), LayerOf())
      modifies data, tag, dirty
      ensures AtStage(s0, own, o, 4 + 1025 * g + 1024, DataBits(), LayerOf())
      ensures Coherent(LayerOf()) && Coherent(old(LayerOf()))
      ensures (DataBits(), LayerOf()) == ReleaseEntries(old(DataBits()), old(LayerOf()), block, 0)
    {
      ghost var (d0, y0) := (DataBits(), LayerOf());
      hide Bits, BitSet, View, Ptr, WordAt, Owner, Release, ReleaseEntries, LayerOf, WellFormed, AtStage, Coherent;
      StageFormed(s0, own, o, 4 + 1025 * g, (d0, y0));
      var e := 0;
      while e < WORDS_PER_BLOCK
        invariant e <= WORDS_PER_BLOCK && Coherent(LayerOf())
        invariant AtStage(s0, own, o, 4 + 1025 * g + e, DataBits(), LayerOf())
        invariant ReleaseEntries(DataBits(), LayerOf(), block, e) == ReleaseEntries(d0, y0, block, 0)
      {
        EntryStep(s0, own, o, g, e, DataBits(), LayerOf());
        var ptr := WordAt(block, e);
        if ptr != 0 {
          GiveBack(ptr);
        }
        e := e + 1;
      }
      EntriesEnd(DataBits(), LayerOf(), block);
    }

    /** The loop over the direct pointers. */
    method GiveBackDirect(n: nat, ghost s0: Store, ghost own: map<int, Site>)
      requires Allocated() && WellFormed(s0) && Owner(s0, own) && n < MAX_OBJECTS
      requires objs[n].direct == s0.objs[n].direct
      requires AtStage(s0, own, n, 0, DataBits(), LayerOf())
      modifies data, tag, dirty, objs
      ensures AtStage(s0, own, n, DIRECT, DataBits(), LayerOf())
      ensures Coherent(LayerOf()) && Coherent(old(LayerOf()))
      ensures (DataBits(), LayerOf()) == ReleaseDirect(old(DataBits()), old(LayerOf()), s0.objs[n].direct, 0)
      ensures objs[..] == old(objs[..])[n := old(objs[n]).(direct := [0, 0, 0, 0])]
    {
      ghost var start := Start(s0, own, n, DataBits(), LayerOf(), objs[..]);
      hide Bits, LayerOf, WellFormed, AtStage, Owner, Coherent, ReleaseDirect, SlotsGone;
      NoSlotGone(start);
      var l := 0;
      while l < 4
        invariant l <= 4 && SlotsGone(start, l, DataBits(), LayerOf(), objs[..])
      {
        GiveBackSlot(n, l, start);
        l := l + 1;
      }
      AllSlotsGone(start, DataBits(), LayerOf(), objs[..]);
    }

    method GiveBackSlot(n: nat, l: nat, ghost start: Start)
      requires Allocated() && start.Formed() && n == start.n && l < 4
      requires SlotsGone(start, l, DataBits(), LayerOf(), objs[..])
      modifies data, tag, dirty, objs
      ensures SlotsGone(start, l + 1, DataBits(), LayerOf(), objs[..])
    {
      hide Bits, LayerOf, SlotsGone, Release, Coherent;
      SlotGone(start, l, DataBits(), LayerOf(), objs[..]);
      hide Start.Formed;
      var ptr := objs[n].direct[l];
      if ptr != 0 {
        GiveBack(ptr);
        objs[n] := objs[n].(direct := objs[n].direct[l := 0]);
      }
    }

    /** Fetch an indirect block, give back its entries, then the block. */
    method GiveBackBlock(ptr: int, ghost s0: Store, ghost own: map<int, Site>, ghost n: nat, ghost l: nat)
      requires Allocated() && Coherent(LayerOf()) && IsData(ptr - WRITE_OFFSET)
      requires WellFormed(s0) && Owner(s0, own) && n < MAX_OBJECTS && l < 4 && ptr == s0.objs[n].indirect[l] != 0
      requires AtStage(s0, own, n, 4 + 1025 * l, DataBits(), LayerOf())
      modifies data, disk, tag, dirty, line
      ensures Coherent(old(LayerOf())) && Coherent(LayerOf())
      ensures var (d1, y1) := EntriesGone(old(DataBits()), old(LayerOf()), ptr - WRITE_OFFSET);
        AtStage(s0, own, n, 4 + 1025 * l + 1024, d1, y1)
      ensures (DataBits(), LayerOf()) == BlockGone(old(DataBits()), old(LayerOf()), ptr)
    {
      hide Bits, LayerOf, Release, ReleaseEntries, Fetch, ReadBlock, Coherent, AtStage, View, WellFormed, Owner;
      GroupFetched(s0, own, n, l, DataBits(), LayerOf());
      var tem := GetBlock(ptr - WRITE_OFFSET);
      GiveBackEntries(tem, s0, own, n, l);
      GiveBack(ptr);
    }

    /** One indirect pointer; nothing when it is 0. */
    method GiveBackGroup(n: nat, l: nat, ghost start: Start)
      requires Allocated() && start.Formed() && n == start.n && l < 4
      requires GroupsGone(start, l, DataBits(), LayerOf(), objs[..])
      modifies data, disk, tag, dirty, line, objs
      ensures GroupsGone(start, l + 1, DataBits(), LayerOf(), objs[..])
    {
      hide DataBits, LayerOf, GroupsGone, BlockGone, EntriesGone, Coherent, AtStage, WellFormed, Owner, Start.Formed;
      ghost var (d, y, was) := (DataBits(), LayerOf(), objs[..]);
      GroupPointer(start, l, d, y, was);
      var ptr := objs[n].indirect[l];
      if ptr != 0 {
        GroupData(start.s, start.own, n, l);
        GiveBackBlock(ptr, start.s, start.own, n, l);
        GroupGone(start, l, d, y, was, ptr);
        objs[n] := objs[n].(indirect := objs[n].indirect[l := 0]);
        assert objs[..] == was[n := was[n].(indirect := was[n].indirect[l := 0])];
      } else {
        NoGroupThere(start, l, d, y, was);
      }
    }

    /** The loop over the indirect pointers. */
    method GiveBackIndirect(n: nat, ghost s0: Store, ghost own: map<int, Site>)
      requires Allocated() && WellFormed(s0) && Owner(s0, own) && n < MAX_OBJECTS
      requires objs[n].indirect == s0.objs[n].indirect
      requires AtStage(s0, own, n, DIRECT, DataBits(), LayerOf())
      modifies data, disk, tag, dirty, line, objs
      ensures Coherent(LayerOf()) && Coherent(old(LayerOf()))
      ensures (DataBits(), LayerOf()) == ReleaseIndirect(old(DataBits()), old(LayerOf()), s0.objs[n], 0)
      ensures objs[..] == old(objs[..])[n := old(objs[n]).(indirect := [0, 0, 0, 0])]
    {
      ghost var start := Start(s0, own, n, DataBits(), LayerOf(), objs[..]);
      hide Bits, LayerOf, WellFormed, AtStage, Owner, Coherent, ReleaseIndirect, GroupsGone;
      NoGroupGone(start);
      var l := 0;
      while l < 4
        invariant l <= 4 && GroupsGone(start, l, DataBits(), LayerOf(), objs[..])
      {
        GiveBackGroup(n, l, start);
        l := l + 1;
      }
      AllGroupsGone(start, DataBits(), LayerOf(), objs[..]);
    }

    method DestroyObject(key: Name) returns (r: int)
      requires Valid() && Inv(Value())
      modifies inode, data, objs, marked, disk, tag, dirty, line
      ensures (Value(), r) == Destroy(old(Value()), key)
      ensures Valid() && Inv(Value())
    {
      ghost var s0 := Value();
      hide Bits, BitSet, View, Ptr, Owned, Grouped, Numbered, ReleaseDirect, ReleaseIndirect, ObjectShaped;
      DestroyKeeps(s0, key);
      var n := ScanLive(key);
      if n == MAX_OBJECTS {
        return -1;
      }
      ghost var own := OwnerExists(s0);
      StageZero(s0, own, n);
      LookupLive(s0.inode, s0.objs, key);
      hide Inv, AtStage, Owner, WellFormed, LayerOf, Destroy, Lookup;
      EmptyEntry(n, key, s0, own);
      r := 0;
    }

    /** The entry, and then the loops over its pointers. */
    method EmptyEntry(n: nat, ghost key: Name, ghost s0: Store, ghost own: map<int, Site>)
      requires Allocated() && Value() == s0 && WellFormed(s0) && Owner(s0, own)
      requires n == Lookup(s0.inode, s0.objs, key) && n < MAX_OBJECTS && s0.inode[n]
      requires AtStage(s0, own, n, 0, s0.data, s0.layer)
      modifies inode, data, objs, marked, disk, tag, dirty, line
      ensures (Value(), 0) == Destroy(s0, key)
    {
      hide Bits, BitSet, ReleaseDirect, ReleaseIndirect, ObjectShaped, AtStage, Owner, Coherent, Destroy, Lookup;
      ClearEntry(n);
      GiveBackDirect(n, s0, own);
      ghost var (d1, y1) := (DataBits(), LayerOf());
      GiveBackIndirect(n, s0, own);
      hide LayerOf, WellFormed;
      DestroyIs(s0, key, Value(), d1, y1);
    }

    /** Mark the entry's chunk, clear its bit and its size. */
    method ClearEntry(n: nat)
      requires Allocated() && n < MAX_OBJECTS && Bits(inode[..])[n]
      modifies inode, objs, marked
      ensures Bits(inode[..]) == old(Bits(inode[..]))[n := false]
      ensures objs[..] == old(objs[..])[n := old(objs[n]).(size := 0)]
      ensures marked[..] == old(marked[..])[n / ENTRIES_PER_MARK := true]
    {
      hide Bits, BitSet;
      marked[n / ENTRIES_PER_MARK] := true;
      FlipBit(inode, n);
      objs[n] := objs[n].(size := 0);
    }

    // ---------- write ----------

    /** A fresh page of zeros, with the buffer copied to its start. */
    static method CopyBuffer(buf: seq<Byte>) returns (abc: Block)
      requires |buf| <= BLOCK_SIZE
      ensures forall k :: 0 <= k < BLOCK_SIZE ==> abc[k] == if k < |buf| then buf[k] else 0
    {
      var copy := new Byte[BLOCK_SIZE](_ => 0);
      var i := 0;
      while i < |buf|
        invariant 0 <= i <= |buf|
        invariant forall k :: 0 <= k < BLOCK_SIZE ==> copy[k] == if k < i then buf[k] else 0
      {
        copy[i] := buf[i];
        i := i + 1;
      }
      abc := copy[..];
    }

    method WriteObject(objid: int, buf: seq<Byte>, offset: nat) returns (r: int)
      requires Valid() && Inv(Value()) && CanWrite(Value(), objid, buf, offset)
      modifies data, objs, marked, disk, tag, dirty, line
      ensures (Value(), r) == Write(old(Value()), objid, buf, offset, 0)
      ensures Valid()
    {
      hide Bits, LayerOf, WellFormed, Inv, FirstClear, Place, Mark, Taken, Pad;
      ghost var s0 := Value();
      if objid < 2 {
        return -1;
      }
      var o := objid - 2;
      MarkEntry(o);
      var page := offset / BLOCK_SIZE;
      var abc := CopyBuffer(buf);
      assert abc == Pad(buf);
      var b := ScanClear(data);
      MarkParts(s0, o);
      if b == DATA_BLOCKS {
        return -1;
      }
      FillBlock(b, abc);
      TakenParts(s0, o, page, b, abc);
      PlaceBlock(o, page, b, |buf|);
      r := |buf|;
    }

    /** Take block b and write it. */
    method FillBlock(b: nat, abc: Block)
      requires Valid() && IsData(b)
      modifies data, disk, tag, dirty, line
      ensures Value() == Taken(old(Value()), b, abc) && Valid()
    {
      hide Bits, Coherent, ObjectShaped, WriteBlock;
      SetBit(data, b);
      PutBlock(b, abc);
      assert Value() == Taken(old(Value()), b, abc);
    }

    /** Point the page at the block just filled, by where its pointer is kept. */
    method PlaceBlock(o: nat, page: nat, b: nat, size: nat)
      requires Valid() && o < MAX_OBJECTS && page < MAX_PAGES && IsData(b)
      requires NeedsTwo(objs[o], page) ==> FirstClear(DataBits()) < DATA_BLOCKS
      requires page < DIRECT ==> 0 <= objs[o].direct[page]
      modifies data, objs, disk, tag, dirty, line
      ensures Value() == Place(old(Value()), o, page, b, size, 0)
      ensures Valid()
    {
      hide Bits, BitSet, Coherent, WriteDirect, WriteNewIndirect, WriteIndirect;
      if page < 4 {
        PlaceDirect(o, page, b, size);
      } else if objs[o].indirect[(page - 4) / 1024] == 0 {
        PlaceNewIndirect(o, page, b, size);
      } else {
        PlaceIndirect(o, page, b, size);
      }
    }

    /** offie < 4. The pointer being replaced serves as a bit number as it stands. */
    method PlaceDirect(o: nat, page: nat, b: nat, size: nat)
      requires Valid() && o < MAX_OBJECTS && page < DIRECT && 0 <= objs[o].direct[page]
      modifies data, objs
      ensures Value() == WriteDirect(old(Value()), o, page, b, size, 0)
      ensures Valid()
    {
      hide Bits, BitSet, Coherent;
      if objs[o].direct[page] == 0 {
        objs[o] := objs[o].(direct := objs[o].direct[page := WRITE_OFFSET + b], size := objs[o].size + size);
      } else {
        var del := objs[o].direct[page];
        objs[o] := objs[o].(direct := objs[o].direct[page := b]);
        if del / 32 < data.Length {
          FlipBit(data, del);
        }
      }
    }

    /** A second block is taken for the indirect block. */
    method PlaceNewIndirect(o: nat, page: nat, b: nat, size: nat)
      requires Valid() && o < MAX_OBJECTS && DIRECT <= page < MAX_PAGES && IsData(b)
      requires objs[o].indirect[GroupOf(page)] == 0
      requires FirstClear(DataBits()) < DATA_BLOCKS
      modifies data, objs, disk, tag, dirty, line
      ensures Value() == WriteNewIndirect(old(Value()), o, page, b, size)
      ensures Valid()
    {
      hide Bits, BitSet, Coherent;
      var alpha, alp := (page - 4) / 1024, (page - 4) % 1024;
      var blk := ScanClear(data);
      SetBit(data, blk);
      objs[o] := objs[o].(indirect := objs[o].indirect[alpha := WRITE_OFFSET + blk], size := objs[o].size + size);
      PutBlock(blk, PutWord(Zero(), alp, WRITE_OFFSET + b));
    }

    /** Read an indirect block, change one word of it, write it back. */
    method ChangeWord(n: nat, e: nat, v: Word) returns (prior: Word)
      requires Allocated() && Coherent(LayerOf()) && IsData(n) && e < WORDS_PER_BLOCK
      modifies disk, tag, dirty, line
      ensures (LayerOf(), prior) == SetEntry(old(LayerOf()), n, e, v)
      ensures Coherent(LayerOf())
    {
      hide Coherent, PutWord, WordAt, LayerOf;
      var words := GetBlock(n);
      prior := WordAt(words, e);
      PutBlock(n, PutWord(words, e, v));
    }

    method PlaceIndirect(o: nat, page: nat, b: nat, size: nat)
      requires Valid() && o < MAX_OBJECTS && DIRECT <= page < MAX_PAGES && IsData(b)
      requires objs[o].indirect[GroupOf(page)] != 0
      modifies data, objs, disk, tag, dirty, line
      ensures Value() == WriteIndirect(old(Value()), o, page, b, size, 0)
      ensures Valid()
    {
      hide Bits, BitSet, Coherent, SetEntry, LayerOf;
      var alpha, alp := (page - 4) / 1024, (page - 4) % 1024;
      var del := ChangeWord(objs[o].indirect[alpha] - WRITE_OFFSET, alp, WRITE_OFFSET + b);
      if del == 0 {
        objs[o] := objs[o].(size := objs[o].size + size);
      } else if del / 32 < data.Length {
        FlipBit(data, del);
      }
    }

    // ---------- read ----------

    /** A loop over a pointer array: skip pages are passed over, then left blocks
        are read. */
    method FetchSlots(ptrs: seq<int>, skip: nat, left: nat, out: seq<Block>)
      returns (skip': nat, left': nat, out': seq<Block>)
      requires Allocated() && Coherent(LayerOf())
      requires forall i :: skip <= i < |ptrs| && i - skip < left ==> IsData(ptrs[i] - WRITE_OFFSET)
      modifies disk, tag, dirty, line
      ensures Coherent(LayerOf()) && Coherent(old(LayerOf()))
      ensures Cursor(LayerOf(), skip', left', out') == ReadSlots(Cursor(old(LayerOf()), skip, left, out), ptrs, 0)
    {
      ghost var c0 := Cursor(LayerOf(), skip, left, out);
      hide Coherent, LayerOf, ReadBlock, Fetch;
      skip', left', out' := skip, left, out;
      var i := 0;
      while i < |ptrs| && left' > 0
        invariant i <= |ptrs| && Coherent(LayerOf())
        invariant if i <= skip then skip' == skip - i && left' == left else skip' == 0 && left' == left - (i - skip)
        invariant ReadSlots(Cursor(LayerOf(), skip', left', out'), ptrs, i) == ReadSlots(c0, ptrs, 0)
      {
        if skip' > 0 {
          skip' := skip' - 1;
        } else {
          var block := GetBlock(ptrs[i] - WRITE_OFFSET);
          out' := out' + [block];
          left' := left' - 1;
        }
        i := i + 1;
      }
    }

    method ReadObject(objid: int, size: nat, offset: nat) returns (a: Answer)
      requires Valid() && Inv(Value())
      requires 2 <= objid ==> CanRead(Value(), objid - 2, PageOf(offset), BlocksFor(size))
      modifies disk, tag, dirty, line
      ensures (Value(), a) == Read(old(Value()), objid, size, offset)
      ensures Valid() && Inv(Value())
    {
      hide Bits, LayerOf, Inv, CanRead, WellFormed, ReadAll, Flatten, FilesOf, Ptr;
      ghost var s0 := Value();
      ReadKeeps(s0, objid, size, offset);
      if objid < 2 {
        return Code(-1);
      }
      ReadInside(s0, objid - 2, PageOf(offset), BlocksFor(size));
      var got := ReadBlocks(objid - 2, size, offset, s0);
      a := Bytes(if size <= |got| then got[..size] else got + seq(size - |got|, _ => 0));
    }

    /** The direct loop, then the indirect one. */
    method ReadBlocks(o: nat, size: nat, offset: nat, ghost s0: Store) returns (got: seq<Byte>)
      requires Allocated() && s0.layer == LayerOf() && s0.objs == objs[..]
      requires Inv(s0) && o < MAX_OBJECTS && CanRead(s0, o, PageOf(offset), BlocksFor(size))
      modifies disk, tag, dirty, line
      ensures LayerOf() == ReadAll(s0, o, size, offset).layer
      ensures got == Flatten(ReadAll(s0, o, size, offset).out)
    {
      hide Coherent, LayerOf, View, ReadSlots, ReadGroups, ObjectShaped, CanRead, Ahead, SameViews, Flatten;
      hide Owned, Grouped, Numbered;
      var offie, total := offset / BLOCK_SIZE, size / BLOCK_SIZE;
      if size % BLOCK_SIZE > 0 {
        total := total + 1;
      }
      DirectData(s0, o, offie, total);
      DirectRead(s0, o, offie, total);
      var skip, left, out := FetchSlots(objs[o].direct, offie, total, []);
      left, out := ReadIndirect(o, skip, left, out, s0, offie, total);
      got := Flatten(out);
    }

    /** Indirect blocks before the j-th have been read, from where c0 was. */
    ghost predicate GroupsRead(s0: Store, o: nat, first: nat, n: nat, c0: Cursor, j: nat, skip: nat, left: nat,
        out: seq<Block>)
      requires WellFormed(s0) && o < MAX_OBJECTS && Coherent(c0.layer) && j <= 4
      reads disk, tag, dirty, line
    {
      && Coherent(LayerOf()) && SameViews(LayerOf(), s0.layer)
      && Ahead(first, n, 4 + 1024 * j, skip, left)
      && ReadGroups(Cursor(LayerOf(), skip, left, out), s0.objs[o].indirect, j)
         == ReadGroups(c0, s0.objs[o].indirect, 0)
    }

    /** One indirect block: fetch it, then the pages its words name. */
    method ReadGroup(o: nat, j: nat, skip: nat, left: nat, out: seq<Block>,
        ghost s0: Store, ghost first: nat, ghost n: nat, ghost c0: Cursor)
      returns (skip': nat, left': nat, out': seq<Block>)
      requires Allocated() && Inv(s0) && o < MAX_OBJECTS && CanRead(s0, o, first, n)
      requires objs[o].indirect == s0.objs[o].indirect
      requires j < 4 && 0 < left && Coherent(c0.layer) && GroupsRead(s0, o, first, n, c0, j, skip, left, out)
      modifies disk, tag, dirty, line
      ensures GroupsRead(s0, o, first, n, c0, j + 1, skip', left', out')
    {
      hide CanRead, Ahead, SameViews, Coherent, LayerOf, View, ReadSlots, ReadGroups, ReadBlock, Fetch, Words, Ptr;
      hide Owned, Grouped, Numbered;
      ghost var y := LayerOf();
      GroupReady(s0, o, first, n, j, skip, left);
      var block := GetBlock(objs[o].indirect[j] - WRITE_OFFSET);
      GroupTurn(s0, o, first, n, j, y, LayerOf(), block, skip, left, out);
      skip', left', out' := FetchSlots(Words(block), skip, left, out);
    }

    /** The loop over the indirect blocks. */
    method ReadIndirect(o: nat, skip: nat, left: nat, out: seq<Block>, ghost s0: Store, ghost first: nat, ghost n: nat)
      returns (left': nat, out': seq<Block>)
      requires Allocated() && Coherent(LayerOf()) && Inv(s0) && o < MAX_OBJECTS && CanRead(s0, o, first, n)
      requires objs[..] == s0.objs && SameViews(LayerOf(), s0.layer)
      requires Ahead(first, n, 4, skip, left)
      modifies disk, tag, dirty, line
      ensures Coherent(old(LayerOf())) && Coherent(LayerOf())
      ensures var r := ReadGroups(Cursor(old(LayerOf()), skip, left, out), s0.objs[o].indirect, 0);
        r.layer == LayerOf() && r.left == left' && r.out == out'
    {
      hide Inv, CanRead, Ahead, SameViews, Coherent, LayerOf, ReadGroups, GroupsRead;
      ghost var c0 := Cursor(LayerOf(), skip, left, out);
      GroupsBegin(s0, o, first, n, skip, left, out);
      var skip' := skip;
      left', out' := left, out;
      var j := 0;
      while j < 4 && left' > 0
        invariant j <= 4 && GroupsRead(s0, o, first, n, c0, j, skip', left', out')
      {
        skip', left', out' := ReadGroup(o, j, skip', left', out', s0, first, n, c0);
        j := j + 1;
      }
      GroupsEnd(s0, o, first, n, c0, j, skip', left', out');
    }

    lemma GroupsBegin(s0: Store, o: nat, first: nat, n: nat, skip: nat, left: nat, out: seq<Block>)
      requires Inv(s0) && o < MAX_OBJECTS && Coherent(LayerOf()) && SameViews(LayerOf(), s0.layer)
      requires Ahead(first, n, 4, skip, left)
      ensures WellFormed(s0) && |s0.objs| == MAX_OBJECTS && |s0.objs[o].indirect| == 4
      ensures GroupsRead(s0, o, first, n, Cursor(LayerOf(), skip, left, out), 0, skip, left, out)
    {
      IndirectCount(s0, o);
      hide Coherent, Owned, Grouped, Numbered, Ahead, SameViews, LayerOf, ReadGroups, ObjectShaped;
    }

    lemma GroupsEnd(s0: Store, o: nat, first: nat, n: nat, c0: Cursor, j: nat, skip: nat, left: nat, out: seq<Block>)
      requires WellFormed(s0) && o < MAX_OBJECTS && Coherent(c0.layer) && j <= 4
      requires GroupsRead(s0, o, first, n, c0, j, skip, left, out) && (j == 4 || left == 0)
      ensures Coherent(LayerOf())
      ensures ReadGroups(c0, s0.objs[o].indirect, 0) == Cursor(LayerOf(), skip, left, out)
    {
      IndirectCount(s0, o);
      hide Coherent, LayerOf, SameViews, Ahead, ObjectShaped;
    }

    // ---------- unmount ----------

    method FlushCache()
      requires Allocated() && Coherent(LayerOf())
      modifies disk
      ensures forall b :: IsData(b) ==> disk[WRITE_OFFSET + b] == View(old(LayerOf()), b)
      ensures forall x :: 0 <= x < WRITE_OFFSET ==> disk[x] == old(disk[x])
    {
      hide Coherent, View, Flushed, Home;
      ghost var y0 := LayerOf();
      NoneFlushed(y0);
      var off := 0;
      while off < CACHE_BLOCKS
        invariant off <= CACHE_BLOCKS && Flushed(LayerOf(), off, y0)
      {
        FlushLine(off, y0);
        off := off + 1;
      }
      AllFlushed(LayerOf(), y0);
    }

    method FlushLine(off: nat, ghost y0: Layer)
      requires Allocated() && off < CACHE_BLOCKS && Flushed(LayerOf(), off, y0)
      modifies disk
      ensures Flushed(LayerOf(), off + 1, y0)
    {
      hide Flushed, Coherent, View, Shaped;
      ghost var y := LayerOf();
      LineFlushed(y, off, y0);
      if dirty[off] && tag[off] >= 0 {
        disk[WRITE_OFFSET + (tag[off] * CACHE_BLOCKS + off)] := line[off];
      }
      assert LayerOf() == WriteBack(y, off);
    }

    /** Copy 4048 bytes of the table into the buffer, whose last 48 stay as they are. */
    method CopyChunk(i: nat, doIt: array<Byte>)
      requires Storables(objs[..], w) && i < OBJECT_BLOCKS
      requires doIt.Length == BLOCK_SIZE && forall k :: CHUNK <= k < BLOCK_SIZE ==> doIt[k] == 0
      modifies doIt
      ensures doIt[..] == ChunkBlock(objs[..], i, w)
    {
      hide Storables, TableByte;
      var k := 0;
      while k < CHUNK
        invariant 0 <= k <= CHUNK
        invariant forall m :: 0 <= m < k ==> doIt[m] == ChunkByte(objs[..], i, m, w)
        invariant forall m :: CHUNK <= m < BLOCK_SIZE ==> doIt[m] == 0
      {
        doIt[k] := TableByte(objs[..], i * CHUNK + k, w);
        k := k + 1;
      }
    }

    /** The chunks that are marked, through one buffer. */
    method WriteChunks()
      requires Valid() && Storables(objs[..], w)
      modifies disk
      ensures forall x :: 0 <= x < OBJECT_BLOCKS ==> disk[x] == UnmountBlock(old(Value()), x, w)
      ensures forall x :: OBJECT_BLOCKS <= x < DISK_BLOCKS ==> disk[x] == old(disk[x])
    {
      ghost var s0 := Value();
      hide Bits, BitSet, Coherent, View, ChunkBlock, BitBlock, Storables;
      var doIt := new Byte[BLOCK_SIZE](_ => 0);
      var i := 0;
      while i < OBJECT_BLOCKS
        invariant i <= OBJECT_BLOCKS && fresh(doIt)
        invariant forall k :: CHUNK <= k < BLOCK_SIZE ==> doIt[k] == 0
        invariant forall x :: 0 <= x < i ==> disk[x] == UnmountBlock(s0, x, w)
        invariant forall x :: i <= x < DISK_BLOCKS ==> disk[x] == s0.layer.disk[x]
      {
        if marked[i] {
          CopyChunk(i, doIt);
          ChunkTail(objs[..], i, w);
          disk[i] := doIt[..];
        }
        i := i + 1;
      }
    }

    /** Blocks below from are as unmounting leaves them, and so are the data blocks. */
    ghost predicate AsUnmounted(from: nat, s0: Store)
      requires disk.Length == DISK_BLOCKS && WellFormed(s0) && Storables(s0.objs, w)
      reads disk
    {
      forall x :: 0 <= x < DISK_BLOCKS && (x < from || WRITE_OFFSET <= x) ==> disk[x] == UnmountBlock(s0, x, w)
    }

    /** The inode bitmap's blocks, then the data bitmap's. */
    method WriteBits(ghost s0: Store)
      requires Allocated() && WellFormed(s0) && Storables(s0.objs, w) && AsUnmounted(OBJECT_BLOCKS, s0)
      requires s0.inode == Bits(inode[..]) && s0.data == Bits(data[..])
      modifies disk
      ensures AsUnmounted(WRITE_OFFSET, s0)
    {
      hide Bits, WellFormed, Storables, AsUnmounted, BitBlock;
      var i := 0;
      while i < INODE_BIT_BLOCKS
        invariant i <= INODE_BIT_BLOCKS && AsUnmounted(OBJECT_BLOCKS + i, s0)
      {
        PutMetadata(OBJECT_BLOCKS + i, BitBlock(Bits(inode[..]), i), s0);
        i := i + 1;
      }
      i := 0;
      while i < DATA_BIT_BLOCKS
        invariant i <= DATA_BIT_BLOCKS && AsUnmounted(OBJECT_BLOCKS + INODE_BIT_BLOCKS + i, s0)
      {
        PutMetadata(OBJECT_BLOCKS + INODE_BIT_BLOCKS + i, BitBlock(Bits(data[..]), i), s0);
        i := i + 1;
      }
    }

    method PutMetadata(x: nat, block: Block, ghost s0: Store)
      requires disk.Length == DISK_BLOCKS && WellFormed(s0) && Storables(s0.objs, w) && AsUnmounted(x, s0)
      requires x < WRITE_OFFSET && block == UnmountBlock(s0, x, w)
      modifies disk
      ensures AsUnmounted(x + 1, s0)
    {
      hide UnmountBlock, WellFormed, Storables;
      disk[x] := block;
    }

    /** objstore_destroy: marked chunks, dirty lines, then the bitmaps. */
    method Unmount()
      requires Valid() && Storables(objs[..], w)
      modifies disk
      ensures disk[..] == Unmounted(old(Value()), w)
    {
      hide Bits, BitSet, Coherent, View, ChunkBlock, BitBlock, Storables, ObjectShaped;
      ghost var s0 := Value();
      WriteChunks();
      MetadataApart(s0.layer, LayerOf());
      FlushCache();
      assert AsUnmounted(OBJECT_BLOCKS, s0);
      WriteBits(s0);
      assert disk[..] == Unmounted(s0, w);
    }
  }

  /** Room for the entries of either size; what no chunk fills is fresh, hence zero. */
  const TABLE_MEMORY := 97517568

  lemma EntryInside(w: Width, o: nat)
    requires o < MAX_OBJECTS
    ensures At(w, o, 0) + EntrySize(w) <= TABLE_MEMORY
    ensures forall j: nat :: j < EntrySize(w) ==> At(w, o, j) == At(w, o, 0) + j
  {
  }

  lemma MountedIs(s: Store, disk: seq<Block>, cached: bool, w: Width)
    requires |disk| == DISK_BLOCKS && EntriesRead(s.objs, disk, MAX_OBJECTS, w)
    requires s.inode == MountBits(disk, OBJECT_BLOCKS, MAX_OBJECTS)
    requires s.data == MountBits(disk, OBJECT_BLOCKS + INODE_BIT_BLOCKS, DATA_BLOCKS)
    requires |s.marked| == MARKS && forall i :: 0 <= i < MARKS ==> !s.marked[i]
    requires |s.layer.tag| == |s.layer.dirty| == |s.layer.line| == CACHE_BLOCKS
    requires forall c :: 0 <= c < CACHE_BLOCKS ==>
      s.layer.tag[c] == -1 && !s.layer.dirty[c] && s.layer.line[c] == Zero()
    requires s.layer.disk == disk && s.layer.cached == cached
    ensures s == Mounted(disk, cached, w)
  {
    hide MountEntry, MountBits;
    var t := Mounted(disk, cached, w);
    assert s.objs == t.objs && s.marked == t.marked;
    assert s.layer.tag == t.layer.tag && s.layer.dirty == t.layer.dirty && s.layer.line == t.layer.line;
  }

  /** The first i entries of the table are as the disk has them. */
  ghost predicate EntriesRead(objs: seq<Object>, disk: seq<Block>, i: nat, w: Width) {
    && |objs| == MAX_OBJECTS && |disk| == DISK_BLOCKS
    && forall o: nat :: o < i && o < MAX_OBJECTS ==> objs[o] == MountEntry(disk, o, w)
  }

  lemma NoEntriesRead(objs: seq<Object>, disk: seq<Block>, w: Width)
    requires |objs| == MAX_OBJECTS && |disk| == DISK_BLOCKS
    ensures EntriesRead(objs, disk, 0, w)
  {
  }

  lemma OneEntryRead(objs: seq<Object>, disk: seq<Block>, i: nat, w: Width)
    requires EntriesRead(objs, disk, i, w) && i < MAX_OBJECTS
    ensures |objs| == MAX_OBJECTS && |disk| == DISK_BLOCKS
    ensures EntriesRead(objs[i := MountEntry(disk, i, w)], disk, i + 1, w)
  {
    hide MountEntry;
  }

  lemma EntryRead(mem: seq<Byte>, disk: seq<Block>, o: nat, w: Width)
    requires |mem| == TABLE_MEMORY && |disk| == DISK_BLOCKS && o < MAX_OBJECTS
    requires forall n :: 0 <= n < |mem| ==> mem[n] == DiskByte(disk, n)
    ensures At(w, o, 0) + EntrySize(w) <= TABLE_MEMORY
    ensures EntryFrom(mem[At(w, o, 0)..At(w, o, 0) + EntrySize(w)], w) == MountEntry(disk, o, w)
  {
    EntryInside(w, o);
    hide EntryFrom, DiskByte;
    var bytes := mem[At(w, o, 0)..At(w, o, 0) + EntrySize(w)];
    hide At, EntrySize;
    assert bytes == MountBytes(disk, o, w);
  }

  lemma ChunkByteOf(disk: seq<Block>, i: nat, k: nat)
    requires |disk| == DISK_BLOCKS && i < OBJECT_BLOCKS && k < CHUNK
    ensures DiskByte(disk, CHUNK * i + k) == disk[i][k]
  {
    assert (CHUNK * i + k) / CHUNK == i && (CHUNK * i + k) % CHUNK == k;
  }

  lemma PastChunks(disk: seq<Block>)
    requires |disk| == DISK_BLOCKS
    ensures forall n :: TABLE_BYTES <= n ==> DiskByte(disk, n) == 0
  {
  }

  lemma ChunkTail(objs: seq<Object>, i: nat, w: Width)
    requires Storables(objs, w) && i < OBJECT_BLOCKS
    ensures forall k :: CHUNK <= k < BLOCK_SIZE ==> ChunkBlock(objs, i, w)[k] == 0
  {
    hide Storables, TableByte;
  }

  /** y is y0 with the lines before the off-th written back; nothing seen differs. */
  ghost predicate Flushed(y: Layer, off: nat, y0: Layer)
    requires off <= CACHE_BLOCKS
  {
    && Coherent(y) && y.(disk := y0.disk) == y0 && |y0.disk| == DISK_BLOCKS
    && (forall x :: 0 <= x < WRITE_OFFSET ==> y.disk[x] == y0.disk[x])
    && (forall b :: View(y, b) == View(y0, b))
    && (forall c :: 0 <= c < off && 0 <= y.tag[c] ==> y.disk[WRITE_OFFSET + Home(y.tag[c], c)] == y.line[c])
  }

  lemma NoneFlushed(y: Layer)
    requires Coherent(y)
    ensures Flushed(y, 0, y)
  {
    hide View;
  }

  lemma LineFlushed(y: Layer, off: nat, y0: Layer)
    requires off < CACHE_BLOCKS && Flushed(y, off, y0)
    ensures Shaped(y) && (y.dirty[off] ==> 0 <= y.tag[off])
    ensures y.dirty[off] ==> 0 <= WRITE_OFFSET + Home(y.tag[off], off) < DISK_BLOCKS
    ensures Flushed(WriteBack(y, off), off + 1, y0)
  {
    WriteBackView(y, off);
    hide View;
  }

  lemma AllFlushed(y: Layer, y0: Layer)
    requires Flushed(y, CACHE_BLOCKS, y0)
    ensures |y.disk| == |y0.disk| == DISK_BLOCKS
    ensures forall b :: IsData(b) ==> y.disk[WRITE_OFFSET + b] == View(y0, b)
    ensures forall x :: 0 <= x < WRITE_OFFSET ==> y.disk[x] == y0.disk[x]
  {
    forall b | IsData(b) ensures y.disk[WRITE_OFFSET + b] == View(y0, b) {
      assert View(y, b) == View(y0, b);
      HomeOfSlot(b);
    }
  }

  lemma CreateFull(s: Store, key: Name)
    requires WellFormed(s)
    ensures FirstClear(s.inode) == MAX_OBJECTS ==> Create(s, key) == (s, -1)
  {
  }

  /** The parts that create changes, put together. */
  lemma CreateIs(s: Store, key: Name, s': Store)
    requires WellFormed(s) && FirstClear(s.inode) < MAX_OBJECTS
    requires var o := FirstClear(s.inode);
      && s' == Mark(s, o).(inode := s'.inode, objs := s'.objs)
      && s'.inode == s.inode[o := true] && s'.objs == s.objs[o := SetName(s.objs[o].(id := o + 2), key)]
    ensures Create(s, key) == (s', FirstClear(s.inode) + 2) && WellFormed(s')
  {
    hide FirstClear;
  }

  lemma MarkParts(s: Store, o: nat)
    requires WellFormed(s) && o < MAX_OBJECTS
    ensures Mark(s, o).data == s.data && Mark(s, o).objs == s.objs
  {
  }

  /** What the block's place needs of the store when the block has been filled. */
  lemma TakenParts(s: Store, o: nat, page: nat, b: nat, block: Block)
    requires Inv(s) && o < MAX_OBJECTS && page < MAX_PAGES && b == FirstClear(s.data) && IsData(b)
    requires EnoughFree(s, s.objs[o], page)
    ensures var t := Taken(Mark(s, o), b, block);
      && t.objs == s.objs && (NeedsTwo(s.objs[o], page) ==> FirstClear(t.data) < DATA_BLOCKS)
      && (page < DIRECT ==> |s.objs[o].direct| == 4 && 0 <= s.objs[o].direct[page])
  {
    if page < DIRECT {
      DirectNotNegative(s, o, page);
    }
    hide Coherent, Owned, Grouped, Numbered, WriteBlock;
  }

  lemma DirectNotNegative(s: Store, o: nat, page: nat)
    requires Inv(s) && o < MAX_OBJECTS && page < DIRECT
    ensures 0 <= s.objs[o].direct[page]
  {
    hide Coherent, Owned, Grouped, Numbered, View;
    assert Ptr(s, Page(o, page)) == s.objs[o].direct[page];
    if Ptr(s, Page(o, page)) != 0 {
      SiteInUse(s, Page(o, page));
    }
  }

  /** No live entry before the n-th is called key. */
  ghost predicate NoneBefore(live: seq<bool>, objs: seq<Object>, key: Name, n: nat) {
    |live| == |objs| && n <= |objs| && forall k :: 0 <= k < n ==> !(live[k] && objs[k].key == key)
  }

  lemma NoneAtFirst(live: seq<bool>, objs: seq<Object>, key: Name)
    requires |live| == |objs|
    ensures NoneBefore(live, objs, key, 0)
  {
  }

  lemma NoneThere(live: seq<bool>, objs: seq<Object>, key: Name, n: nat)
    requires NoneBefore(live, objs, key, n) && n < |live| == |objs| && !(live[n] && objs[n].key == key)
    ensures NoneBefore(live, objs, key, n + 1)
  {
  }

  lemma LookupIs(live: seq<bool>, objs: seq<Object>, key: Name, n: nat)
    requires NoneBefore(live, objs, key, n)
    requires |live| == |objs| && (n < |objs| ==> live[n] && objs[n].key == key)
    ensures Lookup(live, objs, key) == n
  {
  }

  lemma LookupLive(live: seq<bool>, objs: seq<Object>, key: Name)
    requires |live| == |objs| && Lookup(live, objs, key) < |live|
    ensures live[Lookup(live, objs, key)]
  {
  }

  /** The parts that the loops of destroy leave, put together. */
  lemma DestroyIs(s: Store, key: Name, s': Store, d1: seq<bool>, y1: Layer)
    requires WellFormed(s) && Lookup(s.inode, s.objs, key) < MAX_OBJECTS
    requires var o := Lookup(s.inode, s.objs, key);
      && s'.inode == s.inode[o := false] && s'.marked == s.marked[o / ENTRIES_PER_MARK := true]
      && s'.objs == s.objs[o := Emptied(s.objs[o])]
      && (d1, y1) == ReleaseDirect(s.data, s.layer, s.objs[o].direct, 0)
      && (s'.data, s'.layer) == ReleaseIndirect(d1, y1, s.objs[o], 0)
    ensures Destroy(s, key) == (s', 0)
  {
    hide Coherent, ReleaseDirect, ReleaseIndirect, Emptied, Lookup;
  }

  function ZeroTo(v: seq<int>, l: nat): (r: seq<int>)
    ensures |r| == |v|
  {
    seq(|v|, i requires 0 <= i < |v| => if i < l then 0 else v[i])
  }

  lemma ZeroStep(v: seq<int>, l: nat)
    requires l < |v|
    ensures ZeroTo(v, l)[l] == v[l]
    ensures ZeroTo(v, l)[l := 0] == ZeroTo(v, l + 1)
    ensures v[l] == 0 ==> ZeroTo(v, l) == ZeroTo(v, l + 1)
  {
  }

  lemma ZeroEnds(v: seq<int>)
    requires |v| == 4
    ensures ZeroTo(v, 0) == v && ZeroTo(v, 4) == [0, 0, 0, 0]
  {
  }

  /** One turn of the loop over the direct pointers. */
  lemma DirectStep(s: Store, own: map<int, Site>, o: int, l: nat, data: seq<bool>, layer: Layer)
    requires WellFormed(s) && Owner(s, own) && 0 <= o < MAX_OBJECTS && l < 4
    requires |data| == DATA_BLOCKS && Coherent(layer) && AtStage(s, own, o, l, data, layer)
    ensures var ptr := s.objs[o].direct[l];
      var (d, y) := Release(data, layer, ptr);
      && AtStage(s, own, o, l + 1, d, y)
      && ReleaseDirect(d, y, s.objs[o].direct, l + 1) == ReleaseDirect(data, layer, s.objs[o].direct, l)
      && (ptr != 0 ==> IsData(ptr - WRITE_OFFSET))
      && (ptr == 0 ==> (d, y) == (data, layer))
  {
    hide View, Coherent, AtStage;
    ReleaseNothing(data, layer);
    hide Release;
    var t := Page(o, l);
    assert Ptr(s, t) == s.objs[o].direct[l];
    if Ptr(s, t) != 0 {
      assert Ptr(s, t) in own;
    }
    ReleaseSite(s, own, t, data, layer);
  }

  lemma DirectEnd(data: seq<bool>, layer: Layer, direct: seq<int>)
    requires |data| == DATA_BLOCKS && Coherent(layer)
    ensures ReleaseDirect(data, layer, direct, |direct|) == (data, layer)
  {
  }

  lemma GroupData(s: Store, own: map<int, Site>, o: int, l: nat)
    requires WellFormed(s) && Owner(s, own) && 0 <= o < MAX_OBJECTS && l < 4 && s.objs[o].indirect[l] != 0
    ensures IsData(s.objs[o].indirect[l] - WRITE_OFFSET) && Ptr(s, Indirect(o, l)) == s.objs[o].indirect[l]
  {
    hide View, Coherent;
  }

  /** The bits and the layer once the entries of indirect block b are given back. */
  function EntriesGone(d: seq<bool>, y: Layer, b: nat): (r: (seq<bool>, Layer))
    requires |d| == DATA_BLOCKS && Coherent(y) && IsData(b)
    ensures |r.0| == DATA_BLOCKS && Coherent(r.1)
  {
    ReadBlockView(y, b);
    ReleaseEntries(d, Fetch(y, b), ReadBlock(y, b), 0)
  }

  /** And once the block itself is. */
  function BlockGone(d: seq<bool>, y: Layer, ptr: int): (r: (seq<bool>, Layer))
    requires |d| == DATA_BLOCKS && Coherent(y) && IsData(ptr - WRITE_OFFSET)
    ensures |r.0| == DATA_BLOCKS && Coherent(r.1)
  {
    var (d1, y1) := EntriesGone(d, y, ptr - WRITE_OFFSET);
    Release(d1, y1, ptr)
  }

  /** One turn of the loop over the indirect pointers, where there is one: the
      entries of its block are given back, and then the block is. */
  lemma GroupStep(o: Object, l: nat, d: seq<bool>, y: Layer)
    requires |d| == DATA_BLOCKS && Coherent(y) && ObjectShaped(o) && l < 4
    requires o.indirect[l] != 0 && IsData(o.indirect[l] - WRITE_OFFSET)
    ensures var (d', y') := BlockGone(d, y, o.indirect[l]);
      ReleaseIndirect(d', y', o, l + 1) == ReleaseIndirect(d, y, o, l)
  {
    hide Coherent, Release, ReleaseEntries, Fetch, ReadBlock;
  }

  lemma SkipStep(o: Object, l: nat, data: seq<bool>, layer: Layer)
    requires |data| == DATA_BLOCKS && Coherent(layer) && ObjectShaped(o) && l < 4 && o.indirect[l] == 0
    ensures ReleaseIndirect(data, layer, o, l) == ReleaseIndirect(data, layer, o, l + 1)
  {
    hide Coherent;
  }

  lemma IndirectEnd(data: seq<bool>, layer: Layer, o: Object)
    requires |data| == DATA_BLOCKS && Coherent(layer) && ObjectShaped(o)
    ensures ReleaseIndirect(data, layer, o, 4) == (data, layer)
  {
    hide Coherent;
  }

  /** One turn of the loop over an indirect block's words. */
  lemma EntryStep(s: Store, own: map<int, Site>, o: int, g: nat, e: nat, data: seq<bool>, layer: Layer)
    requires WellFormed(s) && Owner(s, own) && 0 <= o < MAX_OBJECTS && g < 4 && e < WORDS_PER_BLOCK
    requires s.objs[o].indirect[g] != 0
    requires |data| == DATA_BLOCKS && Coherent(layer)
    requires AtStage(s, own, o, 4 + 1025 * g + e, data, layer)
    ensures var block := View(s.layer, s.objs[o].indirect[g] - WRITE_OFFSET);
      var (d, y) := Release(data, layer, WordAt(block, e));
      && AtStage(s, own, o, 4 + 1025 * g + e + 1, d, y)
      && ReleaseEntries(d, y, block, e + 1) == ReleaseEntries(data, layer, block, e)
      && (WordAt(block, e) != 0 ==> IsData(WordAt(block, e) - WRITE_OFFSET))
      && (WordAt(block, e) == 0 ==> (d, y) == (data, layer))
  {
    hide View, Ptr, WordAt, Owner, Coherent, AtStage;
    EntryPtr(s, own, o, g, e);
    ReleaseNothing(data, layer);
    hide Release;
    ReleaseSite(s, own, Page(o, 4 + 1024 * g + e), data, layer);
  }

  lemma EntriesEnd(data: seq<bool>, layer: Layer, block: Block)
    requires |data| == DATA_BLOCKS && Coherent(layer)
    ensures ReleaseEntries(data, layer, block, WORDS_PER_BLOCK) == (data, layer)
  {
  }

  /** The word at entry e of group g is the pointer of its page, of its rank. */
  lemma EntryPtr(s: Store, own: map<int, Site>, o: int, g: nat, e: nat)
    requires WellFormed(s) && Owner(s, own) && 0 <= o < MAX_OBJECTS && g < 4 && e < WORDS_PER_BLOCK
    requires s.objs[o].indirect[g] != 0
    ensures var (t, w) := (Page(o, 4 + 1024 * g + e), WordAt(View(s.layer, s.objs[o].indirect[g] - WRITE_OFFSET), e));
      && IsSite(t) && Ptr(s, t) == w && Rank(t) == 4 + 1025 * g + e
      && (w != 0 ==> IsData(w - WRITE_OFFSET))
  {
    RankOfEntry(o, g, e);
    hide View, WordAt, Coherent;
    var t := Page(o, 4 + 1024 * g + e);
    if Ptr(s, t) != 0 {
      assert Ptr(s, t) in own;
    }
  }

  // ---------- the loops of destroy ----------

  /** Where a loop over the pointers of entry n begins: the store that destroy found,
      the owners of its blocks, and the bits, the layer and the table as they are. */
  datatype Start = Start(s: Store, own: map<int, Site>, n: nat, d: seq<bool>, y: Layer, objs: seq<Object>) {
    ghost predicate Formed() {
      && WellFormed(s) && Owner(s, own) && n < MAX_OBJECTS
      && |d| == DATA_BLOCKS && Coherent(y) && |objs| == MAX_OBJECTS
    }
  }

  /** The first l direct pointers have been given back and zeroed. */
  ghost predicate SlotsGone(start: Start, l: nat, d: seq<bool>, y: Layer, objs: seq<Object>)
    requires start.Formed()
  {
    && l <= 4 && |d| == DATA_BLOCKS && Coherent(y)
    && AtStage(start.s, start.own, start.n, l, d, y)
    && ReleaseDirect(d, y, start.s.objs[start.n].direct, l)
       == ReleaseDirect(start.d, start.y, start.s.objs[start.n].direct, 0)
    && objs == start.objs[start.n := start.objs[start.n].(direct := ZeroTo(start.s.objs[start.n].direct, l))]
  }

  lemma NoSlotGone(start: Start)
    requires WellFormed(start.s) && Owner(start.s, start.own) && start.n < MAX_OBJECTS == |start.objs|
    requires AtStage(start.s, start.own, start.n, 0, start.d, start.y)
    requires start.objs[start.n].direct == start.s.objs[start.n].direct
    ensures start.Formed() && SlotsGone(start, 0, start.d, start.y, start.objs)
  {
    assert Coherent(start.y) && |start.d| == DATA_BLOCKS && ObjectShaped(start.s.objs[start.n]);
    hide AtStage, Coherent, ReleaseDirect, WellFormed, Owner, ZeroTo;
    ZeroEnds(start.s.objs[start.n].direct);
  }

  /** What the next turn of the loop does. */
  lemma SlotGone(start: Start, l: nat, d: seq<bool>, y: Layer, objs: seq<Object>)
    requires start.Formed() && l < 4 && SlotsGone(start, l, d, y, objs)
    ensures |objs| == MAX_OBJECTS && |objs[start.n].direct| == 4 && |d| == DATA_BLOCKS && Coherent(y)
    ensures var (obj, ptr) := (objs[start.n], objs[start.n].direct[l]);
      && (ptr == 0 ==> SlotsGone(start, l + 1, d, y, objs))
      && (ptr != 0 ==>
            && IsData(ptr - WRITE_OFFSET)
            && var (d', y') := Release(d, y, ptr);
               SlotsGone(start, l + 1, d', y', objs[start.n := obj.(direct := obj.direct[l := 0])]))
  {
    assert WellFormed(start.s) && ObjectShaped(start.s.objs[start.n]);
    hide View, Owner, Release, ReleaseDirect, AtStage, Coherent, WellFormed, ObjectShaped, ZeroTo;
    ZeroStep(start.s.objs[start.n].direct, l);
    DirectStep(start.s, start.own, start.n, l, d, y);
    StageFormed(start.s, start.own, start.n, l + 1, Release(d, y, start.s.objs[start.n].direct[l]));
  }

  lemma StageFormed(s: Store, own: map<int, Site>, o: int, r: int, to: (seq<bool>, Layer))
    requires AtStage(s, own, o, r, to.0, to.1)
    ensures |to.0| == DATA_BLOCKS && Coherent(to.1)
  {
  }

  lemma AllSlotsGone(start: Start, d: seq<bool>, y: Layer, objs: seq<Object>)
    requires start.Formed() && SlotsGone(start, 4, d, y, objs)
    ensures AtStage(start.s, start.own, start.n, DIRECT, d, y) && Coherent(y) && Coherent(start.y)
    ensures (d, y) == ReleaseDirect(start.d, start.y, start.s.objs[start.n].direct, 0)
    ensures objs == start.objs[start.n := start.objs[start.n].(direct := [0, 0, 0, 0])]
  {
    assert ObjectShaped(start.s.objs[start.n]);
    hide AtStage, Coherent, WellFormed, Owner, ZeroTo;
    ZeroEnds(start.s.objs[start.n].direct);
    DirectEnd(d, y, start.s.objs[start.n].direct);
  }

  /** The first l indirect pointers have been given back and zeroed. */
  ghost predicate GroupsGone(start: Start, l: nat, d: seq<bool>, y: Layer, objs: seq<Object>)
    requires start.Formed()
  {
    && l <= 4 && |d| == DATA_BLOCKS && Coherent(y)
    && AtStage(start.s, start.own, start.n, 4 + 1025 * l, d, y)
    && ReleaseIndirect(d, y, start.s.objs[start.n], l) == ReleaseIndirect(start.d, start.y, start.s.objs[start.n], 0)
    && objs == start.objs[start.n := start.objs[start.n].(indirect := ZeroTo(start.s.objs[start.n].indirect, l))]
  }

  lemma GroupsGoneNow(start: Start, l: nat, d: seq<bool>, y: Layer, objs: seq<Object>)
    requires start.Formed() && l <= 4 && |d| == DATA_BLOCKS && Coherent(y)
    requires AtStage(start.s, start.own, start.n, 4 + 1025 * l, d, y)
    requires ReleaseIndirect(d, y, start.s.objs[start.n], l)
          == ReleaseIndirect(start.d, start.y, start.s.objs[start.n], 0)
    requires objs == start.objs[start.n := start.objs[start.n].(indirect := ZeroTo(start.s.objs[start.n].indirect, l))]
    ensures GroupsGone(start, l, d, y, objs)
  {
    hide AtStage, Coherent, ReleaseIndirect;
  }

  lemma NoGroupGone(start: Start)
    requires WellFormed(start.s) && Owner(start.s, start.own) && start.n < MAX_OBJECTS == |start.objs|
    requires AtStage(start.s, start.own, start.n, DIRECT, start.d, start.y)
    requires start.objs[start.n].indirect == start.s.objs[start.n].indirect
    ensures start.Formed() && GroupsGone(start, 0, start.d, start.y, start.objs)
  {
    assert Coherent(start.y) && |start.d| == DATA_BLOCKS && ObjectShaped(start.s.objs[start.n]);
    hide AtStage, Coherent, ReleaseIndirect, Owner, ZeroTo;
    ZeroEnds(start.s.objs[start.n].indirect);
  }

  lemma GroupPointer(start: Start, l: nat, d: seq<bool>, y: Layer, objs: seq<Object>)
    requires start.Formed() && l < 4 && GroupsGone(start, l, d, y, objs)
    ensures WellFormed(start.s) && Owner(start.s, start.own) && start.n < MAX_OBJECTS == |objs|
    ensures |d| == DATA_BLOCKS && Coherent(y) && AtStage(start.s, start.own, start.n, 4 + 1025 * l, d, y)
    ensures |start.s.objs| == MAX_OBJECTS && |objs[start.n].indirect| == 4 == |start.s.objs[start.n].indirect|
    ensures objs[start.n].indirect[l] == start.s.objs[start.n].indirect[l]
    ensures |start.d| == DATA_BLOCKS && Coherent(start.y) && |start.objs| == MAX_OBJECTS
    ensures ObjectShaped(start.s.objs[start.n])
    ensures ReleaseIndirect(d, y, start.s.objs[start.n], l)
         == ReleaseIndirect(start.d, start.y, start.s.objs[start.n], 0)
    ensures objs == start.objs[start.n := start.objs[start.n].(indirect := ZeroTo(start.s.objs[start.n].indirect, l))]
  {
    assert ObjectShaped(start.s.objs[start.n]);
    hide AtStage, Coherent, Owner, ZeroTo;
    ZeroStep(start.s.objs[start.n].indirect, l);
  }

  lemma NoGroupThere(start: Start, l: nat, d: seq<bool>, y: Layer, objs: seq<Object>)
    requires start.Formed() && l < 4 && GroupsGone(start, l, d, y, objs) && start.s.objs[start.n].indirect[l] == 0
    ensures GroupsGone(start, l + 1, d, y, objs)
  {
    assert ObjectShaped(start.s.objs[start.n]);
    hide AtStage, Coherent, Owner, ReleaseIndirect, ZeroTo;
    ZeroStep(start.s.objs[start.n].indirect, l);
    SkipGroup(start.s, start.own, start.n, l, d, y);
    SkipStep(start.s.objs[start.n], l, d, y);
  }

  lemma GroupFetched(s: Store, own: map<int, Site>, o: nat, l: nat, d: seq<bool>, y: Layer)
    requires WellFormed(s) && Owner(s, own) && o < MAX_OBJECTS && l < 4 && s.objs[o].indirect[l] != 0
    requires Coherent(y) && AtStage(s, own, o, 4 + 1025 * l, d, y)
    ensures var b := s.objs[o].indirect[l] - WRITE_OFFSET;
      && IsData(b) && AtStage(s, own, o, 4 + 1025 * l, d, Fetch(y, b))
      && ReadBlock(y, b) == View(s.layer, b)
  {
    hide View, AtStage, Owner, Coherent, Fetch, ReadBlock;
    GroupData(s, own, o, l);
    FetchStage(s, own, o, l, d, y);
  }

  /** The indirect block itself is given back. */
  lemma GroupStage(s: Store, own: map<int, Site>, n: nat, l: nat, d1: seq<bool>, y1: Layer)
    requires WellFormed(s) && Owner(s, own) && n < MAX_OBJECTS && l < 4 && s.objs[n].indirect[l] != 0
    requires AtStage(s, own, n, 4 + 1025 * l + 1024, d1, y1) && |d1| == DATA_BLOCKS && Coherent(y1)
    ensures var (d2, y2) := Release(d1, y1, s.objs[n].indirect[l]);
      AtStage(s, own, n, 4 + 1025 * (l + 1), d2, y2)
  {
    GroupData(s, own, n, l);
    hide View, Owner, Release, AtStage, Coherent, WellFormed, Ptr;
    ReleaseSite(s, own, Indirect(n, l), d1, y1);
  }

  lemma IndirectZeroed(was: seq<Object>, n: nat, v: seq<int>, l: nat, objs: seq<Object>)
    requires n < |was| && |v| == 4 && l < 4 && objs == was[n := was[n].(indirect := ZeroTo(v, l))]
    ensures |objs| == |was| && objs[n].indirect == ZeroTo(v, l)
    ensures objs[n := objs[n].(indirect := objs[n].indirect[l := 0])]
         == was[n := was[n].(indirect := ZeroTo(v, l + 1))]
  {
    ZeroStep(v, l);
    hide ZeroTo;
  }

  /** What the turn does where there is a block. */
  lemma GroupGone(start: Start, l: nat, d: seq<bool>, y: Layer, objs: seq<Object>, ptr: int)
    requires start.Formed() && l < 4 && GroupsGone(start, l, d, y, objs) && |d| == DATA_BLOCKS && Coherent(y)
    requires ptr == start.s.objs[start.n].indirect[l] != 0 && IsData(ptr - WRITE_OFFSET)
    requires var (d1, y1) := EntriesGone(d, y, ptr - WRITE_OFFSET);
      AtStage(start.s, start.own, start.n, 4 + 1025 * l + 1024, d1, y1)
    ensures |objs| == MAX_OBJECTS && |objs[start.n].indirect| == 4
    ensures var ((d', y'), obj) := (BlockGone(d, y, ptr), objs[start.n]);
      GroupsGone(start, l + 1, d', y', objs[start.n := obj.(indirect := obj.indirect[l := 0])])
  {
    hide View, Owner, Release, ReleaseIndirect, EntriesGone, AtStage, Coherent, ZeroTo, WellFormed, ObjectShaped, Ptr,
      GroupsGone, Start.Formed;
    var (s, own, n) := (start.s, start.own, start.n);
    GroupPointer(start, l, d, y, objs);
    IndirectZeroed(start.objs, n, s.objs[n].indirect, l, objs);
    GroupStep(s.objs[n], l, d, y);
    var (d1, y1) := EntriesGone(d, y, ptr - WRITE_OFFSET);
    GroupStage(s, own, n, l, d1, y1);
    var (d', y') := BlockGone(d, y, ptr);
    hide BlockGone;
    GroupsGoneNow(start, l + 1, d', y', objs[n := objs[n].(indirect := objs[n].indirect[l := 0])]);
  }

  lemma AllGroupsGone(start: Start, d: seq<bool>, y: Layer, objs: seq<Object>)
    requires start.Formed() && GroupsGone(start, 4, d, y, objs)
    ensures Coherent(y) && Coherent(start.y)
    ensures (d, y) == ReleaseIndirect(start.d, start.y, start.s.objs[start.n], 0)
    ensures objs == start.objs[start.n := start.objs[start.n].(indirect := [0, 0, 0, 0])]
  {
    assert ObjectShaped(start.s.objs[start.n]);
    hide AtStage, Coherent, Owner, ZeroTo;
    ZeroEnds(start.s.objs[start.n].indirect);
    IndirectEnd(d, y, start.s.objs[start.n]);
  }

  // ---------- the loops of read ----------

  lemma IndirectCount(s: Store, o: nat)
    requires WellFormed(s) && o < MAX_OBJECTS
    ensures |s.objs[o].indirect| == 4
  {
  }

  lemma ReadInside(s: Store, o: int, first: nat, n: nat)
    requires Inv(s) && CanRead(s, o, first, n)
    ensures 0 <= o < MAX_OBJECTS
  {
  }

  /** The direct pointers a read follows name data blocks. */
  lemma DirectData(s: Store, o: nat, first: nat, n: nat)
    requires Inv(s) && CanRead(s, o, first, n) && o < MAX_OBJECTS
    ensures forall i :: first <= i < |s.objs[o].direct| && i - first < n ==> IsData(s.objs[o].direct[i] - WRITE_OFFSET)
  {
    hide Coherent, Owned, Grouped, Numbered, View;
    forall i | first <= i < |s.objs[o].direct| && i - first < n ensures IsData(s.objs[o].direct[i] - WRITE_OFFSET) {
      assert Ptr(s, Page(o, i)) == s.objs[o].direct[i];
      SiteInUse(s, Page(o, i));
    }
  }

  /** Where a read of n pages from page first stands, at page base. */
  predicate Ahead(first: int, n: int, base: int, skip: int, left: int) {
    0 < left ==> skip == Max(0, first - base) && left == n - Max(0, base - first)
  }

  /** What the direct loop leaves for the indirect one. */
  lemma DirectRead(s: Store, o: nat, first: nat, n: nat)
    requires Inv(s) && o < MAX_OBJECTS
    ensures var c := ReadSlots(Cursor(s.layer, first, n, []), s.objs[o].direct, 0);
      SameViews(c.layer, s.layer) && Ahead(first, n, 4, c.skip, c.left)
  {
    hide Coherent, View, Owned, Grouped, Numbered, ReadSlots;
    assert Slots(s, o, 0, s.objs[o].direct);
    assert SameViews(s.layer, s.layer);
    hide Ptr, SameViews;
    ReadSlotsPages(s, o, 0, Cursor(s.layer, first, n, []), s.objs[o].direct, 0);
  }

  /** The indirect block the loop reads next is a data block. */
  lemma GroupReady(s: Store, o: nat, first: nat, n: nat, j: nat, skip: nat, left: nat)
    requires Inv(s) && o < MAX_OBJECTS && CanRead(s, o, first, n) && j < 4 && 0 < left
    requires Ahead(first, n, 4 + 1024 * j, skip, left)
    ensures IsData(s.objs[o].indirect[j] - WRITE_OFFSET)
  {
    hide Coherent, View, Owned, Grouped, Numbered, Ptr;
    IndirectSlot(s, o, j);
    assert Ptr(s, Indirect(o, j)) != 0;
  }

  /** One turn of the loop over the indirect blocks; y is the layer before block
      is read, z after. */
  lemma GroupTurn(s: Store, o: nat, first: nat, n: nat, j: nat, y: Layer, z: Layer, block: Block,
        skip: nat, left: nat, out: seq<Block>)
    requires Inv(s) && o < MAX_OBJECTS && CanRead(s, o, first, n) && j < 4 && 0 < left
    requires Ahead(first, n, 4 + 1024 * j, skip, left)
    requires Coherent(y) && SameViews(y, s.layer) && IsData(s.objs[o].indirect[j] - WRITE_OFFSET)
    requires z == Fetch(y, s.objs[o].indirect[j] - WRITE_OFFSET)
    requires block == ReadBlock(y, s.objs[o].indirect[j] - WRITE_OFFSET)
    ensures Coherent(z)
    ensures forall i :: skip <= i < |Words(block)| && i - skip < left ==> IsData(Words(block)[i] - WRITE_OFFSET)
    ensures var c := ReadSlots(Cursor(z, skip, left, out), Words(block), 0);
      && SameViews(c.layer, s.layer)
      && Ahead(first, n, 4 + 1024 * (j + 1), c.skip, c.left)
      && ReadGroups(c, s.objs[o].indirect, j + 1) == ReadGroups(Cursor(y, skip, left, out), s.objs[o].indirect, j)
  {
    hide Coherent, View, Owned, Grouped, Numbered, ReadSlots, ReadGroups, Fetch, ReadBlock, Words, Slots, Ptr,
      CanRead, FetchPtr, SameViews;
    FetchSeen(s, y, s.objs[o].indirect[j]);
    GroupSlots(s, o, j);
    WordsData(s, o, first, n, j, Words(block), skip, left);
    ReadSlotsPages(s, o, 4 + 1024 * j, Cursor(z, skip, left, out), Words(block), 0);
    GroupsUnfold(s.objs[o].indirect, j, y, skip, left, out);
  }

  lemma FetchSeen(s: Store, y: Layer, ptr: int)
    requires Coherent(y) && SameViews(y, s.layer) && IsData(ptr - WRITE_OFFSET)
    ensures var (z, block) := FetchPtr(y, ptr);
      && z == Fetch(y, ptr - WRITE_OFFSET) && block == ReadBlock(y, ptr - WRITE_OFFSET)
      && Coherent(z) && SameViews(z, s.layer) && block == View(s.layer, ptr - WRITE_OFFSET)
  {
    hide View, Coherent, Fetch, ReadBlock;
    ReadBlockView(y, ptr - WRITE_OFFSET);
  }

  lemma GroupsUnfold(indirect: seq<int>, j: nat, y: Layer, skip: nat, left: nat, out: seq<Block>)
    requires Coherent(y) && j < |indirect| && 0 < left
    ensures var (z, block) := FetchPtr(y, indirect[j]);
      ReadGroups(Cursor(y, skip, left, out), indirect, j)
      == ReadGroups(ReadSlots(Cursor(z, skip, left, out), Words(block), 0), indirect, j + 1)
  {
    hide Coherent, FetchPtr, ReadSlots, Words;
  }

  lemma WordsData(s: Store, o: nat, first: nat, n: nat, j: nat, ws: seq<int>, skip: nat, left: nat)
    requires Inv(s) && o < MAX_OBJECTS && CanRead(s, o, first, n) && j < 4 && 0 < left
    requires Ahead(first, n, 4 + 1024 * j, skip, left)
    requires |ws| == 1024 && Slots(s, o, 4 + 1024 * j, ws)
    ensures forall i :: skip <= i < |ws| && i - skip < left ==> IsData(ws[i] - WRITE_OFFSET)
  {
    hide Coherent, View, Owned, Grouped, Numbered, Ptr;
    forall i | skip <= i < |ws| && i - skip < left ensures IsData(ws[i] - WRITE_OFFSET) {
      var t := Page(o, 4 + 1024 * j + i);
      assert Ptr(s, t) == ws[i] && first <= 4 + 1024 * j + i < first + n;
      SiteInUse(s, t);
    }
  }

  /** Rewriting metadata blocks shows in no data block. */
  lemma MetadataApart(y: Layer, z: Layer)
    requires Coherent(y) && z == y.(disk := z.disk) && |z.disk| == DISK_BLOCKS
    requires forall x :: WRITE_OFFSET <= x < DISK_BLOCKS ==> z.disk[x] == y.disk[x]
    ensures Coherent(z) && forall b :: View(z, b) == View(y, b)
  {
  }
}
