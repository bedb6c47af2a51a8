/** Unmount and mount. Unmounting writes the marked chunks of the object table,
    the dirty cache lines and both bitmaps; mounting reads everything back. */
module Restart {
  import opened Blocks
  import opened BlockLayer
  import opened StoreModel
  import opened Ownership
  import opened FileMap
  import opened Encoding

  const CHUNK := 4048
  /** Bytes of the table that have a place on disk: 22528 chunks of 4048. */
  const TABLE_BYTES := 91193344

  ghost predicate Storables(objs: seq<Object>, w: Width) {
    |objs| == MAX_OBJECTS && forall o :: 0 <= o < MAX_OBJECTS ==> Storable(objs[o], w)
  }

  /** Byte n of the table in memory, and zero past the last entry. */
  function TableByte(objs: seq<Object>, n: nat, w: Width): Byte
    requires Storables(objs, w)
  {
    if EntryNo(w, n) < MAX_OBJECTS then EntryBytes(objs[EntryNo(w, n)], w)[EntryOff(w, n)] else 0
  }

  /** Byte k of chunk i's block; the last 48 bytes of the buffer are never filled. */
  function ChunkByte(objs: seq<Object>, i: nat, k: nat, w: Width): Byte
    requires Storables(objs, w) && i < OBJECT_BLOCKS
  {
    if k < CHUNK then TableByte(objs, CHUNK * i + k, w) else 0
  }

  function ChunkBlock(objs: seq<Object>, i: nat, w: Width): (b: Block)
    requires Storables(objs, w) && i < OBJECT_BLOCKS
    ensures forall k :: 0 <= k < BLOCK_SIZE ==> b[k] == ChunkByte(objs, i, k, w)
  {
    seq(BLOCK_SIZE, k requires 0 <= k < BLOCK_SIZE => ChunkByte(objs, i, k, w))
  }

  /** Block x of the disk once the store has been unmounted. */
  ghost function UnmountBlock(s: Store, x: nat, w: Width): Block
    requires WellFormed(s) && Storables(s.objs, w) && x < DISK_BLOCKS
  {
    if x < OBJECT_BLOCKS then
      if s.marked[x] then ChunkBlock(s.objs, x, w) else s.layer.disk[x]
    else if x < OBJECT_BLOCKS + INODE_BIT_BLOCKS then BitBlock(s.inode, x - OBJECT_BLOCKS)
    else if x < WRITE_OFFSET then BitBlock(s.data, x - OBJECT_BLOCKS - INODE_BIT_BLOCKS)
    else View(s.layer, x - WRITE_OFFSET)
  }

  ghost function Unmounted(s: Store, w: Width): (disk: seq<Block>)
    requires WellFormed(s) && Storables(s.objs, w)
    ensures |disk| == DISK_BLOCKS
    ensures forall x :: 0 <= x < DISK_BLOCKS ==> disk[x] == UnmountBlock(s, x, w)
  {
    seq<Block>(DISK_BLOCKS, x requires 0 <= x < DISK_BLOCKS => UnmountBlock(s, x, w))
  }

  /** Byte n of the table as mounting reads it; past the chunks, fresh memory. */
  function DiskByte(disk: seq<Block>, n: nat): Byte
    requires |disk| == DISK_BLOCKS
  {
    if n < TABLE_BYTES then disk[n / CHUNK][n % CHUNK] else 0
  }

  /** The bytes that are entry o of the table once the chunks have been read. */
  function MountBytes(disk: seq<Block>, o: nat, w: Width): (b: seq<Byte>)
    requires |disk| == DISK_BLOCKS
    ensures |b| == EntrySize(w)
    ensures forall j :: 0 <= j < EntrySize(w) ==> b[j] == DiskByte(disk, At(w, o, j))
  {
    seq<Byte>(EntrySize(w), j requires 0 <= j < EntrySize(w) => DiskByte(disk, At(w, o, j)))
  }

  function MountEntry(disk: seq<Block>, o: nat, w: Width): Object
    requires |disk| == DISK_BLOCKS
  {
    EntryFrom(MountBytes(disk, o, w), w)
  }

  function MountBits(disk: seq<Block>, base: nat, n: nat): (bits: seq<bool>)
    requires |disk| == DISK_BLOCKS && BITS_PER_BLOCK * (DISK_BLOCKS - base) >= n && base <= DISK_BLOCKS
    ensures |bits| == n
    ensures forall m :: 0 <= m < n ==> bits[m] == BlockBit(disk[base + m / BITS_PER_BLOCK], m % BITS_PER_BLOCK)
  {
    seq(n, m requires 0 <= m < n => BlockBit(disk[base + m / BITS_PER_BLOCK], m % BITS_PER_BLOCK))
  }

  function Mounted(disk: seq<Block>, cached: bool, w: Width): (s: Store)
    requires |disk| == DISK_BLOCKS
    ensures |s.objs| == MAX_OBJECTS && forall o :: 0 <= o < MAX_OBJECTS ==> s.objs[o] == MountEntry(disk, o, w)
    ensures s.inode == MountBits(disk, OBJECT_BLOCKS, MAX_OBJECTS)
    ensures s.data == MountBits(disk, OBJECT_BLOCKS + INODE_BIT_BLOCKS, DATA_BLOCKS)
  {
    Store(
      MountBits(disk, OBJECT_BLOCKS, MAX_OBJECTS),
      MountBits(disk, OBJECT_BLOCKS + INODE_BIT_BLOCKS, DATA_BLOCKS),
      seq<Object>(MAX_OBJECTS, o requires 0 <= o < MAX_OBJECTS => MountEntry(disk, o, w)),
      seq(MARKS, _ => false),
      Layer(cached, disk, seq(CACHE_BLOCKS, _ => -1), seq(CACHE_BLOCKS, _ => false), seq<Block>(CACHE_BLOCKS,
        _ => Zero())))
  }

  // ---------- what is restored whatever the table ----------

  lemma MountedLayer(s: Store, cached: bool, w: Width)
    requires WellFormed(s) && Storables(s.objs, w)
    ensures Coherent(Mounted(Unmounted(s, w), cached, w).layer)
    ensures forall b :: View(Mounted(Unmounted(s, w), cached, w).layer, b) == View(s.layer, b)
  {
    hide UnmountBlock, BitBlock, MountBits, MountEntry;
    forall b ensures View(Mounted(Unmounted(s, w), cached, w).layer, b) == View(s.layer, b) {
      if IsData(b) {
        assert UnmountBlock(s, WRITE_OFFSET + b, w) == View(s.layer, b) by { DataBlockOf(s, b, w); }
      }
    }
  }

  lemma DataBlockOf(s: Store, b: nat, w: Width)
    requires WellFormed(s) && Storables(s.objs, w) && IsData(b)
    ensures UnmountBlock(s, WRITE_OFFSET + b, w) == View(s.layer, b)
  {
    hide View, BitBlock, ChunkBlock, Coherent;
  }

  lemma BitsBack(disk: seq<Block>, base: nat, bits: seq<bool>, blocks: nat)
    requires |disk| == DISK_BLOCKS && base + blocks <= DISK_BLOCKS && |bits| == BITS_PER_BLOCK * blocks
    requires forall i :: 0 <= i < blocks ==> disk[base + i] == BitBlock(bits, i)
    ensures MountBits(disk, base, |bits|) == bits
  {
    hide BitBlock, BlockBit;
    forall m | 0 <= m < |bits| ensures MountBits(disk, base, |bits|)[m] == bits[m] {
      assert disk[base + m / BITS_PER_BLOCK] == BitBlock(bits, m / BITS_PER_BLOCK);
      BitBlockRoundTrip(bits, m / BITS_PER_BLOCK, m % BITS_PER_BLOCK);
    }
  }

  lemma MountedBits(s: Store, cached: bool, w: Width)
    requires WellFormed(s) && Storables(s.objs, w)
    ensures Mounted(Unmounted(s, w), cached, w).inode == s.inode
    ensures Mounted(Unmounted(s, w), cached, w).data == s.data
  {
    hide BitBlock, ChunkBlock, View, Coherent, MountBits, MountEntry;
    var disk := Unmounted(s, w);
    BitsBack(disk, OBJECT_BLOCKS, s.inode, INODE_BIT_BLOCKS);
    BitsBack(disk, OBJECT_BLOCKS + INODE_BIT_BLOCKS, s.data, DATA_BIT_BLOCKS);
  }

  // ---------- the table ----------

  /** Byte n of the table lies in a chunk that unmounting will write. */
  predicate WillWrite(s: Store, n: nat)
    requires |s.marked| == MARKS
  {
    n < TABLE_BYTES && s.marked[n / CHUNK]
  }

  /** Every byte that matters to the entry o is on disk, or will be written. */
  ghost predicate EntrySynced(s: Store, o: nat, w: Width)
    requires WellFormed(s) && Storables(s.objs, w) && o < MAX_OBJECTS
  {
    forall j: nat :: j < EntrySize(w) && Matters(s.objs[o], j, w) && !WillWrite(s, At(w, o, j)) ==>
      DiskByte(s.layer.disk, At(w, o, j)) == EntryBytes(s.objs[o], w)[j]
  }

  ghost predicate Synced(s: Store, w: Width)
    requires WellFormed(s) && Storables(s.objs, w)
  {
    forall o: nat :: o < MAX_OBJECTS ==> EntrySynced(s, o, w)
  }

  lemma UnmountedByte(s: Store, n: nat, w: Width)
    requires WellFormed(s) && Storables(s.objs, w)
    ensures DiskByte(Unmounted(s, w), n) ==
      if WillWrite(s, n) then TableByte(s.objs, n, w) else DiskByte(s.layer.disk, n)
  {
    hide BitBlock, View, Coherent, TableByte, Storables;
    if n < TABLE_BYTES {
      var i := n / CHUNK;
      assert i < OBJECT_BLOCKS && n == CHUNK * i + n % CHUNK;
    }
  }

  lemma TableByteAt(objs: seq<Object>, o: nat, j: nat, w: Width)
    requires Storables(objs, w) && o < MAX_OBJECTS && j < EntrySize(w)
    ensures TableByte(objs, At(w, o, j), w) == EntryBytes(objs[o], w)[j]
  {
    hide EntryBytes, Storable;
    AtParts(w, o, j);
  }

  /** Byte j of entry o as it is on disk after unmounting. */
  lemma EntryByte(s: Store, o: nat, j: nat, w: Width)
    requires WellFormed(s) && Storables(s.objs, w) && o < MAX_OBJECTS && j < EntrySize(w)
    ensures DiskByte(Unmounted(s, w), At(w, o, j)) ==
      if WillWrite(s, At(w, o, j)) then EntryBytes(s.objs[o], w)[j] else DiskByte(s.layer.disk, At(w, o, j))
  {
    hide Coherent, EntryBytes, DiskByte, TableByte, Storable, WillWrite, Unmounted;
    UnmountedByte(s, At(w, o, j), w);
    TableByteAt(s.objs, o, j, w);
  }

  /** Where byte j of entry o goes: into block n / 4048 at n % 4048, n being where it
      is in the table, if that chunk is marked. */
  lemma EntryOnDisk(s: Store, o: nat, j: nat, w: Width)
    requires WellFormed(s) && Storables(s.objs, w) && o < MAX_OBJECTS && j < 2 * w + 80
    requires (2 * w + 80) * o + j < 22528 * 4048
    ensures var (n, disk) := ((2 * w + 80) * o + j, Unmounted(s, w));
      disk[n / 4048][n % 4048] ==
        if s.marked[n / 4048] then EntryBytes(s.objs[o], w)[j] else s.layer.disk[n / 4048][n % 4048]
  {
    hide Coherent, EntryBytes, Storable, Storables, Unmounted, At, EntrySize, ObjectShaped;
    AtIs(w, o, j);
    EntryByte(s, o, j, w);
  }

  lemma AtIs(w: Width, o: nat, j: nat)
    ensures At(w, o, j) == (2 * w + 80) * o + j && EntrySize(w) == 2 * w + 80
  {
  }

  /** A chunk that is not marked stays, and one that is ends in zeros; the two bitmaps
      follow the table's chunks, and the data blocks the bitmaps. */
  lemma MapsOnDisk(s: Store, w: Width)
    requires WellFormed(s) && Storables(s.objs, w)
    ensures forall x :: 0 <= x < 22528 && !s.marked[x] ==> Unmounted(s, w)[x] == s.layer.disk[x]
    ensures forall x, k :: 0 <= x < 22528 && s.marked[x] && 4048 <= k < 4096 ==> Unmounted(s, w)[x][k] == 0
    ensures forall i :: 0 <= i < 31 ==> Unmounted(s, w)[22528 + i] == BitBlock(s.inode, i)
    ensures forall i :: 0 <= i < 256 ==> Unmounted(s, w)[22559 + i] == BitBlock(s.data, i)
    ensures forall b :: 0 <= b < DATA_BLOCKS ==> Unmounted(s, w)[22815 + b] == View(s.layer, b)
  {
    hide BitBlock, ChunkBlock, View, Coherent, Storable;
  }

  lemma EntryBytesBack(s: Store, o: nat, w: Width)
    requires WellFormed(s) && Storables(s.objs, w) && o < MAX_OBJECTS
    ensures |s.layer.disk| == DISK_BLOCKS && Storable(s.objs[o], w)
    ensures forall j: nat :: j < EntrySize(w) ==>
      (MountBytes(Unmounted(s, w), o, w)[j] ==
        (if WillWrite(s, At(w, o, j)) then EntryBytes(s.objs[o], w)[j] else DiskByte(s.layer.disk, At(w, o, j))))
  {
    assert |s.layer.disk| == DISK_BLOCKS && Storable(s.objs[o], w);
    hide Coherent, EntryBytes, DiskByte, UnmountBlock, WillWrite, Unmounted, At, Storable, Storables, WellFormed;
    forall j: nat | j < EntrySize(w)
      ensures MountBytes(Unmounted(s, w), o, w)[j] ==
        (if WillWrite(s, At(w, o, j)) then EntryBytes(s.objs[o], w)[j] else DiskByte(s.layer.disk, At(w, o, j)))
    {
      EntryByte(s, o, j, w);
    }
  }

  /** An entry comes back exactly when it is synced. */
  lemma EntryBackIff(s: Store, o: nat, w: Width)
    requires WellFormed(s) && Storables(s.objs, w) && o < MAX_OBJECTS
    ensures Alike(MountEntry(Unmounted(s, w), o, w), s.objs[o]) <==> EntrySynced(s, o, w)
  {
    EntryBytesBack(s, o, w);
    EntryIff(MountBytes(Unmounted(s, w), o, w), s.objs[o], w);
    hide EntryBytes, EntryFrom, DiskByte, UnmountBlock, Matters, WillWrite, Unmounted, At, Alike, MountBytes;
    hide Storable, Storables, WellFormed;
  }

  /** An entry of zeros. */
  function Blank(): Object {
    Object(0, 0, [], seq(48, _ => 0), [0, 0, 0, 0], [0, 0, 0, 0])
  }

  lemma BlankBytes(j: nat, w: Width)
    requires j < EntrySize(w)
    ensures Storable(Blank(), w) && EntryBytes(Blank(), w)[j] == 0
  {
    BlankFields(w);
    EntryParts(Blank(), w);
    var t := EntryBytes(Blank(), w);
    hide EntryBytes, LongBytes, FieldBytes, Le32s;
    assert j < w ==> t[j] == t[..w][j];
    assert w <= j < 2 * w ==> t[j] == t[w..2 * w][j - w];
    assert 2 * w <= j < 2 * w + 48 ==> t[j] == t[2 * w..2 * w + 48][j - 2 * w];
    assert 2 * w + 48 <= j < 2 * w + 64 ==> t[j] == t[2 * w + 48..2 * w + 64][j - 2 * w - 48];
    assert 2 * w + 64 <= j ==> t[j] == t[2 * w + 64..2 * w + 80][j - 2 * w - 64];
  }

  lemma BlankFields(w: Width)
    ensures forall j :: 0 <= j < w ==> LongBytes(0, w)[j] == 0
    ensures forall j :: 0 <= j < 48 ==> FieldBytes(Blank())[j] == 0
    ensures forall j :: 0 <= j < 16 ==> Le32s([0, 0, 0, 0])[j] == 0
  {
    assert Le32(0) == [0, 0, 0, 0];
  }

  predicate AllAlike(a: seq<Object>, b: seq<Object>) {
    |a| == |b| && forall o :: 0 <= o < |a| ==> Alike(a[o], b[o])
  }

  /** Unmount then mount brings back the table exactly when it is synced; then the
      bitmaps, the contents of every block and the files are as they were, and the
      store is as sound and as synced as before. */
  lemma RestartRestoresIff(s: Store, cached: bool, w: Width)
    requires Inv(s) && Storables(s.objs, w)
    ensures var t := Mounted(Unmounted(s, w), cached, w);
      && (AllAlike(t.objs, s.objs) <==> Synced(s, w))
      && t.inode == s.inode && t.data == s.data
      && (AllAlike(t.objs, s.objs) ==>
            Inv(t) && FilesOf(t) == FilesOf(s) && Storables(t.objs, w) && Synced(t, w))
  {
    hide Coherent, Owned, Grouped, View, Ptr, MountEntry, MountBits, Storable, UnmountBlock, EntrySynced, Unmounted,
      Numbered, FilesOf, Alike;
    var t := Mounted(Unmounted(s, w), cached, w);
    forall o: nat | o < MAX_OBJECTS ensures Alike(t.objs[o], s.objs[o]) <==> EntrySynced(s, o, w) {
      EntryBackIff(s, o, w);
    }
    MountedBits(s, cached, w);
    if Synced(s, w) {
      RestartSame(s, cached, w);
      AlikeStorables(t.objs, s.objs, w);
      RestartSynced(s, t, w);
    }
  }

  lemma AlikeStorables(a: seq<Object>, b: seq<Object>, w: Width)
    requires Storables(b, w) && AllAlike(a, b)
    ensures Storables(a, w)
  {
    hide IsLong;
    forall o | 0 <= o < MAX_OBJECTS ensures Storable(a[o], w) {
      assert Alike(a[o], b[o]) && Storable(b[o], w);
    }
  }

  /** When the table comes back, so does everything. */
  lemma RestartSame(s: Store, cached: bool, w: Width)
    requires Inv(s) && Storables(s.objs, w)
    requires forall o: nat :: o < MAX_OBJECTS ==> Alike(MountEntry(Unmounted(s, w), o, w), s.objs[o])
    ensures var t := Mounted(Unmounted(s, w), cached, w);
      && t.inode == s.inode && t.data == s.data && AllAlike(t.objs, s.objs)
      && Inv(t) && FilesOf(t) == FilesOf(s)
  {
    hide Coherent, Owned, Grouped, View, Ptr, MountEntry, MountBits, Storable, EntryBytes, UnmountBlock, Unmounted,
      Alike, FilesOf;
    var t := Mounted(Unmounted(s, w), cached, w);
    MountedLayer(s, cached, w);
    MountedBits(s, cached, w);
    assert |t.objs| == |s.objs| == MAX_OBJECTS;
    forall o | 0 <= o < |t.objs| ensures Alike(t.objs[o], s.objs[o]) {
      var k: nat := o;
      assert t.objs[k] == MountEntry(Unmounted(s, w), k, w);
    }
    AlikeFormed(s, t);
    RestartSound(s, t);
  }

  lemma AlikeFormed(s: Store, t: Store)
    requires WellFormed(s) && AllAlike(t.objs, s.objs) && |t.inode| == |s.inode| && |t.data| == |s.data|
    requires |t.marked| == MARKS && Coherent(t.layer)
    ensures WellFormed(t)
  {
    hide Coherent;
    forall o | 0 <= o < MAX_OBJECTS ensures ObjectShaped(t.objs[o]) {
      assert Alike(t.objs[o], s.objs[o]) && ObjectShaped(s.objs[o]);
    }
  }

  lemma RestartSynced(s: Store, t: Store, w: Width)
    requires WellFormed(s) && Storables(s.objs, w) && Synced(s, w)
    requires WellFormed(t) && t.layer.disk == Unmounted(s, w) && AllAlike(t.objs, s.objs) && Storables(t.objs, w)
    ensures Synced(t, w)
  {
    hide Coherent, EntryBytes, UnmountBlock, DiskByte, Unmounted, WillWrite, Matters, At, Storable, Alike;
    forall o: nat | o < MAX_OBJECTS ensures EntrySynced(t, o, w) {
      assert EntrySynced(s, o, w) && Storable(s.objs[o], w) && Storable(t.objs[o], w);
      AlikeBytes(t.objs[o], s.objs[o], w);
      forall j: nat | j < EntrySize(w) && Matters(t.objs[o], j, w)
        ensures DiskByte(t.layer.disk, At(w, o, j)) == EntryBytes(t.objs[o], w)[j]
      {
        EntryByte(s, o, j, w);
      }
    }
  }

  lemma RestartSound(s: Store, t: Store)
    requires Inv(s) && WellFormed(t) && t.inode == s.inode && t.data == s.data && AllAlike(t.objs, s.objs)
    requires forall b :: View(t.layer, b) == View(s.layer, b)
    ensures Inv(t) && FilesOf(t) == FilesOf(s)
  {
    AlikeParts(s, t);
    hide Coherent, Owned, Grouped, View, Ptr, PagesOf, Alike, AllAlike;
    SamePointers(s, t);
    SameGroups(s, t);
    OwnedExt(s.data, s.inode, Pointers(s), Pointers(t));
    forall k: int ensures PagesOf(t, k) == PagesOf(s, k) {
      SamePages(s, t, k);
    }
  }

  lemma AlikeParts(s: Store, t: Store)
    requires |s.objs| == |t.objs| == MAX_OBJECTS && AllAlike(t.objs, s.objs)
    ensures forall o :: 0 <= o < MAX_OBJECTS ==>
      && t.objs[o].id == s.objs[o].id && t.objs[o].size == s.objs[o].size && t.objs[o].key == s.objs[o].key
      && t.objs[o].direct == s.objs[o].direct && t.objs[o].indirect == s.objs[o].indirect
  {
    forall o | 0 <= o < MAX_OBJECTS
      ensures
        && t.objs[o].id == s.objs[o].id && t.objs[o].size == s.objs[o].size && t.objs[o].key == s.objs[o].key
        && t.objs[o].direct == s.objs[o].direct && t.objs[o].indirect == s.objs[o].indirect
    {
      assert Alike(t.objs[o], s.objs[o]);
    }
  }
}
