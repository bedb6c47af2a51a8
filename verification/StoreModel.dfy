/** The object store's operations as functions on its whole state: the two
    allocation bitmaps, the object table, the table's dirty marks, and the block
    layer below. Each function takes the branches of the C operation it is named
    after; the class in ObjectStore.dfy is proved to compute these functions. */
module StoreModel {
  import opened Blocks
  import opened BlockLayer

  const MAX_OBJECTS := 1015808
  const MARKS := 24000
  const ENTRIES_PER_MARK := 46
  const DIRECT := 4
  const MAX_PAGES := 4100

  type Name = k: seq<Byte> | |k| < 48 && forall i :: 0 <= i < |k| ==> k[i] != 0

  type Field = f: seq<Byte> | |f| == 48 witness seq(48, _ => 0)

  /** field is what the 48 bytes of the name's field held when the name was put there;
      the bytes past the name's NUL are those still. */
  datatype Object = Object(id: int, size: int, key: Name, field: Field, direct: seq<int>, indirect: seq<int>)

  /** The name's field as it is now. */
  function FieldBytes(o: Object): Field {
    o.key + [0] + o.field[|o.key| + 1..]
  }

  /** strcpy over the field. */
  function SetName(o: Object, key: Name): Object {
    o.(key := key, field := FieldBytes(o))
  }

  /** The new name and its NUL, and past them what was there. */
  lemma NameCopied(o: Object, key: Name, j: nat)
    requires j < 48
    ensures FieldBytes(SetName(o, key))[j] ==
      if j < |key| then key[j] else if j == |key| then 0 else FieldBytes(o)[j]
    ensures SetName(o, key) == Object(o.id, o.size, key, SetName(o, key).field, o.direct, o.indirect)
  {
  }

  datatype Store = Store(inode: seq<bool>, data: seq<bool>, objs: seq<Object>, marked: seq<bool>, layer: Layer)

  datatype Answer = Code(value: int) | Bytes(bytes: seq<Byte>)

  ghost predicate ObjectShaped(o: Object) {
    && |o.direct| == DIRECT
    && |o.indirect| == 4
    && forall l :: 0 <= l < 4 && o.indirect[l] != 0 ==> IsData(o.indirect[l] - WRITE_OFFSET)
  }

  /** Sizes, coherence of the cache, and indirect pointers that can be followed. */
  ghost predicate WellFormed(s: Store) {
    && |s.inode| == MAX_OBJECTS
    && |s.objs| == MAX_OBJECTS
    && |s.data| == DATA_BLOCKS
    && |s.marked| == MARKS
    && Coherent(s.layer)
    && forall o :: 0 <= o < MAX_OBJECTS ==> ObjectShaped(s.objs[o])
  }

  predicate Live(s: Store, o: int)
    requires |s.inode| == MAX_OBJECTS
  {
    0 <= o < MAX_OBJECTS && s.inode[o]
  }

  // ---------- scans ----------

  function FirstClear(bits: seq<bool>, from: nat := 0): (i: nat)
    requires from <= |bits|
    ensures from <= i <= |bits|
    ensures forall k :: from <= k < i ==> bits[k]
    ensures i < |bits| ==> !bits[i]
    decreases |bits| - from
  {
    if from == |bits| || !bits[from] then from else FirstClear(bits, from + 1)
  }

  /** The first live entry holding key, or MAX_OBJECTS. */
  function Lookup(inode: seq<bool>, objs: seq<Object>, key: Name, from: nat := 0): (i: nat)
    requires |inode| == |objs| && from <= |objs|
    ensures from <= i <= |objs|
    ensures forall k :: from <= k < i ==> !(inode[k] && objs[k].key == key)
    ensures i < |objs| ==> inode[i] && objs[i].key == key
    decreases |objs| - from
  {
    if from == |objs| || (inode[from] && objs[from].key == key) then from
    else Lookup(inode, objs, key, from + 1)
  }

  /** XOR of one bit. A bit outside the map is memory this model does not have. */
  function Toggle(bits: seq<bool>, i: int): (r: seq<bool>)
    ensures |r| == |bits|
  {
    if 0 <= i < |bits| then bits[i := !bits[i]] else bits
  }

  function Mark(s: Store, o: nat): (r: Store)
    requires WellFormed(s) && o < MAX_OBJECTS
    ensures WellFormed(r)
  {
    s.(marked := s.marked[o / ENTRIES_PER_MARK := true])
  }

  // ---------- names ----------

  function Find(s: Store, key: Name): int
    requires WellFormed(s)
  {
    var o := Lookup(s.inode, s.objs, key);
    if o == MAX_OBJECTS then -1 else s.objs[o].id
  }

  function Create(s: Store, key: Name): (r: (Store, int))
    requires WellFormed(s)
    ensures WellFormed(r.0)
  {
    var o := FirstClear(s.inode);
    if o == MAX_OBJECTS then (s, -1)
    else
      var s1 := Mark(s, o);
      (s1.(objs := s.objs[o := SetName(s.objs[o], key).(id := o + 2)], inode := s.inode[o := true]), o + 2)
  }

  function Rename(s: Store, key: Name, newname: Name): (r: (Store, int))
    requires WellFormed(s)
    ensures WellFormed(r.0)
  {
    var o := Lookup(s.inode, s.objs, key);
    if o == MAX_OBJECTS then (s, -1)
    else
      var s1 := Mark(s, o);
      (s1.(objs := s.objs[o := SetName(s.objs[o], newname)]), s.objs[o].id)
  }

  // ---------- destroy ----------

  /** Give back the block a pointer names: flip its bit, drop its cache line. */
  function Release(data: seq<bool>, layer: Layer, ptr: int): (r: (seq<bool>, Layer))
    requires |data| == DATA_BLOCKS && Coherent(layer)
    ensures |r.0| == DATA_BLOCKS && Coherent(r.1)
  {
    var b := ptr - WRITE_OFFSET;
    if ptr == 0 || !IsData(b) then (data, layer)
    else
      DiscardView(layer, b);
      (Toggle(data, b), Discard(layer, b))
  }

  function ReleaseDirect(data: seq<bool>, layer: Layer, direct: seq<int>, l: nat): (r: (seq<bool>, Layer))
    requires |data| == DATA_BLOCKS && Coherent(layer) && l <= |direct|
    ensures |r.0| == DATA_BLOCKS && Coherent(r.1)
    decreases |direct| - l
  {
    if l == |direct| then (data, layer)
    else
      var (d1, y1) := Release(data, layer, direct[l]);
      ReleaseDirect(d1, y1, direct, l + 1)
  }

  function ReleaseEntries(data: seq<bool>, layer: Layer, block: Block, e: nat): (r: (seq<bool>, Layer))
    requires |data| == DATA_BLOCKS && Coherent(layer) && e <= WORDS_PER_BLOCK
    ensures |r.0| == DATA_BLOCKS && Coherent(r.1)
    decreases WORDS_PER_BLOCK - e
  {
    if e == WORDS_PER_BLOCK then (data, layer)
    else
      var (d1, y1) := Release(data, layer, WordAt(block, e));
      ReleaseEntries(d1, y1, block, e + 1)
  }

  function ReleaseIndirect(data: seq<bool>, layer: Layer, o: Object, l: nat): (r: (seq<bool>, Layer))
    requires |data| == DATA_BLOCKS && Coherent(layer) && ObjectShaped(o) && l <= 4
    ensures |r.0| == DATA_BLOCKS && Coherent(r.1)
    decreases 4 - l
  {
    if l == 4 then (data, layer)
    else if o.indirect[l] == 0 then ReleaseIndirect(data, layer, o, l + 1)
    else
      var b := o.indirect[l] - WRITE_OFFSET;
      ReadBlockView(layer, b);
      var (d1, y1) := ReleaseEntries(data, Fetch(layer, b), ReadBlock(layer, b), 0);
      var (d2, y2) := Release(d1, y1, o.indirect[l]);
      ReleaseIndirect(d2, y2, o, l + 1)
  }

  function Emptied(o: Object): (r: Object)
    ensures ObjectShaped(r)
    ensures forall l :: 0 <= l < 4 ==> r.direct[l] == 0 && r.indirect[l] == 0
  {
    o.(size := 0, direct := [0, 0, 0, 0], indirect := [0, 0, 0, 0])
  }

  function Destroy(s: Store, key: Name): (r: (Store, int))
    requires WellFormed(s)
    ensures WellFormed(r.0)
  {
    var o := Lookup(s.inode, s.objs, key);
    if o == MAX_OBJECTS then (s, -1)
    else
      var obj := s.objs[o];
      var s1 := Mark(s, o);
      var (d1, y1) := ReleaseDirect(s.data, s.layer, obj.direct, 0);
      var (d2, y2) := ReleaseIndirect(d1, y1, obj, 0);
      (s1.(inode := s.inode[o := false], objs := s.objs[o := Emptied(obj)], data := d2, layer := y2), 0)
  }

  // ---------- write ----------

  function PageOf(offset: nat): nat {
    offset / BLOCK_SIZE
  }

  function GroupOf(page: nat): (g: nat)
    requires DIRECT <= page
    ensures page < MAX_PAGES ==> g < 4
  {
    (page - 4) / 1024
  }

  function EntryOf(page: nat): (e: nat)
    requires DIRECT <= page
    ensures e < WORDS_PER_BLOCK
  {
    (page - 4) % 1024
  }

  /** The write needs a block for data and another for a new indirect block. */
  predicate NeedsTwo(o: Object, page: nat)
    requires page < MAX_PAGES && |o.indirect| == 4
  {
    DIRECT <= page && o.indirect[GroupOf(page)] == 0
  }

  /** Whenever a first free block is found for a write that needs two, so is a second. */
  predicate EnoughFree(s: Store, o: Object, page: nat)
    requires |s.data| == DATA_BLOCKS && page < MAX_PAGES && |o.indirect| == 4
  {
    var b := FirstClear(s.data);
    b < DATA_BLOCKS && NeedsTwo(o, page) ==> FirstClear(s.data[b := true]) < DATA_BLOCKS
  }

  /** What the source leaves to the callers of objstore_write. */
  predicate CanWrite(s: Store, objid: int, buf: seq<Byte>, offset: nat)
    requires |s.data| == DATA_BLOCKS && |s.objs| == MAX_OBJECTS
  {
    && |buf| <= BLOCK_SIZE
    && PageOf(offset) < MAX_PAGES
    && (2 <= objid ==>
          && objid - 2 < MAX_OBJECTS
          && |s.objs[objid - 2].indirect| == 4
          && EnoughFree(s, s.objs[objid - 2], PageOf(offset)))
  }

  /** objstore_write. The code that replaces an already mapped page uses the old
      pointer itself as a bit number, and stores a direct pointer without adding
      WRITE_OFFSET: that is adjust == 0. With adjust == WRITE_OFFSET the same
      lines treat pointers as the rest of the file does. */
  function Write(s: Store, objid: int, buf: seq<Byte>, offset: nat, adjust: nat): (r: (Store, int))
    requires WellFormed(s) && CanWrite(s, objid, buf, offset)
    ensures WellFormed(r.0)
  {
    if objid < 2 then (s, -1)
    else
      var o := objid - 2;
      var s1 := Mark(s, o);
      var b := FirstClear(s.data);
      if b == DATA_BLOCKS then (s1, -1)
      else
        (Place(Taken(s1, b, Pad(buf)), o, PageOf(offset), b, |buf|, adjust), |buf|)
  }

  /** The first free block is taken and filled; no pointer names it yet. */
  function Taken(s: Store, b: nat, block: Block): (r: Store)
    requires WellFormed(s) && IsData(b)
    ensures WellFormed(r)
  {
    WriteBlockView(s.layer, b, block);
    s.(data := s.data[b := true], layer := WriteBlock(s.layer, b, block))
  }

  function Place(s: Store, o: nat, page: nat, b: nat, size: nat, adjust: nat): (r: Store)
    requires WellFormed(s) && o < MAX_OBJECTS && page < MAX_PAGES && IsData(b)
    requires NeedsTwo(s.objs[o], page) ==> FirstClear(s.data) < DATA_BLOCKS
    ensures WellFormed(r)
  {
    if page < DIRECT then WriteDirect(s, o, page, b, size, adjust)
    else if s.objs[o].indirect[GroupOf(page)] == 0 then WriteNewIndirect(s, o, page, b, size)
    else WriteIndirect(s, o, page, b, size, adjust)
  }

  function WriteDirect(s: Store, o: nat, page: nat, b: nat, size: nat, adjust: nat): (r: Store)
    requires WellFormed(s) && o < MAX_OBJECTS && page < DIRECT
    ensures WellFormed(r)
  {
    var obj := s.objs[o];
    var prior := obj.direct[page];
    if prior == 0 then
      s.(objs := s.objs[o := obj.(direct := obj.direct[page := WRITE_OFFSET + b], size := obj.size + size)])
    else
      s.(objs := s.objs[o := obj.(direct := obj.direct[page := b + adjust])], data := Toggle(s.data, prior - adjust))
  }

  function WriteNewIndirect(s: Store, o: nat, page: nat, b: nat, size: nat): (r: Store)
    requires WellFormed(s) && o < MAX_OBJECTS && DIRECT <= page < MAX_PAGES && IsData(b)
    requires FirstClear(s.data) < DATA_BLOCKS
    ensures WellFormed(r)
  {
    var obj := s.objs[o];
    var n := FirstClear(s.data);
    var block := PutWord(Zero(), EntryOf(page), WRITE_OFFSET + b);
    WriteBlockView(s.layer, n, block);
    s.(data := s.data[n := true],
       objs := s.objs[o := obj.(indirect := obj.indirect[GroupOf(page) := WRITE_OFFSET + n], size := obj.size + size)],
       layer := WriteBlock(s.layer, n, block))
  }

  function WriteIndirect(s: Store, o: nat, page: nat, b: nat, size: nat, adjust: nat): (r: Store)
    requires WellFormed(s) && o < MAX_OBJECTS && DIRECT <= page < MAX_PAGES && IsData(b)
    requires s.objs[o].indirect[GroupOf(page)] != 0
    ensures WellFormed(r)
  {
    var obj := s.objs[o];
    var (layer', prior) := SetEntry(s.layer, obj.indirect[GroupOf(page)] - WRITE_OFFSET, EntryOf(page),
      WRITE_OFFSET + b);
    var s1 := s.(layer := layer');
    if prior == 0 then s1.(objs := s.objs[o := obj.(size := obj.size + size)])
    else s1.(data := Toggle(s.data, prior - adjust))
  }

  /** Read an indirect block, set one word of it, and write it back. */
  function SetEntry(layer: Layer, n: nat, e: nat, v: Word): (r: (Layer, Word))
    requires Coherent(layer) && IsData(n) && e < WORDS_PER_BLOCK
    ensures Coherent(r.0)
  {
    ReadBlockView(layer, n);
    var block := ReadBlock(layer, n);
    var layer1 := Fetch(layer, n);
    WriteBlockView(layer1, n, PutWord(block, e, v));
    (WriteBlock(layer1, n, PutWord(block, e, v)), WordAt(block, e))
  }

  lemma SetEntryView(layer: Layer, n: nat, e: nat, v: Word)
    requires Coherent(layer) && IsData(n) && e < WORDS_PER_BLOCK
    ensures var (layer', prior) := SetEntry(layer, n, e, v);
      && prior == WordAt(View(layer, n), e)
      && layer'.cached == layer.cached
      && (forall x :: x != n ==> View(layer', x) == View(layer, x))
      && forall f :: 0 <= f < WORDS_PER_BLOCK ==>
           WordAt(View(layer', n), f) == (if f == e then v else WordAt(View(layer, n), f))
  {
    ReadBlockView(layer, n);
    var block := View(layer, n);
    WriteBlockView(Fetch(layer, n), n, PutWord(block, e, v));
    forall f | 0 <= f < WORDS_PER_BLOCK
      ensures WordAt(PutWord(block, e, v), f) == if f == e then v else WordAt(block, f)
    {
      PutWordReads(block, e, v, f);
    }
  }

  // ---------- read ----------

  /** Where a read has got to: pages still to skip, blocks still to read, blocks read. */
  datatype Cursor = Cursor(layer: Layer, skip: nat, left: nat, out: seq<Block>)

  /** Follow one pointer. A pointer naming no data block reads nothing this model has. */
  function FetchPtr(layer: Layer, ptr: int): (r: (Layer, Block))
    requires Coherent(layer)
    ensures Coherent(r.0)
  {
    var b := ptr - WRITE_OFFSET;
    if !IsData(b) then (layer, Zero())
    else
      ReadBlockView(layer, b);
      (Fetch(layer, b), ReadBlock(layer, b))
  }

  /** One loop of objstore_read, over a pointer array of n slots. */
  function ReadSlots(c: Cursor, ptrs: seq<int>, i: nat): (r: Cursor)
    requires Coherent(c.layer) && i <= |ptrs|
    ensures Coherent(r.layer)
    decreases |ptrs| - i
  {
    if i == |ptrs| || c.left == 0 then c
    else if 0 < c.skip then ReadSlots(c.(skip := c.skip - 1), ptrs, i + 1)
    else
      var (y, block) := FetchPtr(c.layer, ptrs[i]);
      ReadSlots(Cursor(y, 0, c.left - 1, c.out + [block]), ptrs, i + 1)
  }

  function Words(block: Block): (ws: seq<int>)
    ensures |ws| == WORDS_PER_BLOCK
    ensures forall e :: 0 <= e < WORDS_PER_BLOCK ==> ws[e] == WordAt(block, e)
  {
    seq(WORDS_PER_BLOCK, e requires 0 <= e < WORDS_PER_BLOCK => WordAt(block, e))
  }

  function ReadGroups(c: Cursor, indirect: seq<int>, j: nat): (r: Cursor)
    requires Coherent(c.layer) && j <= |indirect|
    ensures Coherent(r.layer)
    decreases |indirect| - j
  {
    if j == |indirect| || c.left == 0 then c
    else
      var (y, block) := FetchPtr(c.layer, indirect[j]);
      ReadGroups(ReadSlots(c.(layer := y), Words(block), 0), indirect, j + 1)
  }

  function Flatten(blocks: seq<Block>): (bytes: seq<Byte>)
    ensures |bytes| == BLOCK_SIZE * |blocks|
    ensures forall i :: 0 <= i < |bytes| ==> bytes[i] == blocks[i / BLOCK_SIZE][i % BLOCK_SIZE]
  {
    if |blocks| == 0 then [] else Flatten(blocks[..|blocks| - 1]) + blocks[|blocks| - 1]
  }

  function BlocksFor(size: nat): nat {
    if size % BLOCK_SIZE > 0 then size / BLOCK_SIZE + 1 else size / BLOCK_SIZE
  }

  function ReadAll(s: Store, o: nat, size: nat, offset: nat): (r: Cursor)
    requires WellFormed(s) && o < MAX_OBJECTS
    ensures Coherent(r.layer)
  {
    var c := Cursor(s.layer, PageOf(offset), BlocksFor(size), []);
    ReadGroups(ReadSlots(c, s.objs[o].direct, 0), s.objs[o].indirect, 0)
  }

  /** objstore_read. Bytes past the last block read are the zeros of the fresh buffer. */
  function Read(s: Store, objid: int, size: nat, offset: nat): (r: (Store, Answer))
    requires WellFormed(s) && (2 <= objid ==> objid - 2 < MAX_OBJECTS)
    ensures WellFormed(r.0)
  {
    if objid < 2 then (s, Code(-1))
    else
      var c := ReadAll(s, objid - 2, size, offset);
      var got := Flatten(c.out);
      (s.(layer := c.layer), Bytes(if size <= |got| then got[..size] else got + seq(size - |got|, _ => 0)))
  }
}
