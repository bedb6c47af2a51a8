/** The bytes of an object table entry and of a bitmap, as the C program lays them
    out in memory and copies them to disk. */
module Encoding {
  import opened Blocks
  import opened StoreModel

  /** sizeof(long): 8 on a 64-bit machine, 4 on a 32-bit one. The struct of two longs,
      48 bytes of name and eight ints has 96 bytes on the one and 88 on the other. */
  type Width = w: int | w == 4 || w == 8 witness 8

  function EntrySize(w: Width): int {
    2 * w + 80
  }

  /** Where byte j of entry o is in the table, and back. */
  function At(w: Width, o: nat, j: nat): nat {
    if w == 8 then 96 * o + j else 88 * o + j
  }

  function EntryNo(w: Width, n: nat): nat {
    if w == 8 then n / 96 else n / 88
  }

  function EntryOff(w: Width, n: nat): nat {
    if w == 8 then n % 96 else n % 88
  }

  lemma AtParts(w: Width, o: nat, j: nat)
    requires j < EntrySize(w)
    ensures EntryNo(w, At(w, o, j)) == o && EntryOff(w, At(w, o, j)) == j
  {
  }

  type Quad = s: seq<Byte> | |s| == 4 witness [0, 0, 0, 0]

  // ---------- integers, little end first ----------

  function Le32(v: Word): Quad {
    [v % 0x100, v / 0x100 % 0x100, v / 0x1_0000 % 0x100, v / 0x100_0000]
  }

  function FromLe32(s: Quad): Word {
    var (b0: int, b1: int, b2: int, b3: int) := (s[0], s[1], s[2], s[3]);
    b0 + 0x100 * b1 + 0x1_0000 * b2 + 0x100_0000 * b3
  }

  lemma Le32RoundTrip(v: Word)
    ensures FromLe32(Le32(v)) == v
  {
    BytesOfWord(v);
  }

  lemma Le32Iff(s: Quad, v: Word)
    ensures FromLe32(s) == v <==> s == Le32(v)
  {
    Le32RoundTrip(v);
    if FromLe32(s) == v {
      var (b0: int, b1: int, b2: int, b3: int) := (s[0], s[1], s[2], s[3]);
      assert v / 0x100 == b1 + 0x100 * b2 + 0x1_0000 * b3;
      assert v / 0x1_0000 == b2 + 0x100 * b3;
      assert v / 0x100_0000 == b3;
    }
  }

  /** A long of w bytes that is not negative. */
  predicate IsLong(v: int, w: Width) {
    0 <= v < if w == 8 then 0x8000_0000_0000_0000 else 0x8000_0000
  }

  function LongBytes(v: int, w: Width): (s: seq<Byte>)
    requires IsLong(v, w)
    ensures |s| == w
  {
    if w == 8 then Le32(v % 0x1_0000_0000) + Le32(v / 0x1_0000_0000) else Le32(v)
  }

  function FromLong(s: seq<Byte>): int
    requires |s| == 4 || |s| == 8
  {
    if |s| == 8 then FromLe32(s[..4]) + 0x1_0000_0000 * FromLe32(s[4..]) else FromLe32(s)
  }

  lemma LongIff(s: seq<Byte>, v: int, w: Width)
    requires |s| == w && IsLong(v, w)
    ensures FromLong(s) == v <==> s == LongBytes(v, w)
  {
    hide Le32, FromLe32;
    if w == 8 {
      var (lo, hi) := (v % 0x1_0000_0000, v / 0x1_0000_0000);
      Le32Iff(s[..4], lo);
      Le32Iff(s[4..], hi);
      HalvesIff(FromLe32(s[..4]), FromLe32(s[4..]), v);
      assert s == s[..4] + s[4..];
    } else {
      Le32Iff(s, v);
    }
  }

  lemma HalvesIff(lo: Word, hi: Word, v: int)
    ensures lo + 0x1_0000_0000 * hi == v <==> lo == v % 0x1_0000_0000 && hi == v / 0x1_0000_0000
  {
  }

  // ---------- names ----------

  /** The string that starts at the first byte and ends before the first NUL. */
  function NameFrom(s: seq<Byte>): (k: Name)
    requires |s| <= 48
    ensures |k| == 0 || |k| < |s|
  {
    if |s| <= 1 || s[0] == 0 then [] else [s[0]] + NameFrom(s[1..])
  }

  predicate StartsWith(s: seq<Byte>, k: seq<Byte>)
    requires |k| <= |s|
  {
    forall i :: 0 <= i < |k| ==> s[i] == k[i]
  }

  lemma StartsIff(s: seq<Byte>, k: seq<Byte>)
    requires 0 < |k| <= |s|
    ensures StartsWith(s, k) <==> s[0] == k[0] && StartsWith(s[1..], k[1..])
  {
    if s[0] == k[0] && StartsWith(s[1..], k[1..]) {
      forall i | 0 < i < |k| ensures s[i] == k[i] {
        assert s[1..][i - 1] == k[1..][i - 1];
      }
    }
  }

  /** Which bytes make a name: its own, and the NUL that ends it if there is room
      for more. */
  lemma {:induction false} NameIff(s: seq<Byte>, k: Name)
    requires |k| < |s| <= 48
    ensures NameFrom(s) == k <==> StartsWith(s, k) && (|k| + 1 < |s| ==> s[|k|] == 0)
  {
    if |s| > 1 && s[0] != 0 && |k| > 0 {
      NameIff(s[1..], k[1..]);
      StartsIff(s, k);
      hide StartsWith;
      assert k == [k[0]] + k[1..];
    }
  }

  // ---------- entries ----------

  ghost predicate Storable(o: Object, w: Width) {
    && IsLong(o.id, w) && IsLong(o.size, w)
    && |o.direct| == 4 && |o.indirect| == 4
    && forall l :: 0 <= l < 4 ==> 0 <= o.direct[l] < 0x8000_0000 && 0 <= o.indirect[l] < 0x8000_0000
  }

  function Le32s(v: seq<int>): (s: seq<Byte>)
    requires |v| == 4 && forall l :: 0 <= l < 4 ==> 0 <= v[l] < 0x8000_0000
    ensures |s| == 16
  {
    Le32(v[0]) + Le32(v[1]) + Le32(v[2]) + Le32(v[3])
  }

  function FromLe32s(s: seq<Byte>): (v: seq<int>)
    requires |s| == 16
    ensures |v| == 4
  {
    [FromLe32(s[0..4]), FromLe32(s[4..8]), FromLe32(s[8..12]), FromLe32(s[12..16])]
  }

  lemma Le32sIff(s: seq<Byte>, v: seq<int>)
    requires |s| == 16 && |v| == 4 && forall l :: 0 <= l < 4 ==> 0 <= v[l] < 0x8000_0000
    ensures FromLe32s(s) == v <==> s == Le32s(v)
  {
    hide Le32, FromLe32;
    Le32Iff(s[0..4], v[0]);
    Le32Iff(s[4..8], v[1]);
    Le32Iff(s[8..12], v[2]);
    Le32Iff(s[12..16], v[3]);
    var t := Le32s(v);
    assert t[0..4] == Le32(v[0]) && t[4..8] == Le32(v[1]) && t[8..12] == Le32(v[2]) && t[12..16] == Le32(v[3]);
    assert s == s[0..4] + s[4..8] + s[8..12] + s[12..16];
    assert FromLe32s(s) == v <==>
      FromLe32s(s)[0] == v[0] && FromLe32s(s)[1] == v[1] && FromLe32s(s)[2] == v[2] && FromLe32s(s)[3] == v[3];
  }

  /** struct object: two longs, 48 bytes of name, eight ints. */
  function EntryBytes(o: Object, w: Width): (s: seq<Byte>)
    requires Storable(o, w)
    ensures |s| == EntrySize(w)
  {
    LongBytes(o.id, w) + LongBytes(o.size, w) + FieldBytes(o) + Le32s(o.direct) + Le32s(o.indirect)
  }

  function EntryFrom(s: seq<Byte>, w: Width): Object
    requires |s| == EntrySize(w)
  {
    Object(FromLong(s[..w]), FromLong(s[w..2 * w]), NameFrom(s[2 * w..2 * w + 48]), s[2 * w..2 * w + 48],
           FromLe32s(s[2 * w + 48..2 * w + 64]), FromLe32s(s[2 * w + 64..2 * w + 80]))
  }

  lemma EntryParts(o: Object, w: Width)
    requires Storable(o, w)
    ensures var t := EntryBytes(o, w);
      && t[..w] == LongBytes(o.id, w) && t[w..2 * w] == LongBytes(o.size, w)
      && t[2 * w..2 * w + 48] == FieldBytes(o)
      && t[2 * w + 48..2 * w + 64] == Le32s(o.direct) && t[2 * w + 64..2 * w + 80] == Le32s(o.indirect)
  {
    hide LongBytes, FieldBytes, Le32s;
  }

  lemma NameByte(o: Object, j: int, w: Width)
    requires Storable(o, w) && 0 <= j < 48
    ensures EntryBytes(o, w)[2 * w + j] ==
      if j < |o.key| then o.key[j] else if j == |o.key| then 0 else o.field[j]
  {
    EntryParts(o, w);
    hide EntryBytes, Storable;
    assert EntryBytes(o, w)[2 * w..2 * w + 48][j] == FieldBytes(o)[j];
  }

  lemma QuadIsLittle(s: seq<Byte>, at: nat)
    requires at + 4 <= |s|
    ensures FromLe32(s[at..at + 4]) == Little(s, at, 4)
  {
    hide Little;
    LittleFour(s, at);
  }

  lemma {:induction false} LittleJoins(s: seq<Byte>, at: nat)
    requires at + 8 <= |s|
    ensures Little(s, at, 8) == Little(s, at, 4) + 0x1_0000_0000 * Little(s, at + 4, 4)
  {
    LittleFour(s, at);
    assert Little(s, at, 8) == s[at] as int + 0x100 * Little(s, at + 1, 7);
    assert Little(s, at + 1, 7) == s[at + 1] as int + 0x100 * Little(s, at + 2, 6);
    assert Little(s, at + 2, 6) == s[at + 2] as int + 0x100 * Little(s, at + 3, 5);
    assert Little(s, at + 3, 5) == s[at + 3] as int + 0x100 * Little(s, at + 4, 4);
  }

  lemma LongIsLittle(s: seq<Byte>, at: nat, v: int, w: Width)
    requires at + w <= |s| && IsLong(v, w) && s[at..at + w] == LongBytes(v, w)
    ensures Little(s, at, w) == v
  {
    hide Le32, FromLe32, LongBytes, Little;
    LongIff(s[at..at + w], v, w);
    QuadIsLittle(s, at);
    if w == 8 {
      QuadIsLittle(s, at + 4);
      LittleJoins(s, at);
      assert s[at..at + 8][..4] == s[at..at + 4] && s[at..at + 8][4..] == s[at + 4..at + 8];
    }
  }

  lemma SliceOfSlice(s: seq<Byte>, a: nat, b: nat, c: nat, d: nat)
    requires a <= b <= |s| && c <= d <= b - a
    ensures s[a..b][c..d] == s[a + c..a + d]
  {
    forall i | 0 <= i < d - c ensures s[a..b][c..d][i] == s[a + c..a + d][i] {
      assert s[a..b][c + i] == s[a + (c + i)];
    }
  }

  lemma QuadsAreLittle(s: seq<Byte>, at: nat, v: seq<int>, l: nat)
    requires at + 16 <= |s| && |v| == 4 && forall k :: 0 <= k < 4 ==> 0 <= v[k] < 0x8000_0000
    requires s[at..at + 16] == Le32s(v) && l < 4
    ensures Little(s, at + 4 * l, 4) == v[l]
  {
    hide Le32, FromLe32, Little, Le32s;
    Le32sIff(s[at..at + 16], v);
    var t := s[at..at + 16];
    var k := 4 * l;
    assert FromLe32s(t)[l] == FromLe32(t[k..k + 4]) by {
      assert l == 0 || l == 1 || l == 2 || l == 3;
    }
    SliceOfSlice(s, at, at + 16, k, k + 4);
    QuadIsLittle(s, at + 4 * l);
  }

  /** Where the fields of struct object are: the two longs, the name and its NUL, and
      the two arrays of four ints, all little-endian. */
  lemma EntryLayout(o: Object, w: Width)
    requires Storable(o, w)
    ensures var s := EntryBytes(o, w);
      && Little(s, 0, w) == o.id && Little(s, w, w) == o.size
      && (forall j :: 0 <= j < 48 ==>
            s[2 * w + j] == if j < |o.key| then o.key[j] else if j == |o.key| then 0 else o.field[j])
      && (forall l: nat :: l < 4 ==>
            && Little(s, 2 * w + 48 + 4 * l, 4) == o.direct[l]
            && Little(s, 2 * w + 64 + 4 * l, 4) == o.indirect[l])
  {
    EntryParts(o, w);
    forall j | 0 <= j < 48
      ensures EntryBytes(o, w)[2 * w + j] == if j < |o.key| then o.key[j] else if j == |o.key| then 0 else o.field[j]
    {
      NameByte(o, j, w);
    }
    hide EntryBytes, LongBytes, Le32s, Little, FieldBytes;
    var s := EntryBytes(o, w);
    assert s[0..w] == s[..w] && s[w..w + w] == s[w..2 * w];
    LongIsLittle(s, 0, o.id, w);
    LongIsLittle(s, w, o.size, w);
    forall l: nat | l < 4
      ensures Little(s, 2 * w + 48 + 4 * l, 4) == o.direct[l] && Little(s, 2 * w + 64 + 4 * l, 4) == o.indirect[l]
    {
      QuadsAreLittle(s, 2 * w + 48, o.direct, l);
      QuadsAreLittle(s, 2 * w + 64, o.indirect, l);
    }
  }

  /** Whether byte j has a part in the entry o: the bytes after a name's NUL have none. */
  predicate Matters(o: Object, j: int, w: Width) {
    j < 2 * w || 2 * w + 48 <= j || j - 2 * w < |o.key| || j - 2 * w == |o.key| < 47
  }

  ghost predicate SameWhereItMatters(s: seq<Byte>, o: Object, w: Width)
    requires Storable(o, w) && |s| == EntrySize(w)
  {
    forall j :: 0 <= j < EntrySize(w) && Matters(o, j, w) ==> s[j] == EntryBytes(o, w)[j]
  }

  lemma SliceIff(s: seq<Byte>, t: seq<Byte>, a: nat, b: nat)
    requires a <= b <= |s| == |t|
    ensures s[a..b] == t[a..b] <==> forall j :: a <= j < b ==> s[j] == t[j]
  {
    if s[a..b] == t[a..b] {
      forall j | a <= j < b ensures s[j] == t[j] {
        assert s[a..b][j - a] == t[a..b][j - a];
      }
    }
  }

  ghost predicate NameAgrees(s: seq<Byte>, o: Object, w: Width)
    requires Storable(o, w) && |s| == EntrySize(w)
  {
    forall j :: 2 * w <= j < 2 * w + 48 && Matters(o, j, w) ==> s[j] == EntryBytes(o, w)[j]
  }

  /** The name field of s reads as that of o exactly when the bytes that matter agree. */
  lemma NameFieldIff(s: seq<Byte>, o: Object, w: Width)
    requires Storable(o, w) && |s| == EntrySize(w)
    ensures NameFrom(s[2 * w..2 * w + 48]) == o.key <==> NameAgrees(s, o, w)
  {
    hide EntryBytes, NameFrom, FieldBytes, Storable, LongBytes;
    var f := s[2 * w..2 * w + 48];
    NameIff(f, o.key);
    if NameFrom(f) == o.key {
      forall j | 2 * w <= j < 2 * w + 48 && Matters(o, j, w) ensures s[j] == EntryBytes(o, w)[j] {
        NameByte(o, j - 2 * w, w);
        assert f[j - 2 * w] == s[j];
      }
    }
    if NameAgrees(s, o, w) {
      forall i | 0 <= i <= |o.key| && i < 47 ensures f[i] == if i < |o.key| then o.key[i] else 0 {
        NameByte(o, i, w);
        assert f[i] == s[2 * w + i] && Matters(o, 2 * w + i, w);
      }
    }
  }

  /** The same but for what is past the NUL in the name's field. */
  predicate Alike(a: Object, b: Object) {
    a.(field := b.field) == b
  }

  /** Bytes read as the entry o exactly when they are its own wherever it matters. */
  lemma EntryIff(s: seq<Byte>, o: Object, w: Width)
    requires Storable(o, w) && |s| == EntrySize(w)
    ensures Alike(EntryFrom(s, w), o) <==> SameWhereItMatters(s, o, w)
  {
    hide LongBytes, FromLong, Le32s, FromLe32s, NameFrom, FieldBytes;
    var t := EntryBytes(o, w);
    EntryParts(o, w);
    NameFieldIff(s, o, w);
    hide EntryBytes;
    LongIff(s[..w], o.id, w);
    LongIff(s[w..2 * w], o.size, w);
    Le32sIff(s[2 * w + 48..2 * w + 64], o.direct);
    Le32sIff(s[2 * w + 64..2 * w + 80], o.indirect);
    SliceIff(s, t, 0, w);
    SliceIff(s, t, w, 2 * w);
    SliceIff(s, t, 2 * w + 48, 2 * w + 64);
    SliceIff(s, t, 2 * w + 64, 2 * w + 80);
    assert s[0..w] == s[..w] && t[0..w] == t[..w];
  }

  /** An entry reads back from its bytes as it was. */
  lemma EntryRoundTrip(o: Object, w: Width)
    requires Storable(o, w)
    ensures Alike(EntryFrom(EntryBytes(o, w), w), o)
  {
    EntryIff(EntryBytes(o, w), o, w);
    hide EntryBytes, EntryFrom, Storable;
  }

  /** The bytes that matter do not depend on what is past the NUL. */
  lemma AlikeBytes(a: Object, b: Object, w: Width)
    requires Storable(a, w) && Alike(a, b)
    ensures Storable(b, w) && forall j: nat :: j < EntrySize(w) ==>
      && (Matters(a, j, w) <==> Matters(b, j, w))
      && (Matters(a, j, w) ==> EntryBytes(a, w)[j] == EntryBytes(b, w)[j])
  {
    EntryIff(EntryBytes(a, w), b, w);
    EntryRoundTrip(a, w);
    hide EntryBytes, EntryFrom;
  }

  // ---------- bitmaps ----------

  function BitOf(b: nat, j: nat): bool {
    if j == 0 then b % 2 == 1 else BitOf(b / 2, j - 1)
  }

  function Pow2(n: nat): nat {
    if n == 0 then 1 else 2 * Pow2(n - 1)
  }

  /** The number whose binary digits, low to high, are the given bits. */
  function Number(bits: seq<bool>): (v: nat)
    ensures v < Pow2(|bits|)
  {
    if |bits| == 0 then 0 else (if bits[0] then 1 else 0) + 2 * Number(bits[1..])
  }

  function ByteOf(bits: seq<bool>): Byte
    requires |bits| == 8
  {
    assert Pow2(8) == 256 by {
      assert Pow2(4) == 16;
    }
    Number(bits)
  }

  lemma {:induction false} NumberRoundTrip(bits: seq<bool>, j: nat)
    requires j < |bits|
    ensures BitOf(Number(bits), j) == bits[j]
  {
    var v := Number(bits);
    assert v / 2 == Number(bits[1..]);
    if j != 0 {
      NumberRoundTrip(bits[1..], j - 1);
    }
  }

  const BITS_PER_BLOCK := 32768

  /** Block i of a bitmap. */
  function BitBlock(bits: seq<bool>, i: nat): Block
    requires BITS_PER_BLOCK * (i + 1) <= |bits|
  {
    seq(BLOCK_SIZE, k requires 0 <= k < BLOCK_SIZE =>
      ByteOf(bits[BITS_PER_BLOCK * i + 8 * k..BITS_PER_BLOCK * i + 8 * k + 8]))
  }

  /** Bit m of a bitmap block. */
  function BlockBit(b: Block, m: nat): bool
    requires m < BITS_PER_BLOCK
  {
    BitOf(b[m / 8], m % 8)
  }

  lemma BitBlockRoundTrip(bits: seq<bool>, i: nat, m: nat)
    requires BITS_PER_BLOCK * (i + 1) <= |bits| && m < BITS_PER_BLOCK
    ensures BlockBit(BitBlock(bits, i), m) == bits[BITS_PER_BLOCK * i + m]
  {
    var k := m / 8;
    var eight := bits[BITS_PER_BLOCK * i + 8 * k..BITS_PER_BLOCK * i + 8 * k + 8];
    assert BitBlock(bits, i)[k] == ByteOf(eight);
    NumberRoundTrip(eight, m % 8);
  }
}
