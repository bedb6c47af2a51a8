/** Allocation bitmaps held in arrays of 32-bit words: the nested scan for a clear
    bit, setting a bit with OR and flipping one with XOR. */
module Bitmaps {
  import opened Blocks
  import opened Encoding
  import opened StoreModel

  /** The word with only bit j set. */
  function Mask(j: nat): bv32
    requires j < 32
  {
    (1 as bv32) << j
  }

  predicate BitSet(w: bv32, j: nat)
    requires j < 32
  {
    w & Mask(j) != 0
  }

  /** Bit k of the map is bit k % 32 of word k / 32. */
  function Bits(words: seq<bv32>): (bits: seq<bool>)
    ensures |bits| == 32 * |words|
    ensures forall k :: 0 <= k < |bits| ==> bits[k] == BitSet(words[k / 32], k % 32)
  {
    seq(32 * |words|, k requires 0 <= k < 32 * |words| => BitSet(words[k / 32], k % 32))
  }

  /** The scans' test of a word with the mask val, and their step to the next mask. */
  predicate Hits(w: bv32, val: bv32) {
    w & val != 0
  }

  function Doubled(val: bv32): bv32 {
    val * 2
  }

  lemma HitsBit(w: bv32, j: nat)
    requires j < 32
    ensures Hits(w, Mask(j)) <==> BitSet(w, j)
  {
    hide Mask;
  }

  lemma BitAt(words: seq<bv32>, i: nat, j: nat)
    requires i < |words| && j < 32
    ensures Bits(words)[32 * i + j] <==> Hits(words[i], Mask(j))
  {
    hide Mask, BitSet, Hits;
    assert (32 * i + j) / 32 == i && (32 * i + j) % 32 == j;
    HitsBit(words[i], j);
  }

  lemma FirstMask()
    ensures Mask(0) == 1
  {
  }

  /** Doubling the mask moves it to the next bit, as val = val * 2 does in the scans. */
  lemma MaskDoubles(j: nat)
    requires j < 31
    ensures Mask(j + 1) == Doubled(Mask(j))
  {
    if j < 8 {
    } else if j < 16 {
    } else if j < 24 {
    } else {
    }
  }

  lemma MasksDiffer(j: nat, k: nat)
    requires j < 32 && k < 32
    ensures Mask(j) != 0
    ensures j != k ==> Mask(j) & Mask(k) == 0
  {
  }

  /** A word with bit j set, and with bit j flipped. */
  function WithBit(w: bv32, j: nat): bv32
    requires j < 32
  {
    w | Mask(j)
  }

  function Flipped(w: bv32, j: nat): bv32
    requires j < 32
  {
    w ^ Mask(j)
  }

  lemma OrOther(w: bv32, j: nat, k: nat)
    requires j < 32 && k < 32 && Mask(j) & Mask(k) == 0
    ensures BitSet(WithBit(w, j), k) ==> BitSet(w, k)
    ensures BitSet(WithBit(w, j), k) <== BitSet(w, k)
  {
    hide Mask;
  }

  lemma OrSame(w: bv32, j: nat)
    requires j < 32
    ensures BitSet(WithBit(w, j), j)
  {
  }

  lemma XorOther(w: bv32, j: nat, k: nat)
    requires j < 32 && k < 32 && Mask(j) & Mask(k) == 0
    ensures BitSet(Flipped(w, j), k) ==> BitSet(w, k)
    ensures BitSet(Flipped(w, j), k) <== BitSet(w, k)
  {
    hide Mask;
  }

  lemma XorSame(w: bv32, j: nat)
    requires j < 32
    ensures BitSet(w ^ Mask(j), j) <==> !BitSet(w, j)
  {
  }

  lemma FlippedSame(w: bv32, j: nat)
    requires j < 32
    ensures BitSet(Flipped(w, j), j) <==> !BitSet(w, j)
  {
    hide Mask, BitSet;
    XorSame(w, j);
  }

  lemma OrSets(w: bv32, j: nat, k: nat)
    requires j < 32 && k < 32
    ensures BitSet(WithBit(w, j), k) == (k == j || BitSet(w, k))
  {
    hide Mask, BitSet, WithBit;
    if k == j {
      OrSame(w, j);
    } else {
      MasksDiffer(j, k);
      OrOther(w, j, k);
    }
  }

  lemma XorFlips(w: bv32, j: nat, k: nat)
    requires j < 32 && k < 32
    ensures BitSet(Flipped(w, j), k) == if k == j then !BitSet(w, k) else BitSet(w, k)
  {
    hide Mask, BitSet, Flipped;
    if k == j {
      FlippedSame(w, j);
    } else {
      MasksDiffer(j, k);
      XorOther(w, j, k);
    }
  }

  /** The two nested loops that look for the first clear bit. */
  method ScanClear(words: array<bv32>) returns (b: nat)
    ensures b == FirstClear(Bits(words[..]))
  {
    ghost var bits := Bits(words[..]);
    hide Bits, Mask, Hits, Doubled;
    var i := 0;
    while i < words.Length
      invariant i <= words.Length
      invariant forall k :: 0 <= k < 32 * i ==> bits[k]
    {
      var val: bv32 := 1;
      FirstMask();
      var j := 0;
      while j < 32
        invariant j <= 32 && (j < 32 ==> val == Mask(j))
        invariant forall k :: 0 <= k < 32 * i + j ==> bits[k]
      {
        BitAt(words[..], i, j);
        if !Hits(words[i], val) {
          FirstClearIs(bits, 32 * i + j);
          return 32 * i + j;
        }
        if j < 31 {
          MaskDoubles(j);
        }
        val := Doubled(val);
        j := j + 1;
      }
      i := i + 1;
    }
    FirstClearIs(bits, 32 * words.Length);
    b := 32 * words.Length;
  }

  lemma FirstClearIs(bits: seq<bool>, n: nat)
    requires n <= |bits| && (forall k :: 0 <= k < n ==> bits[k]) && (n < |bits| ==> !bits[n])
    ensures FirstClear(bits) == n
  {
  }

  lemma BitSetAt(words: seq<bv32>, b: nat, k: nat)
    requires b < 32 * |words| && k < 32 * |words|
    ensures Bits(words[b / 32 := WithBit(words[b / 32], b % 32)])[k] == Bits(words)[b := true][k]
  {
    hide Mask, BitSet, WithBit;
    OrSets(words[b / 32], b % 32, k % 32);
  }

  lemma BitFlippedAt(words: seq<bv32>, b: nat, k: nat)
    requires b < 32 * |words| && k < 32 * |words|
    ensures Bits(words[b / 32 := Flipped(words[b / 32], b % 32)])[k] == Toggle(Bits(words), b)[k]
  {
    hide Mask, BitSet, Flipped;
    XorFlips(words[b / 32], b % 32, k % 32);
  }

  /** words[b / 32] |= 1 << b % 32. */
  method SetBit(words: array<bv32>, b: nat)
    requires b < 32 * words.Length
    modifies words
    ensures Bits(words[..]) == old(Bits(words[..]))[b := true]
  {
    hide Bits, WithBit;
    ghost var was := words[..];
    words[b / 32] := WithBit(words[b / 32], b % 32);
    assert words[..] == was[b / 32 := WithBit(was[b / 32], b % 32)];
    forall k: nat | k < 32 * |was| ensures Bits(words[..])[k] == Bits(was)[b := true][k] {
      BitSetAt(was, b, k);
    }
  }

  /** words[b / 32] ^= 1 << b % 32, for a word inside the map. */
  method FlipBit(words: array<bv32>, b: nat)
    requires b < 32 * words.Length
    modifies words
    ensures Bits(words[..]) == Toggle(old(Bits(words[..])), b)
  {
    hide Bits, Flipped;
    ghost var was := words[..];
    words[b / 32] := Flipped(words[b / 32], b % 32);
    assert words[..] == was[b / 32 := Flipped(was[b / 32], b % 32)];
    forall k: nat | k < 32 * |was| ensures Bits(words[..])[k] == Toggle(Bits(was), b)[k] {
      BitFlippedAt(was, b, k);
    }
  }

  // ---------- the map on disk ----------

  /** The number that n bits of a word make, bit j being the lowest of them. */
  function BitsFrom(w: bv32, j: nat, n: nat): nat
    requires j + n <= 32
    decreases n
  {
    if n == 0 then 0 else (if BitSet(w, j) then 1 else 0) + 2 * BitsFrom(w, j + 1, n - 1)
  }

  lemma MapBit(words: seq<bv32>, i: nat, j: nat)
    requires i < |words| && j < 32
    ensures Bits(words)[32 * i + j] == BitSet(words[i], j)
  {
    hide BitSet;
    assert (32 * i + j) / 32 == i && (32 * i + j) % 32 == j;
  }

  lemma {:induction false} NumberOfBits(s: seq<bool>, w: bv32, j: nat)
    requires j + |s| <= 32 && forall m :: 0 <= m < |s| ==> s[m] == BitSet(w, j + m)
    ensures Number(s) == BitsFrom(w, j, |s|)
    decreases |s|
  {
    if |s| > 0 {
      hide BitSet;
      assert s[0] == BitSet(w, j + 0);
      forall m | 0 <= m < |s| - 1 ensures s[1..][m] == BitSet(w, j + 1 + m) {
        assert s[m + 1] == BitSet(w, j + (m + 1));
      }
      NumberOfBits(s[1..], w, j + 1);
    }
  }

  lemma BlockByte(bits: seq<bool>, i: nat, m: nat)
    requires BITS_PER_BLOCK * (i + 1) <= |bits| && m < BLOCK_SIZE
    ensures var first := BITS_PER_BLOCK * i + 8 * m; BitBlock(bits, i)[m] == Number(bits[first..first + 8])
  {
    hide Number;
  }

  /** A block of the map on disk is its 1024 words as a little-endian machine has them
      in memory: byte k of word e is the number that bits 8 * k to 8 * k + 7 make. */
  lemma WordOnDisk(words: seq<bv32>, i: nat, e: nat, k: nat)
    requires 1024 * (i + 1) <= |words| && e < 1024 && k < 4
    ensures BitBlock(Bits(words), i)[4 * e + k] == BitsFrom(words[1024 * i + e], 8 * k, 8)
  {
    hide BitsFrom, Number, Bits, BitBlock, BitSet;
    BlockByte(Bits(words), i, 4 * e + k);
    var first := 32 * (1024 * i + e) + 8 * k;
    var eight := Bits(words)[first..first + 8];
    forall m | 0 <= m < 8 ensures eight[m] == BitSet(words[1024 * i + e], 8 * k + m) {
      MapBit(words, 1024 * i + e, 8 * k + m);
    }
    NumberOfBits(eight, words[1024 * i + e], 8 * k);
  }
}
