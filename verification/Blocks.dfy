/** Disk blocks and the two ways the object store looks at one: 4096 bytes of
    file data, or 1024 little-endian words of an indirect block. */
module Blocks {

  const BLOCK_SIZE := 4096
  const WORDS_PER_BLOCK := 1024

  type Byte = x: int | 0 <= x < 256
  type Word = x: int | 0 <= x < 0x1_0000_0000
  type Block = b: seq<Byte> | |b| == 4096 witness seq(4096, _ => 0)

  function Zero(): Block {
    seq(4096, _ => 0)
  }

  /** A write buffer copied into a freshly mapped (hence zero) block. */
  function Pad(buf: seq<Byte>): (b: Block)
    requires |buf| <= BLOCK_SIZE
    ensures forall k :: 0 <= k < BLOCK_SIZE ==> b[k] == if k < |buf| then buf[k] else 0
  {
    buf + seq(4096 - |buf|, _ => 0)
  }

  /** The number n bytes make, the low end first. */
  function Little(s: seq<Byte>, at: nat, n: nat): nat
    requires at + n <= |s|
    decreases n
  {
    if n == 0 then 0 else s[at] as int + 0x100 * Little(s, at + 1, n - 1)
  }

  lemma LittleFour(s: seq<Byte>, at: nat)
    requires at + 4 <= |s|
    ensures Little(s, at, 4) ==
      s[at] as int + 0x100 * s[at + 1] as int + 0x1_0000 * s[at + 2] as int + 0x100_0000 * s[at + 3] as int
  {
    assert Little(s, at + 2, 2) == s[at + 2] as int + 0x100 * Little(s, at + 3, 1);
  }

  function WordAt(b: Block, e: nat): Word
    requires e < WORDS_PER_BLOCK
  {
    var (b0: int, b1: int, b2: int, b3: int) := (b[4 * e], b[4 * e + 1], b[4 * e + 2], b[4 * e + 3]);
    b0 + 0x100 * b1 + 0x1_0000 * b2 + 0x100_0000 * b3
  }

  function PutWord(b: Block, e: nat, w: Word): Block
    requires e < WORDS_PER_BLOCK
  {
    b[4 * e := w % 0x100]
     [4 * e + 1 := w / 0x100 % 0x100]
     [4 * e + 2 := w / 0x1_0000 % 0x100]
     [4 * e + 3 := w / 0x100_0000]
  }

  /** An indirect block is 1024 little-endian words. */
  lemma WordIsLittle(b: Block, e: nat)
    requires e < WORDS_PER_BLOCK
    ensures WordAt(b, e) == Little(b, 4 * e, 4)
  {
    LittleFour(b, 4 * e);
  }

  lemma PutWordBytes(b: Block, e: nat, w: Word)
    requires e < WORDS_PER_BLOCK
    ensures var p := PutWord(b, e, w);
      && p[4 * e] == w % 0x100
      && p[4 * e + 1] == w / 0x100 % 0x100
      && p[4 * e + 2] == w / 0x1_0000 % 0x100
      && p[4 * e + 3] == w / 0x100_0000
    ensures forall i :: 0 <= i < BLOCK_SIZE && i / 4 != e ==> PutWord(b, e, w)[i] == b[i]
  {
  }

  lemma BytesOfWord(w: Word)
    ensures w == w % 0x100 + 0x100 * (w / 0x100 % 0x100)
                 + 0x1_0000 * (w / 0x1_0000 % 0x100) + 0x100_0000 * (w / 0x100_0000)
  {
    assert w / 0x1_0000 == w / 0x100 / 0x100;
    assert w / 0x100_0000 == w / 0x1_0000 / 0x100;
  }

  /** Storing a word makes that word, and no other, read back as stored. */
  lemma PutWordReads(b: Block, e: nat, w: Word, f: nat)
    requires e < WORDS_PER_BLOCK && f < WORDS_PER_BLOCK
    ensures WordAt(PutWord(b, e, w), f) == if f == e then w else WordAt(b, f)
  {
    PutWordBytes(b, e, w);
    BytesOfWord(w);
    hide PutWord;
    if f != e {
      assert (4 * f) / 4 != e && (4 * f + 1) / 4 != e && (4 * f + 2) / 4 != e && (4 * f + 3) / 4 != e;
    }
  }

  lemma ZeroWords(e: nat)
    requires e < WORDS_PER_BLOCK
    ensures WordAt(Zero(), e) == 0
  {
  }
}
