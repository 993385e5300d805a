/** Disk blocks as bytes, and the little-endian 32-bit words that the kernel
    overlays on them (log header, indirect blocks). */
module Blocks {
  const BSIZE := 512
  const NWORDS := 128

  type Byte = x: int | 0 <= x < 0x100
  type Word = x: int | 0 <= x < 0x1_0000_0000
  type Block = s: seq<Byte> | |s| == BSIZE witness seq(BSIZE, _ => 0)

  const ZERO: Block := seq(BSIZE, _ => 0)

  function GetWord(s: Block, i: nat): Word
    requires i < NWORDS
  {
    var b0: int, b1: int, b2: int, b3: int := s[4 * i], s[4 * i + 1], s[4 * i + 2], s[4 * i + 3];
    b0 + 0x100 * b1 + 0x1_0000 * b2 + 0x100_0000 * b3
  }

  function SetWord(s: Block, i: nat, w: Word): (r: Block)
    requires i < NWORDS
  {
    s[4 * i := w % 0x100]
     [4 * i + 1 := w / 0x100 % 0x100]
     [4 * i + 2 := w / 0x1_0000 % 0x100]
     [4 * i + 3 := w / 0x100_0000]
  }

  /** Storing a word and reading any word back: the stored one changes, the
      other 127 do not. */
  lemma GetAfterSet(s: Block, i: nat, w: Word, j: nat)
    requires i < NWORDS && j < NWORDS
    ensures GetWord(SetWord(s, i, w), j) == if i == j then w else GetWord(s, j)
  {
    if i == j {
      assert w / 0x1_0000 == w / 0x100 / 0x100;
      assert w / 0x100_0000 == w / 0x1_0000 / 0x100;
    }
  }

  /** Words are stored with the low byte first. */
  lemma WordBytes(s: Block, i: nat, w: Word, x: nat)
    requires i < NWORDS && x < BSIZE
    ensures SetWord(s, i, w)[x] ==
      if x / 4 != i then s[x] else (w / [0x1, 0x100, 0x1_0000, 0x100_0000][x % 4]) % 0x100
  {
    var pows := [0x1, 0x100, 0x1_0000, 0x100_0000];
    assert pows[0] == 0x1 && pows[1] == 0x100 && pows[2] == 0x1_0000 && pows[3] == 0x100_0000;
    assert x == 4 * (x / 4) + x % 4 && w / 0x100_0000 < 0x100;
  }

  predicate IsZero(s: Block) {
    forall i :: 0 <= i < BSIZE ==> s[i] == 0
  }

  lemma ZeroWords(s: Block, i: nat)
    requires IsZero(s) && i < NWORDS
    ensures GetWord(s, i) == 0
  {
  }

  /** The words of a block are all there is to it. */
  lemma WordsAll(s: Block, t: Block)
    requires forall i: nat :: i < NWORDS ==> GetWord(s, i) == GetWord(t, i)
    ensures s == t
  {
    forall j: nat | j < BSIZE
      ensures s[j] == t[j]
    {
      SameBytes(s, t, j / 4);
      assert j == 4 * (j / 4) + j % 4;
    }
  }

  lemma SameBytes(s: Block, t: Block, i: nat)
    requires i < NWORDS && GetWord(s, i) == GetWord(t, i)
    ensures s[4 * i] == t[4 * i] && s[4 * i + 1] == t[4 * i + 1] && s[4 * i + 2] == t[4 * i + 2]
    ensures s[4 * i + 3] == t[4 * i + 3]
  {
    var a0: int, a1: int, a2: int, a3: int := s[4 * i], s[4 * i + 1], s[4 * i + 2], s[4 * i + 3];
    var b0: int, b1: int, b2: int, b3: int := t[4 * i], t[4 * i + 1], t[4 * i + 2], t[4 * i + 3];
    LastByte(a0, a1 + 0x100 * a2 + 0x1_0000 * a3, b0, b1 + 0x100 * b2 + 0x1_0000 * b3);
    LastByte(a1, a2 + 0x100 * a3, b1, b2 + 0x100 * b3);
    LastByte(a2, a3, b2, b3);
  }

  lemma LastByte(a: Byte, x: int, b: Byte, y: int)
    requires a + 0x100 * x == b + 0x100 * y
    ensures a == b && x == y
  {
  }
}
