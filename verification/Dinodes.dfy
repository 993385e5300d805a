/** On-disk inodes, eight to a block, as little-endian words. */
module Dinodes {
  import opened Blocks

  const NDIRECT := 12
  const IPB := 8                     // BSIZE / sizeof(struct dinode)
  const IWORDS := 16                 // words in a struct dinode

  type Short = x: int | -0x8000 <= x < 0x8000
  type Addrs = s: seq<Word> | |s| == NDIRECT + 1 witness seq(NDIRECT + 1, _ => 0)
  const NOADDRS: Addrs := [0, 0, 0, 0, 0, 0, 0, 0, 0, 0, 0, 0, 0]

  datatype Dinode = Dinode(typ: Short, major: Short, minor: Short, nlink: Short, size: Word, addrs: Addrs)

  function Unsigned(x: Short): int {
    if x < 0 then x + 0x1_0000 else x
  }

  function Signed(w: int): Short
    requires 0 <= w < 0x1_0000
  {
    if w >= 0x8000 then w - 0x1_0000 else w
  }

  /** Two shorts in a word. */
  function Join(lo: Short, hi: Short): Word {
    Unsigned(lo) + 0x1_0000 * Unsigned(hi)
  }

  /** Word `k` of a struct dinode. */
  function WordOf(d: Dinode, k: nat): Word
    requires k < IWORDS
  {
    if k == 0 then Join(d.typ, d.major)
    else if k == 1 then Join(d.minor, d.nlink)
    else if k == 2 then d.size
    else d.addrs[k - 3]
  }

  function AddrsFrom(blk: Block, k: nat, i: nat): (s: seq<Word>)
    requires k < IPB && i <= NDIRECT + 1
    ensures |s| == NDIRECT + 1 - i && forall j :: 0 <= j < |s| ==> s[j] == GetWord(blk, IWORDS * k + 3 + i + j)
    decreases NDIRECT + 1 - i
  {
    if i == NDIRECT + 1 then [] else [GetWord(blk, IWORDS * k + 3 + i)] + AddrsFrom(blk, k, i + 1)
  }

  /** The inode in slot `k` of a block. */
  function Unpack(blk: Block, k: nat): Dinode
    requires k < IPB
  {
    var w0: int, w1: int := GetWord(blk, IWORDS * k), GetWord(blk, IWORDS * k + 1);
    Dinode(Signed(w0 % 0x1_0000), Signed(w0 / 0x1_0000), Signed(w1 % 0x1_0000), Signed(w1 / 0x1_0000),
      GetWord(blk, IWORDS * k + 2), AddrsFrom(blk, k, 0))
  }

  /** The first `n` words of the inode stored in slot `k`. */
  function PackWords(blk: Block, k: nat, d: Dinode, n: nat): Block
    requires k < IPB && n <= IWORDS
  {
    if n == 0 then blk else SetWord(PackWords(blk, k, d, n - 1), IWORDS * k + n - 1, WordOf(d, n - 1))
  }

  /** What iupdate does to the block. */
  function Pack(blk: Block, k: nat, d: Dinode): Block
    requires k < IPB
  {
    PackWords(blk, k, d, IWORDS)
  }

  lemma {:induction false} PackWordsAt(blk: Block, k: nat, d: Dinode, n: nat, j: nat)
    requires k < IPB && n <= IWORDS && j < NWORDS
    ensures GetWord(PackWords(blk, k, d, n), j) ==
      if IWORDS * k <= j < IWORDS * k + n then WordOf(d, j - IWORDS * k) else GetWord(blk, j)
  {
    if n > 0 {
      hide GetWord, SetWord, WordOf;
      GetAfterSet(PackWords(blk, k, d, n - 1), IWORDS * k + n - 1, WordOf(d, n - 1), j);
      PackWordsAt(blk, k, d, n - 1, j);
    }
  }

  lemma SameWords(blk: Block, blk': Block, j: nat)
    requires j < IPB && forall i :: IWORDS * j <= i < IWORDS * j + IWORDS ==> GetWord(blk', i) == GetWord(blk, i)
    ensures Unpack(blk', j) == Unpack(blk, j)
  {
    hide GetWord;
    assert GetWord(blk', IWORDS * j) == GetWord(blk, IWORDS * j);
    assert GetWord(blk', IWORDS * j + 1) == GetWord(blk, IWORDS * j + 1);
    assert GetWord(blk', IWORDS * j + 2) == GetWord(blk, IWORDS * j + 2);
    assert Unpack(blk', j).addrs == Unpack(blk, j).addrs;
  }

  lemma JoinSplits(lo: Short, hi: Short)
    ensures var w: int := Join(lo, hi); Signed(w % 0x1_0000) == lo && Signed(w / 0x1_0000) == hi
  {
  }

  /** Storing an inode in a block and reading any slot back: the stored one is
      there, and the other seven are as they were. */
  lemma PackRoundTrip(blk: Block, k: nat, d: Dinode, j: nat)
    requires k < IPB && j < IPB
    ensures Unpack(Pack(blk, k, d), j) == if j == k then d else Unpack(blk, j)
  {
    hide GetWord, PackWords, Join, Signed;
    var blk' := Pack(blk, k, d);
    forall i: nat | i < NWORDS
      ensures GetWord(blk', i) ==
        if IWORDS * k <= i < IWORDS * k + IWORDS then WordOf(d, i - IWORDS * k) else GetWord(blk, i)
    {
      PackWordsAt(blk, k, d, IWORDS, i);
    }
    if j == k {
      JoinSplits(d.typ, d.major);
      JoinSplits(d.minor, d.nlink);
      assert Unpack(blk', j).addrs == d.addrs;
    } else {
      SameWords(blk, blk', j);
    }
  }

  lemma PackAt(blk: Block, k: nat, d: Dinode, j: nat)
    requires k < IPB && j < NWORDS
    ensures GetWord(Pack(blk, k, d), j) ==
      if IWORDS * k <= j < IWORDS * k + IWORDS then WordOf(d, j - IWORDS * k) else GetWord(blk, j)
  {
    PackWordsAt(blk, k, d, IWORDS, j);
  }

  lemma PackedWords(blk: Block, k: nat, d: Dinode)
    requires k < IPB
    ensures var r, at := Pack(blk, k, d), k * 16;
      && GetWord(r, at) % 0x1_0000 == d.typ % 0x1_0000 && GetWord(r, at) / 0x1_0000 == d.major % 0x1_0000
      && GetWord(r, at + 1) % 0x1_0000 == d.minor % 0x1_0000 && GetWord(r, at + 1) / 0x1_0000 == d.nlink % 0x1_0000
      && GetWord(r, at + 2) == d.size && forall j :: at + 3 <= j < at + 16 ==> GetWord(r, j) == d.addrs[j - at - 3]
  {
    hide GetWord, Pack, Join;
    forall j | k * 16 <= j < k * 16 + 16
      ensures GetWord(Pack(blk, k, d), j) == WordOf(d, j - k * 16)
    {
      PackAt(blk, k, d, j);
    }
    JoinMeans(d.typ, d.major);
    JoinMeans(d.minor, d.nlink);
  }

  lemma JoinMeans(lo: Short, hi: Short)
    ensures Join(lo, hi) % 0x1_0000 == lo % 0x1_0000 && Join(lo, hi) / 0x1_0000 == hi % 0x1_0000
  {
  }

  /** An inode stored over another in the same slot leaves nothing of it. */
  lemma PackTwice(blk: Block, k: nat, d0: Dinode, d: Dinode)
    requires k < IPB
    ensures Pack(Pack(blk, k, d0), k, d) == Pack(blk, k, d)
  {
    hide GetWord, Pack, WordOf;
    forall j: nat | j < NWORDS
      ensures GetWord(Pack(Pack(blk, k, d0), k, d), j) == GetWord(Pack(blk, k, d), j)
    {
      PackAt(blk, k, d, j);
      PackAt(blk, k, d0, j);
      PackAt(Pack(blk, k, d0), k, d, j);
    }
    WordsAll(Pack(Pack(blk, k, d0), k, d), Pack(blk, k, d));
  }

  /** Inodes in different slots do not mind in which order they are stored. */
  lemma PackCommutes(blk: Block, k: nat, d: Dinode, m: nat, e: Dinode)
    requires k < IPB && m < IPB && k != m
    ensures Pack(Pack(blk, k, d), m, e) == Pack(Pack(blk, m, e), k, d)
  {
    hide GetWord, Pack, WordOf;
    forall j: nat | j < NWORDS
      ensures GetWord(Pack(Pack(blk, k, d), m, e), j) == GetWord(Pack(Pack(blk, m, e), k, d), j)
    {
      PackAt(blk, k, d, j);
      PackAt(blk, m, e, j);
      PackAt(Pack(blk, k, d), m, e, j);
      PackAt(Pack(blk, m, e), k, d, j);
    }
    WordsAll(Pack(Pack(blk, k, d), m, e), Pack(Pack(blk, m, e), k, d));
  }
}
