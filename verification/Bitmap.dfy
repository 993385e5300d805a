/** The bitmap of free blocks. */
module Bitmap {
  import opened Blocks
  import opened DiskLayout

  /** x & (1 << k) */
  predicate Bit(x: nat, k: nat) {
    if k == 0 then x % 2 == 1 else Bit(x / 2, k - 1)
  }

  /** x | (1 << k) */
  function SetBit(x: nat, k: nat): nat {
    if k == 0 then x / 2 * 2 + 1 else SetBit(x / 2, k - 1) * 2 + x % 2
  }

  /** x & ~(1 << k) */
  function ClearBit(x: nat, k: nat): (r: nat)
    ensures r <= x
  {
    if k == 0 then x / 2 * 2 else ClearBit(x / 2, k - 1) * 2 + x % 2
  }

  lemma {:induction false} BitAfterSet(x: nat, k: nat, j: nat)
    ensures Bit(SetBit(x, k), j) <==> j == k || Bit(x, j)
  {
    if k == 0 || j == 0 {
      assert SetBit(x, k) / 2 == if k == 0 then x / 2 else SetBit(x / 2, k - 1);
    } else {
      assert SetBit(x, k) / 2 == SetBit(x / 2, k - 1);
      BitAfterSet(x / 2, k - 1, j - 1);
    }
  }

  lemma {:induction false} BitAfterClear(x: nat, k: nat, j: nat)
    ensures Bit(ClearBit(x, k), j) <==> j != k && Bit(x, j)
  {
    if k == 0 || j == 0 {
      assert ClearBit(x, k) / 2 == if k == 0 then x / 2 else ClearBit(x / 2, k - 1);
    } else {
      assert ClearBit(x, k) / 2 == ClearBit(x / 2, k - 1);
      BitAfterClear(x / 2, k - 1, j - 1);
    }
  }

  function Exp2(w: nat): (p: nat)
    ensures p > 0
  {
    if w == 0 then 1 else 2 * Exp2(w - 1)
  }

  lemma {:induction false} SetBitBound(x: nat, k: nat, w: nat)
    requires k < w && x < Exp2(w)
    ensures SetBit(x, k) < Exp2(w)
  {
    if k > 0 { SetBitBound(x / 2, k - 1, w - 1); }
  }

  lemma {:induction false} BitMeans(x: nat, k: nat)
    requires k < 8
    ensures Bit(x, k) <==> x / [1, 2, 4, 8, 16, 32, 64, 128][k] % 2 == 1
  {
    hide Bit;
    BitHalves(x, k);
    if k > 0 {
      BitMeans(x / 2, k - 1);
      HalfShift(x, k);
    }
  }

  lemma HalfShift(x: nat, k: nat)
    requires 0 < k < 8
    ensures x / 2 / [1, 2, 4, 8, 16, 32, 64, 128][k - 1] == x / [1, 2, 4, 8, 16, 32, 64, 128][k]
  {
    assert x / 2 / 2 == x / 4 && x / 2 / 4 == x / 8 && x / 2 / 8 == x / 16;
    assert x / 2 / 16 == x / 32 && x / 2 / 32 == x / 64 && x / 2 / 64 == x / 128;
  }

  lemma BitHalves(x: nat, k: nat)
    ensures Bit(x, k) <==> if k == 0 then x % 2 == 1 else Bit(x / 2, k - 1)
  {
  }

  // ---- the bitmap ----

  predicate UsedIn(blk: Block, bi: nat)
    requires bi < BPB
  {
    Bit(blk[bi / 8], bi % 8)
  }

  function Mark(blk: Block, bi: nat): Block
    requires bi < BPB
  {
    SetBitBound(blk[bi / 8], bi % 8, 8);
    assert Exp2(8) == 0x100;
    blk[bi / 8 := SetBit(blk[bi / 8], bi % 8)]
  }

  function Unmark(blk: Block, bi: nat): Block
    requires bi < BPB
  {
    blk[bi / 8 := ClearBit(blk[bi / 8], bi % 8)]
  }

  lemma MarkByte(blk: Block, bi: nat, x: nat)
    requires bi < BPB && x < BSIZE
    ensures Mark(blk, bi)[x] == if x == bi / 8 then SetBit(blk[x], bi % 8) else blk[x]
    ensures Unmark(blk, bi)[x] == if x == bi / 8 then ClearBit(blk[x], bi % 8) else blk[x]
  {
    hide Bit, SetBit, ClearBit;
  }

  lemma MarkAfter(blk: Block, bi: nat, bj: nat)
    requires bi < BPB && bj < BPB
    ensures UsedIn(Mark(blk, bi), bj) <==> bj == bi || UsedIn(blk, bj)
    ensures UsedIn(Unmark(blk, bi), bj) <==> bj != bi && UsedIn(blk, bj)
  {
    hide Bit, SetBit, ClearBit, Mark, Unmark;
    MarkByte(blk, bi, bj / 8);
    BitAfterSet(blk[bi / 8], bi % 8, bj % 8);
    BitAfterClear(blk[bi / 8], bi % 8, bj % 8);
  }

  predicate Used(sb: Super, store: seq<Block>, b: nat)
    requires sb.Good() && |store| == sb.size && b < sb.size
  {
    UsedIn(store[sb.BBlock(b)], b % BPB)
  }

  /** Block `b` has bit `b % 8` of byte `b % 4096 / 8` of bitmap block `b / 4096`,
      set when it is in use. */
  lemma UsedMeans(sb: Super, store: seq<Block>, b: nat)
    requires sb.Good() && |store| == sb.size && b < sb.size
    ensures sb.bmapstart + b / 4096 < |store|
    ensures Used(sb, store, b) <==>
      store[sb.bmapstart + b / 4096][b % 4096 / 8] / [1, 2, 4, 8, 16, 32, 64, 128][b % 8] % 2 == 1
  {
    hide Bit;
    assert b % 4096 % 8 == b % 8;
    BitMeans(store[sb.bmapstart + b / 4096][b % 4096 / 8], b % 8);
  }

  lemma UsedAt(sb: Super, store: seq<Block>, base: nat, bi: nat)
    requires sb.Good() && |store| == sb.size && base % BPB == 0 && bi < BPB && base + bi < sb.size
    ensures sb.BBlock(base) < sb.size && (UsedIn(store[sb.BBlock(base)], bi) <==> Used(sb, store, base + bi))
  {
    assert (base + bi) / BPB == base / BPB && (base + bi) % BPB == bi;
  }

  ghost function Free(sb: Super, store: seq<Block>): set<nat>
    requires sb.Good() && |store| == sb.size
  {
    set b: nat | b < sb.size && !Used(sb, store, b)
  }

  /** The number of free blocks. */
  ghost function Spare(sb: Super, store: seq<Block>): nat {
    if sb.Good() && |store| == sb.size then |Free(sb, store)| else 0
  }

  ghost function DataBlocks(sb: Super): set<nat> {
    set b: nat | b < sb.size && sb.IsData(b)
  }

  lemma MarkUsed(sb: Super, store: seq<Block>, b: nat, x: nat)
    requires sb.Good() && |store| == sb.size && b < sb.size && x < sb.size
    ensures sb.BBlock(b) < sb.Meta() && sb.BBlock(x) < sb.Meta()
    ensures Used(sb, store[sb.BBlock(b) := Mark(store[sb.BBlock(b)], b % BPB)], x) <==> x == b || Used(sb, store, x)
    ensures Used(sb, store[sb.BBlock(b) := Unmark(store[sb.BBlock(b)], b % BPB)], x) <==> x != b && Used(sb, store, x)
  {
    hide UsedIn, Mark, Unmark;
    if sb.BBlock(x) == sb.BBlock(b) {
      assert x == b <==> x % BPB == b % BPB;
      MarkAfter(store[sb.BBlock(b)], b % BPB, x % BPB);
    }
  }

  /** Changing its bit takes or frees one block. */
  lemma MarkFree(sb: Super, store: seq<Block>, b: nat)
    requires sb.Good() && |store| == sb.size && b < sb.size
    ensures var bb := sb.BBlock(b);
      && bb < sb.Meta()
      && Free(sb, store[bb := Mark(store[bb], b % BPB)]) == Free(sb, store) - {b}
      && Free(sb, store[bb := Unmark(store[bb], b % BPB)]) == Free(sb, store) + {b}
  {
    hide Used, Mark, Unmark;
    var bb := sb.BBlock(b);
    MarkUsed(sb, store, b, b);
    var s1, s2 := store[bb := Mark(store[bb], b % BPB)], store[bb := Unmark(store[bb], b % BPB)];
    forall x: nat | x < sb.size
      ensures x in Free(sb, s1) <==> x != b && x in Free(sb, store)
      ensures x in Free(sb, s2) <==> x == b || x in Free(sb, store)
    {
      MarkUsed(sb, store, b, x);
    }
    assert forall x <- Free(sb, s1) + Free(sb, s2) + Free(sb, store) + {b} :: x < sb.size;
  }

  // ---- bits of different blocks ----

  /** The bit of a block set or cleared. */
  function SetTo(blk: Block, bi: nat, on: bool): Block
    requires bi < BPB
  {
    if on then Mark(blk, bi) else Unmark(blk, bi)
  }

  function BitTo(x: nat, k: nat, on: bool): nat {
    if on then SetBit(x, k) else ClearBit(x, k)
  }

  lemma BitToHalves(x: nat, k: nat, on: bool)
    ensures BitTo(x, k, on) % 2 == if k > 0 then x % 2 else if on then 1 else 0
    ensures BitTo(x, k, on) / 2 == if k > 0 then BitTo(x / 2, k - 1, on) else x / 2
  {
  }

  lemma {:induction false} BitsSwap(x: nat, k: nat, on: bool, j: nat, on': bool)
    requires k != j
    ensures BitTo(BitTo(x, k, on), j, on') == BitTo(BitTo(x, j, on'), k, on)
  {
    hide BitTo;
    BitToHalves(x, k, on);
    BitToHalves(x, j, on');
    BitToHalves(BitTo(x, k, on), j, on');
    BitToHalves(BitTo(x, j, on'), k, on);
    if k > 0 && j > 0 { BitsSwap(x / 2, k - 1, on, j - 1, on'); }
    SameHalves(BitTo(BitTo(x, k, on), j, on'), BitTo(BitTo(x, j, on'), k, on));
  }

  lemma SameHalves(x: nat, y: nat)
    requires x / 2 == y / 2 && x % 2 == y % 2
    ensures x == y
  {
  }

  /** Two bits may be changed in either order. */
  lemma SetToSwaps(blk: Block, x: nat, on: bool, y: nat, on': bool)
    requires x < BPB && y < BPB && x != y
    ensures SetTo(SetTo(blk, x, on), y, on') == SetTo(SetTo(blk, y, on'), x, on)
  {
    hide SetBit, ClearBit, Mark, Unmark;
    forall k: nat | k < BSIZE
      ensures SetTo(SetTo(blk, x, on), y, on')[k] == SetTo(SetTo(blk, y, on'), x, on)[k]
    {
      SetToByte(blk, x, on, k);
      SetToByte(blk, y, on', k);
      SetToByte(SetTo(blk, x, on), y, on', k);
      SetToByte(SetTo(blk, y, on'), x, on, k);
      if k == x / 8 == y / 8 { BitsSwap(blk[k], x % 8, on, y % 8, on'); }
    }
  }

  lemma SetToByte(blk: Block, bi: nat, on: bool, k: nat)
    requires bi < BPB && k < BSIZE
    ensures SetTo(blk, bi, on)[k] == if k == bi / 8 then BitTo(blk[k], bi % 8, on) else blk[k]
  {
    hide Mark, Unmark;
    MarkByte(blk, bi, k);
  }
}
