/** Blocks and inodes: the bitmap allocator, block maps with one indirect
    block, truncation, and byte-range reads and writes. The store is the
    logical contents of the blocks, as bread returns them. */
module Fs {
  import opened Bitmap
  import opened Blocks
  import opened Dinodes
  import opened DiskLayout
  import opened LogSteps
  import opened Params

  const NINDIRECT := NWORDS
  const MAXFILE := NDIRECT + NINDIRECT
  const NSLOTS := MAXFILE + 1        // direct blocks, the indirect block, its entries

  // ---- block maps ----

  function SlotOf(bn: nat): nat {
    if bn < NDIRECT then bn else bn + 1
  }

  /** The block number in a slot of the block map; 0 when there is none. */
  function Addr(store: seq<Block>, d: Dinode, slot: nat): Word
    requires slot < NSLOTS
  {
    if slot <= NDIRECT then d.addrs[slot]
    else if d.addrs[NDIRECT] == 0 || d.addrs[NDIRECT] >= |store| then 0
    else GetWord(store[d.addrs[NDIRECT]], slot - NDIRECT - 1)
  }

  function ByteAt(store: seq<Block>, d: Dinode, k: nat): Byte {
    if k / BSIZE >= MAXFILE then 0
    else
      var a := Addr(store, d, SlotOf(k / BSIZE));
      if a < |store| then store[a][k % BSIZE] else 0
  }

  /** The first `e` bytes of the blocks of a file. */
  function Bytes(store: seq<Block>, d: Dinode, e: nat): seq<Byte> {
    seq(e, k requires k >= 0 => ByteAt(store, d, k))
  }

  /** What a file holds. */
  function Contents(store: seq<Block>, d: Dinode): seq<Byte> {
    Bytes(store, d, d.size)
  }

  datatype Ref = Ref(inum: nat, slot: nat)

  /** The blocks, the inodes, and for every data block in use the one slot of
      the one inode that refers to it. */
  datatype View = View(store: seq<Block>, tab: seq<Dinode>, owner: map<nat, Ref>)
  {
    function A(i: nat, slot: nat): Word
      requires i < |tab| && slot < NSLOTS
    {
      Addr(store, tab[i], slot)
    }
  }

  ghost predicate Referenced(sb: Super, v: View) {
    && (forall b <- v.owner ::
          var r := v.owner[b];
          r.inum < |v.tab| && r.slot < NSLOTS && v.tab[r.inum].typ != 0 && v.A(r.inum, r.slot) == b)
    && (forall i: nat, s: nat {:trigger v.A(i, s)} :: i < |v.tab| && s < NSLOTS && v.A(i, s) != 0 ==>
        v.A(i, s) in v.owner && v.owner[v.A(i, s)] == Ref(i, s))
  }

  ghost predicate NoHole(v: View, i: nat, size: nat)
    requires i < |v.tab|
  {
    size <= MAXFILE * BSIZE &&
    forall bn: nat {:trigger SlotOf(bn)} :: bn < MAXFILE && bn * BSIZE < size ==> v.A(i, SlotOf(bn)) != 0
  }

  ghost predicate Covered(v: View, i: nat)
    requires i < |v.tab|
  {
    NoHole(v, i, v.tab[i].size)
  }

  /** Block conservation: the free blocks are the data blocks that no inode
      refers to, and files have no holes. */
  ghost predicate Ok(sb: Super, v: View) {
    && sb.Good() && |v.store| == sb.size && |v.tab| == sb.ninodes
    && Free(sb, v.store) == DataBlocks(sb) - v.owner.Keys && v.owner.Keys <= DataBlocks(sb)
    && Referenced(sb, v)
    && (forall i: nat :: i < |v.tab| ==> Covered(v, i))
  }

  lemma OkSizes(sb: Super, v: View)
    requires Ok(sb, v)
    ensures sb.Good() && |v.store| == sb.size && |v.tab| == sb.ninodes
  {
  }

  // ---- allocation ----

  /** Allocating block `b`: it is zeroed, and no other block that may hold data
      changes. */
  ghost predicate Fresh(sb: Super, store: seq<Block>, store': seq<Block>, b: nat) {
    && sb.Good() && |store| == |store'| == sb.size && b in Free(sb, store)
    && Free(sb, store') == Free(sb, store) - {b} && IsZero(store'[b])
    && forall x: nat {:trigger store'[x]} :: sb.IsData(x) && x != b ==> store'[x] == store[x]
  }

  function WithAddr(d: Dinode, slot: nat, b: Word): Dinode
    requires slot <= NDIRECT
  {
    d.(addrs := d.addrs[slot := b])
  }

  predicate SameButAddrs(d: Dinode, d': Dinode) {
    d' == d.(addrs := d'.addrs)
  }

  /** A fresh block recorded in the inode itself. */
  ghost function Linked(v: View, store': seq<Block>, b: Word, i: nat, slot: nat): View
    requires i < |v.tab| && slot <= NDIRECT
  {
    View(store', v.tab[i := WithAddr(v.tab[i], slot, b)], v.owner[b := Ref(i, slot)])
  }

  /** A fresh block recorded in the indirect block. */
  ghost function LinkedIn(v: View, store': seq<Block>, b: Word, i: nat, slot: nat): View
    requires i < |v.tab| && NDIRECT < slot < NSLOTS && v.tab[i].addrs[NDIRECT] < |store'|
  {
    var a := v.tab[i].addrs[NDIRECT];
    View(store'[a := SetWord(store'[a], slot - NDIRECT - 1, b)], v.tab, v.owner[b := Ref(i, slot)])
  }

  /** One slot that was empty now holds `b`. */
  ghost predicate OneSlot(v: View, v': View, b: nat, i: nat, slot: nat) {
    && |v'.tab| == |v.tab| && i < |v.tab| && slot < NSLOTS && v'.owner == v.owner[b := Ref(i, slot)]
    && v'.A(i, slot) == b
    && forall j: nat, s: nat {:trigger v'.A(j, s)} {:trigger v.A(j, s)} ::
      j < |v.tab| && s < NSLOTS && (j != i || s != slot) ==> v'.A(j, s) == v.A(j, s)
  }

  lemma OwnedSlot(sb: Super, v: View, i: nat, s: nat)
    requires Ok(sb, v) && i < |v.tab| && s < NSLOTS && v.A(i, s) != 0
    ensures v.A(i, s) in v.owner && sb.IsData(v.A(i, s)) && v.A(i, s) !in Free(sb, v.store) && v.A(i, s) < |v.store|
  {
    assert v.A(i, s) in DataBlocks(sb);
  }

  /** Slots read the same when indirect blocks do. */
  lemma SameSlots(sb: Super, v: View, store': seq<Block>, j: nat, s: nat)
    requires Ok(sb, v) && |store'| == |v.store| && j < |v.tab| && s < NSLOTS
    requires var a := v.A(j, NDIRECT); a != 0 ==> store'[a] == v.store[a]
    ensures Addr(store', v.tab[j], s) == v.A(j, s)
  {
  }

  lemma LinkedSlots(sb: Super, v: View, store': seq<Block>, b: Word, i: nat, slot: nat)
    requires Ok(sb, v) && Fresh(sb, v.store, store', b) && i < |v.tab| && slot <= NDIRECT && v.A(i, slot) == 0
    ensures OneSlot(v, Linked(v, store', b, i, slot), b, i, slot)
  {
    var v' := Linked(v, store', b, i, slot);
    forall j: nat, s: nat | j < |v.tab| && s < NSLOTS && (j != i || s != slot)
      ensures v'.A(j, s) == v.A(j, s)
    {
      if v.A(j, NDIRECT) != 0 { OwnedSlot(sb, v, j, NDIRECT); }
      if j == i && slot == NDIRECT {
        if s > NDIRECT { ZeroWords(store'[b], s - NDIRECT - 1); }
      } else {
        SameSlots(sb, v, store', j, s);
      }
    }
  }

  lemma LinkedInSlots(sb: Super, v: View, store': seq<Block>, b: Word, i: nat, slot: nat)
    requires Ok(sb, v) && Fresh(sb, v.store, store', b) && i < |v.tab| && NDIRECT < slot < NSLOTS
    requires v.A(i, NDIRECT) != 0 && v.A(i, slot) == 0
    ensures sb.IsData(v.A(i, NDIRECT)) && OneSlot(v, LinkedIn(v, store', b, i, slot), b, i, slot)
  {
    OwnedSlot(sb, v, i, NDIRECT);
    var a := v.A(i, NDIRECT);
    var v' := LinkedIn(v, store', b, i, slot);
    forall j: nat, s: nat | j < |v.tab| && s < NSLOTS
      ensures v'.A(j, s) == if j == i && s == slot then b else v.A(j, s)
    {
      if j == i {
        if s > NDIRECT { GetAfterSet(store'[a], slot - NDIRECT - 1, b, s - NDIRECT - 1); }
      } else {
        if v.A(j, NDIRECT) != 0 { OwnedSlot(sb, v, j, NDIRECT); }
        SameSlots(sb, v, v'.store, j, s);
      }
    }
  }

  lemma OneSlotReferenced(sb: Super, v: View, v': View, b: nat, i: nat, slot: nat)
    requires Referenced(sb, v) && OneSlot(v, v', b, i, slot) && v.A(i, slot) == 0 && v.tab[i].typ != 0
    requires b !in v.owner && 0 !in v.owner
    requires forall j: nat {:trigger v'.tab[j]} :: j < |v.tab| ==> v'.tab[j].typ == v.tab[j].typ
    ensures Referenced(sb, v')
  {
    hide View.A;
    forall x | x in v'.owner
      ensures
        var r := v'.owner[x];
        r.inum < |v'.tab| && r.slot < NSLOTS && v'.tab[r.inum].typ != 0 && v'.A(r.inum, r.slot) == x
    {
      if x != b { assert x in v.owner; }
    }
  }

  lemma ZeroIsMeta(sb: Super)
    ensures 0 !in DataBlocks(sb)
  {
  }

  lemma OneSlotHoles(v: View, v': View, b: nat, i: nat, slot: nat, j: nat)
    requires OneSlot(v, v', b, i, slot) && v.A(i, slot) == 0 && b != 0
    requires j < |v.tab| && Covered(v, j) && v'.tab[j].size == v.tab[j].size
    ensures Covered(v', j)
  {
    hide View.A;
  }

  /** Filling one empty slot with a block taken from the free ones keeps
      everything. */
  lemma OneSlotOk(sb: Super, v: View, v': View, b: nat, i: nat, slot: nat)
    requires Ok(sb, v) && OneSlot(v, v', b, i, slot) && v.A(i, slot) == 0 && v.tab[i].typ != 0
    requires |v'.store| == sb.size && b in Free(sb, v.store) && Free(sb, v'.store) == Free(sb, v.store) - {b}
    requires forall j: nat {:trigger v'.tab[j]} :: j < |v.tab| ==> SameButAddrs(v.tab[j], v'.tab[j])
    ensures Ok(sb, v')
  {
    hide View.A, Free, Covered, Referenced, DataBlocks;
    assert b in DataBlocks(sb) && b !in v.owner;
    ZeroIsMeta(sb);
    OneSlotReferenced(sb, v, v', b, i, slot);
    forall j: nat | j < |v'.tab|
      ensures Covered(v', j)
    {
      OneSlotHoles(v, v', b, i, slot, j);
    }
  }

  /** Writing a block that is not in the bitmap frees and takes nothing. */
  lemma SameFree(sb: Super, store: seq<Block>, store': seq<Block>)
    requires sb.Good() && |store| == |store'| == sb.size
    requires forall x: nat {:trigger store'[x]} :: x < sb.size && !sb.IsData(x) ==> store'[x] == store[x]
    ensures Free(sb, store') == Free(sb, store)
  {
    hide UsedIn;
  }

  lemma LinkedInStore(sb: Super, v: View, store': seq<Block>, b: Word, i: nat, slot: nat)
    requires Ok(sb, v) && Fresh(sb, v.store, store', b) && i < |v.tab| && NDIRECT < slot < NSLOTS
    requires v.A(i, NDIRECT) != 0
    ensures v.A(i, NDIRECT) == v.tab[i].addrs[NDIRECT] != b && sb.IsData(v.A(i, NDIRECT))
    ensures Free(sb, LinkedIn(v, store', b, i, slot).store) == Free(sb, v.store) - {b}
  {
    hide Referenced, Covered, Used;
    OwnedSlot(sb, v, i, NDIRECT);
    SameFree(sb, store', LinkedIn(v, store', b, i, slot).store);
  }

  /** Between two views only inode `i` gains blocks; no block already in use
      changes hands, and none but an indirect block changes. */
  ghost predicate Grows(v: View, v': View, i: nat) {
    && |v'.tab| == |v.tab| && |v'.store| == |v.store| && i < |v.tab|
    && (forall b <- v.owner ::
          b in v'.owner && v'.owner[b] == v.owner[b] &&
          (v.owner[b].slot != NDIRECT && b < |v.store| ==> v'.store[b] == v.store[b]))
    && (forall b <- v'.owner :: b in v.owner || v'.owner[b].inum == i)
    && (forall j: nat {:trigger v'.tab[j]} :: j < |v.tab| && j != i ==> v'.tab[j] == v.tab[j])
    && SameButAddrs(v.tab[i], v'.tab[i])
  }

  lemma GrowsSelf(v: View, i: nat)
    requires i < |v.tab|
    ensures Grows(v, v, i)
  {
  }

  lemma GrowsTwice(v0: View, v1: View, v2: View, i: nat)
    requires Grows(v0, v1, i) && Grows(v1, v2, i)
    ensures Grows(v0, v2, i)
  {
  }

  lemma GrowsSlot(sb: Super, v: View, v': View, i: nat, j: nat, s: nat)
    requires Ok(sb, v) && Ok(sb, v') && Grows(v, v', i) && j < |v.tab| && s < NSLOTS && v.A(j, s) != 0
    ensures v'.A(j, s) == v.A(j, s) && v.A(j, s) < sb.size
    ensures s != NDIRECT ==> v'.store[v.A(j, s)] == v.store[v.A(j, s)]
  {
    hide View.A;
    OwnedSlot(sb, v, j, s);
    assert v.owner[v.A(j, s)] == Ref(j, s);
  }

  lemma GrowsByte(sb: Super, v: View, v': View, i: nat, j: nat, k: nat)
    requires Ok(sb, v) && Ok(sb, v') && Grows(v, v', i) && j < |v.tab|
    requires k / BSIZE < MAXFILE && v.A(j, SlotOf(k / BSIZE)) != 0
    ensures ByteAt(v'.store, v'.tab[j], k) == ByteAt(v.store, v.tab[j], k)
  {
    hide Referenced, Covered, Free, DataBlocks;
    GrowsSlot(sb, v, v', i, j, SlotOf(k / BSIZE));
  }

  lemma GrowsContents(sb: Super, v: View, v': View, i: nat, j: nat)
    requires Ok(sb, v) && Ok(sb, v') && Grows(v, v', i) && j < |v.tab|
    ensures |v'.tab| == |v.tab| && Contents(v'.store, v'.tab[j]) == Contents(v.store, v.tab[j])
  {
    hide ByteAt, Addr, View.A, Referenced;
    assert v'.tab[j].size == v.tab[j].size;
    assert Covered(v, j);
    forall k: nat | k < v.tab[j].size
      ensures ByteAt(v'.store, v'.tab[j], k) == ByteAt(v.store, v.tab[j], k)
    {
      assert k / BSIZE * BSIZE < v.tab[j].size && k / BSIZE < MAXFILE;
      assert v.A(j, SlotOf(k / BSIZE)) != 0;
      GrowsByte(sb, v, v', i, j, k);
    }
  }

  lemma OneSlotGrows(sb: Super, v: View, store': seq<Block>, b: Word, i: nat, slot: nat)
    requires Ok(sb, v) && Fresh(sb, v.store, store', b) && i < |v.tab| && slot < NSLOTS && v.A(i, slot) == 0
    requires slot > NDIRECT ==> v.A(i, NDIRECT) != 0
    ensures slot <= NDIRECT ==> Grows(v, Linked(v, store', b, i, slot), i)
    ensures slot > NDIRECT ==> v.tab[i].addrs[NDIRECT] < sb.size && Grows(v, LinkedIn(v, store', b, i, slot), i)
  {
    assert b !in v.owner && forall x <- v.owner :: x in DataBlocks(sb) && sb.IsData(x);
    if slot > NDIRECT { OwnedSlot(sb, v, i, NDIRECT); }
  }

  const T_DIR := 1
  const T_DEV := 3

  lemma MappedByte(sb: Super, v: View, i: nat, k: nat)
    requires Ok(sb, v) && i < |v.tab| && k < v.tab[i].size
    ensures k / BSIZE < MAXFILE && v.A(i, SlotOf(k / BSIZE)) != 0 && v.A(i, SlotOf(k / BSIZE)) < |v.store|
    ensures ByteAt(v.store, v.tab[i], k) == v.store[v.A(i, SlotOf(k / BSIZE))][k % BSIZE]
  {
    hide Addr, Referenced, Free;
    assert Covered(v, i);
    OwnedSlot(sb, v, i, SlotOf(k / BSIZE));
  }

  /** What a file holds, from the words of the inode and its indirect block. */
  lemma ContentsAt(sb: Super, v: View, i: nat, k: nat)
    requires Ok(sb, v) && i < |v.tab| && k < v.tab[i].size
    ensures |Contents(v.store, v.tab[i])| == v.tab[i].size && k / 512 < 140
    ensures k / 512 >= 12 ==> 0 < v.tab[i].addrs[12] < |v.store|
    ensures var d, bn := v.tab[i], k / 512;
      var a := if bn < 12 then d.addrs[bn] else GetWord(v.store[d.addrs[12]], bn - 12);
      0 < a < |v.store| && Contents(v.store, d)[k] == v.store[a][k % 512]
  {
    hide Ok, GetWord;
    MappedByte(sb, v, i, k);
    if k / 512 >= 12 { OwnedSlot(sb, v, i, NDIRECT); }
  }

  /** Where the block map has the address of block `bn` of a file. */
  lemma AddressAt(sb: Super, v: View, i: nat, bn: nat)
    requires Ok(sb, v) && i < |v.tab| && bn < MAXFILE && v.A(i, SlotOf(bn)) != 0
    ensures bn < 12 ==> v.A(i, SlotOf(bn)) == v.tab[i].addrs[bn]
    ensures bn >= 12 ==> 0 < v.tab[i].addrs[12] < |v.store|
    ensures bn >= 12 ==> v.A(i, SlotOf(bn)) == GetWord(v.store[v.tab[i].addrs[12]], bn - 12)
  {
    hide Ok, GetWord;
    if bn >= 12 { OwnedSlot(sb, v, i, NDIRECT); }
  }

  lemma ContentsSize(store: seq<Block>, d: Dinode)
    ensures |Contents(store, d)| == d.size
  {
  }

  lemma SliceMore(c: seq<Byte>, a: nat, b: nat, m: nat)
    requires a <= b && b + m <= |c|
    ensures c[a..b] + c[b..b + m] == c[a..b + m]
  {
  }

  /** A piece of a file within one block lies in the block that the map says. */
  lemma ReadChunk(sb: Super, v: View, i: nat, off: nat, m: nat)
    requires Ok(sb, v) && i < |v.tab| && off + m <= v.tab[i].size && 0 < m <= BSIZE - off % BSIZE
    ensures off / BSIZE < MAXFILE && v.A(i, SlotOf(off / BSIZE)) != 0 && v.A(i, SlotOf(off / BSIZE)) < |v.store|
    ensures Contents(v.store, v.tab[i])[off..off + m] ==
      v.store[v.A(i, SlotOf(off / BSIZE))][off % BSIZE..off % BSIZE + m]
  {
    hide View.A, ByteAt, Ok;
    MappedByte(sb, v, i, off);
    var blk := v.store[v.A(i, SlotOf(off / BSIZE))];
    var c := Contents(v.store, v.tab[i]);
    var piece := c[off..off + m];
    forall k: nat | k < m
      ensures piece[k] == blk[off % BSIZE..off % BSIZE + m][k]
    {
      MappedByte(sb, v, i, off + k);
      assert (off + k) / BSIZE == off / BSIZE && (off + k) % BSIZE == off % BSIZE + k;
    }
  }

  // ---- writing ----

  /** The bytes of a block with `src` in place from `o`. */
  function Patch(blk: Block, o: nat, src: seq<Byte>): Block
    requires o + |src| <= BSIZE
  {
    blk[..o] + src + blk[o + |src|..]
  }

  /** Writing a block of file data changes the bytes of that piece of that
      file, and keeps the block maps. */
  lemma WrittenOk(sb: Super, v: View, i: nat, slot: nat, blk: Block)
    requires Ok(sb, v) && i < |v.tab| && slot < NSLOTS && slot != NDIRECT && v.A(i, slot) != 0
    ensures v.A(i, slot) < |v.store|
    ensures var v' := v.(store := v.store[v.A(i, slot) := blk]);
      Ok(sb, v') && forall j: nat, s: nat {:trigger v'.A(j, s)} :: j < |v.tab| && s < NSLOTS ==> v'.A(j, s) == v.A(j, s)
  {
    hide Used;
    OwnedSlot(sb, v, i, slot);
    var v' := v.(store := v.store[v.A(i, slot) := blk]);
    forall j: nat, s: nat | j < |v.tab| && s < NSLOTS
      ensures v'.A(j, s) == v.A(j, s)
    {
      if v.A(j, NDIRECT) != 0 { OwnedSlot(sb, v, j, NDIRECT); }
      SameSlots(sb, v, v'.store, j, s);
    }
    SameFree(sb, v.store, v'.store);
    forall j: nat | j < |v.tab|
      ensures Covered(v', j)
    {
      assert Covered(v, j);
    }
  }

  lemma WrittenByte(sb: Super, v: View, i: nat, slot: nat, blk: Block, j: nat, k: nat)
    requires Ok(sb, v) && i < |v.tab| && slot < NSLOTS && slot != NDIRECT && v.A(i, slot) != 0
    requires v.A(i, slot) < |v.store|
    requires j < |v.tab| && k / BSIZE < MAXFILE && v.A(j, SlotOf(k / BSIZE)) != 0
    ensures ByteAt(v.store[v.A(i, slot) := blk], v.tab[j], k) ==
      if j == i && SlotOf(k / BSIZE) == slot then blk[k % BSIZE] else ByteAt(v.store, v.tab[j], k)
  {
    hide Addr, Referenced, Covered, Free;
    WrittenOk(sb, v, i, slot, blk);
    OwnedSlot(sb, v, j, SlotOf(k / BSIZE));
    OwnedSlot(sb, v, i, slot);
    var v' := v.(store := v.store[v.A(i, slot) := blk]);
    assert v'.A(j, SlotOf(k / BSIZE)) == v.A(j, SlotOf(k / BSIZE));
    SlotOwner(sb, v, j, SlotOf(k / BSIZE), i, slot);
  }

  /** No block is referred to twice. */
  lemma SlotOwner(sb: Super, v: View, i: nat, s: nat, j: nat, t: nat)
    requires Ok(sb, v) && i < |v.tab| && j < |v.tab| && s < NSLOTS && t < NSLOTS
    ensures v.A(i, s) == v.A(j, t) != 0 ==> i == j && s == t
  {
    hide View.A;
  }

  /** The view after `src` is copied to byte `off` within a block. */
  ghost function Patched(v: View, i: nat, off: nat, src: seq<Byte>): View
    requires i < |v.tab| && off / BSIZE < MAXFILE && off % BSIZE + |src| <= BSIZE
    requires v.A(i, SlotOf(off / BSIZE)) < |v.store|
  {
    var a := v.A(i, SlotOf(off / BSIZE));
    v.(store := v.store[a := Patch(v.store[a], off % BSIZE, src)])
  }

  lemma PatchedByte(sb: Super, v: View, i: nat, off: nat, src: seq<Byte>, j: nat, k: nat)
    requires Ok(sb, v) && i < |v.tab| && off / BSIZE < MAXFILE && off % BSIZE + |src| <= BSIZE
    requires v.A(i, SlotOf(off / BSIZE)) != 0 && v.A(i, SlotOf(off / BSIZE)) < |v.store|
    requires j < |v.tab| && k / BSIZE < MAXFILE && v.A(j, SlotOf(k / BSIZE)) != 0
    ensures ByteAt(Patched(v, i, off, src).store, v.tab[j], k) ==
      if j == i && off <= k < off + |src| then src[k - off] else ByteAt(v.store, v.tab[j], k)
  {
    hide Addr, Ok;
    var a := v.A(i, SlotOf(off / BSIZE));
    WrittenByte(sb, v, i, SlotOf(off / BSIZE), Patch(v.store[a], off % BSIZE, src), j, k);
  }

  /** `c` with `src` in place from `off`, longer if `src` reaches past its end. */
  function Overlay(c: seq<Byte>, off: nat, src: seq<Byte>): seq<Byte>
    requires off <= |c|
  {
    c[..off] + src + if off + |src| <= |c| then c[off + |src|..] else []
  }

  /** The bytes of an overlay. */
  lemma OverlayAt(c: seq<Byte>, off: nat, src: seq<Byte>)
    requires off <= |c|
    ensures |Overlay(c, off, src)| == if off + |src| > |c| then off + |src| else |c|
    ensures forall k :: 0 <= k < |Overlay(c, off, src)| ==>
      Overlay(c, off, src)[k] == if off <= k < off + |src| then src[k - off] else c[k]
  {
  }

  lemma OverlaySize(c: seq<Byte>, off: nat, src: seq<Byte>)
    requires off <= |c|
    ensures |Overlay(c, off, src)| == Max(|c|, off + |src|)
  {
  }

  lemma OverlayNothing(c: seq<Byte>, off: nat)
    requires off <= |c|
    ensures Overlay(c, off, []) == c
  {
  }

  lemma OverlayTwice(c: seq<Byte>, off: nat, s1: seq<Byte>, s2: seq<Byte>)
    requires off <= |c|
    ensures off + |s1| <= |Overlay(c, off, s1)|
    ensures Overlay(Overlay(c, off, s1), off + |s1|, s2) == Overlay(c, off, s1 + s2)
  {
  }

  lemma PatchedBytes(sb: Super, v: View, i: nat, off: nat, src: seq<Byte>, e: nat)
    requires Ok(sb, v) && i < |v.tab| && off / BSIZE < MAXFILE && 0 < |src| <= BSIZE - off % BSIZE
    requires v.A(i, SlotOf(off / BSIZE)) != 0 && v.A(i, SlotOf(off / BSIZE)) < |v.store|
    requires NoHole(v, i, e) && off <= e
    ensures var e', v' := Max(e, off + |src|), Patched(v, i, off, src);
      && Bytes(v'.store, v.tab[i], e') == Overlay(Bytes(v.store, v.tab[i], e), off, src)
      && NoHole(v, i, e')
  {
    hide ByteAt, View.A, Ok, Patched;
    var e', v' := Max(e, off + |src|), Patched(v, i, off, src);
    forall bn: nat | bn < MAXFILE && bn * BSIZE < e'
      ensures v.A(i, SlotOf(bn)) != 0
    {
      assert bn * BSIZE < e || bn == off / BSIZE;
    }
    forall k: nat | k < e'
      ensures Bytes(v'.store, v.tab[i], e')[k] == Overlay(Bytes(v.store, v.tab[i], e), off, src)[k]
    {
      assert k / BSIZE < MAXFILE && k / BSIZE * BSIZE < e';
      assert v.A(i, SlotOf(k / BSIZE)) != 0;
      PatchedByte(sb, v, i, off, src, i, k);
    }
  }

  ghost predicate SameFile(v: View, v': View, j: nat)
    requires j < |v.tab| == |v'.tab|
  {
    v'.tab[j] == v.tab[j] && Contents(v'.store, v'.tab[j]) == Contents(v.store, v.tab[j])
  }

  /** The files other than `i` are as they were, and of inode `i` only the
      block addresses may differ. */
  ghost predicate Others(v: View, v': View, i: nat) {
    && i < |v.tab| == |v'.tab| && SameButAddrs(v.tab[i], v'.tab[i])
    && forall j: nat :: j < |v.tab| && j != i ==> SameFile(v, v', j)
  }

  lemma GrowsOthers(sb: Super, v: View, v': View, i: nat)
    requires Ok(sb, v) && Ok(sb, v') && Grows(v, v', i)
    ensures Others(v, v', i)
  {
    hide Ok, Contents;
    forall j: nat | j < |v.tab| && j != i
      ensures SameFile(v, v', j)
    {
      GrowsContents(sb, v, v', i, j);
    }
  }

  lemma PatchedOthers(sb: Super, v: View, i: nat, off: nat, src: seq<Byte>)
    requires Ok(sb, v) && i < |v.tab| && off / BSIZE < MAXFILE && off % BSIZE + |src| <= BSIZE
    requires v.A(i, SlotOf(off / BSIZE)) != 0 && v.A(i, SlotOf(off / BSIZE)) < |v.store|
    ensures Ok(sb, Patched(v, i, off, src)) && Others(v, Patched(v, i, off, src), i)
  {
    hide ByteAt, View.A, Referenced, Free;
    var v' := Patched(v, i, off, src);
    WrittenOk(sb, v, i, SlotOf(off / BSIZE), v'.store[v.A(i, SlotOf(off / BSIZE))]);
    forall j: nat | j < |v.tab| && j != i
      ensures SameFile(v, v', j)
    {
      forall k: nat | k < v.tab[j].size
        ensures ByteAt(v'.store, v.tab[j], k) == ByteAt(v.store, v.tab[j], k)
      {
        MappedByte(sb, v, j, k);
        PatchedByte(sb, v, i, off, src, j, k);
      }
    }
  }

  lemma OthersTwice(v0: View, v1: View, v2: View, i: nat)
    requires Others(v0, v1, i) && Others(v1, v2, i)
    ensures Others(v0, v2, i)
  {
    hide Contents;
    forall j: nat | j < |v0.tab| && j != i
      ensures SameFile(v0, v2, j)
    {
      assert SameFile(v0, v1, j) && SameFile(v1, v2, j);
    }
  }

  /** Growth keeps what the blocks of the file hold. */
  lemma GrowsBytes(sb: Super, v: View, v': View, i: nat, e: nat)
    requires Ok(sb, v) && Ok(sb, v') && Grows(v, v', i) && NoHole(v, i, e)
    ensures i < |v'.tab| && NoHole(v', i, e) && Bytes(v'.store, v'.tab[i], e) == Bytes(v.store, v.tab[i], e)
  {
    hide ByteAt, View.A, Ok;
    forall bn: nat | bn < MAXFILE && bn * BSIZE < e
      ensures v'.A(i, SlotOf(bn)) != 0
    {
      assert v.A(i, SlotOf(bn)) != 0;
      GrowsSlot(sb, v, v', i, i, SlotOf(bn));
    }
    forall k: nat | k < e
      ensures ByteAt(v'.store, v'.tab[i], k) == ByteAt(v.store, v.tab[i], k)
    {
      assert k / BSIZE < MAXFILE && k / BSIZE * BSIZE < e;
      assert v.A(i, SlotOf(k / BSIZE)) != 0;
      GrowsByte(sb, v, v', i, i, k);
    }
  }

  /** The block map of inode `i` only gains entries. */
  ghost predicate Keeps(v: View, v': View, i: nat) {
    i < |v.tab| == |v'.tab| &&
    forall s: nat {:trigger v'.A(i, s)} :: s < NSLOTS && v.A(i, s) != 0 ==> v'.A(i, s) == v.A(i, s)
  }

  lemma GrowsKeeps(sb: Super, v: View, v': View, i: nat)
    requires Ok(sb, v) && Ok(sb, v') && Grows(v, v', i)
    ensures Keeps(v, v', i)
  {
    hide View.A, Ok;
    forall s: nat | s < NSLOTS && v.A(i, s) != 0
      ensures v'.A(i, s) == v.A(i, s)
    {
      GrowsSlot(sb, v, v', i, i, s);
    }
  }

  lemma PatchedKeeps(sb: Super, v0: View, v: View, i: nat, off: nat, src: seq<Byte>)
    requires Ok(sb, v) && Keeps(v0, v, i) && off / BSIZE < MAXFILE && off % BSIZE + |src| <= BSIZE
    requires v.A(i, SlotOf(off / BSIZE)) != 0 && v.A(i, SlotOf(off / BSIZE)) < |v.store|
    ensures Keeps(v0, Patched(v, i, off, src), i) && Spare(sb, Patched(v, i, off, src).store) == Spare(sb, v.store)
    ensures forall s: nat {:trigger Patched(v, i, off, src).A(i, s)} :: s < NSLOTS ==>
      Patched(v, i, off, src).A(i, s) == v.A(i, s)
  {
    hide View.A, Referenced, Covered, Free;
    WrittenOk(sb, v, i, SlotOf(off / BSIZE), Patched(v, i, off, src).store[v.A(i, SlotOf(off / BSIZE))]);
    OwnedSlot(sb, v, i, SlotOf(off / BSIZE));
    SameFree(sb, v.store, Patched(v, i, off, src).store);
  }

  /** The blocks in some slots of an inode. */
  ghost function At(v: View, i: nat, slots: set<nat>): set<nat>
    requires i < |v.tab|
  {
    set s | s in slots && s < NSLOTS && v.A(i, s) != 0 :: v.A(i, s)
  }

  lemma AtKeeps(v: View, v': View, i: nat, slots: set<nat>)
    requires Keeps(v, v', i)
    ensures At(v, i, slots) <= At(v', i, slots)
  {
    hide View.A;
    forall b | b in At(v, i, slots)
      ensures b in At(v', i, slots)
    {
      var s :| s in slots && s < NSLOTS && v.A(i, s) == b;
      assert v'.A(i, s) == b;
    }
  }

  /** What writing `chunk` at `off` does to a file whose first `e` bytes are
      mapped. */
  ghost predicate Wrote(v: View, v': View, i: nat, off: nat, chunk: seq<Byte>, e: nat)
    requires off <= e
  {
    var e' := Max(e, off + |chunk|);
    && Others(v, v', i) && Keeps(v, v', i) && NoHole(v', i, e')
    && Bytes(v'.store, v'.tab[i], e') == Overlay(Bytes(v.store, v.tab[i], e), off, chunk)
  }

  lemma WroteNothing(v: View, i: nat, off: nat, e: nat)
    requires i < |v.tab| && NoHole(v, i, e) && off <= e
    ensures Wrote(v, v, i, off, [], e)
  {
    hide ByteAt, View.A;
    assert |Bytes(v.store, v.tab[i], e)| == e;
    assert Overlay(Bytes(v.store, v.tab[i], e), off, []) == Bytes(v.store, v.tab[i], e);
  }

  lemma WroteMore(v0: View, v1: View, v2: View, i: nat, off: nat, s1: seq<Byte>, s2: seq<Byte>, e: nat)
    requires off <= e && Wrote(v0, v1, i, off, s1, e) && Wrote(v1, v2, i, off + |s1|, s2, Max(e, off + |s1|))
    ensures Wrote(v0, v2, i, off, s1 + s2, e)
  {
    hide ByteAt, View.A, Others, NoHole, Overlay;
    OthersTwice(v0, v1, v2, i);
    OverlayTwice(Bytes(v0.store, v0.tab[i], e), off, s1, s2);
  }

  /** The number of blocks that the bytes from `off` up to `end` lie in. */
  function Left(off: nat, end: nat): nat {
    if off >= end then 0 else (end - 1) / BSIZE - off / BSIZE + 1
  }

  lemma LeftStep(off: nat, end: nat)
    requires off < end
    ensures var m := Min(end - off, BSIZE - off % BSIZE);
      m > 0 && Left(off + m, end) == Left(off, end) - 1
  {
    var m := Min(end - off, BSIZE - off % BSIZE);
    if m == BSIZE - off % BSIZE { assert (off + m) / BSIZE == off / BSIZE + 1; }
  }

  /** The slots that a write from `off` up to `end` passes through. */
  ghost function Slots(off: nat, end: nat): (r: set<nat>)
    ensures NDIRECT in r
  {
    {NDIRECT} + set bn: nat {:trigger SlotOf(bn)} | off / BSIZE <= bn < off / BSIZE + Left(off, end) :: SlotOf(bn)
  }

  ghost function Pair(bn: nat): set<nat> {
    {NDIRECT, SlotOf(bn)}
  }

  lemma SizeCovered(sb: Super, v: View, i: nat)
    requires Ok(sb, v) && i < |v.tab|
    ensures NoHole(v, i, v.tab[i].size)
  {
    assert Covered(v, i);
  }

  lemma WroteCovers(v: View, v': View, i: nat, off: nat, src: seq<Byte>, e: nat)
    requires off <= e && Wrote(v, v', i, off, src, e)
    ensures i < |v'.tab| && NoHole(v', i, Max(e, off + |src|))
  {
  }

  lemma WroteKeeps(v: View, v': View, i: nat, off: nat, src: seq<Byte>, e: nat)
    requires off <= e && Wrote(v, v', i, off, src, e)
    ensures Keeps(v, v', i)
  {
  }

  lemma LoggedMore(v: View, v': View, i: nat, off: nat, src: seq<Byte>, e: nat, off0: nat, end: nat)
    requires off <= e && Wrote(v, v', i, off, src, e) && off0 <= off < end
    ensures At(v, i, Slots(off0, end)) <= At(v', i, Slots(off0, end))
    ensures At(v', i, Pair(off / BSIZE)) <= At(v', i, Slots(off0, end))
  {
    hide View.A, Others, NoHole, Overlay, Bytes;
    AtKeeps(v, v', i, Slots(off0, end));
    assert SlotOf(off / BSIZE) in Slots(off0, end);
    assert Pair(off / BSIZE) <= Slots(off0, end);
  }

  ghost function Resized(v: View, i: nat, e: Word): View
    requires i < |v.tab|
  {
    v.(tab := v.tab[i := v.tab[i].(size := e)])
  }

  lemma ResizedOk(sb: Super, v: View, i: nat, e: Word)
    requires Ok(sb, v) && i < |v.tab| && NoHole(v, i, e)
    ensures Ok(sb, Resized(v, i, e))
    ensures forall j: nat {:trigger Resized(v, i, e).tab[j]} :: j < |v.tab| && j != i ==>
      Resized(v, i, e).tab[j] == v.tab[j]
  {
    hide Free;
    var v' := Resized(v, i, e);
    forall j: nat, s: nat {:trigger v'.A(j, s)} | j < |v.tab| && s < NSLOTS
      ensures v'.A(j, s) == v.A(j, s)
    {
    }
    hide View.A;
    forall j: nat | j < |v.tab|
      ensures Covered(v', j)
    {
      assert Covered(v, j);
    }
  }

  lemma ResizedBytes(v: View, i: nat, e: Word)
    requires i < |v.tab|
    ensures Contents(v.store, Resized(v, i, e).tab[i]) == Bytes(v.store, v.tab[i], e)
  {
    forall k: nat | k < e
      ensures ByteAt(v.store, Resized(v, i, e).tab[i], k) == ByteAt(v.store, v.tab[i], k)
    {
    }
  }

  /** A completed write, with the size updated. */
  lemma WroteAll(sb: Super, v: View, v1: View, i: nat, off: nat, src: seq<Byte>, v2: View, slots: set<nat>)
    requires Ok(sb, v1) && i < |v.tab| && off <= v.tab[i].size && off + |src| <= MAXFILE * BSIZE
    requires Wrote(v, v1, i, off, src, v.tab[i].size) && i < |v1.tab|
    requires v2 == Resized(v1, i, Max(v.tab[i].size, off + |src|))
    ensures Ok(sb, v2) && At(v2, i, slots) == At(v1, i, slots) && |v2.tab| == |v.tab|
    ensures v2.A(i, NDIRECT) == v1.A(i, NDIRECT)
    ensures off <= |Contents(v.store, v.tab[i])|
    ensures Contents(v2.store, v2.tab[i]) == Overlay(Contents(v.store, v.tab[i]), off, src)
    ensures forall j: nat {:trigger v2.tab[j]} :: j < |v.tab| && j != i ==>
      v2.tab[j] == v.tab[j] && Contents(v2.store, v.tab[j]) == Contents(v.store, v.tab[j])
  {
    hide ByteAt, Ok, Overlay, NoHole;
    var e := Max(v.tab[i].size, off + |src|);
    ResizedOk(sb, v1, i, e);
    ResizedBytes(v1, i, e);
    assert forall s: nat :: s < NSLOTS ==> v2.A(i, s) == v1.A(i, s);
    forall j: nat | j < |v.tab| && j != i
      ensures v2.tab[j] == v.tab[j] && Contents(v2.store, v.tab[j]) == Contents(v.store, v.tab[j])
    {
      assert SameFile(v, v1, j);
    }
  }

  // ---- the blocks a write has to allocate ----

  function RoundUp(e: nat): nat {
    (e + BSIZE - 1) / BSIZE * BSIZE
  }

  /** How many blocks a file whose first `e` bytes are mapped may still need to
      reach up to `end`, the indirect block included. */
  ghost function Wanted(v: View, i: nat, e: nat, end: nat): nat
    requires i < |v.tab|
  {
    var lim := Min(end, MAXFILE * BSIZE);
    var n := if RoundUp(e) < lim then Left(RoundUp(e), lim) else 0;
    if n > 0 && lim > NDIRECT * BSIZE && v.A(i, NDIRECT) == 0 then n + 1 else n
  }

  /** How many blocks bmap has to allocate. */
  ghost function Need(v: View, i: nat, bn: nat): nat
    requires i < |v.tab| && bn < MAXFILE
  {
    if v.A(i, SlotOf(bn)) != 0 then 0
    else if bn >= NDIRECT && v.A(i, NDIRECT) == 0 then 2 else 1
  }

  lemma LeftPast(off: nat, end: nat)
    requires off < end && off % BSIZE == 0
    ensures Left(off, end) == 1 + (if off + BSIZE < end then Left(off + BSIZE, end) else 0)
  {
  }

  lemma LeftLess(a: nat, b: nat, end: nat)
    requires a <= b < end
    ensures 0 < Left(b, end) <= Left(a, end)
  {
  }

  lemma RoundUpGrows(e: nat, e': nat)
    requires e <= e'
    ensures e <= RoundUp(e) <= RoundUp(e') && RoundUp(e) % BSIZE == 0 && RoundUp(e) < e + BSIZE
  {
  }

  lemma WantedLess(v: View, v': View, i: nat, e: nat, e': nat, end: nat)
    requires Keeps(v, v', i) && e <= e'
    ensures Wanted(v', i, e', end) <= Wanted(v, i, e, end)
  {
    hide View.A, Left, RoundUp;
    RoundUpGrows(e, e');
    var lim := Min(end, MAXFILE * BSIZE);
    if RoundUp(e') < lim { LeftLess(RoundUp(e), RoundUp(e'), lim); }
  }

  /** An empty slot lies right past what is mapped. */
  lemma EmptyIsPast(v: View, i: nat, e: nat, off: nat)
    requires i < |v.tab| && NoHole(v, i, e) && off <= e && off / BSIZE < MAXFILE && v.A(i, SlotOf(off / BSIZE)) == 0
    ensures e == off && off % BSIZE == 0 && RoundUp(e) == e
  {
    hide View.A;
    assert off / BSIZE * BSIZE >= e;
  }

  lemma WantedEnough(v: View, i: nat, e: nat, off: nat, m: nat, end: nat)
    requires i < |v.tab| && NoHole(v, i, e) && off <= e && 0 < m <= BSIZE - off % BSIZE && off + m <= end
    requires off + m <= MAXFILE * BSIZE
    ensures off / BSIZE < MAXFILE && Wanted(v, i, e, end) >= Need(v, i, off / BSIZE)
  {
    hide View.A, Left, NoHole;
    if v.A(i, SlotOf(off / BSIZE)) == 0 {
      EmptyIsPast(v, i, e, off);
      LeftPast(off, Min(end, MAXFILE * BSIZE));
    }
  }

  /** Writing one piece uses up what it needs of what the whole write wants. */
  lemma WantedStep(v: View, v': View, i: nat, e: nat, off: nat, m: nat, end: nat)
    requires i < |v.tab| && NoHole(v, i, e) && off <= e && 0 < m <= BSIZE - off % BSIZE && off + m <= end
    requires off + m <= MAXFILE * BSIZE
    requires Keeps(v, v', i) && (off / BSIZE >= NDIRECT || v.A(i, NDIRECT) != 0 ==> v'.A(i, NDIRECT) != 0)
    ensures off / BSIZE < MAXFILE
    ensures Wanted(v', i, Max(e, off + m), end) <= Wanted(v, i, e, end) - Need(v, i, off / BSIZE)
  {
    hide View.A, Left, NoHole;
    if v.A(i, SlotOf(off / BSIZE)) != 0 {
      WantedLess(v, v', i, e, Max(e, off + m), end);
    } else {
      EmptyIsPast(v, i, e, off);
      LeftPast(off, Min(end, MAXFILE * BSIZE));
      assert RoundUp(off + m) == off + BSIZE;
    }
  }

  lemma WantedSame(v: View, v': View, i: nat, e: nat, end: nat)
    requires i < |v.tab| && i < |v'.tab| && v'.A(i, NDIRECT) == v.A(i, NDIRECT)
    ensures Wanted(v', i, e, end) == Wanted(v, i, e, end)
  {
    hide View.A;
  }

  /** Whether writei writes: not to a device, not past the end, not too much. */
  predicate Accepts(d: Dinode, off: nat, n: nat) {
    d.typ != T_DEV && off <= d.size && off + n <= MAXFILE * BSIZE
  }

  // ---- the blocks a transaction has to log ----

  /** The changes passed to log_write since begin_op, all of operation `op` and
      in the blocks `logged`, turn the disk of then into that of now. */
  ghost predicate InLog(sb: Super, d0: Disk, d: Disk, logged: set<nat>, op: nat, es: seq<Step>) {
    && Sized(sb, d0) && Sized(sb, d) && Exec(sb, d0, es) == d
    && forall e <- es :: e.op == op && Proper(sb, e.act) && BlockOf(sb, e.act) in logged
  }

  lemma InLogMore(sb: Super, d0: Disk, d: Disk, logged: set<nat>, op: nat, es: seq<Step>, a: Act)
    requires InLog(sb, d0, d, logged, op, es) && Proper(sb, a)
    ensures Sized(sb, d) && InLog(sb, d0, Do(sb, d, a), logged + {BlockOf(sb, a)}, op, es + [Step(op, a)])
  {
    hide Do;
    ExecTwice(sb, d0, es, [Step(op, a)]);
    ExecOne(sb, d, Step(op, a));
  }

  lemma InLogNothing(sb: Super, d: Disk, op: nat)
    requires Sized(sb, d)
    ensures InLog(sb, d, d, {}, op, [])
  {
  }

  /** Putting `v` in block `b` is the change `a`. */
  ghost predicate Makes(sb: Super, store: seq<Block>, b: nat, v: Block, a: Act)
    requires b < |store|
  {
    && Proper(sb, a) && b == BlockOf(sb, a)
    && match a
       case Bit(x, on) => v == SetTo(store[b], x % BPB, on)
       case Data(_, v') => v == v'
       case Put(_, _) => false
  }

  // ---- a slot filled ----

  /** Before it: there is a free block to be had. */
  lemma CanTake(sb: Super, v: View)
    requires Ok(sb, v) && Spare(sb, v.store) > 0
    ensures sb.Good() && |v.store| == sb.size && Free(sb, v.store) <= DataBlocks(sb) && Free(sb, v.store) != {}
  {
    hide Referenced, Covered;
  }

  lemma TakenSpare(sb: Super, store: seq<Block>, store': seq<Block>, b: nat)
    requires sb.Good() && |store| == |store'| == sb.size && b in Free(sb, store)
    requires Free(sb, store') == Free(sb, store) - {b}
    ensures Spare(sb, store') == Spare(sb, store) - 1
  {
    hide Free;
  }

  lemma FreeInside(sb: Super, store: seq<Block>, b: nat)
    requires sb.Good() && |store| == sb.size && b in Free(sb, store)
    ensures b < sb.size && !Used(sb, store, b)
  {
  }

  ghost predicate Filled(sb: Super, v: View, v': View, b: nat, i: nat, slot: nat) {
    && Ok(sb, v') && Grows(v, v', i) && slot < NSLOTS && v'.A(i, slot) == b != 0
    && v'.owner == v.owner[b := Ref(i, slot)]
    && forall s: nat :: s < NSLOTS && s != slot ==> v'.A(i, s) == v.A(i, s)
  }

  lemma LinkedFilled(sb: Super, v: View, store': seq<Block>, b: Word, i: nat, slot: nat)
    requires Ok(sb, v) && Fresh(sb, v.store, store', b) && i < |v.tab| && v.tab[i].typ != 0
    requires slot <= NDIRECT && v.A(i, slot) == 0
    ensures Filled(sb, v, Linked(v, store', b, i, slot), b, i, slot)
  {
    hide Referenced, Covered, View.A, Super.Good, DataBlocks, Free, Addr, Grows;
    OneSlotGrows(sb, v, store', b, i, slot);
    LinkedSlots(sb, v, store', b, i, slot);
    ZeroIsMeta(sb);
    OneSlotOk(sb, v, Linked(v, store', b, i, slot), b, i, slot);
  }

  lemma LinkedInFilled(sb: Super, v: View, store': seq<Block>, b: Word, i: nat, slot: nat)
    requires Ok(sb, v) && Fresh(sb, v.store, store', b) && i < |v.tab| && v.tab[i].typ != 0
    requires NDIRECT < slot < NSLOTS && v.A(i, NDIRECT) != 0 && v.A(i, slot) == 0
    ensures var a := v.tab[i].addrs[NDIRECT];
      && a == v.A(i, NDIRECT) && a < |store'| == |v.store| && sb.IsData(a) && a != b
      && a in v.owner && v.owner[a].inum == i
    ensures var v' := LinkedIn(v, store', b, i, slot);
      Filled(sb, v, v', b, i, slot) && Free(sb, v'.store) == Free(sb, v.store) - {b} && IsZero(v'.store[b])
  {
    hide Referenced, Covered, View.A, Super.Good, DataBlocks, Free, Addr, Grows;
    OneSlotGrows(sb, v, store', b, i, slot);
    LinkedInSlots(sb, v, store', b, i, slot);
    LinkedInStore(sb, v, store', b, i, slot);
    OneSlotOk(sb, v, LinkedIn(v, store', b, i, slot), b, i, slot);
    SlotRef(sb, v, i, NDIRECT);
    ZeroIsMeta(sb);
    FreeInside(sb, v.store, b);
    assert LinkedIn(v, store', b, i, slot).store[b] == store'[b];
  }

  // ---- what a write to one file changes ----

  ghost predicate Within(a: Act, owner: map<nat, Ref>, i: nat) {
    match a
    case Bit(b, on) => on && b in owner && owner[b].inum == i
    case Data(b, _) => b in owner && owner[b].inum == i
    case Put(j, _) => j == i
  }

  ghost predicate Extends(owner: map<nat, Ref>, owner': map<nat, Ref>) {
    forall b <- owner :: b in owner' && owner'[b] == owner[b]
  }

  /** Blocks are only gained, and no more is changed than inode `i`, its blocks
      and their bits. */
  ghost predicate Mine(es: seq<Step>, owner0: map<nat, Ref>, owner: map<nat, Ref>, i: nat) {
    Extends(owner0, owner) && forall e <- es :: Within(e.act, owner, i)
  }

  lemma MineTaken(es: seq<Step>, owner0: map<nat, Ref>, v: View, v': View, op: nat, b: nat, blk: Block, i: nat)
    requires Mine(es, owner0, v.owner, i) && Grows(v, v', i) && b in v'.owner && v'.owner[b].inum == i
    ensures Mine(es + [Step(op, Bit(b, true)), Step(op, Data(b, blk))], owner0, v'.owner, i)
  {
  }

  lemma MineData(es: seq<Step>, owner0: map<nat, Ref>, owner: map<nat, Ref>, op: nat, b: nat, blk: Block, i: nat)
    requires Mine(es, owner0, owner, i) && b in owner && owner[b].inum == i
    ensures Mine(es + [Step(op, Data(b, blk))], owner0, owner, i)
  {
  }

  lemma MinePut(es: seq<Step>, owner0: map<nat, Ref>, owner: map<nat, Ref>, op: nat, i: nat, d: Dinode)
    requires Mine(es, owner0, owner, i)
    ensures Mine(es + [Step(op, Put(i, d))], owner0, owner, i)
  {
  }

  lemma SlotRef(sb: Super, v: View, i: nat, s: nat)
    requires Ok(sb, v) && i < |v.tab| && s < NSLOTS && v.A(i, s) != 0
    ensures v.A(i, s) in v.owner && v.owner[v.A(i, s)].inum == i
  {
    hide View.A;
  }

  /** The in-memory copy of an inode. */
  class Inode {
    var inum: nat
    var ref: nat
    var valid: bool
    var d: Dinode

    constructor ()
    {
      inum, ref, valid, d := 0, 0, false, Dinode(0, 0, 0, 0, 0, NOADDRS);
    }
  }

  class Fs {
    const sb: Super
    var store: seq<Block>
    var dinode: seq<Dinode>             // the inode blocks
    ghost var owner: map<nat, Ref>
    ghost var logged: set<nat>          // blocks passed to log_write since begin_op
    ghost var steps: seq<Step>          // and what was changed in them
    ghost var op: nat                   // the operation that logs
    ghost var store0: seq<Block>        // the state at begin_op
    ghost var dinode0: seq<Dinode>
    ghost var owner0: map<nat, Ref>

    /** A file system that is in order, as mkfs makes it, with nothing logged. */
    constructor (sb: Super, store: seq<Block>, dinode: seq<Dinode>, ghost owner: map<nat, Ref>)
      requires Ok(sb, View(store, dinode, owner))
      ensures this.sb == sb && this.store == store && this.dinode == dinode && this.owner == owner
      ensures logged == {} && Journaled()
    {
      hide Free, DataBlocks, Referenced, Covered, InLog;
      InLogNothing(sb, Disk(store, dinode), 0);
      this.sb, this.store, this.dinode, this.owner := sb, store, dinode, owner;
      logged, steps, op, store0, dinode0, owner0 := {}, [], 0, store, dinode, owner;
    }

    /** begin_op: nothing has been logged. */
    ghost method BeginOp()
      requires sb.Good() && |store| == sb.size && |dinode| == sb.ninodes
      modifies `logged, `steps, `op, `store0, `dinode0, `owner0
      ensures Journaled() && logged == {} && steps == [] && op == old(op) + 1
      ensures store0 == store && dinode0 == dinode && owner0 == owner && forall i: nat :: Writing(i)
    {
      hide InLog;
      InLogNothing(sb, Disk(store, dinode), op + 1);
      logged, steps, op, store0, dinode0, owner0 := {}, [], op + 1, store, dinode, owner;
    }

    /** The file system as seen through the locked inode `ip`. */
    ghost function V(ip: Inode): View
      requires ip.inum < |dinode|
      reads `store, `dinode, `owner, ip`inum, ip`d
    {
      View(store, dinode[ip.inum := ip.d], owner)
    }

    ghost predicate Valid(ip: Inode)
      reads `store, `dinode, `owner, ip`inum, ip`d
    {
      ip.inum < |dinode| && Ok(sb, V(ip)) && ip.d.typ != 0
    }

    /** Every change since begin_op has gone through log_write. */
    ghost predicate Journaled()
      reads `store, `dinode, `logged, `op, `steps, `store0, `dinode0
    {
      InLog(sb, Disk(store0, dinode0), Disk(store, dinode), logged, op, steps)
    }

    /** Only inode `i` and its blocks have been changed since begin_op. */
    ghost predicate Writing(i: nat)
      reads `steps, `owner, `owner0
    {
      Mine(steps, owner0, owner, i)
    }

    /** Changing a buffer and log_write. */
    method LogWrite(b: nat, v: Block, ghost a: Act)
      requires sb.Good() && |store| == sb.size && b < |store| && Makes(sb, store, b, v, a)
      modifies `store, `logged, `steps
      ensures store == old(store)[b := v] && logged == old(logged) + {b} && steps == old(steps) + [Step(op, a)]
      ensures old(Journaled()) ==> Journaled()
    {
      hide InLog, SetTo;
      if Journaled() { InLogMore(sb, Disk(store0, dinode0), Disk(store, dinode), logged, op, steps, a); }
      store := store[b := v];
      logged, steps := logged + {b}, steps + [Step(op, a)];
    }

    /** The scan of balloc, a bitmap block at a time. */
    method FirstFree() returns (b: Word)
      requires sb.Good() && |store| == sb.size && Free(sb, store) != {}
      ensures b in Free(sb, store) && forall x <- Free(sb, store) :: b <= x
    {
      hide UsedIn, Used;
      var base := 0;
      while base < sb.size
        invariant base % BPB == 0 && forall x: nat :: x < base && x < sb.size ==> Used(sb, store, x)
      {
        var bi := 0;
        while bi < BPB && base + bi < sb.size
          invariant bi <= BPB && forall x: nat :: x < base + bi && x < sb.size ==> Used(sb, store, x)
        {
          UsedAt(sb, store, base, bi);
          if !UsedIn(store[sb.BBlock(base)], bi) { return base + bi; }
          bi := bi + 1;
        }
        base := base + BPB;
      }
      assert false;
    }

    /** balloc: the lowest free block, marked in use and zeroed. */
    method Balloc() returns (b: Word)
      requires sb.Good() && |store| == sb.size && Free(sb, store) <= DataBlocks(sb)
      requires Free(sb, store) != {}
      modifies `store, `logged, `steps
      ensures Fresh(sb, old(store), store, b) && sb.IsData(b) && sb.BBlock(b) in sb.Bitmap()
      ensures forall x <- Free(sb, old(store)) :: b <= x
      ensures logged == old(logged) + {sb.BBlock(b), b}
      ensures steps == old(steps) + [Step(op, Bit(b, true)), Step(op, Data(b, store[b]))]
      ensures old(Journaled()) ==> Journaled()
    {
      hide Used, Fresh, Free, InLog;
      b := FirstFree();
      FreeInside(sb, store, b);
      Take(b);
    }

    /** Marking a free block in use and zeroing it. */
    method Take(b: nat)
      requires sb.Good() && |store| == sb.size && Free(sb, store) <= DataBlocks(sb)
      requires b < sb.size && !Used(sb, store, b)
      modifies `store, `logged, `steps
      ensures Fresh(sb, old(store), store, b) && sb.IsData(b) && sb.BBlock(b) in sb.Bitmap()
      ensures logged == old(logged) + {sb.BBlock(b), b}
      ensures steps == old(steps) + [Step(op, Bit(b, true)), Step(op, Data(b, store[b]))]
      ensures old(Journaled()) ==> Journaled()
    {
      hide Used, InLog;
      var bb := sb.BBlock(b);
      assert b in Free(sb, store) && b in DataBlocks(sb);
      MarkFree(sb, store, b);
      LogWrite(bb, Mark(store[bb], b % BPB), Bit(b, true));
      Bzero(b);
    }

    method Bzero(b: nat)
      requires sb.Good() && |store| == sb.size && sb.IsData(b)
      modifies `store, `logged, `steps
      ensures |store| == sb.size && IsZero(store[b])
      ensures forall x: nat :: x < sb.size && x != b ==> store[x] == old(store)[x]
      ensures Free(sb, store) == Free(sb, old(store)) && logged == old(logged) + {b}
      ensures steps == old(steps) + [Step(op, Data(b, store[b]))]
      ensures old(Journaled()) ==> Journaled()
    {
      hide UsedIn, InLog;
      var v: Block := ZERO;
      LogWrite(b, v, Data(b, v));
    }

    /** bfree. Freeing a free block panics. */
    method Bfree(b: nat)
      requires sb.Good() && |store| == sb.size && sb.IsData(b)
      requires b !in Free(sb, store)
      modifies `store, `logged, `steps
      ensures |store| == sb.size && Free(sb, store) == Free(sb, old(store)) + {b}
      ensures forall x: nat :: sb.IsData(x) ==> store[x] == old(store)[x]
      ensures logged == old(logged) + {sb.BBlock(b)} && steps == old(steps) + [Step(op, Bit(b, false))]
      ensures old(Journaled()) ==> Journaled()
    {
      hide InLog;
      var bb := sb.BBlock(b);
      MarkFree(sb, store, b);
      LogWrite(bb, Unmark(store[bb], b % BPB), Bit(b, false));
    }

    /** The blocks that log_write sees when the slot is filled. */
    ghost function Touched(ip: Inode, slot: nat): set<nat>
      requires ip.inum < |dinode| && slot < NSLOTS
      reads `store, `dinode, `owner, ip`inum, ip`d
    {
      sb.Bitmap() + {V(ip).A(ip.inum, slot)} + (if slot > NDIRECT then {V(ip).A(ip.inum, NDIRECT)} else {})
    }

    /** ip->addrs[slot] = balloc() */
    method Grab(ip: Inode, slot: nat) returns (b: Word)
      requires Valid(ip) && slot <= NDIRECT && V(ip).A(ip.inum, slot) == 0 && Spare(sb, store) > 0
      modifies `store, `owner, `logged, `steps, ip`d
      ensures Valid(ip) && Grows(old(V(ip)), V(ip), ip.inum) && V(ip).A(ip.inum, slot) == b != 0
      ensures b in old(Free(sb, store)) && Free(sb, store) == old(Free(sb, store)) - {b}
      ensures Spare(sb, store) == old(Spare(sb, store)) - 1 && owner.Keys == old(owner.Keys) + {b}
      ensures IsZero(store[b]) && logged <= old(logged) + Touched(ip, slot)
      ensures forall s :: 0 <= s < NSLOTS && s != slot ==> V(ip).A(ip.inum, s) == old(V(ip)).A(ip.inum, s)
      ensures old(Journaled()) ==> Journaled()
      ensures old(Writing(ip.inum)) ==> Writing(ip.inum)
    {
      hide Mine, Within, Ok, Free, Spare, DataBlocks, Super.Good, View.A, Addr, Grows, InLog, Super.Bitmap;
      ghost var v := V(ip);
      CanTake(sb, v);
      b := Balloc();
      LinkedFilled(sb, v, store, b, ip.inum, slot);
      TakenSpare(sb, v.store, store, b);
      ip.d := WithAddr(ip.d, slot, b);
      owner := owner[b := Ref(ip.inum, slot)];
      assert V(ip) == Linked(v, store, b, ip.inum, slot);
      if old(Writing(ip.inum)) { MineTaken(old(steps), owner0, v, V(ip), op, b, store[b], ip.inum); }
    }

    /** a[bn] = balloc() in the indirect block */
    method GrabIn(ip: Inode, slot: nat) returns (b: Word)
      requires Valid(ip) && NDIRECT < slot < NSLOTS && V(ip).A(ip.inum, slot) == 0 && Spare(sb, store) > 0
      requires V(ip).A(ip.inum, NDIRECT) != 0
      modifies `store, `owner, `logged, `steps
      ensures Valid(ip) && Grows(old(V(ip)), V(ip), ip.inum) && V(ip).A(ip.inum, slot) == b != 0
      ensures b in old(Free(sb, store)) && Free(sb, store) == old(Free(sb, store)) - {b}
      ensures Spare(sb, store) == old(Spare(sb, store)) - 1 && owner.Keys == old(owner.Keys) + {b}
      ensures IsZero(store[b]) && logged <= old(logged) + Touched(ip, slot)
      ensures forall s :: 0 <= s < NSLOTS && s != slot ==> V(ip).A(ip.inum, s) == old(V(ip)).A(ip.inum, s)
      ensures old(Journaled()) ==> Journaled()
      ensures old(Writing(ip.inum)) ==> Writing(ip.inum)
    {
      hide Mine, Within, Ok, Free, Spare, DataBlocks, Super.Good, View.A, Addr, Grows, InLog, Super.Bitmap, SetWord;
      ghost var v := V(ip);
      CanTake(sb, v);
      b := Balloc();
      ghost var s1, es := store, steps;
      LinkedInFilled(sb, v, s1, b, ip.inum, slot);
      var a := ip.d.addrs[NDIRECT];
      var blk := SetWord(store[a], slot - NDIRECT - 1, b);
      LogWrite(a, blk, Data(a, blk));
      owner := owner[b := Ref(ip.inum, slot)];
      assert V(ip) == LinkedIn(v, s1, b, ip.inum, slot);
      TakenSpare(sb, v.store, store, b);
      if old(Writing(ip.inum)) {
        MineTaken(old(steps), owner0, v, V(ip), op, b, s1[b], ip.inum);
        MineData(es, owner0, owner, op, a, blk, ip.inum);
      }
    }

    /** bmap: the block that holds block `bn` of the file, allocated if there
        is none, and the indirect block with it. */
    method Bmap(ip: Inode, bn: nat) returns (addr: Word)
      requires Valid(ip) && bn < MAXFILE
      requires Spare(sb, store) >= Need(V(ip), ip.inum, bn)
      modifies `store, `owner, `logged, `steps, ip`d
      ensures Valid(ip) && Grows(old(V(ip)), V(ip), ip.inum)
      ensures addr == V(ip).A(ip.inum, SlotOf(bn)) != 0
      ensures bn < 12 ==> addr == ip.d.addrs[bn]
      ensures bn >= 12 ==> ip.d.addrs[12] < |store| && addr == GetWord(store[ip.d.addrs[12]], bn - 12)
      ensures old(V(ip).A(ip.inum, SlotOf(bn))) != 0 ==>
        store == old(store) && ip.d == old(ip.d) && owner == old(owner) && logged == old(logged) && steps == old(steps)
      ensures old(V(ip).A(ip.inum, SlotOf(bn))) == 0 ==> addr in old(Free(sb, store)) && IsZero(store[addr])
      ensures logged <= old(logged) + Touched(ip, SlotOf(bn))
      ensures Spare(sb, store) >= old(Spare(sb, store) - Need(V(ip), ip.inum, bn))
      ensures bn >= NDIRECT ==> V(ip).A(ip.inum, NDIRECT) != 0
      ensures old(Journaled()) ==> Journaled()
      ensures old(Writing(ip.inum)) ==> Writing(ip.inum)
    {
      hide Mine, Within, InLog, Ok, Super.Good, Super.Bitmap, Free, Spare, GetWord, Grows;
      ghost var v := V(ip);
      GrowsSelf(v, ip.inum);
      if bn < NDIRECT {
        addr := BmapDirect(ip, bn);
      } else {
        var _ := BmapDirect(ip, NDIRECT);
        ghost var v1 := V(ip);
        addr := BmapIndirect(ip, bn - NDIRECT);
        GrowsTwice(v, v1, V(ip), ip.inum);
      }
      AddressAt(sb, V(ip), ip.inum, bn);
    }

    /** An address kept in the inode itself, filled if it is empty. */
    method BmapDirect(ip: Inode, slot: nat) returns (addr: Word)
      requires Valid(ip) && slot <= NDIRECT
      requires V(ip).A(ip.inum, slot) != 0 || Spare(sb, store) > 0
      modifies `store, `owner, `logged, `steps, ip`d
      ensures Valid(ip) && Grows(old(V(ip)), V(ip), ip.inum)
      ensures addr == V(ip).A(ip.inum, slot) != 0
      ensures old(V(ip).A(ip.inum, slot)) != 0 ==>
        store == old(store) && ip.d == old(ip.d) && owner == old(owner) && logged == old(logged) && steps == old(steps)
      ensures old(V(ip).A(ip.inum, slot)) == 0 ==> addr in old(Free(sb, store)) && IsZero(store[addr])
      ensures logged <= old(logged) + Touched(ip, slot)
      ensures Free(sb, store) <= old(Free(sb, store))
      ensures Spare(sb, store) >= old(Spare(sb, store)) - (if old(V(ip).A(ip.inum, slot)) == 0 then 1 else 0)
      ensures forall s :: 0 <= s < NSLOTS && s != slot ==> V(ip).A(ip.inum, s) == old(V(ip)).A(ip.inum, s)
      ensures old(Journaled()) ==> Journaled()
      ensures old(Writing(ip.inum)) ==> Writing(ip.inum)
    {
      hide Mine, Within, InLog, Ok, Super.Good, Super.Bitmap, Free, Spare, GetWord, Grows;
      GrowsSelf(V(ip), ip.inum);
      addr := ip.d.addrs[slot];
      if addr == 0 { addr := Grab(ip, slot); }
    }

    /** The indirect block is loaded; entry `k` is filled if it is empty. */
    method BmapIndirect(ip: Inode, k: nat) returns (addr: Word)
      requires Valid(ip) && k < NINDIRECT && V(ip).A(ip.inum, NDIRECT) != 0
      requires V(ip).A(ip.inum, NDIRECT + 1 + k) != 0 || Spare(sb, store) > 0
      modifies `store, `owner, `logged, `steps
      ensures Valid(ip) && Grows(old(V(ip)), V(ip), ip.inum)
      ensures addr == V(ip).A(ip.inum, NDIRECT + 1 + k) != 0
      ensures old(V(ip).A(ip.inum, NDIRECT + 1 + k)) != 0 ==>
        store == old(store) && owner == old(owner) && logged == old(logged) && steps == old(steps)
      ensures old(V(ip).A(ip.inum, NDIRECT + 1 + k)) == 0 ==> addr in old(Free(sb, store)) && IsZero(store[addr])
      ensures logged <= old(logged) + Touched(ip, NDIRECT + 1 + k)
      ensures Spare(sb, store) >= old(Spare(sb, store)) - 1
      ensures old(Journaled()) ==> Journaled()
      ensures old(Writing(ip.inum)) ==> Writing(ip.inum)
    {
      hide Mine, Within, InLog, Ok, Super.Good, Super.Bitmap, Free, Spare, GetWord, Grows;
      ghost var v := V(ip);
      GrowsSelf(v, ip.inum);
      OwnedSlot(sb, v, ip.inum, NDIRECT);
      addr := GetWord(store[ip.d.addrs[NDIRECT]], k);
      if addr == 0 { addr := GrabIn(ip, NDIRECT + 1 + k); }
    }

    /** readi: the bytes of the file from `off`, at most `n` of them; -1 past
        the end. Nothing is allocated on the way. For a device `driver` is what
        its read routine returns, if it has one. */
    method Readi(ip: Inode, off0: Word, n0: Word, driver: Option<(int, seq<Byte>)>) returns (r: int, dst: seq<Byte>)
      requires Valid(ip)
      modifies `store, `owner, `logged, `steps, ip`d
      ensures store == old(store) && owner == old(owner) && logged == old(logged) && steps == old(steps)
      ensures ip.d == old(ip.d)
      ensures ip.d.typ == 3 && 0 <= ip.d.major < 10 && driver.Some? ==> (r, dst) == driver.value
      ensures ip.d.typ == 3 && (ip.d.major < 0 || ip.d.major >= 10 || driver.None?) ==> r == -1 && dst == []
      ensures ip.d.typ != T_DEV ==> (r == -1 <==> off0 > ip.d.size || off0 + n0 >= UINT)
      ensures ip.d.typ != T_DEV && r == -1 ==> dst == []
      ensures ip.d.typ != T_DEV && r != -1 ==>
        r == |dst| && dst == Contents(store, ip.d)[off0..Min(off0 + n0, ip.d.size)]
    {
      hide Ok, Free, Spare, Grows, Contents, Addr, View.A, GetWord;
      dst := [];
      if ip.d.typ == T_DEV {
        if ip.d.major < 0 || ip.d.major >= NDEV || driver.None? { return -1, []; }
        return driver.value.0, driver.value.1;
      }
      if off0 > ip.d.size || (off0 + n0) % UINT < off0 { return -1, []; }
      var n := n0;
      if off0 + n > ip.d.size { n := ip.d.size - off0; }
      ghost var c := Contents(store, ip.d);
      ContentsSize(store, ip.d);
      var tot, off := 0, off0;
      while tot < n
        invariant tot <= n && off == off0 + tot && off0 + n <= ip.d.size
        invariant store == old(store) && owner == old(owner) && logged == old(logged) && steps == old(steps)
        invariant ip.d == old(ip.d)
        invariant dst == c[off0..off]
      {
        var m := Min(n - tot, BSIZE - off % BSIZE);
        var chunk := ReadPiece(ip, off, m);
        SliceMore(c, off0, off, m);
        dst := dst + chunk;
        tot, off := tot + m, off + m;
      }
      return n, dst;
    }

    /** One round of the loop of readi: `m` bytes that lie within one block. */
    method ReadPiece(ip: Inode, off: nat, m: nat) returns (chunk: seq<Byte>)
      requires Valid(ip) && 0 < m <= BSIZE - off % BSIZE && off + m <= ip.d.size
      modifies `store, `owner, `logged, `steps, ip`d
      ensures store == old(store) && owner == old(owner) && logged == old(logged) && steps == old(steps)
      ensures ip.d == old(ip.d) && |Contents(store, ip.d)| == ip.d.size
      ensures chunk == Contents(store, ip.d)[off..off + m]
    {
      hide Ok, Free, Spare, Grows, Contents, Addr, View.A, GetWord;
      ContentsSize(store, ip.d);
      ReadChunk(sb, V(ip), ip.inum, off, m);
      var o := off % BSIZE;
      var addr := Bmap(ip, off / BSIZE);
      return store[addr][o..o + m];
    }

    /** One round of the loop of writei: `chunk` lies within one block. */
    method WriteChunk(ip: Inode, off: nat, chunk: seq<Byte>, ghost e: nat)
      requires Valid(ip) && off / BSIZE < MAXFILE && 0 < |chunk| <= BSIZE - off % BSIZE
      requires NoHole(V(ip), ip.inum, e) && off <= e
      requires Spare(sb, store) >= Need(V(ip), ip.inum, off / BSIZE)
      modifies `store, `owner, `logged, `steps, ip`d
      ensures Valid(ip) && Wrote(old(V(ip)), V(ip), ip.inum, off, chunk, e)
      ensures off / BSIZE * BSIZE < e ==> ip.d == old(ip.d) && owner == old(owner)
      ensures off / BSIZE >= NDIRECT || old(V(ip).A(ip.inum, NDIRECT)) != 0 ==> V(ip).A(ip.inum, NDIRECT) != 0
      ensures logged <= old(logged) + sb.Bitmap() + At(V(ip), ip.inum, Pair(off / BSIZE))
      ensures Spare(sb, store) >= old(Spare(sb, store) - Need(V(ip), ip.inum, off / BSIZE))
      ensures old(Journaled()) ==> Journaled()
      ensures old(Writing(ip.inum)) ==> Writing(ip.inum)
    {
      hide Mine, Within, InLog, Ok, Free, Spare, Grows, ByteAt, View.A, Others, Super.Bitmap, Patch, Overlay, Bytes;
      ghost var v := V(ip);
      var addr := Bmap(ip, off / BSIZE);
      ghost var v1 := V(ip);
      GrowsBytes(sb, v, v1, ip.inum, e);
      GrowsOthers(sb, v, v1, ip.inum);
      GrowsKeeps(sb, v, v1, ip.inum);
      OwnedSlot(sb, v1, ip.inum, SlotOf(off / BSIZE));
      PatchedBytes(sb, v1, ip.inum, off, chunk, e);
      PatchedOthers(sb, v1, ip.inum, off, chunk);
      PatchedKeeps(sb, v, v1, ip.inum, off, chunk);
      OkSizes(sb, v1);
      SlotRef(sb, v1, ip.inum, SlotOf(off / BSIZE));
      ghost var es := steps;
      var blk := Patch(store[addr], off % BSIZE, chunk);
      LogWrite(addr, blk, Data(addr, blk));
      if old(Writing(ip.inum)) { MineData(es, owner0, owner, op, addr, blk, ip.inum); }
      assert V(ip) == Patched(v1, ip.inum, off, chunk);
      OthersTwice(v, v1, V(ip), ip.inum);
    }

    /** An inode is copied into its block, as read, and the block logged. */
    method PutInode(i: nat, d: Dinode)
      requires sb.Good() && |store| == sb.size && |dinode| == sb.ninodes && i < |dinode|
      modifies `dinode, `logged, `steps
      ensures dinode == old(dinode)[i := d] && logged == old(logged) + {sb.IBlock(i)}
      ensures steps == old(steps) + [Step(op, Put(i, d))]
      ensures old(Journaled()) ==> Journaled()
    {
      hide InLog;
      if Journaled() { InLogMore(sb, Disk(store0, dinode0), Disk(store, dinode), logged, op, steps, Put(i, d)); }
      dinode := dinode[i := d];
      logged, steps := logged + {sb.IBlock(i)}, steps + [Step(op, Put(i, d))];
    }

    /** iupdate: the in-memory inode goes to disk. */
    method Iupdate(ip: Inode)
      requires sb.Good() && |store| == sb.size && |dinode| == sb.ninodes && ip.inum < |dinode|
      modifies `dinode, `logged, `steps
      ensures dinode == old(dinode)[ip.inum := ip.d] && logged == old(logged) + {sb.IBlock(ip.inum)}
      ensures steps == old(steps) + [Step(op, Put(ip.inum, ip.d))]
      ensures old(Journaled()) ==> Journaled()
    {
      hide InLog, Super.Good;
      PutInode(ip.inum, ip.d);
    }

    /** The loop of writei. `lim` is how far the caller wants to write in all. */
    method WriteLoop(ip: Inode, src: seq<Byte>, off0: nat, ghost lim: nat)
      requires Valid(ip) && off0 <= ip.d.size && off0 + |src| <= MAXFILE * BSIZE
      requires off0 + |src| <= lim && Spare(sb, store) >= Wanted(V(ip), ip.inum, ip.d.size, lim)
      modifies `store, `owner, `logged, `steps, ip`d
      ensures Valid(ip) && Spare(sb, store) >= Wanted(V(ip), ip.inum, Max(old(ip.d.size), off0 + |src|), lim)
      ensures Wrote(old(V(ip)), V(ip), ip.inum, off0, src, old(ip.d.size))
      ensures off0 + |src| <= old(ip.d.size) ==> ip.d == old(ip.d) && owner == old(owner)
      ensures logged <= old(logged) + sb.Bitmap() + At(V(ip), ip.inum, Slots(off0, off0 + |src|))
      ensures old(Journaled()) ==> Journaled()
      ensures old(Writing(ip.inum)) ==> Writing(ip.inum)
    {
      hide Mine, Within, InLog, Ok, Free, Spare, Wrote, Super.Bitmap, At, Patch, Slots, Pair, View.A, Wanted, Need,
        Keeps;
      ghost var v, size := V(ip), ip.d.size;
      ghost var slots := Slots(off0, off0 + |src|);
      SizeCovered(sb, v, ip.inum);
      WroteNothing(v, ip.inum, off0, size);
      assert src[..0] == [];
      var tot, off, n := 0, off0, |src|;
      while tot < n
        invariant tot <= n && off == off0 + tot
        invariant Valid(ip) && Wrote(v, V(ip), ip.inum, off0, src[..tot], size)
        invariant off0 + n <= size ==> ip.d == old(ip.d) && owner == old(owner)
        invariant logged <= old(logged) + sb.Bitmap() + At(V(ip), ip.inum, slots)
        invariant Spare(sb, store) >= Wanted(V(ip), ip.inum, Max(size, off), lim)
        invariant old(Journaled()) ==> Journaled()
        invariant old(Writing(ip.inum)) ==> Writing(ip.inum)
      {
        var m := Min(n - tot, BSIZE - off % BSIZE);
        LeftStep(off, off0 + n);
        ghost var v1 := V(ip);
        WroteCovers(v, v1, ip.inum, off0, src[..tot], size);
        WantedEnough(v1, ip.inum, Max(size, off), off, m, lim);
        WriteChunk(ip, off, src[tot..tot + m], Max(size, off));
        WroteMore(v, v1, V(ip), ip.inum, off0, src[..tot], src[tot..tot + m], size);
        WroteKeeps(v1, V(ip), ip.inum, off, src[tot..tot + m], Max(size, off));
        WantedStep(v1, V(ip), ip.inum, Max(size, off), off, m, lim);
        assert src[..tot] + src[tot..tot + m] == src[..tot + m];
        LoggedMore(v1, V(ip), ip.inum, off, src[tot..tot + m], Max(size, off), off0, off0 + n);
        tot, off := tot + m, off + m;
      }
      assert src[..n] == src;
    }

    /** writei: `src` in place from `off0`, at the end or past it if it reaches
        that far; -1, and nothing done, if `off0` lies past the end or the file
        would get too big. For a device `driver` is what its write routine
        returns, if it has one. */
    method Writei(ip: Inode, src: seq<Byte>, off0: Word, driver: Option<int>, ghost lim: nat) returns (r: int)
      requires Valid(ip) && |src| < UINT
      requires dinode[ip.inum] == ip.d
      requires Accepts(ip.d, off0, |src|) ==>
        off0 + |src| <= lim && Spare(sb, store) >= Wanted(V(ip), ip.inum, ip.d.size, lim)
      modifies `store, `dinode, `owner, `logged, `steps, ip`d
      ensures Valid(ip)
      ensures old(Accepts(ip.d, off0, |src|)) ==> Spare(sb, store) >= Wanted(V(ip), ip.inum, ip.d.size, lim)
      ensures |dinode| == old(|dinode|) && dinode[ip.inum] == ip.d
      ensures !old(Accepts(ip.d, off0, |src|)) ==>
        V(ip) == old(V(ip)) && dinode == old(dinode) && logged == old(logged) && steps == old(steps)
      ensures ip.d.typ == 3 && 0 <= ip.d.major < 10 && driver.Some? ==> r == driver.value && store == old(store)
      ensures ip.d.typ == 3 && (ip.d.major < 0 || ip.d.major >= 10 || driver.None?) ==> r == -1 && store == old(store)
      ensures ip.d.typ != 3 && (off0 > old(ip.d.size) || off0 + |src| > 140 * 512) ==> r == -1 && store == old(store)
      ensures ip.d.typ != 3 && off0 <= old(ip.d.size) && off0 + |src| <= 140 * 512 ==>
        r == |src| && |Contents(store, ip.d)| == Max(|old(Contents(store, ip.d))|, off0 + |src|)
      ensures ip.d.typ != 3 && off0 <= old(ip.d.size) && off0 + |src| <= 140 * 512 ==>
        forall k :: 0 <= k < |Contents(store, ip.d)| && !(off0 <= k < off0 + |src|) ==>
          k < |old(Contents(store, ip.d))| && Contents(store, ip.d)[k] == old(Contents(store, ip.d))[k]
      ensures ip.d.typ != 3 && off0 <= old(ip.d.size) && off0 + |src| <= 140 * 512 ==>
        forall k :: 0 <= k < |src| ==> off0 + k < |Contents(store, ip.d)| && Contents(store, ip.d)[off0 + k] == src[k]
      ensures old(Accepts(ip.d, off0, |src|)) ==> r == |src| && off0 <= |old(Contents(store, ip.d))|
      ensures old(Accepts(ip.d, off0, |src|)) ==>
        Contents(store, ip.d) == Overlay(old(Contents(store, ip.d)), off0, src)
      ensures forall j: nat :: j < |dinode| && j != ip.inum ==> dinode[j] == old(dinode)[j]
      ensures forall j: nat :: j < |dinode| && j != ip.inum ==>
        Contents(store, dinode[j]) == old(Contents(store, dinode[j]))
      ensures ip.d == old(ip.d).(size := ip.d.size, addrs := ip.d.addrs)
      ensures logged <= old(logged) + sb.Bitmap() + At(V(ip), ip.inum, Slots(off0, off0 + |src|)) + {sb.IBlock(ip.inum)}
      ensures old(Journaled()) ==> Journaled()
      ensures old(Writing(ip.inum)) ==> Writing(ip.inum)
    {
      hide Mine, Within, InLog, Ok, Free, Spare, Super.Bitmap, At, Slots, View.A, Contents, NoHole, Overlay, Wanted;
      if ip.d.typ == T_DEV {
        if ip.d.major < 0 || ip.d.major >= NDEV || driver.None? { return -1; }
        return driver.value;
      }
      var n := |src|;
      if off0 > ip.d.size || (off0 + n) % UINT < off0 { return -1; }
      if off0 + n > MAXFILE * BSIZE { return -1; }
      ghost var v := V(ip);
      WriteLoop(ip, src, off0, lim);
      ghost var v1 := V(ip);
      var off := off0 + n;
      if n > 0 && off > ip.d.size {
        OkSizes(sb, v1);
        ip.d := ip.d.(size := off);
        ghost var es := steps;
        Iupdate(ip);
        if old(Writing(ip.inum)) { MinePut(es, owner0, owner, op, ip.inum, ip.d); }
      }
      WroteAll(sb, v, v1, ip.inum, off0, src, V(ip), Slots(off0, off0 + |src|));
      WantedSame(v1, V(ip), ip.inum, ip.d.size, lim);
      forall j: nat | j < |dinode| && j != ip.inum
        ensures dinode[j] == old(dinode)[j] && Contents(store, dinode[j]) == old(Contents(store, dinode[j]))
      {
        assert V(ip).tab[j] == dinode[j] && v.tab[j] == old(dinode)[j];
      }
      ContentsSize(v.store, v.tab[ip.inum]);
      OverlayAt(Contents(v.store, v.tab[ip.inum]), off0, src);
      return n;
    }
  }
}
