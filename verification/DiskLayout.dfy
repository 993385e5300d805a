/** Where things lie on the disk, and the disk as bytes: inodes packed eight to
    a block beside the bitmap and the data. */
module DiskLayout {
  import opened Blocks
  import opened Dinodes
  import opened Params

  const BPB := BSIZE * 8

  datatype Super = Super(size: nat, ninodes: nat, inodestart: nat, bmapstart: nat)
  {
    /** The blocks before the data blocks. */
    function Meta(): nat { bmapstart + size / BPB + 1 }

    /** The layout that mkfs computes. */
    ghost predicate Good() {
      0 < inodestart && inodestart + ninodes / IPB < bmapstart && Meta() <= size < UINT
    }

    predicate IsData(b: nat) { Meta() <= b < size }

    predicate IsBitmap(x: nat) { bmapstart <= x < Meta() }

    ghost function Bitmap(): set<nat> {
      set x: nat | x < Meta() && IsBitmap(x)
    }

    function BBlock(b: nat): nat { b / BPB + bmapstart }

    function IBlock(i: nat): nat { i / IPB + inodestart }
  }

  // ---- inodes in their blocks ----

  lemma InodeBlock(sb: Super, i: nat)
    requires sb.Good() && i < sb.ninodes
    ensures sb.inodestart <= sb.IBlock(i) < sb.bmapstart < sb.size
  {
  }

  lemma SamePlace(sb: Super, i: nat, j: nat)
    ensures sb.IBlock(i) == sb.IBlock(j) && i % IPB == j % IPB ==> i == j
  {
  }

  /** The first `n` inodes of the table stored in their blocks. */
  ghost function Image(sb: Super, store: seq<Block>, tab: seq<Dinode>, n: nat): (r: seq<Block>)
    requires sb.Good() && |store| == sb.size && |tab| == sb.ninodes && n <= |tab|
    ensures |r| == |store|
  {
    if n == 0 then store
    else
      var r := Image(sb, store, tab, n - 1);
      InodeBlock(sb, n - 1);
      r[sb.IBlock(n - 1) := Pack(r[sb.IBlock(n - 1)], (n - 1) % IPB, tab[n - 1])]
  }

  function InodeAt(sb: Super, disk: seq<Block>, i: nat): Dinode
    requires sb.IBlock(i) < |disk|
  {
    Unpack(disk[sb.IBlock(i)], i % IPB)
  }

  /** The inode table that a disk holds. */
  function TabOf(sb: Super, disk: seq<Block>): (t: seq<Dinode>)
    requires sb.Good() && |disk| == sb.size
    ensures |t| == sb.ninodes
  {
    seq(sb.ninodes, i requires 0 <= i < sb.ninodes => (InodeBlock(sb, i); InodeAt(sb, disk, i)))
  }

  lemma {:induction false} ImageInode(sb: Super, store: seq<Block>, tab: seq<Dinode>, n: nat, i: nat)
    requires sb.Good() && |store| == sb.size && |tab| == sb.ninodes && i < n <= |tab|
    ensures sb.IBlock(i) < |store| && InodeAt(sb, Image(sb, store, tab, n), i) == tab[i]
  {
    hide Pack, Unpack;
    InodeBlock(sb, i);
    InodeBlock(sb, n - 1);
    var r := Image(sb, store, tab, n - 1);
    PackRoundTrip(r[sb.IBlock(n - 1)], (n - 1) % IPB, tab[n - 1], i % IPB);
    SamePlace(sb, i, n - 1);
    if i < n - 1 { ImageInode(sb, store, tab, n - 1, i); }
  }

  /** Inode `i` is sixteen words from word `i % 8 * 16` on, of block `i / 8` of
      the inode blocks: four shorts, the size, and the addresses. */
  lemma InodeWords(sb: Super, store: seq<Block>, tab: seq<Dinode>, i: nat)
    requires sb.Good() && |store| == sb.size && |tab| == sb.ninodes && i < |tab|
    ensures sb.inodestart + i / 8 < |store|
    ensures var blk, at, d := Image(sb, store, tab, |tab|)[sb.inodestart + i / 8], i % 8 * 16, tab[i];
      && GetWord(blk, at) % 0x1_0000 == d.typ % 0x1_0000 && GetWord(blk, at) / 0x1_0000 == d.major % 0x1_0000
      && GetWord(blk, at + 1) % 0x1_0000 == d.minor % 0x1_0000 && GetWord(blk, at + 1) / 0x1_0000 == d.nlink % 0x1_0000
      && GetWord(blk, at + 2) == d.size && forall j :: at + 3 <= j < at + 16 ==> GetWord(blk, j) == d.addrs[j - at - 3]
  {
    hide Image, GetWord, Pack;
    InodeBlock(sb, i);
    ImageTab(sb, store, tab, |tab|, i, tab[i]);
    assert tab[i := tab[i]] == tab;
    PackedWords(Image(sb, store, tab, |tab|)[sb.IBlock(i)], i % IPB, tab[i]);
  }

  /** Reading the inodes back gives the table. */
  lemma TabOfImage(sb: Super, store: seq<Block>, tab: seq<Dinode>)
    requires sb.Good() && |store| == sb.size && |tab| == sb.ninodes
    ensures TabOf(sb, Image(sb, store, tab, |tab|)) == tab
  {
    hide Image, InodeAt;
    forall i: nat | i < |tab|
      ensures TabOf(sb, Image(sb, store, tab, |tab|))[i] == tab[i]
    {
      ImageInode(sb, store, tab, |tab|, i);
    }
  }

  /** A block of the image depends on that block and the inodes in it. */
  lemma {:induction false} ImageBlock(sb: Super, store: seq<Block>, tab: seq<Dinode>, store': seq<Block>,
      tab': seq<Dinode>, n: nat, b: nat)
    requires sb.Good() && |store| == |store'| == sb.size && |tab| == |tab'| == sb.ninodes && n <= |tab| && b < sb.size
    requires store'[b] == store[b]
    requires forall i: nat {:trigger tab'[i]} :: i < n && sb.IBlock(i) == b ==> tab'[i] == tab[i]
    ensures Image(sb, store', tab', n)[b] == Image(sb, store, tab, n)[b]
  {
    hide Pack;
    if n > 0 {
      ImageBlock(sb, store, tab, store', tab', n - 1, b);
      InodeBlock(sb, n - 1);
      assert sb.IBlock(n - 1) == b ==> tab'[n - 1] == tab[n - 1];
    }
  }

  lemma {:induction false} ImageOthers(sb: Super, store: seq<Block>, tab: seq<Dinode>, n: nat, b: nat)
    requires sb.Good() && |store| == sb.size && |tab| == sb.ninodes && n <= |tab| && sb.bmapstart <= b < sb.size
    ensures Image(sb, store, tab, n)[b] == store[b]
  {
    hide Pack;
    if n > 0 {
      InodeBlock(sb, n - 1);
      ImageOthers(sb, store, tab, n - 1, b);
    }
  }

  /** Writing a block past the inodes changes that block of the image. */
  lemma {:induction false} ImageStore(sb: Super, store: seq<Block>, tab: seq<Dinode>, n: nat, b: nat, v: Block)
    requires sb.Good() && |store| == sb.size && |tab| == sb.ninodes && n <= |tab| && sb.bmapstart <= b < sb.size
    ensures Image(sb, store[b := v], tab, n) == Image(sb, store, tab, n)[b := v]
  {
    hide Pack;
    if n > 0 {
      InodeBlock(sb, n - 1);
      ImageStore(sb, store, tab, n - 1, b, v);
    }
  }

  lemma {:induction false} ImagePrefix(sb: Super, store: seq<Block>, tab: seq<Dinode>, n: nat, i: nat, d: Dinode)
    requires sb.Good() && |store| == sb.size && |tab| == sb.ninodes && n <= i < |tab|
    ensures Image(sb, store, tab[i := d], n) == Image(sb, store, tab, n)
  {
    if n > 0 { ImagePrefix(sb, store, tab, n - 1, i, d); }
  }

  /** Storing an inode in its block, as iupdate does, changes that block of the
      image. */
  lemma {:induction false} ImageTab(sb: Super, store: seq<Block>, tab: seq<Dinode>, n: nat, i: nat, d: Dinode)
    requires sb.Good() && |store| == sb.size && |tab| == sb.ninodes && i < n <= |tab|
    ensures var r, x := Image(sb, store, tab, n), sb.IBlock(i);
      x < |r| && Image(sb, store, tab[i := d], n) == r[x := Pack(r[x], i % IPB, d)]
  {
    hide Pack;
    InodeBlock(sb, i);
    InodeBlock(sb, n - 1);
    var x, r := sb.IBlock(i), Image(sb, store, tab, n - 1);
    if i == n - 1 {
      ImagePrefix(sb, store, tab, n - 1, i, d);
      PackTwice(r[x], i % IPB, tab[i], d);
    } else {
      ImageTab(sb, store, tab, n - 1, i, d);
      SamePlace(sb, i, n - 1);
      if sb.IBlock(n - 1) == x { PackCommutes(r[x], i % IPB, d, (n - 1) % IPB, tab[n - 1]); }
    }
  }
}
