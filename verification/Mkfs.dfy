/** The file system that mkfs makes: the first reachable state. */
module Mkfs {
  import opened Bitmap
  import opened Blocks
  import opened Dinodes
  import opened Directories
  import opened DiskLayout
  import opened Fs
  import opened Names
  import opened Params
  import opened Paths

  /** boot block, super block, log, inodes, bitmap, data */
  function Layout(size: nat, ninodes: nat): Super {
    Super(size, ninodes, 2 + LOGSIZE, 2 + LOGSIZE + ninodes / IPB + 1)
  }

  /** The areas are in order, and the log ends where the inodes begin. */
  lemma LayoutGood(size: nat, ninodes: nat)
    requires Layout(size, ninodes).Meta() <= size < UINT
    ensures Layout(size, ninodes).Good() && 2 + LOGSIZE <= Layout(size, ninodes).inodestart
    ensures var sb := Layout(size, ninodes);
      sb.inodestart == 32 && sb.bmapstart == 33 + ninodes / 8 && sb.Meta() == 34 + ninodes / 8 + size / 4096
  {
  }

  lemma {:induction false} NoBits(k: nat)
    ensures !Bit(0, k)
  {
    if k > 0 { NoBits(k - 1); }
  }

  /** balloc of mkfs: the bitmap block in which the first `used` bits are set. */
  method UsedBits(used: nat) returns (buf: Block)
    requires used < BPB
    ensures forall bi: nat :: bi < BPB ==> (UsedIn(buf, bi) <==> bi < used)
  {
    hide Bit, Mark, SetBit;
    buf := ZERO;
    forall bi: nat | bi < BPB
      ensures !UsedIn(buf, bi)
    {
      NoBits(bi % 8);
    }
    hide UsedIn;
    for i := 0 to used
      invariant forall bi: nat :: bi < BPB ==> (UsedIn(buf, bi) <==> bi < i)
    {
      ghost var was := buf;
      buf := Mark(buf, i);
      forall bi: nat | bi < BPB
        ensures UsedIn(buf, bi) <==> bi < i + 1
      {
        MarkAfter(was, i, bi);
      }
    }
  }

  /** With the bitmap written last, for the blocks handed out in turn from the
      first data block on, block conservation holds. */
  lemma NewOk(sb: Super, v: View, used: nat)
    requires sb.Good() && |v.store| == sb.size < BPB && |v.tab| == sb.ninodes && sb.Meta() <= used <= sb.size
    requires forall bi: nat :: bi < BPB ==> (UsedIn(v.store[sb.bmapstart], bi) <==> bi < used)
    requires forall b: nat :: b in v.owner <==> sb.Meta() <= b < used
    requires Referenced(sb, v) && forall i: nat :: i < |v.tab| ==> Covered(v, i)
    ensures Ok(sb, v)
  {
    hide UsedIn, Referenced, Covered;
    forall b: nat | b < sb.size
      ensures Used(sb, v.store, b) <==> b < used
    {
      assert b / BPB == 0 && b % BPB == b;
    }
    assert Free(sb, v.store) == DataBlocks(sb) - v.owner.Keys;
  }

  // ---- the root directory ----

  function Named(inum: nat, name: seq<Byte>): (e: seq<Byte>)
    requires inum < 0x1_0000 && |name| <= DIRSIZ
    ensures |e| == DIRENT && Inum(e) == inum && Name(e) == Cut(Pad(name, DIRSIZ), DIRSIZ)
  {
    Directories.Pack(inum, Pad(name, DIRSIZ))
  }

  const DOT: seq<Byte> := [46]
  const DOTDOT: seq<Byte> := [46, 46]

  /** The contents of a root directory with "." and ".." only. */
  ghost predicate IsRoot(c: seq<Byte>) {
    && |c| == BSIZE && c[..DIRENT] == Named(ROOTINO, DOT) && c[DIRENT..2 * DIRENT] == Named(ROOTINO, DOTDOT)
    && forall k :: 2 * DIRENT <= k < BSIZE ==> c[k] == 0
  }

  function RootInode(b: Word): Dinode {
    Dinode(T_DIR, 0, 0, 1, RootSize(2 * DIRENT), NOADDRS[0 := b])
  }

  ghost predicate NewTable(tab: seq<Dinode>, b: Word) {
    forall i: nat :: i < |tab| ==> tab[i] == if i == ROOTINO then RootInode(b) else Dinode(0, 0, 0, 0, 0, NOADDRS)
  }

  lemma NewSlots(v: View, b: Word, i: nat, s: nat)
    requires NewTable(v.tab, b) && i < |v.tab| && s < NSLOTS
    ensures v.A(i, s) == if i == ROOTINO && s == 0 then b else 0
  {
  }

  lemma NewFiles(sb: Super, v: View, b: Word)
    requires NewTable(v.tab, b) && ROOTINO < |v.tab| && 0 < b && v.owner == map[b as nat := Ref(ROOTINO, 0)]
    ensures Referenced(sb, v) && forall i: nat :: i < |v.tab| ==> Covered(v, i)
  {
    forall i: nat, s: nat | i < |v.tab| && s < NSLOTS
      ensures v.A(i, s) == if i == ROOTINO && s == 0 then b else 0
    {
      NewSlots(v, b, i, s);
    }
    hide View.A;
    assert RootSize(2 * DIRENT) == BSIZE;
  }

  lemma RootContents(v: View, b: Word)
    requires NewTable(v.tab, b) && ROOTINO < |v.tab| && 0 < b < |v.store|
    ensures Contents(v.store, v.tab[ROOTINO]) == v.store[b]
  {
    var d := v.tab[ROOTINO];
    assert d == RootInode(b) && d.size == BSIZE;
    forall k: nat | k < BSIZE
      ensures ByteAt(v.store, d, k) == v.store[b][k]
    {
      assert k / BSIZE == 0 && k % BSIZE == k;
    }
  }

  lemma RootEntries(c: seq<Byte>, k: nat)
    requires IsRoot(c) && k < Count(c)
    ensures Inum(Entry(c, k)) == if k < 2 then ROOTINO else 0
    ensures k == 0 ==> Name(Entry(c, k)) == Cut(Pad(DOT, DIRSIZ), DIRSIZ)
    ensures k == 1 ==> Name(Entry(c, k)) == Cut(Pad(DOTDOT, DIRSIZ), DIRSIZ)
  {
    hide Named;
    if k == 0 { assert Entry(c, 0) == c[..DIRENT]; }
  }

  lemma NewTree(v: View, b: Word)
    requires NewTable(v.tab, b) && ROOTINO < |v.tab| && 0 < b < |v.store| && IsRoot(v.store[b])
    ensures Tree(v)
  {
    hide IsRoot, Contents, Entry, Inum;
    RootContents(v, b);
    var c := Contents(v.store, v.tab[ROOTINO]);
    forall k: nat | k < Count(c) && Inum(Entry(c, k)) != 0
      ensures Inum(Entry(c, k)) == ROOTINO
    {
      RootEntries(c, k);
    }
    assert DirOk(v, ROOTINO);
    forall i: nat | i < |v.tab|
      ensures DirOk(v, i)
    {
    }
  }

  /** mkfs without files to copy: block conservation holds, and the tree is a
      root directory that names itself "." and "..". */
  method MakeFs(sb: Super) returns (fs: Fs)
    requires sb.Good() && sb.size < BPB && ROOTINO < sb.ninodes && sb.Meta() < sb.size
    ensures fresh(fs) && fs.sb == sb && Ok(sb, View(fs.store, fs.dinode, fs.owner)) && fs.Journaled()
    ensures Tree(View(fs.store, fs.dinode, fs.owner)) && IsRoot(Contents(fs.store, fs.dinode[ROOTINO]))
  {
    hide UsedIn, IsRoot, Referenced, Covered, Ok, Tree, Contents, NewTable;
    var b := sb.Meta();
    var bits := UsedBits(b + 1);
    var store: seq<Block> := seq(sb.size, _ => ZERO);
    var root := FirstBlock();
    store := store[b := root][sb.bmapstart := bits];
    var dinode := Table(sb.ninodes, b);
    ghost var v := View(store, dinode, map[b := Ref(ROOTINO, 0)]);
    NewFiles(sb, v, b);
    NewOk(sb, v, b + 1);
    NewTree(v, b);
    RootContents(v, b);
    fs := new Fs(sb, store, dinode, v.owner);
  }

  /** iappend of the two entries. */
  method FirstBlock() returns (b: Block)
    ensures IsRoot(b)
  {
    hide Named;
    var dot, dotdot := Named(ROOTINO, DOT), Named(ROOTINO, DOTDOT);
    b := ZERO;
    b := Patch(b, 0, dot);
    assert b[..DIRENT] == dot && forall k :: DIRENT <= k < BSIZE ==> b[k] == 0;
    ghost var first := b;
    b := Patch(b, DIRENT, dotdot);
    assert b[..DIRENT] == first[..DIRENT] && b[DIRENT..2 * DIRENT] == dotdot;
  }

  /** The inodes, all free but the root. */
  method Table(n: nat, b: Word) returns (tab: seq<Dinode>)
    ensures |tab| == n && NewTable(tab, b)
  {
    tab := [];
    for i := 0 to n
      invariant |tab| == i && NewTable(tab, b)
    {
      tab := tab + [if i == ROOTINO then RootInode(b) else Dinode(0, 0, 0, 0, 0, NOADDRS)];
    }
  }

  /** The size that mkfs gives the root directory in the end. */
  function RootSize(size: nat): nat {
    (size / BSIZE + 1) * BSIZE
  }

  /** mkfs rounds the size of the root directory up past its last block exactly
      when it is a multiple of the block size, which makes a hole. */
  lemma RootHole(v: View, i: nat, size: nat)
    requires i < |v.tab| && NoHole(v, i, size)
    requires forall bn: nat {:trigger SlotOf(bn)} :: bn < MAXFILE ==> (v.A(i, SlotOf(bn)) != 0 <==> bn * BSIZE < size)
    ensures NoHole(v, i, RootSize(size)) <==> size % BSIZE != 0
  {
    hide View.A;
    if size % BSIZE == 0 {
      if RootSize(size) <= MAXFILE * BSIZE {
        var bn := size / BSIZE;
        assert v.A(i, SlotOf(bn)) == 0;
      }
    } else {
      forall bn: nat | bn < MAXFILE && bn * BSIZE < RootSize(size)
        ensures v.A(i, SlotOf(bn)) != 0
      {
        assert bn <= size / BSIZE;
      }
    }
  }

  lemma {:induction false} FirstBits(used: nat) returns (buf: Block)
    requires used < BPB
    ensures forall bi: nat :: bi < BPB ==> (UsedIn(buf, bi) <==> bi < used)
  {
    hide Bit, Mark, SetBit;
    if used == 0 {
      buf := ZERO;
      forall bi: nat | bi < BPB
        ensures !UsedIn(buf, bi)
      {
        NoBits(bi % 8);
      }
    } else {
      var was := FirstBits(used - 1);
      buf := Mark(was, used - 1);
      forall bi: nat | bi < BPB
        ensures UsedIn(buf, bi) <==> bi < used
      {
        MarkAfter(was, used - 1, bi);
      }
    }
  }

  /** A root directory of 32 entries, whatever they are, fills the one block it
      has. The file system is in order before the rounding; then the directory
      is 1024 bytes long without a block for the second half. */
  lemma Root32(sb: Super, root: Block) returns (v: View)
    requires sb.Good() && sb.size < BPB && ROOTINO < sb.ninodes && sb.Meta() < sb.size
    ensures Ok(sb, v) && |v.tab| == sb.ninodes && v.tab[ROOTINO].typ == T_DIR && v.tab[ROOTINO].size == 32 * DIRENT
    ensures Contents(v.store, v.tab[ROOTINO]) == root
    ensures !NoHole(v, ROOTINO, RootSize(32 * DIRENT)) && !Ok(sb, Resized(v, ROOTINO, RootSize(32 * DIRENT)))
  {
    hide UsedIn, Referenced, Covered, Contents, NewTable, Free, DataBlocks;
    var b := sb.Meta();
    var bits := FirstBits(b + 1);
    var store: seq<Block> := seq(sb.size, _ => ZERO);
    store := store[b := root][sb.bmapstart := bits];
    v := View(store, NewTab(sb.ninodes, b), map[b := Ref(ROOTINO, 0)]);
    NewFiles(sb, v, b);
    NewOk(sb, v, b + 1);
    RootContents(v, b);
    NewSlots(v, b, ROOTINO, SlotOf(1));
    NotCovered(v);
    assert RootSize(32 * DIRENT) == 2 * BSIZE;
  }

  ghost function NewTab(n: nat, b: Word): (tab: seq<Dinode>)
    ensures |tab| == n && NewTable(tab, b)
  {
    seq(n, i => if i == ROOTINO then RootInode(b) else Dinode(0, 0, 0, 0, 0, NOADDRS))
  }

  lemma NotCovered(v: View)
    requires ROOTINO < |v.tab| && v.A(ROOTINO, SlotOf(1)) == 0
    ensures !NoHole(v, ROOTINO, 2 * BSIZE) && !Covered(Resized(v, ROOTINO, 2 * BSIZE), ROOTINO)
  {
    assert Resized(v, ROOTINO, 2 * BSIZE).A(ROOTINO, SlotOf(1)) == 0;
  }
}
