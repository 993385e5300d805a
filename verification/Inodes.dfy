/** Truncating, allocating and releasing inodes. */
module Inodes {
  import opened Bitmap
  import opened Blocks
  import opened Dinodes
  import opened DiskLayout
  import opened Fs
  import opened Params

  /** The blocks in `slots` of inode `i` of `v` have been freed since `v`, and
      no data block has changed. */
  ghost predicate Freed(sb: Super, v: View, store: seq<Block>, i: nat, slots: set<nat>) {
    && sb.Good() && i < |v.tab| && |store| == |v.store| == sb.size
    && Free(sb, store) == Free(sb, v.store) + At(v, i, slots)
    && forall x: nat {:trigger store[x]} :: sb.IsData(x) ==> store[x] == v.store[x]
  }

  /** "freeing free block" cannot happen: the next slot's block is in use. */
  lemma StillUsed(sb: Super, v: View, store: seq<Block>, i: nat, slots: set<nat>, s: nat)
    requires Ok(sb, v) && Freed(sb, v, store, i, slots) && s < NSLOTS && s !in slots
    ensures v.A(i, s) != 0 ==> sb.IsData(v.A(i, s)) && v.A(i, s) !in Free(sb, store)
    ensures At(v, i, slots + {s}) == At(v, i, slots) + if v.A(i, s) != 0 then {v.A(i, s)} else {}
  {
    hide View.A, Ok, Free;
    if v.A(i, s) != 0 {
      OwnedSlot(sb, v, i, s);
      forall t | t in slots && t < NSLOTS
        ensures v.A(i, t) != v.A(i, s)
      {
        SlotOwner(sb, v, i, s, i, t);
      }
      assert v.A(i, s) in At(v, i, slots + {s});
    }
  }

  predicate IsSlot(s: nat) {
    s < NSLOTS
  }

  ghost function AllSlots(): set<nat> {
    set s: nat | s < NSLOTS && IsSlot(s)
  }

  lemma OwnerAt(sb: Super, v: View, b: nat)
    requires Referenced(sb, v) && b in v.owner
    ensures v.owner[b].inum < |v.tab| && (b != 0 ==> b in At(v, v.owner[b].inum, AllSlots()))
  {
    assert IsSlot(v.owner[b].slot);
  }

  function Emptied(d: Dinode): Dinode {
    d.(size := 0, addrs := NOADDRS)
  }

  ghost function Truncated(v: View, store: seq<Block>, i: nat): View
    requires i < |v.tab|
  {
    View(store, v.tab[i := Emptied(v.tab[i])], v.owner - At(v, i, AllSlots()))
  }

  lemma TruncatedSlots(sb: Super, v: View, store: seq<Block>, i: nat, j: nat, s: nat)
    requires Ok(sb, v) && i < |v.tab| && Freed(sb, v, store, i, AllSlots()) && j < |v.tab| && s < NSLOTS
    ensures Truncated(v, store, i).A(j, s) == if j == i then 0 else v.A(j, s)
  {
    hide Free, At, Referenced, Covered, GetWord;
    if j != i {
      if v.A(j, NDIRECT) != 0 { OwnedSlot(sb, v, j, NDIRECT); }
      SameSlots(sb, v, store, j, s);
    }
  }

  lemma TruncatedReferenced(sb: Super, v: View, store: seq<Block>, i: nat)
    requires Ok(sb, v) && i < |v.tab| && Freed(sb, v, store, i, AllSlots())
    ensures Referenced(sb, Truncated(v, store, i))
  {
    hide View.A, Freed, Free, Covered;
    var v' := Truncated(v, store, i);
    forall b | b in v'.owner
      ensures
        var r := v'.owner[b];
        r.inum < |v'.tab| && r.slot < NSLOTS && v'.tab[r.inum].typ != 0 && v'.A(r.inum, r.slot) == b
    {
      var r := v.owner[b];
      OwnerAt(sb, v, b);
      assert b in DataBlocks(sb);
      TruncatedSlots(sb, v, store, i, r.inum, r.slot);
    }
    forall j: nat, s: nat | j < |v.tab| && s < NSLOTS && v'.A(j, s) != 0
      ensures v'.A(j, s) in v'.owner && v'.owner[v'.A(j, s)] == Ref(j, s)
    {
      TruncatedSlots(sb, v, store, i, j, s);
      if v.A(j, s) in At(v, i, AllSlots()) {
        var t :| t < NSLOTS && t in AllSlots() && v.A(i, t) == v.A(j, s);
        SlotOwner(sb, v, j, s, i, t);
      }
    }
  }

  lemma TruncatedCovered(sb: Super, v: View, store: seq<Block>, i: nat, j: nat)
    requires Ok(sb, v) && i < |v.tab| && Freed(sb, v, store, i, AllSlots()) && j < |v.tab|
    ensures Covered(Truncated(v, store, i), j)
  {
    hide View.A, Referenced, Free, At;
    if j != i {
      assert Covered(v, j);
      forall bn: nat | bn < MAXFILE && bn * BSIZE < v.tab[j].size
        ensures Truncated(v, store, i).A(j, SlotOf(bn)) != 0
      {
        TruncatedSlots(sb, v, store, i, j, SlotOf(bn));
      }
    }
  }

  /** Truncation gives back exactly the blocks of the inode. */
  lemma TruncatedOk(sb: Super, v: View, store: seq<Block>, i: nat)
    requires Ok(sb, v) && i < |v.tab| && Freed(sb, v, store, i, AllSlots())
    ensures Ok(sb, Truncated(v, store, i))
  {
    hide View.A, Referenced, Free, DataBlocks;
    TruncatedReferenced(sb, v, store, i);
    var v' := Truncated(v, store, i);
    assert At(v, i, AllSlots()) <= v.owner.Keys by {
      forall b | b in At(v, i, AllSlots()) ensures b in v.owner {
        var t :| t in AllSlots() && t < NSLOTS && v.A(i, t) != 0 && v.A(i, t) == b;
        OwnedSlot(sb, v, i, t);
      }
    }
    forall j: nat | j < |v.tab|
      ensures Covered(v', j)
    {
      TruncatedCovered(sb, v, store, i, j);
    }
  }

  lemma TruncatedContents(sb: Super, v: View, store: seq<Block>, i: nat, j: nat)
    requires Ok(sb, v) && i < |v.tab| && Freed(sb, v, store, i, AllSlots()) && j < |v.tab| && j != i
    ensures Contents(store, v.tab[j]) == Contents(v.store, v.tab[j])
  {
    hide Addr, At, Free, Referenced, Covered;
    forall k: nat | k < v.tab[j].size
      ensures ByteAt(store, v.tab[j], k) == ByteAt(v.store, v.tab[j], k)
    {
      MappedByte(sb, v, j, k);
      OwnedSlot(sb, v, j, SlotOf(k / BSIZE));
      TruncatedSlots(sb, v, store, i, j, SlotOf(k / BSIZE));
    }
  }

  lemma NothingFreed(sb: Super, v: View, i: nat)
    requires Ok(sb, v) && i < |v.tab|
    ensures Freed(sb, v, v.store, i, Below(0))
  {
    assert At(v, i, Below(0)) == {};
  }

  ghost function Below(k: nat): set<nat> {
    set s: nat | s < k && IsSlot(s)
  }

  lemma BelowNext(k: nat)
    requires k < NSLOTS
    ensures Below(k + 1) == Below(k) + {k} && k !in Below(k)
  {
    assert IsSlot(k);
  }

  function ZeroFirst(a: Addrs, k: nat): Addrs
    requires k <= NDIRECT + 1
  {
    NOADDRS[..k] + a[k..]
  }

  lemma ZeroNext(a: Addrs, k: nat)
    requires k < NDIRECT
    ensures ZeroFirst(a, k)[k] == a[k] && ZeroFirst(a, k)[k := 0] == ZeroFirst(a, k + 1) && ZeroFirst(a, 0) == a
  {
    assert NOADDRS[k] == 0;
  }

  /** bfree, if the slot holds a block. */
  method FreeSlot(fs: Fs, b: Word, ghost v: View, ghost i: nat, ghost slots: set<nat>, ghost s: nat)
    requires Ok(fs.sb, v) && Freed(fs.sb, v, fs.store, i, slots) && s < NSLOTS && s !in slots && v.A(i, s) == b
    modifies fs`store, fs`logged, fs`steps
    ensures Freed(fs.sb, v, fs.store, i, slots + {s})
    ensures old(fs.Journaled()) ==> fs.Journaled()
  {
    hide InLog, View.A, Ok, At, Free;
    StillUsed(fs.sb, v, fs.store, i, slots, s);
    if b != 0 { fs.Bfree(b); }
  }

  /** The direct blocks. */
  method FreeDirect(fs: Fs, ip: Inode)
    requires fs.Valid(ip)
    modifies fs`store, fs`logged, fs`steps, ip`d
    ensures Freed(fs.sb, old(fs.V(ip)), fs.store, ip.inum, Below(NDIRECT))
    ensures ip.d == old(ip.d).(addrs := ZeroFirst(old(ip.d).addrs, NDIRECT))
    ensures old(fs.Journaled()) ==> fs.Journaled()
  {
    hide InLog, At, Free, Ok, Freed, Below, ZeroFirst;
    ghost var v, a := fs.V(ip), ip.d.addrs;
    ZeroNext(a, 0);
    NothingFreed(fs.sb, v, ip.inum);
    var i := 0;
    while i < NDIRECT
      invariant i <= NDIRECT && Freed(fs.sb, v, fs.store, ip.inum, Below(i))
      invariant ip.d == old(ip.d).(addrs := ZeroFirst(a, i)) && (old(fs.Journaled()) ==> fs.Journaled())
    {
      BelowNext(i);
      ZeroNext(a, i);
      FreeSlot(fs, ip.d.addrs[i], v, ip.inum, Below(i), i);
      ip.d := WithAddr(ip.d, i, 0);
      i := i + 1;
    }
  }

  /** The blocks that the indirect block lists, and then the indirect block. */
  method FreeIndirect(fs: Fs, ip: Inode, ghost v: View)
    requires ip.inum < |v.tab| && Ok(fs.sb, v) && Freed(fs.sb, v, fs.store, ip.inum, Below(NDIRECT))
    requires v.A(ip.inum, NDIRECT) == ip.d.addrs[NDIRECT]
    modifies fs`store, fs`logged, fs`steps, ip`d
    ensures Freed(fs.sb, v, fs.store, ip.inum, AllSlots())
    ensures ip.d == WithAddr(old(ip.d), NDIRECT, 0)
    ensures old(fs.Journaled()) ==> fs.Journaled()
  {
    hide InLog, At, Free, Ok;
    var ind := ip.d.addrs[NDIRECT];
    if ind != 0 {
      OwnedSlot(fs.sb, v, ip.inum, NDIRECT);
      EntriesNext(0);
      assert Below(NDIRECT) + Entries(0) == Below(NDIRECT);
      var j := 0;
      while j < NINDIRECT
        invariant j <= NINDIRECT && ip.d == old(ip.d) && Freed(fs.sb, v, fs.store, ip.inum, Below(NDIRECT) + Entries(j))
        invariant old(fs.Journaled()) ==> fs.Journaled()
      {
        EntriesNext(j);
        FreeSlot(fs, GetWord(fs.store[ind], j), v, ip.inum, Below(NDIRECT) + Entries(j), NDIRECT + 1 + j);
        j := j + 1;
      }
      AllEntries();
      FreeSlot(fs, ind, v, ip.inum, Below(NDIRECT) + Entries(NINDIRECT), NDIRECT);
      ip.d := WithAddr(ip.d, NDIRECT, 0);
    } else {
      NoEntries(v, ip.inum);
      assert ip.d.addrs[NDIRECT := 0] == ip.d.addrs;
    }
  }

  ghost function Entries(j: nat): set<nat> {
    set s: nat | NDIRECT < s < NDIRECT + 1 + j && IsSlot(s)
  }

  lemma EntriesNext(j: nat)
    requires j < NINDIRECT
    ensures Below(NDIRECT) + Entries(j + 1) == Below(NDIRECT) + Entries(j) + {NDIRECT + 1 + j}
    ensures NDIRECT + 1 + j !in Below(NDIRECT) + Entries(j) && Entries(0) == {}
  {
    assert IsSlot(NDIRECT + 1 + j);
  }

  lemma AllEntries()
    ensures NDIRECT !in Below(NDIRECT) + Entries(NINDIRECT)
    ensures AllSlots() == Below(NDIRECT) + Entries(NINDIRECT) + {NDIRECT}
  {
    assert IsSlot(NDIRECT);
  }

  lemma NoEntries(v: View, i: nat)
    requires i < |v.tab| && v.A(i, NDIRECT) == 0
    ensures At(v, i, AllSlots()) == At(v, i, Below(NDIRECT))
  {
    forall b | b in At(v, i, AllSlots())
      ensures b in At(v, i, Below(NDIRECT))
    {
      var s :| s in AllSlots() && s < NSLOTS && v.A(i, s) != 0 && v.A(i, s) == b;
      assert s in Below(NDIRECT);
    }
    assert forall s <- Below(NDIRECT) :: s in AllSlots();
  }

  /** itrunc: every block of the inode is freed, once, and the file is empty. */
  method Itrunc(fs: Fs, ip: Inode)
    requires fs.Valid(ip)
    modifies fs`store, fs`dinode, fs`owner, fs`logged, fs`steps, ip`d
    ensures fs.Valid(ip) && fs.dinode == old(fs.dinode)[ip.inum := ip.d] && ip.d == Emptied(old(ip.d))
    ensures ip.d.size == 0 && forall j :: 0 <= j < 13 ==> ip.d.addrs[j] == 0
    ensures ip.d.typ == old(ip.d.typ) && ip.d.nlink == old(ip.d.nlink)
    ensures ip.d.major == old(ip.d.major) && ip.d.minor == old(ip.d.minor)
    ensures Free(fs.sb, fs.store) == old(Free(fs.sb, fs.store)) + At(old(fs.V(ip)), ip.inum, AllSlots())
    ensures fs.owner == old(fs.owner) - At(old(fs.V(ip)), ip.inum, AllSlots())
    ensures forall j: nat :: j < |fs.dinode| && j != ip.inum ==>
      Contents(fs.store, fs.dinode[j]) == old(Contents(fs.store, fs.dinode[j]))
    ensures old(fs.Journaled()) ==> fs.Journaled()
  {
    hide InLog, At, Free, Contents;
    ghost var v := fs.V(ip);
    FreeDirect(fs, ip);
    FreeIndirect(fs, ip, v);
    assert ip.d.addrs == NOADDRS;
    ip.d := ip.d.(size := 0);
    fs.owner := fs.owner - At(v, ip.inum, AllSlots());
    fs.Iupdate(ip);
    assert fs.V(ip) == Truncated(v, fs.store, ip.inum);
    TruncatedOk(fs.sb, v, fs.store, ip.inum);
    forall j: nat | j < |fs.dinode| && j != ip.inum
      ensures Contents(fs.store, fs.dinode[j]) == old(Contents(fs.store, fs.dinode[j]))
    {
      assert v.tab[j] == fs.dinode[j];
      TruncatedContents(fs.sb, v, fs.store, ip.inum, j);
    }
  }

  // ---- the inode cache ----

  /** A free or empty inode holds no block. */
  lemma NoBlocks(sb: Super, v: View, i: nat, s: nat)
    requires Ok(sb, v) && i < |v.tab| && s < NSLOTS && (v.tab[i] == Emptied(v.tab[i]) || v.tab[i].typ == 0)
    ensures v.A(i, s) == 0
  {
    if v.tab[i].typ != 0 {
      assert v.A(i, NDIRECT) == 0;
    } else if v.A(i, s) != 0 {
      OwnedSlot(sb, v, i, s);
    }
  }

  /** An inode that holds no block may change type. */
  lemma RetypedOk(sb: Super, v: View, i: nat, d: Dinode)
    requires Ok(sb, v) && i < |v.tab| && (v.tab[i] == Emptied(v.tab[i]) || v.tab[i].typ == 0)
    requires d == Emptied(d)
    ensures Ok(sb, v.(tab := v.tab[i := d]))
  {
    hide Free, DataBlocks, Referenced, Covered;
    var v' := v.(tab := v.tab[i := d]);
    forall j: nat, s: nat {:trigger v'.A(j, s)} | j < |v.tab| && s < NSLOTS
      ensures v'.A(j, s) == v.A(j, s)
    {
      if j == i { NoBlocks(sb, v, i, s); }
    }
    forall s: nat | s < NSLOTS
      ensures v.A(i, s) == 0
    {
      NoBlocks(sb, v, i, s);
    }
    RetypedReferenced(sb, v, i, d);
    forall j: nat | j < |v.tab|
      ensures Covered(v', j)
    {
      RetypedCovered(v, v', i, j);
    }
  }

  lemma RetypedCovered(v: View, v': View, i: nat, j: nat)
    requires j < |v.tab| == |v'.tab| && Covered(v, j) && (if j == i then v'.tab[j].size == 0 else v'.tab[j] == v.tab[j])
    requires v'.store == v.store
    ensures Covered(v', j)
  {
    if j != i {
      forall bn: nat | bn < MAXFILE && bn * BSIZE < v.tab[j].size
        ensures v'.A(j, SlotOf(bn)) != 0
      {
        assert v.A(j, SlotOf(bn)) != 0;
      }
    }
  }

  lemma RetypedReferenced(sb: Super, v: View, i: nat, d: Dinode)
    requires Ok(sb, v) && i < |v.tab| && (forall s: nat {:trigger v.A(i, s)} :: s < NSLOTS ==> v.A(i, s) == 0)
    requires forall j: nat, s: nat {:trigger v.(tab := v.tab[i := d]).A(j, s)} :: j < |v.tab| && s < NSLOTS ==>
      v.(tab := v.tab[i := d]).A(j, s) == v.A(j, s)
    ensures Referenced(sb, v.(tab := v.tab[i := d]))
  {
    hide View.A, Free, Covered;
    ZeroIsMeta(sb);
  }

  class Icache {
    const fs: Fs
    const inode: seq<Inode>

    /** The file system as it is on disk. */
    ghost function D(): View
      reads fs
    {
      View(fs.store, fs.dinode, fs.owner)
    }

    /** No inode is cached twice, and a valid entry agrees with the disk. */
    ghost predicate Valid()
      reads fs, inode
    {
      && |inode| == NINODE && (forall j, k :: 0 <= j < k < |inode| ==> inode[j] != inode[k]) && Ok(fs.sb, D())
      && (forall x <- inode :: x.ref > 0 ==>
            x.inum < |fs.dinode| && (x.valid ==> x.d == fs.dinode[x.inum] && x.d.typ != 0))
      && (forall x <- inode, y <- inode :: x != y && x.ref > 0 && y.ref > 0 ==> x.inum != y.inum)
    }

    /** The table starts with every entry free. */
    constructor (fs: Fs, inode: seq<Inode>)
      requires |inode| == NINODE && (forall j, k :: 0 <= j < k < |inode| ==> inode[j] != inode[k])
      requires forall x <- inode :: x.ref == 0
      requires Ok(fs.sb, View(fs.store, fs.dinode, fs.owner))
      ensures this.fs == fs && this.inode == inode && Valid()
    {
      this.fs, this.inode := fs, inode;
    }

    /** iget: the entry of `inum`, or a free one taken for it. */
    method Iget(inum: nat) returns (ip: Inode)
      requires Valid() && inum < |fs.dinode|
      requires exists x :: x in inode && (x.ref == 0 || x.inum == inum)
      modifies inode
      ensures Valid() && ip in inode && ip.inum == inum && (ip.ref == 1 ==> !ip.valid)
      ensures forall x <- inode :: x.ref == old(x.ref) + (if x == ip then 1 else 0)
      ensures forall x <- inode :: old(x.ref) > 0 ==>
        x.inum == old(x.inum) && x.valid == old(x.valid) && x.d == old(x.d)
    {
      hide Ok;
      var k := 0;
      var empty: Inode? := null;
      while k < |inode|
        invariant k <= |inode|
        invariant forall j :: 0 <= j < k ==> !(inode[j].ref > 0 && inode[j].inum == inum)
        invariant empty != null ==> empty in inode && empty.ref == 0
        invariant empty == null ==> forall j :: 0 <= j < k ==> inode[j].ref != 0
      {
        if inode[k].ref > 0 && inode[k].inum == inum {
          inode[k].ref := inode[k].ref + 1;
          return inode[k];
        }
        if empty == null && inode[k].ref == 0 { empty := inode[k]; }
        k := k + 1;
      }
      Recycle(empty, inum);
      return empty;
    }

    method Recycle(ip: Inode, inum: nat)
      requires Valid() && ip in inode && ip.ref == 0 && inum < |fs.dinode|
      requires forall x <- inode :: x.ref > 0 ==> x.inum != inum
      modifies ip`inum, ip`ref, ip`valid
      ensures Valid() && ip.inum == inum && ip.ref == 1 && !ip.valid
    {
      hide Ok;
      ip.inum, ip.ref, ip.valid := inum, 1, false;
    }

    /** ilock, apart from the lock: the inode is read if it has not been. False
        stands for a panic: the inode is free. */
    method Ilock(ip: Inode) returns (ok: bool)
      requires Valid() && ip in inode && ip.ref > 0
      modifies ip`d, ip`valid
      ensures ok <==> fs.dinode[ip.inum].typ != 0
      ensures ok ==> Valid() && ip.valid && ip.d == fs.dinode[ip.inum] && fs.Valid(ip)
    {
      hide Ok;
      if !ip.valid {
        ip.d := fs.dinode[ip.inum];
        ip.valid := true;
        if ip.d.typ == 0 { return false; }
      }
      assert fs.V(ip) == D();
      return true;
    }

    /** iput, apart from the lock: a reference is dropped; if it is the last one
        and the inode has no links, its blocks are freed and so is it. */
    method Iput(ip: Inode)
      requires Valid() && ip in inode && ip.ref > 0
      modifies fs`store, fs`dinode, fs`owner, fs`logged, fs`steps, inode
      ensures Valid()
      ensures forall x <- inode :: x.ref == old(x.ref) - (if x == ip then 1 else 0) && x.inum == old(x.inum)
      ensures forall x <- inode :: x != ip ==> x.valid == old(x.valid) && x.d == old(x.d)
      ensures !old(ip.valid && ip.d.nlink == 0 && ip.ref == 1) ==>
        D() == old(D()) && ip.valid == old(ip.valid) && ip.d == old(ip.d)
      ensures old(ip.valid && ip.d.nlink == 0 && ip.ref == 1) ==>
        && fs.dinode == old(fs.dinode)[ip.inum := Emptied(old(ip.d)).(typ := 0)]
        && Free(fs.sb, fs.store) == old(Free(fs.sb, fs.store)) + At(old(D()), ip.inum, AllSlots())
      ensures old(ip.valid && ip.d.nlink == 0 && ip.ref == 1) ==>
        && ip.inum < |fs.dinode| && fs.dinode[ip.inum].typ == 0 && fs.dinode[ip.inum].size == 0
        && forall j :: 0 <= j < 13 ==> fs.dinode[ip.inum].addrs[j] == 0
      ensures forall j: nat :: j < |fs.dinode| && j != ip.inum ==>
        Contents(fs.store, fs.dinode[j]) == old(Contents(fs.store, fs.dinode[j]))
      ensures old(fs.Journaled()) ==> fs.Journaled()
    {
      hide InLog, Ok, Free, At, Contents;
      if ip.valid && ip.d.nlink == 0 {
        var r := ip.ref;
        if r == 1 { FreeInode(ip); }
      }
      ip.ref := ip.ref - 1;
    }

    /** The end of an inode without links. */
    method FreeInode(ip: Inode)
      requires Valid() && ip in inode && ip.ref > 0 && ip.valid
      modifies fs`store, fs`dinode, fs`owner, fs`logged, fs`steps, ip`d, ip`valid
      ensures Valid() && !ip.valid && fs.dinode == old(fs.dinode)[ip.inum := Emptied(old(ip.d)).(typ := 0)]
      ensures Free(fs.sb, fs.store) == old(Free(fs.sb, fs.store)) + At(old(D()), ip.inum, AllSlots())
      ensures forall j: nat :: j < |fs.dinode| && j != ip.inum ==>
        Contents(fs.store, fs.dinode[j]) == old(Contents(fs.store, fs.dinode[j]))
      ensures old(fs.Journaled()) ==> fs.Journaled()
    {
      hide InLog, Ok, Free, At, Contents;
      assert fs.V(ip) == D();
      Itrunc(fs, ip);
      assert fs.V(ip) == D();
      RetypedOk(fs.sb, D(), ip.inum, ip.d.(typ := 0));
      OkSizes(fs.sb, D());
      ip.d := ip.d.(typ := 0);
      fs.Iupdate(ip);
      ip.valid := false;
    }

    /** ialloc: the first free inode gets a type. */
    method Ialloc(typ: Short) returns (ip: Inode)
      requires Valid() && typ != 0
      requires exists i: nat :: 1 <= i < |fs.dinode| && fs.dinode[i].typ == 0
      requires exists x :: x in inode && x.ref == 0
      modifies fs`dinode, fs`logged, fs`steps, inode
      ensures Valid() && ip in inode && (old(fs.Journaled()) ==> fs.Journaled())
      ensures 1 <= ip.inum < |fs.dinode| && old(fs.dinode)[ip.inum].typ == 0
      ensures forall i: nat :: 1 <= i < ip.inum ==> old(fs.dinode)[i].typ != 0
      ensures fs.dinode == old(fs.dinode)[ip.inum := Dinode(typ, 0, 0, 0, 0, NOADDRS)]
      ensures forall x <- inode :: x.ref == old(x.ref) + (if x == ip then 1 else 0)
      ensures forall x <- inode :: old(x.ref) > 0 ==>
        x.inum == old(x.inum) && x.valid == old(x.valid) && x.d == old(x.d)
    {
      hide Ok, InLog;
      ghost var i0: nat :| 1 <= i0 < |fs.dinode| && fs.dinode[i0].typ == 0;
      var inum := 1;
      while fs.dinode[inum].typ != 0
        invariant 1 <= inum <= i0 && fs.dinode == old(fs.dinode)
        invariant forall i: nat :: 1 <= i < inum ==> fs.dinode[i].typ != 0
        decreases |fs.dinode| - inum
      {
        inum := inum + 1;
      }
      Claim(inum, Dinode(typ, 0, 0, 0, 0, NOADDRS));
      ip := Iget(inum);
    }

    /** memset(dip), dip->type = type and log_write. */
    method Claim(inum: nat, d: Dinode)
      requires Valid() && inum < |fs.dinode| && fs.dinode[inum].typ == 0 && d == Emptied(d)
      modifies fs`dinode, fs`logged, fs`steps
      ensures Valid() && fs.dinode == old(fs.dinode)[inum := d] && (old(fs.Journaled()) ==> fs.Journaled())
    {
      hide Ok, InLog;
      ghost var v := D();
      RetypedOk(fs.sb, v, inum, d);
      OkSizes(fs.sb, v);
      fs.PutInode(inum, d);
      assert D() == v.(tab := v.tab[inum := d]);
    }
  }
}
