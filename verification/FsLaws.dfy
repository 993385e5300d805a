/** What the invariant of the file system, its directories and its path names
    come to, in terms of the bytes on the disk. */
module FsLaws {
  import opened Bitmap
  import opened Blocks
  import opened Dinodes
  import opened DiskLayout
  import opened Fs
  import opened Inodes
  import opened Names
  import opened Directories

  // ---- blocks ----

  /** Entry `j` of the indirect block is block `b`. */
  ghost predicate Lists(store: seq<Block>, d: Dinode, b: nat, j: nat) {
    j < 128 && d.addrs[12] < |store| && GetWord(store[d.addrs[12]], j) == b
  }

  /** An inode refers to block `b` by itself, or through its indirect block. */
  ghost predicate Refers(store: seq<Block>, d: Dinode, b: nat) {
    && b != 0
    && (b in d.addrs || (d.addrs[12] != 0 && exists j: nat :: Lists(store, d, b, j)))
  }

  ghost predicate InSlot(v: View, i: nat, b: nat, s: nat)
    requires i < |v.tab|
  {
    s < NSLOTS && v.A(i, s) == b
  }

  lemma RefersIsSlot(v: View, i: nat, b: nat)
    requires i < |v.tab| && b != 0
    ensures Refers(v.store, v.tab[i], b) <==> exists s: nat :: InSlot(v, i, b, s)
  {
    hide GetWord;
    var d := v.tab[i];
    forall s: nat | InSlot(v, i, b, s)
      ensures Refers(v.store, d, b)
    {
      if s > 12 { assert Lists(v.store, d, b, s - 13); }
    }
    if b in d.addrs {
      var s: nat :| s < 13 && d.addrs[s] == b;
      assert InSlot(v, i, b, s);
    }
    forall j: nat | d.addrs[12] != 0 && Lists(v.store, d, b, j)
      ensures exists s: nat :: InSlot(v, i, b, s)
    {
      assert InSlot(v, i, b, j + 13);
    }
  }

  /** The bitmap and the inodes agree: a data block is marked in use exactly when
      an inode refers to it, no block is referred to by two, and every block
      before the data blocks is in use. */
  lemma BlockConservation(sb: Super, v: View, b: nat)
    requires Ok(sb, v) && b < sb.size
    ensures b < sb.bmapstart + sb.size / 4096 + 1 ==> Used(sb, v.store, b)
    ensures b >= sb.bmapstart + sb.size / 4096 + 1 ==>
      (Used(sb, v.store, b) <==> exists i: nat :: i < |v.tab| && Refers(v.store, v.tab[i], b))
    ensures forall i: nat :: i < |v.tab| && Refers(v.store, v.tab[i], b) ==>
      v.tab[i].typ != 0 && b >= sb.bmapstart + sb.size / 4096 + 1
    ensures forall i: nat, j: nat ::
      i < |v.tab| && j < |v.tab| && Refers(v.store, v.tab[i], b) && Refers(v.store, v.tab[j], b) ==> i == j
  {
    hide Used, Refers, View.A;
    assert Used(sb, v.store, b) <==> b !in Free(sb, v.store);
    assert b in DataBlocks(sb) <==> b >= sb.bmapstart + sb.size / 4096 + 1;
    forall i: nat | i < |v.tab| && Refers(v.store, v.tab[i], b)
      ensures b in v.owner && v.owner[b].inum == i && v.tab[i].typ != 0
    {
      NotZero(v, i, b);
      RefersIsSlot(v, i, b);
      var s: nat :| InSlot(v, i, b, s);
      assert v.A(i, s) == b;
    }
    if b in v.owner {
      var r := v.owner[b];
      assert InSlot(v, r.inum, b, r.slot);
      RefersIsSlot(v, r.inum, b);
    }
  }

  lemma NotZero(v: View, i: nat, b: nat)
    requires i < |v.tab| && Refers(v.store, v.tab[i], b)
    ensures b != 0
  {
  }

  /** What a truncated inode gives back. */
  lemma TruncationFrees(sb: Super, v: View, i: nat, b: nat)
    requires Ok(sb, v) && i < |v.tab|
    ensures b in At(v, i, AllSlots()) <==> Refers(v.store, v.tab[i], b)
  {
    hide Ok, View.A, Refers;
    if b in At(v, i, AllSlots()) {
      var s: nat :| s in AllSlots() && s < NSLOTS && v.A(i, s) != 0 && v.A(i, s) == b;
      assert InSlot(v, i, b, s);
      RefersIsSlot(v, i, b);
    }
    if Refers(v.store, v.tab[i], b) {
      NotZero(v, i, b);
      RefersIsSlot(v, i, b);
      var s: nat :| InSlot(v, i, b, s);
      assert IsSlot(s);
    }
  }

  // ---- directory entries ----

  /** An entry is sixteen bytes: the inode number, low byte first, and a name
      that ends at a zero or after fourteen bytes. */
  lemma EntryMeans(c: seq<Byte>, k: nat)
    requires 16 * k + 16 <= |c|
    ensures k < Count(c) && Inum(Entry(c, k)) == c[16 * k] as int + 0x100 * c[16 * k + 1] as int
    ensures var name := Name(Entry(c, k));
      && |name| <= 14 && name == c[16 * k + 2..16 * k + 2 + |name|] && 0 !in name
      && (|name| == 14 || c[16 * k + 2 + |name|] == 0)
  {
    var e := Entry(c, k);
    assert e[2..] == c[16 * k + 2..16 * k + 16];
    CutSize(e[2..], 14);
  }

  ghost predicate Binds(c: seq<Byte>, name: seq<Byte>, k: nat) {
    k < |c| / 16 && Name(Entry(c, k)) == name && Inum(Entry(c, k)) != 0
  }

  /** A name is bound when an entry in use has it, to the number in the first. */
  lemma {:induction false} DirMapMeans(c: seq<Byte>, name: seq<Byte>)
    ensures name in DirMap(c) <==> exists k: nat :: Binds(c, name, k)
    ensures forall k: nat :: Binds(c, name, k) && (forall j: nat :: j < k ==> !Binds(c, name, j)) ==>
      name in DirMap(c) && DirMap(c)[name] == Inum(Entry(c, k))
  {
    hide Entry, Inum, Name, DirMap, Lookup;
    LookupIsMap(c, name, 0);
    var r := Lookup(c, name, 0);
    assert forall k: nat :: k < Count(c) ==> (Binds(c, name, k) <==> Matches(c, k, name));
    assert r < Count(c) ==> Binds(c, name, r);
  }

  // ---- path names ----

  /** Slashes only separate, and a run of other bytes is an element, cut to
      fourteen bytes. */
  lemma ElemsMean(w: seq<Byte>, p: seq<Byte>)
    requires w != [] && 47 !in w && (p == [] || p[0] == 47)
    ensures Elems([]) == [] && Elems([47] + p) == Elems(p)
    ensures Elems(w + p) == [if |w| > 14 then w[..14] else w] + Elems(p)
  {
    NoneLeft([]);
    SkipSlash([47] + p);
    assert ([47] + p)[1..] == p;
    assert (w + p)[..|w|] == w && (w + p)[|w|..] == p;
    TakeWord(w + p, |w|);
    assert (w + p)[..if |w| > 14 then 14 else |w|] == if |w| > 14 then w[..14] else w;
  }
}
