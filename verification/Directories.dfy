/** Directories as files of entries: looking up, linking, and resolving paths. */
module Directories {
  import opened Bitmap
  import opened Blocks
  import opened Dinodes
  import opened DiskLayout
  import opened Fs
  import opened Inodes
  import opened Names
  import opened Params

  // ---- what the bytes of a directory mean ----

  ghost predicate IsDir(c: seq<Byte>) {
    |c| % DIRENT == 0
  }

  function Count(c: seq<Byte>): nat {
    |c| / DIRENT
  }

  /** Entry `k` of a directory. */
  function Entry(c: seq<Byte>, k: nat): (e: seq<Byte>)
    requires k < Count(c)
    ensures |e| == DIRENT
  {
    c[DIRENT * k..DIRENT * k + DIRENT]
  }

  function Inum(e: seq<Byte>): nat
    requires |e| == DIRENT
  {
    var lo: int, hi: int := e[0], e[1];
    lo + 0x100 * hi
  }

  function Name(e: seq<Byte>): seq<Byte>
    requires |e| == DIRENT
  {
    Cut(e[2..], DIRSIZ)
  }

  function Pack(inum: nat, name: seq<Byte>): (e: seq<Byte>)
    requires |name| == DIRSIZ && inum < 0x1_0000
    ensures |e| == DIRENT && Inum(e) == inum && Name(e) == Cut(name, DIRSIZ)
  {
    var e := [inum % 0x100, inum / 0x100] + name;
    assert e[2..] == name;
    e
  }

  predicate Matches(c: seq<Byte>, k: nat, name: seq<Byte>)
    requires k < Count(c)
  {
    Inum(Entry(c, k)) != 0 && Name(Entry(c, k)) == name
  }

  /** The first entry from `k` on with this name, or the number of entries. */
  function Lookup(c: seq<Byte>, name: seq<Byte>, k: nat): (r: nat)
    requires k <= Count(c)
    ensures k <= r <= Count(c)
    ensures r < Count(c) ==> Matches(c, r, name)
    ensures forall j :: k <= j < r ==> !Matches(c, j, name)
    decreases Count(c) - k
  {
    if k == Count(c) || Matches(c, k, name) then k else Lookup(c, name, k + 1)
  }

  /** No two entries in use have the same name. */
  ghost predicate Distinct(c: seq<Byte>) {
    forall j: nat, k: nat {:trigger Entry(c, j), Entry(c, k)} ::
      j < k < Count(c) && Inum(Entry(c, j)) != 0 && Inum(Entry(c, k)) != 0 ==>
      Name(Entry(c, j)) != Name(Entry(c, k))
  }

  /** A directory as a finite map from names to inode numbers. */
  function DirMap(c: seq<Byte>, k: nat := 0): map<seq<Byte>, nat>
    requires k <= Count(c)
    decreases Count(c) - k
  {
    if k == Count(c) then map[]
    else if Inum(Entry(c, k)) == 0 then DirMap(c, k + 1)
    else DirMap(c, k + 1)[Name(Entry(c, k)) := Inum(Entry(c, k))]
  }

  /** The scan finds what the map says. */
  lemma {:induction false} LookupIsMap(c: seq<Byte>, name: seq<Byte>, k: nat)
    requires k <= Count(c)
    ensures Lookup(c, name, k) < Count(c) <==> name in DirMap(c, k)
    ensures Lookup(c, name, k) < Count(c) ==> DirMap(c, k)[name] == Inum(Entry(c, Lookup(c, name, k)))
    decreases Count(c) - k
  {
    hide Entry, Inum, Name;
    if k < Count(c) { LookupIsMap(c, name, k + 1); }
  }

  // ---- linking ----

  /** `c'` is `c` with entry `k`, unused or at the end, set to `e`. */
  ghost predicate Gains(c: seq<Byte>, c': seq<Byte>, k: nat, e: seq<Byte>)
    requires |e| == DIRENT
  {
    && k <= Count(c) && Count(c') == Max(Count(c), k + 1) && (k < Count(c) ==> Inum(Entry(c, k)) == 0)
    && forall j: nat {:trigger Entry(c', j)} :: j < Count(c') ==> Entry(c', j) == if j == k then e else Entry(c, j)
  }

  lemma OverlayGains(c: seq<Byte>, k: nat, e: seq<Byte>)
    requires IsDir(c) && |e| == DIRENT && k <= Count(c) && (k < Count(c) ==> Inum(Entry(c, k)) == 0)
    ensures DIRENT * k <= |c| && IsDir(Overlay(c, DIRENT * k, e)) && Gains(c, Overlay(c, DIRENT * k, e), k, e)
  {
    var c' := Overlay(c, DIRENT * k, e);
    forall j: nat | j < Count(c')
      ensures Entry(c', j) == if j == k then e else Entry(c, j)
    {
    }
  }

  lemma GainedNames(c: seq<Byte>, c': seq<Byte>, k: nat, e: seq<Byte>, name: seq<Byte>)
    requires |e| == DIRENT && Gains(c, c', k, e) && Inum(e) != 0 && Lookup(c, Name(e), 0) == Count(c)
    ensures name == Name(e) ==> Lookup(c', name, 0) == k
    ensures name != Name(e) ==>
      if Lookup(c, name, 0) < Count(c) then Lookup(c', name, 0) == Lookup(c, name, 0)
      else Lookup(c', name, 0) == Count(c')
  {
    hide Entry, Inum, Name;
    var r, r' := Lookup(c, name, 0), Lookup(c', name, 0);
    assert k < Count(c') && (Matches(c', k, name) <==> name == Name(e)) by { assert Entry(c', k) == e; }
    assert forall j: nat :: j < Count(c') && j != k ==> Matches(c', j, name) == Matches(c, j, name);
  }

  /** dirlink then dirlookup: the map gains one name. */
  lemma GainedMap(c: seq<Byte>, c': seq<Byte>, k: nat, e: seq<Byte>)
    requires |e| == DIRENT && Gains(c, c', k, e) && Inum(e) != 0 && Name(e) !in DirMap(c)
    ensures DirMap(c') == DirMap(c)[Name(e) := Inum(e)]
    ensures Distinct(c) ==> Distinct(c')
  {
    hide Entry, Inum, Name, Lookup, DirMap;
    LookupIsMap(c, Name(e), 0);
    forall name
      ensures name in DirMap(c') <==> name in DirMap(c) || name == Name(e)
      ensures name in DirMap(c') ==> DirMap(c')[name] == if name == Name(e) then Inum(e) else DirMap(c)[name]
    {
      LookupIsMap(c, name, 0);
      LookupIsMap(c', name, 0);
      GainedNames(c, c', k, e, name);
    }
    GainedDistinct(c, c', k, e);
  }

  lemma GainedDistinct(c: seq<Byte>, c': seq<Byte>, k: nat, e: seq<Byte>)
    requires |e| == DIRENT && Gains(c, c', k, e) && Lookup(c, Name(e), 0) == Count(c)
    ensures Distinct(c) ==> Distinct(c')
  {
    hide Entry, Inum, Name;
    if Distinct(c) {
      forall i: nat, j: nat | i < j < Count(c') && Inum(Entry(c', i)) != 0 && Inum(Entry(c', j)) != 0
        ensures Name(Entry(c', i)) != Name(Entry(c', j))
      {
        var o := if i == k then j else i;
        assert o != k && !Matches(c, o, Name(e));
      }
    }
  }

  // ---- dirlookup and dirlink ----

  /** `dp` is a locked directory of the cache. */
  ghost predicate Opened(ic: Icache, dp: Inode)
    reads ic.fs, ic.inode, dp
  {
    ic.Valid() && dp in ic.inode && dp.ref > 0 && dp.valid && dp.d.typ == T_DIR && IsDir(Contents(ic.fs.store, dp.d))
  }

  /** If the name is there, the cache has room for the inode it names. */
  ghost predicate Findable(ic: Icache, c: seq<Byte>, name: seq<Byte>)
    reads ic.fs`dinode, ic.inode
  {
    Lookup(c, name, 0) < Count(c) ==> RoomFor(ic, Inum(Entry(c, Lookup(c, name, 0))))
  }

  ghost predicate RoomFor(ic: Icache, inum: nat)
    reads ic.fs`dinode, ic.inode
  {
    inum < |ic.fs.dinode| && exists x :: x in ic.inode && (x.ref == 0 || x.inum == inum)
  }

  /** One round of the scans: the entry at `off`. */
  method ReadEntry(ic: Icache, dp: Inode, k: nat) returns (e: seq<Byte>)
    requires Opened(ic, dp) && k < Count(Contents(ic.fs.store, dp.d))
    modifies ic.fs`store, ic.fs`owner, ic.fs`logged, ic.fs`steps, dp`d
    ensures ic.fs.store == old(ic.fs.store) && ic.fs.owner == old(ic.fs.owner) && ic.fs.logged == old(ic.fs.logged)
    ensures ic.fs.steps == old(ic.fs.steps) && dp.d == old(dp.d)
    ensures Opened(ic, dp) && |e| == DIRENT && e == Entry(Contents(ic.fs.store, dp.d), k)
  {
    hide Ok, Contents;
    ContentsSize(ic.fs.store, dp.d);
    assert ic.fs.V(dp) == ic.D();
    var r;
    r, e := ic.fs.Readi(dp, DIRENT * k, DIRENT, None);
  }

  /** The scan of dirlookup: the index of the first entry with this name. */
  method Scan(ic: Icache, dp: Inode, name: seq<Byte>) returns (k: nat, inum: nat)
    requires Opened(ic, dp) && Readable(name, DIRSIZ)
    modifies ic.fs`store, ic.fs`owner, ic.fs`logged, ic.fs`steps, dp`d
    ensures ic.fs.store == old(ic.fs.store) && ic.fs.owner == old(ic.fs.owner) && ic.fs.logged == old(ic.fs.logged)
    ensures ic.fs.steps == old(ic.fs.steps) && dp.d == old(dp.d)
    ensures Opened(ic, dp) && k == Lookup(Contents(ic.fs.store, dp.d), Cut(name, DIRSIZ), 0)
    ensures inum == if k < Count(Contents(ic.fs.store, dp.d)) then Inum(Entry(Contents(ic.fs.store, dp.d), k)) else 0
  {
    hide Ok, Contents, Entry, Inum, Opened;
    ghost var c := Contents(ic.fs.store, dp.d);
    OpenedSize(ic, dp);
    k, inum := 0, 0;
    while DIRENT * k < dp.d.size
      invariant k <= Count(c) && Opened(ic, dp)
      invariant ic.fs.store == old(ic.fs.store) && ic.fs.owner == old(ic.fs.owner)
      invariant ic.fs.logged == old(ic.fs.logged) && ic.fs.steps == old(ic.fs.steps)
      invariant dp.d == old(dp.d)
      invariant Lookup(c, Cut(name, DIRSIZ), k) == Lookup(c, Cut(name, DIRSIZ), 0)
      decreases Count(c) - k
    {
      var e := ReadEntry(ic, dp, k);
      if Inum(e) != 0 {
        var r := Strncmp(name, e[2..], DIRSIZ);
        if r == 0 { return k, Inum(e); }
      }
      k := k + 1;
    }
  }

  lemma OpenedSize(ic: Icache, dp: Inode)
    requires Opened(ic, dp)
    ensures dp.d.size == DIRENT * Count(Contents(ic.fs.store, dp.d))
  {
    ContentsSize(ic.fs.store, dp.d);
  }

  /** dirlookup: the inode of the first entry with this name. */
  method Dirlookup(ic: Icache, dp: Inode, name: seq<Byte>) returns (ip: Inode?, poff: nat)
    requires Opened(ic, dp) && Readable(name, DIRSIZ)
    requires Findable(ic, Contents(ic.fs.store, dp.d), Cut(name, DIRSIZ))
    modifies ic.fs`store, ic.fs`owner, ic.fs`logged, ic.fs`steps, ic.inode
    ensures ic.fs.store == old(ic.fs.store) && ic.fs.owner == old(ic.fs.owner) && ic.fs.logged == old(ic.fs.logged)
    ensures ic.fs.steps == old(ic.fs.steps)
    ensures ic.Valid() && Opened(ic, dp) && dp.d == old(dp.d)
    ensures
      var c := Contents(ic.fs.store, dp.d);
      var k := Lookup(c, Cut(name, DIRSIZ), 0);
      if k < Count(c)
      then
        && ip != null && ip in ic.inode && ip.inum == Inum(Entry(c, k)) && poff == DIRENT * k
        && (ip.ref == 1 ==> !ip.valid)
      else ip == null
    ensures var m := DirMap(Contents(ic.fs.store, dp.d));
      if Cut(name, 14) in m then ip != null && ip.inum == m[Cut(name, 14)] else ip == null
    ensures forall x <- ic.inode :: x.ref == old(x.ref) + (if x == ip then 1 else 0)
    ensures forall x <- ic.inode :: old(x.ref) > 0 ==>
      x.inum == old(x.inum) && x.valid == old(x.valid) && x.d == old(x.d)
  {
    hide Ok, Contents, Entry, Inum, Name, Lookup, DirMap;
    ghost var c := Contents(ic.fs.store, dp.d);
    LookupIn(c, Cut(name, DIRSIZ));
    LookupIsMap(c, Cut(name, DIRSIZ), 0);
    var k, inum := Scan(ic, dp, name);
    if inum == 0 { return null, 0; }
    ip := ic.Iget(inum);
    poff := DIRENT * k;
  }

  lemma LookupIn(c: seq<Byte>, name: seq<Byte>)
    ensures var k := Lookup(c, name, 0); k <= Count(c) && (k < Count(c) ==> Inum(Entry(c, k)) != 0)
  {
  }

  /** The second scan of dirlink: the first unused entry, or the end. */
  method Vacant(ic: Icache, dp: Inode) returns (k: nat)
    requires Opened(ic, dp)
    modifies ic.fs`store, ic.fs`owner, ic.fs`logged, ic.fs`steps, dp`d
    ensures ic.fs.store == old(ic.fs.store) && ic.fs.owner == old(ic.fs.owner) && ic.fs.logged == old(ic.fs.logged)
    ensures ic.fs.steps == old(ic.fs.steps) && dp.d == old(dp.d)
    ensures Opened(ic, dp)
    ensures var c := Contents(ic.fs.store, dp.d);
      k <= Count(c) && (k < Count(c) ==> Inum(Entry(c, k)) == 0) && forall j: nat :: j < k ==> Inum(Entry(c, j)) != 0
  {
    hide Ok, Contents, Entry, Inum, Opened;
    ghost var c := Contents(ic.fs.store, dp.d);
    OpenedSize(ic, dp);
    k := 0;
    while DIRENT * k < dp.d.size
      invariant k <= Count(c) && Opened(ic, dp)
      invariant ic.fs.store == old(ic.fs.store) && ic.fs.owner == old(ic.fs.owner)
      invariant ic.fs.logged == old(ic.fs.logged) && ic.fs.steps == old(ic.fs.steps)
      invariant dp.d == old(dp.d) && forall j: nat :: j < k ==> Inum(Entry(c, j)) != 0
      decreases Count(c) - k
    {
      var e := ReadEntry(ic, dp, k);
      if Inum(e) == 0 { return; }
      k := k + 1;
    }
  }

  /** An entry that is not in use. */
  ghost predicate HasVacant(c: seq<Byte>) {
    exists k: nat {:trigger Entry(c, k)} :: k < Count(c) && Inum(Entry(c, k)) == 0
  }

  /** A directory that can have one more entry at its end. */
  ghost predicate CanGrow(sb: Super, v: View, i: nat) {
    && i < |v.tab| && v.tab[i].size + DIRENT <= MAXFILE * BSIZE
    && Spare(sb, v.store) >= Wanted(v, i, v.tab[i].size, v.tab[i].size + DIRENT)
  }

  lemma WantedNone(v: View, i: nat, e: nat, end: nat)
    requires i < |v.tab| && end <= e
    ensures Wanted(v, i, e, end) == 0
  {
    hide View.A, Left;
    RoundUpGrows(e, e);
  }

  /** What it takes to write entry `k`. */
  lemma EntryFits(ic: Icache, dp: Inode, c: seq<Byte>, k: nat)
    requires Opened(ic, dp) && c == Contents(ic.fs.store, dp.d) && k <= Count(c)
    requires k == Count(c) ==> CanGrow(ic.fs.sb, ic.D(), dp.inum)
    ensures dp.inum < |ic.fs.dinode| && Accepts(dp.d, DIRENT * k, DIRENT) && DIRENT * k + DIRENT < UINT
    ensures Spare(ic.fs.sb, ic.fs.store) >= Wanted(ic.fs.V(dp), dp.inum, dp.d.size, DIRENT * k + DIRENT)
    ensures ic.fs.Valid(dp) && ic.fs.dinode[dp.inum] == dp.d
  {
    hide Spare, Wanted, Contents, View.A, Referenced, Free;
    OpenedSize(ic, dp);
    assert ic.fs.V(dp) == ic.D();
    assert Covered(ic.D(), dp.inum);
    if k < Count(c) { WantedNone(ic.fs.V(dp), dp.inum, dp.d.size, DIRENT * k + DIRENT); }
  }

  /** Writing a directory entry. */
  method WriteEntry(ic: Icache, dp: Inode, k: nat, e: seq<Byte>)
    requires Opened(ic, dp) && |e| == DIRENT && k <= Count(Contents(ic.fs.store, dp.d))
    requires k < Count(Contents(ic.fs.store, dp.d)) ==> Inum(Entry(Contents(ic.fs.store, dp.d), k)) == 0
    requires k == Count(Contents(ic.fs.store, dp.d)) ==> CanGrow(ic.fs.sb, ic.D(), dp.inum)
    modifies ic.fs`store, ic.fs`dinode, ic.fs`owner, ic.fs`logged, ic.fs`steps, dp`d
    ensures Opened(ic, dp) && dp.d == old(dp.d).(size := dp.d.size, addrs := dp.d.addrs)
    ensures Gains(old(Contents(ic.fs.store, dp.d)), Contents(ic.fs.store, dp.d), k, e)
    ensures |ic.fs.dinode| == old(|ic.fs.dinode|)
    ensures forall j: nat :: j < |ic.fs.dinode| && j != dp.inum ==> ic.fs.dinode[j] == old(ic.fs.dinode)[j]
    ensures forall j: nat :: j < |ic.fs.dinode| && j != dp.inum ==>
      Contents(ic.fs.store, ic.fs.dinode[j]) == old(Contents(ic.fs.store, ic.fs.dinode[j]))
    ensures old(ic.fs.Journaled()) ==> ic.fs.Journaled()
  {
    hide InLog, Ok, Contents, Entry, Inum, Overlay, Gains, Spare, Wanted, CanGrow;
    ghost var c := Contents(ic.fs.store, dp.d);
    OpenedSize(ic, dp);
    OverlayGains(c, k, e);
    EntryFits(ic, dp, c, k);
    var r := ic.fs.Writei(dp, e, DIRENT * k, None, DIRENT * k + DIRENT);
    ContentsSize(ic.fs.store, dp.d);
    assert ic.fs.V(dp) == ic.D();
  }

  /** dirlink: the directory, as a map, gains one name, or the name is there
      already and nothing changes. */
  method Dirlink(ic: Icache, dp: Inode, name: seq<Byte>, inum: nat) returns (r: int)
    requires Opened(ic, dp) && Readable(name, DIRSIZ) && 0 < inum < 0x1_0000
    requires Findable(ic, Contents(ic.fs.store, dp.d), Cut(name, DIRSIZ))
    requires
      || Cut(name, DIRSIZ) in DirMap(Contents(ic.fs.store, dp.d)) || HasVacant(Contents(ic.fs.store, dp.d))
      || CanGrow(ic.fs.sb, ic.D(), dp.inum)
    modifies ic.fs`store, ic.fs`dinode, ic.fs`owner, ic.fs`logged, ic.fs`steps, ic.inode
    ensures Opened(ic, dp) && |ic.fs.dinode| == old(|ic.fs.dinode|)
    ensures r == if Cut(name, DIRSIZ) in old(DirMap(Contents(ic.fs.store, dp.d))) then -1 else 0
    ensures r == -1 ==> ic.D() == old(ic.D())
    ensures r == 0 ==>
      DirMap(Contents(ic.fs.store, dp.d)) == old(DirMap(Contents(ic.fs.store, dp.d)))[Cut(name, DIRSIZ) := inum]
    ensures old(Distinct(Contents(ic.fs.store, dp.d))) ==> Distinct(Contents(ic.fs.store, dp.d))
    ensures forall j: nat :: j < |ic.fs.dinode| && j != dp.inum ==>
      Contents(ic.fs.store, ic.fs.dinode[j]) == old(Contents(ic.fs.store, ic.fs.dinode[j]))
    ensures forall x <- ic.inode :: x.ref == old(x.ref) && (old(x.ref) > 0 ==> x.inum == old(x.inum))
    ensures old(ic.fs.Journaled()) ==> ic.fs.Journaled()
  {
    hide InLog, Ok, Contents, Entry, Inum, Lookup, DirMap, Distinct, Gains, Findable, CanGrow, HasVacant;
    ghost var c := Contents(ic.fs.store, dp.d);
    OpenedSize(ic, dp);
    LookupIsMap(c, Cut(name, DIRSIZ), 0);
    var ip, _ := Dirlookup(ic, dp, name);
    if ip != null {
      ic.Iput(ip);
      return -1;
    }
    var k := Vacant(ic, dp);
    VacantIs(c, k);
    var nm := Strncpy(name, DIRSIZ);
    PadCut(name);
    WriteEntry(ic, dp, k, Pack(inum, nm));
    GainedMap(c, Contents(ic.fs.store, dp.d), k, Pack(inum, nm));
    return 0;
  }

  lemma VacantIs(c: seq<Byte>, k: nat)
    requires k <= Count(c) && forall j: nat :: j < k ==> Inum(Entry(c, j)) != 0
    ensures HasVacant(c) ==> k < Count(c)
  {
    hide Entry, Inum;
  }

  /** Padding a name does not change it. */
  lemma PadCut(t: seq<Byte>)
    ensures |Cut(t, DIRSIZ)| <= DIRSIZ && Cut(Pad(Cut(t, DIRSIZ), DIRSIZ), DIRSIZ) == Cut(t, DIRSIZ)
  {
    CutSize(t, DIRSIZ);
    var s := Cut(t, DIRSIZ);
    var p := Pad(s, DIRSIZ);
    assert p[..|s|] == s;
    CutAfter(p, DIRSIZ, |s|);
    assert Cut(p[|s|..], DIRSIZ - |s|) == [];
  }
}
