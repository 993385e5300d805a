/** Resolving path names: the left fold of directory lookup. */
module Paths {
  import opened Bitmap
  import opened Blocks
  import opened Dinodes
  import opened Fs
  import opened Inodes
  import opened Names
  import opened Directories
  import opened Params

  /** One step down: what a directory says of a name. */
  ghost function Step(v: View, inum: nat, name: seq<Byte>): Option<nat> {
    if inum >= |v.tab| || v.tab[inum].typ != T_DIR then None
    else
      var c := Contents(v.store, v.tab[inum]);
      var k := Lookup(c, name, 0);
      if k < Count(c) then Some(Inum(Entry(c, k))) else None
  }

  ghost function Walk(v: View, inum: nat, elems: seq<seq<Byte>>): Option<nat>
    decreases |elems|
  {
    if elems == [] then Some(inum)
    else
      match Step(v, inum, elems[0])
      case None => None
      case Some(i) => Walk(v, i, elems[1..])
  }

  /** The directory that holds the last element. */
  ghost function WalkParent(v: View, inum: nat, elems: seq<seq<Byte>>): Option<nat>
    decreases |elems|
  {
    if elems == [] then None
    else if |elems| == 1 then (if inum < |v.tab| && v.tab[inum].typ == T_DIR then Some(inum) else None)
    else
      match Step(v, inum, elems[0])
      case None => None
      case Some(i) => WalkParent(v, i, elems[1..])
  }

  /** Resolving a path is resolving its parent and then looking up the last
      element there. */
  lemma {:induction false} ParentThenStep(v: View, inum: nat, elems: seq<seq<Byte>>)
    requires elems != []
    ensures Walk(v, inum, elems) ==
      match WalkParent(v, inum, elems)
      case None => None
      case Some(d) => Step(v, d, elems[|elems| - 1])
    decreases |elems|
  {
    hide Step;
    if |elems| == 1 {
      assert elems[1..] == [];
      NotDir(v, inum, elems[0]);
    } else if Step(v, inum, elems[0]).Some? {
      ParentThenStep(v, Step(v, inum, elems[0]).value, elems[1..]);
    }
  }

  lemma NotDir(v: View, inum: nat, name: seq<Byte>)
    ensures inum >= |v.tab| || v.tab[inum].typ != T_DIR ==> Step(v, inum, name) == None
  {
  }

  /** The walk of a path is the walk of its first part and then of the rest. */
  lemma {:induction false} WalkTwice(v: View, inum: nat, a: seq<seq<Byte>>, b: seq<seq<Byte>>)
    ensures Walk(v, inum, a + b) ==
      match Walk(v, inum, a)
      case None => None
      case Some(i) => Walk(v, i, b)
    decreases |a|
  {
    if a == [] {
      assert a + b == b;
    } else {
      assert (a + b)[0] == a[0] && (a + b)[1..] == a[1..] + b;
      if Step(v, inum, a[0]).Some? { WalkTwice(v, Step(v, inum, a[0]).value, a[1..], b); }
    }
  }

  /** A step down is what the directory, as a map, binds the name to. */
  lemma StepIsBinding(v: View, inum: nat, name: seq<Byte>)
    ensures Step(v, inum, name) ==
      if inum < |v.tab| && v.tab[inum].typ == T_DIR && name in DirMap(Contents(v.store, v.tab[inum]))
      then Some(DirMap(Contents(v.store, v.tab[inum]))[name]) else None
  {
    hide Contents, Lookup, DirMap;
    if inum < |v.tab| && v.tab[inum].typ == T_DIR { LookupIsMap(Contents(v.store, v.tab[inum]), name, 0); }
  }

  /** A walk of no element stays, and one of a single element is a step. */
  lemma WalkOne(v: View, inum: nat, name: seq<Byte>)
    ensures Walk(v, inum, []) == Some(inum) && Walk(v, inum, [name]) == Step(v, inum, name)
  {
    hide Step;
    assert [name][1..] == [];
  }

  /** The parent is where all elements but the last lead, if that is a
      directory. */
  lemma {:induction false} ParentIsWalk(v: View, inum: nat, elems: seq<seq<Byte>>)
    requires elems != []
    ensures WalkParent(v, inum, elems) ==
      match Walk(v, inum, elems[..|elems| - 1])
      case None => None
      case Some(d) => if d < |v.tab| && v.tab[d].typ == T_DIR then Some(d) else None
    decreases |elems|
  {
    hide Step;
    if |elems| > 1 {
      assert elems[..|elems| - 1][1..] == elems[1..][..|elems| - 2];
      if Step(v, inum, elems[0]).Some? { ParentIsWalk(v, Step(v, inum, elems[0]).value, elems[1..]); }
    }
  }

  ghost predicate NamesOk(v: View, c: seq<Byte>) {
    forall k: nat {:trigger Entry(c, k)} :: k < Count(c) && Inum(Entry(c, k)) != 0 ==>
      Inum(Entry(c, k)) < |v.tab| && v.tab[Inum(Entry(c, k))].typ != 0 && v.tab[Inum(Entry(c, k))].nlink > 0
  }

  ghost predicate DirOk(v: View, i: nat)
    requires i < |v.tab|
  {
    v.tab[i].typ == T_DIR ==> IsDir(Contents(v.store, v.tab[i])) && NamesOk(v, Contents(v.store, v.tab[i]))
  }

  /** Directories hold whole entries, which name inodes that have links. */
  ghost predicate Tree(v: View) {
    && ROOTINO < |v.tab| && v.tab[ROOTINO].typ != 0 && v.tab[ROOTINO].nlink > 0
    && forall i: nat :: i < |v.tab| ==> DirOk(v, i)
  }

  lemma StepOk(v: View, inum: nat, name: seq<Byte>)
    requires Tree(v)
    ensures Step(v, inum, name).Some? ==>
      var i := Step(v, inum, name).value;
      0 < i < |v.tab| && v.tab[i].typ != 0 && v.tab[i].nlink > 0
  {
    hide Contents, Entry, Inum;
    if Step(v, inum, name).Some? { assert DirOk(v, inum); }
  }

  /** A reference that may be dropped without freeing the inode. */
  ghost predicate Held(ic: Icache, ip: Inode)
    requires ic.Valid()
    reads ic.fs, ic.inode, ip
  {
    ip in ic.inode && ip.ref > 0 && ic.fs.dinode[ip.inum].typ != 0 && (ip.ref > 1 || ic.fs.dinode[ip.inum].nlink > 0)
  }

  ghost predicate Room(ic: Icache)
    reads ic.inode
  {
    exists x :: x in ic.inode && x.ref == 0
  }

  /** iput of a reference that is not the last one to an unlinked inode. */
  method Drop(ic: Icache, ip: Inode)
    requires ic.Valid() && Held(ic, ip)
    modifies ic.fs`store, ic.fs`dinode, ic.fs`owner, ic.fs`logged, ic.fs`steps, ic.inode
    ensures ic.Valid() && ic.D() == old(ic.D())
    ensures forall x <- ic.inode :: x.ref == old(x.ref) - (if x == ip then 1 else 0) && x.inum == old(x.inum)
  {
    hide Ok, At, Free;
    ic.Iput(ip);
  }

  /** One round of namex below a directory: the next inode is taken, this one
      is let go. */
  method Descend(ic: Icache, ip: Inode, name: seq<Byte>) returns (next: Inode?)
    requires ic.Valid() && Held(ic, ip) && ip.valid && ip.d.typ == T_DIR
    requires Tree(ic.D()) && Room(ic) && Readable(name, DIRSIZ)
    modifies ic.fs`store, ic.fs`dinode, ic.fs`owner, ic.fs`logged, ic.fs`steps, ic.inode
    ensures ic.Valid() && ic.D() == old(ic.D())
    ensures
      match Step(ic.D(), old(ip.inum), Cut(name, DIRSIZ))
      case None => next == null
      case Some(i) => next != null && next in ic.inode && next.inum == i && Held(ic, next)
    ensures forall x <- ic.inode :: x.ref == old(x.ref) + (if x == next then 1 else 0) - (if x == ip then 1 else 0)
    ensures forall x <- ic.inode :: old(x.ref) > 0 ==> x.inum == old(x.inum)
  {
    hide Ok, Contents, Entry, Inum, Lookup;
    ghost var v := ic.D();
    assert v.tab[ip.inum] == ip.d && DirOk(v, ip.inum);
    StepOk(v, ip.inum, Cut(name, DIRSIZ));
    assert Findable(ic, Contents(ic.fs.store, ip.d), Cut(name, DIRSIZ));
    var poff;
    next, poff := Dirlookup(ic, ip, name);
    ic.Iput(ip);
  }

  /** Where a path starts. */
  function Start(path: seq<Byte>, cwd: nat): nat {
    if path != [] && path[0] == SLASH then ROOTINO else cwd
  }

  /** What namex is to find. */
  ghost function Target(v: View, inum: nat, elems: seq<seq<Byte>>, parent: bool): Option<nat> {
    if parent then WalkParent(v, inum, elems) else Walk(v, inum, elems)
  }

  lemma TargetStep(v: View, inum: nat, elems: seq<seq<Byte>>, parent: bool)
    requires elems != []
    ensures inum < |v.tab| && v.tab[inum].typ != T_DIR ==> Target(v, inum, elems, parent) == None
    ensures parent && |elems| == 1 && inum < |v.tab| && v.tab[inum].typ == T_DIR ==>
      Target(v, inum, elems, parent) == Some(inum)
    ensures !parent || |elems| > 1 ==>
      Target(v, inum, elems, parent) ==
        match Step(v, inum, elems[0])
        case None => None
        case Some(i) => Target(v, i, elems[1..], parent)
  {
    hide Contents, Lookup, Entry, Inum;
    NotDir(v, inum, elems[0]);
  }

  lemma TargetEnd(v: View, inum: nat, parent: bool)
    ensures Target(v, inum, [], parent) == if parent then None else Some(inum)
  {
  }

  ghost predicate Reached(ic: Icache, t: Option<nat>, r: Inode?)
    reads ic.inode
  {
    match t
    case None => r == null
    case Some(i) => r != null && r in ic.inode && r.inum == i
  }

  /** One round of namex: it ends with the answer, or goes on from `r`. */
  method Round(ic: Icache, ip: Inode, name: seq<Byte>, last: bool, parent: bool, ghost es: seq<seq<Byte>>)
    returns (done: bool, r: Inode?)
    requires ic.Valid() && Held(ic, ip) && Tree(ic.D()) && Room(ic) && Readable(name, DIRSIZ)
    requires es != [] && es[0] == Cut(name, DIRSIZ) && (last <==> |es| == 1)
    modifies ic.fs`store, ic.fs`dinode, ic.fs`owner, ic.fs`logged, ic.fs`steps, ic.inode
    ensures ic.Valid() && ic.D() == old(ic.D())
    ensures done ==> Reached(ic, Target(ic.D(), old(ip.inum), es, parent), r) && (r != null ==> parent && last)
    ensures !done ==> r != null && r in ic.inode && Held(ic, r)
    ensures !done ==> Target(ic.D(), r.inum, es[1..], parent) == Target(ic.D(), old(ip.inum), es, parent)
    ensures forall x <- ic.inode :: x.ref == old(x.ref) + (if x == r then 1 else 0) - (if x == ip then 1 else 0)
    ensures forall x <- ic.inode :: old(x.ref) > 0 ==> x.inum == old(x.inum)
  {
    hide Ok, Tree, Step, Target, Elems, Contents;
    TargetStep(ic.D(), ip.inum, es, parent);
    var locked := ic.Ilock(ip);
    assert locked;
    if ip.d.typ != T_DIR {
      Drop(ic, ip);
      return true, null;
    }
    if parent && last { return true, ip; }
    r := Descend(ic, ip, name);
    done := r == null;
  }

  /** The inode a walk begins at, with a reference more. */
  method Begin(ic: Icache, path: seq<Byte>, cwd: Inode) returns (ip: Inode)
    requires ic.Valid() && Tree(ic.D())
    requires cwd in ic.inode && cwd.ref > 0 && ic.fs.dinode[cwd.inum].typ != 0 && Room(ic)
    modifies ic.inode
    ensures ic.Valid() && Held(ic, ip) && ip.inum == Start(path, old(cwd.inum))
    ensures forall x <- ic.inode :: x.ref == old(x.ref) + (if x == ip then 1 else 0)
    ensures forall x <- ic.inode :: old(x.ref) > 0 ==> x.inum == old(x.inum)
  {
    hide Ok, Contents, DirOk;
    if path != [] && path[0] == SLASH {
      ip := ic.Iget(ROOTINO);
    } else {
      ip := cwd;
      ip.ref := ip.ref + 1;
    }
  }

  /** namex: the inode that the left fold of lookups over the elements reaches
      from the root or the current directory, or that of its parent, with one
      reference added to it and to no other inode. */
  method Namex(ic: Icache, path: seq<Byte>, cwd: Inode, parent: bool) returns (r: Inode?, name: seq<Byte>)
    requires ic.Valid() && Tree(ic.D()) && 0 !in path
    requires cwd in ic.inode && cwd.ref > 0 && ic.fs.dinode[cwd.inum].typ != 0
    requires exists x, y :: x in ic.inode && y in ic.inode && x != y && x.ref == 0 && y.ref == 0
    modifies ic.fs`store, ic.fs`dinode, ic.fs`owner, ic.fs`logged, ic.fs`steps, ic.inode
    ensures ic.Valid() && ic.D() == old(ic.D())
    ensures path != [] && path[0] == 47 ==> Reached(ic, Target(ic.D(), 1, Elems(path), parent), r)
    ensures path == [] || path[0] != 47 ==> Reached(ic, Target(ic.D(), old(cwd.inum), Elems(path), parent), r)
    ensures r != null ==> r in ic.inode
    ensures Target(ic.D(), if path != [] && path[0] == 47 then 1 else old(cwd.inum), Elems(path), parent) ==
      if r == null then None else Some(r.inum)
    ensures r != null && parent ==> Elems(path) != [] && Cut(name, DIRSIZ) == Elems(path)[|Elems(path)| - 1]
    ensures forall x <- ic.inode :: x.ref == old(x.ref) + (if x == r then 1 else 0)
    ensures forall x <- ic.inode :: old(x.ref) > 0 ==> x.inum == old(x.inum)
  {
    hide Icache.Valid, Tree, Step, Target, Elems, Contents, Readable, Held;
    ghost var x, y :| x in ic.inode && y in ic.inode && x != y && x.ref == 0 && y.ref == 0;
    var ip := Begin(ic, path, cwd);
    assert path[0..] == path;
    var done;
    done, r, name := Follow(ic, path, ip, parent, x, y);
    if done { return; }
    TargetEnd(ic.D(), r.inum, parent);
    if parent {
      Drop(ic, r);
      return null, name;
    }
  }

  /** Two entries that only the walk at `ip` may hold. */
  ghost predicate Spared(ic: Icache, ip: Inode, x: Inode, y: Inode)
    reads ic.inode
  {
    && x in ic.inode && y in ic.inode && x != y
    && x.ref == (if x == ip then 1 else 0) && y.ref == if y == ip then 1 else 0
  }

  lemma HeldIn(ic: Icache, ip: Inode)
    requires ic.Valid() && Held(ic, ip)
    ensures ip in ic.inode
  {
  }

  /** The loop of namex, from `ip0`; it ends early with the answer, or at the
      end of the path. */
  method Follow(ic: Icache, path: seq<Byte>, ip0: Inode, parent: bool, ghost x: Inode, ghost y: Inode)
    returns (done: bool, r: Inode?, name: seq<Byte>)
    requires ic.Valid() && Held(ic, ip0) && Tree(ic.D()) && 0 !in path && Spared(ic, ip0, x, y)
    modifies ic.fs`store, ic.fs`dinode, ic.fs`owner, ic.fs`logged, ic.fs`steps, ic.inode
    ensures ic.Valid() && ic.D() == old(ic.D())
    ensures done ==> Reached(ic, Target(ic.D(), old(ip0.inum), Elems(path), parent), r)
    ensures !done ==> r != null && r in ic.inode && Held(ic, r)
    ensures !done ==> Target(ic.D(), old(ip0.inum), Elems(path), parent) == Target(ic.D(), r.inum, [], parent)
    ensures done && r != null ==> parent && Elems(path) != [] && Cut(name, DIRSIZ) == Elems(path)[|Elems(path)| - 1]
    ensures forall z <- ic.inode :: z.ref == old(z.ref) + (if z == r then 1 else 0) - (if z == ip0 then 1 else 0)
    ensures forall z <- ic.inode :: old(z.ref) > (if z == ip0 then 1 else 0) ==> z.inum == old(z.inum)
  {
    hide Icache.Valid, Tree, Step, Target, Elems, Contents, Readable, Held, Reached;
    ghost var v, start := ic.D(), ip0.inum;
    var ip: Inode := ip0;
    var at := 0;
    name := [];
    HeldIn(ic, ip);
    assert path[0..] == path;
    while true
      invariant at <= |path| && ic.Valid() && ic.D() == v && ip in ic.inode && Held(ic, ip)
      invariant forall z <- ic.inode :: z.ref == old(z.ref) + (if z == ip then 1 else 0) - (if z == ip0 then 1 else 0)
      invariant forall z <- ic.inode :: old(z.ref) > (if z == ip0 then 1 else 0) ==> z.inum == old(z.inum)
      invariant Target(v, start, Elems(path), parent) == Target(v, ip.inum, Elems(path[at..]), parent)
      invariant SameEnd(Elems(path), Elems(path[at..]))
      decreases |path| - at
    {
      var found, next, elem := Skipelem(path, at);
      if !found { break; }
      name := elem;
      ghost var es := Elems(path[at..]);
      assert Elems(path[next..]) == es[1..];
      assert Room(ic) by { assert x.ref == 0 || y.ref == 0; }
      var below;
      done, below := Round(ic, ip, name, next == |path|, parent, es);
      if done { return done, below, name; }
      ip, at := below, next;
    }
    return false, ip, name;
  }

  /** What is left of a path ends as the path does. */
  ghost predicate SameEnd(all: seq<seq<Byte>>, rest: seq<seq<Byte>>) {
    rest != [] ==> all != [] && all[|all| - 1] == rest[|rest| - 1]
  }
}
