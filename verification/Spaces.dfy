/** All address spaces over the one free list: every page has one owner. */
module Spaces {
  import opened PageTables
  import opened Params

  datatype Space = Space(root: nat, pgdir: map<nat, nat>, pte: map<nat, nat>)
  {
    ghost function Own(): set<nat> {
      Owned(root, pgdir, pte)
    }

    ghost predicate Fits(fl: seq<nat>) {
      Shape(pgdir, pte) && OneOwner(fl, root, pgdir, pte)
    }
  }

  ghost predicate SomeOwns(ss: seq<Space>, x: nat) {
    exists i :: 0 <= i < |ss| && x in ss[i].Own()
  }

  ghost predicate Apart(s: Space, t: Space) {
    s.Own() !! t.Own()
  }

  /** Each of the pages is on the free list or belongs to one address space, as
      its directory, a table or a user page of it, and to no other. */
  ghost predicate Partition(pages: set<nat>, fl: seq<nat>, ss: seq<Space>) {
    && Distinct(fl)
    && (forall i :: 0 <= i < |ss| ==> ss[i].Fits(fl))
    && (forall i, j :: 0 <= i < |ss| && 0 <= j < |ss| && i != j ==> Apart(ss[i], ss[j]))
    && forall x: nat {:trigger x in pages} {:trigger SomeOwns(ss, x)} :: x in pages <==> x in Set(fl) || SomeOwns(ss, x)
  }

  /** A page of the directory, of a table or of user memory. */
  ghost predicate Uses(s: Space, x: nat) {
    || x == s.root
    || (exists d :: d in s.pgdir && s.pgdir[d] == x)
    || exists v :: v in s.pte && v < 0x80000 && s.pte[v] == x
  }

  /** So no page is lost, none is both free and in use, and no process can touch
      a page of another. */
  lemma PartitionMeans(pages: set<nat>, fl: seq<nat>, ss: seq<Space>)
    requires Partition(pages, fl, ss)
    ensures forall x: nat :: x in pages <==> x in fl || exists i :: 0 <= i < |ss| && Uses(ss[i], x)
    ensures forall i, x: nat :: 0 <= i < |ss| && Uses(ss[i], x) ==> x !in fl
    ensures forall i, j, x: nat :: 0 <= i < |ss| && 0 <= j < |ss| && Uses(ss[i], x) && Uses(ss[j], x) ==> i == j
    ensures forall i, v, w :: 0 <= i < |ss| && v in ss[i].pte && w in ss[i].pte && v < w < 0x80000 ==>
      ss[i].pte[v] != ss[i].pte[w]
  {
    hide Owned, Set, OneOwner, Shape, Uses, Distinct;
    SetMeans(fl);
    forall i, x: nat | 0 <= i < |ss|
      ensures Uses(ss[i], x) <==> x in ss[i].Own()
    {
      UsesIsOwn(ss[i], x);
    }
    forall i | 0 <= i < |ss|
      ensures Set(fl) !! ss[i].Own()
      ensures forall v <- ss[i].pte, w <- ss[i].pte :: v < w < 0x80000 ==> ss[i].pte[v] != ss[i].pte[w]
    {
      FitsApart(ss[i], fl);
      OneOwnerMeans(fl, ss[i].root, ss[i].pgdir, ss[i].pte);
    }
    forall i, j, x: nat | 0 <= i < |ss| && 0 <= j < |ss| && i != j && Uses(ss[i], x)
      ensures !Uses(ss[j], x)
    {
      assert Apart(ss[i], ss[j]);
    }
    forall x: nat
      ensures x in pages <==> x in fl || exists i :: 0 <= i < |ss| && Uses(ss[i], x)
    {
      assert SomeOwns(ss, x) <==> exists i :: 0 <= i < |ss| && Uses(ss[i], x);
    }
  }

  lemma UsesIsOwn(s: Space, x: nat)
    ensures Uses(s, x) <==> x in s.Own()
  {
    OwnedMeans([], s.root, s.pgdir, s.pte);
    assert Set([]) == {};
  }

  /** The free list has changed, but not into the pages of this one. */
  lemma StillFits(s: Space, fl: seq<nat>, fl': seq<nat>)
    requires s.Fits(fl) && Distinct(fl') && Set(fl') !! s.Own()
    ensures s.Fits(fl')
  {
  }

  lemma FitsApart(s: Space, fl: seq<nat>)
    requires s.Fits(fl)
    ensures Distinct(fl) && Set(fl) !! s.Own()
  {
  }

  /** One address space trades pages with the free list. */
  lemma Traded(pages: set<nat>, fl: seq<nat>, ss: seq<Space>, i: nat, fl': seq<nat>, s': Space)
    requires Partition(pages, fl, ss) && i < |ss| && s'.Fits(fl') && Set(fl') + s'.Own() == Set(fl) + ss[i].Own()
    ensures Partition(pages, fl', ss[i := s'])
  {
    hide Space.Fits, Space.Own, Set, Distinct;
    var ss' := ss[i := s'];
    FitsApart(s', fl');
    forall j | 0 <= j < |ss| && j != i
      ensures ss'[j].Fits(fl') && Apart(ss'[j], s') && Apart(s', ss'[j])
    {
      assert Apart(ss[j], ss[i]);
      FitsApart(ss[j], fl);
      StillFits(ss[j], fl, fl');
    }
    forall x: nat
      ensures x in pages <==> x in Set(fl') || SomeOwns(ss', x)
    {
      if SomeOwns(ss, x) {
        var j :| 0 <= j < |ss| && x in ss[j].Own();
        assert x in if j == i then Set(fl') + s'.Own() else ss'[j].Own();
        if j == i && x !in Set(fl') { assert x in ss'[i].Own(); }
      }
      if SomeOwns(ss', x) {
        var j :| 0 <= j < |ss'| && x in ss'[j].Own();
        if j == i { assert x in Set(fl) + ss[i].Own(); } else { assert x in ss[j].Own(); }
      }
      if x in Set(fl) { assert x in Set(fl') + s'.Own() && s' == ss'[i]; }
      if x in Set(fl') { assert x in Set(fl) + ss[i].Own(); }
    }
  }

  /** A new one takes its pages from the free list. */
  lemma Added(pages: set<nat>, fl: seq<nat>, ss: seq<Space>, fl': seq<nat>, s': Space)
    requires Partition(pages, fl, ss) && s'.Fits(fl') && Set(fl') + s'.Own() == Set(fl)
    ensures Partition(pages, fl', ss + [s'])
  {
    hide Space.Fits, Space.Own, Set, Distinct;
    var ss' := ss + [s'];
    FitsApart(s', fl');
    forall j | 0 <= j < |ss|
      ensures ss'[j].Fits(fl') && Apart(ss'[j], s') && Apart(s', ss'[j])
    {
      FitsApart(ss[j], fl);
      StillFits(ss[j], fl, fl');
    }
    forall x: nat
      ensures x in pages <==> x in Set(fl') || SomeOwns(ss', x)
    {
      if SomeOwns(ss, x) {
        var j :| 0 <= j < |ss| && x in ss[j].Own();
        assert x in ss'[j].Own();
      }
      if SomeOwns(ss', x) {
        var j :| 0 <= j < |ss'| && x in ss'[j].Own();
        if j < |ss| { assert x in ss[j].Own(); } else { assert x in Set(fl); }
      }
      if x in Set(fl) && x !in Set(fl') { assert x in ss'[|ss|].Own(); }
    }
  }

  /** One gives all its pages back. */
  lemma Dropped(pages: set<nat>, fl: seq<nat>, ss: seq<Space>, i: nat, fl': seq<nat>)
    requires Partition(pages, fl, ss) && i < |ss| && Distinct(fl') && Set(fl') == Set(fl) + ss[i].Own()
    ensures Partition(pages, fl', ss[..i] + ss[i + 1..])
  {
    hide Space.Fits, Space.Own, Set, Distinct;
    var ss' := ss[..i] + ss[i + 1..];
    forall j | 0 <= j < |ss'|
      ensures ss'[j].Fits(fl')
    {
      var k := if j < i then j else j + 1;
      assert ss'[j] == ss[k] && Apart(ss[k], ss[i]);
      FitsApart(ss[k], fl);
      StillFits(ss[k], fl, fl');
    }
    forall j, k | 0 <= j < |ss'| && 0 <= k < |ss'| && j != k
      ensures Apart(ss'[j], ss'[k])
    {
      assert Apart(ss[if j < i then j else j + 1], ss[if k < i then k else k + 1]);
    }
    forall x: nat
      ensures x in pages <==> x in Set(fl') || SomeOwns(ss', x)
    {
      if SomeOwns(ss, x) {
        var j :| 0 <= j < |ss| && x in ss[j].Own();
        if j != i { assert ss'[if j < i then j else j - 1] == ss[j]; }
      }
      if SomeOwns(ss', x) {
        var j :| 0 <= j < |ss'| && x in ss'[j].Own();
        assert ss'[j] == ss[if j < i then j else j + 1];
      }
      if x in ss[i].Own() { assert SomeOwns(ss, x); }
    }
  }

  /** The free list holds the same pages, in another order. */
  lemma Reordered(pages: set<nat>, fl: seq<nat>, ss: seq<Space>, fl': seq<nat>)
    requires Partition(pages, fl, ss) && Distinct(fl') && Set(fl') == Set(fl)
    ensures Partition(pages, fl', ss)
  {
    hide Space.Fits, Space.Own, Set, Distinct;
    forall j | 0 <= j < |ss|
      ensures ss[j].Fits(fl')
    {
      FitsApart(ss[j], fl);
      StillFits(ss[j], fl, fl');
    }
  }

  ghost function SpaceOf(vm: Vm): Space
    reads vm
  {
    Space(vm.root, vm.pgdir, vm.pte)
  }

  ghost function SpacesOf(vms: seq<Vm>): (ss: seq<Space>)
    reads vms
    ensures |ss| == |vms| && forall i :: 0 <= i < |vms| ==> ss[i] == SpaceOf(vms[i])
  {
    seq(|vms|, i requires 0 <= i < |vms| reads vms => SpaceOf(vms[i]))
  }

  /** The processes' address spaces. */
  class System {
    const kmem: Kmem
    var vms: seq<Vm>
    ghost const pages: set<nat>

    ghost predicate Valid()
      reads this, kmem, vms
    {
      && kmem.Valid() && (forall vm <- vms :: vm.kmem == kmem)
      && (forall i, j :: 0 <= i < j < |vms| ==> vms[i] != vms[j])
      && Partition(pages, kmem.fl, SpacesOf(vms))
    }

    lemma One(i: nat)
      requires Valid() && i < |vms|
      ensures vms[i].kmem == kmem && kmem.Valid() && vms[i].Valid()
      ensures vms[i].All() == Set(kmem.fl) + SpacesOf(vms)[i].Own()
    {
      assert SpacesOf(vms)[i].Fits(kmem.fl);
    }

    constructor (kmem: Kmem)
      requires kmem.Valid()
      ensures this.kmem == kmem && vms == [] && pages == Set(kmem.fl) && Valid()
    {
      this.kmem, this.vms, this.pages := kmem, [], Set(kmem.fl);
    }

    /** growproc with a positive amount, or exec's allocation. */
    method Grow(vm: Vm, ghost i: nat, oldsz: nat, newsz: nat) returns (r: nat, ghost ok: bool)
      requires Valid() && i < |vms| && vms[i] == vm && Up(oldsz) <= NVP
      requires newsz < KERNBASE ==> Unmapped(vm.pte, Up(oldsz), Up(newsz))
      modifies vm`pgdir, vm`pte, kmem
      ensures Valid() && (!ok ==> vm.pte == old(vm.pte))
      ensures ok && oldsz <= newsz ==> r == newsz
      ensures ok && oldsz <= newsz ==>
        forall v: nat {:trigger v in vm.pte} :: v in vm.pte <==> v in old(vm.pte) || oldsz <= v * 4096 < newsz
    {
      hide Partition, Kmem.Valid, Vm.Valid, Adds, Unmapped;
      One(i);
      ghost var ss, fl := SpacesOf(vms), kmem.fl;
      r, ok := vm.Allocuvm(oldsz, newsz);
      Parts(vm);
      Trades(ss, fl, i);
    }

    /** deallocuvm on one of them. */
    method Shrink(vm: Vm, ghost i: nat, oldsz: nat, newsz: nat) returns (r: nat)
      requires Valid() && i < |vms| && vms[i] == vm && oldsz <= KERNBASE
      modifies vm`pgdir, vm`pte, kmem
      ensures Valid()
      ensures newsz < oldsz ==>
        forall v: nat {:trigger v in vm.pte} :: v in vm.pte <==> v in old(vm.pte) && !(newsz <= v * 4096 < oldsz)
      ensures newsz < oldsz ==> forall v <- vm.pte :: vm.pte[v] == old(vm.pte)[v]
    {
      hide Partition, Kmem.Valid, Vm.Valid, Outside, EachFree;
      One(i);
      ghost var ss, fl := SpacesOf(vms), kmem.fl;
      r := vm.Deallocuvm(oldsz, newsz);
      Parts(vm);
      Trades(ss, fl, i);
    }

    /** Only space `i` has changed, and it has its pages from the free list. */
    lemma Trades(ss: seq<Space>, fl: seq<nat>, i: nat)
      requires i < |vms| == |ss| && Partition(pages, fl, ss) && kmem.Valid() && (forall vm <- vms :: vm.kmem == kmem)
      requires (forall j, k :: 0 <= j < k < |vms| ==> vms[j] != vms[k]) && vms[i].Valid()
      requires forall j :: 0 <= j < |vms| && j != i ==> SpaceOf(vms[j]) == ss[j]
      requires vms[i].All() == Set(fl) + ss[i].Own()
      ensures Valid()
    {
      hide Partition, Kmem.Valid, OneOwner, Shape, Owned, Set;
      Traded(pages, fl, ss, i, kmem.fl, SpaceOf(vms[i]));
      assert SpacesOf(vms) == ss[i := SpaceOf(vms[i])];
    }

    /** setupkvm, for the first process or by exec. */
    method Create(data: nat) returns (ok: bool)
      requires Valid() && KERNLINK < data < KERNBASE + PHYSTOP && data % PGSIZE == 0
      modifies `vms, kmem
      ensures Valid()
      ensures if ok then |vms| == |old(vms)| + 1 && vms[..|old(vms)|] == old(vms) else vms == old(vms)
      ensures ok ==> KernelPart(vms[|old(vms)|].pte, 0, data, 4)
      ensures ok ==> forall v: nat {:trigger v in vms[|old(vms)|].pte} ::
        v in vms[|old(vms)|].pte <==> 0x80000 <= v < 0x8E000 || 0xFE000 <= v < 0x100000
    {
      hide Partition, Kmem.Valid, Vm.Valid, KernelPart;
      ghost var ss, fl := SpacesOf(vms), kmem.fl;
      var vm := Setupkvm(kmem, data);
      FreeValid(kmem);
      if vm == null {
        Reordered(pages, fl, ss, kmem.fl);
        assert SpacesOf(vms) == ss;
        return false;
      }
      Parts(vm);
      Added(pages, fl, ss, kmem.fl, SpaceOf(vm));
      vms := vms + [vm];
      assert SpacesOf(vms) == ss + [SpaceOf(vm)];
      return true;
    }

    /** fork's copy of an address space. */
    method Fork(vm: Vm, ghost i: nat, sz: nat, data: nat) returns (ok: bool)
      requires Valid() && i < |vms| && vms[i] == vm && sz <= KERNBASE && forall v: nat :: v < Up(sz) ==> v in vm.pte
      requires KERNLINK < data < KERNBASE + PHYSTOP && data % PGSIZE == 0
      modifies `vms, kmem
      ensures Valid()
      ensures if ok then |vms| == |old(vms)| + 1 && vms[..|old(vms)|] == old(vms) else vms == old(vms)
      ensures ok ==> forall v: nat :: v < KERNPAGE ==> (v in vms[|old(vms)|].pte <==> v * 4096 < sz)
    {
      hide Partition, Kmem.Valid, Vm.Valid, KernelPart;
      One(i);
      ghost var ss, fl := SpacesOf(vms), kmem.fl;
      var child := Copyuvm(vm, sz, data);
      Parts(vm);
      FreeValid(kmem);
      if child == null {
        Reordered(pages, fl, ss, kmem.fl);
        assert SpacesOf(vms) == ss;
        return false;
      }
      Parts(child);
      Added(pages, fl, ss, kmem.fl, SpaceOf(child));
      vms := vms + [child];
      assert SpacesOf(vms) == ss + [SpaceOf(child)];
      return true;
    }

    /** A process is reaped. */
    method Exit(vm: Vm, i: nat)
      requires Valid() && i < |vms| && vms[i] == vm
      modifies `vms, vm`pgdir, vm`pte, kmem
      ensures Valid() && vms == old(vms)[..i] + old(vms)[i + 1..]
    {
      hide Partition, Kmem.Valid, Vm.Valid;
      One(i);
      ghost var ss, fl := SpacesOf(vms), kmem.fl;
      vm.Freevm();
      FreeValid(kmem);
      Dropped(pages, fl, ss, i, kmem.fl);
      ghost var was := vms;
      vms := vms[..i] + vms[i + 1..];
      assert SpacesOf(vms) == ss[..i] + ss[i + 1..] by {
        assert forall j :: 0 <= j < |vms| ==> vms[j] == was[if j < i then j else j + 1];
      }
    }
  }

  lemma FreeValid(kmem: Kmem)
    requires kmem.Valid()
    ensures Distinct(kmem.fl)
  {
  }

  lemma Parts(vm: Vm)
    requires vm.Valid()
    ensures vm.kmem.Valid() && SpaceOf(vm).Fits(vm.kmem.fl) && vm.All() == Set(vm.kmem.fl) + SpaceOf(vm).Own()
  {
  }
}
