/** Physical pages: the kernel's free list, two-level page tables, and the
    user memory mapped by them. Pages and virtual pages are numbered. */
module PageTables {
  import opened Params

  const NPT := 1024                  // entries per page table and per directory
  const NVP := NPT * NPT             // virtual pages

  predicate Distinct(s: seq<nat>) {
    forall i, j :: 0 <= i < j < |s| ==> s[i] != s[j]
  }

  ghost function Set(s: seq<nat>): set<nat> {
    set x | x in s
  }

  // ---- what an address space owns ----

  ghost function Tables(pgdir: map<nat, nat>): set<nat> {
    set d | d in pgdir :: pgdir[d]
  }

  /** The frames of user pages; the kernel's mappings own nothing. */
  ghost function Frames(pte: map<nat, nat>): set<nat> {
    set v | v in pte && v < KERNPAGE :: pte[v]
  }

  ghost function Owned(root: nat, pgdir: map<nat, nat>, pte: map<nat, nat>): set<nat> {
    {root} + Tables(pgdir) + Frames(pte)
  }

  ghost predicate Shape(pgdir: map<nat, nat>, pte: map<nat, nat>) {
    && (forall d <- pgdir :: d < NPT)
    && (forall v <- pte :: v < NVP && v / NPT in pgdir)
  }

  /** Every page has one owner: the free list, the directory, one entry of it,
      or one user mapping. */
  ghost predicate OneOwner(fl: seq<nat>, root: nat, pgdir: map<nat, nat>, pte: map<nat, nat>) {
    && Distinct(fl) && Set(fl) !! Owned(root, pgdir, pte)
    && root !in Tables(pgdir) && root !in Frames(pte) && Tables(pgdir) !! Frames(pte)
    && (forall d <- pgdir, e <- pgdir :: d != e ==> pgdir[d] != pgdir[e])
    && (forall v <- pte, w <- pte :: v != w && v < KERNPAGE && w < KERNPAGE ==> pte[v] != pte[w])
  }

  lemma TakeTable(fl: seq<nat>, root: nat, pgdir: map<nat, nat>, pte: map<nat, nat>, d: nat)
    requires OneOwner(fl, root, pgdir, pte) && fl != [] && d !in pgdir
    ensures OneOwner(fl[1..], root, pgdir[d := fl[0]], pte)
    ensures Set(fl[1..]) + Owned(root, pgdir[d := fl[0]], pte) == Set(fl) + Owned(root, pgdir, pte)
  {
    var p' := pgdir[d := fl[0]];
    assert fl[0] in Set(fl);
    forall x
      ensures x in Tables(p') <==> x in Tables(pgdir) || x == fl[0]
    {
      if x == fl[0] { assert d in p' && p'[d] == x; }
      if x in Tables(pgdir) {
        var e :| e in pgdir && pgdir[e] == x;
        assert e in p' && p'[e] == x;
      }
    }
    assert Tables(p') == Tables(pgdir) + {fl[0]};
    assert Set(fl) == Set(fl[1..]) + {fl[0]};
    assert fl[0] !in Set(fl[1..]);
  }

  lemma MapFrame(fl: seq<nat>, root: nat, pgdir: map<nat, nat>, pte: map<nat, nat>, v: nat, page: nat)
    requires OneOwner(fl, root, pgdir, pte) && v !in pte
    requires v < KERNPAGE ==> page !in Set(fl) + Owned(root, pgdir, pte)
    ensures OneOwner(fl, root, pgdir, pte[v := page])
    ensures Owned(root, pgdir, pte[v := page]) == Owned(root, pgdir, pte) + if v < KERNPAGE then {page} else {}
  {
    var p' := pte[v := page];
    forall x
      ensures x in Frames(p') <==> x in Frames(pte) || (v < KERNPAGE && x == page)
    {
      if v < KERNPAGE && x == page { assert v in p' && p'[v] == x; }
      if x in Frames(pte) {
        var w :| w in pte && w < KERNPAGE && pte[w] == x;
        assert w in p' && p'[w] == x;
      }
    }
    assert Frames(p') == Frames(pte) + if v < KERNPAGE then {page} else {};
  }

  lemma UnmapFrame(fl: seq<nat>, root: nat, pgdir: map<nat, nat>, pte: map<nat, nat>, v: nat)
    requires OneOwner(fl, root, pgdir, pte) && v in pte && v < KERNPAGE
    ensures pte[v] !in fl && OneOwner([pte[v]] + fl, root, pgdir, pte - {v})
    ensures Set([pte[v]] + fl) + Owned(root, pgdir, pte - {v}) == Set(fl) + Owned(root, pgdir, pte)
  {
    var p' := pte - {v};
    assert pte[v] in Frames(pte) && pte[v] in Owned(root, pgdir, pte);
    forall x
      ensures x in Frames(p') <==> x in Frames(pte) && x != pte[v]
    {
      if x in Frames(pte) && x != pte[v] {
        var w :| w in pte && w < KERNPAGE && pte[w] == x;
        assert w in p' && p'[w] == x;
      }
    }
    assert Frames(p') == Frames(pte) - {pte[v]};
    assert Set([pte[v]] + fl) == Set(fl) + {pte[v]};
  }

  const NIL: int := -1

  /** Page `k` of the list points to the next one. */
  ghost predicate LinkAt(fl: seq<nat>, next: map<nat, int>, k: nat)
    requires k < |fl|
  {
    fl[k] in next && next[fl[k]] == if k + 1 < |fl| then fl[k + 1] else NIL
  }

  /** The list from `head` is `fl`. */
  ghost predicate Linked(head: int, next: map<nat, int>, fl: seq<nat>) {
    && head == (if fl == [] then NIL else fl[0])
    && forall k: nat :: k < |fl| ==> LinkAt(fl, next, k)
  }

  lemma LinkedRest(head: int, next: map<nat, int>, fl: seq<nat>)
    requires Linked(head, next, fl) && fl != []
    ensures fl[0] in next && Linked(next[fl[0]], next, fl[1..])
  {
    assert LinkAt(fl, next, 0);
    forall k: nat | k < |fl| - 1
      ensures LinkAt(fl[1..], next, k)
    {
      assert LinkAt(fl, next, k + 1);
    }
  }

  lemma LinkedMore(head: int, next: map<nat, int>, fl: seq<nat>, p: nat)
    requires Linked(head, next, fl) && p !in fl
    ensures Linked(p, next[p := head], [p] + fl)
  {
    var fl', next' := [p] + fl, next[p := head];
    forall k: nat | k < |fl'|
      ensures LinkAt(fl', next', k)
    {
      if k > 0 { assert LinkAt(fl, next, k - 1); }
    }
  }

  ghost predicate InRun(x: nat, first: nat, end: nat) {
    first <= x < end
  }

  ghost function Run(first: nat, end: nat): set<nat> {
    set x: nat | x < end && InRun(x, first, end)
  }

  /** The free pages as a list through the pages themselves. */
  class Kmem {
    var freelist: int
    var next: map<nat, int>      // the first word of each free page
    ghost var fl: seq<nat>       // the list, from its head

    ghost predicate Valid()
      reads this
    {
      Linked(freelist, next, fl) && Distinct(fl)
    }

    constructor ()
      ensures Valid() && fl == []
    {
      freelist, next, fl := NIL, map[], [];
    }

    method Kalloc() returns (p: Option<nat>)
      requires Valid()
      modifies this
      ensures Valid()
      ensures old(fl) == [] ==> p == None && fl == []
      ensures old(fl) != [] ==> p == Some(old(fl)[0]) && fl == old(fl)[1..] && p.value !in fl
    {
      hide Linked;
      HeadOf(freelist, next, fl);
      if freelist == NIL { return None; }
      LinkedRest(freelist, next, fl);
      p := Some(freelist as nat);
      freelist := next[freelist];
      fl := fl[1..];
    }

    method Kfree(p: nat)
      requires Valid() && p !in fl
      modifies this
      ensures Valid() && fl == [p] + old(fl)
    {
      hide Linked;
      LinkedMore(freelist, next, fl, p);
      next := next[p := freelist];
      freelist := p;
      fl := [p] + fl;
    }

    /** freerange: the pages that lie wholly between the two addresses. */
    method Freerange(vstart: nat, vend: nat)
      requires Valid() && Set(fl) !! Run(Up(vstart), PageOf(vend))
      modifies this
      ensures Valid() && Set(fl) == old(Set(fl)) + Run(Up(vstart), PageOf(vend))
      ensures forall p: nat :: p in fl <==> p in old(fl) || (vstart <= p * 4096 && p * 4096 + 4096 <= vend)
    {
      hide Linked;
      var p := Up(vstart) * PGSIZE;
      while p + PGSIZE <= vend
        invariant p % PGSIZE == 0 && Valid() && PageOf(p) >= Up(vstart)
        invariant p + PGSIZE <= vend ==> PageOf(p) < PageOf(vend)
        invariant PageOf(p) <= Max(Up(vstart), PageOf(vend))
        invariant Set(fl) == old(Set(fl)) + Run(Up(vstart), PageOf(p))
      {
        RunNext(Up(vstart), PageOf(p));
        RunIn(Up(vstart), PageOf(p), PageOf(vend));
        ghost var was := fl;
        Kfree(PageOf(p));
        assert Set(fl) == Set(was) + {PageOf(p)};
        p := p + PGSIZE;
      }
      RunEmpty(Up(vstart), PageOf(p), PageOf(vend));
      forall x: nat
        ensures x in fl <==> x in old(fl) || (vstart <= x * 4096 && x * 4096 + 4096 <= vend)
      {
        assert x in fl <==> x in Set(fl);
        assert x in old(fl) <==> x in old(Set(fl));
        RunMeans(vstart, vend, x);
      }
    }
  }

  lemma RunMeans(vstart: nat, vend: nat, x: nat)
    ensures x in Run(Up(vstart), PageOf(vend)) <==> vstart <= x * 4096 && x * 4096 + 4096 <= vend
  {
    UpMeans(vstart, x);
    assert x < PageOf(vend) <==> x * 4096 + 4096 <= vend;
    assert x in Run(Up(vstart), PageOf(vend)) <==> InRun(x, Up(vstart), PageOf(vend));
  }

  /** Rounding up is to the first page that begins at or past the address. */
  lemma UpMeans(sz: nat, x: nat)
    ensures x < Up(sz) <==> x * 4096 < sz
  {
  }

  lemma HoleMeans(pte: map<nat, nat>, lo: nat, hi: nat)
    ensures forall v: nat {:trigger v in pte} {:trigger v in Outside(pte, Up(lo), Up(hi))} ::
      v in Outside(pte, Up(lo), Up(hi)) <==> v in pte && !(lo <= v * 4096 < hi)
    ensures forall v <- Outside(pte, Up(lo), Up(hi)) :: Outside(pte, Up(lo), Up(hi))[v] == pte[v]
  {
    forall v: nat
      ensures v in Outside(pte, Up(lo), Up(hi)) <==> v in pte && !(lo <= v * 4096 < hi)
    {
      UpMeans(lo, v);
      UpMeans(hi, v);
    }
  }

  lemma {:induction false} EachFreeMeans(pte: map<nat, nat>, v: nat, hi: nat, fl: seq<nat>, x: nat)
    ensures x in EachFree(pte, v, hi, fl) <==> x in fl || exists w :: w in pte && v <= w < hi && pte[w] == x
    decreases hi - v
  {
    if v < hi {
      EachFreeMeans(pte, v + 1, hi, if v in pte then [pte[v]] + fl else fl, x);
    }
  }

  /** What the free list gets back. */
  lemma FreedMeans(pte: map<nat, nat>, lo: nat, hi: nat, fl: seq<nat>)
    ensures forall x: nat {:trigger x in EachFree(pte, Up(lo), Up(hi), fl)} ::
      x in EachFree(pte, Up(lo), Up(hi), fl) <==> x in fl || exists v :: v in pte && lo <= v * 4096 < hi && pte[v] == x
  {
    hide Up, EachFree;
    forall x: nat
      ensures x in EachFree(pte, Up(lo), Up(hi), fl) <==>
        x in fl || exists v :: v in pte && lo <= v * 4096 < hi && pte[v] == x
    {
      EachFreeMeans(pte, Up(lo), Up(hi), fl, x);
      forall v: nat
        ensures Up(lo) <= v < Up(hi) <==> lo <= v * 4096 < hi
      {
        UpMeans(lo, v);
        UpMeans(hi, v);
      }
    }
  }

  lemma AddsMeans(p0: map<nat, nat>, pte: map<nat, nat>, lo: nat, hi: nat)
    requires Adds(p0, pte, Up(lo), Up(hi))
    ensures forall v: nat {:trigger v in pte} :: v in pte <==> v in p0 || lo <= v * 4096 < hi
    ensures forall v <- p0 :: v in pte && pte[v] == p0[v]
  {
    hide Up;
    forall v: nat
      ensures v in pte <==> v in p0 || lo <= v * 4096 < hi
    {
      UpMeans(lo, v);
      UpMeans(hi, v);
    }
  }

  lemma HeadOf(head: int, next: map<nat, int>, fl: seq<nat>)
    requires Linked(head, next, fl)
    ensures head == NIL <==> fl == []
    ensures fl != [] ==> head == fl[0]
  {
  }

  lemma RunNext(first: nat, p: nat)
    requires first <= p
    ensures Run(first, p + 1) == Run(first, p) + {p} && p !in Run(first, p)
  {
    assert InRun(p, first, p + 1);
  }

  lemma RunIn(first: nat, p: nat, end: nat)
    requires first <= p < end
    ensures p in Run(first, end)
  {
    assert InRun(p, first, end);
  }

  lemma RunEmpty(first: nat, p: nat, end: nat)
    requires p == Max(first, end)
    ensures Run(first, p) == Run(first, end)
  {
  }

  function PageOf(va: nat): nat {
    va / PGSIZE
  }

  /** `pte` with the `n` virtual pages from `first` mapped to pages from `pa`. */
  ghost predicate Maps(p0: map<nat, nat>, pte: map<nat, nat>, first: nat, n: nat, pa: nat) {
    && (forall v: nat {:trigger v in pte} :: v in pte <==> v in p0 || first <= v < first + n)
    && (forall v <- pte :: pte[v] == if first <= v < first + n then pa + (v - first) else p0[v])
  }

  ghost predicate IsUserFrame(x: nat, first: nat, n: nat, pa: nat) {
    pa <= x < pa + n && first + (x - pa) < KERNPAGE
  }

  /** The frames of those of the `n` pages from `first`, mapped from `pa` on,
      that are user pages. */
  ghost function UserFrames(first: nat, n: nat, pa: nat): set<nat> {
    set x: nat | x < pa + n && IsUserFrame(x, first, n, pa)
  }

  lemma FramesNext(first: nat, n: nat, pa: nat, all: nat)
    requires n < all
    ensures UserFrames(first, n + 1, pa) == UserFrames(first, n, pa) + (if first + n < KERNPAGE then {pa + n} else {})
    ensures pa + n !in UserFrames(first, n, pa) && (first + n < KERNPAGE ==> pa + n in UserFrames(first, all, pa))
    ensures UserFrames(first, 0, pa) == {}
  {
    assert first + n < KERNPAGE ==> IsUserFrame(pa + n, first, n + 1, pa) && IsUserFrame(pa + n, first, all, pa);
  }

  ghost predicate Unmapped(pte: map<nat, nat>, first: nat, end: nat) {
    forall v: nat {:trigger v in pte} :: first <= v < end ==> v !in pte
  }

  lemma MapsNothing(p0: map<nat, nat>, first: nat, pa: nat)
    ensures Maps(p0, p0, first, 0, pa)
  {
  }

  lemma MapsMeans(p0: map<nat, nat>, pte: map<nat, nat>, va: nat, size: nat, n: nat, pa: nat)
    requires 0 < size && Maps(p0, pte, PageOf(va), n, pa)
    ensures PageOf(va) == va / 4096 && PageOf(va + size - 1) == (va + size - 1) / 4096
    ensures forall v: nat {:trigger v in pte} :: v in pte <==> v in p0 || va / 4096 <= v < va / 4096 + n
    ensures forall v <- pte :: pte[v] == if va / 4096 <= v < va / 4096 + n then pa + (v - va / 4096) else p0[v]
  {
  }

  lemma MapsNext(p0: map<nat, nat>, pte: map<nat, nat>, first: nat, n: nat, pa: nat)
    requires Maps(p0, pte, first, n, pa)
    ensures Maps(p0, pte[first + n := pa + n], first, n + 1, pa)
  {
  }

  lemma NotYet(p0: map<nat, nat>, pte: map<nat, nat>, first: nat, n: nat, pa: nat, end: nat)
    requires Maps(p0, pte, first, n, pa) && Unmapped(p0, first, end) && first + n < end
    ensures first + n !in pte
  {
  }

  lemma PageRange(va: nat, size: nat)
    requires 0 < size && va + size <= UINT
    ensures va / PGSIZE * PGSIZE == PageOf(va) * PGSIZE
    ensures (va + size - 1) % UINT / PGSIZE * PGSIZE == PageOf(va + size - 1) * PGSIZE
    ensures PageOf(va) <= PageOf(va + size - 1) < NVP
  {
  }

  /** Directory entries are only added. */
  ghost predicate Extends(d0: map<nat, nat>, d1: map<nat, nat>) {
    forall d <- d0 :: d in d1 && d1[d] == d0[d]
  }

  class Vm {
    const kmem: Kmem
    const root: nat                  // the page of the directory
    var pgdir: map<nat, nat>         // the entries with PTE_P: pages of the tables
    var pte: map<nat, nat>           // the entries with PTE_P or PTE_E, by virtual page

    ghost predicate Valid()
      reads this, kmem
    {
      kmem.Valid() && Shape(pgdir, pte) && OneOwner(kmem.fl, root, pgdir, pte)
    }

    /** The free pages and those of this address space. */
    ghost function All(): set<nat>
      reads this, kmem
    {
      Set(kmem.fl) + Owned(root, pgdir, pte)
    }

    constructor (kmem: Kmem, root: nat)
      requires kmem.Valid() && root !in kmem.fl
      ensures this.kmem == kmem && this.root == root && pgdir == map[] && pte == map[] && Valid()
    {
      this.kmem, this.root, this.pgdir, this.pte := kmem, root, map[], map[];
    }

    /** walkpgdir: is there a page table for this page, or can there be? */
    method Walk(v: nat, alloc: bool) returns (ok: bool)
      requires Valid() && v < NVP
      modifies `pgdir, kmem
      ensures Valid() && All() == old(All()) && Extends(old(pgdir), pgdir) && (ok <==> v / NPT in pgdir)
      ensures !alloc || v / NPT in old(pgdir) ==> pgdir == old(pgdir) && kmem.fl == old(kmem.fl)
      ensures alloc && !ok ==> pgdir == old(pgdir) && kmem.fl == old(kmem.fl) == []
      ensures |kmem.fl| <= |old(kmem.fl)|
    {
      hide OneOwner, Owned;
      if v / NPT in pgdir { return true; }
      if !alloc { return false; }
      if kmem.fl != [] { TakeTable(kmem.fl, root, pgdir, pte, v / NPT); }
      var table := kmem.Kalloc();
      if table.None? { return false; }
      pgdir := pgdir[v / NPT := table.value];
      return true;
    }

    /** One round of mappages. */
    method MapOne(v: nat, page: nat) returns (ok: bool)
      requires Valid() && v < NVP && v !in pte && (v >= KERNPAGE || page !in All())
      modifies `pgdir, `pte, kmem
      ensures Valid() && Extends(old(pgdir), pgdir) && |kmem.fl| <= |old(kmem.fl)|
      ensures pte == if ok then old(pte)[v := page] else old(pte)
      ensures All() == old(All()) + if ok && v < KERNPAGE then {page} else {}
      ensures !ok ==> kmem.fl == []
    {
      hide OneOwner, Owned, Set;
      ok := Walk(v, true);
      if !ok { return; }
      MapFrame(kmem.fl, root, pgdir, pte, v, page);
      pte := pte[v := page];
    }

    /** mappages: entries for the pages from `va` up to `va + size - 1`, to
        consecutive pages from `pa`; part of them when the page tables run out.
        A range may end at the top of the address space. */
    method Mappages(va: nat, size: nat, pa0: nat) returns (r: int, ghost n: nat)
      requires Valid() && 0 < size && va + size <= UINT
      requires Unmapped(pte, PageOf(va), PageOf(va + size - 1) + 1)
      requires UserFrames(PageOf(va), PageOf(va + size - 1) + 1 - PageOf(va), pa0) !! All()
      modifies `pgdir, `pte, kmem
      ensures Valid() && Extends(old(pgdir), pgdir) && Maps(old(pte), pte, PageOf(va), n, pa0)
      ensures r == 0 ==> n == PageOf(va + size - 1) + 1 - PageOf(va) == (va + size - 1) / 4096 + 1 - va / 4096
      ensures forall v: nat {:trigger v in pte} ::
        v in pte <==> v in old(pte) || va / 4096 <= v < va / 4096 + n
      ensures forall v <- pte ::
        pte[v] == if va / 4096 <= v < va / 4096 + n then pa0 + (v - va / 4096) else old(pte)[v]
      ensures r != 0 ==> r == -1 && n < PageOf(va + size - 1) + 1 - PageOf(va) && kmem.fl == []
      ensures All() == old(All()) + UserFrames(PageOf(va), n, pa0)
      ensures |kmem.fl| <= |old(kmem.fl)|
    {
      hide Shape, OneOwner, Owned, Set, Kmem.Valid, Maps, UserFrames, Unmapped, PageOf;
      PageRange(va, size);
      MapsNothing(pte, PageOf(va), pa0);
      FramesNext(PageOf(va), 0, pa0, 1);
      var a, last, pa := va / PGSIZE * PGSIZE, (va + size - 1) % UINT / PGSIZE * PGSIZE, pa0;
      n := 0;
      while true
        invariant a == (PageOf(va) + n) * PGSIZE && a <= last && pa == pa0 + n
        invariant Valid() && Extends(old(pgdir), pgdir) && Maps(old(pte), pte, PageOf(va), n, pa0)
        invariant All() == old(All()) + UserFrames(PageOf(va), n, pa0) && |kmem.fl| <= |old(kmem.fl)|
        decreases last - a
      {
        OnePage(PageOf(va) + n);
        NotYet(old(pte), pte, PageOf(va), n, pa0, PageOf(va + size - 1) + 1);
        FramesNext(PageOf(va), n, pa0, PageOf(va + size - 1) + 1 - PageOf(va));
        ghost var p1 := pte;
        var ok := MapOne(PageOf(a), pa);
        if !ok {
          MapsMeans(old(pte), pte, va, size, n, pa0);
          return -1, n;
        }
        MapsNext(old(pte), p1, PageOf(va), n, pa0);
        n := n + 1;
        if a == last { break; }
        a := (a + PGSIZE) % UINT;
        pa := pa + 1;
      }
      MapsMeans(old(pte), pte, va, size, n, pa0);
      return 0, n;
    }

    /** deallocuvm: it skips whole tables that are missing, yet frees the same
        pages in the same order as going page by page. */
    method Deallocuvm(oldsz: nat, newsz: nat) returns (r: nat)
      requires Valid() && oldsz <= KERNBASE
      modifies `pgdir, `pte, kmem
      ensures Valid() && All() == old(All()) && pgdir == old(pgdir)
      ensures newsz >= oldsz ==> r == oldsz && pte == old(pte) && kmem.fl == old(kmem.fl)
      ensures newsz < oldsz ==> r == newsz && pte == Outside(old(pte), Up(newsz), Up(oldsz))
      ensures newsz < oldsz ==> kmem.fl == EachFree(old(pte), Up(newsz), Up(oldsz), old(kmem.fl))
      ensures newsz < oldsz ==>
        forall v: nat {:trigger v in pte} :: v in pte <==> v in old(pte) && !(newsz <= v * 4096 < oldsz)
      ensures newsz < oldsz ==> forall v <- pte :: pte[v] == old(pte)[v]
      ensures newsz < oldsz ==> forall x: nat {:trigger x in kmem.fl} ::
        x in kmem.fl <==>
        x in old(kmem.fl) || exists v :: v in old(pte) && newsz <= v * 4096 < oldsz && old(pte)[v] == x
    {
      hide Shape, OneOwner, Owned, Set, EachFree, Outside;
      if newsz >= oldsz { return oldsz; }
      var a := Up(newsz) * PGSIZE;
      ghost var p0, lo, hi := pte, Up(newsz), Up(oldsz);
      OutsideNone(p0, lo);
      ghost var g := lo;
      while a < oldsz
        invariant a % PGSIZE == 0 && lo <= g <= hi && (g == PageOf(a) || (g == hi && PageOf(a) >= hi))
        invariant Valid() && All() == old(All()) && pte == Outside(p0, lo, g) && pgdir == old(pgdir)
        invariant EachFree(p0, lo, hi, old(kmem.fl)) == EachFree(p0, g, hi, kmem.fl)
        decreases oldsz - a
      {
        var v := PageOf(a);
        assert v < hi;
        var next := DeallocOne(v, p0, lo, hi);
        g := Min(next, hi);
        a := next * PGSIZE;
      }
      EachFreeEnd(p0, hi, kmem.fl);
      HoleMeans(p0, newsz, oldsz);
      FreedMeans(p0, newsz, oldsz, old(kmem.fl));
      return newsz;
    }

    /** One round of deallocuvm at page `v`; the page it goes on to. */
    method DeallocOne(v: nat, ghost p0: map<nat, nat>, ghost lo: nat, ghost hi: nat) returns (next: nat)
      requires Valid() && lo <= v < hi && v < KERNPAGE && pte == Outside(p0, lo, v)
      modifies `pgdir, `pte, kmem
      ensures Valid() && All() == old(All()) && pgdir == old(pgdir) && v < next
      ensures pte == Outside(p0, lo, Min(next, hi))
      ensures EachFree(p0, v, hi, old(kmem.fl)) == EachFree(p0, Min(next, hi), hi, kmem.fl)
    {
      hide OneOwner, Owned, Set, EachFree, Outside;
      var table := Walk(v, false);
      if !table {
        NoTable(pgdir, pte, p0, lo, v);
        next := (v / NPT + 1) * NPT;
        EachFreeSkip(p0, lo, v, Min(next, hi), hi, kmem.fl);
      } else {
        EachFreeNext(p0, lo, v, hi, kmem.fl);
        OutsideNext(p0, lo, v);
        FreePage(v);
        next := v + 1;
      }
    }

    /** An entry in use is cleared and its page freed. */
    method FreePage(v: nat)
      requires Valid() && v < KERNPAGE
      modifies `pte, kmem
      ensures Valid() && All() == old(All()) && pte == old(pte) - {v}
      ensures kmem.fl == if v in old(pte) then [old(pte)[v]] + old(kmem.fl) else old(kmem.fl)
    {
      hide OneOwner, Owned, Set;
      if v in pte {
        UnmapFrame(kmem.fl, root, pgdir, pte, v);
        kmem.Kfree(pte[v]);
        pte := pte - {v};
      } else {
        assert pte - {v} == pte;
      }
    }

    /** Taking a page off the free list, for this address space or another. */
    method Take() returns (p: Option<nat>)
      requires Valid()
      modifies kmem
      ensures Valid() && (p.None? ==> kmem.fl == old(kmem.fl) == [])
      ensures p.Some? ==> p.value !in All() && All() + {p.value} == old(All())
      ensures |kmem.fl| <= |old(kmem.fl)|
    {
      if kmem.fl != [] { DropHead(kmem.fl, root, pgdir, pte); }
      p := kmem.Kalloc();
    }

    method Return(p: nat)
      requires Valid() && p !in All()
      modifies kmem
      ensures Valid() && All() == old(All()) + {p}
    {
      ghost var fl := kmem.fl;
      kmem.Kfree(p);
      assert Set(kmem.fl) == Set(fl) + {p};
    }

    /** One round of allocuvm: a zeroed page for virtual page `v`. When it fails
        for want of a page table, the page taken is still held. */
    method AllocPage(v: nat) returns (ok: bool, held: Option<nat>)
      requires Valid() && v < KERNPAGE && v !in pte
      modifies `pgdir, `pte, kmem
      ensures Valid() && (held.None? ==> All() == old(All()))
      ensures held.Some? ==> !ok && held.value !in All() && All() + {held.value} == old(All())
      ensures if ok then v in pte && pte == old(pte)[v := pte[v]] else pte == old(pte)
    {
      hide Shape, OneOwner, Owned, Set;
      var mem := Take();
      if mem.None? { return false, None; }
      OnePage(v);
      OneFrame(v, mem.value);
      var r, n := Mappages(v * PGSIZE, PGSIZE, mem.value);
      if r < 0 {
        MapsNone(old(pte), pte, v, mem.value, n);
        return false, mem;
      }
      MapsOne(old(pte), pte, v, mem.value);
      return true, None;
    }

    /** allocuvm: new pages for the whole range, or, when memory runs out, the
        user mappings as they were; no page is lost either way. */
    method Allocuvm(oldsz: nat, newsz: nat) returns (r: nat, ghost ok: bool)
      requires Valid() && Up(oldsz) <= NVP && (newsz < KERNBASE ==> Unmapped(pte, Up(oldsz), Up(newsz)))
      modifies `pgdir, `pte, kmem
      ensures Valid() && All() == old(All())
      ensures newsz >= KERNBASE ==> !ok
      ensures oldsz > newsz && newsz < KERNBASE ==> ok && r == oldsz && pte == old(pte)
      ensures oldsz <= newsz && ok ==> r == newsz && Adds(old(pte), pte, Up(oldsz), Up(newsz))
      ensures oldsz <= newsz && ok ==>
        forall v: nat {:trigger v in pte} :: v in pte <==> v in old(pte) || oldsz <= v * 4096 < newsz
      ensures oldsz <= newsz && ok ==> forall v <- old(pte) :: v in pte && pte[v] == old(pte)[v]
      ensures !ok ==> r == 0 && pte == old(pte)
    {
      hide Shape, OneOwner, Owned, Set, Adds, Outside;
      if newsz >= KERNBASE { return 0, false; }
      if newsz < oldsz { return oldsz, true; }
      var a := Up(oldsz) * PGSIZE;
      ghost var p0, lo, hi := pte, Up(oldsz), Up(newsz);
      AddsNone(p0, lo);
      while a < newsz
        invariant a % PGSIZE == 0 && lo <= PageOf(a) <= hi && Valid() && All() == old(All())
        invariant Adds(p0, pte, lo, PageOf(a))
        decreases newsz - a
      {
        AddsNext(p0, pte, lo, PageOf(a), hi);
        ghost var p1 := pte;
        var done, held := AllocPage(PageOf(a));
        if !done {
          AddsUndone(p0, pte, lo, PageOf(a), hi);
          var _ := Deallocuvm(newsz, oldsz);
          if held.Some? { Return(held.value); }
          return 0, false;
        }
        AddsMore(p0, p1, lo, PageOf(a), pte[PageOf(a)]);
        a := a + PGSIZE;
      }
      AddsMeans(p0, pte, oldsz, newsz);
      return newsz, true;
    }

    /** freevm: exactly the pages of this address space go back. */
    method Freevm()
      requires Valid()
      modifies `pgdir, `pte, kmem
      ensures kmem.Valid() && Set(kmem.fl) == old(All())
      ensures forall x: nat :: x in kmem.fl <==>
        || x in old(kmem.fl) || x == root
        || (exists d :: d in old(pgdir) && old(pgdir)[d] == x)
        || exists v :: v in old(pte) && v < 0x80000 && old(pte)[v] == x
    {
      hide EachFree, Shape, OneOwner, Owned, Kmem.Valid, Set;
      OwnedMeans(kmem.fl, root, pgdir, pte);
      var _ := Deallocuvm(KERNBASE, 0);
      NoFrames(old(pte), pte);
      ghost var fl, d, p := kmem.fl, pgdir, pte;
      TablesBelow(d, NPT);
      TablesLeft(fl, root, d, p);
      TablesFit(d, p);
      var i := 0;
      while i < NPT
        invariant i <= NPT && kmem.Valid() && pgdir == d
        invariant Set(kmem.fl) == Set(fl) + TablesTo(d, i)
      {
        TablesNext(d, i);
        if i in pgdir {
          TableFresh(fl, root, d, p, i);
          FreeOne(pgdir[i]);
        }
        i := i + 1;
      }
      FreeOne(root);
      assert forall x: nat :: x in kmem.fl <==> x in Set(kmem.fl) by { SetMeans(kmem.fl); }
    }

    method FreeOne(p: nat)
      requires kmem.Valid() && p !in Set(kmem.fl)
      modifies kmem
      ensures kmem.Valid() && Set(kmem.fl) == old(Set(kmem.fl)) + {p}
    {
      kmem.Kfree(p);
    }
  }

  lemma SetMeans(fl: seq<nat>)
    ensures forall x: nat :: x in fl <==> x in Set(fl)
  {
  }

  /** The pages that are free or belong to an address space. */
  lemma OwnedMeans(fl: seq<nat>, root: nat, pgdir: map<nat, nat>, pte: map<nat, nat>)
    ensures forall x: nat :: x in Set(fl) + Owned(root, pgdir, pte) <==>
      || x in fl || x == root
      || (exists d :: d in pgdir && pgdir[d] == x)
      || exists v :: v in pte && v < 0x80000 && pte[v] == x
  {
  }

  /** No page is both free and in use, and none is in use twice. */
  lemma OneOwnerMeans(fl: seq<nat>, root: nat, pgdir: map<nat, nat>, pte: map<nat, nat>)
    requires OneOwner(fl, root, pgdir, pte)
    ensures forall i, j :: 0 <= i < j < |fl| ==> fl[i] != fl[j]
    ensures root !in fl && (forall d <- pgdir :: pgdir[d] !in fl) && forall v <- pte :: v < 0x80000 ==> pte[v] !in fl
    ensures forall d <- pgdir :: pgdir[d] != root && forall e <- pgdir :: e != d ==> pgdir[e] != pgdir[d]
    ensures forall v <- pte :: v < 0x80000 ==> pte[v] != root && forall d <- pgdir :: pgdir[d] != pte[v]
    ensures forall v <- pte, w <- pte :: v < w < 0x80000 ==> pte[v] != pte[w]
  {
    forall v | v in pte && v < 0x80000
      ensures pte[v] in Frames(pte)
    {
    }
    forall d | d in pgdir
      ensures pgdir[d] in Tables(pgdir)
    {
    }
    SetMeans(fl);
    assert forall x: nat :: x in Tables(pgdir) || x in Frames(pte) || x == root ==> x in Owned(root, pgdir, pte);
  }

  lemma TablesFit(pgdir: map<nat, nat>, pte: map<nat, nat>)
    requires Shape(pgdir, pte)
    ensures forall d <- pgdir :: d < NPT
  {
  }

  lemma TablesLeft(fl: seq<nat>, root: nat, pgdir: map<nat, nat>, pte: map<nat, nat>)
    requires OneOwner(fl, root, pgdir, pte) && Frames(pte) == {}
    ensures Set(fl) + Owned(root, pgdir, pte) == Set(fl) + Tables(pgdir) + {root}
    ensures root !in Set(fl) + Tables(pgdir)
  {
  }

  lemma TableFresh(fl: seq<nat>, root: nat, pgdir: map<nat, nat>, pte: map<nat, nat>, i: nat)
    requires OneOwner(fl, root, pgdir, pte) && i in pgdir
    ensures pgdir[i] !in Set(fl) + TablesTo(pgdir, i)
  {
    assert pgdir[i] in Owned(root, pgdir, pte);
  }

  /** The tables of the directory entries before `i`. */
  ghost function TablesTo(pgdir: map<nat, nat>, i: nat): set<nat> {
    set d | d in pgdir && d < i :: pgdir[d]
  }

  lemma TablesBelow(pgdir: map<nat, nat>, i: nat)
    ensures TablesTo(pgdir, 0) == {} && ((forall d <- pgdir :: d < i) ==> TablesTo(pgdir, i) == Tables(pgdir))
  {
  }

  lemma TablesNext(pgdir: map<nat, nat>, i: nat)
    ensures TablesTo(pgdir, i + 1) == TablesTo(pgdir, i) + if i in pgdir then {pgdir[i]} else {}
  {
  }

  lemma NoFrames(p0: map<nat, nat>, pte: map<nat, nat>)
    requires pte == Outside(p0, Up(0), Up(KERNBASE))
    ensures Frames(pte) == {}
  {
  }

  ghost predicate Adds(p0: map<nat, nat>, pte: map<nat, nat>, lo: nat, hi: nat) {
    && (forall v: nat {:trigger v in pte} :: v in pte <==> v in p0 || lo <= v < hi)
    && (forall v <- p0 :: v in pte && pte[v] == p0[v])
  }

  lemma AddsNone(p0: map<nat, nat>, lo: nat)
    ensures Adds(p0, p0, lo, lo)
  {
  }

  lemma AddsNext(p0: map<nat, nat>, pte: map<nat, nat>, lo: nat, v: nat, hi: nat)
    requires Adds(p0, pte, lo, v) && lo <= v < hi && Unmapped(p0, lo, hi)
    ensures v !in pte
  {
  }

  lemma AddsMore(p0: map<nat, nat>, pte: map<nat, nat>, lo: nat, v: nat, page: nat)
    requires Adds(p0, pte, lo, v) && lo <= v && v !in pte
    ensures Adds(p0, pte[v := page], lo, v + 1)
  {
  }

  /** Taking the new pages away again gives the old mappings. */
  lemma AddsUndone(p0: map<nat, nat>, pte: map<nat, nat>, lo: nat, v: nat, hi: nat)
    requires Adds(p0, pte, lo, v) && lo <= v <= hi && Unmapped(p0, lo, hi)
    ensures Outside(pte, lo, hi) == p0
  {
    assert forall u: nat :: u in Outside(pte, lo, hi).Keys <==> u in p0.Keys;
  }

  lemma OneFrame(v: nat, pa: nat)
    requires v < KERNPAGE
    ensures UserFrames(v, 1, pa) == {pa} && UserFrames(v, 0, pa) == {}
  {
    FramesNext(v, 0, pa, 1);
  }

  lemma OnePage(v: nat)
    ensures PageOf(v * PGSIZE) == v && PageOf(v * PGSIZE + PGSIZE - 1) == v
  {
  }

  lemma MapsOne(p0: map<nat, nat>, pte: map<nat, nat>, v: nat, page: nat)
    requires Maps(p0, pte, v, 1, page)
    ensures pte == p0[v := page]
  {
  }

  lemma MapsNone(p0: map<nat, nat>, pte: map<nat, nat>, v: nat, page: nat, n: nat)
    requires Maps(p0, pte, v, n, page) && n == 0
    ensures pte == p0
  {
    assert forall w: nat :: w in pte.Keys <==> w in p0.Keys;
  }

  lemma DropHead(fl: seq<nat>, root: nat, pgdir: map<nat, nat>, pte: map<nat, nat>)
    requires OneOwner(fl, root, pgdir, pte) && fl != []
    ensures OneOwner(fl[1..], root, pgdir, pte) && fl[0] !in Set(fl[1..]) + Owned(root, pgdir, pte)
    ensures Set(fl[1..]) + {fl[0]} == Set(fl)
  {
    assert fl[0] in Set(fl);
  }

  /** PGROUNDUP, in pages. */
  function Up(sz: nat): nat {
    (sz + PGSIZE - 1) / PGSIZE
  }

  /** The mappings outside a range of pages. */
  ghost function Outside(pte: map<nat, nat>, lo: nat, hi: nat): map<nat, nat> {
    map v | v in pte && !(lo <= v < hi) :: pte[v]
  }

  /** The free list after the pages mapped from `v` up to `hi` are freed one by
      one. */
  function EachFree(pte: map<nat, nat>, v: nat, hi: nat, fl: seq<nat>): seq<nat>
    decreases hi - v
  {
    if v >= hi then fl
    else EachFree(pte, v + 1, hi, if v in pte then [pte[v]] + fl else fl)
  }

  lemma OutsideNone(pte: map<nat, nat>, lo: nat)
    ensures Outside(pte, lo, lo) == pte
  {
  }

  lemma OutsideNext(pte: map<nat, nat>, lo: nat, v: nat)
    requires lo <= v
    ensures Outside(pte, lo, v + 1) == Outside(pte, lo, v) - {v}
    ensures v in Outside(pte, lo, v) <==> v in pte
    ensures v in pte ==> Outside(pte, lo, v)[v] == pte[v]
  {
  }

  lemma EachFreeNext(pte: map<nat, nat>, lo: nat, v: nat, hi: nat, fl: seq<nat>)
    requires lo <= v < hi
    ensures EachFree(pte, v, hi, fl) == EachFree(pte, v + 1, hi, if v in pte then [pte[v]] + fl else fl)
  {
  }

  lemma EachFreeEnd(pte: map<nat, nat>, hi: nat, fl: seq<nat>)
    ensures EachFree(pte, hi, hi, fl) == fl
  {
  }

  lemma NoTable(pgdir: map<nat, nat>, pte: map<nat, nat>, p0: map<nat, nat>, lo: nat, v: nat)
    requires Shape(pgdir, pte) && v / NPT !in pgdir && lo <= v && pte == Outside(p0, lo, v)
    ensures forall u: nat {:trigger u in p0} :: v <= u < (v / NPT + 1) * NPT ==> u !in p0
  {
    forall u: nat | v <= u < (v / NPT + 1) * NPT
      ensures u !in p0
    {
      assert u / NPT == v / NPT;
      assert u in p0 ==> u in pte;
    }
  }

  /** Where there is no table there is nothing to free. */
  lemma {:induction false} EachFreeSkip(pte: map<nat, nat>, lo: nat, v: nat, w: nat, hi: nat, fl: seq<nat>)
    requires lo <= v <= w && forall u: nat {:trigger u in pte} :: v <= u < w ==> u !in pte
    ensures EachFree(pte, v, hi, fl) == EachFree(pte, w, hi, fl)
    ensures Outside(pte, lo, w) == Outside(pte, lo, v)
    decreases w - v
  {
    if v < w {
      EachFreeSkip(pte, lo, v + 1, w, hi, fl);
      OutsideNext(pte, lo, v);
    }
  }

  // ---- whole address spaces ----

  const EXTMEM := 0x10_0000
  const PHYSTOP := 0xE00_0000
  const DEVSPACE := 0xFE00_0000
  const KERNLINK := KERNBASE + EXTMEM

  datatype Kmap = Kmap(virt: nat, size: nat, phys: nat)

  /** The kernel's mappings; `data` is where the kernel's data begins. */
  function KernelMap(data: nat): seq<Kmap>
    requires KERNLINK <= data <= KERNBASE + PHYSTOP
  {
    [ Kmap(KERNBASE, EXTMEM, 0),
      Kmap(KERNLINK, data - KERNLINK, PageOf(EXTMEM)),
      Kmap(data, KERNBASE + PHYSTOP - data, PageOf(data - KERNBASE)),
      Kmap(DEVSPACE, UINT - DEVSPACE, PageOf(DEVSPACE)) ]
  }

  predicate InKmap(k: Kmap, v: nat) {
    PageOf(k.virt) <= v < PageOf(k.virt + k.size)
  }

  /** Where the first `i` of the kernel's mappings send page `v`. */
  function KernelAt(data: nat, i: nat, v: nat): Option<nat>
    requires KERNLINK <= data <= KERNBASE + PHYSTOP && i <= 4
  {
    if i == 0 then None
    else
      var k := KernelMap(data)[i - 1];
      if InKmap(k, v) then Some(k.phys + (v - PageOf(k.virt))) else KernelAt(data, i - 1, v)
  }

  /** `pte` from page `lo` on is what those mappings say. */
  ghost predicate KernelPart(pte: map<nat, nat>, lo: nat, data: nat, i: nat)
    requires KERNLINK <= data <= KERNBASE + PHYSTOP && i <= 4
  {
    && (forall v: nat {:trigger v in pte} :: v >= lo ==> (v in pte <==> KernelAt(data, i, v).Some?))
    && (forall v <- pte :: v >= lo && KernelAt(data, i, v).Some? ==> pte[v] == KernelAt(data, i, v).value)
  }

  lemma KernelMore(p0: map<nat, nat>, pte: map<nat, nat>, data: nat, i: nat)
    requires KERNLINK <= data <= KERNBASE + PHYSTOP && i < 4 && KernelPart(p0, 0, data, i)
    requires var k := KernelMap(data)[i];
      Maps(p0, pte, PageOf(k.virt), PageOf(k.virt + k.size) - PageOf(k.virt), k.phys)
    ensures KernelPart(pte, 0, data, i + 1)
  {
    hide KernelMap;
  }

  /** Nothing is mapped yet where the next mapping goes, and none of them is in
      the user's half. */
  lemma {:induction false} KernelAbove(data: nat, i: nat, v: nat)
    requires KERNLINK < data < KERNBASE + PHYSTOP && data % PGSIZE == 0 && i <= 4
    ensures KernelAt(data, i, v).Some? ==> KERNPAGE <= v < NVP && (i < 4 ==> v < PageOf(KernelMap(data)[i].virt))
  {
    if i > 0 {
      KernelRange(data, i - 1);
      KernelAbove(data, i - 1, v);
    }
  }

  lemma KernelFrames(data: nat, i: nat)
    requires KERNLINK < data < KERNBASE + PHYSTOP && data % PGSIZE == 0 && i < 4
    ensures var k := KernelMap(data)[i];
      k.size > 0 && forall n: nat :: UserFrames(PageOf(k.virt), n, k.phys) == {}
  {
    KernelRange(data, i);
  }

  lemma KernelRange(data: nat, i: nat)
    requires KERNLINK < data < KERNBASE + PHYSTOP && data % PGSIZE == 0 && i < 4
    ensures |KernelMap(data)| == 4
    ensures var k := KernelMap(data)[i];
      && k.virt >= KERNBASE && k.size > 0 && k.virt + k.size <= UINT
      && PageOf(k.virt + k.size - 1) + 1 == PageOf(k.virt + k.size)
      && PageOf(k.virt + k.size - 1) + 1 - PageOf(k.virt) == PageOf(k.virt + k.size) - PageOf(k.virt)
      && PageOf(k.virt) >= KERNPAGE
      && (i < 3 ==> PageOf(k.virt + k.size) <= PageOf(KernelMap(data)[i + 1].virt))
  {
  }

  /** Physical memory is seen from page 0x80000 on, and a device page at its own
      address. */
  lemma KernelMeans(data: nat, v: nat)
    requires KERNLINK < data < KERNBASE + PHYSTOP && data % PGSIZE == 0
    ensures KernelAt(data, 4, v) ==
      if 0x80000 <= v < 0x8E000 then Some(v - 0x80000)
      else if 0xFE000 <= v < 0x100000 then Some(v)
      else None
  {
    hide KernelAt;
    KernelAtStep(data, 3, v);
    KernelAtStep(data, 2, v);
    KernelAtStep(data, 1, v);
    KernelAtStep(data, 0, v);
    var d := data / PGSIZE;
    assert data == d * PGSIZE && PageOf(data) == d && PageOf(data - KERNBASE) == d - 0x80000;
  }

  lemma KernelAtStep(data: nat, i: nat, v: nat)
    requires KERNLINK <= data <= KERNBASE + PHYSTOP && i < 4
    ensures var k := KernelMap(data)[i];
      KernelAt(data, i + 1, v) ==
        if InKmap(k, v) then Some(k.phys + (v - PageOf(k.virt))) else KernelAt(data, i, v)
    ensures KernelAt(data, 0, v) == None
  {
  }

  lemma KernelSeen(pte: map<nat, nat>, data: nat)
    requires KERNLINK < data < KERNBASE + PHYSTOP && data % PGSIZE == 0 && KernelPart(pte, KERNPAGE, data, 4)
    ensures forall v: nat {:trigger v in pte} :: v >= 0x80000 ==>
      (v in pte <==> v < 0x8E000 || 0xFE000 <= v < 0x100000)
    ensures forall v <- pte :: v >= 0x80000 ==> pte[v] == if v < 0x8E000 then v - 0x80000 else v
  {
    forall v: nat | v >= 0x80000
      ensures v in pte <==> v < 0x8E000 || 0xFE000 <= v < 0x100000
      ensures v in pte ==> pte[v] == if v < 0x8E000 then v - 0x80000 else v
    {
      hide KernelAt;
      KernelMeans(data, v);
    }
  }

  /** setupkvm: exactly the kernel's half of an address space, or nothing taken. */
  method Setupkvm(kmem: Kmem, data: nat) returns (vm: Vm?)
    requires kmem.Valid() && KERNLINK < data < KERNBASE + PHYSTOP && data % PGSIZE == 0
    modifies kmem
    ensures kmem.Valid()
    ensures vm == null ==> Set(kmem.fl) == old(Set(kmem.fl))
    ensures vm != null ==>
      fresh(vm) && vm.kmem == kmem && vm.Valid() && vm.All() == old(Set(kmem.fl)) && KernelPart(vm.pte, 0, data, 4)
    ensures vm != null ==> forall v: nat {:trigger v in vm.pte} ::
      v in vm.pte <==> 0x80000 <= v < 0x8E000 || 0xFE000 <= v < 0x100000
    ensures vm != null ==> forall v <- vm.pte :: vm.pte[v] == if v < 0x8E000 then v - 0x80000 else v
  {
    hide Shape, OneOwner, Owned, Maps, KernelMap, KernelAt, KernelPart, Kmem.Valid;
    ghost var fl := kmem.fl;
    FreeDistinct(kmem);
    var root := kmem.Kalloc();
    if root.None? { return null; }
    vm := NewVm(kmem, root.value, fl);
    KernelNone(vm.pte, data);
    var i: nat := 0;
    while i < 4
      invariant i <= 4 && vm.kmem == kmem && fresh(vm) && vm.Valid() && vm.All() == old(Set(kmem.fl))
      invariant KernelPart(vm.pte, 0, data, i)
    {
      KernelRange(data, i);
      KernelFrames(data, i);
      var k := KernelMap(data)[i];
      KernelUnmapped(vm.pte, data, i);
      ghost var p0 := vm.pte;
      var r, n := vm.Mappages(k.virt, k.size, k.phys);
      if r < 0 {
        vm.Freevm();
        return null;
      }
      KernelMore(p0, vm.pte, data, i);
      i := i + 1;
    }
    KernelHalf(vm.pte, data);
    KernelSeen(vm.pte, data);
  }

  lemma KernelNone(pte: map<nat, nat>, data: nat)
    requires pte == map[] && KERNLINK <= data <= KERNBASE + PHYSTOP
    ensures KernelPart(pte, 0, data, 0)
  {
  }

  lemma KernelUnmapped(pte: map<nat, nat>, data: nat, i: nat)
    requires KERNLINK < data < KERNBASE + PHYSTOP && data % PGSIZE == 0 && i < 4 && KernelPart(pte, 0, data, i)
    ensures var k := KernelMap(data)[i];
      k.size > 0 && Unmapped(pte, PageOf(k.virt), PageOf(k.virt + k.size - 1) + 1)
  {
    KernelRange(data, i);
    forall v: nat | v in pte
      ensures v < PageOf(KernelMap(data)[i].virt)
    {
      KernelAbove(data, i, v);
    }
  }

  lemma FreeDistinct(kmem: Kmem)
    requires kmem.Valid()
    ensures Distinct(kmem.fl)
  {
  }

  /** An empty directory in a page that was free. */
  method NewVm(kmem: Kmem, root: nat, ghost fl: seq<nat>) returns (vm: Vm)
    requires kmem.Valid() && Distinct(fl) && fl != [] && root == fl[0] && kmem.fl == fl[1..]
    ensures fresh(vm) && vm.kmem == kmem && vm.Valid() && vm.All() == Set(fl) && vm.pte == map[] && vm.root == root
  {
    vm := new Vm(kmem, root);
    assert Set(fl) == Set(fl[1..]) + {fl[0]};
    assert Tables(map[]) == {} && Frames(map[]) == {};
  }

  /** An address space keeps its pages while the free list only loses some. */
  lemma StillValid(fl: seq<nat>, fl': seq<nat>, root: nat, pgdir: map<nat, nat>, pte: map<nat, nat>)
    requires OneOwner(fl, root, pgdir, pte) && Distinct(fl') && Set(fl') <= Set(fl)
    ensures OneOwner(fl', root, pgdir, pte)
  {
  }

  /** copyuvm: a child with a page for every page of the parent and the kernel's
      half, or every page taken for it returned. */
  method Copyuvm(parent: Vm, sz: nat, data: nat) returns (child: Vm?)
    requires parent.Valid() && sz <= KERNBASE && forall v: nat :: v < Up(sz) ==> v in parent.pte
    requires KERNLINK < data < KERNBASE + PHYSTOP && data % PGSIZE == 0
    modifies parent.kmem
    ensures parent.Valid()
    ensures child == null ==> Set(parent.kmem.fl) == old(Set(parent.kmem.fl))
    ensures child != null ==>
      fresh(child) && child.kmem == parent.kmem && child.Valid() && child.All() == old(Set(parent.kmem.fl))
    ensures child != null ==> KernelPart(child.pte, KERNPAGE, data, 4)
    ensures child != null ==> forall v: nat {:trigger v in child.pte} :: v >= 0x80000 ==>
      (v in child.pte <==> v < 0x8E000 || 0xFE000 <= v < 0x100000)
    ensures child != null ==> forall v <- child.pte :: v >= 0x80000 ==>
      child.pte[v] == if v < 0x8E000 then v - 0x80000 else v
    ensures child != null ==> forall v: nat :: v < KERNPAGE ==> (v in child.pte <==> v * 4096 < sz)
  {
    hide Shape, OneOwner, Owned, Set, KernelAt, KernelPart, Kmem.Valid;
    var kmem := parent.kmem;
    ghost var fl := kmem.fl;
    child := Setupkvm(kmem, data);
    if child == null {
      FreeDistinct(kmem);
      StillValid(fl, kmem.fl, parent.root, parent.pgdir, parent.pte);
      return;
    }
    KernelHalf(child.pte, data);
    var i: nat := 0;
    while i * PGSIZE < sz
      invariant i <= Up(sz) && child.kmem == kmem && fresh(child) && child.Valid() && child.All() == Set(fl)
      invariant KernelPart(child.pte, KERNPAGE, data, 4)
      invariant forall v: nat :: v < KERNPAGE ==> (v in child.pte <==> v < i)
    {
      assert i in parent.pte;
      ghost var p0 := child.pte;
      var ok, held := child.AllocPage(i);
      if !ok {
        if held.Some? { child.Return(held.value); }
        child.Freevm();
        FreeDistinct(kmem);
        StillValid(fl, kmem.fl, parent.root, parent.pgdir, parent.pte);
        return null;
      }
      KernelStays(p0, i, child.pte[i], data);
      i := i + 1;
    }
    KernelSeen(child.pte, data);
    FreePart(kmem.fl, child.root, child.pgdir, child.pte);
    StillValid(fl, kmem.fl, parent.root, parent.pgdir, parent.pte);
  }

  lemma KernelHalf(pte: map<nat, nat>, data: nat)
    requires KERNLINK < data < KERNBASE + PHYSTOP && data % PGSIZE == 0 && KernelPart(pte, 0, data, 4)
    ensures KernelPart(pte, KERNPAGE, data, 4) && forall v <- pte :: v >= KERNPAGE
  {
    forall v | v in pte
      ensures v >= KERNPAGE
    {
      KernelAbove(data, 4, v);
    }
  }

  lemma KernelStays(p0: map<nat, nat>, v: nat, page: nat, data: nat)
    requires KERNLINK <= data <= KERNBASE + PHYSTOP && KernelPart(p0, KERNPAGE, data, 4) && v < KERNPAGE
    ensures KernelPart(p0[v := page], KERNPAGE, data, 4)
  {
    hide KernelAt;
  }

  lemma FreePart(fl: seq<nat>, root: nat, pgdir: map<nat, nat>, pte: map<nat, nat>)
    requires OneOwner(fl, root, pgdir, pte)
    ensures Distinct(fl) && Set(fl) <= Set(fl) + Owned(root, pgdir, pte)
  {
  }
}
