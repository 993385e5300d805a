/** The user-level storage allocator: a circular list of free blocks in address
    order, changed in place. Addresses count Header-sized units. */
module Umalloc {
  import opened Params

  const HEADER := 8                  // sizeof(Header)
  const BASE := 1                    // &base, below the heap; 0 is the null pointer

  // ---- request sizes in 32-bit arithmetic ----

  function Units(nbytes: nat): (n: nat)
    ensures n >= 1
  {
    (nbytes + HEADER - 1) % UINT / HEADER + 1
  }

  /** The block is as large as asked exactly when the rounding does not wrap. */
  lemma UnitsSuffice(nbytes: nat)
    requires nbytes < UINT
    ensures (Units(nbytes) - 1) * HEADER >= nbytes <==> nbytes <= UINT - HEADER
  {
  }

  /** A header and as many units as hold the bytes, none to spare. */
  lemma UnitsMeans(nbytes: nat)
    requires nbytes < UINT
    ensures Units(nbytes) == (nbytes + 7) % 0x1_0000_0000 / 8 + 1
    ensures nbytes <= 0xFFFF_FFF8 ==> nbytes + 8 <= Units(nbytes) * 8 < nbytes + 16
    ensures nbytes > 0xFFFF_FFF8 ==> Units(nbytes) == 1
  {
  }

  lemma UnitsBound(nbytes: nat)
    ensures 1 <= Units(nbytes) <= UINT / HEADER
  {
  }

  function Int32(x: nat): int {
    var w := x % UINT;
    if w < UINT / 2 then w else w - UINT
  }

  /** sbrk is asked for exactly `nu` units of memory unless the byte count
      leaves the range of a signed integer. */
  lemma SbrkAsksExactly(nu: nat)
    requires nu <= UINT / HEADER
    ensures Int32(nu * HEADER) == nu * HEADER <==> nu < UINT / 2 / HEADER
  {
  }

  // ---- the ring ----

  /** Position `c` places after `f` on a ring of `n`. */
  function Turn(f: nat, c: nat, n: nat): (k: nat)
    requires f < n && c <= n
    ensures k < n
  {
    if f + c < n then f + c else f + c - n
  }

  ghost predicate Ascending(fl: seq<nat>) {
    forall i, j :: 0 <= i < j < |fl| ==> fl[i] < fl[j]
  }

  ghost function Successor(fl: seq<nat>, i: nat): nat
    requires i < |fl|
  {
    if i + 1 < |fl| then fl[i + 1] else BASE
  }

  ghost predicate LinkAt(fl: seq<nat>, ptr: map<nat, nat>, i: int)
    requires 0 <= i < |fl|
  {
    fl[i] in fl && fl[i] in ptr && ptr[fl[i]] == Successor(fl, i)
  }

  /** The list is one cycle through `fl` in address order, starting at the base
      block of size 0. */
  ghost predicate Cycle(fl: seq<nat>, ptr: map<nat, nat>, size: map<nat, nat>) {
    && |fl| > 0 && fl[0] == BASE && Ascending(fl)
    && (forall i :: 0 <= i < |fl| ==> LinkAt(fl, ptr, i))
    && (forall a <- fl :: a in ptr && a in size)
    && size[BASE] == 0
  }

  /** Free blocks do not touch, but for the one at position `k` and its
      successor and the one at `k'` and its. */
  ghost predicate ApartBut(fl: seq<nat>, size: map<nat, nat>, k: int, k': int)
    requires forall a <- fl :: a in size
  {
    forall i :: 1 <= i < |fl| - 1 && i != k && i != k' ==> fl[i] + size[fl[i]] < fl[i + 1]
  }

  ghost function FreeBlocks(fl: seq<nat>): set<nat> {
    set i | 1 <= i < |fl| :: fl[i]
  }

  ghost predicate Within(size: map<nat, nat>, a: nat, u: nat) {
    a in size && a <= u < a + size[a]
  }

  /** `own` sends every unit to the one block, among `heads`, that it lies in. */
  ghost predicate Owned(heads: set<nat>, size: map<nat, nat>, own: map<nat, nat>) {
    && (forall a <- heads :: a in size && size[a] >= 1 && a > BASE)
    && (forall u <- own :: own[u] in heads && Within(size, own[u], u))
    && (forall a, u: nat {:trigger Within(size, a, u)} ::
        a in heads && Within(size, a, u) ==> u in own && own[u] == a)
  }

  /** Every unit obtained from sbrk belongs to exactly one block, free or live. */
  ghost predicate Partition(free: set<nat>, size: map<nat, nat>, live: set<nat>, own: map<nat, nat>) {
    live !! free && Owned(live + free, size, own)
  }

  /** Everything the allocator knows about memory. */
  datatype Arena = Arena(fl: seq<nat>, ptr: map<nat, nat>, size: map<nat, nat>, live: set<nat>, own: map<nat, nat>)
  {
    ghost predicate Loose(k: int, k': int) {
      && Cycle(fl, ptr, size) && ApartBut(fl, size, k, k')
      && Partition(FreeBlocks(fl), size, live, own)
    }

    ghost predicate Ok() { Loose(-1, -1) }
  }

  lemma BlocksDisjoint(free: set<nat>, size: map<nat, nat>, live: set<nat>, own: map<nat, nat>, a: nat, b: nat)
    requires Partition(free, size, live, own) && a in live + free && b in live + free && a < b
    ensures a in size && a + size[a] <= b
  {
    assert Within(size, b, b);
    assert !Within(size, a, b);
  }

  ghost function Reown(own: map<nat, nat>, a: nat, b: nat): (r: map<nat, nat>)
    ensures r.Keys == own.Keys
  {
    map u | u in own :: if own[u] == a then b else own[u]
  }

  lemma OwnedMerge(heads: set<nat>, size: map<nat, nat>, own: map<nat, nat>, a: nat, b: nat)
    requires Owned(heads, size, own) && a in heads && b in heads && a + size[a] == b
    ensures Owned(heads - {b}, size[a := size[a] + size[b]], Reown(own, b, a))
  {
    var size', own' := size[a := size[a] + size[b]], Reown(own, b, a);
    assert Within(size, b, b) && Within(size, a, a);
    forall x, u: nat | x in heads - {b} && Within(size', x, u)
      ensures u in own' && own'[u] == x
    {
      assert Within(size, x, u) || (x == a && Within(size, b, u));
    }
  }

  lemma PartitionMerge(free: set<nat>, size: map<nat, nat>, live: set<nat>, own: map<nat, nat>, a: nat, b: nat)
    requires Partition(free, size, live, own) && a in free && b in free && a in size && a + size[a] == b && b in size
    ensures Partition(free - {b}, size[a := size[a] + size[b]], live, Reown(own, b, a))
  {
    OwnedMerge(live + free, size, own, a, b);
    assert live + (free - {b}) == (live + free) - {b};
  }

  lemma LiveSized(free: set<nat>, size: map<nat, nat>, live: set<nat>, own: map<nat, nat>, a: nat)
    requires Partition(free, size, live, own) && a in live
    ensures a in size && size[a] >= 1 && a > BASE && a !in free
  {
    assert a in live + free;
  }

  lemma PartitionFree(free: set<nat>, size: map<nat, nat>, live: set<nat>, own: map<nat, nat>, a: nat)
    requires Partition(free, size, live, own) && a in live
    ensures Partition(free + {a}, size, live - {a}, own)
  {
    assert (live - {a}) + (free + {a}) == live + free;
  }

  lemma PartitionTake(free: set<nat>, size: map<nat, nat>, live: set<nat>, own: map<nat, nat>, a: nat)
    requires Partition(free, size, live, own) && a in free
    ensures Partition(free - {a}, size, live + {a}, own)
  {
    assert (live + {a}) + (free - {a}) == live + free;
  }

  ghost function ReownFrom(own: map<nat, nat>, a: nat, q: nat): (r: map<nat, nat>)
    ensures r.Keys == own.Keys
  {
    map u | u in own :: if own[u] == a && u >= q then q else own[u]
  }

  lemma OwnedSplit(heads: set<nat>, size: map<nat, nat>, own: map<nat, nat>, a: nat, n: nat)
    requires Owned(heads, size, own) && a in heads && a in size && 1 <= n < size[a]
    ensures var q := a + size[a] - n;
      q !in heads && Owned(heads + {q}, size[a := size[a] - n][q := n], ReownFrom(own, a, q))
  {
    var q := a + size[a] - n;
    var size', own' := size[a := size[a] - n][q := n], ReownFrom(own, a, q);
    assert Within(size, a, q);
    assert q in heads ==> Within(size, q, q);
    forall x, u: nat | x in heads + {q} && Within(size', x, u)
      ensures u in own' && own'[u] == x
    {
      assert Within(size, if x == q then a else x, u);
    }
  }

  lemma PartitionSplit(free: set<nat>, size: map<nat, nat>, live: set<nat>, own: map<nat, nat>, a: nat, n: nat)
    requires Partition(free, size, live, own) && a in free && a in size && 1 <= n < size[a]
    ensures var q := a + size[a] - n;
      q !in live + free && Partition(free, size[a := size[a] - n][q := n], live + {q}, ReownFrom(own, a, q))
  {
    var q := a + size[a] - n;
    OwnedSplit(live + free, size, own, a, n);
    assert (live + {q}) + free == (live + free) + {q};
  }

  ghost predicate Spans(a: nat, n: nat, u: nat) {
    a <= u < a + n
  }

  ghost function Region(a: nat, n: nat): map<nat, nat> {
    map u: nat | a <= u < a + n && Spans(a, n, u) :: a
  }

  lemma OwnedGrow(heads: set<nat>, size: map<nat, nat>, own: map<nat, nat>, a: nat, n: nat)
    requires Owned(heads, size, own) && a > BASE && n >= 1 && forall u <- own :: u < a
    ensures (forall x <- heads :: x < a) && Owned(heads + {a}, size[a := n], own + Region(a, n))
  {
    forall x | x in heads
      ensures x < a
    {
      assert Within(size, x, x);
    }
    var size', own' := size[a := n], own + Region(a, n);
    forall x, u: nat | x in heads + {a} && Within(size', x, u)
      ensures u in own' && own'[u] == x
    {
      assert x != a ==> Within(size, x, u);
    }
  }

  lemma PartitionGrow(free: set<nat>, size: map<nat, nat>, live: set<nat>, own: map<nat, nat>, a: nat, n: nat)
    requires Partition(free, size, live, own) && a > BASE && n >= 1 && forall u <- own :: u < a
    ensures a !in live + free
    ensures Partition(free, size[a := n], live + {a}, own + Region(a, n))
  {
    OwnedGrow(live + free, size, own, a, n);
    assert (live + {a}) + free == (live + free) + {a};
  }

  ghost function Drop(fl: seq<nat>, k: nat): seq<nat>
    requires k < |fl|
  {
    fl[..k] + fl[k + 1..]
  }

  ghost function Insert(fl: seq<nat>, k: nat, x: nat): seq<nat>
    requires k <= |fl|
  {
    fl[..k] + [x] + fl[k..]
  }

  lemma DropIs(fl: seq<nat>, k: nat)
    requires 1 <= k < |fl| && Ascending(fl)
    ensures |Drop(fl, k)| == |fl| - 1
    ensures forall i {:trigger Drop(fl, k)[i]} :: 0 <= i < |fl| - 1 ==>
      Drop(fl, k)[i] == if i < k then fl[i] else fl[i + 1]
    ensures FreeBlocks(Drop(fl, k)) == FreeBlocks(fl) - {fl[k]} && Ascending(Drop(fl, k))
  {
    var r := Drop(fl, k);
    assert forall i :: 1 <= i < |fl| && i != k ==> fl[i] == r[if i < k then i else i - 1];
  }

  lemma InsertAt(fl: seq<nat>, k: nat, x: nat)
    requires 1 <= k <= |fl|
    ensures |Insert(fl, k, x)| == |fl| + 1
    ensures forall i {:trigger Insert(fl, k, x)[i]} :: 0 <= i <= |fl| ==>
      Insert(fl, k, x)[i] == if i < k then fl[i] else if i == k then x else fl[i - 1]
  {
  }

  lemma InsertIs(fl: seq<nat>, k: nat, x: nat)
    requires 1 <= k <= |fl| && Ascending(fl) && fl[k - 1] < x && (k < |fl| ==> x < fl[k])
    ensures |Insert(fl, k, x)| == |fl| + 1
    ensures forall i {:trigger Insert(fl, k, x)[i]} :: 0 <= i <= |fl| ==>
      Insert(fl, k, x)[i] == if i < k then fl[i] else if i == k then x else fl[i - 1]
    ensures FreeBlocks(Insert(fl, k, x)) == FreeBlocks(fl) + {x} && Ascending(Insert(fl, k, x))
  {
    InsertAt(fl, k, x);
    hide Insert;
    var r := Insert(fl, k, x);
    assert r[k] == x;
    assert FreeBlocks(r) == FreeBlocks(fl) + {x} by {
      forall i | 1 <= i < |fl| ensures fl[i] in FreeBlocks(r) { assert fl[i] == r[if i < k then i else i + 1]; }
    }
  }

  lemma CycleInsert(fl: seq<nat>, ptr: map<nat, nat>, size: map<nat, nat>, k: nat, x: nat, fl': seq<nat>)
    requires Cycle(fl, ptr, size) && x in size && 1 <= k <= |fl| && |fl'| == |fl| + 1 && Ascending(fl')
    requires forall i {:trigger fl'[i]} :: 0 <= i <= |fl| ==>
      fl'[i] == if i < k then fl[i] else if i == k then x else fl[i - 1]
    ensures fl[k - 1] in ptr && Cycle(fl', ptr[x := ptr[fl[k - 1]]][fl[k - 1] := x], size)
  {
    assert LinkAt(fl, ptr, k - 1);
    var ptr' := ptr[x := ptr[fl[k - 1]]][fl[k - 1] := x];
    assert x == fl'[k];
    assert fl[k - 1] == fl'[k - 1];
    assert fl'[k - 1] < fl'[k];
    forall i: nat | i < |fl'|
      ensures LinkAt(fl', ptr', i)
    {
      if i < k { assert LinkAt(fl, ptr, i); }
      if i > k { assert LinkAt(fl, ptr, i - 1); }
    }
  }

  lemma CycleDrop(fl: seq<nat>, ptr: map<nat, nat>, size: map<nat, nat>, k: nat, fl': seq<nat>)
    requires Cycle(fl, ptr, size) && 1 <= k < |fl| && |fl'| == |fl| - 1 && Ascending(fl')
    requires forall i {:trigger fl'[i]} :: 0 <= i < |fl| - 1 ==> fl'[i] == if i < k then fl[i] else fl[i + 1]
    ensures fl[k] in ptr && Cycle(fl', ptr[fl[k - 1] := ptr[fl[k]]], size)
  {
    assert LinkAt(fl, ptr, k);
    var ptr' := ptr[fl[k - 1] := ptr[fl[k]]];
    forall i: nat | i < |fl'|
      ensures LinkAt(fl', ptr', i)
    {
      if i < k { assert LinkAt(fl, ptr, i); } else { assert LinkAt(fl, ptr, i + 1); }
    }
  }

  /** The sizes of real blocks do not matter for the links. */
  lemma CycleSize(fl: seq<nat>, ptr: map<nat, nat>, size: map<nat, nat>, a: nat, size': map<nat, nat>)
    requires Cycle(fl, ptr, size) && a != BASE && size.Keys <= size'.Keys && size'[BASE] == size[BASE]
    ensures Cycle(fl, ptr, size')
  {
  }

  lemma FreeBlocksIn(fl: seq<nat>, k: nat)
    requires 1 <= k < |fl| && Ascending(fl)
    ensures fl[k] in FreeBlocks(fl) && fl[k] > fl[0]
  {
  }

  lemma ApartInsert(fl: seq<nat>, size: map<nat, nat>, k: nat, fl': seq<nat>)
    requires (forall a <- fl :: a in size) && (forall a <- fl' :: a in size)
    requires ApartBut(fl, size, -1, -1) && 1 <= k <= |fl| && |fl'| == |fl| + 1
    requires forall i {:trigger fl'[i]} :: 0 <= i <= |fl| && i != k ==> fl'[i] == if i < k then fl[i] else fl[i - 1]
    ensures ApartBut(fl', size, k, k - 1)
  {
  }

  lemma ApartDrop(fl: seq<nat>, size: map<nat, nat>, k: nat, j: int, fl': seq<nat>, size': map<nat, nat>)
    requires (forall a <- fl :: a in size) && (forall a <- fl' :: a in size')
    requires ApartBut(fl, size, k, j) && j < k && 1 <= k < |fl| - 1 && |fl'| == |fl| - 1 && Ascending(fl)
    requires forall i {:trigger fl'[i]} :: 0 <= i < |fl| - 1 ==> fl'[i] == if i <= k then fl[i] else fl[i + 1]
    requires size' == size[fl[k] := size[fl[k]] + size[fl[k + 1]]] && fl[k] + size[fl[k]] == fl[k + 1]
    ensures ApartBut(fl', size', j, -1)
  {
    forall i | 1 <= i < |fl'| - 1 && i != j
      ensures fl'[i] + size'[fl'[i]] < fl'[i + 1]
    {
      if i < k {
        assert fl[i] < fl[k];
      } else if i == k {
        assert fl[k + 1] + size[fl[k + 1]] < fl[k + 2];
      } else {
        assert fl[k] < fl[i + 1];
      }
    }
  }

  lemma ApartTake(fl: seq<nat>, size: map<nat, nat>, k: nat, fl': seq<nat>)
    requires (forall a <- fl :: a in size) && (forall a <- fl' :: a in size)
    requires ApartBut(fl, size, -1, -1) && 1 <= k < |fl| && |fl'| == |fl| - 1 && Ascending(fl)
    requires forall i {:trigger fl'[i]} :: 0 <= i < |fl| - 1 ==> fl'[i] == if i < k then fl[i] else fl[i + 1]
    ensures ApartBut(fl', size, -1, -1)
  {
    forall i | 1 <= i < |fl'| - 1
      ensures fl'[i] + size[fl'[i]] < fl'[i + 1]
    {
      if i == k - 1 {
        assert fl[i] + size[fl[i]] < fl[k] < fl[k + 1];
      } else if i >= k {
        assert fl[i + 1] + size[fl[i + 1]] < fl[i + 2];
      }
    }
  }

  // ---- the four changes of the arena ----

  /** Linking a live block in after position `t`. */
  ghost function Inserted(s: Arena, t: nat, bp: nat): Arena
    requires t < |s.fl| && s.fl[t] in s.ptr
  {
    Arena(Insert(s.fl, t + 1, bp), s.ptr[bp := s.ptr[s.fl[t]]][s.fl[t] := bp],
      s.size, s.live - {bp}, s.own)
  }

  lemma InsertedOk(s: Arena, t: nat, bp: nat)
    requires s.Ok() && bp in s.live && t < |s.fl|
    requires s.fl[t] < bp && (t + 1 < |s.fl| ==> bp < s.fl[t + 1])
    ensures Inserted(s, t, bp).Loose(t + 1, t)
  {
    hide Insert, FreeBlocks, Partition;
    var s' := Inserted(s, t, bp);
    assert bp in s.size by { LiveSized(FreeBlocks(s.fl), s.size, s.live, s.own, bp); }
    InsertIs(s.fl, t + 1, bp);
    CycleInsert(s.fl, s.ptr, s.size, t + 1, bp, s'.fl);
    ApartInsert(s.fl, s.size, t + 1, s'.fl);
    PartitionFree(FreeBlocks(s.fl), s.size, s.live, s.own, bp);
  }

  /** Absorbing the free block at position `k + 1` into the one at `k`. */
  ghost function Merged(s: Arena, k: nat): Arena
    requires k + 1 < |s.fl| && s.fl[k] in s.size && s.fl[k + 1] in s.size && s.fl[k + 1] in s.ptr
  {
    var a, b := s.fl[k], s.fl[k + 1];
    Arena(Drop(s.fl, k + 1), s.ptr[a := s.ptr[b]], s.size[a := s.size[a] + s.size[b]], s.live, Reown(s.own, b, a))
  }

  lemma MergedOk(s: Arena, k: nat, j: int)
    requires s.Loose(k, j) && j < k && 1 <= k < |s.fl| - 1
    requires s.fl[k] + s.size[s.fl[k]] == s.fl[k + 1]
    ensures Merged(s, k).Loose(j, -1)
  {
    hide Partition, FreeBlocks, Drop;
    var s' := Merged(s, k);
    DropIs(s.fl, k + 1);
    CycleDrop(s.fl, s.ptr, s.size, k + 1, s'.fl);
    CycleSize(s'.fl, s'.ptr, s.size, s.fl[k], s'.size);
    ApartDrop(s.fl, s.size, k, j, s'.fl, s'.size);
    FreeBlocksIn(s.fl, k);
    FreeBlocksIn(s.fl, k + 1);
    PartitionMerge(FreeBlocks(s.fl), s.size, s.live, s.own, s.fl[k], s.fl[k + 1]);
  }

  /** Some block on the list has at least `n` units. */
  ghost predicate Roomy(fl: seq<nat>, size: map<nat, nat>, n: nat) {
    exists i :: 1 <= i < |fl| && fl[i] in size && size[fl[i]] >= n
  }

  /** What free makes of the arena: linked in after position `t`, then merged
      upwards and downwards. */
  ghost function Freed(s: Arena, t: nat, bp: nat): Arena
    requires s.Ok() && bp in s.live && t < |s.fl|
    requires s.fl[t] < bp && (t + 1 < |s.fl| ==> bp < s.fl[t + 1])
  {
    InsertedOk(s, t, bp);
    InsertIs(s.fl, t + 1, bp);
    NotListed(s, bp);
    assert LinkAt(s.fl, s.ptr, t);
    var s1 := Inserted(s, t, bp);
    assert s1.fl[t + 1] in s1.fl && (t + 2 < |s1.fl| ==> s1.fl[t + 2] in s1.fl);
    var up := t + 1 < |s.fl| && bp + s.size[bp] == s.fl[t + 1];
    var s2 := if up then Merged(s1, t + 1) else s1;
    var low := t >= 1 && s.fl[t] + s.size[s.fl[t]] == bp;
    if low then Merged(s2, t) else s2
  }

  lemma FreedOk(s: Arena, t: nat, bp: nat)
    requires s.Ok() && bp in s.live && t < |s.fl|
    requires s.fl[t] < bp && (t + 1 < |s.fl| ==> bp < s.fl[t + 1])
    ensures Freed(s, t, bp).Ok() && s.fl[t] in Freed(s, t, bp).fl && s.fl[t] >= BASE
    ensures Freed(s, t, bp).live == s.live - {bp} && Freed(s, t, bp).own.Keys == s.own.Keys
    ensures bp in s.size && Roomy(Freed(s, t, bp).fl, Freed(s, t, bp).size, s.size[bp])
  {
    hide FreeBlocks, Partition, Drop, Insert, Reown, ApartBut;
    InsertedOk(s, t, bp);
    InsertIs(s.fl, t + 1, bp);
    NotListed(s, bp);
    var p, next := s.fl[t], Successor(s.fl, t);
    var s1 := Inserted(s, t, bp);
    assert s1.fl[t] == p && s1.fl[t + 1] == bp && (t + 1 < |s.fl| ==> s1.fl[t + 2] == next);
    var up := bp + s.size[bp] == next;
    if up {
      MergedOk(s1, t + 1, t);
      DropIs(s1.fl, t + 2);
    } else {
      Tightened(s1, t + 1, t);
    }
    var s2 := if up then Merged(s1, t + 1) else s1;
    assert s2.fl[t] == p && s2.fl[t + 1] == bp && s2.Loose(t, -1);
    if p + s.size[p] == bp {
      MergedOk(s2, t, -1);
      DropIs(s2.fl, t + 1);
      assert Drop(s2.fl, t + 1)[t] == p;
    } else {
      Tightened(s2, t, -1);
      assert s2.size[s2.fl[t + 1]] >= s.size[bp];
    }
  }

  /** The two tests of free and the words it writes compute `Freed`. */
  lemma FreedMaps(s: Arena, t: nat, bp: nat)
    requires s.Ok() && bp in s.live && t < |s.fl|
    requires s.fl[t] < bp && (t + 1 < |s.fl| ==> bp < s.fl[t + 1])
    ensures bp in s.size && s.fl[t] in s.ptr && s.fl[t] in s.size && Successor(s.fl, t) in s.ptr
    ensures Successor(s.fl, t) in s.size
    ensures
      var p, next := s.fl[t], Successor(s.fl, t);
      var up := bp + s.size[bp] == next;
      var size1 := if up then s.size[bp := s.size[bp] + s.size[next]] else s.size;
      var ptr1 := s.ptr[bp := if up then s.ptr[next] else next];
      && s.ptr[p] == next
      && Freed(s, t, bp).size == (if p + size1[p] == bp then size1[p := size1[p] + size1[bp]] else size1)
      && Freed(s, t, bp).ptr == ptr1[p := if p + size1[p] == bp then ptr1[bp] else bp]
    ensures forall a <- s.live :: a != bp ==>
      a in s.size && a in Freed(s, t, bp).size && Freed(s, t, bp).size[a] == s.size[a]
  {
    hide FreeBlocks, Partition, Drop, Insert, Reown, ApartBut;
    InsertIs(s.fl, t + 1, bp);
    forall a | a in s.live
      ensures a in s.size && a !in s.fl
    {
      NotListed(s, a);
    }
    var p, next := s.fl[t], Successor(s.fl, t);
    assert LinkAt(s.fl, s.ptr, t);
    if t + 1 < |s.fl| { assert LinkAt(s.fl, s.ptr, t + 1); } else { assert LinkAt(s.fl, s.ptr, 0); }
    var s1 := Inserted(s, t, bp);
    assert s1.fl[t] == p && s1.fl[t + 1] == bp && (t + 1 < |s.fl| ==> s1.fl[t + 2] == next);
    var up := bp + s.size[bp] == next;
    var s2 := if up then Merged(s1, t + 1) else s1;
    if up { DropIs(s1.fl, t + 2); }
    assert s2.fl[t] == p && s2.fl[t + 1] == bp;
    assert s2.size[p] == s.size[p];
    assert s2.size == if up then s.size[bp := s.size[bp] + s.size[next]] else s.size;
    assert s2.ptr == s.ptr[bp := if up then s.ptr[next] else next][p := bp];
  }

  /** Blocks that do not touch leave a gap. */
  lemma Tightened(s: Arena, k: nat, j: int)
    requires s.Loose(k, j)
    requires 1 <= k < |s.fl| - 1 ==> s.fl[k] + s.size[s.fl[k]] != s.fl[k + 1]
    ensures s.Loose(j, -1)
  {
    if 1 <= k < |s.fl| - 1 {
      BlocksDisjoint(FreeBlocks(s.fl), s.size, s.live, s.own, s.fl[k], s.fl[k + 1]);
    }
  }

  /** Handing out the free block at position `k`. */
  ghost function Taken(s: Arena, k: nat): Arena
    requires 1 <= k < |s.fl| && s.fl[k] in s.ptr
  {
    Arena(Drop(s.fl, k), s.ptr[s.fl[k - 1] := s.ptr[s.fl[k]]], s.size, s.live + {s.fl[k]}, s.own)
  }

  lemma TakenOk(s: Arena, k: nat)
    requires s.Ok() && 1 <= k < |s.fl|
    ensures Taken(s, k).Ok()
  {
    hide Drop, FreeBlocks, Partition;
    var s' := Taken(s, k);
    DropIs(s.fl, k);
    CycleDrop(s.fl, s.ptr, s.size, k, s'.fl);
    ApartTake(s.fl, s.size, k, s'.fl);
    FreeBlocksIn(s.fl, k);
    PartitionTake(FreeBlocks(s.fl), s.size, s.live, s.own, s.fl[k]);
  }

  /** Handing out the last `n` units of the free block at position `k`. */
  ghost function Split(s: Arena, k: nat, n: nat): Arena
    requires k < |s.fl| && s.fl[k] in s.size && n < s.size[s.fl[k]]
  {
    var a := s.fl[k];
    var q := a + s.size[a] - n;
    Arena(s.fl, s.ptr, s.size[a := s.size[a] - n][q := n], s.live + {q}, ReownFrom(s.own, a, q))
  }

  lemma SplitOk(s: Arena, k: nat, n: nat)
    requires s.Ok() && 1 <= k < |s.fl| && 1 <= n < s.size[s.fl[k]]
    ensures Split(s, k, n).Ok()
  {
    hide FreeBlocks, Partition;
    var s' := Split(s, k, n);
    var a := s.fl[k];
    FreeBlocksIn(s.fl, k);
    PartitionSplit(FreeBlocks(s.fl), s.size, s.live, s.own, a, n);
    forall i | 0 <= i < |s.fl|
      ensures s.fl[i] != a + s.size[a] - n
    {
      if i > 0 { FreeBlocksIn(s.fl, i); }
    }
    CycleSize(s.fl, s.ptr, s.size, a, s'.size);
  }

  /** New memory arrives as one live block. */
  ghost function Grown(s: Arena, a: nat, n: nat): Arena {
    Arena(s.fl, s.ptr, s.size[a := n], s.live + {a}, s.own + Region(a, n))
  }

  lemma GrownOk(s: Arena, a: nat, n: nat)
    requires s.Ok() && a > BASE && n >= 1 && forall u <- s.own :: u < a
    ensures Grown(s, a, n).Ok()
  {
    hide FreeBlocks, Partition;
    var s' := Grown(s, a, n);
    PartitionGrow(FreeBlocks(s.fl), s.size, s.live, s.own, a, n);
    forall i | 0 <= i < |s.fl|
      ensures s.fl[i] != a
    {
      if i > 0 { FreeBlocksIn(s.fl, i); }
    }
    CycleSize(s.fl, s.ptr, s.size, a, s'.size);
  }

  // ---- conservation ----

  ghost function Pick(heads: set<nat>): (a: nat)
    requires heads != {}
    ensures a in heads
  {
    var a :| a in heads;
    a
  }

  /** The units in the blocks `heads`. */
  ghost function Total(heads: set<nat>, size: map<nat, nat>): nat
    requires heads <= size.Keys
  {
    if heads == {} then 0 else size[Pick(heads)] + Total(heads - {Pick(heads)}, size)
  }

  lemma {:induction false} SpanSize(a: nat, n: nat)
    ensures |Region(a, n)| == n
  {
    if n > 0 {
      SpanSize(a, n - 1);
      assert Region(a, n) == Region(a, n - 1)[a + n - 1 := a];
    }
  }

  ghost function Without(own: map<nat, nat>, a: nat): map<nat, nat> {
    map u | u in own && own[u] != a :: own[u]
  }

  lemma OwnedWithout(heads: set<nat>, size: map<nat, nat>, own: map<nat, nat>, a: nat)
    requires Owned(heads, size, own) && a in heads
    ensures Owned(heads - {a}, size, Without(own, a))
  {
    var rest := Without(own, a);
    forall x, u: nat {:trigger Within(size, x, u)} | x in heads - {a} && Within(size, x, u)
      ensures u in rest && rest[u] == x
    {
    }
  }

  lemma WithoutSize(heads: set<nat>, size: map<nat, nat>, own: map<nat, nat>, a: nat)
    requires Owned(heads, size, own) && a in heads
    ensures a in size && |own| == |Without(own, a)| + size[a]
  {
    var rest := Without(own, a);
    var block := Region(a, size[a]);
    SpanSize(a, size[a]);
    forall u | u in block.Keys
      ensures u in own && own[u] == a
    {
      assert Within(size, a, u);
    }
    forall u | u in own
      ensures u in rest || u in block
    {
      assert Within(size, own[u], u);
    }
    assert own.Keys == rest.Keys + block.Keys && rest.Keys !! block.Keys;
    assert |own| == |own.Keys| && |rest| == |rest.Keys| && |block| == |block.Keys|;
  }

  lemma {:induction false} OwnedTotal(heads: set<nat>, size: map<nat, nat>, own: map<nat, nat>)
    requires Owned(heads, size, own)
    ensures heads <= size.Keys && Total(heads, size) == |own|
    decreases heads
  {
    if heads == {} {
      assert own == map[];
    } else {
      var a := Pick(heads);
      OwnedWithout(heads, size, own, a);
      WithoutSize(heads, size, own, a);
      OwnedTotal(heads - {a}, size, Without(own, a));
    }
  }

  /** The list runs through the free blocks in address order and back to the
      base block, and no two of them touch. */
  lemma ListMeans(s: Arena)
    requires s.Ok()
    ensures s.fl != [] && s.fl[0] == 1 && s.fl[0] in s.size && s.size[1] == 0
    ensures forall i, j :: 0 <= i < j < |s.fl| ==> s.fl[i] < s.fl[j]
    ensures forall i :: 0 <= i < |s.fl| ==>
      s.fl[i] in s.ptr && s.ptr[s.fl[i]] == if i == |s.fl| - 1 then s.fl[0] else s.fl[i + 1]
    ensures forall i :: 1 <= i < |s.fl| - 1 ==> s.fl[i] in s.size && s.fl[i] + s.size[s.fl[i]] < s.fl[i + 1]
  {
    hide Partition;
    forall i | 0 <= i < |s.fl|
      ensures s.fl[i] in s.ptr && s.ptr[s.fl[i]] == if i == |s.fl| - 1 then s.fl[0] else s.fl[i + 1]
    {
      assert LinkAt(s.fl, s.ptr, i);
    }
  }

  ghost predicate IsBlock(s: Arena, a: nat) {
    a in s.live || exists i :: 1 <= i < |s.fl| && s.fl[i] == a
  }

  /** No two blocks overlap, whether free or live, none is both, and all lie in
      memory obtained from sbrk. */
  lemma BlocksMean(s: Arena)
    requires s.Ok()
    ensures forall i :: 1 <= i < |s.fl| ==> s.fl[i] !in s.live
    ensures forall a: nat :: IsBlock(s, a) ==> a in s.size && s.size[a] >= 1
    ensures forall a: nat, b: nat :: IsBlock(s, a) && IsBlock(s, b) && a < b ==> a in s.size && a + s.size[a] <= b
    ensures forall a: nat, u: nat :: IsBlock(s, a) && a in s.size && a <= u < a + s.size[a] ==> u in s.own
    ensures forall u <- s.own :: exists a :: IsBlock(s, a) && a in s.size && a <= u < a + s.size[a]
  {
    hide Owned, Cycle, ApartBut;
    var heads := s.live + FreeBlocks(s.fl);
    assert forall a: nat :: IsBlock(s, a) <==> a in heads;
    forall i | 1 <= i < |s.fl|
      ensures s.fl[i] !in s.live
    {
      assert s.fl[i] in FreeBlocks(s.fl);
    }
    forall a: nat, b: nat | IsBlock(s, a) && IsBlock(s, b) && a < b
      ensures a in s.size && a + s.size[a] <= b
    {
      BlocksDisjoint(FreeBlocks(s.fl), s.size, s.live, s.own, a, b);
    }
    forall a: nat | IsBlock(s, a)
      ensures a in s.size && s.size[a] >= 1
    {
      BlockIn(heads, s.size, s.own, a);
    }
    forall a: nat, u: nat | IsBlock(s, a) && a in s.size && a <= u < a + s.size[a]
      ensures u in s.own
    {
      BlockIn(heads, s.size, s.own, a);
    }
    forall u | u in s.own
      ensures exists a :: IsBlock(s, a) && a in s.size && a <= u < a + s.size[a]
    {
      BlockOf(heads, s.size, s.own, u);
      assert IsBlock(s, s.own[u]);
    }
  }

  lemma BlockOf(heads: set<nat>, size: map<nat, nat>, own: map<nat, nat>, u: nat)
    requires Owned(heads, size, own) && u in own
    ensures own[u] in heads && own[u] in size && own[u] <= u < own[u] + size[own[u]]
  {
    assert Within(size, own[u], u);
  }

  lemma BlockIn(heads: set<nat>, size: map<nat, nat>, own: map<nat, nat>, a: nat)
    requires Owned(heads, size, own) && a in heads
    ensures a in size && size[a] >= 1 && forall u: nat :: a <= u < a + size[a] ==> u in own
  {
    forall u: nat | a <= u < a + size[a]
      ensures u in own
    {
      assert Within(size, a, u);
    }
  }

  ghost predicate NoOverlap(size: map<nat, nat>, a: nat, b: nat) {
    a in size && b in size && (a + size[a] <= b || b + size[b] <= a)
  }

  /** Free units plus allocated units are the units obtained from sbrk, and
      live blocks overlap neither one another nor a free block. */
  lemma Conservation(s: Arena)
    requires s.Ok()
    ensures s.live + FreeBlocks(s.fl) <= s.size.Keys && Total(s.live + FreeBlocks(s.fl), s.size) == |s.own|
    ensures forall a, b :: a in s.live && b in s.live + FreeBlocks(s.fl) && a != b ==> NoOverlap(s.size, a, b)
  {
    hide FreeBlocks, Total;
    OwnedTotal(s.live + FreeBlocks(s.fl), s.size, s.own);
    forall a, b | a in s.live && b in s.live + FreeBlocks(s.fl) && a != b
      ensures NoOverlap(s.size, a, b)
    {
      BlocksDisjoint(FreeBlocks(s.fl), s.size, s.live, s.own, if a < b then a else b, if a < b then b else a);
    }
  }

  class Allocator {
    var ptr: map<nat, nat>      // s.ptr of the header at an address
    var size: map<nat, nat>     // s.size
    var freep: nat
    ghost var fl: seq<nat>      // the free list, from the base block
    ghost var live: set<nat>    // headers of the blocks handed out
    ghost var own: map<nat, nat>

    ghost function A(): Arena
      reads this
    {
      Arena(fl, ptr, size, live, own)
    }

    ghost predicate Valid()
      reads this
    {
      if freep == 0 then live == {} && own == map[]
      else A().Ok() && freep in fl
    }

    lemma Started()
      requires Valid() && freep != 0
      ensures A().Ok() && freep in fl && forall a <- live :: a in size
    {
      SizedAll(A());
    }

    constructor ()
      ensures Valid() && live == {} && own == map[]
    {
      ptr, size, freep, fl, live, own := map[], map[], 0, [], {}, map[];
    }

    /** The search loop of free: where on the list `bp` belongs. */
    method FindPlace(bp: nat) returns (p: nat, ghost t: nat)
      requires A().Ok() && freep in fl && bp > BASE && bp !in fl
      ensures t < |fl| && p == fl[t] && p < bp && (t + 1 < |fl| ==> bp < fl[t + 1])
    {
      p := freep;
      ghost var j :| 0 <= j < |fl| && fl[j] == p;
      t := Below(fl, bp);
      while !(bp > p && bp < ptr[p])
        invariant 0 <= j < |fl| && p == fl[j]
        decreases if j <= t then t - j else t - j + |fl|
      {
        assert LinkAt(fl, ptr, j);
        if p >= ptr[p] && (bp > p || bp < ptr[p]) {
          break;
        }
        p := ptr[p];
        j := if j + 1 < |fl| then j + 1 else 0;
      }
      assert LinkAt(fl, ptr, j);
      OnePlace(fl, bp, t, j);
    }

    static lemma OnePlace(fl: seq<nat>, bp: nat, t: nat, j: nat)
      requires Ascending(fl) && t < |fl| && j < |fl|
      requires fl[t] < bp && (t + 1 < |fl| ==> bp < fl[t + 1])
      ensures fl[j] < bp && (j + 1 < |fl| ==> bp < fl[j + 1]) ==> j == t
    {
      if t < j {
        assert fl[t + 1] <= fl[j];
      } else if j < t {
        assert fl[j + 1] <= fl[t];
      }
    }

    static ghost function Below(fl: seq<nat>, bp: nat): (t: nat)
      requires |fl| > 0 && fl[0] < bp && bp !in fl
      ensures t < |fl| && fl[t] < bp && (t + 1 < |fl| ==> bp < fl[t + 1])
    {
      if |fl| == 1 || fl[|fl| - 1] < bp then |fl| - 1
      else
        assert fl[|fl| - 1] in fl;
        Below(fl[..|fl| - 1], bp)
    }

    /** free: the block goes back on the list, joined with the free block right
        after it and with the one right before it. */
    method Free(ap: nat)
      requires Valid() && ap >= 1 && ap - 1 in live
      modifies this
      ensures Valid() && freep != 0
      ensures live == old(live) - {ap - 1} && own.Keys == old(own.Keys)
      ensures ap - 1 in old(size) && Roomy(fl, size, old(size)[ap - 1])
      ensures exists i :: 1 <= i < |fl| && fl[i] in size && size[fl[i]] >= old(size)[ap - 1]
      ensures forall a <- live :: a in old(size) && a in size && size[a] == old(size)[a]
    {
      hide FreeBlocks, Partition, Freed, Cycle, ApartBut, Successor, Arena.Loose, Arena.Ok, Roomy;
      var bp := ap - 1;
      NotListed(A(), bp);
      var p;
      ghost var t;
      p, t := FindPlace(bp);
      ghost var s := A();
      FreedOk(s, t, bp);
      FreedMaps(s, t, bp);
      Relink(bp, p);
      ghost var s' := Freed(s, t, bp);
      fl, live, own := s'.fl, s'.live, s'.own;
      RoomyMeans(fl, size, old(size)[bp]);
    }

    /** The second half of free: joins `bp` with the list at `p`. */
    method Relink(bp: nat, p: nat)
      requires bp in size && p in size && p in ptr && p != bp
      requires ptr[p] in size && ptr[p] in ptr
      modifies `ptr, `size, `freep
      ensures
        var next := old(ptr)[p];
        var up := bp + old(size)[bp] == next;
        var size1 := if up then old(size)[bp := old(size)[bp] + old(size)[next]] else old(size);
        var ptr1 := old(ptr)[bp := if up then old(ptr)[next] else next];
        && size == (if p + size1[p] == bp then size1[p := size1[p] + size1[bp]] else size1)
        && ptr == ptr1[p := if p + size1[p] == bp then ptr1[bp] else bp]
      ensures freep == p
    {
      if bp + size[bp] == ptr[p] {
        var next := ptr[p];
        size := size[bp := size[bp] + size[next]];
        ptr := ptr[bp := ptr[next]];
      } else {
        ptr := ptr[bp := ptr[p]];
      }
      if p + size[p] == bp {
        size := size[p := size[p] + size[bp]];
        ptr := ptr[p := ptr[bp]];
      } else {
        ptr := ptr[p := bp];
      }
      freep := p;
    }

    /** morecore: `got` is what sbrk answers, None for (char*)-1, when asked for
        `arg` bytes. */
    method Morecore(nu0: nat, got: Option<nat>) returns (p: nat, arg: int)
      requires Valid() && freep != 0 && 1 <= nu0 <= UINT / HEADER
      requires got.Some? ==> got.value > BASE && forall u <- own :: u < got.value
      modifies this
      ensures Valid() && freep != 0
      ensures arg == CoreUnits(nu0) * HEADER <==> nu0 < UINT / 2 / HEADER
      ensures got.None? ==> p == 0 && A() == old(A()) && freep == old(freep)
      ensures got.Some? ==> p == freep && live == old(live) && Roomy(fl, size, nu0)
      ensures got.Some? ==> own.Keys == old(own.Keys) + Region(got.value, CoreUnits(nu0)).Keys
      ensures got.Some? ==> forall u: nat :: u in own <==>
        u in old(own) || got.value <= u < got.value + if nu0 < 4096 then 4096 else nu0
      ensures forall a <- live :: a in old(size) && a in size && size[a] == old(size)[a]
    {
      hide Cycle, ApartBut, FreeBlocks, Partition, Arena.Loose, Arena.Ok;
      SizedAll(A());
      var nu := nu0;
      if nu < 4096 { nu := 4096; }
      SbrkAsksExactly(nu);
      arg := Int32(nu * HEADER);
      if got.None? { return 0, arg; }
      var hp := got.value;
      ghost var s := A();
      GrownOk(s, hp, nu);
      GrownFresh(s, hp, nu);
      size := size[hp := nu];
      live, own := live + {hp}, own + Region(hp, nu);
      CoreMeans(nu0, hp);
      Free(hp + 1);
      assert forall u: nat :: u in own <==> u in own.Keys;
      return freep, arg;
    }

    /** On the first call, the base block alone, linked to itself. */
    method InitList(ghost n: nat)
      requires Valid()
      modifies this
      ensures Valid() && freep != 0 && live == old(live) && own == old(own)
      ensures Roomy(fl, size, n) <==> old(freep != 0 && Roomy(fl, size, n))
      ensures forall a <- live :: a in old(size) && a in size && size[a] == old(size)[a]
    {
      if freep == 0 {
        ptr := ptr[BASE := BASE];
        size := size[BASE := 0];
        freep := BASE;
        fl := [BASE];
        assert LinkAt(fl, ptr, 0);
        assert FreeBlocks(fl) == {};
        NoRoom(fl, size, n);
      } else {
        SizedAll(A());
      }
    }

    /** Takes `nunits` from the free block at position `k` of the list. */
    method Carve(prevp: nat, p0: nat, nunits: nat, ghost k: nat) returns (r: nat)
      requires Valid() && freep != 0 && 1 <= nunits && 1 <= k < |fl|
      requires p0 == fl[k] && prevp == fl[k - 1] && p0 in size && size[p0] >= nunits
      modifies this
      ensures Valid() && freep == prevp
      ensures r >= 1 && r - 1 !in old(live) && live == old(live) + {r - 1} && own.Keys == old(own.Keys)
      ensures r - 1 in size && size[r - 1] == nunits
      ensures forall a <- old(live) :: a in old(size) && a in size && size[a] == old(size)[a]
    {
      hide Cycle, ApartBut, FreeBlocks, Partition, Drop, Reown, ReownFrom, Arena.Loose, Arena.Ok;
      ghost var s := A();
      var p := p0;
      CarveFacts(s, k);
      if size[p] == nunits {
        TakenOk(s, k);
        ptr := ptr[prevp := ptr[p]];
        fl, live := Drop(fl, k), live + {p};
        assert A() == Taken(s, k);
      } else {
        SplitOk(s, k, nunits);
        SplitFresh(s, k, nunits);
        size := size[p := size[p] - nunits];
        p := p + size[p];
        size := size[p := nunits];
        live, own := live + {p}, ReownFrom(own, p0, p);
        assert A() == Split(s, k, nunits);
      }
      freep := prevp;
      return p + 1;
    }

    /** The search of malloc, from its first request on. */
    method Search(nbytes: nat, got: Option<nat>) returns (r: nat, asked: bool, arg: int)
      requires Valid() && nbytes < UINT
      requires got.Some? ==> got.value > BASE && forall u <- own :: u < got.value
      modifies this
      ensures Valid()
      ensures r == 0 <==> asked && got.None?
      ensures r == 0 ==> live == old(live)
      ensures r != 0 ==> r - 1 !in old(live) && live == old(live) + {r - 1}
      ensures r != 0 ==> r - 1 in size && size[r - 1] == Units(nbytes)
      ensures asked <==> old(freep == 0 || !Roomy(fl, size, Units(nbytes)))
      ensures asked ==> (arg == CoreUnits(Units(nbytes)) * HEADER <==> Units(nbytes) < UINT / 2 / HEADER)
      ensures own.Keys ==
        old(own.Keys) + (if asked && got.Some? then Region(got.value, CoreUnits(Units(nbytes))).Keys else {})
      ensures forall a <- old(live) :: a in old(size) && a in size && size[a] == old(size)[a]
    {
      hide Cycle, ApartBut, FreeBlocks, Partition, Arena.Loose, Arena.Ok, Allocator.Valid, CoreUnits, Units, Roomy,
        Searched, Region, Int32, Index, Ascending, Successor;
      var nunits := Units(nbytes);
      UnitsBound(nbytes);
      asked, arg := false, 0;
      InitList(nunits);
      Started();
      ghost var s0 := A();
      ghost var f: nat := Index(fl, freep);
      ghost var c: nat := 0;
      NextTurn(s0, f, 0);
      var prevp := freep;
      var p := ptr[prevp];
      while true
        invariant Valid() && freep != 0 && f < |fl| && fl[f] == freep
        invariant 0 <= c < |fl| && prevp == fl[Turn(f, c, |fl|)] && p == fl[Turn(f, c + 1, |fl|)]
        invariant Searched(fl, size, f, c, nunits)
        invariant live == old(live) && forall a <- live :: a in old(size) && a in size && size[a] == old(size)[a]
        invariant !asked ==> A() == s0
        invariant asked ==> (arg == CoreUnits(nunits) * HEADER <==> nunits < UINT / 2 / HEADER)
        invariant asked ==> got.Some? && Roomy(fl, size, nunits) && !Roomy(s0.fl, s0.size, nunits)
        invariant asked ==> own.Keys == s0.own.Keys + Region(got.value, CoreUnits(nunits)).Keys
        decreases !asked, |fl| - c
      {
        ghost var k := Turn(f, c + 1, |fl|);
        Started();
        OnList(A(), k);
        if size[p] >= nunits {
          BeforeIt(A(), f, c, nunits);
          r := Carve(prevp, p, nunits, k);
          return;
        }
        SearchedOne(A(), f, c, nunits);
        if p == freep {
          FullTurn(A(), f, c, nunits);
          assert !asked;
          asked := true;
          p, arg := Morecore(nunits, got);
          if p == 0 { return 0, asked, arg; }
          Started();
          f, c := Index(fl, freep), 0;
          NextTurn(A(), f, 0);
        } else {
          c := c + 1;
          NextTurn(A(), f, c);
        }
        prevp := p;
        p := ptr[p];
      }
    }

    /** malloc. `got` is what sbrk would answer; `asked` says whether it was
        called, which happens only if no free block is large enough, and `arg`
        for how many bytes: exactly those of the units that the list gains,
        unless they do not fit in a signed integer. */
    method Malloc(nbytes: nat, got: Option<nat>) returns (r: nat, asked: bool, arg: int)
      requires Valid() && nbytes < UINT
      requires got.Some? ==> got.value > BASE && forall u <- own :: u < got.value
      modifies this
      ensures Valid()
      ensures r == 0 <==> asked && got.None?
      ensures r == 0 ==> live == old(live)
      ensures r != 0 ==> r - 1 !in old(live) && live == old(live) + {r - 1}
      ensures r != 0 ==> r - 1 in size && size[r - 1] == (nbytes + 7) % 0x1_0000_0000 / 8 + 1
      ensures forall a <- old(live) :: a in old(size) && a in size && size[a] == old(size)[a]
      ensures var n := (nbytes + 7) % 0x1_0000_0000 / 8 + 1;
        && asked == (old(freep == 0) ||
                     forall i :: 1 <= i < |old(fl)| && old(fl)[i] in old(size) ==> old(size)[old(fl)[i]] < n)
        && (asked ==> (arg == (if n < 4096 then 4096 else n) * 8 <==> n < 0x1000_0000))
        && forall u: nat :: u in own <==>
             u in old(own) || (asked && got.Some? && got.value <= u < got.value + if n < 4096 then 4096 else n)
    {
      hide Allocator.Valid, CoreUnits, Units, Roomy, Region;
      UnitsMeans(nbytes);
      RoomyMeans(fl, size, Units(nbytes));
      CoreMeans(Units(nbytes), if got.Some? then got.value else 0);
      r, asked, arg := Search(nbytes, got);
      assert forall u: nat :: u in own <==> u in own.Keys;
    }
  }

  ghost function Index(fl: seq<nat>, a: nat): (i: nat)
    requires a in fl
    ensures i < |fl| && fl[i] == a
  {
    if fl[|fl| - 1] == a then |fl| - 1 else Index(fl[..|fl| - 1], a)
  }

  lemma OnList(s: Arena, k: nat)
    requires s.Ok() && k < |s.fl|
    ensures s.fl[k] in s.ptr && s.fl[k] in s.size && s.fl[k] != 0
  {
    assert LinkAt(s.fl, s.ptr, k);
    if k > 0 { FreeBlocksIn(s.fl, k); }
  }

  lemma NextTurn(s: Arena, f: nat, c: nat)
    requires s.Ok() && f < |s.fl| && c < |s.fl|
    ensures var a := s.fl[Turn(f, c, |s.fl|)];
      a in s.ptr && s.ptr[a] == s.fl[Turn(f, c + 1, |s.fl|)]
    ensures forall n: nat :: Searched(s.fl, s.size, f, 0, n)
  {
    assert LinkAt(s.fl, s.ptr, Turn(f, c, |s.fl|));
  }

  /** The `c` blocks after position `f` are all too small. */
  ghost predicate Searched(fl: seq<nat>, size: map<nat, nat>, f: nat, c: nat, n: nat)
    requires f < |fl| && c <= |fl|
  {
    forall d: nat {:trigger Turn(f, d, |fl|)} :: 1 <= d <= c ==>
      fl[Turn(f, d, |fl|)] in size && size[fl[Turn(f, d, |fl|)]] < n
  }

  lemma SearchedOne(s: Arena, f: nat, c: nat, n: nat)
    requires s.Ok() && f < |s.fl| && c < |s.fl| && Searched(s.fl, s.size, f, c, n)
    requires var a := s.fl[Turn(f, c + 1, |s.fl|)]; a in s.size && s.size[a] < n
    ensures Searched(s.fl, s.size, f, c + 1, n)
  {
  }

  /** Back at freep, the whole list has been searched. */
  lemma FullTurn(s: Arena, f: nat, c: nat, n: nat)
    requires s.Ok() && f < |s.fl| && c < |s.fl| && Searched(s.fl, s.size, f, c + 1, n)
    requires s.fl[Turn(f, c + 1, |s.fl|)] == s.fl[f]
    ensures !Roomy(s.fl, s.size, n)
  {
    assert Turn(f, c + 1, |s.fl|) == f;
    forall i | 1 <= i < |s.fl|
      ensures s.fl[i] in s.size && s.size[s.fl[i]] < n
    {
      assert Turn(f, if i > f then i - f else i - f + |s.fl|, |s.fl|) == i;
    }
  }

  /** A block that is large enough is not the base block, so prevp precedes it. */
  lemma BeforeIt(s: Arena, f: nat, c: nat, n: nat)
    requires s.Ok() && f < |s.fl| && c < |s.fl| && n >= 1
    requires var a := s.fl[Turn(f, c + 1, |s.fl|)]; a in s.size && s.size[a] >= n
    ensures var k := Turn(f, c + 1, |s.fl|);
      1 <= k && s.fl[Turn(f, c, |s.fl|)] == s.fl[k - 1] && Roomy(s.fl, s.size, n)
  {
  }

  lemma CarveFacts(s: Arena, k: nat)
    requires s.Ok() && 1 <= k < |s.fl|
    ensures s.fl[k - 1] in s.ptr && s.fl[k] in s.ptr && s.fl[k] !in s.live && s.fl[k] > BASE
    ensures s.fl[k - 1] != 0
    ensures |Drop(s.fl, k)| == |s.fl| - 1 && s.fl[k - 1] in Drop(s.fl, k)
    ensures forall a <- s.live :: a in s.size
  {
    assert LinkAt(s.fl, s.ptr, k - 1) && LinkAt(s.fl, s.ptr, k);
    DropIs(s.fl, k);
    assert Drop(s.fl, k)[k - 1] == s.fl[k - 1];
    FreeBlocksIn(s.fl, k);
    OnList(s, k - 1);
    SizedAll(s);
  }

  lemma SplitFresh(s: Arena, k: nat, n: nat)
    requires s.Ok() && 1 <= k < |s.fl| && s.fl[k] in s.size && 1 <= n < s.size[s.fl[k]]
    ensures s.fl[k] + s.size[s.fl[k]] - n !in s.live
  {
    FreeBlocksIn(s.fl, k);
    PartitionSplit(FreeBlocks(s.fl), s.size, s.live, s.own, s.fl[k], n);
  }

  lemma NoRoom(fl: seq<nat>, size: map<nat, nat>, n: nat)
    requires fl == [BASE]
    ensures !Roomy(fl, size, n)
  {
  }

  function CoreUnits(nu: nat): nat {
    if nu < 4096 then 4096 else nu
  }

  /** At least 4096 units are asked for at a time. */
  lemma CoreMeans(nu: nat, a: nat)
    ensures CoreUnits(nu) == if nu < 4096 then 4096 else nu
    ensures forall u: nat :: u in Region(a, CoreUnits(nu)).Keys <==> a <= u < a + if nu < 4096 then 4096 else nu
  {
    assert forall u: nat :: Spans(a, CoreUnits(nu), u) <==> a <= u < a + CoreUnits(nu);
  }

  lemma RoomyMeans(fl: seq<nat>, size: map<nat, nat>, n: nat)
    ensures !Roomy(fl, size, n) <==> forall i :: 1 <= i < |fl| && fl[i] in size ==> size[fl[i]] < n
  {
  }

  lemma SizedAll(s: Arena)
    requires s.Ok()
    ensures forall a <- s.live :: a in s.size
  {
    forall a | a in s.live ensures a in s.size { NotListed(s, a); }
  }

  lemma GrownFresh(s: Arena, a: nat, n: nat)
    requires s.Ok() && a > BASE && n >= 1 && forall u <- s.own :: u < a
    ensures a !in s.live
  {
    PartitionGrow(FreeBlocks(s.fl), s.size, s.live, s.own, a, n);
  }

  lemma NotListed(s: Arena, a: nat)
    requires s.Ok() && a in s.live
    ensures a !in s.fl && a > BASE && a in s.size
  {
    LiveSized(FreeBlocks(s.fl), s.size, s.live, s.own, a);
    forall i | 0 <= i < |s.fl|
      ensures s.fl[i] != a
    {
      if i > 0 { FreeBlocksIn(s.fl, i); }
    }
  }
}
