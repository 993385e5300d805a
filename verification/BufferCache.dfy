/** The buffer cache: a doubly linked list of buffers in order of release, over
    a disk kept in memory. */
module BufferCache {
  import opened Blocks

  const ROOTDEV := 1

  class Buf {
    var valid: bool       // B_VALID
    var dirty: bool       // B_DIRTY
    var dev: nat
    var blockno: nat
    var refcnt: nat
    var data: Block
    var prev: Buf
    var next: Buf
    ghost var stamp: int  // when it was last released

    constructor ()
      ensures !valid && !dirty && dev == 0 && blockno == 0 && refcnt == 0
    {
      valid, dirty, dev, blockno, refcnt, data := false, false, 0, 0, 0, ZERO;
      prev, next := this, this;
    }
  }

  /** The fields of a buffer that are not list links. */
  datatype Status = Status(valid: bool, dirty: bool, dev: nat, blockno: nat, refcnt: nat, data: Block)
  {
    ghost predicate Holds(d: nat, k: nat) { dev == d && blockno == k }
    ghost predicate Busy() { refcnt > 0 || dirty }
  }

  ghost function StatusOf(b: Buf): Status
    reads b`valid, b`dirty, b`dev, b`blockno, b`refcnt, b`data
  {
    Status(b.valid, b.dirty, b.dev, b.blockno, b.refcnt, b.data)
  }

  type Snapshot = map<Buf, Status>

  ghost predicate Cached(m: Snapshot, dev: nat, blockno: nat) {
    exists b <- m :: m[b].Holds(dev, blockno)
  }

  ghost predicate AllBusy(m: Snapshot) {
    forall b <- m :: m[b].Busy()
  }

  /** At most one buffer carries a given block of the root device, only blocks
      of that device become valid, and only valid data is owed to the disk. */
  ghost predicate Coherent(m: Snapshot) {
    && (forall a, b :: a in m && b in m && m[a].dev == ROOTDEV && m[b].Holds(ROOTDEV, m[a].blockno) ==> a == b)
    && (forall b <- m :: (m[b].dirty ==> m[b].valid) && (m[b].valid ==> m[b].dev == ROOTDEV))
  }

  /** `m'` is `m` with the fields of one buffer replaced. */
  ghost predicate Put(m: Snapshot, b: Buf, s: Status, m': Snapshot) {
    b in m && m' == m[b := s]
  }

  /** What the cache holds for one block of the root device. */
  datatype Entry = Entry(data: Block, dirty: bool)

  ghost function Contents(m: Snapshot): map<nat, Entry>
    requires Coherent(m)
  {
    map b | b in m && m[b].valid :: m[b].blockno := Entry(m[b].data, m[b].dirty)
  }

  /** Recycling forgets clean blocks only. */
  ghost predicate Dropped(c: map<nat, Entry>, c': map<nat, Entry>)
  {
    && (forall k <- c' :: k in c && c'[k] == c[k])
    && (forall k <- c :: k !in c' ==> !c[k].dirty)
  }

  lemma ContentsAt(m: Snapshot, b: Buf)
    requires Coherent(m) && b in m
    ensures m[b].dev == ROOTDEV ==> (m[b].blockno in Contents(m) <==> m[b].valid)
    ensures m[b].valid ==>
      m[b].dev == ROOTDEV && m[b].blockno in Contents(m) && Contents(m)[m[b].blockno] == Entry(m[b].data, m[b].dirty)
  {
  }

  /** The buffer that a cached block is read from. */
  lemma Carrier(m: Snapshot, k: nat) returns (b: Buf)
    requires Coherent(m) && k in Contents(m)
    ensures b in m && m[b].Holds(ROOTDEV, k) && m[b].valid && Contents(m)[k] == Entry(m[b].data, m[b].dirty)
  {
    b :| b in m && m[b].valid && m[b].blockno == k;
  }

  lemma NotCached(m: Snapshot, k: nat)
    requires Coherent(m) && !Cached(m, ROOTDEV, k)
    ensures k !in Contents(m)
  {
    if k in Contents(m) {
      var b := Carrier(m, k);
    }
  }

  /** A changed buffer alters what the cache says about its old and its new
      block, and nothing else. */
  lemma UpdateOne(m: Snapshot, b: Buf, s: Status, k: nat)
    requires Coherent(m) && b in m && Coherent(m[b := s])
    requires !(m[b].Holds(ROOTDEV, k) && m[b].valid) && !(s.Holds(ROOTDEV, k) && s.valid)
    ensures k in Contents(m) <==> k in Contents(m[b := s])
    ensures k in Contents(m) ==> Contents(m)[k] == Contents(m[b := s])[k]
  {
    var m' := m[b := s];
    if k in Contents(m) {
      var x := Carrier(m, k);
      ContentsAt(m', x);
    }
    if k in Contents(m') {
      var x := Carrier(m', k);
      ContentsAt(m, x);
    }
  }

  lemma UpdateValid(m: Snapshot, b: Buf, s: Status)
    requires Coherent(m) && b in m && m[b].Holds(ROOTDEV, s.blockno) && s.dev == ROOTDEV && s.valid
    ensures Coherent(m[b := s])
    ensures Contents(m[b := s]) == Contents(m)[s.blockno := Entry(s.data, s.dirty)]
  {
    hide Contents;
    var c, c' := Contents(m), Contents(m[b := s]);
    ContentsAt(m[b := s], b);
    forall k | k != s.blockno
      ensures (k in c <==> k in c') && (k in c ==> c[k] == c'[k])
    {
      UpdateOne(m, b, s, k);
    }
    assert c'.Keys == c.Keys + {s.blockno};
  }

  lemma PutValid(m: Snapshot, b: Buf, s: Status, m': Snapshot)
    requires Coherent(m) && Put(m, b, s, m') && m[b].Holds(ROOTDEV, s.blockno) && s.dev == ROOTDEV && s.valid
    ensures Coherent(m') && Contents(m') == Contents(m)[s.blockno := Entry(s.data, s.dirty)]
  {
    UpdateValid(m, b, s);
  }

  lemma PutTwice(m: Snapshot, b: Buf, s1: Status, m1: Snapshot, s2: Status, m2: Snapshot)
    requires Put(m, b, s1, m1) && Put(m1, b, s2, m2)
    ensures Put(m, b, s2, m2) && m1[b] == s1 && m2[b] == s2
  {
  }

  /** References to other blocks keep their buffers as they are. */
  ghost predicate OthersKept(m: Snapshot, k: nat, m': Snapshot) {
    forall x <- m :: m[x].refcnt > 0 && m[x].blockno != k ==> x in m' && m'[x] == m[x]
  }

  /** A reference more to `b`, which is now the buffer of block `k`. */
  ghost predicate Taken(m: Snapshot, b: Buf, k: nat, m': Snapshot) {
    && b in m && b in m' && Put(m, b, m'[b], m') && m'[b].refcnt == m[b].refcnt + 1
    && m'[b].blockno == k && (m[b].refcnt == 0 || m[b].blockno == k)
  }

  lemma TakenThenPut(m: Snapshot, b: Buf, k: nat, m1: Snapshot, s: Status, m': Snapshot)
    requires Taken(m, b, k, m1) && Put(m1, b, s, m') && s.refcnt == m1[b].refcnt && s.blockno == k
    ensures Taken(m, b, k, m')
  {
  }

  lemma TakenRefs(m: Snapshot, b: Buf, k: nat, m': Snapshot)
    requires Taken(m, b, k, m')
    ensures OthersKept(m, k, m') && RefsOf(m') == Inc(RefsOf(m), b)
  {
    PutRefs(m, b, m'[b], m');
  }

  lemma UpdateTwice(c: map<nat, Entry>, k: nat, e1: Entry, e2: Entry)
    ensures c[k := e1][k := e2] == c[k := e2]
  {
  }

  lemma UpdateQuiet(m: Snapshot, b: Buf, s: Status)
    requires Coherent(m) && b in m && m[b].Holds(s.dev, s.blockno) && (s.dirty ==> s.valid)
    requires !m[b].valid && !s.valid
    ensures Coherent(m[b := s]) && Contents(m[b := s]) == Contents(m)
  {
    hide Contents;
    var c, c' := Contents(m), Contents(m[b := s]);
    forall k
      ensures (k in c <==> k in c') && (k in c ==> c[k] == c'[k])
    {
      UpdateOne(m, b, s, k);
    }
  }

  /** Taking or dropping a reference. */
  lemma UpdateKept(m: Snapshot, b: Buf, n: nat, m': Snapshot)
    requires Coherent(m) && b in m && Put(m, b, m[b].(refcnt := n), m')
    ensures Coherent(m') && Contents(m') == Contents(m)
  {
    var s := m[b].(refcnt := n);
    if m[b].valid {
      UpdateValid(m, b, s);
      ContentsAt(m, b);
    } else {
      UpdateQuiet(m, b, s);
    }
  }

  lemma RecycledCoherent(m: Snapshot, b: Buf, s: Status, m': Snapshot)
    requires Coherent(m) && b in m && !Cached(m, s.dev, s.blockno) && !s.dirty && !s.valid
    requires Put(m, b, s, m')
    ensures Coherent(m')
  {
    forall x, y | x in m' && y in m' && m'[x].dev == ROOTDEV && m'[y].Holds(ROOTDEV, m'[x].blockno)
      ensures x == y
    {
      assert x != b && y == b ==> m[x].Holds(s.dev, s.blockno);
    }
  }

  lemma UpdateRecycled(m: Snapshot, b: Buf, s: Status, m': Snapshot)
    requires Coherent(m) && b in m && !m[b].Busy() && !Cached(m, s.dev, s.blockno) && !s.valid && !s.dirty
    requires Put(m, b, s, m')
    ensures Coherent(m')
    ensures Dropped(Contents(m), Contents(m'))
  {
    RecycledCoherent(m, b, s, m');
    var c, c' := Contents(m), Contents(m');
    forall k | k in c'
      ensures k in c && c'[k] == c[k]
    {
      var x := Carrier(m', k);
      ContentsAt(m, x);
    }
    forall k | k in c && k !in c'
      ensures !c[k].dirty
    {
      var x := Carrier(m, k);
      if x != b { ContentsAt(m', x); }
    }
  }

  /** Who holds how many references. */
  ghost function RefsOf(m: Snapshot): map<Buf, nat> {
    map b | b in m :: m[b].refcnt
  }

  ghost function Inc(refs: map<Buf, nat>, b: Buf): map<Buf, nat> {
    if b in refs then refs[b := refs[b] + 1] else refs
  }

  ghost function Dec(refs: map<Buf, nat>, b: Buf): map<Buf, nat> {
    if b in refs && refs[b] > 0 then refs[b := refs[b] - 1] else refs
  }

  lemma PutRefs(m: Snapshot, b: Buf, s: Status, m': Snapshot)
    requires Put(m, b, s, m')
    ensures s.refcnt == m[b].refcnt ==> RefsOf(m') == RefsOf(m)
    ensures s.refcnt == m[b].refcnt + 1 ==> RefsOf(m') == Inc(RefsOf(m), b)
    ensures s.refcnt == m[b].refcnt - 1 ==> RefsOf(m') == Dec(RefsOf(m), b)
  {
  }

  /** References taken and dropped again. */
  lemma IncDec(refs: map<Buf, nat>, a: Buf, b: Buf)
    ensures Dec(Inc(refs, a), a) == refs
    ensures Dec(Dec(Inc(Inc(refs, a), b), b), a) == refs && Dec(Dec(Inc(Inc(refs, a), b), a), b) == refs
  {
  }

  /** What a block reads as: the cached copy if there is one, else the disk. */
  ghost function Logical(disk: seq<Block>, c: map<nat, Entry>, k: nat): Block
    requires k in c || k < |disk|
  {
    if k in c then c[k].data else disk[k]
  }

  /** `c'` is `c` after block `k` was brought in; clean blocks may have left. */
  ghost predicate Loaded(disk: seq<Block>, c: map<nat, Entry>, k: nat, c': map<nat, Entry>)
  {
    && k in c' && (k in c || k < |disk|)
    && c'[k] == Entry(Logical(disk, c, k), k in c && c[k].dirty)
    && (forall j <- c' :: j == k || (j in c && c'[j] == c[j]))
    && (forall j <- c :: j !in c' ==> !c[j].dirty)
  }

  lemma LoadedData(disk: seq<Block>, c: map<nat, Entry>, k: nat, c': map<nat, Entry>)
    requires Loaded(disk, c, k, c')
    ensures k in c' && if k in c then c'[k].data == c[k].data else k < |disk| && c'[k].data == disk[k]
  {
  }

  lemma ReadHit(disk: seq<Block>, c: map<nat, Entry>, k: nat)
    requires k in c
    ensures Loaded(disk, c, k, c)
  {
  }

  lemma ReadMiss(disk: seq<Block>, c: map<nat, Entry>, c1: map<nat, Entry>, k: nat)
    requires Dropped(c, c1) && k < |disk| && k !in c1 && (k in c ==> c == c1)
    ensures Loaded(disk, c, k, c1[k := Entry(disk[k], false)])
  {
  }

  ghost predicate Distinct(s: seq<Buf>) {
    forall i, j :: 0 <= i < j < |s| ==> s[i] != s[j]
  }

  ghost function Without(s: seq<Buf>, k: nat): seq<Buf>
    requires k < |s|
  {
    s[..k] + s[k + 1..]
  }

  ghost function Chain(head: Buf, order: seq<Buf>): seq<Buf> {
    [head] + order + [head]
  }

  /** `order` is exactly what the next and prev pointers from `head` visit. */
  ghost predicate Linked(head: Buf, order: seq<Buf>)
    reads head`next, head`prev, order`next, order`prev
  {
    var chain := Chain(head, order);
    && (forall i :: 0 <= i < |order| + 1 ==> chain[i].next == chain[i + 1])
    && (forall i :: 0 <= i < |order| + 1 ==> chain[i + 1].prev == chain[i])
    && Distinct(order)
    && head !in order
  }

  /** The list runs from the most to the least recently released buffer. */
  ghost predicate ByRelease(order: seq<Buf>, clock: int)
    reads order`stamp
  {
    && (forall i, j :: 0 <= i < j < |order| ==> order[i].stamp > order[j].stamp)
    && (forall i :: 0 <= i < |order| ==> order[i].stamp < clock)
  }

  ghost predicate Ring(head: Buf, order: seq<Buf>, pool: set<Buf>, clock: int)
    reads head`next, head`prev, order`next, order`prev, order`stamp
  {
    Linked(head, order) && ByRelease(order, clock) && pool == set b <- order
  }

  class Cache {
    const head: Buf
    var memdisk: seq<Block>
    ghost var pool: set<Buf>    // the static buffers
    ghost var order: seq<Buf>   // from most to least recently released
    ghost var clock: int

    ghost function Snap(): Snapshot
      reads `pool, pool`valid, pool`dirty, pool`dev, pool`blockno, pool`refcnt, pool`data
    {
      map b | b in pool :: StatusOf(b)
    }

    ghost function Refs(): map<Buf, nat>
      reads `pool, pool`valid, pool`dirty, pool`dev, pool`blockno, pool`refcnt, pool`data
    {
      RefsOf(Snap())
    }

    ghost predicate Valid()
      reads this, head, order, pool
    {
      Ring(head, order, pool, clock) && Coherent(Snap())
    }

    ghost function Blocks(): map<nat, Entry>
      requires Valid()
      reads this, head, order, pool
    {
      Contents(Snap())
    }

    lemma InSnap(b: Buf)
      requires b in pool
      ensures b in Snap() && Snap()[b] == StatusOf(b)
    {
    }

    constructor (disk: seq<Block>)
      ensures Valid() && fresh(head) && memdisk == disk && order == []
    {
      var h := new Buf();
      head, memdisk, pool, order, clock := h, disk, {}, [], 0;
      new;
      head.prev := head;
      head.next := head;
    }

    /** Puts the static buffers on the list, the last one in front. */
    method Binit(bufs: seq<Buf>)
      requires Valid() && order == [] && Distinct(bufs) && head !in bufs
      requires forall b <- bufs :: b.dev != ROOTDEV && !b.dirty && !b.valid && b.refcnt == 0
      modifies `pool, `order, `clock, head`next, head`prev, bufs`next, bufs`prev, bufs`stamp
      ensures Valid() && pool == (set b <- bufs) && forall b <- pool :: b.refcnt == 0 && !b.valid && !b.dirty
      ensures |order| == |bufs| && forall i :: 0 <= i < |bufs| ==> order[i] == bufs[|bufs| - 1 - i]
    {
      hide Linked, ByRelease;
      for i := 0 to |bufs|
        invariant Linked(head, order) && ByRelease(order, clock)
        invariant |order| == i && forall j :: 0 <= j < i ==> order[j] == bufs[i - 1 - j]
      {
        HeadNext();
        LinkFront(bufs[i]);
      }
      pool := set b <- bufs;
      assert Coherent(Snap()) by {
        assert forall b <- Snap() :: Snap()[b].dev != ROOTDEV && !Snap()[b].dirty && !Snap()[b].valid;
      }
      assert Ring(head, order, pool, clock) by {
        assert forall i :: 0 <= i < |bufs| ==> bufs[i] == order[|bufs| - 1 - i];
      }
    }

    lemma HeadNext()
      requires Linked(head, order)
      ensures head.next == Chain(head, order)[1] && head.prev == Chain(head, order)[|order|]
    {
      assert Chain(head, order)[0].next == Chain(head, order)[1];
      assert Chain(head, order)[|order| + 1].prev == Chain(head, order)[|order|];
    }

    /** The splice at the head that binit and brelse share. */
    method LinkFront(b: Buf)
      requires Linked(head, order) && ByRelease(order, clock) && b !in order && b != head
      modifies b`prev, b`next, b`stamp, head`next, head.next`prev, `order, `clock
      ensures Linked(head, order) && ByRelease(order, clock) && order == [b] + old(order)
    {
      hide Linked, ByRelease;
      ghost var was := order;
      Splice(b);
      assert order[1..] == was;
      Stamp(b);
    }

    ghost method Stamp(b: Buf)
      requires order != [] && order[0] == b && b !in order[1..] && ByRelease(order[1..], clock)
      modifies b`stamp, `clock
      ensures ByRelease(order, clock)
    {
      b.stamp, clock := clock, clock + 1;
      assert forall i :: 1 <= i < |order| ==> order[i] == order[1..][i - 1] && order[i] in order[1..];
    }

    method Splice(b: Buf)
      requires Linked(head, order) && b !in order && b != head
      modifies b`prev, b`next, head`next, head.next`prev, `order
      ensures Linked(head, order) && order == [b] + old(order)
    {
      ghost var chain := Chain(head, order);
      assert chain[0].next == chain[1] && chain[1].prev == chain[0];
      FrontChain(head, order, b);
      b.next := head.next;
      b.prev := head;
      head.next.prev := b;
      head.next := b;
      order := [b] + order;
      hide Chain;
      forall i | 0 <= i < |order| + 1
        ensures Chain(head, order)[i].next == Chain(head, order)[i + 1]
        ensures Chain(head, order)[i + 1].prev == Chain(head, order)[i]
      {
        if i >= 2 { assert Chain(head, order)[i] == chain[i - 1] && Chain(head, order)[i + 1] == chain[i]; }
      }
    }

    /** The ring with one more in front. */
    static lemma FrontChain(head: Buf, order: seq<Buf>, b: Buf)
      requires Distinct(order) && head !in order && b !in order && b != head
      ensures var c, c' := Chain(head, order), Chain(head, [b] + order);
        && |c| == |order| + 2 && |c'| == |c| + 1 && c'[0] == head && c'[1] == b && c[0] == c[|order| + 1] == head
        && (forall i :: 2 <= i < |c'| ==> c'[i] == c[i - 1])
        && (forall i :: 2 <= i < |c| ==> c[i] != c[1])
        && (forall i :: 1 <= i <= |order| ==> c[i] != head && c[i] != b)
        && Distinct([b] + order) && head !in [b] + order
    {
    }

    method Unlink(b: Buf, ghost k: nat)
      requires Linked(head, order) && k < |order| && order[k] == b
      modifies b.next`prev, b.prev`next, `order
      ensures Linked(head, order) && order == Without(old(order), k)
    {
      ghost var chain := Chain(head, order);
      assert chain[k + 1] == b && chain[k].next == b && b.next == chain[k + 2] && b.prev == chain[k];
      b.next.prev := b.prev;
      b.prev.next := b.next;
      order := Without(order, k);
      forall i | 0 <= i < |order| + 1
        ensures Chain(head, order)[i].next == Chain(head, order)[i + 1]
        ensures Chain(head, order)[i + 1].prev == Chain(head, order)[i]
      {
        if i < k {
          assert Chain(head, order)[i] == chain[i] && Chain(head, order)[i + 1] == chain[i + 1];
        } else if i > k {
          assert Chain(head, order)[i] == chain[i + 1] && Chain(head, order)[i + 1] == chain[i + 2];
        }
      }
    }

    /** The forward scan of bget. */
    method FindCached(dev: nat, blockno: nat) returns (b: Buf?)
      requires Valid()
      ensures b == null <==> forall x <- pool :: !Snap()[x].Holds(dev, blockno)
      ensures b != null ==> b in pool && Snap()[b].Holds(dev, blockno)
    {
      var x := head.next;
      ghost var i := 0;
      HeadNext();
      while x != head
        invariant 0 <= i <= |order| && x == Chain(head, order)[i + 1]
        invariant forall j :: 0 <= j < i ==> !StatusOf(order[j]).Holds(dev, blockno)
        decreases |order| - i
      {
        assert Chain(head, order)[i + 1].next == Chain(head, order)[i + 2] && x == order[i];
        if x.dev == dev && x.blockno == blockno {
          assert x in pool && Snap()[x].Holds(dev, blockno);
          return x;
        }
        x, i := x.next, i + 1;
      }
      return null;
    }

    /** The backward scan of bget: the least recently released buffer that is
        neither referenced nor pinned by the log. */
    method FindVictim() returns (b: Buf?)
      requires Valid()
      ensures b == null <==> AllBusy(Snap())
      ensures b != null ==> b in pool && !Snap()[b].Busy() && forall x <- pool :: x.stamp < b.stamp ==> Snap()[x].Busy()
    {
      var x := head.prev;
      ghost var i := |order|;
      HeadNext();
      while x != head
        invariant 0 <= i <= |order| && x == Chain(head, order)[i]
        invariant forall j :: i <= j < |order| ==> StatusOf(order[j]).Busy()
        decreases i
      {
        assert Chain(head, order)[i].prev == Chain(head, order)[i - 1] && x == order[i - 1];
        if x.refcnt == 0 && !x.dirty {
          assert x in pool && !Snap()[x].Busy();
          return x;
        }
        x, i := x.prev, i - 1;
      }
      return null;
    }

    /** Finds or recycles a buffer, and takes a reference. Null stands for the
        panic "bget: no buffers". */
    method Bget(dev: nat, blockno: nat) returns (b: Buf?)
      requires Valid()
      modifies pool`dev, pool`blockno, pool`valid, pool`dirty, pool`refcnt
      ensures Valid()
      ensures b == null <==> old(AllBusy(Snap()) && !Cached(Snap(), dev, blockno))
      ensures b == null ==> Snap() == old(Snap())
      ensures b != null ==> b in pool
      ensures b != null && old(Cached(Snap(), dev, blockno)) ==>
        && old(Snap())[b].Holds(dev, blockno)
        && Put(old(Snap()), b, old(Snap()[b].(refcnt := Snap()[b].refcnt + 1)), Snap())
      ensures b != null && !old(Cached(Snap(), dev, blockno)) ==>
        && !b.valid && !old(Snap())[b].Busy() && (forall x <- pool :: x.stamp < b.stamp ==> old(Snap())[x].Busy())
        && Put(old(Snap()), b, Status(false, false, dev, blockno, 1, b.data), Snap())
      ensures b != null ==>
        b.dev == dev && b.blockno == blockno && b.refcnt == old(b.refcnt) + 1 && Taken(old(Snap()), b, blockno, Snap())
      ensures old(Cached(Snap(), dev, blockno)) ==> Blocks() == old(Blocks())
      ensures Dropped(old(Blocks()), Blocks())
    {
      hide Ring, Coherent, Put, Contents, Valid, Blocks, Taken;
      b := FindCached(dev, blockno);
      if b != null {
        Ref(b);
        return;
      }
      b := FindVictim();
      if b != null {
        Recycle(b, dev, blockno);
      }
    }

    method Ref(b: Buf)
      requires Valid() && b in pool
      modifies b`refcnt
      ensures Valid() && Blocks() == old(Blocks())
      ensures Put(old(Snap()), b, old(Snap()[b].(refcnt := Snap()[b].refcnt + 1)), Snap())
      ensures b.refcnt == old(b.refcnt) + 1 && Taken(old(Snap()), b, b.blockno, Snap())
    {
      hide Ring, Coherent, Contents;
      ghost var m := Snap();
      b.refcnt := b.refcnt + 1;
      UpdateKept(m, b, m[b].refcnt + 1, Snap());
    }

    method Recycle(b: Buf, dev: nat, blockno: nat)
      requires Valid() && b in pool && !Snap()[b].Busy() && !Cached(Snap(), dev, blockno)
      modifies b`dev, b`blockno, b`valid, b`dirty, b`refcnt
      ensures Valid() && Dropped(old(Blocks()), Blocks())
      ensures Put(old(Snap()), b, Status(false, false, dev, blockno, 1, b.data), Snap())
      ensures !b.valid && b.dev == dev && b.blockno == blockno && b.refcnt == old(b.refcnt) + 1
      ensures Taken(old(Snap()), b, blockno, Snap())
    {
      hide Ring, Coherent, Contents, Dropped, Cached, RefsOf;
      ghost var m := Snap();
      b.dev, b.blockno := dev, blockno;
      b.valid, b.dirty := false, false;
      b.refcnt := 1;
      assert Ring(head, order, pool, clock);
      ghost var s, m' := Status(false, false, dev, blockno, 1, b.data), Snap();
      assert Put(m, b, s, m');
      UpdateRecycled(m, b, s, m');
    }

    /** One transfer between a buffer and the disk; false stands for a panic. */
    method Iderw(b: Buf) returns (ok: bool)
      requires b in pool
      modifies `memdisk, b`valid, b`dirty, b`data
      ensures ok <==> !old(b.valid && !b.dirty) && b.dev == ROOTDEV && b.blockno < old(|memdisk|)
      ensures !ok ==> memdisk == old(memdisk) && Snap() == old(Snap()) && b.data == old(b.data)
      ensures ok && old(b.dirty) ==>
        && memdisk == old(memdisk)[b.blockno := b.data]
        && Put(old(Snap()), b, old(Snap())[b].(valid := true, dirty := false), Snap())
      ensures ok && !old(b.dirty) ==>
        && memdisk == old(memdisk)
        && Put(old(Snap()), b, old(Snap())[b].(valid := true, data := memdisk[b.blockno]), Snap())
    {
      if b.valid && !b.dirty { return false; }
      if b.dev != ROOTDEV { return false; }
      if b.blockno >= |memdisk| { return false; }
      if b.dirty {
        b.dirty := false;
        memdisk := memdisk[b.blockno := b.data];
      } else {
        b.data := memdisk[b.blockno];
      }
      b.valid := true;
      return true;
    }

    /** A valid buffer of the root device that somebody holds a reference to. */
    ghost predicate Held(b: Buf)
      reads this, pool
    {
      b in pool && b.refcnt > 0 && b.valid && b.dev == ROOTDEV
    }

    /** The second half of bread. */
    method Load(b: Buf) returns (ok: bool)
      requires Valid() && b in pool && !b.valid
      modifies `memdisk, b`valid, b`dirty, b`data
      ensures Valid() && memdisk == old(memdisk)
      ensures ok <==> b.dev == ROOTDEV && b.blockno < |memdisk|
      ensures !ok ==> Blocks() == old(Blocks())
      ensures ok ==> Put(old(Snap()), b, old(Snap())[b].(valid := true, data := memdisk[b.blockno]), Snap())
      ensures ok ==>
        b.valid && b.data == memdisk[b.blockno] && Blocks() == old(Blocks())[b.blockno := Entry(b.data, false)]
    {
      hide Ring;
      ghost var m := Snap();
      ok := Iderw(b);
      if ok {
        PutValid(m, b, m[b].(valid := true, data := memdisk[b.blockno]), Snap());
      }
    }

    /** iderw on a dirty buffer. */
    method Store(b: Buf) returns (ok: bool)
      requires Valid() && Held(b) && b.dirty
      modifies `memdisk, b`valid, b`dirty, b`data
      ensures ok <==> b.blockno < old(|memdisk|)
      ensures !ok ==> memdisk == old(memdisk)
      ensures Valid() && b.data == old(b.data)
      ensures ok ==> b.valid && !b.dirty && memdisk == old(memdisk)[b.blockno := b.data]
      ensures ok ==> Put(old(Snap()), b, old(Snap())[b].(dirty := false), Snap())
      ensures ok ==> Blocks() == old(Blocks())[b.blockno := Entry(b.data, false)]
    {
      hide Ring, Coherent, Contents;
      ghost var m := Snap();
      ok := Iderw(b);
      if ok {
        assert m[b].(valid := true, dirty := false) == m[b].(dirty := false);
        PutValid(m, b, m[b].(dirty := false), Snap());
      }
    }

    /** A referenced buffer with the current contents of the block; null stands
        for a panic. */
    method Bread(dev: nat, blockno: nat) returns (b: Buf?)
      requires Valid()
      modifies `memdisk, pool`dev, pool`blockno, pool`valid, pool`dirty, pool`refcnt, pool`data
      ensures Valid() && memdisk == old(memdisk)
      ensures b == null ==> Dropped(old(Blocks()), Blocks())
      ensures b == null && dev == ROOTDEV && blockno < |memdisk| ==>
        old(AllBusy(Snap()) && !Cached(Snap(), dev, blockno))
      ensures b != null ==> Held(b) && b.blockno == blockno && b.refcnt == old(b.refcnt) + 1
      ensures b != null ==>
        Loaded(memdisk, old(Blocks()), blockno, Blocks()) && blockno in Blocks() && b.data == Blocks()[blockno].data
      ensures b != null ==> OthersKept(old(Snap()), blockno, Snap()) && Refs() == Inc(old(Refs()), b)
      ensures b != null && blockno in old(Blocks()) ==> b.data == old(Blocks())[blockno].data
      ensures b != null && blockno !in old(Blocks()) ==> blockno < |memdisk| && b.data == memdisk[blockno]
    {
      hide Valid, Snap, Blocks, Contents, Loaded, Dropped, OthersKept, RefsOf, Inc, Put, Taken, Cached, AllBusy;
      ghost var c, m := Blocks(), Snap();
      Uncached(blockno);
      b := Bget(dev, blockno);
      if b != null {
        ghost var c1, m1 := Blocks(), Snap();
        InSnap(b);
        Carries(b);
        if !b.valid {
          var ok := Load(b);
          if !ok { return null; }
          TakenThenPut(m, b, blockno, m1, m1[b].(valid := true, data := memdisk[blockno]), Snap());
          ReadMiss(memdisk, c, c1, blockno);
        } else {
          ReadHit(memdisk, c, blockno);
        }
        LoadedData(memdisk, c, blockno, Blocks());
        TakenRefs(m, b, blockno, Snap());
      }
    }

    /** What a buffer says about its block. */
    lemma Carries(b: Buf)
      requires Valid() && b in pool
      ensures b.valid ==> b.dev == ROOTDEV && b.blockno in Blocks() && Blocks()[b.blockno] == Entry(b.data, b.dirty)
      ensures !b.valid && b.dev == ROOTDEV ==> b.blockno !in Blocks()
    {
      hide Ring, Coherent;
      ContentsAt(Snap(), b);
    }

    /** A block is cached when a valid buffer carries it, with that buffer's data. */
    lemma BlocksMean(k: nat)
      requires Valid()
      ensures k in Blocks() <==> exists b :: b in pool && b.valid && b.dev == ROOTDEV && b.blockno == k
      ensures forall b <- pool :: b.valid && b.blockno == k ==>
        k in Blocks() && Blocks()[k].data == b.data && Blocks()[k].dirty == b.dirty
    {
      hide Ring;
      forall b | b in pool
        ensures b.valid ==> b.dev == ROOTDEV && b.blockno in Blocks() && Blocks()[b.blockno] == Entry(b.data, b.dirty)
      {
        Carries(b);
      }
    }

    lemma Uncached(k: nat)
      requires Valid()
      ensures !Cached(Snap(), ROOTDEV, k) ==> k !in Blocks()
    {
      hide Ring, Coherent, Contents;
      if !Cached(Snap(), ROOTDEV, k) { NotCached(Snap(), k); }
    }

    /** memmove(b->data, v, BSIZE) by the holder of the buffer. */
    method Fill(b: Buf, v: Block)
      requires Valid() && Held(b)
      modifies b`data
      ensures Valid() && b.data == v && Put(old(Snap()), b, old(Snap())[b].(data := v), Snap()) && Refs() == old(Refs())
      ensures Blocks() == old(Blocks())[b.blockno := Entry(v, b.dirty)]
    {
      hide Ring, Coherent, Contents, RefsOf;
      ghost var m := Snap();
      b.data := v;
      PutRefs(m, b, m[b].(data := v), Snap());
      PutValid(m, b, m[b].(data := v), Snap());
    }

    /** b->flags |= B_DIRTY, as log_write does to pin the buffer. */
    method Pin(b: Buf)
      requires Valid() && Held(b)
      modifies b`dirty
      ensures Valid() && b.dirty && Put(old(Snap()), b, old(Snap())[b].(dirty := true), Snap()) && Refs() == old(Refs())
      ensures Blocks() == old(Blocks())[b.blockno := Entry(b.data, true)]
    {
      hide Ring, Coherent, Contents, RefsOf;
      ghost var m := Snap();
      b.dirty := true;
      PutRefs(m, b, m[b].(dirty := true), Snap());
      PutValid(m, b, m[b].(dirty := true), Snap());
    }

    method Bwrite(b: Buf) returns (ok: bool)
      requires Valid() && Held(b)
      modifies `memdisk, b`valid, b`dirty, b`data
      ensures Valid()
      ensures ok <==> b.blockno < old(|memdisk|)
      ensures !ok ==> memdisk == old(memdisk)
      ensures ok ==> Held(b) && b.data == old(b.data) && Refs() == old(Refs())
      ensures ok ==> Put(old(Snap()), b, old(Snap())[b].(dirty := false), Snap())
      ensures ok ==> memdisk == old(memdisk)[b.blockno := b.data]
      ensures ok ==> Blocks() == old(Blocks())[b.blockno := Entry(b.data, false)]
    {
      hide Ring, Coherent, Contents, Put, Valid, Blocks, Snap, RefsOf;
      ghost var m := Snap();
      InSnap(b);
      Pin(b);
      ghost var m1 := Snap();
      InSnap(b);
      ok := Store(b);
      if ok {
        PutRefs(m1, b, m1[b].(dirty := false), Snap());
        PutTwice(m, b, m[b].(dirty := true), m1, m1[b].(dirty := false), Snap());
        UpdateTwice(old(Blocks()), b.blockno, Entry(b.data, true), Entry(b.data, false));
      }
    }

    lemma Place(b: Buf) returns (k: nat)
      requires Ring(head, order, pool, clock) && b in pool
      ensures k < |order| && order[k] == b
    {
      k :| 0 <= k < |order| && order[k] == b;
    }

    method Unref(b: Buf)
      requires Valid() && b in pool && b.refcnt > 0
      modifies b`refcnt
      ensures Valid() && Blocks() == old(Blocks()) && Refs() == Dec(old(Refs()), b) && b.refcnt == old(b.refcnt) - 1
      ensures Put(old(Snap()), b, old(Snap())[b].(refcnt := b.refcnt), Snap())
    {
      hide Ring, Coherent, Contents, RefsOf, Dec;
      ghost var m := Snap();
      b.refcnt := b.refcnt - 1;
      UpdateKept(m, b, b.refcnt, Snap());
      PutRefs(m, b, m[b].(refcnt := b.refcnt), Snap());
    }

    /** Drops a reference; the last one moves the buffer to the front. */
    method Brelse(b: Buf)
      requires Valid() && b in pool && b.refcnt > 0
      modifies `order, `clock, b`refcnt, b`stamp, head`next, head`prev, pool`next, pool`prev
      ensures Valid() && Blocks() == old(Blocks())
      ensures Put(old(Snap()), b, old(Snap())[b].(refcnt := b.refcnt), Snap()) && b.refcnt == old(b.refcnt) - 1
      ensures Refs() == Dec(old(Refs()), b)
      ensures b.refcnt > 0 ==> order == old(order)
      ensures b.refcnt == 0 ==>
        exists k :: 0 <= k < old(|order|) && old(order)[k] == b && order == [b] + Without(old(order), k)
    {
      hide Coherent, Contents, Ring, RefsOf, Dec, Put, Without;
      Unref(b);
      if b.refcnt == 0 {
        ghost var k := Place(b);
        ghost var m := Snap();
        MoveToFront(b, k);
        assert Snap() == m;
      }
    }

    method MoveToFront(b: Buf, ghost k: nat)
      requires Ring(head, order, pool, clock) && k < |order| && order[k] == b
      modifies `order, `clock, b`stamp, head`next, head`prev, pool`next, pool`prev
      ensures Ring(head, order, pool, clock)
      ensures order == [b] + Without(old(order), k)
    {
      Neighbours(b, k);
      SameBuffers(order, k);
      hide Linked, ByRelease, Without;
      Unlink(b, k);
      HeadNext();
      LinkFront(b);
    }

    static lemma SameBuffers(s: seq<Buf>, k: nat)
      requires k < |s|
      ensures (set x <- [s[k]] + Without(s, k)) == set x <- s
    {
      assert forall x <- s :: x == s[k] || x in Without(s, k);
    }

    lemma Neighbours(b: Buf, k: nat)
      requires Linked(head, order) && ByRelease(order, clock) && k < |order| && order[k] == b
      ensures b.next == Chain(head, order)[k + 2] && b.prev == Chain(head, order)[k]
      ensures b != head && b !in Without(order, k) && ByRelease(Without(order, k), clock)
    {
      assert Chain(head, order)[k + 1] == b;
      assert Chain(head, order)[k].next == b;
    }
  }
}
