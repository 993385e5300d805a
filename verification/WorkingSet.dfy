/** Encrypted user pages: the page-table entries and bytes of one process, and
    the working set of pages that are decrypted. */
module WorkingSet {
  import opened Blocks
  import opened ClockQueue
  import opened Params

  type Page = s: seq<Byte> | |s| == PGSIZE witness seq(PGSIZE, _ => 0)

  /** A page-table entry in use: the flags P, E, A and U. */
  datatype Pte = Pte(frame: nat, p: bool, e: bool, a: bool, u: bool)

  function Complement(s: Page): Page {
    seq(PGSIZE, k requires 0 <= k < PGSIZE => 0xFF - s[k])
  }

  lemma ComplementTwice(s: Page)
    ensures Complement(Complement(s)) == s
  {
  }

  /** What the process would read in the page. */
  function Plain(pte: map<int, Pte>, mem: seq<Page>, pn: int): Page
    requires pn in pte && pte[pn].frame < |mem|
  {
    if pte[pn].e then Complement(mem[pte[pn].frame]) else mem[pte[pn].frame]
  }

  /** Each page has a frame of its own; a user page is either present or
      encrypted, any other page is present. */
  ghost predicate TableOk(pte: map<int, Pte>, mem: seq<Page>) {
    && (forall k <- pte :: k >= 0 && pte[k].frame < |mem|)
    && (forall k <- pte :: if pte[k].u then pte[k].p != pte[k].e else pte[k].p && !pte[k].e)
    && (forall j <- pte, k <- pte :: j != k ==> pte[j].frame != pte[k].frame)
  }

  ghost predicate SamePlain(pte: map<int, Pte>, mem: seq<Page>, pte': map<int, Pte>, mem': seq<Page>) {
    && TableOk(pte, mem) && TableOk(pte', mem') && pte'.Keys == pte.Keys
    && forall k: int {:trigger Plain(pte', mem', k)} :: k in pte ==>
      Plain(pte', mem', k) == Plain(pte, mem, k) && pte'[k].u == pte[k].u
  }

  /** The user pages that are not encrypted. */
  ghost function Decrypted(pte: map<int, Pte>): set<int> {
    set k | k in pte && pte[k].u && !pte[k].e
  }

  function Enc(e: Pte): Pte {
    if e.e then e else e.(p := false, e := true, a := false)
  }

  ghost function EncRange(pte: map<int, Pte>, pn: int, len: nat): map<int, Pte> {
    map k | k in pte :: if pn <= k < pn + len then Enc(pte[k]) else pte[k]
  }

  predicate Accessible(pte: map<int, Pte>, pn: int) {
    pn in pte && (pte[pn].p || pte[pn].e) && pte[pn].u
  }

  ghost predicate AllAccessible(pte: map<int, Pte>, pn: int, len: nat) {
    forall k: int {:trigger Accessible(pte, k)} :: pn <= k < pn + len ==> Accessible(pte, k)
  }

  lemma AccessibleMeans(pte: map<int, Pte>, pn: int, len: nat)
    requires AllAccessible(pte, pn, len)
    ensures forall k: int :: pn <= k < pn + len ==> k in pte && (pte[k].p || pte[k].e) && pte[k].u
  {
    forall k: int | pn <= k < pn + len
      ensures k in pte && (pte[k].p || pte[k].e) && pte[k].u
    {
      assert Accessible(pte, k);
    }
  }

  lemma InaccessibleMeans(pte: map<int, Pte>, pn: int, len: nat) returns (k: int)
    requires !AllAccessible(pte, pn, len)
    ensures pn <= k < pn + len && !(k in pte && (pte[k].p || pte[k].e) && pte[k].u)
  {
    k :| pn <= k < pn + len && !Accessible(pte, k);
  }

  /** Flipping the bytes of one page and its E flag does not change what any
      page holds. */
  lemma FlipKeeps(pte: map<int, Pte>, mem: seq<Page>, pn: int, e: Pte)
    requires TableOk(pte, mem) && pn in pte && pte[pn].u && e.u && e.frame == pte[pn].frame && e.e != pte[pn].e
    requires e.p != e.e
    ensures SamePlain(pte, mem, pte[pn := e], mem[pte[pn].frame := Complement(mem[pte[pn].frame])])
  {
    ComplementTwice(mem[pte[pn].frame]);
  }

  lemma SamePlainSelf(pte: map<int, Pte>, mem: seq<Page>)
    requires TableOk(pte, mem)
    ensures SamePlain(pte, mem, pte, mem)
  {
  }

  lemma SamePlainOk(p0: map<int, Pte>, m0: seq<Page>, p1: map<int, Pte>, m1: seq<Page>)
    requires SamePlain(p0, m0, p1, m1)
    ensures TableOk(p0, m0) && TableOk(p1, m1) && p1.Keys == p0.Keys && forall k <- p0 :: p1[k].u == p0[k].u
  {
    forall k | k in p0 ensures p1[k].u == p0[k].u { assert Plain(p1, m1, k) == Plain(p0, m0, k); }
  }

  lemma SamePlainTwice(p0: map<int, Pte>, m0: seq<Page>, p1: map<int, Pte>, m1: seq<Page>, p2: map<int, Pte>,
      m2: seq<Page>)
    requires SamePlain(p0, m0, p1, m1) && SamePlain(p1, m1, p2, m2)
    ensures SamePlain(p0, m0, p2, m2)
  {
    forall k: int | k in p0
      ensures Plain(p2, m2, k) == Plain(p0, m0, k)
    {
      assert Plain(p1, m1, k) == Plain(p0, m0, k);
    }
  }

  predicate Referenced(pte: map<int, Pte>, x: int) {
    x in pte && pte[x].a
  }

  /** The first page of the queue whose reference bit is clear, or its length. */
  function Victim(pte: map<int, Pte>, q: seq<int>): (k: nat)
    ensures k <= |q| && (k < |q| ==> !Referenced(pte, q[k])) && forall j :: 0 <= j < k ==> Referenced(pte, q[j])
  {
    if q == [] || !Referenced(pte, q[0]) then 0 else 1 + Victim(pte, q[1..])
  }

  lemma {:induction false} VictimIs(pte: map<int, Pte>, q: seq<int>, k: nat)
    requires k <= |q| && (k < |q| ==> !Referenced(pte, q[k])) && forall j :: 0 <= j < k ==> Referenced(pte, q[j])
    ensures Victim(pte, q) == k
  {
    if k > 0 { VictimIs(pte, q[1..], k - 1); }
  }

  /** The reference bits of `ps` cleared. */
  ghost function ClearA(pte: map<int, Pte>, ps: seq<int>): map<int, Pte> {
    map k | k in pte :: if k in ps then pte[k].(a := false) else pte[k]
  }

  /** The hand has passed the first `i` pages of the full queue `q`. */
  ghost predicate Passed(p0: map<int, Pte>, pte: map<int, Pte>, q: seq<int>, i: nat) {
    i <= |q| && pte == ClearA(p0, q[..i]) && forall j :: 0 <= j < i ==> Referenced(p0, q[j])
  }

  function Turned(q: seq<int>, i: nat): seq<int>
    requires i <= |q|
  {
    q[i..] + q[..i]
  }

  lemma TurnOn(q: seq<int>, i: nat)
    requires i <= |q| && q != []
    ensures var v := if i == |q| then 0 else i;
      Turned(q, i)[0] == q[v] && Turned(q, i)[1..] == q[v + 1..] + q[..v]
    ensures i < |q| ==> Turned(q, i)[1..] + [q[i]] == Turned(q, i + 1)
  {
  }

  lemma TurnedIs(q: seq<int>, i: nat)
    requires i <= |q|
    ensures |Turned(q, i)| == |q| && (i == 0 ==> Turned(q, i) == q) && forall x :: x in Turned(q, i) <==> x in q
  {
    assert q == q[..i] + q[i..];
  }

  lemma PassOne(p0: map<int, Pte>, pte: map<int, Pte>, q: seq<int>, i: nat, x: int)
    requires Passed(p0, pte, q, i) && q != [] && Distinct(q) && x in p0
    requires x == q[if i == |q| then 0 else i]
    ensures x in pte
    ensures Referenced(pte, x) ==> i < |q| && Passed(p0, pte[x := pte[x].(a := false)], q, i + 1)
    ensures !Referenced(pte, x) ==> Victim(p0, q) == i
  {
    hide Victim;
    if i < |q| {
      assert x !in q[..i];
      assert q[..i + 1] == q[..i] + [x];
    } else {
      assert q[..i] == q && x in q;
    }
    if !Referenced(pte, x) { VictimIs(p0, q, i); }
  }

  ghost predicate InQueue(q: seq<int>, pte: map<int, Pte>) {
    forall x :: x in q <==> x in Decrypted(pte)
  }

  // ---- the bytes themselves ----

  /** Byte by byte the frames of those of the `n` pages from `pn` that were not
      encrypted are complemented, and no other frame is touched. */
  ghost predicate Ciphered(p0: map<int, Pte>, m0: seq<Page>, mem: seq<Page>, pn: int, n: nat)
    requires TableOk(p0, m0)
  {
    && |mem| == |m0|
    && (forall k <- p0 :: pn <= k < pn + n && !p0[k].e ==> Inverse(m0[p0[k].frame], mem[p0[k].frame]))
    && forall f: nat :: f < |m0| && (forall k <- p0 :: pn <= k < pn + n && !p0[k].e ==> p0[k].frame != f) ==>
      mem[f] == m0[f]
  }

  ghost predicate Inverse(s: Page, t: Page) {
    forall o: nat :: o < PGSIZE ==> t[o] == 0xFF - s[o]
  }

  lemma CipheredNone(p0: map<int, Pte>, m0: seq<Page>, pn: int)
    requires TableOk(p0, m0)
    ensures Ciphered(p0, m0, m0, pn, 0)
  {
  }

  lemma CipheredNext(p0: map<int, Pte>, m0: seq<Page>, m1: seq<Page>, m2: seq<Page>, pn: int, n: nat)
    requires TableOk(p0, m0) && Ciphered(p0, m0, m1, pn, n) && pn + n in p0
    requires var e := p0[pn + n];
      if e.e then m2 == m1 else |m2| == |m1| && m2 == m1[e.frame := m2[e.frame]] && Inverse(m1[e.frame], m2[e.frame])
    ensures Ciphered(p0, m0, m2, pn, n + 1)
  {
    hide Inverse;
    var e := p0[pn + n];
    assert !e.e ==> m1[e.frame] == m0[e.frame];
    forall f: nat | f < |m0| && forall k <- p0 :: pn <= k < pn + n + 1 && !p0[k].e ==> p0[k].frame != f
      ensures m2[f] == m0[f]
    {
      assert m1[f] == m0[f];
      assert !e.e ==> e.frame != f;
    }
  }

  /** Equal plain contents in terms of the bytes alone. */
  lemma PlainMeans(p0: map<int, Pte>, m0: seq<Page>, pte: map<int, Pte>, mem: seq<Page>)
    requires SamePlain(p0, m0, pte, mem)
    ensures pte.Keys == p0.Keys
    ensures forall k <- pte :: pte[k].frame < |mem| && p0[k].frame < |m0| && pte[k].u == p0[k].u
    ensures forall k <- pte :: if pte[k].u then pte[k].p != pte[k].e else !pte[k].e
    ensures forall k <- pte, o: nat :: o < PGSIZE ==>
      mem[pte[k].frame][o] == if pte[k].e == p0[k].e then m0[p0[k].frame][o] else 0xFF - m0[p0[k].frame][o]
  {
    forall k | k in pte
      ensures pte[k].u == p0[k].u
      ensures forall o: nat :: o < PGSIZE ==>
        mem[pte[k].frame][o] == if pte[k].e == p0[k].e then m0[p0[k].frame][o] else 0xFF - m0[p0[k].frame][o]
    {
      assert Plain(pte, mem, k) == Plain(p0, m0, k);
      assert Complement(Complement(mem[pte[k].frame])) == mem[pte[k].frame] by { ComplementTwice(mem[pte[k].frame]); }
      forall o: nat | o < PGSIZE
        ensures mem[pte[k].frame][o] == if pte[k].e == p0[k].e then m0[p0[k].frame][o] else 0xFF - m0[p0[k].frame][o]
      {
        assert Complement(mem[pte[k].frame])[o] == 0xFF - mem[pte[k].frame][o];
        assert Complement(m0[p0[k].frame])[o] == 0xFF - m0[p0[k].frame][o];
      }
    }
  }

  lemma EncRangeMeans(p0: map<int, Pte>, pn: int, len: nat)
    ensures EncRange(p0, pn, len).Keys == p0.Keys
    ensures forall k <- p0 ::
      EncRange(p0, pn, len)[k] ==
        if pn <= k < pn + len && !p0[k].e then p0[k].(p := false, e := true, a := false) else p0[k]
  {
  }

  lemma CipheredMeans(p0: map<int, Pte>, m0: seq<Page>, mem: seq<Page>, pn: int, n: nat)
    requires TableOk(p0, m0) && Ciphered(p0, m0, mem, pn, n)
    ensures |mem| == |m0|
    ensures forall k <- p0 :: pn <= k < pn + n && !p0[k].e ==>
      forall o: nat :: o < PGSIZE ==> mem[p0[k].frame][o] == 0xFF - m0[p0[k].frame][o]
    ensures forall f: nat :: f < |m0| && (forall k <- p0 :: pn <= k < pn + n && !p0[k].e ==> p0[k].frame != f) ==>
      mem[f] == m0[f]
  {
  }

  /** The frame of `e` is complemented if `e` was not encrypted, and no other. */
  ghost predicate Flipped(m0: seq<Page>, mem: seq<Page>, e: Pte) {
    && |mem| == |m0| && e.frame < |mem|
    && (forall f: nat :: f < |mem| && f != e.frame ==> mem[f] == m0[f])
    && if e.e then mem[e.frame] == m0[e.frame] else Inverse(m0[e.frame], mem[e.frame])
  }

  lemma FlippedOne(p0: map<int, Pte>, m0: seq<Page>, mem: seq<Page>, x: int)
    requires TableOk(p0, m0) && x in p0 && |mem| == |m0|
    requires forall k <- p0 :: x <= k < x + 1 && !p0[k].e ==>
      forall o: nat :: o < PGSIZE ==> mem[p0[k].frame][o] == 0xFF - m0[p0[k].frame][o]
    requires forall f: nat :: (f < |m0| && forall k <- p0 :: x <= k < x + 1 && !p0[k].e ==> p0[k].frame != f) ==>
      mem[f] == m0[f]
    ensures Flipped(m0, mem, p0[x])
  {
  }

  lemma FlippedSame(m0: seq<Page>, mem: seq<Page>, e: Pte, e': Pte)
    requires Flipped(m0, mem, e) && e'.frame == e.frame && e'.e == e.e
    ensures Flipped(m0, mem, e')
  {
  }

  lemma InTable(q: seq<int>, pte: map<int, Pte>, mem: seq<Page>)
    requires (forall x <- q :: Accessible(pte, x)) && TableOk(pte, mem)
    ensures (forall x <- q :: x in pte) && forall k <- pte :: pte[k].frame < |mem|
  {
  }

  lemma FlippedMeans(m0: seq<Page>, mem: seq<Page>, e: Pte)
    requires Flipped(m0, mem, e)
    ensures |mem| == |m0| && e.frame < |mem| && forall f: nat :: f < |m0| && f != e.frame ==> mem[f] == m0[f]
    ensures e.e ==> mem == m0
    ensures !e.e ==> forall o: nat :: o < PGSIZE ==> mem[e.frame][o] == 0xFF - m0[e.frame][o]
  {
  }

  lemma UserAccessible(pte: map<int, Pte>, mem: seq<Page>, k: int)
    requires TableOk(pte, mem) && k in pte && pte[k].u
    ensures AllAccessible(pte, k, 1)
  {
  }

  lemma OneAccessible(pte: map<int, Pte>, x: int)
    requires Accessible(pte, x)
    ensures AllAccessible(pte, x, 1)
  {
  }

  /** The second chance in terms of the entries alone. */
  lemma EvictedMeans(p0: map<int, Pte>, pte: map<int, Pte>, q: seq<int>, q': seq<int>, va: int, moves: nat)
    requires |q| == CLOCKSIZE && Evicted(p0, pte, q, q', va, moves) && Distinct(q) && forall x <- q :: x in p0
    ensures 0 < moves <= CLOCKSIZE + 1 && pte.Keys == p0.Keys
    ensures q' == if moves > CLOCKSIZE then q[1..] + [va] else q[moves..] + q[..moves - 1] + [va]
    ensures forall j: nat :: j < moves - 1 ==> p0[q[j]].a
    ensures moves <= CLOCKSIZE ==> !p0[q[moves - 1]].a
    ensures var x := q[if moves > CLOCKSIZE then 0 else moves - 1];
      && pte[x] == p0[x].(p := pte[x].p, e := true, a := false) && (!p0[x].e ==> !pte[x].p)
      && (forall j: nat :: j < moves - 1 && q[j] != x ==> pte[q[j]] == p0[q[j]].(a := false))
      && forall k <- p0 :: k != x && k !in q[..moves - 1] ==> pte[k] == p0[k]
  {
    hide Victim;
    assert Victim(p0, q) == moves - 1;
    forall j: nat | j < moves - 1
      ensures p0[q[j]].a
    {
      assert Referenced(p0, q[j]) by { VictimPast(p0, q, j); }
    }
    if moves <= CLOCKSIZE {
      VictimPast(p0, q, moves - 1);
      assert q[moves - 1] in q;
    }
    assert forall j: nat :: j < moves - 1 ==> q[j] in q[..moves - 1];
  }

  lemma VictimPast(pte: map<int, Pte>, q: seq<int>, j: nat)
    requires j <= Victim(pte, q) && j < |q|
    ensures Referenced(pte, q[j]) <==> j < Victim(pte, q)
  {
  }

  class Space {
    var pte: map<int, Pte>
    var mem: seq<Page>
    const clockqueue: array<int>
    var clockhand: int

    /** A process without memory, its queue cleared. */
    constructor ()
      ensures Valid() && pte == map[] && mem == [] && fresh(clockqueue)
    {
      pte, mem, clockhand := map[], [], -1;
      clockqueue := new int[CLOCKSIZE](_ => EMPTY);
      new;
      UnusedIs(R(), CLOCKSIZE);
    }

    ghost function Q(): seq<int>
      requires clockqueue.Length == CLOCKSIZE && -1 <= clockhand < CLOCKSIZE
      reads this, clockqueue
    {
      Pages(Round(clockqueue[..], clockhand))
    }

    lemma QDistinct()
      requires Orderly()
      ensures Distinct(Q())
    {
    }

    ghost predicate Orderly()
      reads this, clockqueue
    {
      && clockqueue.Length == CLOCKSIZE && -1 <= clockhand < CLOCKSIZE
      && ClockQueue.Orderly(Round(clockqueue[..], clockhand))
    }

    /** The working set holds exactly the decrypted user pages. */
    ghost predicate Valid()
      reads this, clockqueue
    {
      Orderly() && TableOk(pte, mem) && InQueue(Q(), pte)
    }

    /** The complement of every byte of a page, in place. */
    method Flip(f: nat)
      requires f < |mem|
      modifies `mem
      ensures mem == old(mem)[f := Complement(old(mem)[f])] && Inverse(old(mem)[f], mem[f])
    {
      ghost var s := mem[f];
      var offset := 0;
      while offset < PGSIZE
        invariant offset <= PGSIZE && |mem| == old(|mem|) && mem == old(mem)[f := mem[f]]
        invariant forall k :: 0 <= k < PGSIZE ==> mem[f][k] == if k < offset then 0xFF - s[k] else s[k]
      {
        mem := mem[f := mem[f][offset := 0xFF - mem[f][offset]]];
        offset := offset + 1;
      }
      assert mem[f] == Complement(s);
    }

    /** One round of the second loop of mencrypt. */
    method EncOne(k: int)
      requires TableOk(pte, mem) && k in pte && pte[k].u
      modifies `pte, `mem
      ensures pte == old(pte)[k := Enc(old(pte)[k])] && SamePlain(old(pte), old(mem), pte, mem)
      ensures var e := old(pte)[k];
        if e.e then mem == old(mem)
        else |mem| == |old(mem)| && mem == old(mem)[e.frame := mem[e.frame]] && Inverse(old(mem)[e.frame], mem[e.frame])
    {
      hide Complement, Inverse;
      if pte[k].e {
        assert pte == pte[k := Enc(pte[k])];
      } else {
        FlipKeeps(pte, mem, k, Enc(pte[k]));
        Flip(pte[k].frame);
        pte := pte[k := pte[k].(p := false, e := true, a := false)];
      }
    }

    /** The first loop of mencrypt. */
    method Check(pn: int, len: nat) returns (ok: bool)
      ensures ok <==> AllAccessible(pte, pn, len)
    {
      var i := 0;
      while i < len
        invariant i <= len && AllAccessible(pte, pn, i)
      {
        if !Accessible(pte, pn + i) { return false; }
        i := i + 1;
      }
      return true;
    }

    /** The second loop. */
    method EncryptAll(pn: int, len: nat)
      requires TableOk(pte, mem) && AllAccessible(pte, pn, len)
      modifies `pte, `mem
      ensures pte == EncRange(old(pte), pn, len) && SamePlain(old(pte), old(mem), pte, mem)
      ensures Ciphered(old(pte), old(mem), mem, pn, len)
    {
      hide SamePlain, TableOk, Ciphered, Inverse;
      SamePlainSelf(pte, mem);
      CipheredNone(pte, mem, pn);
      var i := 0;
      assert pte == EncRange(pte, pn, 0);
      while i < len
        invariant i <= len && pte == EncRange(old(pte), pn, i) && Ciphered(old(pte), old(mem), mem, pn, i)
        invariant SamePlain(old(pte), old(mem), pte, mem)
      {
        assert Accessible(old(pte), pn + i);
        ghost var p1, m1 := pte, mem;
        SamePlainOk(old(pte), old(mem), pte, mem);
        EncOne(pn + i);
        SamePlainTwice(old(pte), old(mem), p1, m1, pte, mem);
        assert p1[pn + i] == old(pte)[pn + i];
        CipheredNext(old(pte), old(mem), m1, mem, pn, i);
        i := i + 1;
        assert pte == EncRange(old(pte), pn, i);
      }
    }

    /** mencrypt: all of the pages or none; what they hold stays the same. */
    method Mencrypt(pn: int, len: nat) returns (r: int)
      requires TableOk(pte, mem)
      modifies `pte, `mem
      ensures r == if AllAccessible(old(pte), pn, len) then 0 else -1
      ensures r == -1 ==> pte == old(pte) && mem == old(mem)
      ensures r == 0 ==> pte == EncRange(old(pte), pn, len)
      ensures SamePlain(old(pte), old(mem), pte, mem)
      ensures r == 0 ==> forall k: int :: pn <= k < pn + len ==>
        k in old(pte) && (old(pte)[k].p || old(pte)[k].e) && old(pte)[k].u
      ensures r == -1 ==> exists k: int ::
        pn <= k < pn + len && !(k in old(pte) && (old(pte)[k].p || old(pte)[k].e) && old(pte)[k].u)
      ensures |mem| == |old(mem)| && pte.Keys == old(pte).Keys
      ensures r == 0 ==> forall k <- old(pte) ::
        pte[k] == if pn <= k < pn + len && !old(pte)[k].e then old(pte)[k].(p := false, e := true, a := false)
                  else old(pte)[k]
      ensures r == 0 ==> forall k <- old(pte) :: pn <= k < pn + len && !old(pte)[k].e ==>
        forall o: nat :: o < PGSIZE ==> mem[old(pte)[k].frame][o] == 0xFF - old(mem)[old(pte)[k].frame][o]
      ensures r == 0 ==> forall f: nat ::
        (f < |old(mem)| && forall k <- old(pte) :: pn <= k < pn + len && !old(pte)[k].e ==> old(pte)[k].frame != f) ==>
        mem[f] == old(mem)[f]
    {
      hide SamePlain, TableOk, Ciphered, Inverse, EncRange, AllAccessible;
      SamePlainSelf(pte, mem);
      var ok := Check(pn, len);
      if !ok {
        ghost var k := InaccessibleMeans(pte, pn, len);
        assert !(k in old(pte) && (old(pte)[k].p || old(pte)[k].e) && old(pte)[k].u);
        return -1;
      }
      assert pte == old(pte);
      AccessibleMeans(old(pte), pn, len);
      EncryptAll(pn, len);
      EncRangeMeans(old(pte), pn, len);
      CipheredMeans(old(pte), old(mem), mem, pn, len);
      return 0;
    }

    ghost function R(): seq<int>
      requires clockqueue.Length == CLOCKSIZE && -1 <= clockhand < CLOCKSIZE
      reads this, clockqueue
    {
      Round(clockqueue[..], clockhand)
    }

    /** The hand moves, to what was the first slot of the round. */
    method MoveOn() returns (x: int)
      requires clockqueue.Length == CLOCKSIZE && -1 <= clockhand < CLOCKSIZE
      modifies `clockhand
      ensures 0 <= clockhand < CLOCKSIZE && x == clockqueue[clockhand] == old(R())[0] && R() == old(R())[1..] + [x]
    {
      MoveHand(clockqueue[..], clockhand, R()[0]);
      clockhand := (clockhand + 1) % CLOCKSIZE;
      x := clockqueue[clockhand];
      assert clockqueue[..] == clockqueue[..][clockhand := x];
    }

    method Store(va: int)
      requires clockqueue.Length == CLOCKSIZE && 0 <= clockhand < CLOCKSIZE
      modifies clockqueue
      ensures R() == old(R())[..CLOCKSIZE - 1] + [va]
    {
      clockqueue[clockhand] := va;
    }

    /** The loop of wsetinsert. */
    method Rotate(va: int) returns (r: int, ghost moves: nat)
      requires Orderly() && TableOk(pte, mem) && va >= 0 && va !in Q()
      requires forall x <- Q() :: Accessible(pte, x)
      modifies `pte, `mem, `clockhand, clockqueue
      ensures r == 0 && Orderly() && SamePlain(old(pte), old(mem), pte, mem) && |old(Q())| <= CLOCKSIZE
      ensures |old(Q())| < CLOCKSIZE ==> Q() == old(Q()) + [va] && pte == old(pte) && mem == old(mem) && moves == 1
      ensures |old(Q())| == CLOCKSIZE ==> Evicted(old(pte), pte, old(Q()), Q(), va, moves) && 0 < moves
      ensures |old(Q())| == CLOCKSIZE ==> var x := old(Q())[if moves > CLOCKSIZE then 0 else moves - 1];
        x in old(pte) && Flipped(old(mem), mem, old(pte)[x])
    {
      hide TableOk, Plain, Round, Pages, SamePlain, Turned, Passed, Victim, Evicted, Flipped, Inverse;
      ghost var q := Q();
      moves := 0;
      PagesSize(R());
      StartPass(pte, q);
      SamePlainSelf(pte, mem);
      while true
        invariant Orderly() && (moves > 0 ==> |q| == CLOCKSIZE) && |q| <= CLOCKSIZE
        invariant moves <= |q| && Q() == Turned(q, moves) && Passed(old(pte), pte, q, moves)
        invariant mem == old(mem) && SamePlain(old(pte), old(mem), pte, mem) && (moves == 0 ==> pte == old(pte))
        decreases CLOCKSIZE - moves
      {
        ghost var round := R();
        PagesSize(round);
        TurnedIs(q, moves);
        var x := MoveOn();
        if x == EMPTY {
          Append(round, va);
          Store(va);
          assert R() == round[1..] + [va];
          moves := moves + 1;
          return 0, moves;
        }
        TurnedIs(q, moves);
        SamePlainOk(old(pte), old(mem), pte, mem);
        Replace(round, va);
        Replace(round, x);
        TurnOn(q, moves);
        assert x in q && Accessible(old(pte), x);
        PassOne(old(pte), pte, q, moves, x);
        PassedAccessible(old(pte), pte, q, moves, x);
        ghost var i := moves;
        moves := moves + 1;
        if !pte[x].a {
          ghost var p1, m1 := pte, mem;
          r := Evict(x, va);
          SamePlainTwice(old(pte), old(mem), p1, m1, pte, mem);
          assert R() == round[1..] + [va];
          EvictedIs(old(pte), p1, pte, q, i, x, va);
          PassedSame(old(pte), p1, q, i, x);
          FlippedSame(m1, mem, p1[x], old(pte)[x]);
          return r, moves;
        }
        ghost var p1, m1 := pte, mem;
        pte := pte[x := pte[x].(a := false)];
        ClearKeeps(old(pte), old(mem), p1, m1, x);
      }
    }

    /** wsetinsert: the page joins the queue at the back. When the queue is full
        the pages at its front that were referenced lose their bit and go to the
        back, and the first that was not is encrypted and leaves. */
    method WsetInsert(va: int) returns (r: int, ghost moves: nat)
      requires Orderly() && TableOk(pte, mem) && va >= 0 && va !in Q()
      requires forall x <- Q() :: Accessible(pte, x)
      modifies `pte, `mem, `clockhand, clockqueue
      ensures r == 0 && Orderly() && SamePlain(old(pte), old(mem), pte, mem)
      ensures |old(Q())| < CLOCKSIZE ==> Q() == old(Q()) + [va] && pte == old(pte) && mem == old(mem) && moves == 1
      ensures |old(Q())| >= CLOCKSIZE ==> Evicted(old(pte), pte, old(Q()), Q(), va, moves)
      ensures |old(Q())| <= CLOCKSIZE && |mem| == |old(mem)| && pte.Keys == old(pte).Keys
      ensures |old(Q())| == CLOCKSIZE ==> 0 < moves <= CLOCKSIZE + 1
      ensures |old(Q())| == CLOCKSIZE ==>
        Q() == if moves > CLOCKSIZE then old(Q())[1..] + [va] else old(Q())[moves..] + old(Q())[..moves - 1] + [va]
      ensures |old(Q())| == CLOCKSIZE ==>
        && (forall j: nat :: j < moves - 1 ==> old(Q())[j] in old(pte) && old(pte)[old(Q())[j]].a)
        && (moves <= CLOCKSIZE ==> old(Q())[moves - 1] in old(pte) && !old(pte)[old(Q())[moves - 1]].a)
      ensures |old(Q())| == CLOCKSIZE ==> var x := old(Q())[if moves > CLOCKSIZE then 0 else moves - 1];
        && x in old(pte) && pte[x] == old(pte)[x].(p := pte[x].p, e := true, a := false)
        && (!old(pte)[x].e ==> !pte[x].p)
        && (forall j: nat :: j < moves - 1 && old(Q())[j] != x ==>
              old(Q())[j] in old(pte) && pte[old(Q())[j]] == old(pte)[old(Q())[j]].(a := false))
        && (forall k <- old(pte) :: k != x && k !in old(Q())[..moves - 1] ==> pte[k] == old(pte)[k])
      ensures |old(Q())| == CLOCKSIZE ==> var x := old(Q())[if moves > CLOCKSIZE then 0 else moves - 1];
        Flipped(old(mem), mem, old(pte)[x])
      ensures |old(Q())| == CLOCKSIZE ==> var x := old(Q())[if moves > CLOCKSIZE then 0 else moves - 1];
        var e := old(pte)[x];
        && (forall f: nat :: f < |old(mem)| && f != e.frame ==> mem[f] == old(mem)[f])
        && (e.e ==> mem == old(mem))
        && (!e.e ==> forall o: nat :: o < PGSIZE ==> mem[e.frame][o] == 0xFF - old(mem)[e.frame][o])
    {
      hide TableOk, Plain, Round, Pages, SamePlain, Evicted, Flipped, Inverse, ClockQueue.Orderly;
      ghost var q := Q();
      InTable(q, pte, mem);
      QDistinct();
      r, moves := Rotate(va);
      if |q| == CLOCKSIZE {
        EvictedMeans(old(pte), pte, q, Q(), va, moves);
        FlippedMeans(old(mem), mem, old(pte)[q[if moves > CLOCKSIZE then 0 else moves - 1]]);
      } else {
        SamePlainOk(old(pte), old(mem), pte, mem);
      }
    }

    /** The page at the hand is encrypted and its slot goes to `va`. */
    method Evict(x: int, va: int) returns (r: int)
      requires clockqueue.Length == CLOCKSIZE && 0 <= clockhand < CLOCKSIZE
      requires TableOk(pte, mem) && Accessible(pte, x)
      modifies `pte, `mem, clockqueue
      ensures r == 0 && R() == old(R())[..CLOCKSIZE - 1] + [va] && pte == EncRange(old(pte), x, 1)
      ensures SamePlain(old(pte), old(mem), pte, mem) && Flipped(old(mem), mem, old(pte)[x])
    {
      hide Plain, Round, SamePlain, TableOk, EncRange, AllAccessible, Inverse;
      assert AllAccessible(pte, x, 1) by { OneAccessible(pte, x); }
      r := Mencrypt(x, 1);
      FlippedOne(old(pte), old(mem), mem, x);
      Store(va);
    }

    /** clearwset */
    method ClearWset()
      requires clockqueue.Length == CLOCKSIZE
      modifies `clockhand, clockqueue
      ensures Orderly() && Q() == []
    {
      var i := 0;
      while i < CLOCKSIZE
        invariant i <= CLOCKSIZE && forall k :: 0 <= k < i ==> clockqueue[k] == EMPTY
      {
        clockqueue[i] := EMPTY;
        i := i + 1;
      }
      clockhand := -1;
      UnusedIs(R(), CLOCKSIZE);
    }

    /** The search loop of wsetdelete. */
    method Find(va: int) returns (found: int)
      requires clockqueue.Length == CLOCKSIZE && 0 <= clockhand < CLOCKSIZE
      ensures if found == -1 then va !in R() else 0 <= found < CLOCKSIZE && clockqueue[found] == va
    {
      found := -1;
      var i := 0;
      while i < CLOCKSIZE
        invariant i <= CLOCKSIZE && -1 <= found < CLOCKSIZE && (found >= 0 ==> clockqueue[found] == va)
        invariant found == -1 ==> forall k: nat {:trigger FromHand(clockhand, k)} :: k < i ==>
          clockqueue[FromHand(clockhand, k)] != va
      {
        if clockqueue[FromHand(clockhand, i)] == va {
          found := FromHand(clockhand, i);
        }
        i := i + 1;
      }
      if found == -1 { NotFound(clockqueue[..], clockhand, va); }
    }

    /** The shifting loop of wsetdelete, from `found` up to the hand. */
    method Shift(found: nat) returns (ghost j: nat)
      requires clockqueue.Length == CLOCKSIZE && 0 <= clockhand < CLOCKSIZE && found < CLOCKSIZE
      modifies clockqueue
      ensures j < CLOCKSIZE && old(R())[j] == old(clockqueue[found])
      ensures R() == old(R())[..j] + old(R())[j + 1..] + [old(R())[CLOCKSIZE - 1]]
    {
      hide Round, Slot, NextSlot, Shifted;
      j := EntryOf(clockhand, found);
      ghost var r0 := R();
      ShiftedEnds(r0, j);
      SlotAt(clockqueue[..], clockhand, j, 0);
      ghost var k := j;
      var i := found;
      SlotNext(clockhand, j);
      while i != clockhand
        invariant j <= k < CLOCKSIZE && i == Slot(clockhand, k) && (i == clockhand <==> k == CLOCKSIZE - 1)
        invariant R() == Shifted(r0, j, k)
        decreases CLOCKSIZE - k
      {
        SlotNext(clockhand, k);
        SlotNext(clockhand, k + 1);
        ShiftedNext(r0, j, k);
        ShiftOne(i, k);
        i := NextSlot(i);
        k := k + 1;
      }
    }

    method ShiftOne(i: nat, ghost k: nat)
      requires clockqueue.Length == CLOCKSIZE && 0 <= clockhand < CLOCKSIZE && k + 1 < CLOCKSIZE
      requires i == Slot(clockhand, k)
      modifies clockqueue
      ensures R() == old(R())[k := old(R())[k + 1]]
    {
      hide Round, Slot;
      SlotNext(clockhand, k);
      ghost var cq := clockqueue[..];
      SlotAt(cq, clockhand, k + 1, 0);
      SlotAt(cq, clockhand, k, cq[NextSlot(i)]);
      clockqueue[i] := clockqueue[NextSlot(i)];
      assert clockqueue[..] == cq[i := cq[NextSlot(i)]];
    }

    /** wsetdelete: exactly that page leaves, and the others keep their order. */
    method WsetDelete(va: int) returns (r: int)
      requires Orderly() && clockhand >= 0 && va != EMPTY
      modifies `clockhand, clockqueue
      ensures Orderly() && r == if va in old(Q()) then 0 else -1
      ensures if r == 0 then Without(old(Q()), Q(), va) else Q() == old(Q())
    {
      hide Round, Pages, Unused, ClockQueue.Orderly, Without;
      ghost var r0 := R();
      var found := Find(va);
      if found == -1 {
        PagesIn(r0, va);
        return -1;
      }
      ghost var j := Shift(found);
      ghost var cq := clockqueue[..];
      SlotAt(cq, clockhand, CLOCKSIZE - 1, EMPTY);
      clockqueue[clockhand] := EMPTY;
      assert clockqueue[..] == cq[clockhand := EMPTY];
      BackHand(clockqueue[..], clockhand);
      clockhand := if clockhand == 0 then CLOCKSIZE - 1 else clockhand - 1;
      assert R() == [EMPTY] + r0[..j] + r0[j + 1..];
      DeleteAt(r0, j, va);
      return 0;
    }

    /** The page becomes present and its bytes are complemented. */
    method Open(pn: int)
      requires TableOk(pte, mem) && pn in pte && pte[pn].e && pte[pn].u && pte[pn].frame < |mem|
      modifies `pte, `mem
      ensures pte == Opened(old(pte), pn) && SamePlain(old(pte), old(mem), pte, mem) && |mem| == |old(mem)|
      ensures var f := old(pte)[pn].frame;
        mem == old(mem)[f := mem[f]] && Inverse(old(mem)[f], mem[f])
    {
      hide Inverse, SamePlain, TableOk, Complement;
      var e := pte[pn].(e := false, p := true, a := true);
      FlipKeeps(pte, mem, pn, e);
      pte := pte[pn := e];
      Flip(e.frame);
    }

    /** mdecrypt: the fault on an encrypted page. The page becomes present and
        joins the working set, whose victim, if there is one, is encrypted; the
        access by the kernel sets the reference bit. */
    method Mdecrypt(pn: int) returns (r: int, ghost moves: nat)
      requires Valid() && pn >= 0 && (pn in pte ==> pte[pn].e)
      modifies `pte, `mem, `clockhand, clockqueue
      ensures r == if pn >= KERNPAGE || pn !in old(pte) then -1 else 0
      ensures Valid() && SamePlain(old(pte), old(mem), pte, mem)
      ensures r == -1 ==> pte == old(pte) && mem == old(mem) && Q() == old(Q())
      ensures r == 0 ==> pte[pn].p && |Q()| > 0 && Q()[|Q()| - 1] == pn
      ensures r == 0 && |old(Q())| < CLOCKSIZE ==> Q() == old(Q()) + [pn] && pte == Opened(old(pte), pn)
      ensures r == 0 && |old(Q())| >= CLOCKSIZE ==> Evicted(Opened(old(pte), pn), pte, old(Q()), Q(), pn, moves)
      ensures |old(Q())| <= CLOCKSIZE && |mem| == |old(mem)| && pte.Keys == old(pte).Keys
      ensures r == 0 ==> pte[pn] == old(pte)[pn].(p := true, e := false, a := true)
      ensures r == 0 ==>
        forall o: nat :: o < PGSIZE ==> mem[old(pte)[pn].frame][o] == 0xFF - old(mem)[old(pte)[pn].frame][o]
      ensures r == 0 && |old(Q())| < CLOCKSIZE ==>
        && (forall k <- old(pte) :: k != pn ==> pte[k] == old(pte)[k])
        && (forall f: nat :: f < |mem| && f != old(pte)[pn].frame ==> mem[f] == old(mem)[f])
      ensures r == 0 && |old(Q())| == CLOCKSIZE ==> 0 < moves <= CLOCKSIZE + 1
      ensures r == 0 && |old(Q())| == CLOCKSIZE ==> var x := old(Q())[if moves > CLOCKSIZE then 0 else moves - 1];
        && x in old(pte) && pte[x].e && !pte[x].p && !pte[x].a
        && (forall o: nat :: o < PGSIZE ==> mem[old(pte)[x].frame][o] == 0xFF - old(mem)[old(pte)[x].frame][o])
        && (forall f: nat :: f < |mem| && f != old(pte)[pn].frame && f != old(pte)[x].frame ==> mem[f] == old(mem)[f])
    {
      hide Plain, Round, Pages, SamePlain, Decrypted, Evicted, EncRange, Flipped, Inverse, TableOk, Complement;
      moves := 0;
      SamePlainSelf(pte, mem);
      PagesSize(R());
      if pn >= KERNPAGE { return -1, 0; }
      if pn !in pte { return -1, 0; }
      ghost var p0, m0, q := pte, mem, Q();
      TableParts(p0, m0, pn);
      Open(pn);
      ghost var p1, m1 := pte, mem;
      SamePlainOk(p0, m0, p1, m1);
      QueueReady(q, p0, p1, pn);
      r, moves := WsetInsert(pn);
      SamePlainTwice(p0, m0, p1, m1, pte, mem);
      SamePlainOk(p0, m0, pte, mem);
      QueueAfter(q, Q(), p0, p1, pte, pn, moves);
      ghost var x := if |q| == CLOCKSIZE then q[if moves > CLOCKSIZE then 0 else moves - 1] else pn;
      FaultMeans(p0, m0, p1, m1, pte, mem, pn, q, x);
    }

    /** mencrypt of pages that can be accessed. */
    method EncryptThese(pn: int, len: nat)
      requires TableOk(pte, mem) && AllAccessible(pte, pn, len)
      modifies `pte, `mem
      ensures pte == EncRange(old(pte), pn, len) && SamePlain(old(pte), old(mem), pte, mem)
    {
      hide SamePlain, TableOk, EncRange, AllAccessible;
      var r := Mencrypt(pn, len);
    }

    /** The end of exec: an empty working set, and every user page of the new
        image encrypted. */
    method ExecPages(npages: nat) returns (r: int)
      requires clockqueue.Length == CLOCKSIZE && TableOk(pte, mem) && forall k :: k in pte <==> 0 <= k < npages
      modifies `pte, `mem, `clockhand, clockqueue
      ensures r == 0 && Valid() && Q() == [] && SamePlain(old(pte), old(mem), pte, mem)
      ensures pte.Keys == old(pte).Keys && forall k <- pte :: k in old(pte) && pte[k].frame == old(pte)[k].frame
      ensures forall k <- pte :: if pte[k].u then pte[k].e && !pte[k].p else !pte[k].e
      ensures forall k <- pte :: k in old(pte) && pte[k].frame < |mem| && old(pte)[k].frame < |old(mem)|
      ensures forall k <- pte, o: nat :: o < PGSIZE ==>
        mem[pte[k].frame][o] == if old(pte)[k].u && !old(pte)[k].e then 0xFF - old(mem)[old(pte)[k].frame][o]
                                else old(mem)[old(pte)[k].frame][o]
    {
      hide Plain, Round, Pages, SamePlain, TableOk, ClockQueue.Orderly;
      ClearWset();
      EncryptUser(npages);
      SamePlainOk(old(pte), old(mem), pte, mem);
      PlainMeans(old(pte), old(mem), pte, mem);
      return 0;
    }

    /** The loop at the end of exec. */
    method EncryptUser(npages: nat)
      requires TableOk(pte, mem) && forall k :: k in pte <==> 0 <= k < npages
      modifies `pte, `mem
      ensures SamePlain(old(pte), old(mem), pte, mem)
      ensures forall k <- pte :: k in old(pte) && pte[k].frame == old(pte)[k].frame && (pte[k].u ==> pte[k].e)
    {
      hide Plain, SamePlain, TableOk;
      SamePlainSelf(pte, mem);
      var i := 0;
      while i < npages
        invariant i <= npages && SamePlain(old(pte), old(mem), pte, mem) && TableOk(pte, mem)
        invariant pte.Keys == old(pte).Keys
        invariant forall k <- pte :: pte[k].frame == old(pte)[k].frame && (k < i && pte[k].u ==> pte[k].e)
      {
        if pte[i].u {
          ghost var p1, m1 := pte, mem;
          UserAccessible(pte, mem, i);
          EncryptThese(i, 1);
          SamePlainTwice(old(pte), old(mem), p1, m1, pte, mem);
          SamePlainOk(p1, m1, pte, mem);
        }
        i := i + 1;
      }
    }

    /** A store by the process to a page that is present: the byte changes and
        the reference bit is set. */
    method Touch(pn: int, off: nat, b: Byte)
      requires Valid() && pn in pte && pte[pn].p && pte[pn].u && off < PGSIZE
      modifies `pte, `mem
      ensures Valid() && Q() == old(Q()) && pte.Keys == old(pte).Keys
      ensures Plain(pte, mem, pn) == old(Plain(pte, mem, pn))[off := b]
      ensures forall k <- pte :: k != pn ==> Plain(pte, mem, k) == old(Plain(pte, mem, k))
    {
      hide Round, Pages;
      mem := mem[pte[pn].frame := mem[pte[pn].frame][off := b]];
      pte := pte[pn := pte[pn].(a := true)];
      assert Decrypted(pte) == Decrypted(old(pte));
    }

    /** The loop of allocuvm: `n` zeroed pages after the first `npages`. */
    method Alloc(npages: nat, n: nat)
      requires TableOk(pte, mem) && forall k :: k in pte <==> 0 <= k < npages
      modifies `pte, `mem
      ensures TableOk(pte, mem) && (forall k :: k in pte <==> 0 <= k < npages + n)
      ensures forall k <- pte :: Grown(old(pte), old(mem), pte, mem, npages, k)
    {
      var i := 0;
      while i < n
        invariant i <= n && TableOk(pte, mem) && |mem| >= |old(mem)|
        invariant forall k :: k in pte <==> 0 <= k < npages + i
        invariant forall k <- pte :: Grown(old(pte), old(mem), pte, mem, npages, k)
      {
        ghost var p1, m1 := pte, mem;
        pte := pte[npages + i := Pte(|mem|, true, false, false, true)];
        mem := mem + [Zeros()];
        forall k | k in pte
          ensures Grown(old(pte), old(mem), pte, mem, npages, k)
        {
          assert k in p1 ==> Grown(old(pte), old(mem), p1, m1, npages, k);
        }
        i := i + 1;
      }
    }

    /** Page-aligned growth: allocuvm adds `n` zeroed pages after the first
        `npages`, or fails for want of memory, and mencrypt encrypts them. */
    method Grow(npages: nat, n: nat, room: nat) returns (r: int)
      requires Valid() && forall k :: k in pte <==> 0 <= k < npages
      modifies `pte, `mem
      ensures Valid() && Q() == old(Q()) && r == if n <= room then 0 else -1
      ensures r == -1 ==> pte == old(pte) && mem == old(mem)
      ensures r == 0 ==> forall k :: k in pte <==> 0 <= k < npages + n
      ensures r == 0 ==>
        forall k <- pte :: Plain(pte, mem, k) == if k < npages then old(Plain(pte, mem, k)) else Zeros()
      ensures r == 0 ==> forall k <- pte ::
        if k < npages then k in old(pte) && pte[k] == old(pte)[k] else pte[k].u && pte[k].e && !pte[k].p
      ensures r == 0 ==> forall k <- pte :: pte[k].frame < |mem| && (k < npages ==> pte[k].frame < |old(mem)|)
      ensures r == 0 ==> forall k <- pte, o: nat :: o < PGSIZE ==>
        mem[pte[k].frame][o] == if k < npages then old(mem)[pte[k].frame][o] else 0xFF
    {
      hide Plain, Round, Pages, SamePlain, EncRange, TableOk, AllAccessible, Grown;
      if n > room { return -1; }
      Alloc(npages, n);
      ghost var p1, m1 := pte, mem;
      GrownAccessible(old(pte), old(mem), pte, mem, npages, n);
      EncryptThese(npages, n);
      GrownQueue(old(pte), old(mem), p1, m1, npages, n);
      SamePlainIs(p1, m1, pte, mem);
      GrownPlain(old(pte), old(mem), p1, m1, npages);
      PlainMeans(p1, m1, pte, mem);
      GrownMeans(old(pte), old(mem), p1, m1, pte, mem, npages, n);
      return 0;
    }

    /** copyuvm: a copy of every page, in a frame of its own, with its flags. */
    method CopyPages(child: Space, npages: nat)
      requires TableOk(pte, mem) && (forall k :: k in pte <==> 0 <= k < npages) && child != this && child.pte == map[]
      requires child.mem == []
      modifies child`pte, child`mem
      ensures Copied(pte, mem, child.pte, child.mem, npages)
    {
      var i := 0;
      while i < npages
        invariant i <= npages && Copied(pte, mem, child.pte, child.mem, i)
      {
        var e := pte[i];
        child.mem := child.mem + [mem[e.frame]];
        child.pte := child.pte[i := e.(frame := i, p := !e.e)];
        i := i + 1;
      }
    }

    /** fork: the child has the same pages, the same working set and the same
        hand; no child if there is not enough memory. */
    method Fork(npages: nat, room: nat) returns (child: Space?)
      requires Valid() && forall k :: k in pte <==> 0 <= k < npages
      ensures child == null <==> npages > room
      ensures child != null ==>
        fresh(child) && fresh(child.clockqueue) && child.Valid() && child.Q() == Q() && child.pte.Keys == pte.Keys
      ensures child != null ==> forall k <- pte :: child.pte[k] == pte[k].(frame := child.pte[k].frame)
      ensures child != null ==> forall k <- pte :: Plain(child.pte, child.mem, k) == Plain(pte, mem, k)
      ensures child != null ==> forall k <- pte :: child.pte[k].frame < |child.mem| && pte[k].frame < |mem|
      ensures child != null ==> forall k <- pte :: child.mem[child.pte[k].frame] == mem[pte[k].frame]
      ensures child != null ==> forall j <- pte, k <- pte :: j != k ==> child.pte[j].frame != child.pte[k].frame
    {
      hide Round, Pages;
      if npages > room { return null; }
      child := new Space();
      CopyPages(child, npages);
      CopiedOk(pte, mem, child.pte, child.mem, npages);
      var i := 0;
      while i < CLOCKSIZE
        invariant i <= CLOCKSIZE && child.clockqueue[..i] == clockqueue[..i]
        modifies child.clockqueue
      {
        child.clockqueue[i] := clockqueue[i];
        i := i + 1;
      }
      child.clockhand := clockhand;
      assert child.clockqueue[..] == clockqueue[..];
    }
  }

  /** The first `n` pages, copied. */
  ghost predicate Copied(p0: map<int, Pte>, m0: seq<Page>, pte: map<int, Pte>, mem: seq<Page>, n: nat)
    requires TableOk(p0, m0)
  {
    && |mem| == n && (forall k :: k in pte <==> 0 <= k < n)
    && forall k <- pte :: k in p0 && pte[k] == p0[k].(frame := k, p := !p0[k].e) && mem[k] == m0[p0[k].frame]
  }

  lemma CopiedPage(p0: map<int, Pte>, m0: seq<Page>, pte: map<int, Pte>, mem: seq<Page>, n: nat, k: int)
    requires TableOk(p0, m0) && Copied(p0, m0, pte, mem, n) && (forall k :: k in p0 <==> 0 <= k < n) && k in p0
    ensures k in pte && pte[k] == p0[k].(frame := k) && pte[k].frame < |mem| && Plain(pte, mem, k) == Plain(p0, m0, k)
  {
    assert 0 <= k < n;
    assert k in pte;
  }

  lemma SameKeys(p: map<int, Pte>, q: map<int, Pte>, n: nat)
    requires (forall k :: k in p <==> 0 <= k < n) && forall k :: k in q <==> 0 <= k < n
    ensures p.Keys == q.Keys
  {
    forall k
      ensures k in p.Keys <==> k in q.Keys
    {
      assert k in p <==> 0 <= k < n;
      assert k in q <==> 0 <= k < n;
    }
  }

  /** Only frames differ. */
  lemma Reframed(p0: map<int, Pte>, pte: map<int, Pte>)
    requires pte.Keys == p0.Keys && forall k <- p0 :: pte[k] == p0[k].(frame := pte[k].frame)
    ensures Decrypted(pte) == Decrypted(p0)
  {
    forall k
      ensures k in Decrypted(pte) <==> k in Decrypted(p0)
    {
    }
  }

  lemma CopiedOk(p0: map<int, Pte>, m0: seq<Page>, pte: map<int, Pte>, mem: seq<Page>, n: nat)
    requires TableOk(p0, m0) && Copied(p0, m0, pte, mem, n) && forall k :: k in p0 <==> 0 <= k < n
    ensures TableOk(pte, mem) && Decrypted(pte) == Decrypted(p0) && pte.Keys == p0.Keys
    ensures forall k: int {:trigger Plain(pte, mem, k)} :: k in p0 ==> Plain(pte, mem, k) == Plain(p0, m0, k)
    ensures forall k <- p0 :: pte[k] == p0[k].(frame := k)
  {
    hide Plain, Decrypted;
    SameKeys(p0, pte, n);
    forall k | k in p0
      ensures k in pte && pte[k] == p0[k].(frame := k) && pte[k].frame < |mem| && Plain(pte, mem, k) == Plain(p0, m0, k)
    {
      CopiedPage(p0, m0, pte, mem, n, k);
    }
    Reframed(p0, pte);
  }

  /** Page `k` after growth: an old one as it was, or a new one of zeros. */
  ghost predicate Grown(p0: map<int, Pte>, m0: seq<Page>, pte: map<int, Pte>, mem: seq<Page>, npages: nat, k: int)
    requires k in pte
  {
    && pte[k].frame < |mem|
    && if k < npages then k in p0 && pte[k] == p0[k] && pte[k].frame < |m0| && mem[pte[k].frame] == m0[pte[k].frame]
       else pte[k].p && !pte[k].e && pte[k].u && mem[pte[k].frame] == Zeros()
  }

  lemma GrownAccessible(p0: map<int, Pte>, m0: seq<Page>, pte: map<int, Pte>, mem: seq<Page>, npages: nat, n: nat)
    requires (forall k :: k in pte <==> 0 <= k < npages + n) && forall k <- pte :: Grown(p0, m0, pte, mem, npages, k)
    ensures AllAccessible(pte, npages, n)
  {
    forall k: int | npages <= k < npages + n
      ensures Accessible(pte, k)
    {
      assert Grown(p0, m0, pte, mem, npages, k);
    }
  }

  lemma GrownQueue(p0: map<int, Pte>, m0: seq<Page>, pte: map<int, Pte>, mem: seq<Page>, npages: nat, n: nat)
    requires (forall k :: k in pte <==> 0 <= k < npages + n) && (forall k :: k in p0 <==> 0 <= k < npages)
    requires forall k <- pte :: Grown(p0, m0, pte, mem, npages, k)
    ensures Decrypted(EncRange(pte, npages, n)) == Decrypted(p0)
  {
    var after := EncRange(pte, npages, n);
    forall k | k in pte
      ensures k in Decrypted(after) <==> k in Decrypted(p0)
    {
      assert Grown(p0, m0, pte, mem, npages, k);
    }
    assert forall k <- Decrypted(p0) :: k in pte;
    assert forall k <- Decrypted(after) :: k in pte;
  }

  lemma GrownPlain(p0: map<int, Pte>, m0: seq<Page>, pte: map<int, Pte>, mem: seq<Page>, npages: nat)
    requires TableOk(p0, m0) && TableOk(pte, mem) && forall k <- pte :: Grown(p0, m0, pte, mem, npages, k)
    ensures forall k: int {:trigger Plain(pte, mem, k)} :: k in pte ==>
      if k < npages then k in p0 && Plain(pte, mem, k) == Plain(p0, m0, k) else Plain(pte, mem, k) == Zeros()
  {
    forall k: int | k in pte
      ensures if k < npages then k in p0 && Plain(pte, mem, k) == Plain(p0, m0, k) else Plain(pte, mem, k) == Zeros()
    {
      assert Grown(p0, m0, pte, mem, npages, k);
    }
  }

  lemma GrownMeans(p0: map<int, Pte>, m0: seq<Page>, p1: map<int, Pte>, m1: seq<Page>, pte: map<int, Pte>,
      mem: seq<Page>, npages: nat, n: nat)
    requires forall k <- p1 :: Grown(p0, m0, p1, m1, npages, k)
    requires (forall k :: k in p1 <==> 0 <= k < npages + n) && pte == EncRange(p1, npages, n)
    requires forall k <- pte :: pte[k].frame < |mem| && p1[k].frame < |m1|
    requires forall k <- pte :: if pte[k].u then pte[k].p != pte[k].e else !pte[k].e
    requires forall k <- pte, o: nat :: o < PGSIZE ==>
      mem[pte[k].frame][o] == if pte[k].e == p1[k].e then m1[p1[k].frame][o] else 0xFF - m1[p1[k].frame][o]
    ensures forall k <- pte ::
      if k < npages then k in p0 && pte[k] == p0[k] else pte[k].u && pte[k].e && !pte[k].p
    ensures forall k <- pte :: pte[k].frame < |mem| && (k < npages ==> pte[k].frame < |m0|)
    ensures forall k <- pte, o: nat :: o < PGSIZE ==>
      mem[pte[k].frame][o] == if k < npages then m0[pte[k].frame][o] else 0xFF
  {
    forall k | k in pte
      ensures if k < npages then k in p0 && pte[k] == p0[k] else pte[k].u && pte[k].e && !pte[k].p
      ensures k < npages ==> pte[k].frame < |m0|
      ensures forall o: nat :: o < PGSIZE ==> mem[pte[k].frame][o] == if k < npages then m0[pte[k].frame][o] else 0xFF
    {
      assert k in p1 && Grown(p0, m0, p1, m1, npages, k);
    }
  }

  lemma SamePlainIs(p0: map<int, Pte>, m0: seq<Page>, pte: map<int, Pte>, mem: seq<Page>)
    requires SamePlain(p0, m0, pte, mem)
    ensures TableOk(p0, m0) && TableOk(pte, mem) && pte.Keys == p0.Keys
    ensures forall k: int {:trigger Plain(pte, mem, k)} :: k in p0 ==> Plain(pte, mem, k) == Plain(p0, m0, k)
  {
  }

  function Zeros(): Page {
    seq(PGSIZE, k requires 0 <= k < PGSIZE => 0)
  }

  /** The entry of an encrypted page after the fault, the kernel having touched
      it. */
  ghost function Opened(pte: map<int, Pte>, pn: int): map<int, Pte>
    requires pn in pte
  {
    pte[pn := pte[pn].(e := false, p := true, a := true)]
  }

  lemma QueueReady(q: seq<int>, p0: map<int, Pte>, p1: map<int, Pte>, pn: int)
    requires InQueue(q, p0) && pn in p0 && p0[pn].e && p1 == p0[pn := p0[pn].(e := false, p := true, a := true)]
    requires forall k <- p0 :: if p0[k].u then p0[k].p != p0[k].e else !p0[k].e
    ensures pn !in q && (forall x <- q :: Accessible(p1, x)) && Decrypted(p1) == Decrypted(p0) + {pn}
  {
    assert pn !in Decrypted(p0);
  }

  lemma TableParts(pte: map<int, Pte>, mem: seq<Page>, pn: int)
    requires TableOk(pte, mem) && pn in pte && pte[pn].e
    ensures pte[pn].u && pte[pn].frame < |mem|
    ensures forall k <- pte :: if pte[k].u then pte[k].p != pte[k].e else !pte[k].e
  {
  }

  /** A fault in terms of the entries and bytes alone; `x` is the page that had
      to leave, or `pn` itself if none had to. */
  lemma FaultMeans(p0: map<int, Pte>, m0: seq<Page>, p1: map<int, Pte>, m1: seq<Page>, pte: map<int, Pte>,
      mem: seq<Page>, pn: int, q: seq<int>, x: int)
    requires TableOk(p0, m0) && pn in p0 && p1 == p0[pn := p0[pn].(e := false, p := true, a := true)]
    requires |m1| == |m0| && m1 == m0[p0[pn].frame := m1[p0[pn].frame]] && Inverse(m0[p0[pn].frame], m1[p0[pn].frame])
    requires InQueue(q, p0) && pn !in q && |q| <= CLOCKSIZE && pte.Keys == p1.Keys
    requires |q| < CLOCKSIZE ==> pte == p1 && mem == m1
    requires |q| == CLOCKSIZE ==> x in q && pte[x] == p1[x].(p := pte[x].p, e := true, a := false)
    requires |q| == CLOCKSIZE ==> (!p1[x].e ==> !pte[x].p) && pte[pn] == p1[pn] && Flipped(m1, mem, p1[x])
    ensures |mem| == |m0| && pte.Keys == p0.Keys && pte[pn] == p0[pn].(p := true, e := false, a := true)
    ensures forall o: nat :: o < PGSIZE ==> mem[p0[pn].frame][o] == 0xFF - m0[p0[pn].frame][o]
    ensures |q| < CLOCKSIZE ==> forall k <- p0 :: k != pn ==> pte[k] == p0[k]
    ensures |q| < CLOCKSIZE ==> forall f: nat :: f < |mem| && f != p0[pn].frame ==> mem[f] == m0[f]
    ensures |q| == CLOCKSIZE ==> x in p0 && x != pn && pte[x].e && !pte[x].p && !pte[x].a
    ensures |q| == CLOCKSIZE ==> forall o: nat :: o < PGSIZE ==> mem[p0[x].frame][o] == 0xFF - m0[p0[x].frame][o]
    ensures |q| == CLOCKSIZE ==>
      forall f: nat :: f < |mem| && f != p0[pn].frame && f != p0[x].frame ==> mem[f] == m0[f]
  {
    if |q| == CLOCKSIZE {
      assert x in Decrypted(p0) && p0[x].frame != p0[pn].frame;
      assert m1[p0[x].frame] == m0[p0[x].frame] && mem[p0[pn].frame] == m1[p0[pn].frame];
    }
  }

  /** Whoever leaves the queue is encrypted, and no one else. */
  lemma QueueAfter(q: seq<int>, q': seq<int>, p0: map<int, Pte>, p1: map<int, Pte>, pte: map<int, Pte>, pn: int,
      moves: nat)
    requires InQueue(q, p0) && pn in p1 && Decrypted(p1) == Decrypted(p0) + {pn} && pn !in q && Distinct(q)
    requires |q| <= CLOCKSIZE
    requires p1[pn].p && pte.Keys == p1.Keys
    requires |q| < CLOCKSIZE ==> q' == q + [pn] && pte == p1
    requires |q| >= CLOCKSIZE ==> Evicted(p1, pte, q, q', pn, moves)
    ensures InQueue(q', pte) && |q'| == Min(|q| + 1, CLOCKSIZE) && q'[|q'| - 1] == pn && pte[pn].p
  {
    hide Victim, ClearA, EncRange;
    if |q| == CLOCKSIZE {
      var k := Victim(p1, q);
      VictimBound(p1, q);
      var v := if k == |q| then 0 else k;
      TakeOut(q, v);
      DecryptedLess(p1, q, k, q[v]);
    }
  }

  lemma VictimBound(p1: map<int, Pte>, q: seq<int>)
    ensures Victim(p1, q) <= |q|
  {
  }

  lemma TakeOut(q: seq<int>, v: nat)
    requires v < |q| && Distinct(q)
    ensures forall x :: x in q[v + 1..] + q[..v] <==> x in q && x != q[v]
  {
    assert q == q[..v] + ([q[v]] + q[v + 1..]);
    var rest := q[v + 1..] + q[..v];
    forall i | 0 <= i < |rest|
      ensures rest[i] != q[v]
    {
      assert rest[i] == q[if i < |q| - v - 1 then v + 1 + i else i - (|q| - v - 1)];
    }
  }

  lemma DecryptedLess(p1: map<int, Pte>, q: seq<int>, k: nat, x: int)
    requires k <= |q|
    ensures Decrypted(EncRange(ClearA(p1, q[..k]), x, 1)) == Decrypted(p1) - {x}
    ensures forall y <- p1 :: y != x ==> EncRange(ClearA(p1, q[..k]), x, 1)[y].p == p1[y].p
  {
  }

  function FromHand(hand: nat, k: nat): (i: nat)
    ensures i < CLOCKSIZE
  {
    (hand + k) % CLOCKSIZE
  }

  /** `q'` is `q` with `x` taken out of one place. */
  ghost predicate Without(q: seq<int>, q': seq<int>, x: int) {
    exists k :: 0 <= k < |q| && q[k] == x && q' == q[..k] + q[k + 1..]
  }

  lemma PagesIn(r: seq<int>, x: int)
    ensures x in Pages(r) ==> x in r
  {
  }

  /** Entries from `j` on, up to `k`, moved one to the front. */
  ghost function Shifted(r: seq<int>, j: nat, k: nat): (s: seq<int>)
    requires j <= k < |r|
    ensures |s| == |r|
  {
    r[..j] + r[j + 1..k + 1] + r[k..]
  }

  lemma ShiftedEnds(r: seq<int>, j: nat)
    requires j < |r|
    ensures Shifted(r, j, j) == r && Shifted(r, j, |r| - 1) == r[..j] + r[j + 1..] + [r[|r| - 1]]
  {
  }

  lemma ShiftedNext(r: seq<int>, j: nat, k: nat)
    requires j <= k && k + 1 < |r|
    ensures Shifted(r, j, k)[k := r[k + 1]] == Shifted(r, j, k + 1) && Shifted(r, j, k)[k + 1] == r[k + 1]
  {
  }

  lemma NotFound(cq: seq<int>, hand: int, va: int)
    requires |cq| == CLOCKSIZE && 0 <= hand < CLOCKSIZE
    requires forall k: nat {:trigger FromHand(hand, k)} :: k < CLOCKSIZE ==> cq[FromHand(hand, k)] != va
    ensures va !in Round(cq, hand)
  {
    forall k | 0 <= k < CLOCKSIZE
      ensures Round(cq, hand)[k] != va
    {
      SlotAt(cq, hand, k, va);
      assert (hand + 1 + k) % CLOCKSIZE == FromHand(hand, if k == CLOCKSIZE - 1 then 0 else k + 1);
    }
  }

  lemma DeleteAt(r: seq<int>, j: nat, va: int)
    requires j < |r| && r[j] == va != EMPTY && ClockQueue.Orderly(r)
    ensures var r' := [EMPTY] + r[..j] + r[j + 1..];
      ClockQueue.Orderly(r') && va in Pages(r) && Without(Pages(r), Pages(r'), va)
  {
    hide Unused, Pages;
    var k := EntryPast(r, j);
    Delete(r, k);
    StaysDistinct(Pages(r), k);
  }

  lemma StaysDistinct(p: seq<int>, k: nat)
    requires k < |p| && Distinct(p) && EMPTY !in p
    ensures Distinct(p[..k] + p[k + 1..]) && EMPTY !in p[..k] + p[k + 1..]
  {
    var s := p[..k] + p[k + 1..];
    forall a, b | 0 <= a < b < |s|
      ensures s[a] != s[b]
    {
      assert s[a] == p[if a < k then a else a + 1] && s[b] == p[if b < k then b else b + 1];
    }
    assert forall x <- s :: x in p;
  }

  /** What an insertion into the full queue `q` does. */
  ghost predicate Evicted(p0: map<int, Pte>, pte: map<int, Pte>, q: seq<int>, q': seq<int>, va: int, moves: nat)
    requires |q| >= CLOCKSIZE
  {
    var k := Victim(p0, q);
    var v := if k == |q| then 0 else k;
    && q' == q[v + 1..] + q[..v] + [va] && moves == k + 1 <= CLOCKSIZE + 1
    && pte == EncRange(ClearA(p0, q[..k]), q[v], 1)
  }

  lemma PassedSame(p0: map<int, Pte>, pte: map<int, Pte>, q: seq<int>, i: nat, x: int)
    requires Passed(p0, pte, q, i) && x in p0
    ensures x in pte && pte[x].frame == p0[x].frame && pte[x].e == p0[x].e
  {
  }

  lemma PassedAccessible(p0: map<int, Pte>, pte: map<int, Pte>, q: seq<int>, i: nat, x: int)
    requires Passed(p0, pte, q, i) && Accessible(p0, x)
    ensures Accessible(pte, x)
  {
  }

  lemma EvictedIs(p0: map<int, Pte>, p1: map<int, Pte>, pte: map<int, Pte>, q: seq<int>, i: nat, x: int, va: int)
    requires |q| == CLOCKSIZE && Passed(p0, p1, q, i) && Victim(p0, q) == i && pte == EncRange(p1, x, 1)
    requires x == q[if i == |q| then 0 else i]
    ensures Evicted(p0, pte, q, Turned(q, i)[1..] + [va], va, i + 1)
  {
    TurnOn(q, i);
  }

  lemma ClearKeeps(p0: map<int, Pte>, m0: seq<Page>, pte: map<int, Pte>, mem: seq<Page>, x: int)
    requires SamePlain(p0, m0, pte, mem) && x in pte
    ensures SamePlain(p0, m0, pte[x := pte[x].(a := false)], mem)
  {
    var p2 := pte[x := pte[x].(a := false)];
    forall k: int | k in pte
      ensures Plain(p2, mem, k) == Plain(pte, mem, k)
    {
    }
    SamePlainTwice(p0, m0, pte, mem, p2, mem);
  }

  lemma PagesSize(r: seq<int>)
    ensures |Pages(r)| <= |r| && (r != [] ==> if r[0] == EMPTY then |Pages(r)| < |r| else Pages(r) == r)
  {
  }

  lemma StartPass(pte: map<int, Pte>, q: seq<int>)
    ensures Passed(pte, pte, q, 0) && Turned(q, 0) == q
  {
  }
}
