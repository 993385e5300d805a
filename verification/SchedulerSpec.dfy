/** The time-slice scheduler as a function of the queue and the process
    counters: what one trip round its loop does, and how long a process waits. */
module SchedulerSpec {
  import opened Params

  datatype State = UNUSED | EMBRYO | SLEEPING | RUNNABLE | RUNNING | ZOMBIE

  datatype Pcb = Pcb(
    state: State, chan: nat, timeslice: nat, activeticks: nat, activesleepticks: int,
    schedticks: nat, compticks: nat, switches: nat, sleepticks: nat, sleepdeadline: nat)

  predicate Distinct(q: seq<nat>) {
    forall i, j :: 0 <= i < j < |q| ==> q[i] != q[j]
  }

  predicate InTable(proc: seq<Pcb>, q: seq<nat>) {
    |proc| == NPROC && Distinct(q) && forall k :: 0 <= k < |q| ==> q[k] < NPROC && proc[q[k]].timeslice >= 1
  }

  /** It has ticks left in this round. */
  predicate Eligible(c: Pcb) {
    c.state == RUNNABLE && c.activeticks < c.timeslice + c.activesleepticks
  }

  /** One tick of the round is given to the process. */
  function Charge(c: Pcb): Pcb {
    c.(schedticks := c.schedticks + 1, activeticks := c.activeticks + 1,
       compticks := c.compticks + if c.activeticks + 1 > c.timeslice then 1 else 0, state := RUNNING)
  }

  /** The round is over: its compensation is used up, and a new round begins. */
  function Recharge(c: Pcb): Pcb {
    c.(switches := c.switches + 1, activesleepticks := 0, activeticks := 0)
  }

  /** How many processes of the queue the loop passes over before any runs. */
  function Stale(proc: seq<Pcb>, q: seq<nat>): nat
    requires InTable(proc, q)
  {
    if q == [] then 0 else (if Eligible(proc[q[0]]) then 0 else 1) + Stale(proc, q[1..])
  }

  lemma {:induction false} StaleAppend(proc: seq<Pcb>, q: seq<nat>, h: nat, c: Pcb)
    requires InTable(proc, q) && h < NPROC && h !in q && c.timeslice >= 1
    ensures InTable(proc[h := c], q + [h])
    ensures Stale(proc[h := c], q + [h]) == Stale(proc, q) + if Eligible(c) then 0 else 1
  {
    var p' := proc[h := c];
    assert InTable(p', q + [h]);
    if q == [] {
      assert (q + [h])[1..] == [];
    } else {
      StaleAppend(proc, q[1..], h, c);
      assert (q + [h])[1..] == q[1..] + [h];
    }
  }

  datatype Next = Next(proc: seq<Pcb>, q: seq<nat>, ran: seq<nat>)

  /** The loop of scheduler, up to the next dispatch: `ran` is the process that
      runs, if any does. */
  function Dispatch(proc: seq<Pcb>, q: seq<nat>): (r: Next)
    requires InTable(proc, q)
    ensures InTable(r.proc, r.q) && |r.ran| <= 1 && (r.ran == [] <==> r.q == [])
    ensures r.ran != [] ==> r.ran[0] == r.q[0]
    decreases Stale(proc, q)
  {
    if q == [] then Next(proc, q, [])
    else
      var h, c := q[0], proc[q[0]];
      if c.state != RUNNABLE then Dispatch(proc, q[1..])
      else if Eligible(c) then Next(proc[h := Charge(c)], q, [h])
      else
        StaleAppend(proc, q[1..], h, Recharge(c));
        Dispatch(proc[h := Recharge(c)], q[1..] + [h])
  }

  /** Those of `s` that can run, in order. */
  function Runnable(proc: seq<Pcb>, s: seq<nat>): seq<nat>
    requires forall j :: 0 <= j < |s| ==> s[j] < |proc|
  {
    if s == [] then []
    else (if proc[s[0]].state == RUNNABLE then [s[0]] else []) + Runnable(proc, s[1..])
  }

  /** Where the loop stops: `k` is the place of the first process that can run
      and has ticks left in its round. */
  ghost predicate FirstAt(proc: seq<Pcb>, q: seq<nat>, k: nat) {
    InTable(proc, q) && k < |q| && forall j :: 0 <= j <= k ==>
      var c := proc[q[j]]; j == k <==> c.state == RUNNABLE && c.timeslice + c.activesleepticks > c.activeticks
  }

  /** One trip round the loop that runs no process. */
  lemma DispatchStep(proc: seq<Pcb>, q: seq<nat>, k: nat)
    requires FirstAt(proc, q, k) && k > 0
    ensures var h := q[0];
      h < NPROC && |proc| == NPROC && |q| > 1 && q[..k] == [h] + q[1..][..k - 1] && q[k] == q[1..][k - 1] != h
    ensures proc[q[0]].state != RUNNABLE ==>
      FirstAt(proc, q[1..], k - 1) && Dispatch(proc, q) == Dispatch(proc, q[1..])
    ensures proc[q[0]].state == RUNNABLE ==>
      var p', q' := proc[q[0] := Recharge(proc[q[0]])], q[1..] + [q[0]];
      FirstAt(p', q', k - 1) && Dispatch(proc, q) == Dispatch(p', q')
  {
    var h, c := q[0], proc[q[0]];
    assert !Eligible(c);
    forall j: nat | j < |q| - 1
      ensures q[1..][j] == (q[1..] + [h])[j] == q[j + 1] != h
    {
    }
    if c.state == RUNNABLE { StaleAppend(proc, q[1..], h, Recharge(c)); }
  }

  /** The first process with ticks left runs. Of those in front of it, which have
      none, the runnable ones are at the back, in order, and the others are off
      the queue. */
  lemma {:induction false} DispatchFirst(proc: seq<Pcb>, q: seq<nat>, k: nat)
    requires FirstAt(proc, q, k)
    ensures Dispatch(proc, q).ran == [q[k]] && Dispatch(proc, q).q == q[k..] + Runnable(proc, q[..k])
    decreases k
  {
    if k == 0 {
      assert q[..k] == [] && q[k..] + [] == q;
    } else {
      hide Dispatch, FirstAt;
      InFirst(proc, q, k);
      DispatchStep(proc, q, k);
      var h, c := q[0], proc[q[0]];
      var front := q[1..][..k - 1];
      assert q[..k][1..] == front;
      if c.state != RUNNABLE {
        assert q[1..][k - 1..] == q[k..];
        DispatchFirst(proc, q[1..], k - 1);
      } else {
        var q', p' := q[1..] + [h], proc[h := Recharge(c)];
        DispatchFirst(p', q', k - 1);
        assert q'[..k - 1] == front && q'[k - 1..] == q[k..] + [h];
        RunnableSame(proc, p', front);
        assert q[k..] + [h] + Runnable(p', front) == q[k..] + ([h] + Runnable(proc, front));
      }
    }
  }

  lemma InFirst(proc: seq<Pcb>, q: seq<nat>, k: nat)
    requires FirstAt(proc, q, k)
    ensures InTable(proc, q) && k < |q| && forall j :: 0 <= j < |q| ==> q[j] < |proc| == NPROC
  {
  }

  lemma {:induction false} RunnableSame(proc: seq<Pcb>, p': seq<Pcb>, s: seq<nat>)
    requires |p'| == |proc| && forall j :: 0 <= j < |s| ==> s[j] < |proc| && p'[s[j]] == proc[s[j]]
    ensures Runnable(p', s) == Runnable(proc, s)
  {
    if s != [] { RunnableSame(proc, p', s[1..]); }
  }

  /** Its counters move on; those in front of it that stay begin a new round,
      and no other process is touched. */
  lemma {:induction false} DispatchCounts(proc: seq<Pcb>, q: seq<nat>, k: nat, i: nat)
    requires FirstAt(proc, q, k) && i < NPROC
    ensures var d, c := Dispatch(proc, q).proc, proc[i];
      |d| == NPROC && d[i] ==
        if i == q[k]
        then c.(state := RUNNING, schedticks := c.schedticks + 1, activeticks := c.activeticks + 1,
          compticks := c.compticks + if c.activeticks >= c.timeslice then 1 else 0)
        else if i in q[..k] && c.state == RUNNABLE
        then c.(switches := c.switches + 1, activesleepticks := 0, activeticks := 0)
        else c
    decreases k
  {
    if k > 0 {
      hide Dispatch, FirstAt;
      InFirst(proc, q, k);
      DispatchStep(proc, q, k);
      var h, c := q[0], proc[q[0]];
      var front := q[1..][..k - 1];
      if c.state != RUNNABLE {
        DispatchCounts(proc, q[1..], k - 1, i);
      } else {
        var q', p' := q[1..] + [h], proc[h := Recharge(c)];
        assert q'[..k - 1] == front && h !in front;
        DispatchCounts(p', q', k - 1, i);
      }
    }
  }

  /** When no process has ticks left, the first that can run begins a new round. */
  lemma {:induction false} DispatchAnew(proc: seq<Pcb>, q: seq<nat>, k: nat)
    requires InTable(proc, q) && k < |q| && forall j :: 0 <= j <= k ==> (j == k <==> proc[q[j]].state == RUNNABLE)
    requires forall j :: 0 <= j < |q| ==>
      var c := proc[q[j]]; c.state != RUNNABLE || c.timeslice + c.activesleepticks <= c.activeticks
    ensures var r, c := Dispatch(proc, q), proc[q[k]];
      && r.ran == [q[k]] && r.proc[q[k]] == c.(state := RUNNING, switches := c.switches + 1, activesleepticks := 0,
           activeticks := 1, schedticks := c.schedticks + 1)
    decreases k
  {
    var h, c := q[0], proc[q[0]];
    if k > 0 {
      DispatchAnew(proc, q[1..], k - 1);
    } else {
      var p', q' := proc[h := Recharge(c)], q[1..] + [h];
      StaleAppend(proc, q[1..], h, Recharge(c));
      AnewFirst(proc, q);
      hide Dispatch;
      DispatchFirst(p', q', |q| - 1);
      DispatchCounts(p', q', |q| - 1, h);
    }
  }

  lemma AnewFirst(proc: seq<Pcb>, q: seq<nat>)
    requires InTable(proc, q) && q != [] && proc[q[0]].state == RUNNABLE
    requires forall j :: 0 <= j < |q| ==>
      var c := proc[q[j]]; c.state != RUNNABLE || c.timeslice + c.activesleepticks <= c.activeticks
    ensures q[0] < NPROC && FirstAt(proc[q[0] := Recharge(proc[q[0]])], q[1..] + [q[0]], |q| - 1)
  {
    var h := q[0];
    StaleAppend(proc, q[1..], h, Recharge(proc[h]));
    forall j: nat | j < |q| - 1
      ensures (q[1..] + [h])[j] == q[j + 1] != h
    {
    }
  }

  // ---- waiting ----

  /** Ticks that a process still has in its round. */
  function Left(c: Pcb): nat {
    if (c.state == RUNNABLE || c.state == RUNNING) && c.activeticks < c.timeslice + c.activesleepticks
    then c.timeslice + c.activesleepticks - c.activeticks else 0
  }

  /** The ticks left to those in front of `p`. */
  function Ahead(proc: seq<Pcb>, q: seq<nat>, p: nat): nat
    requires InTable(proc, q)
  {
    if q == [] || q[0] == p then 0 else Left(proc[q[0]]) + Ahead(proc, q[1..], p)
  }

  lemma {:induction false} AheadSame(proc: seq<Pcb>, q: seq<nat>, p: nat, h: nat, c: Pcb)
    requires InTable(proc, q) && h < NPROC && h !in q && c.timeslice >= 1 && p in q
    ensures InTable(proc[h := c], q) && InTable(proc[h := c], q + [h])
    ensures Ahead(proc[h := c], q, p) == Ahead(proc, q, p) == Ahead(proc[h := c], q + [h], p)
  {
    if q[0] != p {
      AheadSame(proc, q[1..], p, h, c);
      assert (q + [h])[1..] == q[1..] + [h];
    }
  }

  /** Unless `p` is the one that runs, a dispatch uses up a tick in front of it. */
  lemma {:induction false} DispatchAhead(proc: seq<Pcb>, q: seq<nat>, p: nat)
    requires InTable(proc, q) && p in q && Eligible(proc[p])
    ensures var r := Dispatch(proc, q);
      r.ran != [] && p in r.q && p < |r.proc|
      && (r.ran[0] != p ==> r.proc[p] == proc[p] && Ahead(r.proc, r.q, p) + 1 <= Ahead(proc, q, p))
    decreases Stale(proc, q)
  {
    var h, c := q[0], proc[q[0]];
    if c.state != RUNNABLE {
      DispatchAhead(proc, q[1..], p);
    } else if Eligible(c) {
      if h != p {
        AheadSame(proc, q[1..], p, h, Charge(c));
        assert Ahead(proc[h := Charge(c)], q, p) == Left(Charge(c)) + Ahead(proc, q[1..], p);
      }
    } else {
      StaleAppend(proc, q[1..], h, Recharge(c));
      AheadSame(proc, q[1..], p, h, Recharge(c));
      DispatchAhead(proc[h := Recharge(c)], q[1..] + [h], p);
      assert Left(c) == 0 && h != p;
    }
  }

  // ---- runs ----

  datatype Snap = Snap(proc: seq<Pcb>, q: seq<nat>)

  /** What may happen from a dispatch to the next trip round the loop: the
      process at the head keeps its place or leaves the queue, others join at
      the back, and no one who waits is touched. */
  ghost predicate Turned(s: Snap, t: Snap) {
    && InTable(s.proc, s.q) && InTable(t.proc, t.q) && s.q != []
    && (forall i <- s.q[1..] :: i < NPROC && t.proc[i] == s.proc[i])
    && (s.q[1..] <= t.q || (s.q <= t.q && Left(t.proc[s.q[0]]) <= Left(s.proc[s.q[0]])))
  }

  function After(t: Snap): Snap
    requires InTable(t.proc, t.q)
  {
    Snap(Dispatch(t.proc, t.q).proc, Dispatch(t.proc, t.q).q)
  }

  /** While a process runs, or none does, others may join at the back. */
  ghost predicate Joined(s: Snap, t: Snap) {
    && InTable(s.proc, s.q) && InTable(t.proc, t.q) && s.q <= t.q
    && forall i <- s.q :: i < NPROC && t.proc[i] == s.proc[i]
  }

  /** What the system calls and the clock do to the queue: others join it, or
      the loop goes on in state `t`, up to the next dispatch. */
  datatype Step = Join | Turn(t: Snap)

  ghost predicate Happens(s: Snap, e: Step, u: Snap) {
    match e
    case Join => Joined(s, u)
    case Turn(t) => Turned(s, t) && u == After(t)
  }

  /** A history of such steps, of any length and in any order. */
  ghost predicate IsRun(us: seq<Snap>, es: seq<Step>) {
    |us| == |es| + 1 && forall k :: 0 <= k < |es| ==> Happens(us[k], es[k], us[k + 1])
  }

  /** How many dispatches a history holds. */
  function Turns(es: seq<Step>): nat {
    if es == [] then 0 else (if es[0].Turn? then 1 else 0) + Turns(es[1..])
  }

  ghost predicate Picks(e: Step, p: nat) {
    e.Turn? && InTable(e.t.proc, e.t.q) && Dispatch(e.t.proc, e.t.q).ran == [p]
  }

  /** Some dispatch of the history picks `p`. */
  ghost predicate Runs(es: seq<Step>, p: nat) {
    exists k :: 0 <= k < |es| && Picks(es[k], p)
  }

  lemma RunsLater(es: seq<Step>, p: nat)
    requires es != [] && Runs(es[1..], p)
    ensures Runs(es, p)
  {
    var k :| 0 <= k < |es| - 1 && Picks(es[1..][k], p);
    assert Picks(es[k + 1], p);
  }

  lemma RestIsRun(us: seq<Snap>, es: seq<Step>)
    requires IsRun(us, es) && es != []
    ensures IsRun(us[1..], es[1..])
  {
    forall k | 0 <= k < |es| - 1
      ensures Happens(us[1..][k], es[1..][k], us[1..][k + 1])
    {
      assert Happens(us[k + 1], es[k + 1], us[k + 2]);
    }
  }

  lemma {:induction false} AheadPrefix(p0: seq<Pcb>, p1: seq<Pcb>, q: seq<nat>, q': seq<nat>, p: nat)
    requires InTable(p0, q) && InTable(p1, q') && q <= q' && p in q
    requires forall i <- q :: i < NPROC && p1[i] == p0[i]
    ensures Ahead(p1, q', p) == Ahead(p0, q, p)
  {
    assert q'[0] == q[0];
    if q[0] != p { AheadPrefix(p0, p1, q[1..], q'[1..], p); }
  }

  lemma TurnStays(s: Snap, t: Snap, p: nat)
    requires Turned(s, t) && p in s.q[1..] && s.q <= t.q && Left(t.proc[s.q[0]]) <= Left(s.proc[s.q[0]])
    ensures p in t.q && Ahead(t.proc, t.q, p) <= Ahead(s.proc, s.q, p)
  {
    hide Left;
    var rest := s.q[1..];
    assert rest <= t.q[1..] && t.q[0] == s.q[0];
    assert rest == t.q[1..|s.q|];
    AheadPrefix(s.proc, t.proc, rest, t.q[1..], p);
    assert s.q[0] !in rest;
  }

  lemma TurnAhead(s: Snap, t: Snap, p: nat)
    requires Turned(s, t) && p in s.q[1..]
    ensures p in t.q && p < NPROC && t.proc[p] == s.proc[p] && Ahead(t.proc, t.q, p) <= Ahead(s.proc, s.q, p)
  {
    hide Left, Ahead;
    if s.q[1..] <= t.q {
      assert s.q[1..] == t.q[..|s.q| - 1];
      AheadPrefix(s.proc, t.proc, s.q[1..], t.q, p);
      AheadFirst(s.proc, s.q, p);
    } else {
      TurnStays(s, t, p);
    }
  }

  lemma AheadFirst(proc: seq<Pcb>, q: seq<nat>, p: nat)
    requires InTable(proc, q) && q != [] && p in q[1..]
    ensures Ahead(proc, q[1..], p) <= Ahead(proc, q, p)
  {
  }

  lemma JoinAhead(s: Snap, u: Snap, p: nat)
    requires Joined(s, u) && s.q != [] && p in s.q[1..]
    ensures u.q != [] && p in u.q[1..] && p < NPROC && u.proc[p] == s.proc[p]
    ensures Ahead(u.proc, u.q, p) == Ahead(s.proc, s.q, p)
  {
    AheadPrefix(s.proc, u.proc, s.q, u.q, p);
    assert s.q[1..] == u.q[1..|s.q|];
  }

  /** Bounded waiting: in any history, a process that waits with ticks to use
      runs after no more dispatches of others than the ticks left in front of
      it. */
  lemma {:induction false} BoundedWait(us: seq<Snap>, es: seq<Step>, p: nat)
    requires IsRun(us, es) && InTable(us[0].proc, us[0].q) && us[0].q != []
    requires p in us[0].q[1..] && p < NPROC && Eligible(us[0].proc[p])
    requires Turns(es) > Ahead(us[0].proc, us[0].q, p)
    ensures Runs(es, p)
    decreases |es|
  {
    var s, u, e := us[0], us[1], es[0];
    assert Happens(s, e, u);
    RestIsRun(us, es);
    if e.Join? {
      JoinAhead(s, u, p);
      BoundedWait(us[1..], es[1..], p);
      RunsLater(es, p);
    } else {
      var t := e.t;
      TurnAhead(s, t, p);
      DispatchAhead(t.proc, t.q, p);
      var r := Dispatch(t.proc, t.q);
      if r.ran == [p] {
        assert Picks(es[0], p);
      } else {
        assert r.q[0] == r.ran[0] != p;
        BoundedWait(us[1..], es[1..], p);
        RunsLater(es, p);
      }
    }
  }

  /** The ticks in front of a process are at most those of the processes in
      front of it. */
  lemma {:induction false} AheadBound(proc: seq<Pcb>, q: seq<nat>, k: nat, n: nat)
    requires InTable(proc, q) && k < |q|
    requires forall j: nat :: j < k ==> proc[q[j]].timeslice + proc[q[j]].activesleepticks - proc[q[j]].activeticks <= n
    ensures Ahead(proc, q, q[k]) <= k * n
    decreases k
  {
    if k > 0 {
      AheadBound(proc, q[1..], k - 1, n);
      assert q[1..][k - 1] == q[k] && (k - 1) * n + n == k * n;
    }
  }

  /** If no process has more than `n` ticks in a round, the one in place `k`
      runs within `k * n` dispatches of others. */
  lemma WaitInPlace(us: seq<Snap>, es: seq<Step>, k: nat, n: nat)
    requires IsRun(us, es) && InTable(us[0].proc, us[0].q) && 0 < k < |us[0].q|
    requires Eligible(us[0].proc[us[0].q[k]]) && forall j: nat :: j < k ==>
      var c := us[0].proc[us[0].q[j]]; c.timeslice + c.activesleepticks - c.activeticks <= n
    requires Turns(es) > k * n
    ensures Runs(es, us[0].q[k])
  {
    AheadBound(us[0].proc, us[0].q, k, n);
    BoundedWait(us, es, us[0].q[k]);
  }

  // ---- quotas ----

  /** Ticks beyond the slice, which count as compensation. */
  function Extra(c: Pcb, ticks: nat): nat {
    if ticks > c.timeslice then ticks - c.timeslice else 0
  }

  ghost predicate Yields(s: Snap, e: Step) {
    e.Turn? ==>
      && s.q != [] && s.q[0] < |s.proc| && s.q <= e.t.q && s.q[0] < |e.t.proc|
      && e.t.proc[s.q[0]] == s.proc[s.q[0]].(state := RUNNABLE)
  }

  /** In every turn the process at the head only yields. */
  ghost predicate Stays(us: seq<Snap>, es: seq<Step>) {
    |us| == |es| + 1 && forall k :: 0 <= k < |es| ==> Yields(us[k], es[k])
  }

  lemma RestStays(us: seq<Snap>, es: seq<Step>)
    requires Stays(us, es) && es != []
    ensures Stays(us[1..], es[1..]) && Yields(us[0], es[0])
  {
    forall k | 0 <= k < |es| - 1
      ensures Yields(us[1..][k], es[1..][k])
    {
      assert Yields(us[k + 1], es[k + 1]);
    }
  }

  /** A process that stays runnable is dispatched until its slice and its
      compensation are used up, and counts what lies beyond the slice. */
  lemma {:induction false} Quota(us: seq<Snap>, es: seq<Step>)
    requires IsRun(us, es) && Stays(us, es) && InTable(us[0].proc, us[0].q) && us[0].q != []
    requires var c := us[0].proc[us[0].q[0]];
      c.state == RUNNING && c.activeticks + Turns(es) <= c.timeslice + c.activesleepticks
    ensures var h, n, e := us[0].q[0], Turns(es), us[|es|];
      var c := us[0].proc[h];
      && InTable(e.proc, e.q) && e.q != [] && e.q[0] == h
      && e.proc[h] == c.(schedticks := c.schedticks + n, activeticks := c.activeticks + n,
           compticks := c.compticks + Extra(c, c.activeticks + n) - Extra(c, c.activeticks))
    decreases |es|
  {
    if es != [] {
      var s, u, e := us[0], us[1], es[0];
      assert Happens(s, e, u);
      RestIsRun(us, es);
      RestStays(us, es);
      if e.Join? {
        assert u.q[0] == s.q[0] && s.q[0] in s.q;
      } else {
        assert e.t.q[0] == s.q[0] && Eligible(e.t.proc[e.t.q[0]]);
      }
      Quota(us[1..], es[1..]);
    }
  }

  /** A whole round: from its first tick a process that stays runnable gets
      exactly its slice and its compensation, and the latter is what it counts
      as compensation. A negative one, from a sleep of a negative number of
      ticks, makes the round shorter. */
  lemma FullRound(us: seq<Snap>, es: seq<Step>)
    requires IsRun(us, es) && Stays(us, es) && InTable(us[0].proc, us[0].q) && us[0].q != []
    requires var c := us[0].proc[us[0].q[0]];
      c.state == RUNNING && c.activeticks == 1 && Turns(es) + 1 == c.timeslice + c.activesleepticks
    ensures var h, e := us[0].q[0], us[|es|];
      var c := us[0].proc[h];
      && InTable(e.proc, e.q) && e.q != [] && e.q[0] == h
      && e.proc[h].activeticks == c.timeslice + c.activesleepticks
      && e.proc[h].compticks == c.compticks + Max(c.activesleepticks, 0)
      && !Eligible(e.proc[h].(state := RUNNABLE))
  {
    Quota(us, es);
  }

  /** With nothing left, it goes behind every other process that is eligible,
      and its round counters start again. */
  lemma {:induction false} EndOfRound(proc: seq<Pcb>, q: seq<nat>, p: nat)
    requires InTable(proc, q) && q != [] && proc[q[0]].state == RUNNABLE && !Eligible(proc[q[0]])
    requires p in q && p < NPROC && Eligible(proc[p])
    ensures var h, r := q[0], Dispatch(proc, q);
      && r.ran != [] && r.ran[0] != h && h in r.q && h < |r.proc|
      && r.proc[h] == proc[h].(switches := proc[h].switches + 1, activesleepticks := 0, activeticks := 0)
  {
    var h, c := q[0], Recharge(proc[q[0]]);
    StaleAppend(proc, q[1..], h, c);
    Behind(proc[h := c], q[1..] + [h], |q| - 1, p);
  }

  /** An eligible process at the front half of the queue runs before the one at
      position `k`, which keeps its counters. */
  lemma {:induction false} Behind(proc: seq<Pcb>, q: seq<nat>, k: nat, p: nat)
    requires InTable(proc, q) && k < |q| && p in q[..k] && p < NPROC && Eligible(proc[p]) && Eligible(proc[q[k]])
    ensures var r := Dispatch(proc, q);
      r.ran != [] && r.ran[0] != q[k] && q[k] in r.q && q[k] < |r.proc| && r.proc[q[k]] == proc[q[k]]
    decreases Stale(proc, q)
  {
    hide Charge;
    var h, c := q[0], proc[q[0]];
    assert q[0] in q[..k] && q[k] != h;
    if c.state != RUNNABLE {
      assert q[1..][..k - 1] == q[..k][1..];
      Behind(proc, q[1..], k - 1, p);
    } else if !Eligible(c) {
      StaleAppend(proc, q[1..], h, Recharge(c));
      assert (q[1..] + [h])[..k - 1] == q[..k][1..];
      Behind(proc[h := Recharge(c)], q[1..] + [h], k - 1, p);
    }
  }

  /** No process that can run is lost. */
  lemma {:induction false} DispatchKeeps(proc: seq<Pcb>, q: seq<nat>, p: nat)
    requires InTable(proc, q) && p in q && p < NPROC && proc[p].state == RUNNABLE
    ensures p in Dispatch(proc, q).q
    decreases Stale(proc, q)
  {
    var h, c := q[0], proc[q[0]];
    if c.state != RUNNABLE {
      DispatchKeeps(proc, q[1..], p);
    } else if !Eligible(c) {
      StaleAppend(proc, q[1..], h, Recharge(c));
      DispatchKeeps(proc[h := Recharge(c)], q[1..] + [h], p);
    }
  }

  /** The loop does not touch a process that is not listed. */
  lemma {:induction false} DispatchOthers(proc: seq<Pcb>, q: seq<nat>, p: nat)
    requires InTable(proc, q) && p !in q && p < NPROC
    ensures var r := Dispatch(proc, q); p !in r.q && p < |r.proc| && r.proc[p] == proc[p]
    decreases Stale(proc, q)
  {
    if q != [] {
      var h, c := q[0], proc[q[0]];
      if c.state != RUNNABLE {
        DispatchOthers(proc, q[1..], p);
      } else if !Eligible(c) {
        StaleAppend(proc, q[1..], h, Recharge(c));
        DispatchOthers(proc[h := Recharge(c)], q[1..] + [h], p);
      }
    }
  }
}
