/** The process table and its run queue as they change: a linked list of
    processes with the running one at its head. */
module Scheduler {
  import opened Blocks
  import opened Params
  import opened SchedulerSpec

  const NIL: int := -1
  const TICKS := 0                   // the channel &ticks

  /** The list from `head` to `tail` is `q`. */
  ghost predicate Linked(next: seq<int>, head: int, tail: int, q: seq<nat>) {
    && |next| == NPROC && (forall k :: 0 <= k < |q| ==> q[k] < NPROC) && Distinct(q)
    && (if q == [] then head == NIL else head == q[0] && tail == q[|q| - 1])
    && forall k :: 0 <= k < |q| - 1 ==> next[q[k]] == q[k + 1]
  }

  /** The queue is exactly the runnable and the running processes; those that
      wait have not begun their round. */
  ghost predicate Exact(proc: seq<Pcb>, q: seq<nat>) {
    && InTable(proc, q)
    && (forall i: nat :: i < NPROC ==> (i in q <==> proc[i].state in {RUNNABLE, RUNNING}))
    && (forall k :: 1 <= k < |q| ==> proc[q[k]].state == RUNNABLE && proc[q[k]].activeticks == 0)
    && (q != [] ==> proc[q[0]].state == RUNNING || proc[q[0]].activeticks == 0)
    && (forall i: nat :: i < NPROC && proc[i].state == SLEEPING ==> proc[i].timeslice >= 1)
  }

  class Ptable {
    var proc: seq<Pcb>
    var next: seq<int>
    var head: int
    var tail: int
    var ticks: Word
    ghost var q: seq<nat>

    /** No process yet. */
    constructor ()
      ensures Valid() && q == [] && ticks == 0
    {
      proc := seq(NPROC, _ => Pcb(UNUSED, 0, 0, 0, 0, 0, 0, 0, 0, 0));
      next := seq(NPROC, _ => NIL);
      head, tail, ticks, q := NIL, NIL, 0, [];
    }

    ghost predicate Listed()
      reads `next, `head, `tail, `q
    {
      Linked(next, head, tail, q)
    }

    /** What holds whenever ptable.lock is free. */
    ghost predicate Valid()
      reads this
    {
      Listed() && Exact(proc, q)
    }

    method Push(p: nat)
      requires Listed() && p < NPROC && p !in q
      modifies `next, `head, `tail, `q
      ensures Listed() && q == old(q) + [p]
    {
      if head == NIL {
        head, tail := p, p;
        next := next[p := NIL];
      } else {
        next := next[tail := p];
        next := next[p := NIL];
        tail := p;
      }
      q := q + [p];
    }

    method Pop()
      requires Listed()
      modifies `head, `tail, `q
      ensures Listed() && q == if old(q) == [] then [] else old(q)[1..]
    {
      if head == NIL { return; }
      if head == tail {
        head, tail := NIL, NIL;
      } else {
        head := next[head];
      }
      q := q[1..];
    }

    /** The process gets a tick. */
    method Give(p: nat)
      requires |proc| == NPROC && p < NPROC
      modifies `proc
      ensures proc == old(proc)[p := Charge(old(proc)[p])]
    {
      proc := proc[p := proc[p].(schedticks := proc[p].schedticks + 1, activeticks := proc[p].activeticks + 1)];
      if proc[p].activeticks > proc[p].timeslice {
        proc := proc[p := proc[p].(compticks := proc[p].compticks + 1)];
      }
      proc := proc[p := proc[p].(state := RUNNING)];
    }

    /** The process at the head has had its round. */
    method Rotate(p: nat)
      requires Listed() && InTable(proc, q) && q != [] && q[0] == p && proc[p].state == RUNNABLE
      modifies `proc, `next, `head, `tail, `q
      ensures Listed() && q == old(q)[1..] + [p] && proc == old(proc)[p := Recharge(old(proc)[p])]
    {
      hide Linked;
      proc := proc[p := proc[p].(switches := proc[p].switches + 1, activesleepticks := 0)];
      Pop();
      if proc[p].state != SLEEPING {
        Push(p);
        proc := proc[p := proc[p].(activeticks := 0)];
      }
    }

    /** The loop of scheduler up to the next dispatch. */
    method Schedule() returns (ran: int)
      requires Listed() && InTable(proc, q)
      modifies `proc, `next, `head, `tail, `q
      ensures Listed()
      ensures var r := Dispatch(old(proc), old(q));
        proc == r.proc && q == r.q && ran == if r.ran == [] then NIL else r.ran[0]
    {
      hide Linked, Stale, Charge, Recharge;
      while true
        invariant Listed() && InTable(proc, q) && Dispatch(proc, q) == Dispatch(old(proc), old(q))
        decreases Stale(proc, q)
      {
        HeadIs(next, head, tail, q);
        if head == NIL { return NIL; }
        var p := head;
        if !Eligible(proc[p]) { StaleNext(proc, q); }
        if proc[p].state != RUNNABLE {
          Pop();
          continue;
        }
        if proc[p].activeticks < proc[p].timeslice + proc[p].activesleepticks {
          Give(p);
          return p;
        }
        Rotate(p);
      }
    }

    ghost function S(): Snap
      reads `proc, `q
    {
      Snap(proc, q)
    }

    /** A process becomes runnable. */
    method Ready(p: nat)
      requires Valid() && p < NPROC && proc[p].state != RUNNABLE && proc[p].state != RUNNING && proc[p].timeslice >= 1
      modifies `proc, `next, `head, `tail, `q
      ensures Valid() && q == old(q) + [p] && proc == old(proc)[p := old(proc)[p].(state := RUNNABLE, activeticks := 0)]
      ensures Joined(old(S()), S())
    {
      hide Linked, Exact, Joined;
      ExactTable(proc, q);
      JoinExact(proc, q, p);
      proc := proc[p := proc[p].(state := RUNNABLE)];
      Push(p);
      proc := proc[p := proc[p].(activeticks := 0)];
      assert proc == old(proc)[p := old(proc)[p].(state := RUNNABLE, activeticks := 0)];
    }

    /** A tick goes by for a sleeper. */
    method CountSleep(p: nat)
      requires Valid() && p < NPROC && proc[p].state == SLEEPING
      modifies `proc
      ensures Valid() && proc == old(proc)[p := proc[p]] && Joined(old(S()), S())
      ensures proc[p] == old(proc)[p].(sleepticks := old(proc)[p].sleepticks + 1)
    {
      hide Linked;
      proc := proc[p := proc[p].(sleepticks := proc[p].sleepticks + 1)];
    }

    /** The body of the loop of wakeup1. */
    method WakeOne(i: nat, chan: nat)
      requires Valid() && i < NPROC
      modifies `proc, `next, `head, `tail, `q
      ensures Valid() && Joined(old(S()), S()) && |old(proc)| == NPROC
      ensures proc == old(proc)[i := Roused(old(proc)[i], chan, ticks)]
      ensures q == if Due(old(proc)[i], chan, ticks) then old(q) + [i] else old(q)
    {
      hide Linked, Exact, Joined;
      ExactTable(proc, q);
      if proc[i].state == SLEEPING && proc[i].chan == chan {
        ghost var s := S();
        if chan == TICKS {
          if ticks < proc[i].sleepdeadline {
            CountSleep(i);
          } else {
            CountSleep(i);
            ghost var t := S();
            Ready(i);
            JoinedTwice(s, t, S());
          }
        } else {
          Ready(i);
        }
      }
    }

    /** wakeup1: those asleep on the channel join the queue in the order of the
        table, except that on the clock's channel only those past their deadline
        do and the others count a tick. Their compensation stays. */
    method Wakeup1(chan: nat)
      requires Valid()
      modifies `proc, `next, `head, `tail, `q
      ensures Valid() && Joined(old(S()), S()) && |old(proc)| == NPROC
      ensures proc == RousedTo(old(proc), chan, ticks, NPROC)
      ensures q == old(q) + DueBefore(old(proc), chan, ticks, NPROC)
      ensures forall k: nat :: k < NPROC && old(proc)[k].state == SLEEPING && old(proc)[k].chan == chan ==>
        if chan != TICKS || ticks >= old(proc)[k].sleepdeadline
        then proc[k].state == RUNNABLE && proc[k].activeticks == 0 && k in q && k !in old(q)
        else proc[k].state == SLEEPING && proc[k].activeticks == old(proc)[k].activeticks && k !in q
      ensures forall k: nat :: k < NPROC ==> proc[k] == old(proc)[k].(
        state := proc[k].state, activeticks := proc[k].activeticks, sleepticks := proc[k].sleepticks)
      ensures forall k: nat :: k < NPROC ==>
        proc[k].sleepticks == old(proc)[k].sleepticks
          + if old(proc)[k].state == SLEEPING && old(proc)[k].chan == chan == TICKS then 1 else 0
      ensures forall k: nat :: k < NPROC && (old(proc)[k].state != SLEEPING || old(proc)[k].chan != chan) ==>
        proc[k] == old(proc)[k]
    {
      hide Linked, Exact, Joined, Due, Roused, RousedTo, DueBefore, WokeTo, Valid;
      ValidTable();
      WokeNone(S(), chan, ticks);
      var i := 0;
      while i < NPROC
        invariant i <= NPROC && Valid() && WokeTo(old(S()), S(), chan, ticks, i)
      {
        ghost var s := S();
        ValidTable();
        WakeOne(i, chan);
        WokeNext(old(S()), s, S(), chan, ticks, i);
        i := i + 1;
      }
      WokeAll(old(S()), S(), chan, ticks);
      WokeMeans(old(proc), old(q), chan, ticks);
    }

    lemma ValidTable()
      requires Valid()
      ensures Exact(proc, q) && |proc| == NPROC
    {
    }

    ghost predicate Busy()
      reads `proc, `q
    {
      q != [] && |proc| == NPROC && q[0] < NPROC && proc[q[0]].state == RUNNING
    }

    method IsBusy() returns (b: bool)
      requires Valid()
      ensures b <==> Busy()
    {
      HeadIs(next, head, tail, q);
      return head != NIL && proc[head].state == RUNNING;
    }

    /** The clock interrupt's part: time goes on, and sleepers wake. */
    method Tick()
      requires Valid()
      modifies this
      ensures Valid() && Joined(old(S()), S()) && ticks == (old(ticks) + 1) % UINT
    {
      ticks := (ticks + 1) % UINT;
      Wakeup1(TICKS);
    }

    /** sched: the loop goes on with the state that the process has left. */
    method Sched() returns (ran: int)
      requires Listed() && Handed(proc, q)
      modifies `proc, `next, `head, `tail, `q
      ensures Valid() && (ran == NIL <==> q == []) && (q != [] ==> Busy() && ran == q[0])
      ensures Looped(old(S()), S())
    {
      hide Linked, Dispatch;
      DispatchExact(proc, q);
      HandedTable(proc, q);
      ran := Schedule();
    }

    /** The loop on an idle processor, once a process has become runnable. */
    method Resume() returns (ran: int)
      requires Valid() && !Busy()
      modifies `proc, `next, `head, `tail, `q
      ensures Valid() && (ran == NIL <==> q == []) && (q != [] ==> Busy() && ran == q[0])
      ensures if old(q) == [] then S() == old(S()) else Happens(old(S()), Turn(old(S())), S())
    {
      hide Linked;
      IdleHands(proc, q);
      ran := Sched();
    }

    /** yield: the process keeps its place, and the loop goes on. */
    method Yield() returns (ran: int)
      requires Valid() && Busy()
      modifies `proc, `next, `head, `tail, `q
      ensures Valid() && ran != NIL && Busy() && ran == q[0]
      ensures var t := Snap(old(proc)[old(q)[0] := old(proc)[old(q)[0]].(state := RUNNABLE)], old(q));
        Happens(old(S()), Turn(t), S())
    {
      hide Linked;
      HeadIs(next, head, tail, q);
      YieldHands(proc, q);
      proc := proc[head := proc[head].(state := RUNNABLE)];
      DispatchKeeps(proc, q, q[0]);
      ran := Sched();
    }

    /** sleep: the process is asleep and off the queue, and the loop goes on. */
    method Sleep(chan: nat) returns (ran: int)
      requires Valid() && Busy()
      modifies `proc, `next, `head, `tail, `q
      ensures Valid() && (ran == NIL <==> q == []) && (q != [] ==> Busy() && ran == q[0])
      ensures var h, c := old(q)[0], old(proc)[old(q)[0]].(chan := chan, state := SLEEPING);
        && h !in q && h < |proc| && proc[h] == c
        && Happens(old(S()), Turn(Snap(old(proc)[h := c], old(q)[1..])), S())
    {
      hide Linked, Exact, Handed, Turned, InTable, Dispatch, Stale;
      HeadIs(next, head, tail, q);
      ExactTable(proc, q);
      ghost var s, h := S(), head;
      proc := proc[head := proc[head].(chan := chan, state := SLEEPING)];
      SleepHands(s.proc, s.q, proc);
      Pop();
      DispatchOthers(proc, q, h);
      ran := Sched();
    }

    /** The fields that sys_sleep and sleep set. */
    method Nap(p: nat, n: int)
      requires |proc| == NPROC && p < NPROC
      modifies `proc
      ensures proc == old(proc)[p := Napping(old(proc)[p], n, ticks)]
      ensures proc[p].state == SLEEPING && proc[p].timeslice == old(proc)[p].timeslice
    {
      proc := proc[p := proc[p].(sleepdeadline := (n + ticks) % UINT, activesleepticks := n, activeticks := 0)];
      proc := proc[p := proc[p].(chan := TICKS, state := SLEEPING)];
    }

    /** sys_sleep: the same; the deadline is set, modulo 2^32, and the ticks
        slept for are credited to the round that follows. A negative number,
        which argint lets through, shortens that round. */
    method SysSleep(n: int) returns (ran: int)
      requires Valid() && Busy()
      modifies `proc, `next, `head, `tail, `q
      ensures Valid() && (ran == NIL <==> q == []) && (q != [] ==> Busy() && ran == q[0])
      ensures var h, c := old(q)[0], Napping(old(proc)[old(q)[0]], n, ticks);
        && h !in q && h < |proc| && proc[h] == c
        && Happens(old(S()), Turn(Snap(old(proc)[h := c], old(q)[1..])), S())
      ensures var h, c := old(q)[0], old(proc)[old(q)[0]];
        h < |proc| && proc[h] == c.(state := SLEEPING, chan := 0, sleepdeadline := (n + ticks) % UINT,
          activesleepticks := n, activeticks := 0)
    {
      hide Linked, Exact, Handed, Turned, InTable, Dispatch, Stale;
      HeadIs(next, head, tail, q);
      ExactTable(proc, q);
      ghost var s, h := S(), head;
      Nap(head, n);
      ghost var c := s.proc[h];
      assert proc[h] == c.(state := SLEEPING, chan := 0, sleepdeadline := (n + ticks) % UINT,
        activesleepticks := n, activeticks := 0);
      hide Napping;
      SleepHands(s.proc, s.q, proc);
      Pop();
      DispatchOthers(proc, q, h);
      ran := Sched();
    }

    /** exit, once the parent has been woken: the zombie is left on the queue
        for the loop to drop. */
    method Exit() returns (ran: int)
      requires Valid() && Busy()
      modifies `proc, `next, `head, `tail, `q
      ensures Valid() && (ran == NIL <==> q == []) && (q != [] ==> Busy() && ran == q[0])
      ensures var h, c := old(q)[0], old(proc)[old(q)[0]].(state := ZOMBIE);
        && h !in q && h < |proc| && proc[h] == c
        && Happens(old(S()), Turn(Snap(old(proc)[h := c], old(q))), S())
    {
      hide Linked, Exact, Handed, Turned, InTable, Dispatch, Stale;
      HeadIs(next, head, tail, q);
      ExactTable(proc, q);
      ghost var s, h := S(), head;
      proc := proc[head := proc[head].(state := ZOMBIE)];
      ExitHands(s.proc, q);
      DispatchOthers(proc, q[1..], h);
      ran := Sched();
    }

    /** What wait does to a child that has exited: its slot can be used again. */
    method Reap(p: nat)
      requires Valid()
      modifies `proc
      ensures Valid() && Joined(old(S()), S()) && |old(proc)| == NPROC
      ensures proc ==
        if p < NPROC && old(proc)[p].state == ZOMBIE then old(proc)[p := old(proc)[p].(state := UNUSED)] else old(proc)
    {
      hide Linked, Exact, Joined;
      ExactTable(proc, q);
      if p < NPROC && proc[p].state == ZOMBIE {
        UnusedKeeps(S(), p, proc[p].(state := UNUSED));
        proc := proc[p := proc[p].(state := UNUSED)];
      }
    }

    /** The scan of allocproc. */
    method FindUnused() returns (i: nat)
      requires |proc| == NPROC
      ensures i <= NPROC && (i < NPROC ==> proc[i].state == UNUSED)
      ensures forall k: nat :: k < i ==> proc[k].state != UNUSED
    {
      i := 0;
      while i < NPROC && proc[i].state != UNUSED
        invariant i <= NPROC && forall k: nat :: k < i ==> proc[k].state != UNUSED
      {
        i := i + 1;
      }
    }

    /** fork2: a child with its own slice joins the queue. `copied` says whether
        copyuvm found memory; without it the slot stays unused, its counters
        cleared. */
    method Fork2(slice: int, copied: bool) returns (child: int)
      requires Valid()
      modifies `proc, `next, `head, `tail, `q
      ensures Valid() && Joined(old(S()), S()) && |old(proc)| == NPROC
      ensures child == NIL <==> slice < 1 || !copied || forall i: nat :: i < NPROC ==> old(proc)[i].state != UNUSED
      ensures child == NIL ==> q == old(q) && forall i: nat :: i < NPROC ==>
        proc[i] == old(proc)[i] || (old(proc)[i].state == UNUSED && proc[i] == Cleared(old(proc)[i]).(state := UNUSED))
      ensures child != NIL ==> 0 <= child < NPROC && old(proc)[child].state == UNUSED && q == old(q) + [child as nat]
      ensures child != NIL ==>
        proc == old(proc)[child := Cleared(old(proc)[child]).(state := RUNNABLE, timeslice := slice)]
      ensures child != NIL ==>
        proc[child] == old(proc)[child].(state := RUNNABLE, timeslice := slice, compticks := 0, schedticks := 0,
          sleepticks := 0, switches := 0, sleepdeadline := 0, activeticks := 0, activesleepticks := 0)
    {
      hide Linked, Exact, Joined;
      ExactTable(proc, q);
      if slice < 1 { return NIL; }
      var i := FindUnused();
      if i == NPROC { return NIL; }
      ghost var s := S();
      if !copied {
        UnusedKeeps(s, i, Cleared(proc[i]).(state := UNUSED));
        proc := proc[i := Cleared(proc[i]).(state := UNUSED)];
        return NIL;
      }
      UnusedKeeps(s, i, Cleared(proc[i]).(timeslice := slice));
      proc := proc[i := Cleared(proc[i]).(timeslice := slice)];
      ghost var t := S();
      Ready(i);
      JoinedTwice(s, t, S());
      return i;
    }
  }

  /** What may happen to the table; `Idle` is the loop of scheduler without a
      process that has just run. */
  datatype Call =
    | Yields | Sleeps(chan: nat) | Naps(n: int) | Exits
    | Ticks | Wakes(chan: nat) | Forks(slice: int, copied: bool) | Reaps(p: nat) | Idle

  /** One such call, in a state where it can happen, is a step of a history. */
  method Perform(pt: Ptable, c: Call) returns (ghost es: seq<Step>)
    requires pt.Valid()
    modifies pt
    ensures pt.Valid() && |es| <= 1 && if es == [] then pt.S() == old(pt.S()) else Happens(old(pt.S()), es[0], pt.S())
  {
    hide Ptable.Valid, Happens;
    es := [];
    ghost var s := pt.S();
    var ran;
    var busy := pt.IsBusy();
    match c {
      case Yields => if busy {
        es := [Turn(Snap(s.proc[s.q[0] := s.proc[s.q[0]].(state := RUNNABLE)], s.q))];
        ran := pt.Yield();
      }
      case Sleeps(chan) => if busy {
        es := [Turn(Snap(s.proc[s.q[0] := s.proc[s.q[0]].(chan := chan, state := SLEEPING)], s.q[1..]))];
        ran := pt.Sleep(chan);
      }
      case Naps(n) => if busy {
        es := [Turn(Snap(s.proc[s.q[0] := Napping(s.proc[s.q[0]], n, pt.ticks)], s.q[1..]))];
        ran := pt.SysSleep(n);
      }
      case Exits => if busy {
        es := [Turn(Snap(s.proc[s.q[0] := s.proc[s.q[0]].(state := ZOMBIE)], s.q))];
        ran := pt.Exit();
      }
      case Idle => if !busy {
        if pt.q != [] { es := [Turn(s)]; }
        ran := pt.Resume();
      }
      case Ticks => es := [Join]; pt.Tick(); JoinHappens(s, pt.S());
      case Wakes(chan) => es := [Join]; pt.Wakeup1(chan); JoinHappens(s, pt.S());
      case Reaps(p) => es := [Join]; pt.Reap(p); JoinHappens(s, pt.S());
      case Forks(slice, copied) => es := [Join]; ran := pt.Fork2(slice, copied); JoinHappens(s, pt.S());
    }
  }

  lemma JoinHappens(s: Snap, u: Snap)
    ensures Joined(s, u) ==> Happens(s, Join, u)
  {
  }

  lemma IsRunMore(us: seq<Snap>, es: seq<Step>, e: Step, u: Snap)
    requires IsRun(us, es) && Happens(us[|es|], e, u)
    ensures IsRun(us + [u], es + [e])
  {
    forall k | 0 <= k < |es| + 1
      ensures Happens((us + [u])[k], (es + [e])[k], (us + [u])[k + 1])
    {
      if k < |es| { assert Happens(us[k], es[k], us[k + 1]); }
    }
  }

  /** It waits behind the head of the queue, with ticks to use. */
  ghost predicate Waiting(s: Snap, p: nat) {
    InTable(s.proc, s.q) && s.q != [] && p in s.q[1..] && p < NPROC && Eligible(s.proc[p])
  }

  /** Whatever calls are made, in whatever order, they are a history, and so a
      process that waits runs after no more dispatches than the ticks left in
      front of it. */
  method Drive(pt: Ptable, cs: seq<Call>) returns (ghost us: seq<Snap>, ghost es: seq<Step>)
    requires pt.Valid()
    modifies pt
    ensures pt.Valid() && IsRun(us, es) && us[0] == old(pt.S()) && us[|es|] == pt.S()
    ensures forall p: nat :: Waiting(us[0], p) && Turns(es) > Ahead(us[0].proc, us[0].q, p) ==> Runs(es, p)
  {
    hide Ptable.Valid, Happens, IsRun, Runs, Ahead, Turns, Eligible;
    us, es := [pt.S()], [];
    assert IsRun(us, es) by { NoStep(pt.S()); }
    var i := 0;
    while i < |cs|
      invariant i <= |cs| && pt.Valid() && |us| == |es| + 1 && IsRun(us, es) && us[0] == old(pt.S())
      invariant us[|es|] == pt.S()
    {
      ghost var e := Perform(pt, cs[i]);
      if e != [] {
        IsRunMore(us, es, e[0], pt.S());
        us, es := us + [pt.S()], es + [e[0]];
      }
      i := i + 1;
    }
    forall p: nat | Waiting(us[0], p) && Turns(es) > Ahead(us[0].proc, us[0].q, p)
      ensures Runs(es, p)
    {
      BoundedWait(us, es, p);
    }
  }

  lemma NoStep(s: Snap)
    ensures IsRun([s], [])
  {
  }

  /** What allocproc does to the slot it finds. */
  function Cleared(c: Pcb): Pcb {
    c.(state := EMBRYO, compticks := 0, schedticks := 0, sleepticks := 0, switches := 0, sleepdeadline := 0,
       activeticks := 0, activesleepticks := 0)
  }

  lemma UnusedKeeps(s: Snap, i: nat, c: Pcb)
    requires Exact(s.proc, s.q) && i < NPROC && s.proc[i].state in {UNUSED, ZOMBIE} && c.state in {UNUSED, EMBRYO}
    ensures Exact(s.proc[i := c], s.q) && Joined(s, Snap(s.proc[i := c], s.q)) && i !in s.q
  {
  }

  /** A process that goes to sleep for `n` ticks. */
  function Napping(c: Pcb, n: int, ticks: Word): Pcb {
    c.(sleepdeadline := (n + ticks) % UINT, activesleepticks := n, activeticks := 0, chan := TICKS, state := SLEEPING)
  }

  /** The loop has gone on from `t`, up to the next dispatch. */
  ghost predicate Looped(t: Snap, u: Snap) {
    InTable(t.proc, t.q) && u == After(t)
  }

  lemma IdleHands(proc: seq<Pcb>, q: seq<nat>)
    requires Exact(proc, q) && (q != [] ==> proc[q[0]].state != RUNNING)
    ensures Handed(proc, q) && (q != [] ==> Turned(Snap(proc, q), Snap(proc, q)))
  {
  }

  /** What the loop of scheduler is given: all who can run are listed, no one
      runs, and those behind the head wait for their round. */
  ghost predicate Handed(proc: seq<Pcb>, q: seq<nat>) {
    && InTable(proc, q)
    && (forall i: nat :: i < NPROC ==> proc[i].state != RUNNING && (proc[i].state == RUNNABLE ==> i in q))
    && (forall k :: 1 <= k < |q| ==> proc[q[k]].state == RUNNABLE && proc[q[k]].activeticks == 0)
    && (forall i: nat :: i < NPROC && proc[i].state == SLEEPING ==> proc[i].timeslice >= 1)
  }

  lemma YieldHands(proc: seq<Pcb>, q: seq<nat>)
    requires Exact(proc, q) && q != [] && proc[q[0]].state == RUNNING
    ensures var p' := proc[q[0] := proc[q[0]].(state := RUNNABLE)];
      Handed(p', q) && Turned(Snap(proc, q), Snap(p', q))
  {
  }

  lemma SleepHands(proc: seq<Pcb>, q: seq<nat>, p': seq<Pcb>)
    requires Exact(proc, q) && q != [] && proc[q[0]].state == RUNNING && |p'| == NPROC
    requires forall i: nat :: i < NPROC && i != q[0] ==> p'[i] == proc[i]
    requires p'[q[0]].state == SLEEPING && p'[q[0]].timeslice == proc[q[0]].timeslice
    ensures Handed(p', q[1..]) && Turned(Snap(proc, q), Snap(p', q[1..])) && InTable(p', q[1..]) && q[0] !in q[1..]
    ensures q[0] < NPROC
  {
  }

  lemma ExitHands(proc: seq<Pcb>, q: seq<nat>)
    requires Exact(proc, q) && q != [] && proc[q[0]].state == RUNNING
    ensures q[0] !in q[1..] && q[0] < NPROC
    ensures var p' := proc[q[0] := proc[q[0]].(state := ZOMBIE)];
      && Handed(p', q) && Turned(Snap(proc, q), Snap(p', q))
      && InTable(p', q[1..]) && Dispatch(p', q) == Dispatch(p', q[1..])
  {
  }

  lemma Drops(proc: seq<Pcb>, q: seq<nat>)
    requires Handed(proc, q) && q != [] && proc[q[0]].state != RUNNABLE
    ensures Handed(proc, q[1..])
  {
    forall i: nat | i < NPROC && proc[i].state == RUNNABLE
      ensures i in q[1..]
    {
      var k :| 0 <= k < |q| && q[k] == i;
      assert q[1..][k - 1] == i;
    }
  }

  lemma Rotates(proc: seq<Pcb>, q: seq<nat>)
    requires Handed(proc, q) && q != [] && proc[q[0]].state == RUNNABLE
    ensures Handed(proc[q[0] := Recharge(proc[q[0]])], q[1..] + [q[0]])
  {
    var h, q' := q[0], q[1..] + [q[0]];
    var p' := proc[h := Recharge(proc[h])];
    forall i: nat | i < NPROC && p'[i].state == RUNNABLE
      ensures i in q'
    {
      var k :| 0 <= k < |q| && q[k] == i;
      assert k > 0 ==> q'[k - 1] == i;
      assert q'[|q| - 1] == h;
    }
    assert forall k :: 0 <= k < |q'| ==> q'[k] == if k < |q| - 1 then q[k + 1] else h;
  }

  lemma Starts(proc: seq<Pcb>, q: seq<nat>)
    requires Handed(proc, q) && q != [] && proc[q[0]].state == RUNNABLE
    ensures Exact(proc[q[0] := Charge(proc[q[0]])], q)
  {
    var p' := proc[q[0] := Charge(proc[q[0]])];
    forall i: nat | i < NPROC
      ensures i in q <==> p'[i].state in {RUNNABLE, RUNNING}
    {
      if i in q {
        var k :| 0 <= k < |q| && q[k] == i;
        assert k >= 1 ==> proc[q[k]].state == RUNNABLE;
      }
    }
  }

  /** Out of the loop of scheduler, the queue is exact again. */
  lemma {:induction false} DispatchExact(proc: seq<Pcb>, q: seq<nat>)
    requires Handed(proc, q)
    ensures var r := Dispatch(proc, q);
      Exact(r.proc, r.q) && (r.q != [] ==> r.q[0] < NPROC && r.proc[r.q[0]].state == RUNNING)
    decreases Stale(proc, q)
  {
    hide Exact, Handed;
    HandedTable(proc, q);
    if q == [] {
      Idle(proc);
    } else {
      var h, c := q[0], proc[q[0]];
      if c.state != RUNNABLE {
        Drops(proc, q);
        DispatchExact(proc, q[1..]);
      } else if Eligible(c) {
        Starts(proc, q);
      } else {
        Rotates(proc, q);
        StaleAppend(proc, q[1..], h, Recharge(c));
        DispatchExact(proc[h := Recharge(c)], q[1..] + [h]);
      }
    }
  }

  lemma HandedTable(proc: seq<Pcb>, q: seq<nat>)
    requires Handed(proc, q)
    ensures InTable(proc, q)
  {
  }

  lemma Idle(proc: seq<Pcb>)
    requires Handed(proc, [])
    ensures Exact(proc, [])
  {
  }

  /** Asleep on the channel, and not waiting for a later tick. */
  predicate Due(c: Pcb, chan: nat, ticks: Word) {
    c.state == SLEEPING && c.chan == chan && (chan == TICKS ==> ticks >= c.sleepdeadline)
  }

  /** What wakeup1 does to one process. */
  function Roused(c: Pcb, chan: nat, ticks: Word): Pcb {
    if c.state != SLEEPING || c.chan != chan then c
    else
      var c1 := if chan == TICKS then c.(sleepticks := c.sleepticks + 1) else c;
      if Due(c, chan, ticks) then c1.(state := RUNNABLE, activeticks := 0) else c1
  }

  /** The table when wakeup1 has been past the processes before `i`. */
  function RousedTo(proc: seq<Pcb>, chan: nat, ticks: Word, i: nat): (r: seq<Pcb>)
    ensures |r| == |proc|
    ensures forall k: nat :: k < |proc| ==> r[k] == if k < i then Roused(proc[k], chan, ticks) else proc[k]
  {
    seq(|proc|, k requires 0 <= k < |proc| => if k < i then Roused(proc[k], chan, ticks) else proc[k])
  }

  lemma RousedNext(proc: seq<Pcb>, chan: nat, ticks: Word, i: nat)
    requires i < |proc|
    ensures RousedTo(proc, chan, ticks, 0) == proc
    ensures var r := RousedTo(proc, chan, ticks, i);
      |r| == |proc| && r[i] == proc[i] && r[i := Roused(proc[i], chan, ticks)] == RousedTo(proc, chan, ticks, i + 1)
  {
    hide Roused;
  }

  /** The processes before `i` that are due, in the order of the table. */
  function DueBefore(proc: seq<Pcb>, chan: nat, ticks: Word, i: nat): seq<nat>
    requires i <= |proc|
  {
    if i == 0 then [] else DueBefore(proc, chan, ticks, i - 1) + if Due(proc[i - 1], chan, ticks) then [i - 1] else []
  }

  lemma DueNext(q: seq<nat>, proc: seq<Pcb>, chan: nat, ticks: Word, i: nat)
    requires i < |proc|
    ensures q + DueBefore(proc, chan, ticks, i + 1) ==
      if Due(proc[i], chan, ticks) then q + DueBefore(proc, chan, ticks, i) + [i]
      else q + DueBefore(proc, chan, ticks, i)
    ensures q + DueBefore(proc, chan, ticks, 0) == q
  {
    hide Due;
  }

  ghost predicate Ascending(d: seq<nat>) {
    forall a, b :: 0 <= a < b < |d| ==> d[a] < d[b]
  }

  /** wakeup1 has been past the processes before `i`. */
  ghost predicate WokeTo(s: Snap, u: Snap, chan: nat, ticks: Word, i: nat) {
    && |s.proc| == NPROC && i <= NPROC && Joined(s, u)
    && u.proc == RousedTo(s.proc, chan, ticks, i) && u.q == s.q + DueBefore(s.proc, chan, ticks, i)
  }

  lemma WokeNone(s: Snap, chan: nat, ticks: Word)
    requires Exact(s.proc, s.q)
    ensures WokeTo(s, s, chan, ticks, 0)
  {
    ExactTable(s.proc, s.q);
    DueNext(s.q, s.proc, chan, ticks, 0);
    RousedNext(s.proc, chan, ticks, 0);
  }

  lemma WokeNext(s: Snap, u: Snap, v: Snap, chan: nat, ticks: Word, i: nat)
    requires WokeTo(s, u, chan, ticks, i) && i < NPROC && Joined(u, v) && |u.proc| == NPROC
    requires v.proc == u.proc[i := Roused(u.proc[i], chan, ticks)]
    requires v.q == if Due(u.proc[i], chan, ticks) then u.q + [i] else u.q
    ensures WokeTo(s, v, chan, ticks, i + 1)
  {
    hide Joined, Roused, Due, RousedTo, DueBefore;
    JoinedTwice(s, u, v);
    DueNext(s.q, s.proc, chan, ticks, i);
    RousedNext(s.proc, chan, ticks, i);
  }

  lemma WokeAll(s: Snap, u: Snap, chan: nat, ticks: Word)
    requires WokeTo(s, u, chan, ticks, NPROC)
    ensures Joined(s, u) && |s.proc| == NPROC && u.proc == RousedTo(s.proc, chan, ticks, NPROC)
    ensures u.q == s.q + DueBefore(s.proc, chan, ticks, NPROC)
  {
  }

  /** wakeup1 in terms of the fields alone. */
  lemma WokeMeans(p0: seq<Pcb>, q0: seq<nat>, chan: nat, ticks: Word)
    requires Exact(p0, q0)
    ensures |p0| == NPROC
    ensures var proc, q := RousedTo(p0, chan, ticks, NPROC), q0 + DueBefore(p0, chan, ticks, NPROC);
      && (forall k: nat :: k < NPROC && p0[k].state == SLEEPING && p0[k].chan == chan ==>
            if chan != TICKS || ticks >= p0[k].sleepdeadline
            then proc[k].state == RUNNABLE && proc[k].activeticks == 0 && k in q && k !in q0
            else proc[k].state == SLEEPING && proc[k].activeticks == p0[k].activeticks && k !in q)
      && (forall k: nat :: k < NPROC ==> proc[k] == p0[k].(
            state := proc[k].state, activeticks := proc[k].activeticks, sleepticks := proc[k].sleepticks))
      && (forall k: nat :: k < NPROC ==>
            proc[k].sleepticks == p0[k].sleepticks
              + if p0[k].state == SLEEPING && p0[k].chan == chan == TICKS then 1 else 0)
      && (forall k: nat :: k < NPROC && (p0[k].state != SLEEPING || p0[k].chan != chan) ==> proc[k] == p0[k])
  {
    DueIs(p0, chan, ticks, NPROC);
    var d := DueBefore(p0, chan, ticks, NPROC);
    forall k: nat | k < NPROC
      ensures k in q0 + d <==> k in q0 || k in d
      ensures p0[k].state == SLEEPING ==> k !in q0
    {
    }
  }

  /** Exactly the processes that are due are woken, each once and in the order
      of the table. */
  lemma {:induction false} DueIs(proc: seq<Pcb>, chan: nat, ticks: Word, i: nat)
    requires i <= |proc|
    ensures forall k: nat :: k in DueBefore(proc, chan, ticks, i) <==> k < i && Due(proc[k], chan, ticks)
    ensures Ascending(DueBefore(proc, chan, ticks, i))
  {
    hide Due, Ascending;
    if i == 0 {
      assert Ascending([]) by { Shortest(); }
    } else {
      DueIs(proc, chan, ticks, i - 1);
      AscendingMore(DueBefore(proc, chan, ticks, i - 1), i - 1);
    }
  }

  lemma Shortest()
    ensures Ascending([])
  {
  }

  lemma AscendingMore(d: seq<nat>, x: nat)
    requires Ascending(d) && forall y <- d :: y < x
    ensures Ascending(d) && Ascending(d + []) && Ascending(d + [x])
  {
    assert d + [] == d;
    assert forall a :: 0 <= a < |d| ==> d[a] in d;
  }

  /** What sys_sleep leaves for the round after it: the slice and the ticks
      asked for, which a negative number makes fewer than the slice. With none
      the loop passes over the process once and gives it its slice anew. */
  lemma NapIsCredited(c: Pcb, n: int, ticks: Word, later: Word)
    requires c.timeslice >= 1 && Due(Napping(c, n, ticks), TICKS, later)
    ensures var d := Roused(Napping(c, n, ticks), TICKS, later);
      && Left(d) == Max(c.timeslice + n, 0) && (Eligible(d) <==> c.timeslice + n > 0)
      && Eligible(Recharge(d)) && Left(Recharge(d)) == c.timeslice
  {
  }

  /** A 32-bit argument is slept for in full, and no longer than until the
      clock shows the sum, if and only if that sum is a time of the clock. */
  lemma NapEnds(c: Pcb, n: int, ticks: Word)
    requires -UINT / 2 <= n < UINT / 2
    ensures (forall later: Word :: later >= ticks ==> (Due(Napping(c, n, ticks), TICKS, later) <==> later >= ticks + n))
      <==> 0 <= ticks + n < UINT
  {
    var d := Napping(c, n, ticks);
    if 0 <= ticks + n < UINT {
      assert d.sleepdeadline == ticks + n;
    } else {
      assert d.sleepdeadline == if ticks + n < 0 then ticks + n + UINT else ticks + n - UINT;
      assert Due(d, TICKS, ticks) <==> ticks + n >= UINT;
    }
  }

  lemma ExactTable(proc: seq<Pcb>, q: seq<nat>)
    requires Exact(proc, q)
    ensures InTable(proc, q) && Joined(Snap(proc, q), Snap(proc, q)) && |proc| == NPROC && forall i <- q :: i < NPROC
    ensures forall i: nat :: i < NPROC && proc[i].state == SLEEPING ==> proc[i].timeslice >= 1
  {
  }

  lemma JoinedTwice(s: Snap, t: Snap, u: Snap)
    requires Joined(s, t) && Joined(t, u)
    ensures Joined(s, u)
  {
    forall i | i in s.q
      ensures i < NPROC && u.proc[i] == s.proc[i]
    {
      var k :| 0 <= k < |s.q| && s.q[k] == i;
      assert t.q[k] == i;
    }
  }

  lemma JoinExact(proc: seq<Pcb>, q: seq<nat>, p: nat)
    requires Exact(proc, q) && p < NPROC && proc[p].state != RUNNABLE && proc[p].state != RUNNING
    requires proc[p].timeslice >= 1
    ensures var p' := proc[p := proc[p].(state := RUNNABLE, activeticks := 0)];
      p !in q && Exact(p', q + [p]) && Joined(Snap(proc, q), Snap(p', q + [p]))
  {
  }

  /** Passing over a process leaves fewer to pass over. */
  lemma StaleNext(proc: seq<Pcb>, q: seq<nat>)
    requires InTable(proc, q) && q != [] && !Eligible(proc[q[0]])
    ensures InTable(proc, q[1..]) && Stale(proc, q[1..]) < Stale(proc, q)
    ensures var h := q[0]; var c := Recharge(proc[h]);
      && InTable(proc[h := c], q[1..] + [h])
      && (proc[h].state == RUNNABLE ==> Stale(proc[h := c], q[1..] + [h]) < Stale(proc, q))
  {
    StaleAppend(proc, q[1..], q[0], Recharge(proc[q[0]]));
  }

  lemma HeadIs(next: seq<int>, head: int, tail: int, q: seq<nat>)
    requires Linked(next, head, tail, q)
    ensures head == if q == [] then NIL else q[0]
  {
  }
}
