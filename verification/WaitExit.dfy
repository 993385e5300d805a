/** wait and exit over the process table: a parent asleep in wait never has a
    child that is already a zombie. Each method holds ptable.lock throughout. */
module WaitExit {
  import opened Params

  const NONE: int := -1

  datatype State = UNUSED | EMBRYO | SLEEPING | RUNNABLE | RUNNING | ZOMBIE

  /** What a process sleeps on: a process in the table, or something else. */
  datatype Chan = OnProc(i: int) | Other(k: nat)

  datatype Proc = Proc(state: State, pid: nat, parent: int, chan: Chan, killed: bool)

  /** Asleep in wait. */
  predicate Waits(proc: seq<Proc>, p: int) {
    0 <= p < |proc| && proc[p].state == SLEEPING && proc[p].chan == OnProc(p)
  }

  predicate ZombieOf(proc: seq<Proc>, c: nat, p: int) {
    c < |proc| && proc[c].state == ZOMBIE && proc[c].parent == p
  }

  /** No one waits for a child that has exited. */
  ghost predicate NoMissedExit(proc: seq<Proc>) {
    |proc| == NPROC &&
    forall p: int, c: nat {:trigger Waits(proc, p), ZombieOf(proc, c, p)} :: Waits(proc, p) ==> !ZombieOf(proc, c, p)
  }

  /** Parents are other processes of the table; init has none. */
  ghost predicate Family(proc: seq<Proc>, init: nat) {
    && |proc| == NPROC && init < NPROC && proc[init].parent == NONE && proc[init].state != UNUSED
    && forall c: nat :: c < NPROC ==> NONE <= proc[c].parent < NPROC && proc[c].parent != c
  }

  predicate WokenBy(e: Proc, chan: Chan) {
    e.state == SLEEPING && e.chan == chan
  }

  ghost function Woken(proc: seq<Proc>, chan: Chan): seq<Proc> {
    seq(|proc|, i requires 0 <= i < |proc| => if WokenBy(proc[i], chan) then proc[i].(state := RUNNABLE) else proc[i])
  }

  datatype Result = Reaped(pid: nat) | NoChild | Sleeps

  class Table {
    var proc: seq<Proc>
    const init: nat

    ghost predicate Valid()
      reads this
    {
      NoMissedExit(proc) && Family(proc, init)
    }

    constructor (init: nat)
      requires init < NPROC
      ensures Valid()
    {
      this.init := init;
      proc := seq(NPROC, i => Proc(if i == init then RUNNABLE else UNUSED, 0, NONE, Other(0), false));
    }

    method Wakeup1(chan: Chan)
      requires |proc| == NPROC
      modifies this
      ensures proc == Woken(old(proc), chan)
      ensures forall k: nat :: k < NPROC && old(proc)[k].state == SLEEPING && old(proc)[k].chan == chan ==>
        proc[k] == old(proc)[k].(state := RUNNABLE)
      ensures forall k: nat :: k < NPROC && !(old(proc)[k].state == SLEEPING && old(proc)[k].chan == chan) ==>
        proc[k] == old(proc)[k]
    {
      var i := 0;
      while i < NPROC
        invariant i <= NPROC && |proc| == NPROC
        invariant forall k :: 0 <= k < NPROC ==> proc[k] == if k < i then Woken(old(proc), chan)[k] else old(proc)[k]
      {
        if proc[i].state == SLEEPING && proc[i].chan == chan {
          proc := proc[i := proc[i].(state := RUNNABLE)];
        }
        i := i + 1;
      }
    }

    /** A child of `p` goes to init. */
    method Adopt(c: nat, p: nat)
      requires Valid() && c < NPROC && proc[c].parent == p && c != init
      modifies this
      ensures Valid() && |old(proc)| == NPROC
      ensures proc == Adopted(old(proc), c, init)
    {
      ghost var p0 := proc;
      proc := proc[c := proc[c].(parent := init)];
      if proc[c].state == ZOMBIE {
        Wakeup1(OnProc(init));
        assert !Waits(proc, init);
      }
      forall q: int, k: nat {:trigger Waits(proc, q), ZombieOf(proc, k, q)} | Waits(proc, q)
        ensures !ZombieOf(proc, k, q)
      {
        assert Waits(p0, q);
        assert k != c ==> ZombieOf(proc, k, q) == ZombieOf(p0, k, q);
      }
    }

    /** exit by `p`: the parent is woken, the children go to init, which is
        woken if one of them has exited, and `p` becomes a zombie; nothing else
        changes. */
    method Exit(p: nat)
      requires Valid() && p < NPROC && p != init && proc[p].state == RUNNING
      modifies this
      ensures Valid() && |old(proc)| == NPROC
      ensures forall k: nat :: k < NPROC && k != p ==> proc[k] == Parted(old(proc), k, p, init, NPROC)
      ensures proc[p] == old(proc)[p].(state := ZOMBIE)
      ensures forall k: nat :: k < NPROC && k != p ==>
        proc[k] == old(proc)[k].(state := proc[k].state, parent := proc[k].parent)
      ensures forall k: nat :: k < NPROC && k != p ==>
        proc[k].parent == if old(proc)[k].parent == p then init else old(proc)[k].parent
      ensures forall k: nat :: k < NPROC && k != p ==>
        proc[k].state ==
          if old(proc)[k].state == SLEEPING && (
            || old(proc)[k].chan == OnProc(old(proc)[p].parent)
            || (old(proc)[k].chan == OnProc(init) &&
                exists c: nat :: c < NPROC && old(proc)[c].state == ZOMBIE && old(proc)[c].parent == p))
          then RUNNABLE else old(proc)[k].state
    {
      hide NoMissedExit;
      ghost var parent := proc[p].parent;
      Wakeup1(OnProc(proc[p].parent));
      WakeKeeps(old(proc), proc, init, parent);
      PartedNone(old(proc), proc, p, init);
      hide Woken, Parted, Adopted;
      var c := 0;
      while c < NPROC
        invariant c <= NPROC && Valid() && !Waits(proc, parent) && |old(proc)| == NPROC && proc[p].state == RUNNING
        invariant AllParted(old(proc), proc, p, init, c)
      {
        PartedParent(old(proc), proc, p, init, c);
        if proc[c].parent == p {
          AdoptKeeps(proc, c, init, parent, p);
          PartedOrphan(old(proc), proc, Adopted(proc, c, init), p, init, c);
          Adopt(c, p);
        } else {
          PartedOther(old(proc), proc, p, init, c);
        }
        c := c + 1;
      }
      PartedSelf(old(proc), proc, p, init);
      ZombieKeeps(proc, init, p);
      proc := proc[p := proc[p].(state := ZOMBIE)];
      PartedFields(old(proc), proc, p, init);
    }

    /** wait by `p`, up to its sleep: the first child that has exited is reaped;
        there may be no child to wait for; otherwise `p` goes to sleep. */
    method Wait(p: nat) returns (r: Result, ghost c: nat)
      requires Valid() && p < NPROC && proc[p].state == RUNNING
      modifies this
      ensures Valid() && |old(proc)| == NPROC && c <= NPROC && forall k: nat :: k < c ==> !ZombieOf(old(proc), k, p)
      ensures r.Reaped? <==> c < NPROC
      ensures r.Reaped? ==> ZombieOf(old(proc), c, p) && r.pid == old(proc)[c].pid && proc == old(proc)[c := Unused()]
      ensures forall k: nat :: k < c ==> !(old(proc)[k].state == ZOMBIE && old(proc)[k].parent == p)
      ensures r.Reaped? ==> old(proc)[c].state == ZOMBIE && old(proc)[c].parent == p && proc[p] == old(proc)[p]
      ensures r.Reaped? ==> proc[c].state == UNUSED && proc[c].pid == 0 && proc[c].parent == NONE && !proc[c].killed
      ensures r.NoChild? <==>
        c == NPROC && (old(proc)[p].killed || forall k: nat :: k < NPROC ==> old(proc)[k].parent != p)
      ensures r.NoChild? ==> proc == old(proc)
      ensures r.Sleeps? ==> proc == old(proc)[p := old(proc)[p].(state := SLEEPING, chan := OnProc(p))]
    {
      hide NoMissedExit;
      var havekids := false;
      var i := 0;
      while i < NPROC
        invariant i <= NPROC && proc == old(proc) && forall k: nat :: k < i ==> !ZombieOf(old(proc), k, p)
        invariant forall k: nat :: k < i ==> !(old(proc)[k].state == ZOMBIE && old(proc)[k].parent == p)
        invariant havekids <==> exists k: nat :: k < i && proc[k].parent == p
      {
        if proc[i].parent == p {
          havekids := true;
          if proc[i].state == ZOMBIE {
            var pid := proc[i].pid;
            Forgotten(proc, init, i);
            proc := proc[i := Unused()];
            return Reaped(pid), i;
          }
        }
        i := i + 1;
      }
      c := NPROC;
      if !havekids || proc[p].killed { return NoChild, c; }
      AsleepKeeps(proc, init, p);
      proc := proc[p := proc[p].(chan := OnProc(p), state := SLEEPING)];
      return Sleeps, c;
    }

    /** kill: the first process with this pid is marked, and woken if asleep; -1
        if there is none. */
    method Kill(pid: nat) returns (r: int, ghost i: nat)
      requires Valid()
      modifies this
      ensures Valid() && |old(proc)| == NPROC && i <= NPROC && forall k: nat :: k < i ==> old(proc)[k].pid != pid
      ensures if r == 0 then i < NPROC && old(proc)[i].pid == pid && proc == old(proc)[i := Killed(old(proc)[i])]
        else r == -1 && i == NPROC && proc == old(proc)
      ensures r == 0 ==> proc[i].killed && proc[i] == old(proc)[i].(killed := true, state := proc[i].state)
      ensures r == 0 ==> proc[i].state == if old(proc)[i].state == SLEEPING then RUNNABLE else old(proc)[i].state
    {
      hide NoMissedExit;
      var k := 0;
      while k < NPROC
        invariant k <= NPROC && proc == old(proc) && forall j: nat :: j < k ==> proc[j].pid != pid
      {
        if proc[k].pid == pid {
          KilledKeeps(proc, init, k);
          proc := proc[k := proc[k].(killed := true)];
          if proc[k].state == SLEEPING {
            proc := proc[k := proc[k].(state := RUNNABLE)];
          }
          assert proc == old(proc)[k := Killed(old(proc)[k])];
          return 0, k;
        }
        k := k + 1;
      }
      return -1, NPROC;
    }

    /** fork by `p`: a child in the first unused slot. */
    method Fork(p: nat, pid: nat) returns (c: int)
      requires Valid() && p < NPROC && proc[p].state == RUNNING
      modifies this
      ensures Valid() && |old(proc)| == NPROC
      ensures c == NONE <==> forall k: nat :: k < NPROC ==> old(proc)[k].state != UNUSED
      ensures c == NONE ==> proc == old(proc)
      ensures c != NONE ==> 0 <= c < NPROC && old(proc)[c].state == UNUSED
      ensures c != NONE ==> proc == old(proc)[c := Proc(RUNNABLE, pid, p, old(proc)[c].chan, false)]
    {
      var i := 0;
      while i < NPROC && proc[i].state != UNUSED
        invariant i <= NPROC && forall k: nat :: k < i ==> proc[k].state != UNUSED
      {
        i := i + 1;
      }
      if i == NPROC { return NONE; }
      ghost var p0 := proc;
      proc := proc[i := Proc(RUNNABLE, pid, p, proc[i].chan, false)];
      forall q: int, k: nat {:trigger Waits(proc, q), ZombieOf(proc, k, q)} | Waits(proc, q)
        ensures !ZombieOf(proc, k, q)
      {
        assert Waits(p0, q);
        assert k != i ==> ZombieOf(proc, k, q) == ZombieOf(p0, k, q);
      }
      return i;
    }

    /** A slot given back by wait is there for fork. */
    method WaitThenFork(p: nat, pid: nat) returns (r: Result, child: int)
      requires Valid() && p < NPROC && proc[p].state == RUNNING
      modifies this
      ensures Valid() && (r.Reaped? ==> 0 <= child < NPROC && proc[child].state == RUNNABLE && proc[child].pid == pid)
    {
      ghost var c;
      r, c := Wait(p);
      child := NONE;
      if r.Reaped? { child := Fork(p, pid); }
    }
  }

  function Killed(e: Proc): Proc {
    e.(killed := true, state := if e.state == SLEEPING then RUNNABLE else e.state)
  }

  lemma KilledKeeps(proc: seq<Proc>, init: nat, i: nat)
    requires NoMissedExit(proc) && Family(proc, init) && i < NPROC
    ensures NoMissedExit(proc[i := Killed(proc[i])]) && Family(proc[i := Killed(proc[i])], init)
  {
    var proc' := proc[i := Killed(proc[i])];
    forall q: int, c: nat {:trigger Waits(proc', q), ZombieOf(proc', c, q)} | Waits(proc', q)
      ensures !ZombieOf(proc', c, q)
    {
      assert Waits(proc, q);
      assert ZombieOf(proc', c, q) == ZombieOf(proc, c, q);
    }
  }

  /** Child `c` given to init, which is woken if the child has exited. */
  ghost function Adopted(proc: seq<Proc>, c: nat, init: nat): seq<Proc>
    requires c < |proc|
  {
    var p1 := proc[c := proc[c].(parent := init)];
    if proc[c].state == ZOMBIE then Woken(p1, OnProc(init)) else p1
  }

  ghost predicate Orphans(proc: seq<Proc>, p: nat, n: nat) {
    exists c: nat :: c < n && ZombieOf(proc, c, p)
  }

  /** What exit by `p` has done to process `k` once the loop has passed `n`
      processes. */
  ghost function Parted(proc: seq<Proc>, k: nat, p: nat, init: nat, n: nat): Proc
    requires k < |proc| && p < |proc|
  {
    var e := proc[k];
    var woken := WokenBy(e, OnProc(proc[p].parent)) || (Orphans(proc, p, n) && WokenBy(e, OnProc(init)));
    e.(state := if woken then RUNNABLE else e.state, parent := if e.parent == p && k < n then init else e.parent)
  }

  ghost predicate AllParted(p0: seq<Proc>, proc: seq<Proc>, p: nat, init: nat, n: nat) {
    && |p0| == |proc| && p < |p0|
    && forall k: nat {:trigger proc[k]} :: k < |proc| ==> proc[k] == Parted(p0, k, p, init, n)
  }

  lemma PartedNone(p0: seq<Proc>, proc: seq<Proc>, p: nat, init: nat)
    requires p < |p0| && proc == Woken(p0, OnProc(p0[p].parent))
    ensures AllParted(p0, proc, p, init, 0)
  {
  }

  lemma PartedParent(p0: seq<Proc>, proc: seq<Proc>, p: nat, init: nat, c: nat)
    requires AllParted(p0, proc, p, init, c) && c < |proc|
    ensures proc[c].parent == p0[c].parent && (proc[c].state == ZOMBIE <==> p0[c].state == ZOMBIE)
  {
  }

  lemma PartedOther(p0: seq<Proc>, proc: seq<Proc>, p: nat, init: nat, c: nat)
    requires AllParted(p0, proc, p, init, c) && c < |proc| && proc[c].parent != p && p0[c].parent == proc[c].parent
    ensures AllParted(p0, proc, p, init, c + 1)
  {
    assert !ZombieOf(p0, c, p);
    assert Orphans(p0, p, c + 1) ==> Orphans(p0, p, c);
    assert Orphans(p0, p, c) ==> Orphans(p0, p, c + 1);
  }

  lemma PartedOrphan(p0: seq<Proc>, proc: seq<Proc>, proc': seq<Proc>, p: nat, init: nat, c: nat)
    requires AllParted(p0, proc, p, init, c) && c < |proc| && proc[c].parent == p && p0[c].parent == p && p != init
    requires proc[c].state == ZOMBIE <==> p0[c].state == ZOMBIE
    requires proc' == Adopted(proc, c, init)
    ensures AllParted(p0, proc', p, init, c + 1)
  {
    assert Orphans(p0, p, c) ==> Orphans(p0, p, c + 1);
    if p0[c].state == ZOMBIE {
      assert ZombieOf(p0, c, p);
    } else {
      assert !ZombieOf(p0, c, p);
      assert Orphans(p0, p, c + 1) ==> Orphans(p0, p, c);
    }
  }

  lemma PartedSelf(p0: seq<Proc>, proc: seq<Proc>, p: nat, init: nat)
    requires AllParted(p0, proc, p, init, NPROC) && |p0| == NPROC && p0[p].state == RUNNING && p0[p].parent != p
    ensures proc[p] == p0[p] && forall k: nat :: k < NPROC ==> proc[k] == Parted(p0, k, p, init, NPROC)
  {
  }

  lemma PartedFields(p0: seq<Proc>, proc: seq<Proc>, p: nat, init: nat)
    requires |p0| == |proc| == NPROC && p < NPROC
    requires forall k: nat :: k < NPROC && k != p ==> proc[k] == Parted(p0, k, p, init, NPROC)
    ensures forall k: nat :: k < NPROC && k != p ==>
      proc[k] == p0[k].(state := proc[k].state, parent := proc[k].parent)
    ensures forall k: nat :: k < NPROC && k != p ==> proc[k].parent == if p0[k].parent == p then init else p0[k].parent
    ensures forall k: nat :: k < NPROC && k != p ==>
      proc[k].state ==
        if p0[k].state == SLEEPING && (
          || p0[k].chan == OnProc(p0[p].parent)
          || (p0[k].chan == OnProc(init) &&
              exists c: nat :: c < NPROC && p0[c].state == ZOMBIE && p0[c].parent == p))
        then RUNNABLE else p0[k].state
  {
    assert Orphans(p0, p, NPROC) <==> exists c: nat :: c < NPROC && p0[c].state == ZOMBIE && p0[c].parent == p by {
      if Orphans(p0, p, NPROC) {
        var c: nat :| c < NPROC && ZombieOf(p0, c, p);
        assert p0[c].state == ZOMBIE;
      }
      if c: nat :| c < NPROC && p0[c].state == ZOMBIE && p0[c].parent == p { assert ZombieOf(p0, c, p); }
    }
  }

  lemma AdoptKeeps(proc: seq<Proc>, c: nat, init: nat, parent: int, p: nat)
    requires c < |proc| && p < |proc| && !Waits(proc, parent) && proc[p].state == RUNNING
    ensures !Waits(Adopted(proc, c, init), parent) && |Adopted(proc, c, init)| == |proc|
    ensures Adopted(proc, c, init)[p].state == RUNNING
  {
  }

  function Unused(): Proc {
    Proc(UNUSED, 0, NONE, Other(0), false)
  }

  lemma Forgotten(proc: seq<Proc>, init: nat, i: nat)
    requires NoMissedExit(proc) && Family(proc, init) && i < NPROC && proc[i].state == ZOMBIE && proc[i].parent >= 0
    ensures NoMissedExit(proc[i := Unused()]) && Family(proc[i := Unused()], init)
  {
    var proc' := proc[i := Unused()];
    forall q: int, c: nat {:trigger Waits(proc', q), ZombieOf(proc', c, q)} | Waits(proc', q)
      ensures !ZombieOf(proc', c, q)
    {
      assert Waits(proc, q);
      assert c != i ==> ZombieOf(proc', c, q) == ZombieOf(proc, c, q);
    }
  }

  /** A parent without zombies may go to sleep. */
  lemma AsleepKeeps(proc: seq<Proc>, init: nat, p: nat)
    requires NoMissedExit(proc) && Family(proc, init) && p < NPROC && proc[p].state == RUNNING
    requires forall k: nat :: k < NPROC ==> !ZombieOf(proc, k, p)
    ensures var proc' := proc[p := proc[p].(chan := OnProc(p), state := SLEEPING)];
      NoMissedExit(proc') && Family(proc', init)
  {
    var proc' := proc[p := proc[p].(chan := OnProc(p), state := SLEEPING)];
    forall q: int, c: nat {:trigger Waits(proc', q), ZombieOf(proc', c, q)} | Waits(proc', q)
      ensures !ZombieOf(proc', c, q)
    {
      assert q != p ==> Waits(proc, q);
      assert c != p ==> ZombieOf(proc', c, q) == ZombieOf(proc, c, q);
    }
  }

  lemma WakeKeeps(p0: seq<Proc>, proc: seq<Proc>, init: nat, q: int)
    requires NoMissedExit(p0) && Family(p0, init) && proc == Woken(p0, OnProc(q))
    ensures NoMissedExit(proc) && Family(proc, init) && !Waits(proc, q)
    ensures forall k: nat :: Waits(proc, k) ==> Waits(p0, k)
    ensures forall k: nat :: k < NPROC ==>
      proc[k].parent == p0[k].parent && (p0[k].state != SLEEPING ==> proc[k].state == p0[k].state)
  {
    forall p: int, c: nat {:trigger Waits(proc, p), ZombieOf(proc, c, p)} | Waits(proc, p)
      ensures !ZombieOf(proc, c, p)
    {
      assert Waits(p0, p);
      assert ZombieOf(proc, c, p) == ZombieOf(p0, c, p);
    }
  }

  /** A process whose parent is awake may become a zombie. */
  lemma ZombieKeeps(proc: seq<Proc>, init: nat, p: nat)
    requires NoMissedExit(proc) && Family(proc, init) && p < NPROC && !Waits(proc, proc[p].parent)
    requires proc[p].state == RUNNING
    ensures var proc' := proc[p := proc[p].(state := ZOMBIE)];
      NoMissedExit(proc') && Family(proc', init) && forall k: nat :: Waits(proc', k) ==> Waits(proc, k)
  {
    var proc' := proc[p := proc[p].(state := ZOMBIE)];
    forall q: int, c: nat {:trigger Waits(proc', q), ZombieOf(proc', c, q)} | Waits(proc', q)
      ensures !ZombieOf(proc', c, q)
    {
      assert Waits(proc, q);
      assert c != p ==> ZombieOf(proc', c, q) == ZombieOf(proc, c, q);
    }
  }
}
