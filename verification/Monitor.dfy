/** sleep and wakeup, step by step, for the processes that share one spin-lock:
    no wakeup is lost. */
module Monitor {
  import opened Params

  /** Where a process is. The spin-lock that protects the condition is `lk`;
      ptable.lock is taken inside it. */
  datatype Pc =
    | Outside        // not in the monitor
    | Want           // spinning for lk, then to test the condition
    | Test           // holds lk, at the test of the loop
    | Sleep1         // holds lk, in sleep, before ptable.lock
    | Sleep2         // holds both
    | Sleep3         // holds ptable.lock, lk released
    | Asleep         // SLEEPING; the scheduler has released ptable.lock
    | Woken          // RUNNABLE, to take lk again
    | Inside         // holds lk, before changing the shared state
    | Wake1          // holds lk, in wakeup, before ptable.lock
    | Wake2          // holds both, before the loop over the table
    | Wake3          // holds both, after it
    | Leave          // holds lk, about to release it

  predicate HasLk(pc: Pc) {
    pc in {Test, Sleep1, Sleep2, Inside, Wake1, Wake2, Wake3, Leave}
  }

  predicate HasPt(pc: Pc) {
    pc in {Sleep2, Sleep3, Wake2, Wake3}
  }

  /** The shared state `x`: when a process has to wait, what it does once it
      need not, what a critical section of another kind does and whether it
      calls wakeup, and what may change without the lock. */
  datatype Rules<!X(!new)> = Rules(
    blocked: X -> bool,
    pass: (nat, X, X) -> bool,
    crit: (nat, X, X, bool) -> bool,
    drift: (X, X) -> bool)
  {
    /** Whoever unblocks a waiter calls wakeup before releasing the lock. */
    ghost predicate Honest() {
      && (forall p, x, y, w :: crit(p, x, y, w) && blocked(x) && !blocked(y) ==> w)
      && (forall x, y :: drift(x, y) && blocked(x) ==> blocked(y))
    }
  }

  datatype State<X> = State(pcs: seq<Pc>, x: X)

  datatype Step<X> =
    | Enter(p: nat) | TakeLk(p: nat) | Block(p: nat) | Pass(p: nat, y: X) | TakePt(p: nat)
    | DropLk(p: nat) | Sched(p: nat) | Kill(p: nat) | Begin(p: nat) | Change(p: nat, y: X, wakes: bool)
    | WakeAll(p: nat) | WakeDone(p: nat) | Release(p: nat) | Drift(y: X)

  predicate Free(pcs: seq<Pc>, has: Pc -> bool) {
    forall i :: 0 <= i < |pcs| ==> !has(pcs[i])
  }

  function Awake(pcs: seq<Pc>): seq<Pc> {
    seq(|pcs|, i requires 0 <= i < |pcs| => if pcs[i] == Asleep then Woken else pcs[i])
  }

  ghost predicate Moves<X>(s: State<X>, t: State<X>, p: nat, from: Pc, to: Pc, y: X) {
    p < |s.pcs| && s.pcs[p] == from && t == State(s.pcs[p := to], y)
  }

  ghost predicate NextBy<X(!new)>(r: Rules<X>, s: State<X>, t: State<X>, step: Step<X>) {
    match step
    case Enter(p) => Moves(s, t, p, Outside, Want, s.x)
    case TakeLk(p) => Free(s.pcs, HasLk) && (Moves(s, t, p, Want, Test, s.x) || Moves(s, t, p, Woken, Test, s.x))
    case Block(p) => r.blocked(s.x) && Moves(s, t, p, Test, Sleep1, s.x)
    case Pass(p, y) => !r.blocked(s.x) && r.pass(p, s.x, y) && Moves(s, t, p, Test, Leave, y)
    case TakePt(p) => Free(s.pcs, HasPt) && (Moves(s, t, p, Sleep1, Sleep2, s.x) || Moves(s, t, p, Wake1, Wake2, s.x))
    case DropLk(p) => Moves(s, t, p, Sleep2, Sleep3, s.x)
    case Sched(p) => Moves(s, t, p, Sleep3, Asleep, s.x)
    case Kill(p) => Free(s.pcs, HasPt) && Moves(s, t, p, Asleep, Woken, s.x)
    case Begin(p) => Free(s.pcs, HasLk) && Moves(s, t, p, Outside, Inside, s.x)
    case Change(p, y, wakes) => r.crit(p, s.x, y, wakes) && Moves(s, t, p, Inside, if wakes then Wake1 else Leave, y)
    case WakeAll(p) => p < |s.pcs| && s.pcs[p] == Wake2 && t == State(Awake(s.pcs)[p := Wake3], s.x)
    case WakeDone(p) => Moves(s, t, p, Wake3, Leave, s.x)
    case Release(p) => Moves(s, t, p, Leave, Outside, s.x)
    case Drift(y) => r.drift(s.x, y) && t == s.(x := y)
  }

  ghost predicate Next<X(!new)>(r: Rules<X>, s: State<X>, t: State<X>) {
    exists step :: NextBy(r, s, t, step)
  }

  ghost predicate AtMostOne(pcs: seq<Pc>, has: Pc -> bool) {
    forall i, j :: 0 <= i < j < |pcs| ==> !(has(pcs[i]) && has(pcs[j]))
  }

  /** Some process has yet to run the loop of wakeup. */
  ghost predicate Waking(pcs: seq<Pc>) {
    exists i :: 0 <= i < |pcs| && pcs[i] in {Wake1, Wake2}
  }

  predicate Sleeps(pc: Pc) {
    pc in {Sleep1, Sleep2, Sleep3, Asleep}
  }

  /** The locks exclude, and who sleeps has reason to or is about to be woken. */
  ghost predicate Inv<X(!new)>(r: Rules<X>, s: State<X>) {
    && AtMostOne(s.pcs, HasLk) && AtMostOne(s.pcs, HasPt)
    && forall i :: 0 <= i < |s.pcs| && Sleeps(s.pcs[i]) ==> r.blocked(s.x) || Waking(s.pcs)
  }

  lemma MoveExcludes(pcs: seq<Pc>, p: nat, to: Pc, has: Pc -> bool)
    requires p < |pcs| && AtMostOne(pcs, has) && (has(to) ==> has(pcs[p]) || Free(pcs, has))
    ensures AtMostOne(pcs[p := to], has)
  {
  }

  lemma AwakeExcludes(pcs: seq<Pc>, p: nat)
    requires p < |pcs| && pcs[p] == Wake2 && AtMostOne(pcs, HasLk) && AtMostOne(pcs, HasPt)
    ensures AtMostOne(Awake(pcs)[p := Wake3], HasLk) && AtMostOne(Awake(pcs)[p := Wake3], HasPt)
    ensures Free(Awake(pcs)[p := Wake3], Sleeps)
  {
    var t := Awake(pcs)[p := Wake3];
    forall i | 0 <= i < |pcs|
      ensures HasLk(t[i]) == HasLk(pcs[i]) && HasPt(t[i]) == HasPt(pcs[i])
      ensures i != p ==> !HasLk(t[i]) && !HasPt(t[i])
    {
    }
  }

  ghost predicate Reason(pcs: seq<Pc>, blocked: bool) {
    forall i :: 0 <= i < |pcs| && Sleeps(pcs[i]) ==> blocked || Waking(pcs)
  }

  /** Whoever holds lk and is not about to wake the others finds no one asleep
      without reason. */
  lemma NoOneWaking(pcs: seq<Pc>, p: nat)
    requires p < |pcs| && AtMostOne(pcs, HasLk) && HasLk(pcs[p]) && pcs[p] !in {Wake1, Wake2}
    ensures !Waking(pcs)
  {
  }

  lemma MoveReason(pcs: seq<Pc>, p: nat, to: Pc, blocked: bool)
    requires p < |pcs| && Reason(pcs, blocked) && (pcs[p] in {Wake1, Wake2} ==> to in {Wake1, Wake2})
    requires Sleeps(to) ==> Sleeps(pcs[p]) || blocked
    ensures Reason(pcs[p := to], blocked)
  {
    if Waking(pcs) {
      var i :| 0 <= i < |pcs| && pcs[i] in {Wake1, Wake2};
      assert pcs[p := to][i] in {Wake1, Wake2};
    }
  }

  lemma ChangeReason(pcs: seq<Pc>, p: nat, to: Pc, was: bool, now: bool)
    requires p < |pcs| && AtMostOne(pcs, HasLk) && HasLk(pcs[p]) && pcs[p] !in {Wake1, Wake2} && Reason(pcs, was)
    requires !Sleeps(to) && !Sleeps(pcs[p]) && (was && !now ==> to == Wake1)
    ensures Reason(pcs[p := to], now)
  {
    NoOneWaking(pcs, p);
    assert pcs[p := to][p] == to;
  }

  lemma StepInv<X(!new)>(r: Rules<X>, s: State<X>, t: State<X>, step: Step<X>)
    requires r.Honest() && Inv(r, s) && NextBy(r, s, t, step)
    ensures Inv(r, t)
  {
    hide Waking, AtMostOne;
    assert Reason(s.pcs, r.blocked(s.x));
    match step
    case Drift(y) =>
    case WakeAll(p) => AwakeExcludes(s.pcs, p);
    case Pass(p, y) =>
      MoveExcludes(s.pcs, p, Leave, HasLk);
      MoveExcludes(s.pcs, p, Leave, HasPt);
      ChangeReason(s.pcs, p, Leave, r.blocked(s.x), r.blocked(y));
    case Change(p, y, wakes) =>
      var to := if wakes then Wake1 else Leave;
      MoveExcludes(s.pcs, p, to, HasLk);
      MoveExcludes(s.pcs, p, to, HasPt);
      ChangeReason(s.pcs, p, to, r.blocked(s.x), r.blocked(y));
    case _ =>
      var p := step.p;
      MoveExcludes(s.pcs, p, t.pcs[p], HasLk);
      MoveExcludes(s.pcs, p, t.pcs[p], HasPt);
      MoveReason(s.pcs, p, t.pcs[p], r.blocked(s.x));
  }

  // ---- runs ----

  ghost predicate Init<X>(s: State<X>) {
    forall i :: 0 <= i < |s.pcs| ==> s.pcs[i] == Outside
  }

  ghost predicate Run<X(!new)>(r: Rules<X>, ss: seq<State<X>>)
    decreases |ss|
  {
    |ss| > 0 && if |ss| == 1 then Init(ss[0]) else Run(r, ss[..|ss| - 1]) && Next(r, ss[|ss| - 2], ss[|ss| - 1])
  }

  lemma {:induction false} RunInv<X(!new)>(r: Rules<X>, ss: seq<State<X>>)
    requires r.Honest() && Run(r, ss)
    ensures Inv(r, ss[|ss| - 1])
    decreases |ss|
  {
    if |ss| > 1 {
      var pre := ss[..|ss| - 1];
      RunInv(r, pre);
      var step :| NextBy(r, ss[|ss| - 2], ss[|ss| - 1], step);
      assert pre[|pre| - 1] == ss[|ss| - 2];
      StepInv(r, ss[|ss| - 2], ss[|ss| - 1], step);
    }
  }

  /** No lost wakeup: in every reachable state, a process that sleeps has
      reason to, or a process that holds the lock is about to wake it. */
  lemma NoLostWakeup<X(!new)>(r: Rules<X>, ss: seq<State<X>>, p: nat)
    requires r.Honest() && Run(r, ss) && p < |ss[|ss| - 1].pcs| && ss[|ss| - 1].pcs[p] == Asleep
    ensures var s := ss[|ss| - 1]; r.blocked(s.x) || Waking(s.pcs)
    ensures var s := ss[|ss| - 1]; Free(s.pcs, HasLk) ==> r.blocked(s.x)
  {
    RunInv(r, ss);
  }

  /** A property of the shared state that every section keeps holds throughout. */
  ghost predicate Kept<X(!new)>(r: Rules<X>, j: X -> bool) {
    && (forall p, x, y :: r.pass(p, x, y) && !r.blocked(x) && j(x) ==> j(y))
    && (forall p, x, y, w :: r.crit(p, x, y, w) && j(x) ==> j(y))
    && (forall x, y :: r.drift(x, y) && j(x) ==> j(y))
  }

  lemma {:induction false} RunKeeps<X(!new)>(r: Rules<X>, ss: seq<State<X>>, j: X -> bool)
    requires Kept(r, j) && Run(r, ss) && j(ss[0].x)
    ensures j(ss[|ss| - 1].x)
    decreases |ss|
  {
    if |ss| > 1 {
      var pre := ss[..|ss| - 1];
      RunKeeps(r, pre, j);
      assert pre[|pre| - 1] == ss[|ss| - 2];
      var step :| NextBy(r, ss[|ss| - 2], ss[|ss| - 1], step);
    }
  }

  predicate AsleepAt(pcs: seq<Pc>, p: nat) {
    p < |pcs| && pcs[p] == Asleep
  }

  // ---- sleep-locks ----

  /** `holders` are the processes between acquiresleep and releasesleep. */
  datatype Lock = Lock(locked: bool, holders: set<nat>)

  /** acquiresleep waits while the lock is locked; releasesleep, by a holder,
      unlocks and wakes; holdingsleep only looks. */
  function LockRules(): Rules<Lock> {
    Rules(
      (x: Lock) => x.locked,
      (p: nat, x: Lock, y: Lock) => y == Lock(true, x.holders + {p}),
      (p: nat, x: Lock, y: Lock, w: bool) => (p in x.holders && y == Lock(false, x.holders - {p}) && w) || y == x,
      (x: Lock, y: Lock) => false)
  }

  predicate OneHolder(x: Lock) {
    if x.locked then |x.holders| == 1 else x.holders == {}
  }

  /** At most one process holds a sleep-lock, and no one sleeps on a free one
      unless the releaser has yet to wake it. */
  lemma SleepLock(ss: seq<State<Lock>>)
    requires Run(LockRules(), ss) && ss[0].x == Lock(false, {})
    ensures OneHolder(ss[|ss| - 1].x)
    ensures var s := ss[|ss| - 1];
      forall p: nat :: AsleepAt(s.pcs, p) ==> s.x.locked || Waking(s.pcs)
  {
    var r, s := LockRules(), ss[|ss| - 1];
    forall p, x, y, w | r.crit(p, x, y, w) && OneHolder(x)
      ensures OneHolder(y)
    {
      if y != x { Single(x.holders, p); }
    }
    assert Kept(r, OneHolder);
    RunKeeps(r, ss, OneHolder);
    RunInv(r, ss);
  }

  lemma Single(s: set<nat>, p: nat)
    requires p in s && |s| <= 1
    ensures s - {p} == {}
  {
    assert |s - {p}| == 0;
  }

  // ---- begin_op and end_op ----

  /** `done`: the commit in progress has written its last block. */
  datatype Log = Log(outstanding: nat, committing: bool, n: nat, done: bool)

  /** begin_op waits while a commit is going on or the log might fill up. */
  predicate LogBlocked(x: Log) {
    x.committing || x.n + (x.outstanding + 1) * MAXOPBLOCKS > LOGSIZE
  }

  predicate BeginsOp(p: nat, x: Log, y: Log) {
    y == x.(outstanding := x.outstanding + 1)
  }

  /** log_write adds at most one block. end_op, by an operation under way, starts
      the commit if it is the last and wakes the others if it is not; when the
      commit is done it wakes them too. */
  predicate LogSection(p: nat, x: Log, y: Log, wakes: bool) {
    || (x.outstanding >= 1 && (y == x || y == x.(n := x.n + 1)) && !wakes)
    || (x.outstanding == 1 && y == Log(0, true, x.n, false) && !wakes)
    || (x.outstanding > 1 && y == x.(outstanding := x.outstanding - 1) && wakes)
    || (x.committing && x.done && y == x.(committing := false, done := false) && wakes)
  }

  /** The commit empties the log without the lock. */
  predicate Commits(x: Log, y: Log) {
    x.committing && y == x.(n := 0, done := true)
  }

  function LogRules(): Rules<Log> {
    Rules(LogBlocked, BeginsOp, LogSection, Commits)
  }

  /** No operation is under way during a commit, so end_op never finds one. */
  predicate LogQuiet(x: Log) {
    && (x.committing ==> x.outstanding == 0 && (x.done ==> x.n == 0))
    && (x.outstanding == 0 && !x.committing ==> x.n == 0)
  }

  lemma LogHonest()
    ensures LogRules().Honest() && Kept(LogRules(), LogQuiet)
  {
  }

  lemma BeginOp(ss: seq<State<Log>>)
    requires Run(LogRules(), ss) && ss[0].x == Log(0, false, 0, false)
    ensures LogQuiet(ss[|ss| - 1].x)
    ensures var s := ss[|ss| - 1];
      forall p: nat :: AsleepAt(s.pcs, p) ==> s.x.outstanding > 0 || s.x.committing || Waking(s.pcs)
  {
    hide Kept, Rules.Honest, Inv, LogSection, Commits;
    LogHonest();
    RunKeeps(LogRules(), ss, LogQuiet);
    var s := ss[|ss| - 1];
    forall p: nat | AsleepAt(s.pcs, p)
      ensures s.x.outstanding > 0 || s.x.committing || Waking(s.pcs)
    {
      NoLostWakeup(LogRules(), ss, p);
      QuietRoom(s.x);
    }
  }

  lemma QuietRoom(x: Log)
    requires LogQuiet(x)
    ensures LogBlocked(x) ==> x.outstanding > 0 || x.committing
  {
  }
}
