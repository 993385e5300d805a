/** Log space: begin_op admits an operation only if every running one could
    still log MAXOPBLOCKS blocks, yet log_write panics one entry early because
    the header takes one of the nlog blocks. */
module LogReservation {
  import opened Blocks
  import opened LogMachine
  import opened Params

  /** Blocks that running operations may still log under the admission bound. */
  ghost function Unused(ops: seq<Op>): int {
    if ops == [] then 0 else Unused(ops[..|ops| - 1]) + MAXOPBLOCKS - |ops[|ops| - 1].logged|
  }

  /** Every running operation has logged at most `n` distinct blocks. */
  ghost predicate Within(s: State, n: nat) {
    forall k :: 0 <= k < |s.ops| ==> |s.ops[k].logged| <= n
  }

  ghost predicate Listed(lh: seq<nat>, ops: seq<Op>) {
    forall k, b :: 0 <= k < |ops| && b in ops[k].logged ==> b in lh
  }

  ghost predicate Reserved(s: State) {
    && Listed(s.lh, s.ops)
    && (s.phase.Ready? ==> |s.lh| + Unused(s.ops) <= LOGSIZE)
    && (s.phase.Ready? && |s.ops| == 1 ==>
        |s.lh| + Unused(s.ops) < LOGSIZE || |s.lh| <= |s.ops[0].logged|)
    && (s.ops == [] && s.phase.Ready? ==> s.lh == [])
    && (!s.phase.Ready? ==> s.ops == [])
  }

  lemma {:induction false} UnusedBounds(ops: seq<Op>, n: nat)
    requires n <= MAXOPBLOCKS && forall k :: 0 <= k < |ops| ==> |ops[k].logged| <= n
    ensures (MAXOPBLOCKS - n) * |ops| <= Unused(ops) <= MAXOPBLOCKS * |ops|
  {
    if ops != [] { UnusedBounds(ops[..|ops| - 1], n); }
  }

  lemma {:induction false} UnusedUpdate(ops: seq<Op>, i: nat, o: Op)
    requires i < |ops|
    ensures Unused(ops[i := o]) == Unused(ops) + |ops[i].logged| - |o.logged|
  {
    var m := |ops| - 1;
    if i == m {
      assert ops[i := o][..m] == ops[..m];
    } else {
      assert ops[i := o][..m] == ops[..m][i := o];
      UnusedUpdate(ops[..m], i, o);
    }
  }

  lemma {:induction false} UnusedRemove(ops: seq<Op>, i: nat)
    requires i < |ops|
    ensures Unused(ops[..i] + ops[i + 1..]) == Unused(ops) - MAXOPBLOCKS + |ops[i].logged|
  {
    var m := |ops| - 1;
    if i == m {
      assert ops[..i] + ops[i + 1..] == ops[..m];
    } else {
      var rest := ops[..i] + ops[i + 1..];
      assert rest[..|rest| - 1] == ops[..m][..i] + ops[..m][i + 1..];
      assert rest[|rest| - 1] == ops[m];
      UnusedRemove(ops[..m], i);
    }
  }

  lemma ReservedWrite(g: Geometry, s: State, s': State, i: nat, b: nat, v: Block)
    requires Reserved(s) && WriteStep(g, s, s', i, b, v)
    ensures Reserved(s')
  {
    var o := s'.ops[i];
    UnusedUpdate(s.ops, i, o);
    if b in s.ops[i].logged {
      assert o.logged == s.ops[i].logged;
    } else {
      assert |o.logged| == |s.ops[i].logged| + 1;
    }
  }

  lemma ReservedEnd(g: Geometry, s: State, s': State, i: nat)
    requires Reserved(s) && EndStep(g, s, s', i) && Within(s, MAXOPBLOCKS - 1)
    requires s.ops == [s.ops[i]] ==> s'.lh == [] || !s'.phase.Ready?
    ensures Reserved(s')
  {
    UnusedRemove(s.ops, i);
    assert s'.ops == s.ops[..i] + s.ops[i + 1..];
    assert Listed(s'.lh, s'.ops) by {
      assert forall k :: 0 <= k < |s'.ops| ==> s'.ops[k] == s.ops[if k < i then k else k + 1];
    }
  }

  lemma ReservedStep(g: Geometry, s: State, s': State)
    requires Reserved(s) && Next(g, s, s')
    requires Within(s, MAXOPBLOCKS - 1)
    ensures Reserved(s')
  {
    var step :| NextBy(g, s, s', step);
    UnusedBounds(s.ops, MAXOPBLOCKS - 1);
    match step {
      case LogWrite(i, b, v) => ReservedWrite(g, s, s', i, b, v);
      case End(i) =>
        ReservedEnd(g, s, s', i);
      case Begin => assert s'.ops[..|s'.ops| - 1] == s.ops;
      case _ =>
    }
  }

  lemma {:induction false} ReservedRun(g: Geometry, tr: seq<State>, i: nat)
    requires Run(g, tr) && i < |tr|
    requires forall k :: 0 <= k < |tr| ==> Within(tr[k], MAXOPBLOCKS - 1)
    ensures Reserved(tr[i])
  {
    RunSteps(g, tr, i);
    hide Run, Next;
    if i > 0 {
      ReservedRun(g, tr, i - 1);
      ReservedStep(g, tr[i - 1], tr[i]);
    }
  }

  /** Operations that log at most MAXOPBLOCKS - 1 distinct blocks each never
      meet the "too big a transaction" panic, however they overlap. */
  lemma NeverTooBig(g: Geometry, tr: seq<State>, i: nat)
    requires Run(g, tr) && i < |tr| && g.nlog == LOGSIZE
    requires forall k :: 0 <= k < |tr| ==> Within(tr[k], MAXOPBLOCKS - 1)
    ensures tr[i].phase.Ready? && tr[i].ops != [] ==> !TooBig(g, tr[i].lh)
  {
    ReservedRun(g, tr, i);
    UnusedBounds(tr[i].ops, MAXOPBLOCKS - 1);
    assert |tr[i].ops| >= 2 || tr[i].ops == [] || Unused(tr[i].ops[..0]) == 0;
  }

  // ---- the bound is exact ----

  /** The layout that mkfs writes. */
  const MKFS := Geometry(2, LOGSIZE, 1000)

  ghost function Share(k: nat, j: nat): nat {
    if k <= 10 * j then 0 else if k >= 10 * (j + 1) then 10 else k - 10 * j
  }

  ghost predicate Filled(s: State, k: nat) {
    && s.phase.Ready? && |s.ops| == 3 && |s.disk| == MKFS.size
    && s.lh == seq(k, i => 32 + i)
    && Listed(s.lh, s.ops)
    && forall j :: 0 <= j < 3 ==> |s.ops[j].logged| == Share(k, j)
  }

  ghost predicate WithinRun(tr: seq<State>, n: nat) {
    Run(MKFS, tr) && forall k :: 0 <= k < |tr| ==> Within(tr[k], n)
  }

  lemma Extend(tr: seq<State>, s: State, n: nat)
    requires WithinRun(tr, n) && Next(MKFS, tr[|tr| - 1], s) && Within(s, n)
    ensures WithinRun(tr + [s], n)
  {
    assert (tr + [s])[..|tr|] == tr;
  }

  /** A new disk, at boot. */
  ghost function NewDisk(): State {
    var disk := seq(MKFS.size, _ => ZERO);
    State(disk, map[], [], [], Boot, History(disk, [], 0, 0))
  }

  ghost predicate Begun(s: State, n: nat) {
    && s.phase.Ready? && s.lh == [] && |s.disk| == MKFS.size && |s.ops| == n
    && forall j :: 0 <= j < n ==> s.ops[j].logged == {}
  }

  lemma BootStep() returns (s: State)
    ensures Init(MKFS, NewDisk()) && Next(MKFS, NewDisk(), s)
    ensures s == NewDisk().(phase := Install(0, true))
  {
    ZeroWords(ZERO, 0);
    s := NewDisk().(phase := Install(0, true));
    assert NextBy(MKFS, NewDisk(), s, Reboot);
  }

  lemma CleanStep(s: State) returns (t: State)
    requires s == NewDisk().(phase := Install(0, true))
    ensures Next(MKFS, s, t) && Begun(t, 0)
  {
    var v := EncodeHead(ZERO, []);
    t := s.(disk := s.disk[2 := v], cache := map[2 := BufferCache.Entry(v, false)], phase := Ready);
    assert NextBy(MKFS, s, t, EraseHead);
  }

  lemma OneMore(s: State, n: nat) returns (t: State)
    requires Begun(s, n) && n < 3
    ensures Next(MKFS, s, t) && Begun(t, n + 1)
  {
    t := s.(ops := s.ops + [Op(s.h.nextId, {})], h := s.h.(nextId := s.h.nextId + 1));
    assert NextBy(MKFS, s, t, Begin);
  }

  lemma {:induction false} BegunRun(n: nat) returns (tr: seq<State>)
    requires n <= 3
    ensures WithinRun(tr, MAXOPBLOCKS) && |tr| > 0 && Begun(tr[|tr| - 1], n)
  {
    if n == 0 {
      tr := [NewDisk()];
      var s := BootStep();
      hide Next, Init;
      Extend(tr, s, MAXOPBLOCKS);
      var t := CleanStep(s);
      Extend(tr + [s], t, MAXOPBLOCKS);
      tr := tr + [s] + [t];
    } else {
      tr := BegunRun(n - 1);
      hide Run, Next;
      var t := OneMore(tr[|tr| - 1], n - 1);
      Extend(tr, t, MAXOPBLOCKS);
      tr := tr + [t];
    }
  }

  /** The next block, logged by the operation whose turn it is. */
  lemma FillStep(s: State, k: nat) returns (t: State)
    requires Filled(s, k) && k < 29
    ensures Next(MKFS, s, t) && Filled(t, k + 1) && Within(t, MAXOPBLOCKS)
  {
    var i, b := k / 10, 32 + k;
    assert b !in s.lh && b !in s.ops[i].logged;
    var logged := s.ops[i].logged + {b};
    t := s.(
      cache := s.cache[b := BufferCache.Entry(ZERO, true)],
      lh := Absorb(s.lh, b),
      ops := s.ops[i := s.ops[i].(logged := logged)],
      h := s.h.(writes := s.h.writes + [Write(s.ops[i].id, b, ZERO)]));
    assert |logged| == |s.ops[i].logged| + 1;
    assert NextBy(MKFS, s, t, LogWrite(i, b, ZERO));
    assert t.lh == seq(k + 1, i => 32 + i);
  }

  lemma {:induction false} FillUp(k: nat) returns (tr: seq<State>)
    requires k <= 29
    ensures WithinRun(tr, MAXOPBLOCKS) && |tr| > 0 && Filled(tr[|tr| - 1], k)
  {
    hide Run, Next;
    if k == 0 {
      tr := BegunRun(3);
    } else {
      tr := FillUp(k - 1);
      var t := FillStep(tr[|tr| - 1], k - 1);
      hide Filled;
      Extend(tr, t, MAXOPBLOCKS);
      tr := tr + [t];
    }
  }

  /** With a budget of exactly MAXOPBLOCKS the guarantee is lost: three
      admitted operations log 10, 10 and 9 distinct blocks, and the third,
      still entitled to one more, finds the log too big. */
  lemma TenIsTooMany() returns (tr: seq<State>)
    ensures WithinRun(tr, MAXOPBLOCKS)
    ensures var s := tr[|tr| - 1];
      s.phase.Ready? && |s.ops| == 3 && |s.ops[2].logged| < MAXOPBLOCKS && TooBig(MKFS, s.lh)
  {
    tr := FillUp(29);
  }

  /** A run with operations of at most `n` distinct blocks each that ends where
      one of them, with blocks of its `n` left to log, meets the guard. */
  ghost predicate Overflows(tr: seq<State>, n: nat) {
    && WithinRun(tr, n)
    && var s := tr[|tr| - 1];
      s.phase.Ready? && TooBig(MKFS, s.lh) && exists o <- s.ops :: |o.logged| < n
  }

  /** With mkfs's layout the guard can be met exactly when operations may log
      as many blocks as begin_op reserves for them. */
  lemma ExactBudget(n: nat)
    ensures (exists tr :: Overflows(tr, n)) <==> n >= MAXOPBLOCKS
  {
    if n >= MAXOPBLOCKS {
      var tr := TenIsTooMany();
      assert tr[|tr| - 1].ops[2] in tr[|tr| - 1].ops;
      assert Overflows(tr, n);
    } else {
      forall tr
        ensures !Overflows(tr, n)
      {
        if Overflows(tr, n) {
          NeverTooBig(MKFS, tr, |tr| - 1);
        }
      }
    }
  }
}
