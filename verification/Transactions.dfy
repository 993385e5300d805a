/** What an operation on the file system leaves when it reaches end_op,
    operations that follow one another, and operations that overlap. */
module Transactions {
  import opened Dinodes
  import opened DiskLayout
  import opened Fs
  import opened LogSteps
  import L = LogMachine

  /** An operation from begin_op to end_op: what it found, what it left, and the
      changes it passed to log_write. */
  datatype Txn = Txn(op: nat, v0: View, v: View, logged: set<nat>, steps: seq<Step>)

  ghost function DiskOf(v: View): Disk {
    Disk(v.store, v.tab)
  }

  /** The file system is in order, and its disk is what the changes made, all of
      them the operation's own, have made of the one found. */
  ghost predicate Done(sb: Super, t: Txn) {
    Ok(sb, t.v) && InLog(sb, DiskOf(t.v0), DiskOf(t.v), t.logged, t.op, t.steps)
  }

  ghost function TxnOf(fs: Fs): Txn
    reads fs
  {
    Txn(fs.op, View(fs.store0, fs.dinode0, fs.owner0), View(fs.store, fs.dinode, fs.owner), fs.logged, fs.steps)
  }

  // ---- one after the other ----

  ghost predicate Serial(sb: Super, ts: seq<Txn>, v0: View, v: View)
    decreases |ts|
  {
    if ts == [] then v == v0
    else ts[0].v0 == v0 && Done(sb, ts[0]) && Serial(sb, ts[1..], ts[0].v, v)
  }

  lemma SerialNone(sb: Super, v: View)
    ensures Serial(sb, [], v, v)
  {
  }

  lemma {:induction false} SerialMore(sb: Super, ts: seq<Txn>, v0: View, t: Txn)
    requires Serial(sb, ts, v0, t.v0) && Done(sb, t)
    ensures Serial(sb, ts + [t], v0, t.v)
    decreases |ts|
  {
    hide Done;
    if ts == [] {
      assert ts + [t] == [t] && [t][1..] == [];
    } else {
      assert (ts + [t])[1..] == ts[1..] + [t];
      SerialMore(sb, ts[1..], ts[0].v, t);
    }
  }

  ghost function AllSteps(ts: seq<Txn>): seq<Step> {
    if ts == [] then [] else ts[0].steps + AllSteps(ts[1..])
  }

  lemma {:induction false} SerialExec(sb: Super, ts: seq<Txn>, v0: View, v: View)
    requires Sized(sb, DiskOf(v0)) && Serial(sb, ts, v0, v)
    ensures Sized(sb, DiskOf(v)) && Exec(sb, DiskOf(v0), AllSteps(ts)) == DiskOf(v)
    decreases |ts|
  {
    hide Ok, Do;
    if ts != [] {
      SerialExec(sb, ts[1..], ts[0].v, v);
      ExecTwice(sb, DiskOf(v0), ts[0].steps, AllSteps(ts[1..]));
    }
  }

  /** What operations that follow one another log, applied in order, takes the
      image that the first found to the image that the last left. */
  lemma SerialApplies(sb: Super, ts: seq<Txn>, v0: View, v: View)
    requires Sized(sb, DiskOf(v0)) && Serial(sb, ts, v0, v)
    ensures Sized(sb, DiskOf(v))
    ensures L.Apply(ImageOf(sb, DiskOf(v0)), WritesOf(sb, DiskOf(v0), AllSteps(ts))) == ImageOf(sb, DiskOf(v))
  {
    hide *;
    SerialExec(sb, ts, v0, v);
    WritesApply(sb, DiskOf(v0), AllSteps(ts));
  }

  /** And the file system is in order after them. */
  lemma {:induction false} SerialOk(sb: Super, ts: seq<Txn>, v0: View, v: View)
    requires Ok(sb, v0) && Serial(sb, ts, v0, v)
    ensures Ok(sb, v)
    decreases |ts|
  {
    hide Ok, InLog;
    if ts != [] { SerialOk(sb, ts[1..], ts[0].v, v); }
  }

  // ---- overlapping ----

  ghost predicate DistinctOps(ts: seq<Txn>) {
    forall i, j :: 0 <= i < j < |ts| ==> ts[i].op != ts[j].op
  }

  ghost predicate IsOp(ts: seq<Txn>, op: nat) {
    exists t <- ts :: t.op == op
  }

  /** The changes in `es` are those of the operations, each one's in its order. */
  ghost predicate Interleaved(es: seq<Step>, ts: seq<Txn>) {
    (forall t <- ts :: Of(es, t.op) == t.steps) && forall e <- es :: IsOp(ts, e.op)
  }

  ghost predicate ApartTwo(s: Txn, t: Txn) {
    forall x <- s.steps, y <- t.steps :: !Clash(x.act, y.act)
  }

  /** No two operations change the same bit, data block or inode. */
  ghost predicate Apart(ts: seq<Txn>) {
    forall i, j :: 0 <= i < |ts| && 0 <= j < |ts| && i != j ==> ApartTwo(ts[i], ts[j])
  }

  lemma InOf(es: seq<Step>, e: Step)
    requires e in es
    ensures e in Of(es, e.op)
    decreases |es|
  {
    if es[0] != e { InOf(es[1..], e); }
  }

  lemma FirstAlone(es: seq<Step>, ts: seq<Txn>)
    requires ts != [] && Interleaved(es, ts) && DistinctOps(ts) && Apart(ts)
    ensures Alone(es, ts[0].op)
  {
    hide Clash;
    forall x, y | x in es && y in es && x.op == ts[0].op && y.op != ts[0].op
      ensures !Clash(y.act, x.act)
    {
      InOf(es, x);
      InOf(es, y);
      assert IsOp(ts, y.op);
      var t :| t in ts && t.op == y.op;
      var k :| 0 <= k < |ts| && ts[k] == t;
      assert ApartTwo(ts[k], ts[0]);
    }
  }

  lemma RestInterleaved(es: seq<Step>, ts: seq<Txn>)
    requires ts != [] && Interleaved(es, ts) && DistinctOps(ts)
    ensures Interleaved(Without(es, ts[0].op), ts[1..])
  {
    var a := ts[0].op;
    forall t | t in ts[1..]
      ensures Of(Without(es, a), t.op) == t.steps
    {
      var k :| 0 <= k < |ts| - 1 && ts[1..][k] == t;
      assert ts[k + 1] == t && t in ts;
      OfWithout(es, a, t.op);
    }
    forall e | e in Without(es, a)
      ensures IsOp(ts[1..], e.op)
    {
      assert IsOp(ts, e.op);
      var t :| t in ts && t.op == e.op;
      assert t in ts[1..];
    }
  }

  lemma StepHasOp(es: seq<Step>, ts: seq<Txn>)
    requires es != [] && ts == []
    ensures !Interleaved(es, ts)
  {
    assert es[0] in es && !IsOp(ts, es[0].op);
  }

  /** Operations that overlap but change different things leave the disk as if
      they had run one after the other. */
  lemma {:induction false} Serializes(sb: Super, d: Disk, es: seq<Step>, ts: seq<Txn>)
    requires Sized(sb, d) && Interleaved(es, ts) && DistinctOps(ts) && Apart(ts)
    ensures Exec(sb, d, es) == Exec(sb, d, AllSteps(ts))
    decreases |ts|
  {
    hide Do, Exec, Clash, Alone, Of, Without, ApartTwo;
    if ts == [] {
      if es != [] { StepHasOp(es, ts); }
    } else {
      var op := ts[0].op;
      FirstAlone(es, ts);
      RunFirst(sb, d, es, op);
      assert Of(es, op) == ts[0].steps;
      var rest := Without(es, op);
      RestInterleaved(es, ts);
      Serializes(sb, Exec(sb, d, ts[0].steps), rest, ts[1..]);
      ExecTwice(sb, d, ts[0].steps, rest);
      ExecTwice(sb, d, ts[0].steps, AllSteps(ts[1..]));
    }
  }

  // ---- groups ----

  /** Operations that overlap between two commits: an order in which they might
      have run, and the order in which they have made their changes. */
  datatype Group = Group(v0: View, v: View, ts: seq<Txn>, es: seq<Step>)

  ghost predicate IsGroup(sb: Super, g: Group) {
    Serial(sb, g.ts, g.v0, g.v) && Interleaved(g.es, g.ts) && Apart(g.ts) && DistinctOps(g.ts)
  }

  ghost predicate Chain(sb: Super, gs: seq<Group>, v0: View, v: View)
    decreases |gs|
  {
    if gs == [] then v == v0
    else gs[0].v0 == v0 && IsGroup(sb, gs[0]) && Chain(sb, gs[1..], gs[0].v, v)
  }

  ghost function Events(gs: seq<Group>): seq<Step> {
    if gs == [] then [] else gs[0].es + Events(gs[1..])
  }

  ghost function Txns(gs: seq<Group>): seq<Txn> {
    if gs == [] then [] else gs[0].ts + Txns(gs[1..])
  }

  lemma {:induction false} ChainExec(sb: Super, gs: seq<Group>, v0: View, v: View)
    requires Ok(sb, v0) && Chain(sb, gs, v0, v)
    ensures Ok(sb, v) && Sized(sb, DiskOf(v0)) && Sized(sb, DiskOf(v))
    ensures Exec(sb, DiskOf(v0), Events(gs)) == DiskOf(v)
    decreases |gs|
  {
    hide Ok, Do, Serial, Interleaved, Apart, DistinctOps;
    OkSizes(sb, v0);
    if gs != [] {
      var g := gs[0];
      SerialOk(sb, g.ts, v0, g.v);
      SerialExec(sb, g.ts, v0, g.v);
      Serializes(sb, DiskOf(v0), g.es, g.ts);
      ChainExec(sb, gs[1..], g.v, v);
      ExecTwice(sb, DiskOf(v0), g.es, Events(gs[1..]));
    }
  }

  // ---- writes to different files ----

  /** Operation `k` writes to the file with inode `inums[k]` and to no other. */
  ghost predicate Writers(ts: seq<Txn>, inums: seq<nat>) {
    |inums| == |ts| && forall k :: 0 <= k < |ts| ==> Mine(ts[k].steps, ts[k].v0.owner, ts[k].v.owner, inums[k])
  }

  lemma {:induction false} OwnersExtend(sb: Super, ts: seq<Txn>, inums: seq<nat>, v0: View, v: View, k: nat)
    requires Serial(sb, ts, v0, v) && Writers(ts, inums) && k < |ts|
    ensures Extends(v0.owner, ts[k].v.owner)
    decreases |ts|
  {
    hide Done, Within;
    assert Mine(ts[0].steps, ts[0].v0.owner, ts[0].v.owner, inums[0]);
    if k > 0 {
      assert Writers(ts[1..], inums[1..]);
      OwnersExtend(sb, ts[1..], inums[1..], ts[0].v, v, k - 1);
    }
  }

  /** What an earlier one owns a later one finds owned. */
  lemma {:induction false} OwnersLater(sb: Super, ts: seq<Txn>, inums: seq<nat>, v0: View, v: View, i: nat, j: nat)
    requires Serial(sb, ts, v0, v) && Writers(ts, inums) && i < j < |ts|
    ensures Extends(ts[i].v.owner, ts[j].v.owner)
    decreases |ts|
  {
    hide Done, Mine;
    assert Writers(ts[1..], inums[1..]);
    if i > 0 {
      OwnersLater(sb, ts[1..], inums[1..], ts[0].v, v, i - 1, j - 1);
    } else {
      OwnersExtend(sb, ts[1..], inums[1..], ts[0].v, v, j - 1);
    }
  }

  /** Writes to different files change different things. */
  lemma WritersApart(sb: Super, ts: seq<Txn>, inums: seq<nat>, v0: View, v: View)
    requires Serial(sb, ts, v0, v) && Writers(ts, inums)
    requires forall i, j :: 0 <= i < j < |inums| ==> inums[i] != inums[j]
    ensures Apart(ts)
  {
    hide Serial;
    forall i, j | 0 <= i < j < |ts|
      ensures ApartTwo(ts[i], ts[j]) && ApartTwo(ts[j], ts[i])
    {
      OwnersLater(sb, ts, inums, v0, v, i, j);
      assert Mine(ts[i].steps, ts[i].v0.owner, ts[i].v.owner, inums[i]);
      assert Mine(ts[j].steps, ts[j].v0.owner, ts[j].v.owner, inums[j]);
      MineApart(ts[i], ts[j], inums[i], inums[j]);
    }
  }

  lemma MineApart(s: Txn, t: Txn, i: nat, j: nat)
    requires Mine(s.steps, s.v0.owner, s.v.owner, i) && Mine(t.steps, t.v0.owner, t.v.owner, j)
    requires Extends(s.v.owner, t.v.owner) && i != j
    ensures ApartTwo(s, t) && ApartTwo(t, s)
  {
    forall x, y | x in s.steps && y in t.steps
      ensures !Clash(x.act, y.act) && !Clash(y.act, x.act)
    {
      assert Within(x.act, s.v.owner, i) && Within(y.act, t.v.owner, j);
    }
  }
}
