/** The disk as bytes: inodes packed eight to a block beside the bitmap and the
    data, and what a crash leaves of it. */
module Image {
  import opened Bitmap
  import opened Blocks
  import opened Dinodes
  import opened DiskLayout
  import opened Fs
  import opened LogSteps
  import opened Transactions
  import L = LogMachine

  // ---- consistency as a property of the disk alone ----

  /** The bitmap, the inodes and the blocks they refer to agree. */
  ghost predicate Consistent(sb: Super, disk: seq<Block>) {
    sb.Good() && |disk| == sb.size && exists owner :: Ok(sb, View(disk, TabOf(sb, disk), owner))
  }

  ghost predicate SameFrom(lo: nat, store: seq<Block>, store': seq<Block>) {
    |store'| == |store| && forall b: nat {:trigger store'[b]} :: lo <= b < |store| ==> store'[b] == store[b]
  }

  lemma SameA(sb: Super, v: View, store': seq<Block>, j: nat, s: nat)
    requires Ok(sb, v) && SameFrom(sb.bmapstart, v.store, store') && j < |v.tab| && s < NSLOTS
    ensures Addr(store', v.tab[j], s) == v.A(j, s)
  {
    hide Referenced, Covered, Free, GetWord;
    if v.A(j, NDIRECT) != 0 { OwnedSlot(sb, v, j, NDIRECT); }
    SameSlots(sb, v, store', j, s);
  }

  lemma SameCovered(v: View, v': View, j: nat)
    requires j < |v.tab| == |v'.tab| && v'.tab[j] == v.tab[j] && Covered(v, j)
    requires forall s: nat {:trigger v'.A(j, s)} :: s < NSLOTS ==> v'.A(j, s) == v.A(j, s)
    ensures Covered(v', j)
  {
    hide View.A;
  }

  lemma SameReferenced(sb: Super, v: View, v': View)
    requires Referenced(sb, v) && v'.tab == v.tab && v'.owner == v.owner
    requires forall j: nat, s: nat {:trigger v'.A(j, s)} {:trigger v.A(j, s)} :: j < |v.tab| && s < NSLOTS ==>
      v'.A(j, s) == v.A(j, s)
    ensures Referenced(sb, v')
  {
    hide View.A;
  }

  /** Blocks before the bitmap do not matter. */
  lemma SameOk(sb: Super, v: View, store': seq<Block>)
    requires Ok(sb, v) && SameFrom(sb.bmapstart, v.store, store')
    ensures Ok(sb, v.(store := store'))
  {
    hide UsedIn, Referenced, Covered;
    var v' := v.(store := store');
    assert Free(sb, store') == Free(sb, v.store);
    forall j: nat, s: nat {:trigger v'.A(j, s)} | j < |v.tab| && s < NSLOTS
      ensures v'.A(j, s) == v.A(j, s)
    {
      SameA(sb, v, store', j, s);
    }
    SameReferenced(sb, v, v');
    forall j: nat | j < |v'.tab|
      ensures Covered(v', j)
    {
      assert Covered(v, j);
      SameCovered(v, v', j);
    }
  }

  /** A file system in order is a consistent disk once its inodes are packed. */
  lemma ImageConsistent(sb: Super, v: View)
    requires Ok(sb, v)
    ensures Consistent(sb, Image(sb, v.store, v.tab, |v.tab|))
  {
    hide Ok, Image;
    OkSizes(sb, v);
    var disk := Image(sb, v.store, v.tab, |v.tab|);
    forall b: nat | sb.bmapstart <= b < sb.size
      ensures disk[b] == v.store[b]
    {
      ImageOthers(sb, v.store, v.tab, |v.tab|, b);
    }
    SameOk(sb, v, disk);
    TabOfImage(sb, v.store, v.tab);
    assert v.(store := disk) == View(disk, TabOf(sb, disk), v.owner);
  }

  /** Only the blocks from the inodes on matter. */
  lemma SameConsistent(sb: Super, disk: seq<Block>, disk': seq<Block>)
    requires Consistent(sb, disk) && SameFrom(sb.inodestart, disk, disk')
    ensures Consistent(sb, disk')
  {
    hide Ok, Unpack;
    var owner :| Ok(sb, View(disk, TabOf(sb, disk), owner));
    assert SameFrom(sb.bmapstart, disk, disk');
    SameOk(sb, View(disk, TabOf(sb, disk), owner), disk');
    forall i: nat | i < sb.ninodes
      ensures TabOf(sb, disk')[i] == TabOf(sb, disk)[i]
    {
      InodeBlock(sb, i);
    }
    assert TabOf(sb, disk') == TabOf(sb, disk);
  }

  // ---- operations and the log ----

  /** An operation that has passed every change to log_write has changed no
      other block of the disk. */
  lemma LoggedIsAll(sb: Super, d0: Disk, d: Disk, logged: set<nat>, op: nat, es: seq<Step>, b: nat)
    requires InLog(sb, d0, d, logged, op, es) && b < sb.size
    ensures ImageOf(sb, d)[b] != ImageOf(sb, d0)[b] ==> b in logged
  {
    hide ImageOf, Exec, WritesOf;
    WritesApply(sb, d0, es);
    var ws := WritesOf(sb, d0, es);
    L.ApplyAt(ImageOf(sb, d0), ws, b);
    var k := L.LogIndex(L.BlocksOf(ws), b);
    if k >= 0 { WritesIn(sb, d0, es, ws[k]); }
  }

  /** Groups of overlapping operations, each of which has passed every change to
      log_write: the log's writes take the image before them to the image after
      them, which is consistent. */
  lemma GroupApplied(sb: Super, gs: seq<Group>, v0: View, v: View)
    requires Ok(sb, v0) && Chain(sb, gs, v0, v)
    ensures Sized(sb, DiskOf(v0)) && Sized(sb, DiskOf(v)) && Ok(sb, v)
    ensures L.Apply(ImageOf(sb, DiskOf(v0)), WritesOf(sb, DiskOf(v0), Events(gs))) == ImageOf(sb, DiskOf(v))
    ensures Consistent(sb, ImageOf(sb, DiskOf(v)))
  {
    hide Image, Ok, Chain, Consistent, Exec, WritesOf, Events;
    ChainExec(sb, gs, v0, v);
    WritesApply(sb, DiskOf(v0), Events(gs));
    ImageConsistent(sb, v);
  }

  /** After a crash at any point of any run, also in a commit or a recovery, the
      recovered disk is a consistent file system, if every group of operations
      leaves one. */
  lemma CrashConsistent(g: L.Geometry, sb: Super, tr: seq<L.State>, i: nat)
    requires L.Run(g, tr) && i < |tr| && g.size == sb.size && g.start + g.nlog <= sb.inodestart
    requires Consistent(sb, tr[0].disk)
    requires forall j: nat :: j <= i && tr[j].phase.Copy? ==> Consistent(sb, L.Apply(tr[j].h.base, tr[j].h.writes))
    ensures L.DiskOk(g, tr[i].disk) && Consistent(sb, L.Recover(g, tr[i].disk, 0))
  {
    hide L.Run, L.Recover, L.DiskOk, Consistent;
    L.CrashAtomicity(g, tr, i);
    L.GroupsKeep(g, tr, i, d => Consistent(sb, d));
    var d, r := L.Apply(tr[0].disk, tr[i].h.writes[..tr[i].h.cut]), L.Recover(g, tr[i].disk, 0);
    assert SameFrom(sb.inodestart, d, r) by {
      assert forall b: nat :: sb.inodestart <= b < g.size ==> g.Home(b);
    }
    SameConsistent(sb, d, r);
  }

  // ---- crashes between and in operations ----

  /** The disk holds the file system `v`, up to the blocks before the inodes. */
  ghost predicate Holds(sb: Super, v: View, disk: seq<Block>) {
    Sized(sb, DiskOf(v)) && SameFrom(sb.inodestart, ImageOf(sb, DiskOf(v)), disk)
  }

  /** The writes are those of the operations in `gs`, with their ids, and the
      operations lead from `v0` to `v`. */
  ghost predicate Explains(sb: Super, gs: seq<Group>, v0: View, ws: seq<L.Write>, v: View) {
    && Sized(sb, DiskOf(v0)) && Chain(sb, gs, v0, v) && DistinctOps(Txns(gs))
    && WritesOf(sb, DiskOf(v0), Events(gs)) == ws
  }

  ghost predicate Explained(sb: Super, v0: View, ws: seq<L.Write>) {
    exists gs: seq<Group>, v: View :: Explains(sb, gs, v0, ws, v)
  }

  lemma ApplySameFrom(lo: nat, d: seq<Block>, d': seq<Block>, ws: seq<L.Write>)
    requires SameFrom(lo, d, d')
    ensures SameFrom(lo, L.Apply(d, ws), L.Apply(d', ws))
  {
    forall b: nat | lo <= b < |d|
      ensures L.Apply(d', ws)[b] == L.Apply(d, ws)[b]
    {
      L.ApplyAt(d, ws, b);
      L.ApplyAt(d', ws, b);
    }
  }

  lemma NoneExplained(sb: Super, v0: View)
    requires Sized(sb, DiskOf(v0))
    ensures Explains(sb, [], v0, [], v0)
  {
  }

  /** Operations one after the other, as filewrite's transactions are, explain
      what they log: each is a group. */
  lemma {:induction false} SerialExplains(sb: Super, ts: seq<Txn>, v0: View, v: View) returns (gs: seq<Group>)
    requires Ok(sb, v0) && Serial(sb, ts, v0, v) && DistinctOps(ts)
    ensures Sized(sb, DiskOf(v0)) && Txns(gs) == ts && Events(gs) == AllSteps(ts)
    ensures Explains(sb, gs, v0, WritesOf(sb, DiskOf(v0), AllSteps(ts)), v)
    decreases |ts|
  {
    hide Ok, InLog, WritesOf, Interleaved, Apart;
    OkSizes(sb, v0);
    if ts == [] {
      gs := [];
    } else {
      var t := ts[0];
      var rest := SerialExplains(sb, ts[1..], t.v, v);
      var g := Group(v0, t.v, [t], t.steps);
      OneIsGroup(sb, t);
      gs := [g] + rest;
      assert gs[1..] == rest && [t] + ts[1..] == ts;
    }
  }

  lemma OneIsGroup(sb: Super, t: Txn)
    requires Done(sb, t)
    ensures IsGroup(sb, Group(t.v0, t.v, [t], t.steps))
  {
    hide Ok, Exec;
    SerialNone(sb, t.v);
    assert [t][1..] == [] && Serial(sb, [t], t.v0, t.v);
    AllItsOwn(t.steps, t.op);
    assert t in [t] && IsOp([t], t.op);
    assert Interleaved(t.steps, [t]);
    assert Apart([t]) && DistinctOps([t]);
  }

  /** And so do overlapping writes to different files. */
  lemma WritersExplain(sb: Super, ts: seq<Txn>, inums: seq<nat>, es: seq<Step>, v0: View, v: View)
    requires Ok(sb, v0) && Serial(sb, ts, v0, v) && Writers(ts, inums) && DistinctOps(ts) && Interleaved(es, ts)
    requires forall i, j :: 0 <= i < j < |inums| ==> inums[i] != inums[j]
    ensures Sized(sb, DiskOf(v0)) && Explains(sb, [Group(v0, v, ts, es)], v0, WritesOf(sb, DiskOf(v0), es), v)
  {
    hide Ok, Done, WritesOf, Interleaved, Apart, Serial, DistinctOps, Writers;
    OkSizes(sb, v0);
    WritersApart(sb, ts, inums, v0, v);
    var gs := [Group(v0, v, ts, es)];
    assert gs[1..] == [] && es + [] == es && ts + [] == ts;
    assert Events(gs[1..]) == [] && Txns(gs[1..]) == [] && Chain(sb, gs[1..], v, v);
  }

  /** The disk after the writes of some operations is the one they have left. */
  lemma ExplainedHolds(sb: Super, gs: seq<Group>, v0: View, ws: seq<L.Write>, v: View, disk: seq<Block>)
    requires Ok(sb, v0) && Explains(sb, gs, v0, ws, v) && Holds(sb, v0, disk)
    ensures Ok(sb, v) && Holds(sb, v, L.Apply(disk, ws))
  {
    hide Ok, ImageOf, Chain, DistinctOps, WritesOf, L.Apply;
    GroupApplied(sb, gs, v0, v);
    ApplySameFrom(sb.inodestart, ImageOf(sb, DiskOf(v0)), disk, ws);
  }

  lemma HoldsConsistent(sb: Super, v: View, disk: seq<Block>)
    requires Ok(sb, v) && Holds(sb, v, disk)
    ensures Consistent(sb, disk)
  {
    hide Ok, Image, Consistent;
    ImageConsistent(sb, v);
    SameConsistent(sb, ImageOf(sb, DiskOf(v)), disk);
  }

  /** Recovery from a crash at any point of any run. If what had been logged at
      each commit was the work of operations, overlapping within groups but
      changing different things there, then what has been committed is the work
      of such operations, whole and under their own ids, and the recovered disk
      holds what they leave when they run one after the other. */
  lemma CrashOperations(g: L.Geometry, sb: Super, tr: seq<L.State>, i: nat, v0: View) returns (gs: seq<Group>, v: View)
    requires L.Run(g, tr) && i < |tr| && g.size == sb.size && g.start + g.nlog <= sb.inodestart
    requires Ok(sb, v0) && Holds(sb, v0, tr[0].disk)
    requires forall j: nat :: j <= i && tr[j].phase.Copy? ==> Explained(sb, v0, tr[j].h.writes)
    ensures L.DiskOk(g, tr[i].disk) && tr[i].h.cut <= |tr[i].h.writes|
    ensures Explains(sb, gs, v0, tr[i].h.writes[..tr[i].h.cut], v)
    ensures Ok(sb, v) && Holds(sb, v, L.Recover(g, tr[i].disk, 0)) && Consistent(sb, L.Recover(g, tr[i].disk, 0))
  {
    hide L.Run, L.Recover, L.DiskOk, Consistent, Ok, Explains, ImageOf;
    L.CrashAtomicity(g, tr, i);
    var j := L.CommittedAt(g, tr, i);
    var ws := tr[i].h.writes[..tr[i].h.cut];
    if j >= 0 {
      assert Explained(sb, v0, tr[j].h.writes);
      gs, v :| Explains(sb, gs, v0, ws, v);
    } else {
      NoneExplained(sb, v0);
      gs, v := [], v0;
    }
    ExplainedHolds(sb, gs, v0, ws, v, tr[0].disk);
    var d, r := L.Apply(tr[0].disk, ws), L.Recover(g, tr[i].disk, 0);
    assert SameFrom(sb.inodestart, d, r) by {
      assert forall b: nat :: sb.inodestart <= b < g.size ==> g.Home(b);
    }
    HoldsSame(sb, v, d, r);
    HoldsConsistent(sb, v, r);
  }

  lemma HoldsSame(sb: Super, v: View, d: seq<Block>, r: seq<Block>)
    requires Holds(sb, v, d) && SameFrom(sb.inodestart, d, r)
    ensures Holds(sb, v, r)
  {
    hide ImageOf;
  }
}
