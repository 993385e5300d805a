/** The redo log as a machine whose steps are the atomic events of the kernel:
    an operation begins, logs one block or ends; commit or recovery writes one
    disk block; the cache loads or forgets a block; the power fails. */
module LogMachine {
  import opened Blocks
  import opened BufferCache
  import opened Params

  /** The superblock fields the log uses: the log occupies `nlog` blocks from
      `start`, the first of which is the header. */
  datatype Geometry = Geometry(start: nat, nlog: nat, size: nat)
  {
    ghost predicate Ok() {
      1 <= nlog <= LOGSIZE && start + nlog <= size <= 0x1_0000_0000
    }

    ghost predicate Home(b: nat) {
      b < size && !(start <= b < start + nlog)
    }

    /** A list of block numbers that fits in the log. */
    ghost predicate Fits(lh: seq<nat>) {
      |lh| < nlog && forall i :: 0 <= i < |lh| ==> Home(lh[i])
    }
  }

  // ---- the header block ----

  function PutWords(h: Block, lh: seq<nat>, k: nat): Block
    requires k <= |lh| < NWORDS && forall i :: 0 <= i < |lh| ==> lh[i] < 0x1_0000_0000
  {
    if k == 0 then SetWord(h, 0, |lh|) else SetWord(PutWords(h, lh, k - 1), k, lh[k - 1])
  }

  function EncodeHead(h: Block, lh: seq<nat>): Block
    requires |lh| < NWORDS && forall i :: 0 <= i < |lh| ==> lh[i] < 0x1_0000_0000
  {
    PutWords(h, lh, |lh|)
  }

  ghost predicate HeadOk(h: Block) {
    GetWord(h, 0) <= LOGSIZE
  }

  function DecodeHead(h: Block): seq<nat>
    requires GetWord(h, 0) <= LOGSIZE
  {
    seq(GetWord(h, 0), i requires 0 <= i < GetWord(h, 0) => GetWord(h, i + 1))
  }

  lemma {:induction false} PutWordsAt(h: Block, lh: seq<nat>, k: nat, j: nat)
    requires k <= |lh| < NWORDS && j <= k
    requires forall i :: 0 <= i < |lh| ==> lh[i] < 0x1_0000_0000
    ensures GetWord(PutWords(h, lh, k), j) == if j == 0 then |lh| as int else lh[j - 1]
  {
    if k == 0 {
      GetAfterSet(h, 0, |lh|, j);
    } else {
      GetAfterSet(PutWords(h, lh, k - 1), k, lh[k - 1], j);
      if j < k { PutWordsAt(h, lh, k - 1, j); }
    }
  }

  /** The header is the number of blocks and then their numbers, a word each. */
  lemma HeadWords(h: Block, lh: seq<nat>)
    requires |lh| <= LOGSIZE && forall i :: 0 <= i < |lh| ==> lh[i] < 0x1_0000_0000
    ensures GetWord(EncodeHead(h, lh), 0) == |lh|
    ensures forall i :: 0 <= i < |lh| ==> GetWord(EncodeHead(h, lh), i + 1) == lh[i]
  {
    forall j: nat | j <= |lh|
      ensures GetWord(EncodeHead(h, lh), j) == if j == 0 then |lh| as int else lh[j - 1]
    {
      PutWordsAt(h, lh, |lh|, j);
    }
  }

  /** What write_head stores is what read_head loads. */
  lemma HeadRoundTrip(h: Block, lh: seq<nat>)
    requires |lh| <= LOGSIZE && forall i :: 0 <= i < |lh| ==> lh[i] < 0x1_0000_0000
    ensures HeadOk(EncodeHead(h, lh)) && DecodeHead(EncodeHead(h, lh)) == lh
  {
    forall j: nat | j <= |lh|
      ensures GetWord(EncodeHead(h, lh), j) == if j == 0 then |lh| as int else lh[j - 1]
    {
      PutWordsAt(h, lh, |lh|, j);
    }
  }

  // ---- what recovery makes of a disk ----

  /** The last log entry for block `b`, or -1. */
  ghost function LogIndex(lh: seq<nat>, b: nat): (i: int)
    ensures -1 <= i < |lh|
    ensures i >= 0 ==> lh[i] == b
    ensures forall j: nat :: i < j < |lh| ==> lh[j] != b
  {
    if lh == [] then -1
    else if lh[|lh| - 1] == b then |lh| - 1
    else LogIndex(lh[..|lh| - 1], b)
  }

  ghost predicate DiskOk(g: Geometry, disk: seq<Block>) {
    && g.Ok()
    && |disk| == g.size
    && HeadOk(disk[g.start])
    && g.Fits(DecodeHead(disk[g.start]))
  }

  /** The contents of home block `b` once the committed log is installed. */
  ghost function Replay(g: Geometry, disk: seq<Block>, b: nat): Block
    requires DiskOk(g, disk) && g.Home(b)
  {
    var i := LogIndex(DecodeHead(disk[g.start]), b);
    if i >= 0 then disk[g.start + 1 + i] else disk[b]
  }

  /** The log block after the header at distance `k` is the new contents of the
      block that word `k` of the header names, unless a later word names it too. */
  lemma ReplayMeans(g: Geometry, disk: seq<Block>, b: nat, k: nat)
    requires DiskOk(g, disk) && g.Home(b) && k <= GetWord(disk[g.start], 0)
    requires forall j: nat :: k < j <= GetWord(disk[g.start], 0) ==> GetWord(disk[g.start], j) != b
    ensures k > 0 && GetWord(disk[g.start], k) == b ==> g.start + k < |disk| && Replay(g, disk, b) == disk[g.start + k]
    ensures k == 0 ==> b < |disk| && Replay(g, disk, b) == disk[b]
  {
    hide GetWord;
    var lh := DecodeHead(disk[g.start]);
    assert forall j: nat {:trigger lh[j]} :: j < |lh| ==> lh[j] == GetWord(disk[g.start], j + 1);
    assert k > 0 ==> lh[k - 1] == GetWord(disk[g.start], k);
  }

  // ---- states ----

  datatype Phase =
    | Boot                             // memory lost, the header not yet read
    | Ready                            // operations may run
    | Copy(tail: nat)                  // write_log, then the commit point
    | Install(tail: nat, boot: bool)   // install_trans, then the header is cleared

  /** A running operation and the distinct blocks it has logged. */
  datatype Op = Op(id: nat, logged: set<nat>)

  datatype Write = Write(op: nat, block: nat, data: Block)

  /** Not in the kernel: every surviving log_write since `base`, of which the
      first `cut` have been committed. */
  datatype History = History(base: seq<Block>, writes: seq<Write>, cut: nat, nextId: nat)

  datatype State = State(
    disk: seq<Block>, cache: map<nat, Entry>, lh: seq<nat>, ops: seq<Op>, phase: Phase, h: History)

  ghost function Apply(base: seq<Block>, ws: seq<Write>): (d: seq<Block>)
    ensures |d| == |base|
  {
    if ws == [] then base
    else
      var d := Apply(base, ws[..|ws| - 1]);
      var w := ws[|ws| - 1];
      if w.block < |d| then d[w.block := w.data] else d
  }

  function BlocksOf(ws: seq<Write>): (r: seq<nat>)
    ensures |r| == |ws| && forall k :: 0 <= k < |ws| ==> r[k] == ws[k].block
  {
    seq(|ws|, k requires 0 <= k < |ws| => ws[k].block)
  }

  /** The last write to a block is what it holds. */
  lemma {:induction false} ApplyAt(base: seq<Block>, ws: seq<Write>, b: nat)
    requires b < |base|
    ensures var k := LogIndex(BlocksOf(ws), b);
      Apply(base, ws)[b] == if k >= 0 then ws[k].data else base[b]
  {
    if ws != [] {
      ApplyAt(base, ws[..|ws| - 1], b);
      assert BlocksOf(ws)[..|ws| - 1] == BlocksOf(ws[..|ws| - 1]);
    }
  }

  // ---- steps ----

  datatype Step =
    | Begin
    | LogWrite(i: nat, b: nat, v: Block)
    | End(i: nat)
    | CopyBlock
    | CommitHead
    | InstallBlock
    | EraseHead
    | Reboot
    | CacheMove
    | Crash

  /** Loads of clean blocks and departures of clean blocks. */
  ghost predicate Evolve(disk: seq<Block>, c: map<nat, Entry>, c': map<nat, Entry>) {
    && (forall k <- c' :: if k in c then c'[k] == c[k] else k < |disk| && c'[k] == Entry(disk[k], false))
    && (forall k <- c :: c[k].dirty ==> k in c')
  }

  /** The same, with block `k` set to `e`. */
  ghost predicate Stored(disk: seq<Block>, c: map<nat, Entry>, k: nat, e: Entry, c': map<nat, Entry>) {
    && k in c' && c'[k] == e
    && (forall j <- c' :: j == k || if j in c then c'[j] == c[j] else j < |disk| && c'[j] == Entry(disk[j], false))
    && (forall j <- c :: c[j].dirty ==> j in c')
  }

  ghost predicate BeginStep(g: Geometry, s: State, s': State) {
    && s.phase.Ready?
    && |s.lh| + (|s.ops| + 1) * MAXOPBLOCKS <= LOGSIZE
    && s' == s.(ops := s.ops + [Op(s.h.nextId, {})], h := s.h.(nextId := s.h.nextId + 1))
  }

  /** The test that panics with "too big a transaction". */
  ghost predicate TooBig(g: Geometry, lh: seq<nat>) {
    |lh| >= LOGSIZE || |lh| >= g.nlog - 1
  }

  ghost function Absorb(lh: seq<nat>, b: nat): seq<nat> {
    if b in lh then lh else lh + [b]
  }

  ghost predicate WriteStep(g: Geometry, s: State, s': State, i: nat, b: nat, v: Block) {
    && s.phase.Ready? && i < |s.ops| && g.Home(b)
    && !TooBig(g, s.lh)
    && Stored(s.disk, s.cache, b, Entry(v, true), s'.cache)
    && s' == s.(
      cache := s'.cache,
      lh := Absorb(s.lh, b),
      ops := s.ops[i := s.ops[i].(logged := s.ops[i].logged + {b})],
      h := s.h.(writes := s.h.writes + [Write(s.ops[i].id, b, v)]))
  }

  ghost predicate EndStep(g: Geometry, s: State, s': State, i: nat) {
    && s.phase.Ready? && i < |s.ops|
    && var ops := s.ops[..i] + s.ops[i + 1..];
    s' == s.(
      ops := ops,
      phase := if ops == [] && |s.lh| > 0 then Copy(0) else Ready)
  }

  ghost predicate CopyStep(g: Geometry, s: State, s': State) {
    && s.phase.Copy? && s.phase.tail < |s.lh| && g.start + |s.lh| < |s.disk|
    && var to := g.start + 1 + s.phase.tail;
    var from := s.lh[s.phase.tail];
    && (from in s.cache || from < |s.disk|)
    && var v := Logical(s.disk, s.cache, from);
    && Stored(s.disk, s.cache, to, Entry(v, false), s'.cache)
    && s' == s.(disk := s.disk[to := v], cache := s'.cache, phase := Copy(s.phase.tail + 1))
  }

  /** write_head: the header block gets `lh`. */
  ghost predicate HeadStep(g: Geometry, s: State, s': State, lh: seq<nat>) {
    && g.start < |s.disk| && |lh| < NWORDS && (forall i :: 0 <= i < |lh| ==> lh[i] < 0x1_0000_0000)
    && var v := EncodeHead(Logical(s.disk, s.cache, g.start), lh);
    && Stored(s.disk, s.cache, g.start, Entry(v, false), s'.cache)
    && s'.disk == s.disk[g.start := v]
  }

  /** The point at which the group commits. */
  ghost predicate CommitStep(g: Geometry, s: State, s': State) {
    && s.phase == Copy(|s.lh|)
    && HeadStep(g, s, s', s.lh)
    && s' == s.(disk := s'.disk, cache := s'.cache, phase := Install(0, false), h := s.h.(cut := |s.h.writes|))
  }

  ghost predicate InstallStep(g: Geometry, s: State, s': State) {
    && s.phase.Install? && s.phase.tail < |s.lh| && g.start + |s.lh| < |s.disk|
    && var from := g.start + 1 + s.phase.tail;
    var to := s.lh[s.phase.tail];
    && to < |s.disk|
    && var v := Logical(s.disk, s.cache, from);
    && Stored(s.disk, s.cache, to, Entry(v, false), s'.cache)
    && s' == s.(disk := s.disk[to := v], cache := s'.cache, phase := s.phase.(tail := s.phase.tail + 1))
  }

  ghost predicate EraseStep(g: Geometry, s: State, s': State) {
    && s.phase.Install? && s.phase.tail == |s.lh|
    && HeadStep(g, s, s', [])
    && s' == s.(disk := s'.disk, cache := s'.cache, lh := [], phase := Ready)
  }

  /** read_head at the start of recovery. */
  ghost predicate RebootStep(g: Geometry, s: State, s': State) {
    && s.phase.Boot? && DiskOk(g, s.disk)
    && Evolve(s.disk, s.cache, s'.cache)
    && s' == s.(cache := s'.cache, lh := DecodeHead(s.disk[g.start]), phase := Install(0, true))
  }

  ghost predicate CacheStep(g: Geometry, s: State, s': State) {
    Evolve(s.disk, s.cache, s'.cache) && s' == s.(cache := s'.cache)
  }

  /** Memory is lost; so are the writes that were not committed. */
  ghost predicate CrashStep(g: Geometry, s: State, s': State) {
    s.h.cut <= |s.h.writes| &&
    s' == State(s.disk, map[], [], [], Boot, s.h.(writes := s.h.writes[..s.h.cut]))
  }

  ghost predicate NextBy(g: Geometry, s: State, s': State, step: Step) {
    match step
    case Begin => BeginStep(g, s, s')
    case LogWrite(i, b, v) => WriteStep(g, s, s', i, b, v)
    case End(i) => EndStep(g, s, s', i)
    case CopyBlock => CopyStep(g, s, s')
    case CommitHead => CommitStep(g, s, s')
    case InstallBlock => InstallStep(g, s, s')
    case EraseHead => EraseStep(g, s, s')
    case Reboot => RebootStep(g, s, s')
    case CacheMove => CacheStep(g, s, s')
    case Crash => CrashStep(g, s, s')
  }

  ghost predicate Next(g: Geometry, s: State, s': State) {
    exists step :: NextBy(g, s, s', step)
  }

  /** A freshly made file system: the log is empty. */
  ghost predicate Init(g: Geometry, s: State) {
    && DiskOk(g, s.disk) && DecodeHead(s.disk[g.start]) == []
    && s == State(s.disk, map[], [], [], Boot, History(s.disk, [], 0, 0))
  }

  // ---- the invariant ----

  ghost predicate Distinct(lh: seq<nat>) {
    forall i, j :: 0 <= i < j < |lh| ==> lh[i] != lh[j]
  }

  /** No operation has writes on both sides of the cut, and none that is still
      running has any before it. */
  ghost predicate AllOrNothing(h: History, ops: seq<Op>) {
    && h.cut <= |h.writes|
    && (forall i, j :: 0 <= i < h.cut <= j < |h.writes| ==> h.writes[i].op != h.writes[j].op)
    && (forall i, k :: 0 <= i < h.cut && 0 <= k < |ops| ==> h.writes[i].op != ops[k].id)
  }

  ghost predicate Ids(h: History, ops: seq<Op>) {
    && (forall i :: 0 <= i < |h.writes| ==> h.writes[i].op < h.nextId)
    && (forall k :: 0 <= k < |ops| ==> ops[k].id < h.nextId)
  }

  /** Clean blocks agree with the disk; only logged blocks are dirty. */
  ghost predicate CacheOk(disk: seq<Block>, c: map<nat, Entry>, lh: seq<nat>) {
    forall k <- c :: k < |disk| && (if c[k].dirty then k in lh else c[k].data == disk[k])
  }

  /** Every reader sees the latest logged write of a home block. */
  ghost predicate View(g: Geometry, disk: seq<Block>, c: map<nat, Entry>, h: History) {
    |disk| == g.size == |h.base| &&
    forall b: nat :: g.Home(b) ==> Logical(disk, c, b) == Apply(h.base, h.writes)[b]
  }

  ghost predicate Pinned(s: State) {
    forall i :: 0 <= i < |s.lh| ==> s.lh[i] in s.cache && s.cache[s.lh[i]].dirty
  }

  /** Recovery would produce exactly the committed writes. */
  ghost predicate Recoverable(g: Geometry, disk: seq<Block>, h: History) {
    && DiskOk(g, disk) && |h.base| == g.size && h.cut <= |h.writes|
    && forall b: nat :: g.Home(b) ==> Replay(g, disk, b) == Apply(h.base, h.writes[..h.cut])[b]
  }

  /** Home blocks whose last log entry is before `t` have been installed. */
  ghost predicate Installed(g: Geometry, disk: seq<Block>, lh: seq<nat>, t: nat)
    requires DiskOk(g, disk)
  {
    forall b: nat :: g.Home(b) && LogIndex(lh, b) < t ==> disk[b] == Replay(g, disk, b)
  }

  ghost predicate DirtyFrom(c: map<nat, Entry>, lh: seq<nat>, t: nat) {
    forall k <- c :: c[k].dirty ==> LogIndex(lh, k) >= t
  }

  ghost predicate PhaseOk(g: Geometry, s: State)
    requires DiskOk(g, s.disk) && g.Fits(s.lh)
  {
    var onDisk := DecodeHead(s.disk[g.start]);
    match s.phase
    case Boot => s.lh == [] && s.ops == [] && s.h.cut == |s.h.writes|
    case Ready =>
      && onDisk == [] && View(g, s.disk, s.cache, s.h) && Pinned(s)
      && (s.ops == [] ==> s.lh == []) && (s.lh == [] ==> s.h.cut == |s.h.writes|)
    case Copy(t) =>
      && onDisk == [] && View(g, s.disk, s.cache, s.h) && Pinned(s) && s.ops == [] && t <= |s.lh|
      && (forall i :: 0 <= i < t ==> s.disk[g.start + 1 + i] == s.cache[s.lh[i]].data)
    case Install(t, boot) =>
      && onDisk == s.lh && s.ops == [] && t <= |s.lh| && s.h.cut == |s.h.writes|
      && (!boot ==> View(g, s.disk, s.cache, s.h))
      && DirtyFrom(s.cache, s.lh, if boot then |s.lh| else t)
      && Installed(g, s.disk, s.lh, t)
  }

  ghost predicate Inv(g: Geometry, s: State) {
    && DiskOk(g, s.disk) && Distinct(DecodeHead(s.disk[g.start]))
    && g.Fits(s.lh) && Distinct(s.lh)
    && CacheOk(s.disk, s.cache, s.lh)
    && Recoverable(g, s.disk, s.h)
    && AllOrNothing(s.h, s.ops) && Ids(s.h, s.ops)
    && PhaseOk(g, s)
  }

  lemma InitInv(g: Geometry, s: State)
    requires Init(g, s)
    ensures Inv(g, s)
  {
    assert s.h.writes[..s.h.cut] == [];
    forall b: nat | g.Home(b)
      ensures Replay(g, s.disk, b) == s.disk[b]
    {
    }
  }

  /** Copying a log block home, in full or again, does not change what
      recovery makes of the disk. */
  lemma ReplayInstall(g: Geometry, disk: seq<Block>, t: nat)
    requires DiskOk(g, disk) && t < |DecodeHead(disk[g.start])|
    ensures var lh := DecodeHead(disk[g.start]);
      var disk' := disk[lh[t] := disk[g.start + 1 + t]];
      && DiskOk(g, disk') && disk'[g.start] == disk[g.start]
      && (forall b: nat :: g.Home(b) ==> Replay(g, disk', b) == Replay(g, disk, b))
      && (Distinct(lh) ==> disk'[lh[t]] == Replay(g, disk, lh[t]))
  {
    var lh := DecodeHead(disk[g.start]);
    var disk' := disk[lh[t] := disk[g.start + 1 + t]];
    assert g.Home(lh[t]) && disk'[g.start] == disk[g.start];
    forall b: nat | g.Home(b)
      ensures Replay(g, disk', b) == Replay(g, disk, b)
    {
      var i := LogIndex(lh, b);
      if i >= 0 { assert lh[t] != g.start + 1 + i; }
    }
    if Distinct(lh) { assert LogIndex(lh, lh[t]) == t; }
  }

  lemma InstalledNext(g: Geometry, disk: seq<Block>, t: nat)
    requires DiskOk(g, disk) && t < |DecodeHead(disk[g.start])| && Distinct(DecodeHead(disk[g.start]))
    requires Installed(g, disk, DecodeHead(disk[g.start]), t)
    ensures var lh := DecodeHead(disk[g.start]);
      var disk' := disk[lh[t] := disk[g.start + 1 + t]];
      DiskOk(g, disk') && Installed(g, disk', lh, t + 1)
  {
    var lh := DecodeHead(disk[g.start]);
    var disk' := disk[lh[t] := disk[g.start + 1 + t]];
    ReplayInstall(g, disk, t);
    hide Replay, DecodeHead;
    forall b: nat | g.Home(b) && LogIndex(lh, b) < t + 1
      ensures disk'[b] == Replay(g, disk', b)
    {
      if LogIndex(lh, b) == t { assert b == lh[t]; }
    }
  }

  /** Writing a header over an empty one commits exactly its log blocks. */
  lemma ReplayCommit(g: Geometry, disk: seq<Block>, v: Block)
    requires DiskOk(g, disk) && DecodeHead(disk[g.start]) == []
    requires HeadOk(v) && g.Fits(DecodeHead(v))
    ensures var lh := DecodeHead(v);
      var disk' := disk[g.start := v];
      && DiskOk(g, disk')
      && (forall b: nat :: g.Home(b) ==>
          Replay(g, disk', b) == if LogIndex(lh, b) >= 0 then disk[g.start + 1 + LogIndex(lh, b)] else disk[b])
  {
  }

  // ---- every step keeps it ----

  /** What a block reads as does not depend on what happens to be cached. */
  lemma EvolveKeeps(disk: seq<Block>, c: map<nat, Entry>, c': map<nat, Entry>, lh: seq<nat>)
    requires CacheOk(disk, c, lh) && Evolve(disk, c, c')
    ensures CacheOk(disk, c', lh)
    ensures forall k: nat :: k < |disk| ==> Logical(disk, c', k) == Logical(disk, c, k)
    ensures forall k: nat :: k in c' && c'[k].dirty <==> k in c && c[k].dirty
  {
  }

  lemma StoredKeeps(disk: seq<Block>, c: map<nat, Entry>, k: nat, e: Entry, c': map<nat, Entry>, lh: seq<nat>)
    requires CacheOk(disk, c, lh) && Stored(disk, c, k, e, c') && k < |disk|
    ensures forall j: nat :: j < |disk| && j != k ==> Logical(disk, c', j) == Logical(disk, c, j)
    ensures forall j: nat :: j in c' && j != k && c'[j].dirty <==> j in c && j != k && c[j].dirty
    ensures !e.dirty ==> CacheOk(disk[k := e.data], c', lh)
  {
  }

  lemma BeginInv(g: Geometry, s: State, s': State)
    requires Inv(g, s) && BeginStep(g, s, s')
    ensures Inv(g, s')
  {
  }

  lemma CacheInv(g: Geometry, s: State, s': State)
    requires Inv(g, s) && CacheStep(g, s, s')
    ensures Inv(g, s')
  {
    EvolveKeeps(s.disk, s.cache, s'.cache, s.lh);
    assert View(g, s.disk, s.cache, s.h) ==> View(g, s'.disk, s'.cache, s'.h);
    hide View, Recoverable;
  }

  lemma CrashInv(g: Geometry, s: State, s': State)
    requires Inv(g, s) && CrashStep(g, s, s')
    ensures Inv(g, s')
  {
    assert s'.h.writes[..s'.h.cut] == s.h.writes[..s.h.cut];
  }

  lemma RebootInv(g: Geometry, s: State, s': State)
    requires Inv(g, s) && RebootStep(g, s, s')
    ensures Inv(g, s')
  {
  }

  lemma WriteInv(g: Geometry, s: State, s': State, i: nat, b: nat, v: Block)
    requires Inv(g, s) && WriteStep(g, s, s', i, b, v)
    ensures Inv(g, s')
  {
    hide Replay, DecodeHead, Installed;
    var ws, ws' := s.h.writes, s'.h.writes;
    assert ws'[..|ws'| - 1] == ws;
    assert ws'[..s.h.cut] == ws[..s.h.cut];
  }

  lemma EndInv(g: Geometry, s: State, s': State, i: nat)
    requires Inv(g, s) && EndStep(g, s, s', i)
    ensures Inv(g, s')
  {
  }

  lemma CopyInv(g: Geometry, s: State, s': State)
    requires Inv(g, s) && CopyStep(g, s, s')
    ensures Inv(g, s')
  {
    var t := s.phase.tail;
    var to := g.start + 1 + t;
    assert !g.Home(to);
    assert s'.disk[g.start] == s.disk[g.start];
    forall b: nat | g.Home(b)
      ensures Logical(s'.disk, s'.cache, b) == Logical(s.disk, s.cache, b)
      ensures Replay(g, s'.disk, b) == Replay(g, s.disk, b)
    {
    }
  }

  /** With the log blocks written, the header write commits the current view. */
  lemma CommitReplay(g: Geometry, s: State, v: Block)
    requires Inv(g, s) && s.phase == Copy(|s.lh|) && HeadOk(v) && DecodeHead(v) == s.lh
    ensures DiskOk(g, s.disk[g.start := v])
    ensures forall b: nat :: g.Home(b) ==> Replay(g, s.disk[g.start := v], b) == Logical(s.disk, s.cache, b)
    ensures Installed(g, s.disk[g.start := v], s.lh, 0)
  {
    ReplayCommit(g, s.disk, v);
    forall b: nat | g.Home(b)
      ensures Replay(g, s.disk[g.start := v], b) == Logical(s.disk, s.cache, b)
    {
      var i := LogIndex(s.lh, b);
      if i >= 0 { assert s.disk[g.start + 1 + i] == s.cache[s.lh[i]].data; }
    }
  }

  lemma CommitInv(g: Geometry, s: State, s': State)
    requires Inv(g, s) && CommitStep(g, s, s')
    ensures Inv(g, s')
  {
    hide Replay, Installed, DecodeHead;
    var v := s'.disk[g.start];
    StoredKeeps(s.disk, s.cache, g.start, Entry(v, false), s'.cache, s.lh);
    HeadRoundTrip(Logical(s.disk, s.cache, g.start), s.lh);
    CommitReplay(g, s, v);
    assert s'.h.writes[..s'.h.cut] == s.h.writes;
    assert forall b: nat :: g.Home(b) ==> Logical(s'.disk, s'.cache, b) == Logical(s.disk, s.cache, b);
  }

  lemma InstallDirty(c: map<nat, Entry>, c': map<nat, Entry>, lh: seq<nat>, t: nat, boot: bool)
    requires t < |lh| && Distinct(lh) && DirtyFrom(c, lh, if boot then |lh| else t)
    requires lh[t] in c' && !c'[lh[t]].dirty
    requires forall j: nat :: j in c' && j != lh[t] && c'[j].dirty <==> j in c && j != lh[t] && c[j].dirty
    ensures DirtyFrom(c', lh, if boot then |lh| else t + 1)
  {
    forall k | k in c' && c'[k].dirty
      ensures LogIndex(lh, k) >= if boot then |lh| else t + 1
    {
      assert k in c && c[k].dirty && k != lh[t];
    }
  }

  lemma InstallRecoverable(g: Geometry, disk: seq<Block>, disk': seq<Block>, h: History)
    requires Recoverable(g, disk, h) && DiskOk(g, disk')
    requires forall b: nat :: g.Home(b) ==> Replay(g, disk', b) == Replay(g, disk, b)
    ensures Recoverable(g, disk', h)
  {
  }

  lemma InstallView(g: Geometry, s: State, s': State, to: nat, v: Block)
    requires View(g, s.disk, s.cache, s.h) && Recoverable(g, s.disk, s.h) && s.h.cut == |s.h.writes| && s'.h == s.h
    requires g.Home(to) && v == Replay(g, s.disk, to) && s'.disk == s.disk[to := v] && to in s'.cache
    requires s'.cache[to].data == v
    requires forall j: nat :: j < |s.disk| && j != to ==> Logical(s.disk, s'.cache, j) == Logical(s.disk, s.cache, j)
    ensures View(g, s'.disk, s'.cache, s'.h)
  {
    assert s.h.writes[..s.h.cut] == s.h.writes;
    forall b: nat | g.Home(b)
      ensures Logical(s'.disk, s'.cache, b) == Apply(s.h.base, s.h.writes)[b]
    {
      if b != to { assert Logical(s.disk, s'.cache, b) == Logical(s.disk, s.cache, b); }
    }
  }

  lemma InstallInv(g: Geometry, s: State, s': State)
    requires Inv(g, s) && InstallStep(g, s, s')
    ensures Inv(g, s')
  {
    hide Replay, Installed, Recoverable, View, DirtyFrom, DecodeHead, AllOrNothing, Ids;
    var t := s.phase.tail;
    var to := s.lh[t];
    var v := s.disk[g.start + 1 + t];
    assert g.start + 1 + t !in s.lh;
    assert Logical(s.disk, s.cache, g.start + 1 + t) == v;
    StoredKeeps(s.disk, s.cache, to, Entry(v, false), s'.cache, s.lh);
    ReplayInstall(g, s.disk, t);
    InstalledNext(g, s.disk, t);
    InstallDirty(s.cache, s'.cache, s.lh, t, s.phase.boot);
    InstallRecoverable(g, s.disk, s'.disk, s.h);
    if !s.phase.boot { InstallView(g, s, s', to, v); }
  }

  lemma EraseInv(g: Geometry, s: State, s': State)
    requires Inv(g, s) && EraseStep(g, s, s')
    ensures Inv(g, s')
  {
    StoredKeeps(s.disk, s.cache, g.start, Entry(s'.disk[g.start], false), s'.cache, s.lh);
    HeadRoundTrip(Logical(s.disk, s.cache, g.start), []);
    assert s.h.writes[..s.h.cut] == s.h.writes;
    forall b: nat | g.Home(b)
      ensures Replay(g, s'.disk, b) == s.disk[b] == Replay(g, s.disk, b)
      ensures Logical(s'.disk, s'.cache, b) == s.disk[b]
    {
    }
  }

  lemma StepInv(g: Geometry, s: State, s': State)
    requires Inv(g, s) && Next(g, s, s')
    ensures Inv(g, s')
  {
    var step :| NextBy(g, s, s', step);
    match step
    case Begin => BeginInv(g, s, s');
    case LogWrite(i, b, v) => WriteInv(g, s, s', i, b, v);
    case End(i) => EndInv(g, s, s', i);
    case CopyBlock => CopyInv(g, s, s');
    case CommitHead => CommitInv(g, s, s');
    case InstallBlock => InstallInv(g, s, s');
    case EraseHead => EraseInv(g, s, s');
    case Reboot => RebootInv(g, s, s');
    case CacheMove => CacheInv(g, s, s');
    case Crash => CrashInv(g, s, s');
  }

  // ---- whole runs ----

  /** A run from a fresh file system, step by step. */
  ghost predicate Run(g: Geometry, tr: seq<State>) {
    |tr| > 0 &&
    if |tr| == 1 then Init(g, tr[0])
    else Run(g, tr[..|tr| - 1]) && Next(g, tr[|tr| - 2], tr[|tr| - 1])
  }

  lemma {:induction false} RunSteps(g: Geometry, tr: seq<State>, i: nat)
    requires Run(g, tr) && i < |tr|
    ensures if i == 0 then Init(g, tr[0]) else Next(g, tr[i - 1], tr[i])
  {
    if i < |tr| - 1 { RunSteps(g, tr[..|tr| - 1], i); }
    else if i > 0 {} else { assert tr == [tr[0]]; }
  }

  lemma {:induction false} RunInv(g: Geometry, tr: seq<State>, i: nat)
    requires Run(g, tr) && i < |tr|
    ensures Inv(g, tr[i])
  {
    RunSteps(g, tr, i);
    if i == 0 {
      InitInv(g, tr[0]);
    } else {
      RunInv(g, tr, i - 1);
      StepInv(g, tr[i - 1], tr[i]);
    }
  }

  /** Recovery run to its end: installs the entries from `t` on, then clears
      the header. */
  ghost function Recover(g: Geometry, disk: seq<Block>, t: nat): (r: seq<Block>)
    requires DiskOk(g, disk) && t <= |DecodeHead(disk[g.start])|
    decreases |DecodeHead(disk[g.start])| - t
  {
    var lh := DecodeHead(disk[g.start]);
    if t == |lh| then disk[g.start := EncodeHead(disk[g.start], [])]
    else
      ReplayInstall(g, disk, t);
      Recover(g, disk[lh[t] := disk[g.start + 1 + t]], t + 1)
  }

  lemma {:induction false} RecoverReplays(g: Geometry, disk: seq<Block>, t: nat)
    requires DiskOk(g, disk) && t <= |DecodeHead(disk[g.start])| && Distinct(DecodeHead(disk[g.start]))
    requires Installed(g, disk, DecodeHead(disk[g.start]), t)
    ensures |Recover(g, disk, t)| == |disk|
    ensures forall b: nat :: g.Home(b) ==> Recover(g, disk, t)[b] == Replay(g, disk, b)
    decreases |DecodeHead(disk[g.start])| - t
  {
    hide Replay, DecodeHead;
    var lh := DecodeHead(disk[g.start]);
    if t < |lh| {
      ReplayInstall(g, disk, t);
      InstalledNext(g, disk, t);
      RecoverReplays(g, disk[lh[t] := disk[g.start + 1 + t]], t + 1);
    }
  }

  /** Crash atomicity. Pull the plug in any reachable state, also in the middle
      of a commit or of an earlier recovery: recovery leaves the home blocks
      with exactly the committed writes, and no operation has some of its
      writes among them and others not. */
  lemma CrashAtomicity(g: Geometry, tr: seq<State>, i: nat)
    requires Run(g, tr) && i < |tr|
    ensures DiskOk(g, tr[i].disk) && tr[i].h.cut <= |tr[i].h.writes|
    ensures |Recover(g, tr[i].disk, 0)| == |tr[0].disk| == g.size
    ensures forall b: nat :: g.Home(b) ==>
      Recover(g, tr[i].disk, 0)[b] == Apply(tr[0].disk, tr[i].h.writes[..tr[i].h.cut])[b]
    ensures AllOrNothing(tr[i].h, tr[i].ops)
  {
    RunInv(g, tr, i);
    BaseFixed(g, tr, i);
    RecoverReplays(g, tr[i].disk, 0);
  }

  lemma {:induction false} BaseFixed(g: Geometry, tr: seq<State>, i: nat)
    requires Run(g, tr) && i < |tr|
    ensures tr[i].h.base == tr[0].disk
  {
    RunSteps(g, tr, i);
    if i > 0 {
      BaseFixed(g, tr, i - 1);
      var step :| NextBy(g, tr[i - 1], tr[i], step);
    }
  }

  lemma CutOk(g: Geometry, tr: seq<State>, i: nat)
    requires Run(g, tr) && i < |tr|
    ensures tr[i].h.cut <= |tr[i].h.writes|
  {
    RunInv(g, tr, i);
  }

  lemma CutGrows(g: Geometry, s: State, s': State)
    requires Next(g, s, s') && s.h.cut <= |s.h.writes|
    ensures s'.h.cut <= |s'.h.writes| && s.h.writes[..s.h.cut] <= s'.h.writes[..s'.h.cut]
  {
    var step :| NextBy(g, s, s', step);
  }

  /** Durability: what is committed at some point stays committed, whatever
      crashes follow. */
  lemma {:induction false} CommittedIsDurable(g: Geometry, tr: seq<State>, i: nat, j: nat)
    requires Run(g, tr) && i <= j < |tr|
    ensures tr[i].h.cut <= |tr[i].h.writes| && tr[j].h.cut <= |tr[j].h.writes|
    ensures tr[i].h.writes[..tr[i].h.cut] <= tr[j].h.writes[..tr[j].h.cut]
    decreases j
  {
    hide Inv, Next;
    CutOk(g, tr, j);
    if i < j {
      RunSteps(g, tr, j);
      CommittedIsDurable(g, tr, i, j - 1);
      CutGrows(g, tr[j - 1], tr[j]);
    }
  }

  /** What is committed changes at the commit point only. */
  lemma CutMoves(g: Geometry, s: State, s': State)
    requires Next(g, s, s') && s.h.cut <= |s.h.writes|
    ensures s'.h.cut <= |s'.h.writes|
    ensures s'.h.writes[..s'.h.cut] == s.h.writes[..s.h.cut] || (s.phase.Copy? && s'.h.writes[..s'.h.cut] == s.h.writes)
  {
    var step :| NextBy(g, s, s', step);
  }

  /** What has been committed is nothing, or all that had been logged when some
      group was committed. */
  lemma {:induction false} CommittedAt(g: Geometry, tr: seq<State>, i: nat) returns (j: int)
    requires Run(g, tr) && i < |tr|
    ensures tr[i].h.cut <= |tr[i].h.writes| && -1 <= j <= i
    ensures j >= 0 ==> tr[j].phase.Copy?
    ensures tr[i].h.writes[..tr[i].h.cut] == if j >= 0 then tr[j].h.writes else []
  {
    hide Inv, Next, Run;
    RunSteps(g, tr, i);
    if i == 0 {
      j := -1;
    } else {
      j := CommittedAt(g, tr, i - 1);
      CutMoves(g, tr[i - 1], tr[i]);
      if tr[i].h.writes[..tr[i].h.cut] != tr[i - 1].h.writes[..tr[i - 1].h.cut] { j := i - 1; }
    }
  }

  /** What holds of a new disk and after every group of operations holds of
      what recovery produces. */
  lemma {:induction false} GroupsKeep(g: Geometry, tr: seq<State>, i: nat, ok: seq<Block> -> bool)
    requires Run(g, tr) && i < |tr| && ok(tr[0].disk)
    requires forall j: nat :: j <= i && tr[j].phase.Copy? ==> ok(Apply(tr[j].h.base, tr[j].h.writes))
    ensures tr[i].h.cut <= |tr[i].h.writes| && ok(Apply(tr[0].disk, tr[i].h.writes[..tr[i].h.cut]))
  {
    hide Inv, Next, Run;
    RunSteps(g, tr, i);
    if i == 0 {
      assert tr[0].h.writes[..tr[0].h.cut] == [];
    } else {
      GroupsKeep(g, tr, i - 1, ok);
      BaseFixed(g, tr, i - 1);
      CutMoves(g, tr[i - 1], tr[i]);
    }
  }

  /** Outside recovery every reader, whatever the cache holds, gets the latest
      logged write of a home block; and while a group is being committed no
      operation runs, so end_op never panics with "log.committing". */
  lemma ReadersAndCommit(g: Geometry, tr: seq<State>, i: nat)
    requires Run(g, tr) && i < |tr|
    ensures !tr[i].phase.Boot? && !(tr[i].phase.Install? && tr[i].phase.boot) ==>
      View(g, tr[i].disk, tr[i].cache, tr[i].h)
    ensures tr[i].phase.Copy? || tr[i].phase.Install? ==> tr[i].ops == []
    ensures tr[i].phase.Ready? && tr[i].ops == [] ==> tr[i].h.cut == |tr[i].h.writes|
  {
    RunInv(g, tr, i);
  }
}
