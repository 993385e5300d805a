/** The log's code over the buffer cache. Every method drives the machine of
    LogMachine: each block write is one step, recorded in `trace`, so a crash
    between any two of them is a crash of the machine. A false result stands
    for a panic, after which only the disk matters. */
module LogCode {
  import opened Blocks
  import opened BufferCache
  import opened LogMachine
  import opened Params

  lemma LoadedEvolves(disk: seq<Block>, c: map<nat, Entry>, k: nat, c': map<nat, Entry>)
    requires Loaded(disk, c, k, c')
    ensures Evolve(disk, c, c') && k in c' && c'[k].data == Logical(disk, c, k)
  {
  }

  lemma EvolvesTwice(disk: seq<Block>, c: map<nat, Entry>, c1: map<nat, Entry>, c2: map<nat, Entry>, lh: seq<nat>)
    requires CacheOk(disk, c, lh) && Evolve(disk, c, c1) && Evolve(disk, c1, c2)
    ensures Evolve(disk, c, c2)
  {
  }

  lemma EvolveThenStore(disk: seq<Block>, c: map<nat, Entry>, c1: map<nat, Entry>, k: nat, e: Entry)
    requires Evolve(disk, c, c1)
    ensures Stored(disk, c, k, e, c1[k := e])
  {
  }

  lemma RunExtends(g: Geometry, tr: seq<State>, s: State)
    requires |tr| > 0 && Run(g, tr) && Next(g, tr[|tr| - 1], s)
    ensures Run(g, tr + [s])
  {
    assert (tr + [s])[..|tr|] == tr;
  }

  lemma BootState(g: Geometry, tr: seq<State>)
    requires |tr| > 0 && Run(g, tr) && tr[|tr| - 1].phase == Boot
    ensures |tr| > 0 && tr[|tr| - 1].lh == [] && tr[|tr| - 1].ops == []
  {
    RunInv(g, tr, |tr| - 1);
  }

  lemma CopyReady(g: Geometry, tr: seq<State>)
    requires |tr| > 0 && Run(g, tr) && tr[|tr| - 1].phase.Copy?
    ensures var s := tr[|tr| - 1];
      && g.start + |s.lh| < |s.disk| <= 0x1_0000_0000 && CacheOk(s.disk, s.cache, s.lh)
      && forall i :: 0 <= i < |s.lh| ==> s.lh[i] < |s.disk| && !(g.start <= s.lh[i] <= g.start + |s.lh|)
  {
    RunInv(g, tr, |tr| - 1);
  }

  lemma CopyNext(g: Geometry, s: State, c1: map<nat, Entry>, c2: map<nat, Entry>)
    requires s.phase.Copy? && s.phase.tail < |s.lh| && g.start + |s.lh| < |s.disk|
    requires CacheOk(s.disk, s.cache, s.lh)
    requires Loaded(s.disk, s.cache, g.start + 1 + s.phase.tail, c1)
    requires Loaded(s.disk, c1, s.lh[s.phase.tail], c2)
    ensures var to, v := g.start + 1 + s.phase.tail, c2[s.lh[s.phase.tail]].data;
      CopyStep(g, s, s.(disk := s.disk[to := v], cache := c2[to := Entry(v, false)], phase := Copy(s.phase.tail + 1)))
  {
    hide Evolve, Stored, CacheOk;
    var t, to := s.phase.tail, g.start + 1 + s.phase.tail;
    LoadedEvolves(s.disk, s.cache, to, c1);
    LoadedEvolves(s.disk, c1, s.lh[t], c2);
    EvolvesTwice(s.disk, s.cache, c1, c2, s.lh);
    EvolveKeeps(s.disk, s.cache, c1, s.lh);
    EvolveThenStore(s.disk, s.cache, c2, to, Entry(c2[s.lh[t]].data, false));
  }

  lemma CopyHappens(g: Geometry, tr: seq<State>, c1: map<nat, Entry>, c2: map<nat, Entry>)
    requires |tr| > 0 && Run(g, tr)
    requires var s := tr[|tr| - 1];
      && s.phase.Copy? && s.phase.tail < |s.lh|
      && Loaded(s.disk, s.cache, g.start + 1 + s.phase.tail, c1)
      && Loaded(s.disk, c1, s.lh[s.phase.tail], c2)
    ensures var s := tr[|tr| - 1];
      var t, to := s.phase.tail, g.start + 1 + s.phase.tail;
      var v := c2[s.lh[t]].data;
      to < |s.disk| &&
      Run(g, tr + [s.(disk := s.disk[to := v], cache := c2[to := Entry(v, false)], phase := Copy(t + 1))])
  {
    hide Run, CopyStep, CacheOk;
    var s := tr[|tr| - 1];
    CopyReady(g, tr);
    CopyNext(g, s, c1, c2);
    var to, v := g.start + 1 + s.phase.tail, c2[s.lh[s.phase.tail]].data;
    var s' := s.(disk := s.disk[to := v], cache := c2[to := Entry(v, false)], phase := Copy(s.phase.tail + 1));
    assert NextBy(g, s, s', CopyBlock);
    RunExtends(g, tr, s');
  }

  lemma InstallReady(g: Geometry, tr: seq<State>)
    requires |tr| > 0 && Run(g, tr) && tr[|tr| - 1].phase.Install?
    ensures var s := tr[|tr| - 1];
      && g.start + |s.lh| < |s.disk| <= 0x1_0000_0000 && CacheOk(s.disk, s.cache, s.lh)
      && forall i :: 0 <= i < |s.lh| ==> s.lh[i] < |s.disk| && !(g.start <= s.lh[i] <= g.start + |s.lh|)
  {
    RunInv(g, tr, |tr| - 1);
  }

  lemma InstallNext(g: Geometry, s: State, c1: map<nat, Entry>, c2: map<nat, Entry>)
    requires s.phase.Install? && s.phase.tail < |s.lh| && g.start + |s.lh| < |s.disk| && s.lh[s.phase.tail] < |s.disk|
    requires CacheOk(s.disk, s.cache, s.lh)
    requires Loaded(s.disk, s.cache, g.start + 1 + s.phase.tail, c1)
    requires Loaded(s.disk, c1, s.lh[s.phase.tail], c2)
    ensures var to, v := s.lh[s.phase.tail], c1[g.start + 1 + s.phase.tail].data;
      InstallStep(g, s, s.(disk := s.disk[to := v], cache := c2[to := Entry(v, false)],
        phase := Install(s.phase.tail + 1, s.phase.boot)))
  {
    hide Evolve, Stored, CacheOk;
    var t, from, to := s.phase.tail, g.start + 1 + s.phase.tail, s.lh[s.phase.tail];
    LoadedEvolves(s.disk, s.cache, from, c1);
    LoadedEvolves(s.disk, c1, to, c2);
    EvolvesTwice(s.disk, s.cache, c1, c2, s.lh);
    EvolveThenStore(s.disk, s.cache, c2, to, Entry(c1[from].data, false));
  }

  lemma InstallHappens(g: Geometry, tr: seq<State>, c1: map<nat, Entry>, c2: map<nat, Entry>)
    requires |tr| > 0 && Run(g, tr)
    requires var s := tr[|tr| - 1];
      && s.phase.Install? && s.phase.tail < |s.lh|
      && Loaded(s.disk, s.cache, g.start + 1 + s.phase.tail, c1)
      && Loaded(s.disk, c1, s.lh[s.phase.tail], c2)
    ensures var s := tr[|tr| - 1];
      var t, to := s.phase.tail, s.lh[s.phase.tail];
      var v := c1[g.start + 1 + t].data;
      to < |s.disk| &&
      Run(g, tr + [s.(
        disk := s.disk[to := v], cache := c2[to := Entry(v, false)], phase := Install(t + 1, s.phase.boot))])
  {
    hide Run, InstallStep, CacheOk;
    var s := tr[|tr| - 1];
    InstallReady(g, tr);
    InstallNext(g, s, c1, c2);
    var to, v := s.lh[s.phase.tail], c1[g.start + 1 + s.phase.tail].data;
    var s' := s.(disk := s.disk[to := v], cache := c2[to := Entry(v, false)],
      phase := Install(s.phase.tail + 1, s.phase.boot));
    assert NextBy(g, s, s', InstallBlock);
    RunExtends(g, tr, s');
  }

  lemma HeadHappens(g: Geometry, s: State, s': State, c1: map<nat, Entry>, v: Block, lh: seq<nat>)
    requires g.start < |s.disk| && |lh| < NWORDS && forall i :: 0 <= i < |lh| ==> lh[i] < 0x1_0000_0000
    requires Loaded(s.disk, s.cache, g.start, c1) && v == EncodeHead(c1[g.start].data, lh)
    requires s'.disk == s.disk[g.start := v] && s'.cache == c1[g.start := Entry(v, false)]
    ensures HeadStep(g, s, s', lh)
  {
    LoadedEvolves(s.disk, s.cache, g.start, c1);
    EvolveThenStore(s.disk, s.cache, c1, g.start, Entry(v, false));
  }

  lemma CommitHappens(g: Geometry, tr: seq<State>, c1: map<nat, Entry>, v: Block)
    requires |tr| > 0 && Run(g, tr)
    requires var s := tr[|tr| - 1];
      && s.phase == Copy(|s.lh|) && g.start in c1 && Loaded(s.disk, s.cache, g.start, c1)
      && |s.lh| < NWORDS && (forall i :: 0 <= i < |s.lh| ==> s.lh[i] < 0x1_0000_0000)
      && v == EncodeHead(c1[g.start].data, s.lh)
    ensures var s := tr[|tr| - 1];
      g.start < |s.disk| &&
      Run(g, tr + [s.(disk := s.disk[g.start := v], cache := c1[g.start := Entry(v, false)],
        phase := Install(0, false), h := s.h.(cut := |s.h.writes|))])
  {
    hide Run;
    hide Loaded, EncodeHead, Stored;
    var s := tr[|tr| - 1];
    CopyReady(g, tr);
    var s' := s.(disk := s.disk[g.start := v], cache := c1[g.start := Entry(v, false)],
      phase := Install(0, false), h := s.h.(cut := |s.h.writes|));
    HeadHappens(g, s, s', c1, v, s.lh);
    assert CommitStep(g, s, s');
    assert NextBy(g, s, s', CommitHead);
    RunExtends(g, tr, s');
  }

  lemma EraseHappens(g: Geometry, tr: seq<State>, c1: map<nat, Entry>, v: Block)
    requires |tr| > 0 && Run(g, tr)
    requires var s := tr[|tr| - 1];
      && s.phase.Install? && s.phase.tail == |s.lh| && g.start in c1 && Loaded(s.disk, s.cache, g.start, c1)
      && v == EncodeHead(c1[g.start].data, [])
    ensures var s := tr[|tr| - 1];
      g.start < |s.disk| &&
      Run(g, tr + [s.(disk := s.disk[g.start := v], cache := c1[g.start := Entry(v, false)], lh := [], phase := Ready)])
  {
    hide Run;
    hide Loaded, EncodeHead, Stored;
    var s := tr[|tr| - 1];
    InstallReady(g, tr);
    var s' := s.(disk := s.disk[g.start := v], cache := c1[g.start := Entry(v, false)], lh := [], phase := Ready);
    HeadHappens(g, s, s', c1, v, []);
    assert EraseStep(g, s, s');
    assert NextBy(g, s, s', EraseHead);
    RunExtends(g, tr, s');
  }

  lemma BootReady(g: Geometry, tr: seq<State>)
    requires |tr| > 0 && Run(g, tr) && tr[|tr| - 1].phase == Boot
    ensures var s := tr[|tr| - 1];
      && g.start < |s.disk| && HeadOk(s.disk[g.start])
      && CacheOk(s.disk, s.cache, []) && s.ops == []
  {
    RunInv(g, tr, |tr| - 1);
  }

  lemma RebootHappens(g: Geometry, tr: seq<State>, c1: map<nat, Entry>)
    requires |tr| > 0 && Run(g, tr) && tr[|tr| - 1].phase == Boot
    requires Loaded(tr[|tr| - 1].disk, tr[|tr| - 1].cache, g.start, c1)
    ensures var s := tr[|tr| - 1];
      && g.start < |s.disk| && HeadOk(s.disk[g.start])
      && g.start in c1 && c1[g.start].data == s.disk[g.start]
      && Run(g, tr + [s.(cache := c1, lh := DecodeHead(s.disk[g.start]), phase := Install(0, true))])
  {
    hide Run;
    var s := tr[|tr| - 1];
    RunInv(g, tr, |tr| - 1);
    LoadedEvolves(s.disk, s.cache, g.start, c1);
    var s' := s.(cache := c1, lh := DecodeHead(s.disk[g.start]), phase := Install(0, true));
    assert NextBy(g, s, s', Reboot);
    RunExtends(g, tr, s');
  }

  lemma DecodeIs(h: Block, lh: seq<nat>)
    requires HeadOk(h) && |lh| == GetWord(h, 0)
    requires forall j :: 0 <= j < |lh| ==> lh[j] == GetWord(h, j + 1)
    ensures DecodeHead(h) == lh
  {
  }

  /** An empty log means that the disk itself is the committed state. */
  lemma EmptyLog(g: Geometry, s: State)
    requires Inv(g, s) && s.phase == Ready && s.lh == []
    ensures |s.disk| == |s.h.base| == g.size && s.h.cut <= |s.h.writes|
    ensures forall b: nat :: g.Home(b) ==> s.disk[b] == Apply(s.h.base, s.h.writes[..s.h.cut])[b]
  {
    hide Apply, CacheOk, AllOrNothing, View, HeadOk, Evolve;
    assert DecodeHead(s.disk[g.start]) == [];
    forall b: nat | g.Home(b)
      ensures s.disk[b] == Replay(g, s.disk, b)
    {
    }
  }

  lemma Recovered(g: Geometry, tr: seq<State>)
    requires |tr| > 0 && Run(g, tr) && tr[|tr| - 1].phase == Ready && tr[|tr| - 1].lh == []
    ensures var s := tr[|tr| - 1];
      && |s.disk| == |s.h.base| == g.size && s.h.cut <= |s.h.writes|
      && forall b: nat :: g.Home(b) ==> s.disk[b] == Apply(s.h.base, s.h.writes[..s.h.cut])[b]
  {
    hide Inv, Run, Apply;
    RunInv(g, tr, |tr| - 1);
    EmptyLog(g, tr[|tr| - 1]);
  }

  lemma BeginHappens(g: Geometry, tr: seq<State>)
    requires |tr| > 0 && Run(g, tr)
    requires var s := tr[|tr| - 1];
      s.phase.Ready? && |s.lh| + (|s.ops| + 1) * MAXOPBLOCKS <= LOGSIZE
    ensures var s := tr[|tr| - 1];
      Run(g, tr + [s.(ops := s.ops + [Op(s.h.nextId, {})], h := s.h.(nextId := s.h.nextId + 1))])
  {
    hide Run;
    var s := tr[|tr| - 1];
    var s' := s.(ops := s.ops + [Op(s.h.nextId, {})], h := s.h.(nextId := s.h.nextId + 1));
    assert NextBy(g, s, s', Begin);
    RunExtends(g, tr, s');
  }

  lemma EndHappens(g: Geometry, tr: seq<State>, i: nat)
    requires |tr| > 0 && Run(g, tr) && i < |tr[|tr| - 1].ops|
    ensures var s := tr[|tr| - 1];
      var ops := s.ops[..i] + s.ops[i + 1..];
      && s.phase.Ready?
      && Run(g, tr + [s.(ops := ops, phase := if ops == [] && |s.lh| > 0 then Copy(0) else Ready)])
      && (s.lh == [] ==> s.h.cut == |s.h.writes|)
  {
    hide Run;
    var s := tr[|tr| - 1];
    RunInv(g, tr, |tr| - 1);
    var ops := s.ops[..i] + s.ops[i + 1..];
    var s' := s.(ops := ops, phase := if ops == [] && |s.lh| > 0 then Copy(0) else Ready);
    assert NextBy(g, s, s', End(i));
    RunExtends(g, tr, s');
  }

  lemma WriteReady(g: Geometry, tr: seq<State>)
    requires |tr| > 0 && Run(g, tr) && tr[|tr| - 1].ops != []
    ensures tr[|tr| - 1].phase.Ready?
  {
    RunInv(g, tr, |tr| - 1);
  }

  lemma WriteHappens(g: Geometry, tr: seq<State>, i: nat, b: nat, v: Block, dirty: bool, c: map<nat, Entry>)
    requires |tr| > 0 && Run(g, tr) && i < |tr[|tr| - 1].ops| && g.Home(b)
    requires var s := tr[|tr| - 1];
      !TooBig(g, s.lh) && Stored(s.disk, s.cache, b, Entry(v, dirty), c)
    ensures var s := tr[|tr| - 1];
      var s' := s.(
        cache := c[b := Entry(v, true)],
        lh := Absorb(s.lh, b),
        ops := s.ops[i := s.ops[i].(logged := s.ops[i].logged + {b})],
        h := s.h.(writes := s.h.writes + [Write(s.ops[i].id, b, v)]));
      WriteStep(g, s, s', i, b, v) && Run(g, tr + [s'])
  {
    hide Run;
    var s := tr[|tr| - 1];
    WriteReady(g, tr);
    var s' := s.(
      cache := c[b := Entry(v, true)],
      lh := Absorb(s.lh, b),
      ops := s.ops[i := s.ops[i].(logged := s.ops[i].logged + {b})],
      h := s.h.(writes := s.h.writes + [Write(s.ops[i].id, b, v)]));
    assert NextBy(g, s, s', LogWrite(i, b, v));
    RunExtends(g, tr, s');
  }

  lemma StillHeld(m: Snapshot, b: Buf, k: nat, m': Snapshot)
    requires OthersKept(m, k, m') && b in m && m[b].refcnt > 0 && m[b].blockno != k
    ensures b in m' && m'[b] == m[b]
  {
  }

  // ---- the cache has room for a commit ----

  /** What write_head does to the disk and the cache, with `c1` in between. */
  ghost predicate HeadWritten(disk: seq<Block>, c: map<nat, Entry>, start: nat, lh: seq<nat>,
      c1: map<nat, Entry>, v: Block, disk': seq<Block>, c': map<nat, Entry>) {
    && start < |disk| && |lh| < NWORDS && (forall i :: 0 <= i < |lh| ==> lh[i] < 0x1_0000_0000)
    && Loaded(disk, c, start, c1) && start in c1 && v == EncodeHead(c1[start].data, lh)
    && disk' == disk[start := v] && c' == c1[start := Entry(v, false)]
  }

  /** The buffers in use. */
  ghost function Held(refs: map<Buf, nat>): set<Buf> {
    set b | b in refs && refs[b] > 0
  }

  /** There are more than `k` buffers besides those in use. */
  ghost predicate Spares(refs: map<Buf, nat>, k: nat) {
    |refs| > k + |Held(refs)|
  }

  lemma SparesLess(refs: map<Buf, nat>, k: nat, k': nat)
    requires Spares(refs, k) && k' <= k
    ensures Spares(refs, k')
  {
  }

  /** The cache of NBUF buffers, none of them in use, has room for any group. */
  lemma IdleSpares(refs: map<Buf, nat>)
    requires |refs| >= NBUF && forall b <- refs :: refs[b] == 0
    ensures Spares(refs, LOGSIZE - 1)
  {
    assert Held(refs) == {};
  }

  /** There are no more dirty buffers than blocks in the log. */
  lemma {:induction false} DirtyFew(m: Snapshot, d: set<Buf>, lh: seq<nat>)
    requires Coherent(m) && d <= m.Keys && forall b <- d :: m[b].dirty && m[b].blockno in lh
    ensures |d| <= |lh|
    decreases |lh|
  {
    if lh == [] {
      assert d == {};
    } else {
      var k, rest := lh[|lh| - 1], lh[..|lh| - 1];
      if b :| b in d && m[b].blockno == k {
        forall x | x in d - {b}
          ensures m[x].blockno in rest
        {
          assert m[b].Holds(ROOTDEV, m[x].blockno) ==> x == b;
        }
        DirtyFew(m, d - {b}, rest);
      } else {
        DirtyFew(m, d, rest);
      }
    }
  }

  lemma DirtyLogged(disk: seq<Block>, m: Snapshot, lh: seq<nat>, b: Buf)
    requires Coherent(m) && CacheOk(disk, Contents(m), lh) && b in m && m[b].dirty
    ensures m[b].blockno in lh && m[b].Holds(ROOTDEV, m[b].blockno)
  {
    ContentsAt(m, b);
    assert Contents(m)[m[b].blockno].dirty;
  }

  /** With more buffers than logged blocks and buffers in use, bget finds one... */
  lemma OneFree(disk: seq<Block>, m: Snapshot, lh: seq<nat>)
    requires Coherent(m) && CacheOk(disk, Contents(m), lh) && Spares(RefsOf(m), |lh|)
    ensures !AllBusy(m)
  {
    if AllBusy(m) {
      var h := Held(RefsOf(m));
      forall b | b in m.Keys - h
        ensures m[b].dirty && m[b].blockno in lh
      {
        assert RefsOf(m)[b] == 0;
        DirtyLogged(disk, m, lh, b);
      }
      assert m.Keys == (m.Keys - h) + h && RefsOf(m).Keys == m.Keys;
      DirtyFew(m, m.Keys - h, lh);
    }
  }

  /** ... and, when that one is in use too, another for a logged block that is
      not cached. */
  lemma AnotherFree(disk: seq<Block>, m: Snapshot, lh: seq<nat>, t: nat, b1: Buf, h: set<Buf>)
    requires Coherent(m) && CacheOk(disk, Contents(m), lh) && b1 in m && |m.Keys| > |lh| + |h|
    requires forall b <- m :: b != b1 && b !in h ==> m[b].refcnt == 0
    requires t < |lh| && !Cached(m, ROOTDEV, lh[t])
    ensures !AllBusy(m)
  {
    if AllBusy(m) {
      var d, rest := m.Keys - {b1} - h, lh[..t] + lh[t + 1..];
      forall b | b in d
        ensures m[b].dirty && m[b].blockno in rest
      {
        assert m[b].Busy();
        DirtyLogged(disk, m, lh, b);
        var i :| 0 <= i < |lh| && lh[i] == m[b].blockno;
        assert rest[if i < t then i else i - 1] == lh[i];
      }
      Covers(m.Keys, d, {b1}, h);
      DirtyFew(m, d, rest);
    }
  }

  lemma Covers(all: set<Buf>, d: set<Buf>, one: set<Buf>, h: set<Buf>)
    requires d == all - one - h
    ensures |all| <= |d| + |one| + |h|
  {
    assert all == d + (all * (one + h));
    assert all * (one + h) == all * one + (all * h - one);
    Fewer(all * one, one);
    Fewer(all * h - one, h);
  }

  lemma Fewer(a: set<Buf>, b: set<Buf>)
    requires a <= b
    ensures |a| <= |b|
  {
    assert b == a + (b - a);
  }

  /** With nothing dirty a block reads as it is on disk. */
  lemma CleanRead(disk: seq<Block>, c: map<nat, Entry>, k: nat, c1: map<nat, Entry>)
    requires CacheOk(disk, c, []) && Loaded(disk, c, k, c1) && k < |disk|
    ensures k in c1 && c1[k].data == disk[k]
  {
  }

  lemma LogFits(g: Geometry, tr: seq<State>)
    requires |tr| > 0 && Run(g, tr)
    ensures |tr[|tr| - 1].lh| < LOGSIZE && |tr[|tr| - 1].disk| == g.size
    ensures CacheOk(tr[|tr| - 1].disk, tr[|tr| - 1].cache, tr[|tr| - 1].lh)
  {
    RunInv(g, tr, |tr| - 1);
  }

  class Log {
    const g: Geometry          // log.start, log.size and the disk size
    const bc: Cache
    var n: nat                 // log.lh.n
    var block: array<nat>      // log.lh.block
    var outstanding: nat
    var committing: bool
    ghost var trace: seq<State>

    /** The kernel after a boot: `tr` is what the disk has been through. */
    constructor (g: Geometry, bc: Cache, ghost tr: seq<State>)
      requires |tr| > 0 && Run(g, tr) && tr[|tr| - 1].phase == Boot && tr[|tr| - 1].disk == bc.memdisk
      requires bc.Valid() && bc.Blocks() == tr[|tr| - 1].cache
      ensures Valid() && this.g == g && this.bc == bc && trace == tr
    {
      hide Run, Cache.Valid, Cache.Blocks;
      this.g, this.bc, this.trace := g, bc, tr;
      n, outstanding, committing := 0, 0, false;
      block := new nat[LOGSIZE];
      new;
      BootState(g, tr);
      assert block[..0] == [];
    }

    ghost function S(): State
      requires |trace| > 0
      reads `trace
    {
      trace[|trace| - 1]
    }

    /** The disk is that of a reachable state of the machine. */
    ghost predicate OnDisk()
      reads `trace, bc`memdisk
    {
      |trace| > 0 && Run(g, trace) && bc.memdisk == S().disk
    }

    /** Memory agrees with the machine as well. */
    ghost predicate Synced()
      reads this, block, bc, bc.head, bc.order, bc.pool
    {
      && OnDisk() && bc.Valid()
      && bc.Blocks() == S().cache
      && InMemory()
    }

    ghost predicate InMemory()
      reads this, block
      requires |trace| > 0
    {
      && block.Length == LOGSIZE && n <= LOGSIZE && S().lh == block[..n]
      && outstanding == |S().ops|
    }

    /** What holds between calls, apart from the contents of buffers in use. */
    ghost predicate Consistent()
      reads this, block, bc, bc.head, bc.order, bc.pool
    {
      && OnDisk() && bc.Valid() && InMemory()
      && (committing <==> S().phase.Copy? || (S().phase.Install? && !S().phase.boot))
    }

    /** Between calls the flag tells whether a commit is under way. */
    ghost predicate Valid()
      reads this, block, bc, bc.head, bc.order, bc.pool
    {
      Synced() && (committing <==> S().phase.Copy? || (S().phase.Install? && !S().phase.boot))
    }

    lemma ListSize()
      requires Synced()
      ensures |S().lh| == n
    {
    }

    ghost method Step(s: State)
      requires Run(g, trace + [s])
      modifies `trace
      ensures trace == old(trace) + [s] && S() == s
    {
      trace := trace + [s];
    }

    /** memmove(to, from), bwrite(to), brelse(from), brelse(to). */
    method Transfer(to: Buf, from: Buf) returns (ok: bool)
      requires bc.Valid() && bc.Held(to) && bc.Held(from) && to != from
      modifies bc`memdisk, bc`order, bc`clock, to`data, to`valid, to`dirty, bc.pool`refcnt, bc.pool`stamp,
        bc.head`next, bc.head`prev, bc.pool`next, bc.pool`prev
      ensures ok <==> old(to.blockno) < |old(bc.memdisk)|
      ensures !ok ==> bc.memdisk == old(bc.memdisk)
      ensures ok ==> bc.Valid() && bc.memdisk == old(bc.memdisk)[to.blockno := from.data]
      ensures ok ==> bc.Blocks() == old(bc.Blocks())[to.blockno := Entry(from.data, false)]
      ensures ok ==> bc.Refs() == Dec(Dec(old(bc.Refs()), from), to)
    {
      hide Ring, Coherent, Contents, Put, Cache.Valid, Cache.Snap, Cache.Blocks, Cache.Refs, Inc, Dec;
      ghost var c := bc.Blocks();
      bc.Fill(to, from.data);
      UpdateTwice(c, to.blockno, Entry(from.data, to.dirty), Entry(from.data, false));
      ok := bc.Bwrite(to);
      if !ok { return; }
      bc.Brelse(from);
      bc.Brelse(to);
    }

    lemma RoomNow(lh: seq<nat>)
      requires bc.Valid() && CacheOk(bc.memdisk, bc.Blocks(), lh) && Spares(bc.Refs(), |lh|)
      ensures !AllBusy(bc.Snap())
    {
      assert bc.Snap().Keys == bc.pool;
      OneFree(bc.memdisk, bc.Snap(), lh);
    }

    lemma RefsPool()
      ensures bc.Refs().Keys == bc.pool
    {
    }

    lemma RoomAgain(lh: seq<nat>, t: nat, b1: Buf, refs: map<Buf, nat>)
      requires bc.Valid() && CacheOk(bc.memdisk, bc.Blocks(), lh) && b1 in bc.pool && t < |lh|
      requires Spares(refs, |lh|) && refs.Keys == bc.pool && bc.Refs() == Inc(refs, b1)
      ensures Cached(bc.Snap(), ROOTDEV, lh[t]) || !AllBusy(bc.Snap())
    {
      hide Ring, Coherent, Contents, CacheOk, Cached;
      var m := bc.Snap();
      assert m.Keys == bc.pool;
      forall b | b in m && b != b1 && b !in Held(refs)
        ensures m[b].refcnt == 0
      {
        assert RefsOf(m)[b] == refs[b];
      }
      if !Cached(m, ROOTDEV, lh[t]) { AnotherFree(bc.memdisk, m, lh, t, b1, Held(refs)); }
    }

    /** bread of two different blocks, of which the second is in the log; the
        first stays held meanwhile. If nobody else holds a buffer there is room
        for both. */
    method ReadPair(k1: nat, k2: nat, ghost lh: seq<nat>, ghost t: nat)
      returns (b1: Buf?, b2: Buf?, ghost c1: map<nat, Entry>)
      requires bc.Valid() && k1 != k2 && CacheOk(bc.memdisk, bc.Blocks(), lh) && t < |lh| && lh[t] == k2
      modifies bc`memdisk, bc.pool`dev, bc.pool`blockno, bc.pool`valid, bc.pool`dirty, bc.pool`refcnt, bc.pool`data
      ensures bc.memdisk == old(bc.memdisk)
      ensures b2 != null ==> b1 != null && b1 != b2 && b1.blockno == k1 && b2.blockno == k2
      ensures b2 != null ==> bc.Valid() && bc.Held(b1) && bc.Held(b2)
      ensures b2 != null ==> Loaded(bc.memdisk, old(bc.Blocks()), k1, c1) && k1 in c1 && b1.data == c1[k1].data
      ensures b2 != null ==>
        Loaded(bc.memdisk, c1, k2, bc.Blocks()) && k2 in bc.Blocks() && b2.data == bc.Blocks()[k2].data
      ensures b2 != null ==> bc.Refs() == Inc(Inc(old(bc.Refs()), b1), b2)
      ensures old(Spares(bc.Refs(), |lh|)) && k1 < |bc.memdisk| && k2 < |bc.memdisk| ==> b2 != null
    {
      hide Run, Cache.Valid, Cache.Snap, Cache.Blocks, Cache.Refs, Inc, Dec, Loaded, OthersKept, AllBusy, Cached,
        CacheOk, Evolve;
      b2, c1 := null, map[];
      if Spares(bc.Refs(), |lh|) { RoomNow(lh); }
      ghost var c0, refs := bc.Blocks(), bc.Refs();
      RefsPool();
      b1 := bc.Bread(ROOTDEV, k1);
      if b1 == null { return; }
      c1 := bc.Blocks();
      LoadedEvolves(bc.memdisk, c0, k1, c1);
      EvolveKeeps(bc.memdisk, c0, c1, lh);
      if Spares(refs, |lh|) {
        RoomAgain(lh, t, b1, refs);
      }
      ghost var m1 := bc.Snap();
      bc.InSnap(b1);
      b2 := bc.Bread(ROOTDEV, k2);
      if b2 == null { return; }
      bc.InSnap(b1);
      bc.InSnap(b2);
      StillHeld(m1, b1, k2, bc.Snap());
    }

    /** One round of write_log. */
    method CopyOne(tail: nat) returns (ok: bool)
      requires Synced() && S().phase == Copy(tail) && tail < n
      modifies `trace, bc`memdisk, bc`order, bc`clock, bc.pool, bc.head
      ensures old(trace) <= trace && OnDisk()
      ensures ok ==> Synced() && S().phase == Copy(tail + 1) && S().h == old(S().h) && bc.Refs() == old(bc.Refs())
      ensures old(Spares(bc.Refs(), n)) ==> ok
    {
      hide Run, Cache.Valid, Cache.Snap, Cache.Blocks, Cache.Refs, Inc, Dec, Spares, Loaded;
      ghost var s, refs := S(), bc.Refs();
      CopyReady(g, trace);
      LogFits(g, trace);
      var to, from, c1 := ReadPair(g.start + tail + 1, block[tail], s.lh, tail);
      if from == null { return false; }
      CopyHappens(g, trace, c1, bc.Blocks());
      ghost var k, v := g.start + 1 + tail, from.data;
      ghost var s' := s.(disk := s.disk[k := v], cache := bc.Blocks()[k := Entry(v, false)], phase := Copy(tail + 1));
      ok := Transfer(to, from);
      if ok {
        assert bc.memdisk == s'.disk && bc.Blocks() == s'.cache;
        IncDec(refs, to, from);
        Step(s');
      }
    }

    /** One round of install_trans. */
    method InstallOne(tail: nat) returns (ok: bool)
      requires Synced() && S().phase.Install? && S().phase.tail == tail < n
      modifies `trace, bc`memdisk, bc`order, bc`clock, bc.pool, bc.head
      ensures old(trace) <= trace && OnDisk()
      ensures ok ==> Synced() && S().phase == Install(tail + 1, old(S().phase.boot)) && S().h == old(S().h)
      ensures ok ==> bc.Refs() == old(bc.Refs())
      ensures old(Spares(bc.Refs(), n)) ==> ok
    {
      hide Run, Cache.Valid, Cache.Snap, Cache.Blocks, Cache.Refs, Inc, Dec, Spares, Loaded;
      ghost var s, refs := S(), bc.Refs();
      InstallReady(g, trace);
      LogFits(g, trace);
      var lbuf, dbuf, c1 := ReadPair(g.start + tail + 1, block[tail], s.lh, tail);
      if dbuf == null { return false; }
      InstallHappens(g, trace, c1, bc.Blocks());
      ghost var k, v := block[tail], lbuf.data;
      ghost var s' := s.(disk := s.disk[k := v], cache := bc.Blocks()[k := Entry(v, false)],
        phase := Install(tail + 1, s.phase.boot));
      ok := Transfer(dbuf, lbuf);
      if ok {
        assert bc.memdisk == s'.disk && bc.Blocks() == s'.cache;
        IncDec(refs, lbuf, dbuf);
        Step(s');
      }
    }

    /** write_log. */
    method WriteLog() returns (ok: bool)
      requires Synced() && S().phase == Copy(0)
      modifies `trace, bc`memdisk, bc`order, bc`clock, bc.pool, bc.head
      ensures old(trace) <= trace && OnDisk()
      ensures ok ==> Synced() && S().phase == Copy(n) && S().h == old(S().h) && bc.Refs() == old(bc.Refs())
      ensures old(Spares(bc.Refs(), n)) ==> ok
    {
      hide Run, Cache.Valid, Cache.Snap, Cache.Blocks, Cache.Refs, Inc, Dec, Spares;
      for tail := 0 to n
        invariant Synced() && S().phase == Copy(tail) && S().h == old(S().h) && old(trace) <= trace
        invariant bc.Refs() == old(bc.Refs())
      {
        ok := CopyOne(tail);
        if !ok { return; }
      }
      ok := true;
    }

    /** install_trans. */
    method InstallTrans() returns (ok: bool)
      requires Synced() && S().phase.Install? && S().phase.tail == 0
      modifies `trace, bc`memdisk, bc`order, bc`clock, bc.pool, bc.head
      ensures old(trace) <= trace && OnDisk()
      ensures ok ==>
        Synced() && S().phase == Install(n, old(S().phase.boot)) && S().h == old(S().h) && bc.Refs() == old(bc.Refs())
      ensures old(Spares(bc.Refs(), n)) ==> ok
    {
      hide Run, Cache.Valid, Cache.Snap, Cache.Blocks, Cache.Refs, Inc, Dec, Spares;
      for tail := 0 to n
        invariant Synced() && S().phase == Install(tail, old(S().phase.boot)) && S().h == old(S().h)
        invariant old(trace) <= trace && bc.Refs() == old(bc.Refs())
      {
        ok := InstallOne(tail);
        if !ok { return; }
      }
      ok := true;
    }

    /** The loop of write_head: hb->n and hb->block[], word by word. */
    method FillHead(buf: Buf)
      requires n <= block.Length && n < NWORDS && forall i :: 0 <= i < n ==> block[i] < 0x1_0000_0000
      requires bc.Valid() && bc.Held(buf)
      modifies buf`data
      ensures bc.Valid() && bc.Held(buf) && buf.data == EncodeHead(old(buf.data), block[..n])
      ensures bc.Blocks() == old(bc.Blocks())[buf.blockno := Entry(buf.data, buf.dirty)] && bc.Refs() == old(bc.Refs())
    {
      hide Run, Cache.Valid, Cache.Snap, Cache.Blocks, Cache.Refs, Inc, Dec, Put, SetWord, GetWord;
      ghost var d0, c := buf.data, bc.Blocks();
      bc.Fill(buf, SetWord(buf.data, 0, n));
      for i := 0 to n
        invariant bc.Valid() && bc.Held(buf)
        invariant buf.data == PutWords(d0, block[..n], i)
        invariant bc.Blocks() == c[buf.blockno := Entry(buf.data, buf.dirty)] && bc.Refs() == old(bc.Refs())
      {
        ghost var e := Entry(buf.data, buf.dirty);
        bc.Fill(buf, SetWord(buf.data, i + 1, block[i]));
        UpdateTwice(c, buf.blockno, e, Entry(buf.data, buf.dirty));
      }
    }

    /** write_head: stores n and block[..n] in the header block and writes it. */
    method WriteHead(ghost lh: seq<nat>, ghost c: map<nat, Entry>)
      returns (ok: bool, ghost c1: map<nat, Entry>, ghost v: Block)
      requires bc.Valid() && bc.Blocks() == c && CacheOk(bc.memdisk, c, lh)
      requires n <= block.Length && n < NWORDS && g.start < |bc.memdisk|
      requires forall i :: 0 <= i < n ==> block[i] < 0x1_0000_0000
      modifies bc`memdisk, bc`order, bc`clock, bc.pool, bc.head
      ensures !ok ==> bc.memdisk == old(bc.memdisk)
      ensures ok ==> bc.Valid() && bc.Refs() == old(bc.Refs())
      ensures ok ==> HeadWritten(old(bc.memdisk), c, g.start, block[..n], c1, v, bc.memdisk, bc.Blocks())
      ensures old(Spares(bc.Refs(), |lh|)) ==> ok
    {
      hide Run, Cache.Valid, Cache.Snap, Cache.Blocks, Cache.Refs, Inc, Dec, Spares, CacheOk, AllBusy, Loaded, Put,
        EncodeHead;
      if Spares(bc.Refs(), |lh|) { RoomNow(lh); }
      ghost var refs := bc.Refs();
      c1, v := map[], ZERO;
      var buf := bc.Bread(ROOTDEV, g.start);
      if buf == null { return false, c1, v; }
      c1 := bc.Blocks();
      FillHead(buf);
      v := buf.data;
      ghost var e := Entry(buf.data, buf.dirty);
      ok := bc.Bwrite(buf);
      if ok {
        UpdateTwice(c1, g.start, e, Entry(v, false));
        bc.Brelse(buf);
        IncDec(refs, buf, buf);
      }
    }

    /** write_head in commit: the commit point. */
    method CommitHead() returns (ok: bool)
      requires Synced() && S().phase == Copy(n)
      modifies `trace, bc`memdisk, bc`order, bc`clock, bc.pool, bc.head
      ensures old(trace) <= trace && OnDisk()
      ensures ok ==> Synced() && S().phase == Install(0, false)
      ensures ok ==> S().h == old(S().h).(cut := |old(S().h).writes|) && bc.Refs() == old(bc.Refs())
      ensures old(Spares(bc.Refs(), n)) ==> ok
    {
      hide Run, Cache.Valid, Cache.Snap, Cache.Blocks, Cache.Refs, Inc, Dec, Spares, CacheOk, Loaded;
      ghost var s, c1, v := S(), map[], ZERO;
      CopyReady(g, trace);
      LogFits(g, trace);
      ok, c1, v := WriteHead(s.lh, s.cache);
      if ok {
        CommitHappens(g, trace, c1, v);
        ghost var s' := s.(disk := s.disk[g.start := v], cache := c1[g.start := Entry(v, false)],
          phase := Install(0, false), h := s.h.(cut := |s.h.writes|));
        Step(s');
      }
    }

    /** log.lh.n = 0 and write_head: the log is empty again. */
    method EraseHead() returns (ok: bool)
      requires Synced() && S().phase.Install? && S().phase.tail == n
      modifies `trace, `n, bc`memdisk, bc`order, bc`clock, bc.pool, bc.head
      ensures old(trace) <= trace && OnDisk()
      ensures ok ==>
        Synced() && S().phase == Ready && n == 0 && S().lh == [] && S().h == old(S().h) && bc.Refs() == old(bc.Refs())
      ensures old(Spares(bc.Refs(), n)) ==> ok
    {
      hide Run, Cache.Valid, Cache.Snap, Cache.Blocks, Cache.Refs, Inc, Dec, Spares, CacheOk, Loaded;
      ghost var s, c1, v := S(), map[], ZERO;
      InstallReady(g, trace);
      LogFits(g, trace);
      n := 0;
      ok, c1, v := WriteHead(s.lh, s.cache);
      if ok {
        assert block[..0] == [];
        EraseHappens(g, trace, c1, v);
        ghost var s' := s.(
          disk := s.disk[g.start := v], cache := c1[g.start := Entry(v, false)], lh := [], phase := Ready);
        Step(s');
      }
    }

    /** commit: copies the group into the log, commits it, installs it, and
        empties the log; nothing at all for an empty group. */
    method Commit() returns (ok: bool)
      requires Synced() && S().phase == if n > 0 then Copy(0) else Ready
      modifies `trace, `n, bc`memdisk, bc`order, bc`clock, bc.pool, bc.head
      ensures old(trace) <= trace && OnDisk()
      ensures ok ==> Synced() && S().phase == Ready && n == 0
      ensures ok ==>
        S().h.writes == old(S().h.writes) && (if old(n) > 0 then S().h.cut == |S().h.writes| else trace == old(trace))
      ensures ok ==> bc.Refs() == old(bc.Refs())
      ensures old(Spares(bc.Refs(), n)) ==> ok
    {
      hide Run, Cache.Valid, Cache.Snap, Cache.Blocks, Cache.Refs, Inc, Dec, Spares, InMemory;
      ok := true;
      if n > 0 {
        ok := WriteLog();
        if !ok { return; }
        ok := CommitHead();
        if !ok { return; }
        ok := InstallTrans();
        if !ok { return; }
        ok := EraseHead();
      }
    }

    /** The loop of read_head. */
    method LoadWords(d: Block)
      requires HeadOk(d) && block.Length == LOGSIZE
      modifies `n, block
      ensures n <= LOGSIZE && block[..n] == DecodeHead(d)
    {
      n := GetWord(d, 0);
      for i := 0 to n
        invariant n == GetWord(d, 0)
        invariant forall j :: 0 <= j < i ==> block[j] == GetWord(d, j + 1)
      {
        block[i] := GetWord(d, i + 1);
      }
      DecodeIs(d, block[..n]);
    }

    /** read_head: the list that the header block holds. */
    method LoadHead() returns (ok: bool, ghost c1: map<nat, Entry>)
      requires bc.Valid() && CacheOk(bc.memdisk, bc.Blocks(), []) && block.Length == LOGSIZE
      requires g.start < |bc.memdisk| && HeadOk(bc.memdisk[g.start])
      modifies `n, block, bc`memdisk, bc.pool, bc`order, bc`clock, bc.head
      ensures bc.memdisk == old(bc.memdisk)
      ensures ok ==> bc.Valid() && bc.Refs() == old(bc.Refs())
      ensures ok ==> Loaded(bc.memdisk, old(bc.Blocks()), g.start, c1) && bc.Blocks() == c1
      ensures ok ==> n <= LOGSIZE && block[..n] == DecodeHead(bc.memdisk[g.start])
      ensures old(Spares(bc.Refs(), 0)) ==> ok
    {
      hide Cache.Valid, Cache.Snap, Cache.Blocks, Cache.Refs, Inc, Dec, Spares, AllBusy, Loaded, DecodeHead,
        CacheOk, Evolve;
      ghost var c, refs := bc.Blocks(), bc.Refs();
      if Spares(refs, 0) { RoomNow([]); }
      c1 := map[];
      var buf := bc.Bread(ROOTDEV, g.start);
      if buf == null { return false, c1; }
      c1 := bc.Blocks();
      CleanRead(bc.memdisk, c, g.start, c1);
      LoadWords(buf.data);
      bc.Brelse(buf);
      IncDec(refs, buf, buf);
      ok := true;
    }

    /** read_head at boot, as a step of the machine. */
    method ReadHead() returns (ok: bool)
      requires Synced() && S().phase == Boot
      modifies `trace, `n, block, bc`memdisk, bc.pool, bc`order, bc`clock, bc.head
      ensures old(trace) <= trace && OnDisk()
      ensures ok ==> Synced() && S().phase == Install(0, true) && S().h == old(S().h) && bc.Refs() == old(bc.Refs())
      ensures old(Spares(bc.Refs(), 0)) ==> ok
    {
      hide Run, Cache.Valid, Cache.Snap, Cache.Blocks, Cache.Refs, Spares, Loaded, DecodeHead, CacheOk;
      ghost var s, c1 := S(), map[];
      BootReady(g, trace);
      ok, c1 := LoadHead();
      if ok {
        RebootHappens(g, trace, c1);
        Step(s.(cache := c1, lh := DecodeHead(s.disk[g.start]), phase := Install(0, true)));
      }
    }

    /** recover_from_log, which initlog runs at every boot: afterwards the home
        blocks hold exactly the committed writes and the log is empty. */
    method RecoverFromLog() returns (ok: bool)
      requires Valid() && S().phase == Boot
      modifies `trace, `n, block, bc`memdisk, bc`order, bc`clock, bc.pool, bc.head
      ensures old(trace) <= trace && OnDisk()
      ensures ok ==> Valid() && S().phase == Ready && n == 0 && S().h == old(S().h)
      ensures ok ==> |bc.memdisk| == |S().h.base| == g.size && S().h.cut <= |S().h.writes|
      ensures ok ==> forall b: nat :: g.Home(b) ==>
        bc.memdisk[b] == Apply(S().h.base, S().h.writes[..S().h.cut])[b]
      ensures ok ==> bc.Refs() == old(bc.Refs())
      ensures old(Spares(bc.Refs(), LOGSIZE - 1)) ==> ok
    {
      hide Run, Cache.Valid, Cache.Snap, Cache.Blocks, Cache.Refs, Inc, Dec, Spares, InMemory, Apply;
      ghost var refs := bc.Refs();
      if Spares(refs, LOGSIZE - 1) { SparesLess(refs, LOGSIZE - 1, 0); }
      ok := ReadHead();
      if !ok { return; }
      LogFits(g, trace);
      ListSize();
      if Spares(refs, LOGSIZE - 1) { SparesLess(refs, LOGSIZE - 1, n); }
      ok := InstallTrans();
      if !ok { return; }
      ok := EraseHead();
      if ok { Recovered(g, trace); }
    }

    /** One round of begin_op's loop: admits the operation, or says that the
        caller has to sleep. */
    method TryBeginOp() returns (admitted: bool)
      requires Valid() && (S().phase.Ready? || committing)
      modifies `trace, `outstanding
      ensures Valid() && old(trace) <= trace
      ensures admitted <==> !committing && n + (old(outstanding) + 1) * MAXOPBLOCKS <= LOGSIZE
      ensures !admitted ==> trace == old(trace)
      ensures admitted ==> S() == old(S()).(
        ops := old(S()).ops + [Op(old(S()).h.nextId, {})],
        h := old(S()).h.(nextId := old(S()).h.nextId + 1))
    {
      hide Run, Cache.Valid, Cache.Snap, Cache.Blocks;
      ghost var s := S();
      if committing { return false; }
      if n + (outstanding + 1) * MAXOPBLOCKS > LOGSIZE { return false; }
      BeginHappens(g, trace);
      outstanding := outstanding + 1;
      Step(s.(ops := s.ops + [Op(s.h.nextId, {})], h := s.h.(nextId := s.h.nextId + 1)));
      return true;
    }

    /** end_op by running operation `i`. It never panics with "log.committing";
        if it was the last operation, everything logged is committed. */
    method EndOp(ghost i: nat) returns (ok: bool)
      requires Valid() && i < |S().ops|
      modifies `trace, `n, `outstanding, `committing, bc`memdisk, bc`order, bc`clock, bc.pool, bc.head
      ensures old(trace) <= trace && OnDisk()
      ensures ok ==> Valid() && S().phase == Ready && outstanding == old(outstanding) - 1
      ensures ok ==> S().h.writes == old(S()).h.writes
      ensures ok && outstanding == 0 ==> S().h.cut == |S().h.writes|
      ensures outstanding > 0 ==> ok && bc.memdisk == old(bc.memdisk)
      ensures ok ==> bc.Refs() == old(bc.Refs())
      ensures old(Spares(bc.Refs(), n)) ==> ok
    {
      hide Run, Cache.Valid, Cache.Snap, Cache.Blocks, Cache.Refs, Inc, Dec, Spares;
      ghost var s := S();
      ghost var ops := s.ops[..i] + s.ops[i + 1..];
      EndHappens(g, trace, i);
      outstanding := outstanding - 1;
      assert !committing;
      var doCommit := outstanding == 0;
      if doCommit { committing := true; }
      Step(s.(ops := ops, phase := if ops == [] && |s.lh| > 0 then Copy(0) else Ready));
      ok := true;
      if doCommit {
        ok := Commit();
        if !ok { return; }
        committing := false;
      }
    }

    /** The absorption loop of log_write. */
    method Record(blockno: nat)
      requires n < block.Length
      modifies `n, block
      ensures n <= block.Length && block[..n] == Absorb(old(block[..n]), blockno)
    {
      var i := 0;
      while i < n
        invariant 0 <= i <= n && forall k :: 0 <= k < i ==> block[k] != blockno
      {
        if block[i] == blockno { break; }
        i := i + 1;
      }
      ghost var was := block[..n];
      assert i < n ==> was[i] == blockno;
      block[i] := blockno;
      if i == n { n := n + 1; }
      assert i < |was| ==> block[..n] == was;
    }

    /** log_write by running operation `i`, which has put `b.data` in the
        buffer since the machine's last step. False means one of the panics. */
    method LogWrite(b: Buf, ghost i: nat) returns (ok: bool)
      requires Consistent() && i < |S().ops| && bc.Held(b) && g.Home(b.blockno)
      requires Stored(S().disk, S().cache, b.blockno, Entry(b.data, b.dirty), bc.Blocks())
      modifies `trace, `n, block, b`dirty
      ensures old(trace) <= trace && OnDisk()
      ensures ok <==> !TooBig(g, old(S()).lh)
      ensures ok ==> Valid() && bc.Held(b) && b.dirty && outstanding == old(outstanding)
      ensures ok ==> WriteStep(g, old(S()), S(), i, b.blockno, b.data) && bc.Refs() == old(bc.Refs())
    {
      hide Run, Cache.Valid, Cache.Snap, Cache.Blocks, Cache.Refs, Inc, Dec, Put, Stored;
      ghost var s := S();
      WriteReady(g, trace);
      if n >= LOGSIZE || n >= g.nlog - 1 { return false; }
      if outstanding < 1 { return false; }
      ghost var c := bc.Blocks();
      WriteHappens(g, trace, i, b.blockno, b.data, b.dirty, c);
      Record(b.blockno);
      bc.Pin(b);
      Step(s.(
        cache := c[b.blockno := Entry(b.data, true)],
        lh := Absorb(s.lh, b.blockno),
        ops := s.ops[i := s.ops[i].(logged := s.ops[i].logged + {b.blockno})],
        h := s.h.(writes := s.h.writes + [Write(s.ops[i].id, b.blockno, b.data)])));
      return true;
    }

    /** bread and memset. */
    method ReadZeroed(bno: nat) returns (bp: Buf?)
      requires |trace| > 0 && bc.Valid() && bno < |bc.memdisk| && CacheOk(bc.memdisk, bc.Blocks(), S().lh)
      modifies bc`memdisk, bc.pool
      ensures bc.memdisk == old(bc.memdisk)
      ensures bp != null ==>
        bc.Valid() && bc.Held(bp) && bp.blockno == bno && bp.data == ZERO && bc.Refs() == Inc(old(bc.Refs()), bp)
      ensures bp != null ==> Stored(bc.memdisk, old(bc.Blocks()), bno, Entry(ZERO, bp.dirty), bc.Blocks())
      ensures old(Spares(bc.Refs(), |S().lh|)) ==> bp != null
    {
      hide Run, Cache.Valid, Cache.Snap, Cache.Blocks, Cache.Refs, Inc, Spares, AllBusy, CacheOk, Put, Loaded,
        Stored, Evolve;
      ghost var c := bc.Blocks();
      if Spares(bc.Refs(), |S().lh|) { RoomNow(S().lh); }
      bp := bc.Bread(ROOTDEV, bno);
      if bp == null { return; }
      ghost var c1 := bc.Blocks();
      LoadedEvolves(bc.memdisk, c, bno, c1);
      bc.Fill(bp, ZERO);
      EvolveThenStore(bc.memdisk, c, c1, bno, Entry(ZERO, bp.dirty));
    }

    /** bzero of fs.c, the pattern of every logged update: bread, modify,
        log_write, brelse. */
    method Bzero(bno: nat, ghost i: nat) returns (ok: bool)
      requires Valid() && i < |S().ops| && g.Home(bno)
      modifies `trace, `n, block, bc`memdisk, bc`order, bc`clock, bc.pool, bc.head
      ensures old(trace) <= trace && OnDisk()
      ensures ok ==> Valid() && outstanding == old(outstanding)
      ensures ok ==> WriteStep(g, old(S()), S(), i, bno, ZERO) && bc.Refs() == old(bc.Refs())
      ensures old(Spares(bc.Refs(), n) && !TooBig(g, S().lh)) ==> ok
    {
      hide Run, Cache.Valid, Cache.Snap, Cache.Blocks, Cache.Refs, Inc, Dec, Spares, CacheOk, Put, Stored,
        WriteStep, TooBig;
      ghost var refs := bc.Refs();
      LogFits(g, trace);
      var bp := ReadZeroed(bno);
      if bp == null { return false; }
      ok := LogWrite(bp, i);
      if ok {
        bc.Brelse(bp);
        IncDec(refs, bp, bp);
      }
    }
  }
}
