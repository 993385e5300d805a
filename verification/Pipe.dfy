/** The pipe's ring buffer, with 32-bit counters that wrap around. */
module Pipe {
  import opened Blocks
  import opened Params

  const PIPESIZE := 512

  lemma ModStep(r: nat, d: nat)
    requires d <= PIPESIZE
    ensures (r + d) % UINT == if r % UINT + d < UINT then r % UINT + d else r % UINT + d - UINT
  {
    var a := r % UINT + d;
    assert r + d == r / UINT * UINT + a;
    if a >= UINT { assert (r + d) / UINT == r / UINT + 1; }
  }

  /** Counting modulo 2^32 tells full and empty apart, and indexes the ring,
      because PIPESIZE divides 2^32. */
  lemma Wraparound(r: nat, w: nat)
    requires r <= w <= r + PIPESIZE
    ensures w % UINT == (r % UINT + PIPESIZE) % UINT <==> w == r + PIPESIZE
    ensures r % UINT == w % UINT <==> r == w
    ensures w % UINT % PIPESIZE == w % PIPESIZE && r % UINT % PIPESIZE == r % PIPESIZE
    ensures (w % UINT + 1) % UINT == (w + 1) % UINT && (r % UINT + 1) % UINT == (r + 1) % UINT
  {
    ModTwice(w);
    ModTwice(r);
    ModStep(r, w - r);
    ModStep(r % UINT, PIPESIZE);
    ModStep(r, 1);
    ModStep(w, 1);
  }

  lemma ModTwice(x: nat)
    ensures x % UINT % PIPESIZE == x % PIPESIZE
  {
    var q := x / UINT;
    assert x == q * UINT + x % UINT && UINT == 0x80_0000 * PIPESIZE;
    assert x == (q * 0x80_0000) * PIPESIZE + x % UINT;
    ModAdd(q * 0x80_0000, x % UINT);
  }

  lemma {:induction false} ModAdd(k: nat, y: nat)
    ensures (k * PIPESIZE + y) % PIPESIZE == y % PIPESIZE
  {
    if k > 0 {
      ModAdd(k - 1, y);
      assert k * PIPESIZE + y == (k - 1) * PIPESIZE + y + PIPESIZE;
    }
  }

  /** What happens while a process sleeps on the pipe: others write and read,
      and the process at the other end may close it; the sleeper may be killed. */
  datatype Act = Reads(n: nat) | Writes(src: seq<Byte>)

  datatype Wake = Wake(acts: seq<Act>, close: bool, killed: bool)

  datatype Outcome = Done(n: nat) | Failed | Asleep

  /** The bytes `src` are at the places `at` of `all`, in order, none of them
      before `from`. */
  ghost predicate Placed(src: seq<Byte>, all: seq<Byte>, at: seq<nat>, from: nat) {
    && |at| == |src|
    && (forall k :: 0 <= k < |at| ==> from <= at[k] < |all| && all[at[k]] == src[k])
    && (forall j, k :: 0 <= j < k < |at| ==> at[j] < at[k])
  }

  lemma PlacedNone(src: seq<Byte>, all: seq<Byte>, from: nat)
    ensures Placed(src[..0], all, [], from)
  {
  }

  lemma PlacedStill(src: seq<Byte>, all: seq<Byte>, all': seq<Byte>, at: seq<nat>, from: nat)
    requires Placed(src, all, at, from) && all <= all'
    ensures Placed(src, all', at, from)
  {
  }

  lemma PlacedNext(src: seq<Byte>, i: nat, all: seq<Byte>, at: seq<nat>, from: nat)
    requires i < |src| && Placed(src[..i], all, at, from) && from <= |all|
    ensures Placed(src[..i + 1], all + [src[i]], at + [|all|], from)
  {
  }

  lemma PrefixOn(a: seq<Byte>, b: seq<Byte>, c: seq<Byte>)
    requires a <= b <= c
    ensures a <= c && c == a + c[|a|..]
  {
  }

  class Pipe {
    const data: array<Byte>
    var nread: Word
    var nwrite: Word
    var readopen: bool
    var writeopen: bool
    ghost var accepted: seq<Byte>      // all bytes ever written
    ghost var delivered: seq<Byte>     // all bytes ever read

    ghost predicate Valid()
      reads `nread, `nwrite, `accepted, `delivered, data
    {
      && data.Length == PIPESIZE
      && |delivered| <= |accepted| <= |delivered| + PIPESIZE && delivered == accepted[..|delivered|]
      && nread == |delivered| % UINT && nwrite == |accepted| % UINT
      && forall k: nat :: |delivered| <= k < |accepted| ==> data[k % PIPESIZE] == accepted[k]
    }

    constructor ()
      ensures Valid() && accepted == delivered == [] && readopen && writeopen && fresh(data)
    {
      data := new Byte[PIPESIZE](_ => 0);
      nread, nwrite, readopen, writeopen := 0, 0, true, true;
      accepted, delivered := [], [];
    }

    predicate Full()
      reads this
    {
      nwrite == (nread + PIPESIZE) % UINT
    }

    /** p->data[p->nwrite++ % PIPESIZE] = b */
    method Put(b: Byte)
      requires Valid() && !Full()
      modifies `nwrite, `accepted, data
      ensures Valid() && accepted == old(accepted) + [b]
    {
      Wraparound(|delivered|, |accepted|);
      Slots(|delivered|, |accepted|);
      data[nwrite % PIPESIZE] := b;
      nwrite := (nwrite + 1) % UINT;
      accepted := accepted + [b];
    }

    /** p->data[p->nread++ % PIPESIZE] */
    method Get() returns (b: Byte)
      requires Valid() && nread != nwrite
      modifies `nread, `delivered
      ensures Valid() && |old(delivered)| < |accepted| && b == accepted[|old(delivered)|]
      ensures delivered == old(delivered) + [b]
    {
      Wraparound(|delivered|, |accepted|);
      b := data[nread % PIPESIZE];
      nread := (nread + 1) % UINT;
      delivered := delivered + [b];
    }

    static lemma Slots(r: nat, w: nat)
      requires r <= w < r + PIPESIZE
      ensures forall k: nat :: r <= k < w ==> k % PIPESIZE != w % PIPESIZE
    {
    }

    /** Another process reads `n` bytes, or as many as there are. */
    method Drain(n: nat)
      requires Valid()
      modifies `nread, `delivered
      ensures Valid() && old(delivered) <= delivered
    {
      var i := 0;
      while i < n && nread != nwrite
        invariant i <= n && Valid() && old(delivered) <= delivered
      {
        var _ := Get();
        i := i + 1;
      }
    }

    /** Another process writes `src`, or as much of it as fits. */
    method Fill(src: seq<Byte>)
      requires Valid()
      modifies `nwrite, `accepted, data
      ensures Valid() && old(accepted) <= accepted
    {
      var i := 0;
      while i < |src| && !Full()
        invariant i <= |src| && Valid() && old(accepted) <= accepted
      {
        Put(src[i]);
        i := i + 1;
      }
    }

    /** What others do to the pipe while a process sleeps. */
    method Others(w: Wake)
      requires Valid()
      modifies `nread, `nwrite, `accepted, `delivered, data
      ensures Valid() && old(accepted) <= accepted && old(delivered) <= delivered
    {
      var i := 0;
      while i < |w.acts|
        invariant i <= |w.acts| && Valid() && old(accepted) <= accepted && old(delivered) <= delivered
      {
        match w.acts[i] {
          case Reads(n) => Drain(n);
          case Writes(src) => Fill(src);
        }
        i := i + 1;
      }
    }

    /** pipewrite: the bytes are accepted in order, among those that others
        write meanwhile; all of them unless the read end closes or the writer
        is killed or left asleep on a full pipe. `at` tells where they are. */
    method PipeWrite(src: seq<Byte>, wakes: seq<Wake>) returns (r: Outcome, ghost at: seq<nat>)
      requires Valid()
      modifies `nread, `nwrite, `readopen, `accepted, `delivered, data
      ensures Valid() && old(accepted) <= accepted && old(delivered) <= delivered
      ensures |at| <= |src| && Placed(src[..|at|], accepted, at, |old(accepted)|)
      ensures wakes == [] ==> accepted == old(accepted) + src[..|at|]
      ensures if r.Done? then r.n == |at| == |src| else |at| < |src| && |accepted| - |delivered| == PIPESIZE
      ensures r.Failed? ==> !readopen || exists w <- wakes :: w.killed
      ensures r.Asleep? ==> readopen
    {
      hide Placed;
      var i, j, killed := 0, 0, false;
      at := [];
      PlacedNone(src, accepted, |old(accepted)|);
      while i < |src|
        invariant i == |at| <= |src| && j <= |wakes| && Valid()
        invariant old(accepted) <= accepted && old(delivered) <= delivered
        invariant Placed(src[..i], accepted, at, |old(accepted)|)
        invariant wakes == [] ==> accepted == old(accepted) + src[..i]
        invariant killed ==> exists w <- wakes :: w.killed
      {
        while Full()
          invariant i == |at| < |src| && j <= |wakes| && Valid()
          invariant old(accepted) <= accepted && old(delivered) <= delivered
          invariant Placed(src[..i], accepted, at, |old(accepted)|)
          invariant wakes == [] ==> accepted == old(accepted) + src[..i]
          invariant killed ==> exists w <- wakes :: w.killed
          decreases |wakes| - j
        {
          Wraparound(|delivered|, |accepted|);
          if !readopen || killed { return Failed, at; }
          if j == |wakes| { return Asleep, at; }
          ghost var was := accepted;
          Others(wakes[j]);
          PlacedStill(src[..i], was, accepted, at, |old(accepted)|);
          readopen, killed := readopen && !wakes[j].close, killed || wakes[j].killed;
          j := j + 1;
        }
        ghost var was := accepted;
        Put(src[i]);
        PlacedNext(src, i, was, at, |old(accepted)|);
        assert src[..i + 1] == src[..i] + [src[i]];
        at, i := at + [|was|], i + 1;
      }
      assert src[..i] == src;
      return Done(i), at;
    }

    /** piperead: the next bytes in the order they were accepted, after those
        that others have read meanwhile; none only at the end of the file. */
    method PipeRead(n: nat, wakes: seq<Wake>) returns (r: Outcome, out: seq<Byte>, ghost skipped: seq<Byte>)
      requires Valid()
      modifies `nread, `nwrite, `writeopen, `accepted, `delivered, data
      ensures Valid() && delivered == old(delivered) + skipped + out && old(accepted) <= accepted
      ensures wakes == [] || old(|accepted| > |delivered|) ==> skipped == []
      ensures if r.Done? then r.n == |out| <= n && (|out| < n ==> delivered == accepted) else out == []
      ensures r == Done(0) && n > 0 ==> !writeopen
      ensures !r.Done? ==> |accepted| == |delivered| && writeopen
      ensures r.Failed? ==> exists w <- wakes :: w.killed
    {
      hide Valid, Full;
      ghost var was := delivered;
      r, skipped := Await(wakes);
      if !r.Done? { return r, [], skipped; }
      out := Collect(n);
      assert was + skipped + out == delivered;
      return Done(|out|), out, skipped;
    }

    lemma EmptyIs()
      requires Valid()
      ensures (nread == nwrite <==> |accepted| == |delivered|) && |delivered| <= |accepted|
    {
      Wraparound(|delivered|, |accepted|);
    }

    /** The first loop of piperead: asleep while the pipe is empty. */
    method Await(wakes: seq<Wake>) returns (r: Outcome, ghost skipped: seq<Byte>)
      requires Valid()
      modifies `nread, `nwrite, `writeopen, `accepted, `delivered, data
      ensures Valid() && delivered == old(delivered) + skipped && old(accepted) <= accepted
      ensures wakes == [] || old(|accepted| > |delivered|) ==> skipped == []
      ensures r.Done? ==> |accepted| > |delivered| || !writeopen
      ensures !r.Done? ==> |accepted| == |delivered| && writeopen
      ensures r.Failed? ==> exists w <- wakes :: w.killed
    {
      hide Valid;
      skipped := [];
      var j, killed := 0, false;
      EmptyIs();
      while nread == nwrite && writeopen
        invariant j <= |wakes| && Valid() && delivered == old(delivered) + skipped && old(accepted) <= accepted
        invariant (nread == nwrite <==> |accepted| == |delivered|) && |delivered| <= |accepted|
        invariant wakes == [] || old(|accepted| > |delivered|) ==> skipped == []
        invariant killed ==> exists w <- wakes :: w.killed
        decreases |wakes| - j
      {
        if killed { return Failed, skipped; }
        if j == |wakes| { return Asleep, skipped; }
        ghost var was := delivered;
        Others(wakes[j]);
        EmptyIs();
        PrefixOn(old(delivered), was, delivered);
        skipped := delivered[|old(delivered)|..];
        writeopen, killed := writeopen && !wakes[j].close, killed || wakes[j].killed;
        j := j + 1;
      }
      return Done(0), skipped;
    }

    /** The second loop of piperead. */
    method Collect(n: nat) returns (out: seq<Byte>)
      requires Valid()
      modifies `nread, `delivered
      ensures Valid() && delivered == old(delivered) + out && |out| <= n && (|out| < n ==> delivered == accepted)
      ensures n > 0 && old(|accepted| > |delivered|) ==> out != []
    {
      out := [];
      var i := 0;
      Wraparound(|delivered|, |accepted|);
      while i < n && nread != nwrite
        invariant i == |out| <= n && Valid() && delivered == old(delivered) + out
        invariant i > 0 || nread != nwrite || old(|accepted| == |delivered|)
      {
        var b := Get();
        out := out + [b];
        i := i + 1;
      }
      Wraparound(|delivered|, |accepted|);
    }
  }
}
