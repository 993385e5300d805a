/** What operations pass to log_write, as changes of the disk: what the log
    applies, and which changes may trade places. */
module LogSteps {
  import opened Bitmap
  import opened Blocks
  import opened Dinodes
  import opened DiskLayout
  import L = LogMachine

  /** The blocks and the inodes, unpacked. */
  datatype Disk = Disk(store: seq<Block>, tab: seq<Dinode>)

  ghost predicate Sized(sb: Super, d: Disk) {
    sb.Good() && |d.store| == sb.size && |d.tab| == sb.ninodes
  }

  /** A bit of the bitmap, a data block or an inode is changed. */
  datatype Act = Bit(b: nat, on: bool) | Data(b: nat, v: Block) | Put(i: nat, e: Dinode)

  /** And the operation that does so. */
  datatype Step = Step(op: nat, act: Act)

  predicate Proper(sb: Super, a: Act) {
    match a
    case Bit(b, _) => b < sb.size
    case Data(b, _) => sb.IsData(b)
    case Put(i, _) => i < sb.ninodes
  }

  function BlockOf(sb: Super, a: Act): nat {
    match a
    case Bit(b, _) => sb.BBlock(b)
    case Data(b, _) => b
    case Put(i, _) => sb.IBlock(i)
  }

  lemma BlockInside(sb: Super, a: Act)
    requires sb.Good() && Proper(sb, a)
    ensures BlockOf(sb, a) < sb.size && (!a.Put? ==> sb.bmapstart <= BlockOf(sb, a))
    ensures a.Bit? ==> BlockOf(sb, a) < sb.Meta()
  {
    if a.Put? { InodeBlock(sb, a.i); }
  }

  ghost function Do(sb: Super, d: Disk, a: Act): (r: Disk)
    requires Sized(sb, d)
    ensures Sized(sb, r)
  {
    if !Proper(sb, a) then d
    else
      BlockInside(sb, a);
      match a
      case Bit(b, on) => d.(store := d.store[sb.BBlock(b) := SetTo(d.store[sb.BBlock(b)], b % BPB, on)])
      case Data(b, v) => d.(store := d.store[b := v])
      case Put(i, e) => d.(tab := d.tab[i := e])
  }

  ghost function Exec(sb: Super, d: Disk, es: seq<Step>): (r: Disk)
    requires Sized(sb, d)
    ensures Sized(sb, r)
  {
    if es == [] then d else Do(sb, Exec(sb, d, es[..|es| - 1]), es[|es| - 1].act)
  }

  lemma {:induction false} ExecTwice(sb: Super, d: Disk, a: seq<Step>, b: seq<Step>)
    requires Sized(sb, d)
    ensures Exec(sb, d, a + b) == Exec(sb, Exec(sb, d, a), b)
  {
    hide Do;
    if b == [] {
      assert a + b == a;
    } else {
      assert (a + b)[..|a + b| - 1] == a + b[..|b| - 1];
      ExecTwice(sb, d, a, b[..|b| - 1]);
    }
  }

  lemma ExecOne(sb: Super, d: Disk, e: Step)
    requires Sized(sb, d)
    ensures Exec(sb, d, [e]) == Do(sb, d, e.act)
  {
    hide Do;
    assert [e][..0] == [] && Exec(sb, d, []) == d;
  }

  // ---- what the log does with them ----

  ghost function ImageOf(sb: Super, d: Disk): (r: seq<Block>)
    requires Sized(sb, d)
    ensures |r| == sb.size
  {
    Image(sb, d.store, d.tab, |d.tab|)
  }

  /** The block as log_write gets it: as read, with the change made. */
  ghost function Changed(sb: Super, d: Disk, a: Act): Block
    requires Sized(sb, d) && Proper(sb, a)
  {
    BlockInside(sb, a);
    var blk := ImageOf(sb, d)[BlockOf(sb, a)];
    match a
    case Bit(b, on) => SetTo(blk, b % BPB, on)
    case Data(_, v) => v
    case Put(i, e) => Pack(blk, i % IPB, e)
  }

  lemma DoChanges(sb: Super, d: Disk, a: Act)
    requires Sized(sb, d) && Proper(sb, a)
    ensures BlockOf(sb, a) < sb.size && ImageOf(sb, Do(sb, d, a)) == ImageOf(sb, d)[BlockOf(sb, a) := Changed(sb, d, a)]
  {
    hide Image, Pack, SetTo;
    BlockInside(sb, a);
    match a {
      case Bit(b, on) =>
        ImageOthers(sb, d.store, d.tab, |d.tab|, sb.BBlock(b));
        ImageStore(sb, d.store, d.tab, |d.tab|, sb.BBlock(b), Changed(sb, d, a));
      case Data(b, v) => ImageStore(sb, d.store, d.tab, |d.tab|, b, v);
      case Put(i, e) => ImageTab(sb, d.store, d.tab, |d.tab|, i, e);
    }
  }

  /** The log's writes for a sequence of changes. */
  ghost function WritesOf(sb: Super, d: Disk, es: seq<Step>): seq<L.Write>
    requires Sized(sb, d)
  {
    if es == [] then []
    else
      var rest, e := es[..|es| - 1], es[|es| - 1];
      WritesOf(sb, d, rest) +
      if Proper(sb, e.act) then [L.Write(e.op, BlockOf(sb, e.act), Changed(sb, Exec(sb, d, rest), e.act))] else []
  }

  lemma ApplyMore(base: seq<Block>, ws: seq<L.Write>, w: L.Write)
    requires w.block < |base|
    ensures L.Apply(base, ws + [w]) == L.Apply(base, ws)[w.block := w.data]
  {
    assert (ws + [w])[..|ws|] == ws;
  }

  /** Applied in order, they take the disk image before the changes to the one
      after them. */
  lemma {:induction false} WritesApply(sb: Super, d: Disk, es: seq<Step>)
    requires Sized(sb, d)
    ensures L.Apply(ImageOf(sb, d), WritesOf(sb, d, es)) == ImageOf(sb, Exec(sb, d, es))
  {
    hide Do, Changed, ImageOf, L.Apply;
    if es == [] {
      assert L.Apply(ImageOf(sb, d), []) == ImageOf(sb, d) by { ApplyNone(ImageOf(sb, d)); }
    } else {
      var rest, e := es[..|es| - 1], es[|es| - 1];
      WritesApply(sb, d, rest);
      var m := Exec(sb, d, rest);
      if Proper(sb, e.act) {
        DoChanges(sb, m, e.act);
        ApplyMore(ImageOf(sb, d), WritesOf(sb, d, rest), L.Write(e.op, BlockOf(sb, e.act), Changed(sb, m, e.act)));
      } else {
        DoNothing(sb, m, e.act);
        assert WritesOf(sb, d, rest) + [] == WritesOf(sb, d, rest);
      }
    }
  }

  lemma ApplyNone(base: seq<Block>)
    ensures L.Apply(base, []) == base
  {
  }

  lemma DoNothing(sb: Super, d: Disk, a: Act)
    requires Sized(sb, d) && !Proper(sb, a)
    ensures Do(sb, d, a) == d
  {
  }

  /** Every write is to the block of a change of the same operation. */
  lemma {:induction false} WritesIn(sb: Super, d: Disk, es: seq<Step>, w: L.Write)
    requires Sized(sb, d) && w in WritesOf(sb, d, es)
    ensures exists e <- es :: e.op == w.op && BlockOf(sb, e.act) == w.block
  {
    hide Do, Changed, Exec;
    var rest, e := es[..|es| - 1], es[|es| - 1];
    if w in WritesOf(sb, d, rest) {
      WritesIn(sb, d, rest, w);
      var x :| x in rest && x.op == w.op && BlockOf(sb, x.act) == w.block;
      assert x in es;
    } else {
      assert e in es;
    }
  }

  lemma {:induction false} WritesTwice(sb: Super, d: Disk, a: seq<Step>, b: seq<Step>)
    requires Sized(sb, d)
    ensures WritesOf(sb, d, a + b) == WritesOf(sb, d, a) + WritesOf(sb, Exec(sb, d, a), b)
  {
    hide Do, Changed;
    if b == [] {
      assert a + b == a;
    } else {
      assert (a + b)[..|a + b| - 1] == a + b[..|b| - 1];
      WritesTwice(sb, d, a, b[..|b| - 1]);
      ExecTwice(sb, d, a, b[..|b| - 1]);
    }
  }

  // ---- trading places ----

  /** Both change the same bit, block or inode. */
  predicate Clash(a: Act, b: Act) {
    || (a.Bit? && b.Bit? && a.b == b.b)
    || (a.Data? && b.Data? && a.b == b.b)
    || (a.Put? && b.Put? && a.i == b.i)
  }

  lemma BitsTrade(sb: Super, d: Disk, a: Act, b: Act)
    requires Sized(sb, d) && a.Bit? && b.Bit? && a.b != b.b && Proper(sb, a) && Proper(sb, b)
    ensures Do(sb, Do(sb, d, a), b) == Do(sb, Do(sb, d, b), a)
  {
    hide SetTo;
    var x, y := BlockOf(sb, a), BlockOf(sb, b);
    BlockInside(sb, a);
    BlockInside(sb, b);
    if x == y {
      assert a.b % BPB != b.b % BPB;
      SetToSwaps(d.store[x], a.b % BPB, a.on, b.b % BPB, b.on);
    }
  }

  /** Changes to different things, also in one block, may be made in either
      order. */
  lemma Trade(sb: Super, d: Disk, a: Act, b: Act)
    requires Sized(sb, d) && !Clash(a, b)
    ensures Do(sb, Do(sb, d, a), b) == Do(sb, Do(sb, d, b), a)
  {
    hide SetTo;
    if Proper(sb, a) && Proper(sb, b) {
      BlockInside(sb, a);
      BlockInside(sb, b);
      if a.Bit? && b.Bit? { BitsTrade(sb, d, a, b); }
    }
  }

  /** A change may be put off past changes to other things. */
  lemma {:induction false} Past(sb: Super, d: Disk, e: Step, l: seq<Step>)
    requires Sized(sb, d) && forall x <- l :: !Clash(e.act, x.act)
    ensures Exec(sb, d, [e] + l) == Exec(sb, d, l + [e])
  {
    hide Do, Clash;
    if l == [] {
      assert [e] + l == l + [e];
    } else {
      var m := l[..|l| - 1];
      Past(sb, d, e, m);
      assert [e] + l == ([e] + m) + [l[|l| - 1]] && l == m + [l[|l| - 1]];
      ExecTwice(sb, d, [e] + m, [l[|l| - 1]]);
      ExecTwice(sb, d, m + [e], [l[|l| - 1]]);
      ExecTwice(sb, d, m, [e]);
      ExecTwice(sb, d, m, [l[|l| - 1]]);
      ExecTwice(sb, d, l, [e]);
      var s := Exec(sb, d, m);
      ExecOne(sb, s, e);
      ExecOne(sb, s, l[|l| - 1]);
      ExecOne(sb, Exec(sb, s, [e]), l[|l| - 1]);
      ExecOne(sb, Exec(sb, s, [l[|l| - 1]]), e);
      assert !Clash(e.act, l[|l| - 1].act);
      Trade(sb, s, e.act, l[|l| - 1].act);
    }
  }

  /** The changes of one operation, and those of all others. */
  function Of(es: seq<Step>, op: nat): (r: seq<Step>)
    ensures forall e <- r :: e in es && e.op == op
  {
    if es == [] then [] else (if es[0].op == op then [es[0]] else []) + Of(es[1..], op)
  }

  function Without(es: seq<Step>, op: nat): (r: seq<Step>)
    ensures forall e <- r :: e in es && e.op != op
    ensures |r| + |Of(es, op)| == |es|
  {
    if es == [] then [] else (if es[0].op == op then [] else [es[0]]) + Without(es[1..], op)
  }

  lemma {:induction false} AllItsOwn(es: seq<Step>, op: nat)
    requires forall e <- es :: e.op == op
    ensures Of(es, op) == es
  {
    if es != [] {
      assert forall e <- es[1..] :: e in es;
      AllItsOwn(es[1..], op);
      assert es == [es[0]] + es[1..] && es[0] in es;
    }
  }

  lemma {:induction false} OfWithout(es: seq<Step>, a: nat, b: nat)
    ensures Of(Without(es, a), b) == if a == b then [] else Of(es, b)
  {
    if es != [] {
      OfWithout(es[1..], a, b);
      var rest := Without(es[1..], a);
      if es[0].op == a {
        assert Without(es, a) == rest && (a != b ==> Of(es, b) == Of(es[1..], b));
      } else {
        assert Without(es, a) == [es[0]] + rest && ([es[0]] + rest)[1..] == rest;
      }
    }
  }

  /** Nothing that `op` changes is changed by another operation. */
  ghost predicate Alone(es: seq<Step>, op: nat) {
    forall x <- es, y <- es :: x.op == op && y.op != op ==> !Clash(y.act, x.act)
  }

  /** An operation that changes what no other one does may have run first. */
  lemma {:induction false} RunFirst(sb: Super, d: Disk, es: seq<Step>, op: nat)
    requires Sized(sb, d) && Alone(es, op)
    ensures Exec(sb, d, es) == Exec(sb, d, Of(es, op) + Without(es, op))
    decreases |es|
  {
    hide Do, Exec, Clash;
    if es != [] {
      var e, rest := es[0], es[1..];
      assert es == [e] + rest && forall x <- rest :: x in es;
      RunFirst(sb, Exec(sb, d, [e]), rest, op);
      ExecTwice(sb, d, [e], rest);
      var o, w := Of(rest, op), Without(rest, op);
      ExecTwice(sb, d, [e], o + w);
      if e.op == op {
        assert Of(es, op) + Without(es, op) == [e] + (o + w);
      } else {
        assert Of(es, op) + Without(es, op) == (o + [e]) + w;
        assert [e] + (o + w) == ([e] + o) + w;
        Past(sb, d, e, o);
        ExecTwice(sb, d, [e] + o, w);
        ExecTwice(sb, d, o + [e], w);
      }
    } else {
      assert Of(es, op) + Without(es, op) == es;
    }
  }
}
