/** The working set of a process: a circular array with a hand, and the queue
    it stands for. */
module ClockQueue {
  const CLOCKSIZE := 8
  const EMPTY: int := -1

  /** The slots in the order of the hand: from the one after it, round to the
      one it is at. The hand starts at -1. */
  function Round(cq: seq<int>, hand: int): (r: seq<int>)
    requires |cq| == CLOCKSIZE && -1 <= hand < CLOCKSIZE
    ensures |r| == CLOCKSIZE
  {
    cq[hand + 1..] + cq[..hand + 1]
  }

  function Unused(r: seq<int>): (n: nat)
    ensures n <= |r| && (n < |r| ==> r[n] != EMPTY) && forall k :: 0 <= k < n ==> r[k] == EMPTY
  {
    if r != [] && r[0] == EMPTY then 1 + Unused(r[1..]) else 0
  }

  /** The pages of the working set, least recently inserted first. */
  function Pages(r: seq<int>): seq<int> {
    r[Unused(r)..]
  }

  predicate Distinct(q: seq<int>) {
    forall i, j :: 0 <= i < j < |q| ==> q[i] != q[j]
  }

  /** The empty slots are the ones right after the hand, and no page is in two
      slots. */
  predicate Orderly(r: seq<int>) {
    EMPTY !in Pages(r) && Distinct(Pages(r))
  }

  lemma {:induction false} UnusedIs(r: seq<int>, n: nat)
    requires n <= |r| && (n < |r| ==> r[n] != EMPTY) && forall k :: 0 <= k < n ==> r[k] == EMPTY
    ensures Unused(r) == n && Pages(r) == r[n..]
  {
    if n > 0 { UnusedIs(r[1..], n - 1); }
  }

  /** Moving the hand one slot on and storing there. */
  lemma MoveHand(cq: seq<int>, hand: int, x: int)
    requires |cq| == CLOCKSIZE && -1 <= hand < CLOCKSIZE
    ensures var h := (hand + 1) % CLOCKSIZE;
      cq[h] == Round(cq, hand)[0] && Round(cq[h := x], h) == Round(cq, hand)[1..] + [x]
  {
  }

  /** A page joins at the back while there is room. */
  lemma Append(r: seq<int>, x: int)
    requires |r| > 0 && r[0] == EMPTY && x != EMPTY && Orderly(r) && x !in Pages(r)
    ensures |Pages(r)| < |r| && Pages(r[1..] + [x]) == Pages(r) + [x] && Orderly(r[1..] + [x])
  {
    UnusedIs(r[1..] + [x], Unused(r) - 1);
  }

  /** In a full queue the one at the front goes, and `x` comes at the back. */
  lemma Replace(r: seq<int>, x: int)
    requires |r| > 0 && r[0] != EMPTY && x != EMPTY && Orderly(r) && (x == r[0] || x !in r)
    ensures Pages(r) == r && Pages(r[1..] + [x]) == r[1..] + [x] && Orderly(r[1..] + [x])
  {
    UnusedIs(r, 0);
    var r' := r[1..] + [x];
    assert r'[0] != EMPTY by { assert r'[0] == if |r| > 1 then r[1] else x; }
    UnusedIs(r', 0);
    forall i, j | 0 <= i < j < |r'|
      ensures r'[i] != r'[j]
    {
      assert r'[i] == r[i + 1] && r'[j] == if j + 1 < |r| then r[j + 1] else x;
    }
  }

  lemma Prefix(head: seq<int>, tail: seq<int>)
    requires (forall x <- head :: x == EMPTY) && EMPTY !in tail
    ensures Pages(head + tail) == tail
  {
    assert tail != [] ==> (head + tail)[|head|] == tail[0];
    assert forall k :: 0 <= k < |head| ==> (head + tail)[k] == head[k] && head[k] in head;
    UnusedIs(head + tail, |head|);
  }

  lemma CutAt(e: seq<int>, p: seq<int>, i: nat)
    requires i < |p|
    ensures (e + p)[..|e| + i] == e + p[..i] && (e + p)[|e| + i + 1..] == p[i + 1..]
  {
  }

  lemma DeleteParts(e: seq<int>, p: seq<int>, i: nat)
    requires (forall x <- e :: x == EMPTY) && EMPTY !in p && i < |p|
    ensures var j := |e| + i;
      Pages([EMPTY] + (e + p)[..j] + (e + p)[j + 1..]) == p[..i] + p[i + 1..]
  {
    hide Pages;
    var tail := p[..i] + p[i + 1..];
    CutAt(e, p, i);
    assert EMPTY !in tail by {
      forall x | x in tail ensures x in p {}
    }
    var head := [EMPTY] + e;
    assert [EMPTY] + (e + p[..i]) + p[i + 1..] == head + tail;
    Prefix(head, tail);
  }

  lemma PagesIs(r: seq<int>)
    ensures r == r[..Unused(r)] + Pages(r) && forall x <- r[..Unused(r)] :: x == EMPTY
  {
    SplitAt(r, Unused(r));
  }

  lemma SplitAt(r: seq<int>, u: nat)
    requires u <= |r| && forall k :: 0 <= k < u ==> r[k] == EMPTY
    ensures r == r[..u] + r[u..] && forall x <- r[..u] :: x == EMPTY
  {
  }

  /** Taking out an entry and closing the gap leaves one more empty slot. */
  lemma Delete(r: seq<int>, i: nat)
    requires i < |Pages(r)| && EMPTY !in Pages(r)
    ensures Unused(r) + i < |r|
    ensures Pages([EMPTY] + r[..Unused(r) + i] + r[Unused(r) + i + 1..]) == Pages(r)[..i] + Pages(r)[i + 1..]
  {
    PagesIs(r);
    hide Unused, Pages;
    DeleteParts(r[..Unused(r)], Pages(r), i);
  }

  /** The index of entry `k` of the round. */
  function Slot(hand: nat, k: nat): (i: nat)
    ensures i < CLOCKSIZE
  {
    (hand + 1 + k) % CLOCKSIZE
  }

  function NextSlot(i: nat): (r: nat)
    ensures r < CLOCKSIZE
  {
    (i + 1) % CLOCKSIZE
  }

  /** Which entry of the round a slot is. */
  lemma EntryOf(hand: nat, i: nat) returns (k: nat)
    requires hand < CLOCKSIZE && i < CLOCKSIZE
    ensures k < CLOCKSIZE && Slot(hand, k) == i
  {
    k := (i + CLOCKSIZE - 1 - hand) % CLOCKSIZE;
  }

  /** Which page a slot of the round is. */
  lemma EntryPast(r: seq<int>, j: nat) returns (k: nat)
    requires j < |r| && r[j] != EMPTY
    ensures k < |Pages(r)| && j == Unused(r) + k && Pages(r)[k] == r[j]
  {
    k := j - Unused(r);
  }

  lemma SlotNext(hand: nat, k: nat)
    requires hand < CLOCKSIZE && k < CLOCKSIZE
    ensures Slot(hand, k) == hand <==> k == CLOCKSIZE - 1
    ensures NextSlot(Slot(hand, k)) == Slot(hand, k + 1)
  {
  }

  /** Slot `k` of the round, in the array. */
  lemma SlotAt(cq: seq<int>, hand: nat, k: nat, x: int)
    requires |cq| == CLOCKSIZE && hand < CLOCKSIZE && k < CLOCKSIZE
    ensures var i := Slot(hand, k);
      Round(cq, hand)[k] == cq[i] && Round(cq[i := x], hand) == Round(cq, hand)[k := x]
  {
  }

  /** Moving the hand one slot back. */
  lemma BackHand(cq: seq<int>, hand: int)
    requires |cq| == CLOCKSIZE && 0 <= hand < CLOCKSIZE
    ensures Round(cq, if hand == 0 then CLOCKSIZE - 1 else hand - 1) == [cq[hand]] + Round(cq, hand)[..CLOCKSIZE - 1]
    ensures Round(cq, hand)[CLOCKSIZE - 1] == cq[hand]
  {
  }
}
