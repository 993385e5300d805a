/** Directory entries and path names. */
module Names {
  import opened Blocks
  import opened Dinodes
  import opened Fs
  import opened Params

  const DIRSIZ := 14
  const DIRENT := 16                 // sizeof(struct dirent)
  const SLASH: Byte := 47
  const ROOTINO := 1

  // ---- C strings of at most n bytes ----

  /** The string in a buffer: up to the first NUL, at most `n` bytes. */
  function Cut(s: seq<Byte>, n: nat): seq<Byte> {
    if n == 0 || s == [] || s[0] == 0 then [] else [s[0]] + Cut(s[1..], n - 1)
  }

  /** A buffer that may be read as a string of at most `n` bytes. */
  predicate Readable(s: seq<Byte>, n: nat) {
    n <= |s| || 0 in s
  }

  lemma {:induction false} CutAfter(s: seq<Byte>, n: nat, i: nat)
    requires i <= n && i <= |s| && 0 !in s[..i]
    ensures Cut(s, n) == s[..i] + Cut(s[i..], n - i)
  {
    if i > 0 {
      assert s[..i][0] == s[0] && s[..i][1..] == s[1..][..i - 1];
      CutAfter(s[1..], n - 1, i - 1);
      assert s[1..][i - 1..] == s[i..];
    }
  }

  lemma StillReadable(s: seq<Byte>, n: nat, i: nat)
    requires Readable(s, n) && i < n && i <= |s| && 0 !in s[..i]
    ensures i < |s|
  {
    assert s[..|s|] == s;
  }

  lemma CutDiffer(p: seq<Byte>, q: seq<Byte>, n: nat, i: nat)
    requires i < n && i < |p| && i < |q| && p[..i] == q[..i] && 0 !in p[..i] && (p[i] == 0 || p[i] != q[i])
    ensures Cut(p, n) == Cut(q, n) <==> p[i] == q[i]
  {
    CutAfter(p, n, i);
    CutAfter(q, n, i);
    var cp, cq := Cut(p[i..], n - i), Cut(q[i..], n - i);
    assert cp == if p[i] == 0 then [] else [p[i]] + Cut(p[i..][1..], n - i - 1);
    assert cq == if q[i] == 0 then [] else [q[i]] + Cut(q[i..][1..], n - i - 1);
    assert Cut(p, n)[i..] == cp && Cut(q, n)[i..] == cq;
    assert p[i] != q[i] ==> cp != cq;
  }

  /** strncmp: zero exactly when the two strings are equal. */
  method Strncmp(p: seq<Byte>, q: seq<Byte>, n: nat) returns (r: int)
    requires Readable(p, n) && Readable(q, n)
    ensures r == 0 <==> Cut(p, n) == Cut(q, n)
  {
    var i := 0;
    if n > 0 {
      StillReadable(p, n, 0);
      StillReadable(q, n, 0);
    }
    while i < n && p[i] != 0 && p[i] == q[i]
      invariant i <= n && i <= |p| && i <= |q| && p[..i] == q[..i] && 0 !in p[..i]
      invariant i < n ==> i < |p| && i < |q|
      decreases n - i
    {
      assert p[..i + 1] == p[..i] + [p[i]] && q[..i + 1] == q[..i] + [q[i]];
      i := i + 1;
      if i < n {
        StillReadable(p, n, i);
        StillReadable(q, n, i);
      }
    }
    if i == n {
      CutAfter(p, n, i);
      CutAfter(q, n, i);
      return 0;
    }
    CutDiffer(p, q, n, i);
    var a: int, b: int := p[i], q[i];
    return a - b;
  }

  function Pad(s: seq<Byte>, n: nat): seq<Byte>
    requires |s| <= n
  {
    s + seq(n - |s|, _ => 0)
  }

  lemma {:induction false} CutSize(s: seq<Byte>, n: nat)
    ensures |Cut(s, n)| <= n && |Cut(s, n)| <= |s| && Cut(s, n) == s[..|Cut(s, n)|] && 0 !in Cut(s, n)
    ensures |Cut(s, n)| < n && |Cut(s, n)| < |s| ==> s[|Cut(s, n)|] == 0
  {
    if !(n == 0 || s == [] || s[0] == 0) { CutSize(s[1..], n - 1); }
  }

  /** strncpy: the string, padded with zeros. */
  method Strncpy(t: seq<Byte>, n: nat) returns (s: seq<Byte>)
    requires Readable(t, n)
    ensures |Cut(t, n)| <= n && s == Pad(Cut(t, n), n)
    ensures |s| == n && s[..|Cut(t, n)|] == Cut(t, n) && forall k :: |Cut(t, n)| <= k < n ==> s[k] == 0
  {
    CutSize(t, n);
    var c := |Cut(t, n)|;
    s := [];
    var i := 0;
    var more := true;
    while i < n && more
      invariant i <= n && |s| == i && i <= |t|
      invariant more ==> i <= c && s == t[..i]
      invariant !more ==> i == c + 1 && s == t[..c] + [0]
      decreases n - i, more
    {
      assert c == |t| ==> t[..c] == t;
      s := s + [t[i]];
      if t[i] == 0 { more := false; }
      i := i + 1;
    }
    while i < n
      invariant c <= i <= n && |s| == i && s == t[..c] + seq(i - c, _ => 0)
    {
      s := s + [0];
      i := i + 1;
    }
  }

  // ---- path elements ----

  function Split(p: seq<Byte>): (r: seq<seq<Byte>>)
    ensures |r| > 0
  {
    if p == [] then [[]]
    else if p[0] == SLASH then [[]] + Split(p[1..])
    else
      var r := Split(p[1..]);
      [[p[0]] + r[0]] + r[1..]
  }

  /** The non-empty pieces, cut to DIRSIZ bytes. */
  function Keep(r: seq<seq<Byte>>): seq<seq<Byte>> {
    if r == [] then []
    else if r[0] == [] then Keep(r[1..])
    else [r[0][..Min(|r[0]|, DIRSIZ)]] + Keep(r[1..])
  }

  /** The elements of a path. */
  function Elems(p: seq<Byte>): seq<seq<Byte>> {
    Keep(Split(p))
  }

  lemma SkipSlash(p: seq<Byte>)
    requires p != [] && p[0] == SLASH
    ensures Elems(p) == Elems(p[1..])
  {
    assert ([[]] + Split(p[1..]))[1..] == Split(p[1..]);
  }

  lemma {:induction false} SplitWord(p: seq<Byte>, n: nat)
    requires n <= |p| && SLASH !in p[..n] && (n < |p| ==> p[n] == SLASH)
    ensures Split(p) == [p[..n]] + if n == |p| then [] else Split(p[n + 1..])
  {
    if n > 0 {
      assert p[..n][1..] == p[1..][..n - 1] && p[..n][0] == p[0];
      SplitWord(p[1..], n - 1);
      var rest := if n == |p| then [] else Split(p[n + 1..]);
      assert n < |p| ==> p[1..][n..] == p[n + 1..];
      assert Split(p[1..]) == [p[1..][..n - 1]] + rest;
      assert Split(p[1..])[1..] == rest && [p[0]] + p[1..][..n - 1] == p[..n];
    }
  }

  lemma TakeWord(p: seq<Byte>, n: nat)
    requires 0 < n <= |p| && SLASH !in p[..n] && (n < |p| ==> p[n] == SLASH)
    ensures Elems(p) == [p[..Min(n, DIRSIZ)]] + Elems(p[n..])
  {
    SplitWord(p, n);
    assert p[..n][..Min(n, DIRSIZ)] == p[..Min(n, DIRSIZ)];
    if n < |p| {
      SkipSlash(p[n..]);
      assert p[n..][1..] == p[n + 1..];
      assert Split(p)[1..] == Split(p[n + 1..]);
    } else {
      assert Split(p)[1..] == [] && p[n..] == [];
      assert Split([]) == [[]] && Keep([[]]) == [];
    }
  }

  /** skipelem: the next element goes to `name`; the rest of the path starts
      at `next`, without leading slashes. */
  method Skipelem(path: seq<Byte>, at: nat) returns (found: bool, next: nat, name: seq<Byte>)
    requires at <= |path| && 0 !in path
    ensures found <==> Elems(path[at..]) != []
    ensures found ==> at < next <= |path| && Readable(name, DIRSIZ)
    ensures found ==> Elems(path[at..]) == [Cut(name, DIRSIZ)] + Elems(path[next..])
    ensures found ==> (next == |path| <==> Elems(path[next..]) == [])
  {
    name := [];
    next := at;
    while next < |path| && path[next] == SLASH
      invariant at <= next <= |path| && Elems(path[next..]) == Elems(path[at..])
    {
      SkipSlash(path[next..]);
      assert path[next..][1..] == path[next + 1..];
      next := next + 1;
    }
    if next == |path| {
      assert path[next..] == [] && Elems([]) == [];
      return false, next, name;
    }
    var s := next;
    while next < |path| && path[next] != SLASH
      invariant s <= next <= |path| && SLASH !in path[s..next]
    {
      assert path[s..next + 1] == path[s..next] + [path[next]];
      next := next + 1;
    }
    var len := next - s;
    NameOf(path, s, next);
    if len >= DIRSIZ {
      name := path[s..s + DIRSIZ];
    } else {
      name := path[s..next] + [0];
    }
    ghost var e := next;
    while next < |path| && path[next] == SLASH
      invariant e <= next <= |path| && Elems(path[next..]) == Elems(path[e..])
    {
      SkipSlash(path[next..]);
      assert path[next..][1..] == path[next + 1..];
      next := next + 1;
    }
    NoneLeft(path[next..]);
    return true, next, name;
  }

  lemma NameOf(path: seq<Byte>, s: nat, e: nat)
    requires s < e <= |path| && SLASH !in path[s..e] && (e < |path| ==> path[e] == SLASH) && 0 !in path
    ensures Elems(path[s..]) ==
      [Cut(if e - s >= DIRSIZ then path[s..s + DIRSIZ] else path[s..e] + [0], DIRSIZ)] + Elems(path[e..])
  {
    assert path[s..][..e - s] == path[s..e] && path[s..][e - s..] == path[e..];
    TakeWord(path[s..], e - s);
    var name := if e - s >= DIRSIZ then path[s..s + DIRSIZ] else path[s..e] + [0];
    var n := Min(e - s, DIRSIZ);
    assert name[..n] == path[s..][..n] == path[s..s + n];
    CutAfter(name, DIRSIZ, n);
    assert n < DIRSIZ ==> name[n..] == [0];
    assert Cut(name[n..], DIRSIZ - n) == [];
    assert Cut(name, DIRSIZ) == path[s..s + n];
    assert Min(e - s, DIRSIZ) == n;
  }

  lemma NoneLeft(p: seq<Byte>)
    requires p == [] || p[0] != SLASH
    ensures p == [] <==> Elems(p) == []
  {
    if p == [] {
      var e: seq<seq<Byte>> := [[]];
      assert Split(p) == e && e[1..] == [] && Keep(e) == Keep(e[1..]);
    } else {
      assert Split(p)[0] == [p[0]] + Split(p[1..])[0];
    }
  }
}
