/** The regular-expression matcher and the buffered line loop of grep. */
module Grep {
  import opened Params

  // ---- what a pattern means ----

  datatype Item = One(c: char) | Star(c: char) | End

  /** The pattern as a sequence of items; '.' stands for any character. */
  function Items(re: string): seq<Item> {
    if re == "" then []
    else if |re| > 1 && re[1] == '*' then [Star(re[0])] + Items(re[2..])
    else if re == "$" then [End]
    else [One(re[0])] + Items(re[1..])
  }

  predicate Fits(c: char, t: char) {
    c == '.' || c == t
  }

  /** The items match exactly `w`, with `rest` after it. */
  ghost predicate Denotes(items: seq<Item>, w: string, rest: string)
    decreases |items|
  {
    if items == [] then w == ""
    else
      match items[0]
      case One(c) => w != "" && Fits(c, w[0]) && Denotes(items[1..], w[1..], rest)
      case Star(c) => exists k :: 0 <= k <= |w| && Repeats(c, w[..k]) && Denotes(items[1..], w[k..], rest)
      case End => rest == "" && Denotes(items[1..], w, rest)
  }

  ghost predicate Repeats(c: char, w: string) {
    forall t <- w :: Fits(c, t)
  }

  ghost predicate PrefixAt(items: seq<Item>, text: string, n: nat) {
    n <= |text| && Denotes(items, text[..n], text[n..])
  }

  /** Some prefix of the text matches. */
  ghost predicate Here(items: seq<Item>, text: string) {
    exists n: nat :: PrefixAt(items, text, n)
  }

  /** The pattern matches somewhere in the text, or at its start after '^'. */
  ghost predicate Found(re: string, text: string) {
    if re != "" && re[0] == '^' then Here(Items(re[1..]), text)
    else exists i: nat :: i <= |text| && Here(Items(re), text[i..])
  }

  lemma HereEmpty(text: string)
    ensures Here([], text)
  {
    assert PrefixAt([], text, 0);
  }

  lemma HereEnd(text: string)
    ensures Here([End], text) <==> text == ""
  {
    if text == "" {
      assert PrefixAt([End], text, 0);
    }
    forall n: nat | PrefixAt([End], text, n)
      ensures text == ""
    {
      assert [End][1..] == [];
    }
  }

  lemma HereOne(c: char, items: seq<Item>, text: string)
    ensures Here([One(c)] + items, text) <==> text != "" && Fits(c, text[0]) && Here(items, text[1..])
  {
    var all := [One(c)] + items;
    assert all[1..] == items;
    if text != "" && Fits(c, text[0]) && Here(items, text[1..]) {
      var n: nat :| PrefixAt(items, text[1..], n);
      assert text[..n + 1][1..] == text[1..][..n] && text[1..][n..] == text[n + 1..];
      assert PrefixAt(all, text, n + 1);
    }
    forall n: nat | PrefixAt(all, text, n)
      ensures text != "" && Fits(c, text[0]) && Here(items, text[1..])
    {
      assert text[..n][1..] == text[1..][..n - 1] && text[1..][n - 1..] == text[n..];
      assert PrefixAt(items, text[1..], n - 1);
    }
  }

  ghost predicate StarAt(c: char, items: seq<Item>, text: string, k: nat) {
    k <= |text| && Repeats(c, text[..k]) && Here(items, text[k..])
  }

  lemma HereStar(c: char, items: seq<Item>, text: string)
    ensures Here([Star(c)] + items, text) <==> exists k: nat :: StarAt(c, items, text, k)
  {
    var all := [Star(c)] + items;
    assert all[1..] == items;
    forall k: nat | StarAt(c, items, text, k)
      ensures Here(all, text)
    {
      var n: nat :| PrefixAt(items, text[k..], n);
      assert text[..k + n][..k] == text[..k] && text[..k + n][k..] == text[k..][..n] && text[k..][n..] == text[k + n..];
      assert PrefixAt(all, text, k + n);
    }
    forall n: nat | PrefixAt(all, text, n)
      ensures exists k: nat :: StarAt(c, items, text, k)
    {
      var w := text[..n];
      var k :| 0 <= k <= |w| && Repeats(c, w[..k]) && Denotes(items, w[k..], text[n..]);
      assert w[..k] == text[..k] && w[k..] == text[k..][..n - k] && text[k..][n - k..] == text[n..];
      assert PrefixAt(items, text[k..], n - k);
      assert StarAt(c, items, text, k);
    }
  }

  // ---- the matcher ----

  method MatchHere(re: string, text: string) returns (r: bool)
    ensures r <==> Here(Items(re), text)
    decreases |re|, |text|, 0
  {
    if re == "" {
      HereEmpty(text);
      return true;
    }
    if |re| > 1 && re[1] == '*' {
      assert Items(re) == [Star(re[0])] + Items(re[2..]);
      HereStar(re[0], Items(re[2..]), text);
      r := MatchStar(re[0], re[2..], text);
      return;
    }
    if re[0] == '$' && |re| == 1 {
      assert re == "$";
      HereEnd(text);
      return text == "";
    }
    HereOne(re[0], Items(re[1..]), text);
    if text != "" && (re[0] == '.' || re[0] == text[0]) {
      r := MatchHere(re[1..], text[1..]);
      return;
    }
    return false;
  }

  /** A do-while loop: the text pointer steps while the character repeats. */
  method MatchStar(c: char, re: string, text: string) returns (r: bool)
    ensures r <==> exists k: nat :: StarAt(c, Items(re), text, k)
    decreases |re| + 1, |text|
  {
    var t := 0;
    while true
      invariant t <= |text| && Repeats(c, text[..t])
      invariant forall k: nat :: k < t ==> !StarAt(c, Items(re), text, k)
      decreases |text| - t
    {
      r := MatchHere(re, text[t..]);
      if r {
        assert StarAt(c, Items(re), text, t);
        return;
      }
      if !(t < |text| && (text[t] == c || c == '.')) { break; }
      assert text[..t + 1] == text[..t] + [text[t]];
      t := t + 1;
    }
    forall k: nat | t < k <= |text|
      ensures !Repeats(c, text[..k])
    {
      assert text[t] == text[..k][t] && text[t] in text[..k];
    }
    return false;
  }

  method Match(re: string, text: string) returns (r: bool)
    ensures r <==> Found(re, text)
  {
    if re != "" && re[0] == '^' {
      r := MatchHere(re[1..], text);
      return;
    }
    var t := 0;
    while true
      invariant t <= |text|
      invariant forall i: nat :: i < t ==> !Here(Items(re), text[i..])
      decreases |text| - t
    {
      r := MatchHere(re, text[t..]);
      if r { return; }
      if t == |text| { return false; }
      t := t + 1;
    }
  }

  // ---- the line loop ----

  const BUFSIZE := 1024

  /** The index of the first newline, or the length. */
  function Newline(s: string): (q: nat)
    ensures q <= |s| && (q < |s| ==> s[q] == '\n') && '\n' !in s[..q]
  {
    if s == "" || s[0] == '\n' then 0
    else
      var q := 1 + Newline(s[1..]);
      assert s[..q] == [s[0]] + s[1..][..q - 1];
      q
  }

  /** The newline-terminated lines of `s` that match, in order. */
  ghost function Lines(re: string, s: string): string
    decreases |s|
  {
    var q := Newline(s);
    if q == |s| then ""
    else First(re, s) + Lines(re, s[q + 1..])
  }

  /** What follows the last newline. */
  function Tail(s: string): (t: string)
    ensures '\n' !in t && |t| <= |s| && ('\n' in s ==> |t| < |s|)
    decreases |s|
  {
    var q := Newline(s);
    if q == |s| then (assert s[..q] == s; s) else Tail(s[q + 1..])
  }

  /** The loop of grep as a function: `pend` is in the buffer, `input` is still
      to be read, and the reads return `counts` bytes. */
  ghost function Run(re: string, pend: string, input: string, counts: seq<nat>): string
    decreases |counts|
  {
    if counts == [] || !Readable(pend, input, counts[0]) then ""
    else
      var s := pend + input[..counts[0]];
      Lines(re, s) + Run(re, if '\n' in s then Tail(s) else "", input[counts[0]..], counts[1..])
  }

  /** read returns between one byte and as many as are asked for and remain. */
  predicate Readable(pend: string, input: string, n: nat) {
    0 < n <= |input| && |pend| + n < BUFSIZE
  }

  ghost function First(re: string, s: string): string
    requires Newline(s) < |s|
  {
    if Found(re, s[..Newline(s)]) then s[..Newline(s) + 1] else ""
  }

  lemma FirstSame(re: string, a: string, b: string)
    requires Newline(a) < |a|
    ensures Newline(a + b) == Newline(a) && First(re, a + b) == First(re, a)
    ensures (a + b)[Newline(a) + 1..] == a[Newline(a) + 1..] + b
  {
    hide Found;
    NewlineSame(a, b);
    var q := Newline(a);
    assert (a + b)[..q] == a[..q] && (a + b)[..q + 1] == a[..q + 1];
  }

  lemma {:induction false} LinesSplit(re: string, a: string, b: string)
    ensures Lines(re, a + b) == Lines(re, a) + Lines(re, Tail(a) + b)
    decreases |a|
  {
    hide First, Newline;
    var q := Newline(a);
    if q < |a| {
      FirstSame(re, a, b);
      var rest := a[q + 1..];
      LinesSplit(re, rest, b);
      assert Lines(re, a + b) == First(re, a) + Lines(re, rest + b);
      assert Lines(re, a) == First(re, a) + Lines(re, rest);
      assert Tail(a) == Tail(rest);
    }
  }

  lemma {:induction false} NewlineSame(a: string, b: string)
    ensures Newline(a) < |a| ==> Newline(a + b) == Newline(a)
  {
    if a != "" && a[0] != '\n' {
      assert (a + b)[1..] == a[1..] + b;
      NewlineSame(a[1..], b);
    }
  }

  lemma {:induction false} NewlineAt(s: string, q: nat)
    requires q < |s| && s[q] == '\n' && '\n' !in s[..q]
    ensures Newline(s) == q
  {
    if q > 0 {
      assert s[..q] == [s[0]] + s[1..][..q - 1];
      NewlineAt(s[1..], q - 1);
    }
  }

  lemma NoNewline(re: string, s: string)
    requires '\n' !in s
    ensures Lines(re, s) == "" && Tail(s) == s
  {
    assert Newline(s) == |s|;
  }

  /** strchr(p, '\n') in a buffer with a NUL at `m`; the length for a null pointer. */
  method Strchr(buf: array<char>, p: nat, m: nat) returns (q: nat)
    requires p <= m < buf.Length && buf[m] == '\0' && '\0' !in buf[p..m]
    ensures p <= q <= m && '\n' !in buf[p..q] && (q < m ==> buf[q] == '\n')
  {
    q := p;
    while buf[q] != '\0' && buf[q] != '\n'
      invariant p <= q <= m && '\n' !in buf[p..q]
      decreases m - q
    {
      assert buf[p..q + 1] == buf[p..q] + [buf[q]];
      q := q + 1;
    }
    if q < m { assert buf[q] in buf[p..m]; }
  }

  method Read(buf: array<char>, m: nat, input: string, at: nat, n: nat)
    requires m + n < buf.Length && at + n <= |input|
    modifies buf
    ensures buf[..m + n] == old(buf[..m]) + input[at..at + n]
  {
    var k := 0;
    while k < n
      invariant k <= n && buf[..m + k] == old(buf[..m]) + input[at..at + k]
    {
      buf[m + k] := input[at + k];
      k := k + 1;
    }
  }

  lemma Assoc(a: string, b: string, c: string)
    ensures a + (b + c) == a + b + c
  {
  }

  /** One line: the newline is overwritten for the match, and put back for
      the write. */
  method Line(re: string, buf: array<char>, p: nat, q: nat) returns (x: string)
    requires p <= q < buf.Length && buf[q] == '\n'
    modifies buf
    ensures x == if Found(re, old(buf[p..q])) then old(buf[p..q + 1]) else ""
    ensures forall j :: 0 <= j < buf.Length && j != q ==> buf[j] == old(buf[j])
  {
    x := "";
    buf[q] := '\0';
    assert buf[p..q] == old(buf[p..q]);
    var r := Match(re, buf[p..q]);
    if r {
      buf[q] := '\n';
      x := buf[p..q + 1];
    }
  }

  /** The lines before `p` have been dealt with. */
  ghost predicate Scanned(re: string, b: string, p: nat, out: string) {
    p <= |b| && Lines(re, b) == out + Lines(re, b[p..]) && Tail(b) == Tail(b[p..]) && (p > 0 ==> '\n' in b)
  }

  lemma ScannedNone(re: string, b: string)
    ensures Scanned(re, b, 0, "")
  {
    assert b[0..] == b && "" + Lines(re, b) == Lines(re, b);
  }

  lemma ScannedNext(re: string, b: string, p: nat, q: nat, out: string)
    requires Scanned(re, b, p, out) && p <= q < |b| && b[q] == '\n' && '\n' !in b[p..q]
    ensures Scanned(re, b, q + 1, out + if Found(re, b[p..q]) then b[p..q + 1] else "")
  {
    hide Found;
    LineStep(re, b, p, q);
    Assoc(out, if Found(re, b[p..q]) then b[p..q + 1] else "", Lines(re, b[q + 1..]));
  }

  lemma ScannedAll(re: string, b: string, p: nat, out: string)
    requires Scanned(re, b, p, out) && '\n' !in b[p..]
    ensures out == Lines(re, b) && b[p..] == Tail(b) && (p > 0 <==> '\n' in b)
  {
    hide Found;
    NoNewline(re, b[p..]);
    assert b == b[..p] + b[p..];
    assert out + "" == out;
  }

  /** The inner loop: the complete lines in the buffer. */
  method Scan(re: string, buf: array<char>, m: nat) returns (out: string, p: nat)
    requires m < buf.Length && buf[m] == '\0' && '\0' !in buf[..m]
    modifies buf
    ensures p <= m && (p > 0 <==> '\n' in old(buf[..m]))
    ensures out == Lines(re, old(buf[..m])) && buf[p..m] == Tail(old(buf[..m]))
  {
    hide Found, Lines, Tail, Scanned;
    ghost var b := buf[..m];
    out, p := "", 0;
    ScannedNone(re, b);
    while true
      invariant p <= m && buf[m] == '\0' && Scanned(re, b, p, out)
      invariant forall j :: p <= j < m ==> buf[j] == b[j]
      decreases m - p
    {
      assert buf[p..m] == b[p..] && forall x <- b[p..] :: x in b;
      var q := Strchr(buf, p, m);
      assert buf[p..q] == b[p..q];
      if q == m { break; }
      ScannedNext(re, b, p, q, out);
      var x := Line(re, buf, p, q);
      assert x == if Found(re, b[p..q]) then b[p..q + 1] else "" by { assert b[p..q + 1] == b[p..q] + ['\n']; }
      out := out + x;
      p := q + 1;
    }
    ScannedAll(re, b, p, out);
  }

  lemma LineStep(re: string, b: string, p: nat, q: nat)
    requires p <= q < |b| && b[q] == '\n' && '\n' !in b[p..q]
    ensures Lines(re, b[p..]) == (if Found(re, b[p..q]) then b[p..q + 1] else "") + Lines(re, b[q + 1..])
    ensures Tail(b[p..]) == Tail(b[q + 1..])
  {
    var s := b[p..];
    assert s[..q - p] == b[p..q] && s[q - p] == b[q] && s[..q - p + 1] == b[p..q + 1] && s[q - p + 1..] == b[q + 1..];
    NewlineAt(s, q - p);
  }

  lemma TailIn(s: string)
    ensures forall x <- Tail(s) :: x in s
    decreases |s|
  {
    if Newline(s) < |s| { TailIn(s[Newline(s) + 1..]); }
  }

  lemma RunStep(re: string, pend: string, input: string, at: nat, counts: seq<nat>, i: nat)
    requires i < |counts| && at <= |input| && Readable(pend, input[at..], counts[i]) && '\0' !in pend && '\0' !in input
    ensures
      var n := counts[i];
      var s := pend + input[at..at + n];
      var next := if '\n' in s then Tail(s) else "";
      && '\0' !in s && '\0' !in next && |next| <= |s|
      && Run(re, pend, input[at..], counts[i..]) == Lines(re, s) + Run(re, next, input[at + n..], counts[i + 1..])
  {
    var n := counts[i];
    assert input[at..][..n] == input[at..at + n] && input[at..][n..] == input[at + n..];
    assert counts[i..][1..] == counts[i + 1..] && counts[i..][0] == n;
    TailIn(pend + input[at..at + n]);
  }

  /** grep, with reads that return `counts` bytes in turn. */
  method Grep(re: string, buf: array<char>, input: string, counts: seq<nat>) returns (out: string)
    requires buf.Length == BUFSIZE && '\0' !in input
    modifies buf
    ensures out == Run(re, "", input, counts)
  {
    hide Lines, Tail, Run;
    out := "";
    var m: nat, at: nat, i: nat := 0, 0, 0;
    assert input[0..] == input && counts[0..] == counts && buf[..0] == "";
    assert "" + Run(re, "", input, counts) == Run(re, "", input, counts);
    while i < |counts| && 0 < counts[i] <= |input| - at && m + counts[i] < BUFSIZE
      invariant m < BUFSIZE && at <= |input| && i <= |counts| && '\0' !in buf[..m]
      invariant Run(re, "", input, counts) == out + Run(re, buf[..m], input[at..], counts[i..])
      decreases |counts| - i
    {
      var n := counts[i];
      ghost var s := buf[..m] + input[at..at + n];
      RunStep(re, buf[..m], input, at, counts, i);
      Read(buf, m, input, at, n);
      m, at, i := m + n, at + n, i + 1;
      buf[m] := '\0';
      assert buf[..m] == s;
      var o, p := Scan(re, buf, m);
      ghost var next := if '\n' in s then Tail(s) else "";
      Assoc(out, o, Run(re, next, input[at..], counts[i..]));
      out := out + o;
      if p == 0 { m := 0; }
      if m > 0 {
        m := m - p;
        Memmove(buf, p, m);
      }
      assert buf[..m] == next;
    }
    RunEnd(re, buf[..m], input[at..], counts[i..]);
  }

  lemma RunEnd(re: string, pend: string, rest: string, counts: seq<nat>)
    requires counts == [] || !Readable(pend, rest, counts[0])
    ensures Run(re, pend, rest, counts) == ""
  {
  }

  method Memmove(buf: array<char>, p: nat, m: nat)
    requires p + m <= buf.Length
    modifies buf
    ensures buf[..m] == old(buf[p..p + m])
  {
    var k := 0;
    while k < m
      invariant k <= m && buf[..k] == old(buf[p..p + k])
      invariant forall j :: k <= j < buf.Length ==> buf[j] == old(buf[j])
    {
      buf[k] := buf[p + k];
      k := k + 1;
    }
  }

  // ---- when grep is right ----

  function Next(s: string): (t: string)
    ensures '\n' !in t && (s != "" ==> |t| < |s|)
  {
    if '\n' in s then Tail(s) else ""
  }

  /** Reads of `counts` bytes in turn, each at least one and no more than the
      room in the buffer, that use up the input. */
  predicate Reads(pend: string, input: string, counts: seq<nat>)
    decreases |counts|
  {
    if counts == [] then input == ""
    else
      && Readable(pend, input, counts[0])
      && Reads(Next(pend + input[..counts[0]]), input[counts[0]..], counts[1..])
  }

  /** No read leaves the buffer without a newline while one is still to come:
      the test `p == buf`, on which grep empties its buffer. */
  predicate Kept(pend: string, input: string, counts: seq<nat>)
    requires Reads(pend, input, counts)
    decreases |counts|
  {
    if counts == [] then true
    else
      var s, rest := pend + input[..counts[0]], input[counts[0]..];
      ('\n' in s || '\n' !in rest) && Kept(Next(s), rest, counts[1..])
  }

  lemma NewlineFree(a: string, b: string)
    ensures Newline(a + b) == |a + b| <==> '\n' !in a + b
    ensures '\n' !in a ==> Newline(a + b) >= |a|
  {
    var q := Newline(a + b);
    assert (a + b)[..|a + b|] == a + b;
    assert q < |a| ==> (a + b)[q] == a[q];
  }

  lemma {:induction false} KeptCorrect(re: string, pend: string, input: string, counts: seq<nat>)
    requires '\n' !in pend && Reads(pend, input, counts) && Kept(pend, input, counts)
    ensures Run(re, pend, input, counts) == Lines(re, pend + input)
    decreases |counts|
  {
    hide Newline, Lines, Found, First;
    if counts == [] {
      assert pend + input == pend;
      NoNewline(re, pend);
      return;
    }
    var n := counts[0];
    var s, rest := pend + input[..n], input[n..];
    assert pend + input == s + rest;
    KeptCorrect(re, Next(s), rest, counts[1..]);
    LinesSplit(re, s, rest);
    if '\n' !in s {
      assert "" + rest == rest;
      NoNewline(re, s);
      NoNewline(re, rest);
      NoNewline(re, s + rest);
    }
  }

  /** With the empty pattern every line is printed. */
  lemma PrintsAll(a: string, b: string)
    requires '\n' !in a && '\n' in b
    ensures |Lines("", a + b)| == |a| + |Lines("", b)| && '\n' in a + b
  {
    hide Lines, Found;
    var q := Newline(b);
    assert q < |b| by { assert b[..|b|] == b; }
    assert (a + b)[|a| + q] == '\n';
    assert (a + b)[..|a| + q] == a + b[..q];
    NewlineAt(a + b, |a| + q);
    assert (a + b)[|a| + q + 1..] == b[q + 1..];
    PrintsFirst(a + b);
    PrintsFirst(b);
  }

  lemma PrintsFirst(s: string)
    requires Newline(s) < |s|
    ensures |Lines("", s)| == Newline(s) + 1 + |Lines("", s[Newline(s) + 1..])|
  {
    FindsAll(s[..Newline(s)]);
  }

  lemma FindsAll(t: string)
    ensures Found("", t)
  {
    HereEmpty(t[0..]);
  }

  /** Emptying the buffer too early loses the start of a line. */
  lemma {:induction false} LostShorter(pend: string, input: string, counts: seq<nat>)
    requires '\n' !in pend && Reads(pend, input, counts)
    ensures |Run("", pend, input, counts)| <= |Lines("", pend + input)|
    ensures !Kept(pend, input, counts) ==> |Run("", pend, input, counts)| < |Lines("", pend + input)|
    decreases |counts|
  {
    hide Newline, Lines, Found, First;
    if counts == [] { return; }
    var n := counts[0];
    var s, rest := pend + input[..n], input[n..];
    assert pend + input == s + rest;
    LostShorter(Next(s), rest, counts[1..]);
    LinesSplit("", s, rest);
    if '\n' !in s {
      assert "" + rest == rest;
      NoNewline("", s);
      if '\n' in rest {
        PrintsAll(s, rest);
      } else {
        NoNewline("", rest);
        NoNewline("", s + rest);
      }
    }
  }

  /** Whatever the reads return, grep prints exactly the matching
      newline-terminated lines, for every pattern, if and only if it never
      empties its buffer while a newline is still to come. */
  lemma GrepCorrect(input: string, counts: seq<nat>)
    requires Reads("", input, counts)
    ensures (forall re :: Run(re, "", input, counts) == Lines(re, input)) <==> Kept("", input, counts)
  {
    assert "" + input == input;
    if Kept("", input, counts) {
      forall re
        ensures Run(re, "", input, counts) == Lines(re, input)
      {
        KeptCorrect(re, "", input, counts);
      }
    } else {
      LostShorter("", input, counts);
    }
  }

  /** With the empty pattern one line is printed whole. */
  lemma PrintsLine(s: string)
    requires s != "" && s[|s| - 1] == '\n' && '\n' !in s[..|s| - 1]
    ensures Newline(s) == |s| - 1 && Lines("", s) == s
  {
    hide Found;
    NewlineAt(s, |s| - 1);
    FindsAll(s[..|s| - 1]);
    assert s[..|s|] == s && s + "" == s;
  }

  /** A short line that arrives a byte at a time is lost but for its newline. */
  lemma ByteAtATime()
    ensures Short("ab\n") && Lines("", "ab\n") == "ab\n"
    ensures Reads("", "ab\n", [1, 1, 1]) && Run("", "", "ab\n", [1, 1, 1]) == "\n"
  {
    hide Found, Lines, Newline, Tail;
    PrintsLine("ab\n");
    assert Short("ab\n") by { assert "ab\n"[3..] == "" && Newline("") == 0; }
    PrintsLine("\n");
    NoNewline("", "a");
    NoNewline("", "b");
    ByteStep("a", "b\n", [1, 1]);
    ByteStep("b", "\n", [1]);
    ByteStep("\n", "", []);
    assert "\n" + "" == "\n" && [1] + [] == [1];
    assert "b" + "\n" == "b\n" && [1] + [1] == [1, 1];
    assert "a" + "b\n" == "ab\n" && [1] + [1, 1] == [1, 1, 1];
    assert Reads("", "ab\n", [1, 1, 1]);
    assert Run("", "", "\n", [1]) == "\n";
    assert Run("", "", "b\n", [1, 1]) == "\n";
  }

  lemma ByteStep(s: string, rest: string, counts: seq<nat>)
    requires |s| == 1
    ensures Reads("", s + rest, [1] + counts) <==> Reads(Next(s), rest, counts)
    ensures Run("", "", s + rest, [1] + counts) == Lines("", s) + Run("", Next(s), rest, counts)
  {
    hide Found, Lines, Newline, Tail;
    assert "" + (s + rest)[..1] == s && (s + rest)[1..] == rest && ([1] + counts)[1..] == counts;
  }

  // ---- reads that return all they can ----

  /** Reads that return as much as is asked for or remains, as those of a file
      do. */
  function FullReads(pend: string, input: string): (counts: seq<nat>)
    requires |pend| < BUFSIZE - 1
    ensures Reads(pend, input, counts)
    decreases |input|
  {
    var n := Min(BUFSIZE - 1 - |pend|, |input|);
    if n == 0 then [] else [n] + FullReads(Next(pend + input[..n]), input[n..])
  }

  /** Every newline-terminated line fits in the buffer with its newline. */
  predicate Short(s: string)
    decreases |s|
  {
    var q := Newline(s);
    q == |s| || (q + 1 < BUFSIZE && Short(s[q + 1..]))
  }

  lemma {:induction false} ShortSplit(a: string, b: string)
    requires |a| < BUFSIZE
    ensures Short(a + b) <==> Short(Tail(a) + b)
    decreases |a|
  {
    hide Newline, Found, First;
    var q := Newline(a);
    if q < |a| {
      FirstSame("", a, b);
      ShortSplit(a[q + 1..], b);
    }
  }

  lemma NoneLost(pend: string, input: string, counts: seq<nat>)
    requires '\n' !in input && Reads(pend, input, counts)
    ensures Kept(pend, input, counts)
    decreases |counts|
  {
    if counts != [] {
      NoneLost(Next(pend + input[..counts[0]]), input[counts[0]..], counts[1..]);
    }
  }

  lemma {:induction false} FullKept(pend: string, input: string)
    requires |pend| < BUFSIZE - 1 && '\n' !in pend
    ensures Kept(pend, input, FullReads(pend, input)) <==> Short(pend + input)
    decreases |input|
  {
    hide Newline;
    var n := Min(BUFSIZE - 1 - |pend|, |input|);
    if n == 0 {
      assert pend + input == pend;
      NewlineFree(pend, input);
      return;
    }
    var s, rest := pend + input[..n], input[n..];
    var counts := FullReads(pend, input);
    assert pend + input == s + rest;
    assert counts[0] == n && counts[1..] == FullReads(Next(s), rest);
    if '\n' in s {
      ShortSplit(s, rest);
      FullKept(Next(s), rest);
    } else {
      NewlineFree(s, rest);
      assert '\n' in s + rest <==> '\n' in rest;
      if '\n' !in rest { NoneLost(Next(s), rest, counts[1..]); }
    }
  }

  /** With such reads grep is right for every pattern if and only if every
      newline-terminated line fits in 1023 bytes. */
  lemma FullCorrect(input: string)
    ensures (forall re :: Run(re, "", input, FullReads("", input)) == Lines(re, input)) <==> Short(input)
  {
    assert "" + input == input;
    GrepCorrect(input, FullReads("", input));
    FullKept("", input);
  }
}
