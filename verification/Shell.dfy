/** The shell's parser as it runs: a cursor over a character buffer, tokens as
    spans of the buffer, and the zeros written at their ends. */
module Shell {
  import opened ShellGrammar

  /** From `q` up to `e`, as gettoken leaves them. */
  datatype Span = Span(q: nat, e: nat)

  datatype Result = Panic | Tree(cmd: Cmd<Span>)

  /** A word of the buffer, and where it ends. */
  predicate IsToken(s: string, w: Span) {
    && w.q < w.e < |s| && !IsWordChar(s[w.e])
    && forall k :: w.q <= k < w.e ==> IsWordChar(s[k])
  }

  predicate Spaced(c: Cmd<Span>, s: string) {
    match c
    case Exec(ws) => forall w <- ws :: IsToken(s, w)
    case Redir(c, f, _, _) => Spaced(c, s) && IsToken(s, f)
    case Pipe(l, r) => Spaced(l, s) && Spaced(r, s)
    case List(l, r) => Spaced(l, s) && Spaced(r, s)
    case Back(c) => Spaced(c, s)
  }

  function Text(w: Span, s: string): string
    requires IsToken(s, w)
  {
    s[w.q..w.e]
  }

  function AllTexts(ws: seq<Span>, s: string): (r: seq<string>)
    requires forall w <- ws :: IsToken(s, w)
    ensures |r| == |ws|
  {
    if ws == [] then [] else AllTexts(ws[..|ws| - 1], s) + [Text(ws[|ws| - 1], s)]
  }

  /** The command that the spans delimit. */
  function Texts(c: Cmd<Span>, s: string): Cmd<string>
    requires Spaced(c, s)
  {
    match c
    case Exec(ws) => Exec(AllTexts(ws, s))
    case Redir(c, f, m, d) => Redir(Texts(c, s), Text(f, s), m, d)
    case Pipe(l, r) => Pipe(Texts(l, s), Texts(r, s))
    case List(l, r) => List(Texts(l, s), Texts(r, s))
    case Back(c) => Back(Texts(c, s))
  }

  /** cmd->argv[argc] = q, where `cmd` is the simple command inside `c`. */
  function AddArg<W>(c: Cmd<W>, w: W): Cmd<W> {
    match c
    case Exec(ws) => Exec(ws + [w])
    case Redir(c, f, m, d) => Redir(AddArg(c, w), f, m, d)
    case _ => c
  }

  lemma {:induction false} AddArgWrap(c: Cmd<string>, rs: seq<Redirection>, w: string)
    ensures AddArg(Wrap(c, rs), w) == Wrap(AddArg(c, w), rs)
    decreases |rs|
  {
    if rs != [] { AddArgWrap(Redir(c, rs[0].file, rs[0].mode, rs[0].fd), rs[1..], w); }
  }

  lemma {:induction false} AddArgTexts(c: Cmd<Span>, w: Span, s: string)
    requires Spaced(c, s) && IsToken(s, w)
    ensures Spaced(AddArg(c, w), s) && Texts(AddArg(c, w), s) == AddArg(Texts(c, s), Text(w, s))
  {
    match c
    case Exec(ws) => assert (ws + [w])[..|ws|] == ws;
    case Redir(c, f, m, d) => AddArgTexts(c, w, s);
    case _ =>
  }

  lemma {:induction false} WrapMore(c: Cmd<string>, rs: seq<Redirection>, more: seq<Redirection>)
    ensures Wrap(c, rs + more) == Wrap(Wrap(c, rs), more)
    decreases |rs|
  {
    if rs == [] {
      assert rs + more == more;
    } else {
      assert (rs + more)[1..] == rs[1..] + more;
      WrapMore(Redir(c, rs[0].file, rs[0].mode, rs[0].fd), rs[1..], more);
    }
  }

  /** What gettoken answers for a token. */
  function Answer(t: Token): char {
    match t
    case Sym(c) => c
    case Append => '+'
    case Word(_) => 'a'
  }

  predicate StartsIn(ts: seq<Token>, toks: string) {
    At(ts, toks) || (ts != [] && ts[0].Append? && '>' in toks)
  }

  lemma {:induction false} SkipSuffix(s: string, k: nat)
    requires k <= |s| && (forall j :: 0 <= j < k ==> IsSpace(s[j])) && (k < |s| ==> !IsSpace(s[k]))
    ensures Skip(s) == s[k..]
  {
    if k > 0 { SkipSuffix(s[1..], k - 1); }
  }

  lemma {:induction false} WordLenAt(s: string, n: nat)
    requires n <= |s| && (forall k :: 0 <= k < n ==> IsWordChar(s[k])) && (n < |s| ==> !IsWordChar(s[n]))
    ensures WordLen(s) == n
  {
    if n > 0 { WordLenAt(s[1..], n - 1); }
  }

  lemma {:induction false} LexSkip(s: string)
    ensures Lex(Skip(s)) == Lex(s) && Skip(Skip(s)) == Skip(s)
  {
    if s != "" && IsSpace(s[0]) { LexSkip(s[1..]); }
  }

  ghost function WrapAll(c: Cmd<string>, p: Redirs): Parsed {
    match p
    case NoFile => Fail
    case Some(rs, rest) => Ok(Wrap(c, rs), rest)
  }

  lemma WrapRound(ts: seq<Token>, c: Cmd<string>)
    ensures !AtRedir(ts) ==> WrapAll(c, ParseRedirs(ts)) == Ok(c, ts)
    ensures AtRedir(ts) && (|ts| < 2 || !ts[1].Word?) ==> WrapAll(c, ParseRedirs(ts)) == Fail
    ensures AtRedir(ts) && |ts| >= 2 && ts[1].Word? ==>
      var r := RedirOf(ts[0], ts[1].w);
      WrapAll(c, ParseRedirs(ts)) == WrapAll(Redir(c, r.file, r.mode, r.fd), ParseRedirs(ts[2..]))
  {
  }

  class Parser {
    const buf: array<char>
    const es: nat
    var ps: nat

    ghost predicate Valid()
      reads this, buf
    {
      es < buf.Length && buf[es] == '\0' && '\0' !in buf[..es] && ps <= es
    }

    ghost function Tokens(): seq<Token>
      requires Valid()
      reads this, buf
    {
      Lex(buf[ps..es])
    }

    constructor (buf: array<char>, es: nat)
      requires es < buf.Length && buf[es] == '\0' && '\0' !in buf[..es]
      ensures Valid() && this.buf == buf && this.es == es && ps == 0
    {
      this.buf, this.es, this.ps := buf, es, 0;
    }

    /** while(s < es && strchr(whitespace, *s)) s++; */
    method SkipSpace()
      requires Valid()
      modifies `ps
      ensures Valid() && ps >= old(ps) && buf[ps..es] == Skip(old(buf[ps..es])) && Tokens() == old(Tokens())
      ensures ps < es ==> !IsSpace(buf[ps])
    {
      ghost var s := buf[ps..es];
      ghost var k := 0;
      while ps < es && IsSpace(buf[ps])
        invariant Valid() && ps == old(ps) + k && forall j :: 0 <= j < k ==> IsSpace(s[j])
      {
        ps, k := ps + 1, k + 1;
      }
      assert ps < es ==> s[k] == buf[ps];
      SkipSuffix(s, k);
      assert s[k..] == buf[ps..es];
      LexSkip(s);
    }

    /** peek: does the next token start with one of these symbols? */
    method Peek(toks: string) returns (b: bool)
      requires Valid() && forall c <- toks :: IsSymbol(c)
      modifies `ps
      ensures Valid() && ps >= old(ps) && Tokens() == old(Tokens()) && (b <==> StartsIn(Tokens(), toks))
      ensures Tokens() == [] ==> ps == es
    {
      SkipSpace();
      LexHead(buf[ps..es]);
      return ps < es && buf[ps] in toks;
    }

    /** The default case of gettoken's switch. */
    method ScanWord()
      requires Valid() && ps < es && IsWordChar(buf[ps])
      modifies `ps
      ensures Valid() && ps == old(ps) + WordLen(buf[old(ps)..es]) && IsToken(buf[..], Span(old(ps), ps))
    {
      var q := ps;
      ghost var s := buf[q..es];
      while ps < es && !IsSpace(buf[ps]) && !IsSymbol(buf[ps])
        invariant q <= ps <= es && Valid() && forall k :: q <= k < ps ==> IsWordChar(buf[k])
      {
        assert buf[..es][ps] == buf[ps];
        ps := ps + 1;
      }
      WordLenAt(s, ps - q);
    }

    /** gettoken's switch: past the token, with its answer. */
    method Switch() returns (ret: char)
      requires Valid() && ps < es && !IsSpace(buf[ps])
      modifies `ps
      ensures var s := buf[old(ps)..es];
        && Valid() && s != "" && !IsSpace(s[0]) && s[0] != '\0'
        && ret == Answer(First(s).0) && ps == old(ps) + First(s).1 && ret != '\0' && (ret == 'a' <==> First(s).0.Word?)
        && (First(s).0.Word? ==>
              IsToken(buf[..], Span(old(ps), ps)) && First(s).0.w == Text(Span(old(ps), ps), buf[..]))
    {
      hide WordLen;
      ghost var s := buf[ps..es];
      assert buf[..es][ps] == buf[ps] == s[0];
      ret := buf[ps];
      if buf[ps] == '>' {
        ps := ps + 1;
        if buf[ps] == '>' {
          ret := '+';
          ps := ps + 1;
        }
      } else if IsSymbol(buf[ps]) {
        ps := ps + 1;
      } else {
        ret := 'a';
        ghost var q := ps;
        ScanWord();
        assert s[..ps - q] == buf[..][q..ps];
      }
    }

    /** gettoken: the next token, as its answer and its span. */
    method Gettoken() returns (ret: char, w: Span)
      requires Valid()
      modifies `ps
      ensures Valid() && ps >= old(ps)
      ensures old(Tokens()) == [] ==> ret == '\0' && Tokens() == []
      ensures old(Tokens()) != [] ==> ps > old(ps) && ret == Answer(old(Tokens())[0]) && Tokens() == old(Tokens())[1..]
      ensures old(Tokens()) != [] ==> ret != '\0' && (ret == 'a' <==> old(Tokens())[0].Word?)
      ensures old(Tokens()) != [] && old(Tokens())[0].Word? ==>
        IsToken(buf[..], w) && old(Tokens())[0].w == Text(w, buf[..])
    {
      hide First, Skip, Lex;
      SkipSpace();
      LexHead(buf[ps..es]);
      var q := ps;
      ghost var s := buf[q..es];
      ret := '\0';
      if ps < es {
        ret := Switch();
        assert s[ps - q..] == buf[ps..es];
      }
      w := Span(q, ps);
      SkipSpace();
    }

    /** The outcome of a parse function: the tree that the grammar gives, and
        the cursor before the tokens that it leaves. */
    ghost predicate Agrees(r: Result, p: Parsed)
      requires Valid()
      reads this, buf
    {
      match p
      case Fail => r.Panic?
      case Ok(c, rest) => r.Tree? && Spaced(r.cmd, buf[..]) && Texts(r.cmd, buf[..]) == c && Tokens() == rest
    }

    method ParseRedirs(c: Cmd<Span>) returns (r: Result)
      requires Valid() && Spaced(c, buf[..])
      modifies `ps
      ensures Valid() && ps >= old(ps)
      ensures Agrees(r, WrapAll(old(Texts(c, buf[..])), ShellGrammar.ParseRedirs(old(Tokens()))))
    {
      hide Lex, IsToken;
      ghost var s, ts, c0 := buf[..], Tokens(), Texts(c, buf[..]);
      var cmd := c;
      while true
        invariant Valid() && ps >= old(ps) && Spaced(cmd, s)
        invariant WrapAll(c0, ShellGrammar.ParseRedirs(ts)) ==
          WrapAll(Texts(cmd, s), ShellGrammar.ParseRedirs(Tokens()))
        decreases |Tokens()|
      {
        var more := Peek("<>");
        ghost var t := Tokens();
        WrapRound(t, Texts(cmd, s));
        if !more { return Tree(cmd); }
        var tok, _ := Gettoken();
        var ret, w := Gettoken();
        if ret != 'a' { return Panic; }
        assert t[1..][1..] == t[2..];
        match tok
        case '<' => cmd := Redir(cmd, w, O_RDONLY, 0);
        case _ => cmd := Redir(cmd, w, O_WRONLY + O_CREATE, 1);
      }
    }

    method ParseBlock() returns (r: Result)
      requires Valid() && At(Tokens(), "(")
      modifies `ps
      ensures Valid() && ps >= old(ps) && Agrees(r, ShellGrammar.ParseExec(old(Tokens())))
      decreases es - ps, 0
    {
      hide Lex, IsToken;
      ghost var ts := Tokens();
      var more := Peek("(");
      if !more { return Panic; }
      var tok, w := Gettoken();
      r := ParseLine();
      if r.Panic? { return; }
      more := Peek(")");
      if !more { return Panic; }
      tok, w := Gettoken();
      r := ParseRedirs(r.cmd);
    }

    method ParseExec() returns (r: Result)
      requires Valid()
      modifies `ps
      ensures Valid() && ps >= old(ps) && Agrees(r, ShellGrammar.ParseExec(old(Tokens())))
      decreases es - ps, 1
    {
      hide Lex, IsToken;
      var block := Peek("(");
      if block {
        r := ParseBlock();
        return;
      }
      r := ParseSimple();
    }

    /** The rest of parseexec: words and redirections in any order. */
    method ParseSimple() returns (r: Result)
      requires Valid() && !At(Tokens(), "(")
      modifies `ps
      ensures Valid() && ps >= old(ps) && Agrees(r, ShellGrammar.ParseExec(old(Tokens())))
    {
      hide Lex, IsToken, ExecLoop, Wrap, ShellGrammar.ParseRedirs;
      ghost var s, p := buf[..], ShellGrammar.ParseExec(Tokens());
      var argc := 0;
      ghost var argv: seq<string>, rs: seq<Redirection> := [], [];
      r := ParseRedirs(Exec([]));
      if r.Panic? { return; }
      rs := ShellGrammar.ParseRedirs(old(Tokens())).redirs;
      while true
        invariant Valid() && ps >= old(ps) && argc == |argv| < MAXARGS
        invariant r.Tree? && Spaced(r.cmd, s) && Texts(r.cmd, s) == Wrap(Exec(argv), rs)
        invariant p == ExecLoop(Tokens(), argv, rs)
        decreases |Tokens()|
      {
        var ended := Peek("|)&;");
        ghost var ts := Tokens();
        ExecRound(ts, argv, rs);
        if ended { return; }
        var tok, w := Gettoken();
        if tok == '\0' { return; }
        if tok != 'a' { return Panic; }
        AddArgTexts(r.cmd, w, s);
        AddArgWrap(Exec(argv), rs, ts[0].w);
        r := Tree(AddArg(r.cmd, w));
        argc := argc + 1;
        if argc >= MAXARGS { return Panic; }
        argv := argv + [ts[0].w];
        r := ParseRedirs(r.cmd);
        if r.Panic? { return; }
        WrapMore(Exec(argv), rs, ShellGrammar.ParseRedirs(ts[1..]).redirs);
        rs := rs + ShellGrammar.ParseRedirs(ts[1..]).redirs;
      }
    }

    method ParsePipe() returns (r: Result)
      requires Valid()
      modifies `ps
      ensures Valid() && ps >= old(ps) && Agrees(r, ShellGrammar.ParsePipe(old(Tokens())))
      decreases es - ps, 2
    {
      hide Lex, IsToken, ShellGrammar.ParseExec;
      r := ParseExec();
      if r.Panic? { return; }
      var more := Peek("|");
      if more {
        var _, _ := Gettoken();
        var right := ParsePipe();
        if right.Panic? { return Panic; }
        r := Tree(Pipe(r.cmd, right.cmd));
      }
    }

    method ParseLine() returns (r: Result)
      requires Valid()
      modifies `ps
      ensures Valid() && ps >= old(ps) && Agrees(r, ShellGrammar.ParseLine(old(Tokens())))
      decreases es - ps, 3
    {
      hide Lex, IsToken, ShellGrammar.ParsePipe;
      ghost var s, p := buf[..], ShellGrammar.ParsePipe(Tokens());
      r := ParsePipe();
      if r.Panic? { return; }
      var more := Peek("&");
      while more
        invariant Valid() && ps >= old(ps) && r.Tree? && Spaced(r.cmd, s) && (more <==> At(Tokens(), "&"))
        invariant Amps(p.cmd, p.rest) == Amps(Texts(r.cmd, s), Tokens())
        decreases |Tokens()|
      {
        var _, _ := Gettoken();
        r := Tree(Back(r.cmd));
        more := Peek("&");
      }
      more := Peek(";");
      if more {
        var _, _ := Gettoken();
        var right := ParseLine();
        if right.Panic? { return Panic; }
        r := Tree(List(r.cmd, right.cmd));
      }
    }
  }

  function AfterWord(p: Redirs, argv: seq<string>, rs: seq<Redirection>): Parsed {
    if p.NoFile? then Fail else ExecLoop(p.rest, argv, rs + p.redirs)
  }

  lemma ExecRound(ts: seq<Token>, argv: seq<string>, rs: seq<Redirection>)
    requires |argv| < MAXARGS
    ensures ts == [] || At(ts, "|)&;") ==> ExecLoop(ts, argv, rs) == Ok(Wrap(Exec(argv), rs), ts)
    ensures ts != [] && !At(ts, "|)&;") && (!ts[0].Word? || |argv| + 1 >= MAXARGS) ==> ExecLoop(ts, argv, rs) == Fail
    ensures ts != [] && ts[0].Word? && |argv| + 1 < MAXARGS ==>
      ExecLoop(ts, argv, rs) == AfterWord(ParseRedirs(ts[1..]), argv + [ts[0].w], rs)
  {
  }

  lemma LexHead(s: string)
    requires '\0' !in s && (s == "" || !IsSpace(s[0]))
    ensures s == "" <==> Lex(s) == []
    ensures s != "" ==> Lex(s) == [First(s).0] + Lex(s[First(s).1..])
    ensures forall toks: string :: (forall c <- toks :: IsSymbol(c)) ==>
      (StartsIn(Lex(s), toks) <==> s != "" && s[0] in toks)
  {
  }

  // ---- terminating the words ----

  /** Where nulterminate writes its zeros. */
  function Ends(c: Cmd<Span>): set<nat> {
    match c
    case Exec(ws) => set w | w in ws :: w.e
    case Redir(c, f, _, _) => Ends(c) + {f.e}
    case Pipe(l, r) => Ends(l) + Ends(r)
    case List(l, r) => Ends(l) + Ends(r)
    case Back(c) => Ends(c)
  }

  ghost predicate Zeroed(s: string, s': string, ends: set<nat>) {
    |s'| == |s| && forall i: nat {:trigger s'[i]} :: i < |s| ==> s'[i] == if i in ends then '\0' else s[i]
  }

  lemma {:induction false} EndsAreNotInWords(c: Cmd<Span>, s: string)
    requires Spaced(c, s)
    ensures forall e <- Ends(c) :: e < |s| && !IsWordChar(s[e])
  {
    match c
    case Exec(ws) =>
    case Redir(c, f, _, _) => EndsAreNotInWords(c, s);
    case Pipe(l, r) =>
      EndsAreNotInWords(l, s);
      EndsAreNotInWords(r, s);
    case List(l, r) =>
      EndsAreNotInWords(l, s);
      EndsAreNotInWords(r, s);
    case Back(c) => EndsAreNotInWords(c, s);
  }

  /** nulterminate, over the tree. */
  method Nulterminate(c: Cmd<Span>, buf: array<char>, ghost s: string)
    requires Spaced(c, s) && |s| == buf.Length
    modifies buf
    ensures Zeroed(old(buf[..]), buf[..], Ends(c))
  {
    match c {
      case Exec(ws) =>
        var i := 0;
        while i < |ws|
          invariant i <= |ws| && Zeroed(old(buf[..]), buf[..], set w | w in ws[..i] :: w.e)
        {
          assert IsToken(s, ws[i]);
          buf[ws[i].e] := '\0';
          assert (set w | w in ws[..i + 1] :: w.e) == (set w | w in ws[..i] :: w.e) + {ws[i].e} by {
            assert ws[..i + 1] == ws[..i] + [ws[i]];
          }
          i := i + 1;
        }
        assert ws[..i] == ws;
      case Redir(d, f, _, _) =>
        Nulterminate(d, buf, s);
        buf[f.e] := '\0';
      case Pipe(l, r) =>
        Nulterminate(l, buf, s);
        Nulterminate(r, buf, s);
      case List(l, r) =>
        Nulterminate(l, buf, s);
        Nulterminate(r, buf, s);
      case Back(d) => Nulterminate(d, buf, s);
    }
  }

  /** The string at `q`, as C reads it. */
  function CString(s: string, q: nat): string
    decreases |s| - q
  {
    if q >= |s| || s[q] == '\0' then "" else [s[q]] + CString(s, q + 1)
  }

  function CStrings(ws: seq<Span>, s: string): seq<string> {
    if ws == [] then [] else CStrings(ws[..|ws| - 1], s) + [CString(s, ws[|ws| - 1].q)]
  }

  /** The command as runcmd sees it in the changed buffer. */
  function CTexts(c: Cmd<Span>, s: string): Cmd<string> {
    match c
    case Exec(ws) => Exec(CStrings(ws, s))
    case Redir(c, f, m, d) => Redir(CTexts(c, s), CString(s, f.q), m, d)
    case Pipe(l, r) => Pipe(CTexts(l, s), CTexts(r, s))
    case List(l, r) => List(CTexts(l, s), CTexts(r, s))
    case Back(c) => Back(CTexts(c, s))
  }

  lemma {:induction false} CStringIs(s: string, q: nat, e: nat)
    requires q <= e < |s| && s[e] == '\0' && forall k :: q <= k < e ==> s[k] != '\0'
    ensures CString(s, q) == s[q..e]
    decreases e - q
  {
    if q < e { CStringIs(s, q + 1, e); }
  }

  ghost predicate OutsideWords(s: string, ends: set<nat>) {
    forall e <- ends :: e < |s| && !IsWordChar(s[e])
  }

  /** No zero falls inside a word, and every word ends at one. */
  lemma WordKept(w: Span, s: string, s': string, ends: set<nat>)
    requires IsToken(s, w) && w.e in ends && OutsideWords(s, ends) && Zeroed(s, s', ends)
    ensures CString(s', w.q) == Text(w, s)
  {
    forall k: nat | w.q <= k < w.e
      ensures s'[k] == s[k] && s'[k] != '\0'
    {
    }
    CStringIs(s', w.q, w.e);
    assert s'[w.q..w.e] == s[w.q..w.e];
  }

  lemma {:induction false} WordsKept(ws: seq<Span>, s: string, s': string, ends: set<nat>)
    requires (forall w <- ws :: IsToken(s, w) && w.e in ends) && OutsideWords(s, ends) && Zeroed(s, s', ends)
    ensures CStrings(ws, s') == AllTexts(ws, s)
  {
    if ws != [] {
      WordsKept(ws[..|ws| - 1], s, s', ends);
      WordKept(ws[|ws| - 1], s, s', ends);
    }
  }

  /** Writing the zeros does not disturb the command: every word and file name,
      read as a C string from the changed buffer, is the text of its token. */
  lemma {:induction false} NulNonInterference(c: Cmd<Span>, s: string, s': string, ends: set<nat>)
    requires Spaced(c, s) && Ends(c) <= ends && OutsideWords(s, ends) && Zeroed(s, s', ends)
    ensures CTexts(c, s') == Texts(c, s)
  {
    match c
    case Exec(ws) => WordsKept(ws, s, s', ends);
    case Redir(d, f, _, _) =>
      NulNonInterference(d, s, s', ends);
      WordKept(f, s, s', ends);
    case Pipe(l, r) =>
      NulNonInterference(l, s, s', ends);
      NulNonInterference(r, s, s', ends);
    case List(l, r) =>
      NulNonInterference(l, s, s', ends);
      NulNonInterference(r, s, s', ends);
    case Back(d) => NulNonInterference(d, s, s', ends);
  }

  /** parsecmd: a syntax error exactly when the grammar has one; otherwise the
      tree whose words, as C strings of the buffer it has changed, are the
      grammar's. */
  method Parsecmd(buf: array<char>, es: nat) returns (r: Result)
    requires es < buf.Length && buf[es] == '\0' && '\0' !in buf[..es]
    modifies buf
    ensures
      match Parse(old(buf[..es]))
      case Fail => r.Panic?
      case Ok(c, _) => r.Tree? && CTexts(r.cmd, buf[..]) == c
  {
    hide Lex, IsToken, ParseLine, Texts, CTexts, Spaced, Ends;
    var p := new Parser(buf, es);
    ghost var s := buf[..];
    assert buf[0..es] == buf[..es];
    r := p.ParseLine();
    if r.Panic? { return; }
    var _ := p.Peek("");
    if p.ps != es { return Panic; }
    LexHead("");
    assert buf[p.ps..es] == "";
    EndsAreNotInWords(r.cmd, s);
    Nulterminate(r.cmd, buf, s);
    NulNonInterference(r.cmd, s, buf[..], Ends(r.cmd));
  }
}
