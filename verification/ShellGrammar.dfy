/** The shell's command language: tokens, the recursive-descent parser as a
    function, and a printer that it undoes. */
module ShellGrammar {
  const MAXARGS := 10
  const O_RDONLY := 0x000
  const O_WRONLY := 0x001
  const O_CREATE := 0x200

  datatype Cmd<W> =
    | Exec(argv: seq<W>)
    | Redir(cmd: Cmd<W>, file: W, mode: int, fd: int)
    | Pipe(left: Cmd<W>, right: Cmd<W>)
    | List(left: Cmd<W>, right: Cmd<W>)
    | Back(cmd: Cmd<W>)

  /** '>>' is the token '+'. */
  datatype Token = Sym(c: char) | Append | Word(w: string)

  predicate IsSpace(c: char) {
    c in " \t\r\n\U{0b}"
  }

  predicate IsSymbol(c: char) {
    c in "<|>&;()"
  }

  predicate IsWordChar(c: char) {
    !IsSpace(c) && !IsSymbol(c) && c != '\0'
  }

  // ---- tokens ----

  function Skip(s: string): (t: string)
    ensures |t| <= |s| && (t != "" ==> !IsSpace(t[0]))
  {
    if s != "" && IsSpace(s[0]) then Skip(s[1..]) else s
  }

  function WordLen(s: string): (n: nat)
    ensures n <= |s| && (n < |s| ==> !IsWordChar(s[n])) && forall k :: 0 <= k < n ==> IsWordChar(s[k])
  {
    if s != "" && IsWordChar(s[0]) then 1 + WordLen(s[1..]) else 0
  }

  /** The first token and the number of characters it takes. */
  function First(s: string): (r: (Token, nat))
    requires s != "" && !IsSpace(s[0]) && s[0] != '\0'
    ensures 0 < r.1 <= |s|
  {
    if s[0] == '>' && |s| > 1 && s[1] == '>' then (Append, 2)
    else if IsSymbol(s[0]) then (Sym(s[0]), 1)
    else (Word(s[..WordLen(s)]), WordLen(s))
  }

  function Lex(s: string): seq<Token>
    decreases |s|
  {
    var t := Skip(s);
    if t == "" || t[0] == '\0' then []
    else [First(t).0] + Lex(t[First(t).1..])
  }

  // ---- the parser, over tokens ----

  datatype Parsed = Fail | Ok(cmd: Cmd<string>, rest: seq<Token>)

  datatype Redirection = Redirection(file: string, mode: int, fd: int)

  datatype Redirs = NoFile | Some(redirs: seq<Redirection>, rest: seq<Token>)

  predicate At(ts: seq<Token>, syms: string) {
    ts != [] && ts[0].Sym? && ts[0].c in syms
  }

  predicate AtRedir(ts: seq<Token>) {
    At(ts, "<>") || (ts != [] && ts[0].Append?)
  }

  function RedirOf(t: Token, file: string): Redirection {
    if t == Sym('<') then Redirection(file, O_RDONLY, 0) else Redirection(file, O_WRONLY + O_CREATE, 1)
  }

  function ParseRedirs(ts: seq<Token>): (r: Redirs)
    ensures r.Some? ==> |r.rest| <= |ts| && !AtRedir(r.rest)
  {
    if !AtRedir(ts) then Some([], ts)
    else if |ts| < 2 || !ts[1].Word? then NoFile
    else
      match ParseRedirs(ts[2..])
      case NoFile => NoFile
      case Some(rs, rest) => Some([RedirOf(ts[0], ts[1].w)] + rs, rest)
  }

  /** Later redirections go outside earlier ones. */
  function Wrap(c: Cmd<string>, rs: seq<Redirection>): Cmd<string>
    decreases |rs|
  {
    if rs == [] then c else Wrap(Redir(c, rs[0].file, rs[0].mode, rs[0].fd), rs[1..])
  }

  /** The loop of parseexec: `argv` and the redirections so far. */
  function ExecLoop(ts: seq<Token>, argv: seq<string>, rs: seq<Redirection>): (r: Parsed)
    ensures r.Ok? ==> |r.rest| <= |ts|
    decreases |ts|
  {
    if ts == [] || At(ts, "|)&;") then Ok(Wrap(Exec(argv), rs), ts)
    else if !ts[0].Word? || |argv| + 1 >= MAXARGS then Fail
    else
      match ParseRedirs(ts[1..])
      case NoFile => Fail
      case Some(more, rest) => ExecLoop(rest, argv + [ts[0].w], rs + more)
  }

  function ParseExec(ts: seq<Token>): (r: Parsed)
    ensures r.Ok? ==> |r.rest| <= |ts|
    decreases |ts|, 0
  {
    if At(ts, "(") then
      match ParseLine(ts[1..])
      case Fail => Fail
      case Ok(c, rest) =>
        if !At(rest, ")") then Fail
        else
          match ParseRedirs(rest[1..])
          case NoFile => Fail
          case Some(rs, rest') => Ok(Wrap(c, rs), rest')
    else
      match ParseRedirs(ts)
      case NoFile => Fail
      case Some(rs, rest) => ExecLoop(rest, [], rs)
  }

  function ParsePipe(ts: seq<Token>): (r: Parsed)
    ensures r.Ok? ==> |r.rest| <= |ts|
    decreases |ts|, 1
  {
    match ParseExec(ts)
    case Fail => Fail
    case Ok(c, rest) =>
      if !At(rest, "|") then Ok(c, rest)
      else
        match ParsePipe(rest[1..])
        case Fail => Fail
        case Ok(d, rest') => Ok(Pipe(c, d), rest')
  }

  /** The '&'s after a pipeline. */
  function Amps(c: Cmd<string>, ts: seq<Token>): (r: Parsed)
    ensures r.Ok? && |r.rest| <= |ts| && !At(r.rest, "&")
    decreases |ts|
  {
    if At(ts, "&") then Amps(Back(c), ts[1..]) else Ok(c, ts)
  }

  function ParseLine(ts: seq<Token>): (r: Parsed)
    ensures r.Ok? ==> |r.rest| <= |ts|
    decreases |ts|, 2
  {
    match ParsePipe(ts)
    case Fail => Fail
    case Ok(c, rest) =>
      var a := Amps(c, rest);
      if !At(a.rest, ";") then a
      else
        match ParseLine(a.rest[1..])
        case Fail => Fail
        case Ok(d, rest') => Ok(List(a.cmd, d), rest')
  }

  /** parsecmd: the whole of the line must be used up. */
  function Parse(s: string): (r: Parsed)
    ensures r.Ok? ==> r.rest == []
  {
    var r := ParseLine(Lex(s));
    if r.Ok? && r.rest == [] then r else Fail
  }

  // ---- the printer ----

  /** What binds loosest: 0 a list, 1 a background command, 2 a pipeline, 3 a
      simple or redirected command. */
  function Level(t: Cmd<string>): nat {
    match t
    case List(_, _) => 0
    case Back(_) => 1
    case Pipe(_, _) => 2
    case _ => 3
  }

  /** The tokens of `t` where a command of level `level` is expected. */
  function Print(t: Cmd<string>, level: nat): seq<Token>
    decreases t, 1
  {
    if Level(t) < level then [Sym('(')] + Body(t) + [Sym(')')] else Body(t)
  }

  function Words(ws: seq<string>): (r: seq<Token>)
    ensures |r| == |ws| && forall k :: 0 <= k < |ws| ==> r[k] == Word(ws[k])
  {
    if ws == [] then [] else [Word(ws[0])] + Words(ws[1..])
  }

  function Body(t: Cmd<string>): seq<Token>
    decreases t, 0
  {
    match t
    case List(l, r) => Print(l, 1) + [Sym(';')] + Print(r, 0)
    case Back(c) => Print(c, 1) + [Sym('&')]
    case Pipe(l, r) => Print(l, 3) + [Sym('|')] + Print(r, 2)
    case Exec(ws) => Words(ws)
    case Redir(c, f, m, d) => Print(c, 3) + RedirToks(Redirection(f, m, d))
  }

  function RedirToks(r: Redirection): seq<Token> {
    [Sym(if r.fd == 0 then '<' else '>'), Word(r.file)]
  }

  function Spell(t: Token): string {
    match t
    case Sym(c) => [c]
    case Append => ">>"
    case Word(w) => w
  }

  function SpellAll(ts: seq<Token>): string {
    if ts == [] then "" else Spell(ts[0]) + " " + SpellAll(ts[1..])
  }

  function Show(t: Cmd<string>): string {
    SpellAll(Print(t, 0))
  }

  // ---- the trees that have a spelling ----

  predicate IsWord(w: string) {
    w != "" && forall c <- w :: IsWordChar(c)
  }

  predicate IsRedir(mode: int, fd: int) {
    (mode == O_RDONLY && fd == 0) || (mode == O_WRONLY + O_CREATE && fd == 1)
  }

  predicate Proper(t: Cmd<string>) {
    match t
    case Exec(ws) => |ws| < MAXARGS && forall w <- ws :: IsWord(w)
    case Redir(c, f, m, d) => Proper(c) && IsWord(f) && IsRedir(m, d)
    case Pipe(l, r) => Proper(l) && Proper(r)
    case List(l, r) => Proper(l) && Proper(r)
    case Back(c) => Proper(c)
  }

  // ---- parsing undoes printing ----

  predicate Follow(ts: seq<Token>, syms: string) {
    ts == [] || At(ts, syms)
  }

  function AllToks(rs: seq<Redirection>): seq<Token> {
    if rs == [] then [] else RedirToks(rs[0]) + AllToks(rs[1..])
  }

  predicate ProperRedirs(rs: seq<Redirection>) {
    forall r <- rs :: IsRedir(r.mode, r.fd)
  }

  lemma RedirsStep(ts: seq<Token>, rs: seq<Redirection>, rest: seq<Token>)
    requires |ts| >= 2 && AtRedir(ts) && ts[1].Word? && ParseRedirs(ts[2..]) == Some(rs, rest)
    ensures ParseRedirs(ts) == Some([RedirOf(ts[0], ts[1].w)] + rs, rest)
  {
  }

  lemma {:induction false} RedirsOk(rs: seq<Redirection>, rest: seq<Token>)
    requires ProperRedirs(rs) && !AtRedir(rest)
    ensures ParseRedirs(AllToks(rs) + rest) == Some(rs, rest)
  {
    var ts := AllToks(rs) + rest;
    if rs == [] {
      assert ts == rest;
    } else {
      hide ParseRedirs;
      RedirsOk(rs[1..], rest);
      var more := AllToks(rs[1..]) + rest;
      assert ts == RedirToks(rs[0]) + more;
      assert ts[2..] == more && ts[0] == RedirToks(rs[0])[0] && ts[1] == Word(rs[0].file);
      RedirsStep(ts, rs[1..], rest);
      assert [rs[0]] + rs[1..] == rs;
    }
  }

  lemma LoopStep(ts: seq<Token>, argv: seq<string>, rs: seq<Redirection>, more: seq<Redirection>, rest: seq<Token>)
    requires ts != [] && ts[0].Word? && |argv| + 1 < MAXARGS && ParseRedirs(ts[1..]) == Some(more, rest)
    ensures ExecLoop(ts, argv, rs) == ExecLoop(rest, argv + [ts[0].w], rs + more)
  {
  }

  lemma {:induction false} WordsOk(ws: seq<string>, argv: seq<string>, r0: seq<Redirection>, rs: seq<Redirection>,
      rest: seq<Token>)
    requires |argv| + |ws| < MAXARGS && ProperRedirs(rs) && Follow(rest, "|)&;") && ws != []
    ensures ExecLoop(Words(ws) + (AllToks(rs) + rest), argv, r0) == Ok(Wrap(Exec(argv + ws), r0 + rs), rest)
    decreases |ws|
  {
    hide ExecLoop, ParseRedirs, AllToks, Wrap;
    var ts := Words(ws) + (AllToks(rs) + rest);
    assert ts[0] == Word(ws[0]) && ts[1..] == Words(ws[1..]) + (AllToks(rs) + rest);
    if |ws| == 1 {
      assert ts[1..] == AllToks(rs) + rest && argv + ws == argv + [ws[0]];
      RedirsOk(rs, rest);
      LoopStep(ts, argv, r0, rs, rest);
      WordsEnd(rest, argv + ws, r0 + rs);
    } else {
      assert ts[1] == Word(ws[1]) && argv + ws == argv + [ws[0]] + ws[1..] && r0 + [] == r0;
      NoRedirs(ts[1..]);
      LoopStep(ts, argv, r0, [], ts[1..]);
      WordsOk(ws[1..], argv + [ws[0]], r0, rs, rest);
    }
  }

  lemma NotABlock(ts: seq<Token>, rs: seq<Redirection>, rest: seq<Token>)
    requires !At(ts, "(") && ParseRedirs(ts) == Some(rs, rest)
    ensures ParseExec(ts) == ExecLoop(rest, [], rs)
  {
  }

  lemma NoWordsOk(rs: seq<Redirection>, rest: seq<Token>)
    requires ProperRedirs(rs) && Follow(rest, "|)&;")
    ensures ParseExec(AllToks(rs) + rest) == Ok(Wrap(Exec([]), rs), rest)
  {
    hide ExecLoop, ParseRedirs, ParseExec, Wrap;
    var ts := AllToks(rs) + rest;
    RedirsOk(rs, rest);
    if rs == [] {
      assert ts == rest;
    } else {
      assert ts[0] == RedirToks(rs[0])[0];
    }
    WordsEnd(rest, [], rs);
    NotABlock(ts, rs, rest);
  }

  lemma SimpleOk(ws: seq<string>, rs: seq<Redirection>, rest: seq<Token>)
    requires |ws| < MAXARGS && ProperRedirs(rs) && Follow(rest, "|)&;")
    ensures ParseExec(Words(ws) + (AllToks(rs) + rest)) == Ok(Wrap(Exec(ws), rs), rest)
  {
    hide ExecLoop, ParseRedirs, ParseExec, Wrap, AllToks;
    var ts := Words(ws) + (AllToks(rs) + rest);
    if ws == [] {
      assert ts == AllToks(rs) + rest;
      NoWordsOk(rs, rest);
    } else {
      assert ts[0] == Word(ws[0]);
      NoRedirs(ts);
      assert [] + ws == ws && [] + rs == rs;
      NotABlock(ts, [], ts);
      WordsOk(ws, [], [], rs, rest);
    }
  }

  lemma NoRedirs(ts: seq<Token>)
    requires !AtRedir(ts)
    ensures ParseRedirs(ts) == Some([], ts)
  {
  }

  lemma WordsEnd(rest: seq<Token>, argv: seq<string>, rs: seq<Redirection>)
    requires Follow(rest, "|)&;")
    ensures ExecLoop(rest, argv, rs) == Ok(Wrap(Exec(argv), rs), rest)
  {
  }

  lemma ParenOk(t: Cmd<string>, rs: seq<Redirection>, rest: seq<Token>)
    requires ProperRedirs(rs) && Follow(rest, "|)&;")
    requires ParseLine(Body(t) + ([Sym(')')] + (AllToks(rs) + rest))) == Ok(t, [Sym(')')] + (AllToks(rs) + rest))
    ensures ParseExec([Sym('(')] + Body(t) + [Sym(')')] + (AllToks(rs) + rest)) == Ok(Wrap(t, rs), rest)
  {
    var inner := [Sym(')')] + (AllToks(rs) + rest);
    var ts := [Sym('(')] + Body(t) + [Sym(')')] + (AllToks(rs) + rest);
    assert ts[1..] == Body(t) + inner && inner[1..] == AllToks(rs) + rest;
    RedirsOk(rs, rest);
  }

  /** A command is never taken apart by what follows it: at each level of the
      grammar, the parser gives back the tree that was printed. */
  lemma {:induction false} ExecOk(t: Cmd<string>, rs: seq<Redirection>, rest: seq<Token>)
    requires Proper(t) && ProperRedirs(rs) && Follow(rest, "|)&;")
    ensures ParseExec(Print(t, 3) + (AllToks(rs) + rest)) == Ok(Wrap(t, rs), rest)
    decreases t, if Level(t) == 3 then 0 else 9
  {
    match t
    case Exec(ws) => SimpleOk(ws, rs, rest);
    case Redir(c, f, m, d) =>
      var r := Redirection(f, m, d);
      assert AllToks([r] + rs) == RedirToks(r) + AllToks(rs);
      assert Print(t, 3) + (AllToks(rs) + rest) == Print(c, 3) + (AllToks([r] + rs) + rest);
      ExecOk(c, [r] + rs, rest);
      assert ([r] + rs)[1..] == rs;
    case _ =>
      LineOk(t, [Sym(')')] + (AllToks(rs) + rest));
      ParenOk(t, rs, rest);
  }

  lemma {:induction false} PipeOk(t: Cmd<string>, rest: seq<Token>)
    requires Proper(t) && Follow(rest, ")&;")
    ensures ParsePipe(Print(t, 2) + rest) == Ok(t, rest)
    decreases t, if Level(t) < 2 then 10 else 3
  {
    if t.Pipe? {
      var after := [Sym('|')] + (Print(t.right, 2) + rest);
      assert Print(t, 2) + rest == Print(t.left, 3) + (AllToks([]) + after);
      ExecOk(t.left, [], after);
      assert after[1..] == Print(t.right, 2) + rest;
      PipeOk(t.right, rest);
    } else {
      assert Print(t, 2) + rest == Print(t, 3) + (AllToks([]) + rest);
      ExecOk(t, [], rest);
    }
  }

  /** A pipeline and its '&'s. */
  function ParseBack(ts: seq<Token>): Parsed {
    match ParsePipe(ts)
    case Fail => Fail
    case Ok(c, rest) => Amps(c, rest)
  }

  lemma {:induction false} BackOk(t: Cmd<string>, rest: seq<Token>)
    requires Proper(t) && Follow(rest, ")&;")
    ensures ParseBack(Print(t, 1) + rest) == Amps(t, rest)
    decreases t, if Level(t) < 1 then 11 else 4
  {
    if t.Back? {
      var after := [Sym('&')] + rest;
      assert Print(t, 1) + rest == Print(t.cmd, 1) + after;
      BackOk(t.cmd, after);
      assert after[1..] == rest;
    } else {
      assert Print(t, 1) == Print(t, 2);
      PipeOk(t, rest);
    }
  }

  lemma ListOk(l: Cmd<string>, r: Cmd<string>, ts: seq<Token>, right: seq<Token>, rest: seq<Token>)
    requires ParseBack(ts) == Amps(l, [Sym(';')] + right) && ParseLine(right) == Ok(r, rest)
    ensures ParseLine(ts) == Ok(List(l, r), rest)
  {
    hide ParsePipe;
    var after := [Sym(';')] + right;
    assert after[1..] == right && !At(after, "&");
  }

  lemma SingleOk(t: Cmd<string>, ts: seq<Token>, rest: seq<Token>)
    requires ParseBack(ts) == Amps(t, rest) && Follow(rest, ")")
    ensures ParseLine(ts) == Ok(t, rest)
  {
    hide ParsePipe;
  }

  lemma {:induction false} LineOk(t: Cmd<string>, rest: seq<Token>)
    requires Proper(t) && Follow(rest, ")")
    ensures ParseLine(Body(t) + rest) == Ok(t, rest)
    decreases t, 5
  {
    hide ParsePipe, ParseLine, ParseBack, Amps;
    if t.List? {
      var right := Body(t.right) + rest;
      assert Print(t.right, 0) == Body(t.right);
      assert Body(t) + rest == Print(t.left, 1) + ([Sym(';')] + right);
      BackOk(t.left, [Sym(';')] + right);
      LineOk(t.right, rest);
      ListOk(t.left, t.right, Body(t) + rest, right, rest);
    } else {
      assert Print(t, 1) == Body(t);
      BackOk(t, rest);
      SingleOk(t, Body(t) + rest, rest);
    }
  }

  // ---- spelling ----

  predicate ProperToken(t: Token) {
    match t
    case Sym(c) => IsSymbol(c)
    case Append => true
    case Word(w) => IsWord(w)
  }

  lemma {:induction false} WordLenIs(w: string, rest: string)
    requires (forall c <- w :: IsWordChar(c)) && (rest == "" || !IsWordChar(rest[0]))
    ensures WordLen(w + rest) == |w|
  {
    if w == "" {
      assert w + rest == rest;
    } else {
      assert (w + rest)[1..] == w[1..] + rest;
      WordLenIs(w[1..], rest);
    }
  }

  lemma FirstIs(t: Token, rest: string)
    requires ProperToken(t) && rest != "" && IsSpace(rest[0])
    ensures Spell(t) != "" && First(Spell(t) + rest) == (t, |Spell(t)|)
    ensures Lex(Spell(t) + rest) == [t] + Lex(rest)
  {
    var s := Spell(t) + rest;
    if t.Word? { WordLenIs(t.w, rest); }
    assert s[0] == Spell(t)[0] && (|Spell(t)| == 1 ==> s[1] == rest[0]) && s[..|Spell(t)|] == Spell(t);
    assert Skip(s) == s && s[|Spell(t)|..] == rest;
  }

  lemma LexSpace(s: string)
    ensures Lex(" " + s) == Lex(s)
  {
    assert (" " + s)[1..] == s && Skip(" " + s) == Skip(s);
  }

  lemma {:induction false} LexSpell(ts: seq<Token>)
    requires forall t <- ts :: ProperToken(t)
    ensures Lex(SpellAll(ts)) == ts
  {
    if ts != [] {
      var rest := " " + SpellAll(ts[1..]);
      assert SpellAll(ts) == Spell(ts[0]) + rest;
      FirstIs(ts[0], rest);
      LexSpace(SpellAll(ts[1..]));
      LexSpell(ts[1..]);
    }
  }

  lemma {:induction false} PrintTokens(t: Cmd<string>, level: nat)
    requires Proper(t)
    ensures forall k <- Print(t, level) :: ProperToken(k)
    decreases t, 1
  {
    BodyTokens(t);
  }

  lemma {:induction false} BodyTokens(t: Cmd<string>)
    requires Proper(t)
    ensures forall k <- Body(t) :: ProperToken(k)
    decreases t, 0
  {
    match t
    case List(l, r) =>
      PrintTokens(l, 1);
      PrintTokens(r, 0);
    case Back(c) => PrintTokens(c, 1);
    case Pipe(l, r) =>
      PrintTokens(l, 3);
      PrintTokens(r, 2);
    case Exec(ws) =>
    case Redir(c, f, m, d) => PrintTokens(c, 3);
  }

  /** Parsing undoes printing, for every command with a spelling. */
  lemma ParseShow(t: Cmd<string>)
    requires Proper(t)
    ensures Parse(Show(t)) == Ok(t, [])
  {
    PrintTokens(t, 0);
    LexSpell(Print(t, 0));
    LineOk(t, []);
    assert Body(t) + [] == Body(t) == Print(t, 0);
  }

  // ---- every parsed command has a spelling ----

  predicate ProperTokens(ts: seq<Token>) {
    forall t <- ts :: ProperToken(t)
  }

  lemma {:induction false} LexTokens(s: string)
    requires '\0' !in s
    ensures ProperTokens(Lex(s))
    decreases |s|
  {
    SkipIn(s);
    var t := Skip(s);
    if t != "" {
      LexTokens(t[First(t).1..]);
      assert forall c <- t[..WordLen(t)] :: IsWordChar(c);
      assert ProperToken(First(t).0);
    }
  }

  lemma {:induction false} SkipIn(s: string)
    ensures forall c <- Skip(s) :: c in s
  {
    if s != "" { SkipIn(s[1..]); }
  }

  lemma {:induction false} RedirsProper(ts: seq<Token>)
    requires ProperTokens(ts)
    ensures ParseRedirs(ts).Some? ==> ProperTokens(ParseRedirs(ts).rest)
    ensures ParseRedirs(ts).Some? ==> forall r <- ParseRedirs(ts).redirs :: IsRedir(r.mode, r.fd) && IsWord(r.file)
  {
    if AtRedir(ts) && |ts| >= 2 && ts[1].Word? {
      assert ProperToken(ts[1]) && forall t <- ts[2..] :: t in ts;
      RedirsProper(ts[2..]);
    }
  }

  lemma {:induction false} WrapProper(c: Cmd<string>, rs: seq<Redirection>)
    requires Proper(c) && forall r <- rs :: IsRedir(r.mode, r.fd) && IsWord(r.file)
    ensures Proper(Wrap(c, rs))
    decreases |rs|
  {
    if rs != [] { WrapProper(Redir(c, rs[0].file, rs[0].mode, rs[0].fd), rs[1..]); }
  }

  ghost predicate Good(r: Parsed) {
    r.Ok? ==> Proper(r.cmd) && ProperTokens(r.rest)
  }

  lemma {:induction false} LoopProper(ts: seq<Token>, argv: seq<string>, rs: seq<Redirection>)
    requires ProperTokens(ts) && |argv| < MAXARGS && (forall w <- argv :: IsWord(w))
    requires forall r <- rs :: IsRedir(r.mode, r.fd) && IsWord(r.file)
    ensures Good(ExecLoop(ts, argv, rs))
    decreases |ts|
  {
    if ts == [] || At(ts, "|)&;") {
      WrapProper(Exec(argv), rs);
    } else if ts[0].Word? && |argv| + 1 < MAXARGS {
      assert ProperToken(ts[0]) && forall t <- ts[1..] :: t in ts;
      RedirsProper(ts[1..]);
      var more := ParseRedirs(ts[1..]);
      if more.Some? { LoopProper(more.rest, argv + [ts[0].w], rs + more.redirs); }
    }
  }

  lemma {:induction false} ExecProper(ts: seq<Token>)
    requires ProperTokens(ts)
    ensures Good(ParseExec(ts))
    decreases |ts|, 0
  {
    if At(ts, "(") {
      assert forall t <- ts[1..] :: t in ts;
      LineProper(ts[1..]);
      var r := ParseLine(ts[1..]);
      if r.Ok? && At(r.rest, ")") {
        assert forall t <- r.rest[1..] :: t in r.rest;
        RedirsProper(r.rest[1..]);
        var more := ParseRedirs(r.rest[1..]);
        if more.Some? { WrapProper(r.cmd, more.redirs); }
      }
    } else {
      RedirsProper(ts);
      var more := ParseRedirs(ts);
      if more.Some? { LoopProper(more.rest, [], more.redirs); }
    }
  }

  lemma {:induction false} PipeProper(ts: seq<Token>)
    requires ProperTokens(ts)
    ensures Good(ParsePipe(ts))
    decreases |ts|, 1
  {
    ExecProper(ts);
    var r := ParseExec(ts);
    if r.Ok? && At(r.rest, "|") {
      assert forall t <- r.rest[1..] :: t in r.rest;
      PipeProper(r.rest[1..]);
    }
  }

  lemma {:induction false} AmpsProper(c: Cmd<string>, ts: seq<Token>)
    requires ProperTokens(ts) && Proper(c)
    ensures Good(Amps(c, ts))
    decreases |ts|
  {
    if At(ts, "&") {
      assert forall t <- ts[1..] :: t in ts;
      AmpsProper(Back(c), ts[1..]);
    }
  }

  lemma {:induction false} LineProper(ts: seq<Token>)
    requires ProperTokens(ts)
    ensures Good(ParseLine(ts))
    decreases |ts|, 2
  {
    hide Amps, ParsePipe;
    PipeProper(ts);
    var r := ParsePipe(ts);
    if r.Ok? {
      AmpsProper(r.cmd, r.rest);
      var a := Amps(r.cmd, r.rest);
      if At(a.rest, ";") {
        assert forall t <- a.rest[1..] :: t in a.rest;
        LineProper(a.rest[1..]);
      }
    }
  }

  /** The commands that parsing can give are exactly those that printing can
      take: every parsed line means the same as its tree printed again. */
  lemma ParsedIsShown(s: string)
    requires '\0' !in s && Parse(s).Ok?
    ensures Proper(Parse(s).cmd) && Parse(Show(Parse(s).cmd)) == Parse(s)
  {
    LexTokens(s);
    LineProper(Lex(s));
    ParseShow(Parse(s).cmd);
  }
}
