/** The shell's grammar as its rules say, apart from any parser: the lines that
    it allows, how they are written, and the trees that they stand for. */
module ShellLaws {
  import opened Shell
  import opened ShellGrammar

  /** A word of a simple command, or a redirection: `<f`, `>f`, `>>f`. */
  datatype Item = Arg(w: string) | From(f: string) | Into(f: string) | Onto(f: string)

  /** `( line ) redirections`, or words and redirections in any order. */
  datatype Part = Block(line: Line, files: seq<Item>) | Simple(items: seq<Item>)

  datatype Pipeline = Only(part: Part) | Piped(part: Part, next: Pipeline)

  /** A pipeline and its '&'s, and after a ';' another line. */
  datatype Line = Last(p: Pipeline, amps: nat) | Then(p: Pipeline, amps: nat, next: Line)

  // ---- how they are written ----

  function ItemToks(it: Item): seq<Token> {
    match it
    case Arg(w) => [Word(w)]
    case From(f) => [Sym('<'), Word(f)]
    case Into(f) => [Sym('>'), Word(f)]
    case Onto(f) => [Append, Word(f)]
  }

  function ItemsToks(items: seq<Item>): seq<Token> {
    if items == [] then [] else ItemToks(items[0]) + ItemsToks(items[1..])
  }

  function AmpToks(n: nat): seq<Token> {
    if n == 0 then [] else [Sym('&')] + AmpToks(n - 1)
  }

  function PartToks(p: Part): seq<Token> {
    match p
    case Block(line, files) => [Sym('(')] + LineToks(line) + [Sym(')')] + ItemsToks(files)
    case Simple(items) => ItemsToks(items)
  }

  function PipelineToks(p: Pipeline): seq<Token> {
    match p
    case Only(part) => PartToks(part)
    case Piped(part, next) => PartToks(part) + [Sym('|')] + PipelineToks(next)
  }

  function LineToks(l: Line): seq<Token> {
    match l
    case Last(p, amps) => PipelineToks(p) + AmpToks(amps)
    case Then(p, amps, next) => PipelineToks(p) + AmpToks(amps) + [Sym(';')] + LineToks(next)
  }

  // ---- what they stand for ----

  function WithItem(c: Cmd<string>, it: Item): Cmd<string> {
    match it
    case Arg(w) => AddArg(c, w)
    case From(f) => Redir(c, f, 0x000, 0)
    case Into(f) => Redir(c, f, 0x201, 1)
    case Onto(f) => Redir(c, f, 0x201, 1)
  }

  function WithItems(c: Cmd<string>, items: seq<Item>): Cmd<string>
    decreases |items|
  {
    if items == [] then c else WithItems(WithItem(c, items[0]), items[1..])
  }

  function Backs(c: Cmd<string>, n: nat): Cmd<string>
    decreases n
  {
    if n == 0 then c else Backs(Back(c), n - 1)
  }

  function PartTree(p: Part): Cmd<string> {
    match p
    case Block(line, files) => WithItems(LineTree(line), files)
    case Simple(items) => WithItems(Exec([]), items)
  }

  function PipelineTree(p: Pipeline): Cmd<string> {
    match p
    case Only(part) => PartTree(part)
    case Piped(part, next) => Pipe(PartTree(part), PipelineTree(next))
  }

  function LineTree(l: Line): Cmd<string> {
    match l
    case Last(p, amps) => Backs(PipelineTree(p), amps)
    case Then(p, amps, next) => List(Backs(PipelineTree(p), amps), LineTree(next))
  }

  // ---- which of them are allowed ----

  function Args(items: seq<Item>): nat {
    if items == [] then 0 else (if items[0].Arg? then 1 else 0) + Args(items[1..])
  }

  /** Only redirections follow a block; a simple command has at most nine words. */
  predicate PartFits(p: Part) {
    match p
    case Block(line, files) => LineFits(line) && forall it <- files :: !it.Arg?
    case Simple(items) => Args(items) < 10
  }

  predicate PipelineFits(p: Pipeline) {
    match p
    case Only(part) => PartFits(part)
    case Piped(part, next) => PartFits(part) && PipelineFits(next)
  }

  predicate LineFits(l: Line) {
    match l
    case Last(p, _) => PipelineFits(p)
    case Then(p, _, next) => PipelineFits(p) && LineFits(next)
  }

  // ---- every allowed line is parsed to its tree ----

  lemma FileStep(it: Item, ts: seq<Token>, c: Cmd<string>)
    requires !it.Arg?
    ensures WrapAll(c, ParseRedirs(ItemToks(it) + ts)) == WrapAll(WithItem(c, it), ParseRedirs(ts))
  {
    hide ParseRedirs;
    var all := ItemToks(it) + ts;
    assert all[2..] == ts;
    WrapRound(all, c);
  }

  lemma {:induction false} FilesParse(items: seq<Item>, c: Cmd<string>, rest: seq<Token>)
    requires (forall it <- items :: !it.Arg?) && !AtRedir(rest)
    ensures WrapAll(c, ParseRedirs(ItemsToks(items) + rest)) == Ok(WithItems(c, items), rest)
    decreases |items|
  {
    if items == [] {
      assert ItemsToks(items) + rest == rest;
    } else {
      hide ParseRedirs, WrapAll;
      var more := ItemsToks(items[1..]) + rest;
      assert ItemsToks(items) + rest == ItemToks(items[0]) + more;
      FileStep(items[0], more, c);
      FilesParse(items[1..], WithItem(c, items[0]), rest);
    }
  }

  /** parseredirs, and the loop of parseexec after it. */
  function Rest(ts: seq<Token>, argv: seq<string>, rs: seq<Redirection>): Parsed {
    AfterWord(ParseRedirs(ts), argv, rs)
  }

  lemma RestFile(it: Item, ts: seq<Token>, argv: seq<string>, rs: seq<Redirection>)
    requires !it.Arg?
    ensures var r := RedirOf(ItemToks(it)[0], it.f);
      && Rest(ItemToks(it) + ts, argv, rs) == Rest(ts, argv, rs + [r])
      && Wrap(Exec(argv), rs + [r]) == WithItem(Wrap(Exec(argv), rs), it)
  {
    hide ExecLoop;
    var all, r := ItemToks(it) + ts, RedirOf(ItemToks(it)[0], it.f);
    assert all[2..] == ts;
    if ParseRedirs(ts).Some? {
      var more := ParseRedirs(ts).redirs;
      assert rs + ([r] + more) == rs + [r] + more;
    }
    WrapMore(Exec(argv), rs, [r]);
    var c := Wrap(Exec(argv), rs);
    assert Wrap(c, [r]) == Wrap(Redir(c, r.file, r.mode, r.fd), [r][1..]);
  }

  lemma RestArg(w: string, ts: seq<Token>, argv: seq<string>, rs: seq<Redirection>)
    requires |argv| + 1 < 10
    ensures Rest([Word(w)] + ts, argv, rs) == Rest(ts, argv + [w], rs)
    ensures Wrap(Exec(argv + [w]), rs) == AddArg(Wrap(Exec(argv), rs), w)
  {
    var all := [Word(w)] + ts;
    assert all[1..] == ts;
    NoRedirs(all);
    assert rs + [] == rs;
    ExecRound(all, argv, rs);
    AddArgWrap(Exec(argv), rs, w);
  }

  lemma {:induction false} ItemsParse(items: seq<Item>, argv: seq<string>, rs: seq<Redirection>, rest: seq<Token>)
    requires |argv| + Args(items) < 10 && Follow(rest, "|)&;")
    ensures Rest(ItemsToks(items) + rest, argv, rs) == Ok(WithItems(Wrap(Exec(argv), rs), items), rest)
    decreases |items|
  {
    hide Wrap, ParseRedirs, ExecLoop;
    if items == [] {
      assert ItemsToks(items) + rest == rest && rs + [] == rs;
      NoRedirs(rest);
      WordsEnd(rest, argv, rs);
    } else {
      hide Rest, AfterWord;
      var it, more := items[0], ItemsToks(items[1..]) + rest;
      assert ItemsToks(items) + rest == ItemToks(it) + more;
      if it.Arg? {
        RestArg(it.w, more, argv, rs);
        ItemsParse(items[1..], argv + [it.w], rs, rest);
      } else {
        RestFile(it, more, argv, rs);
        ItemsParse(items[1..], argv, rs + [RedirOf(ItemToks(it)[0], it.f)], rest);
      }
    }
  }

  lemma ItemsNoBlock(items: seq<Item>, rest: seq<Token>)
    requires Follow(rest, "|)&;")
    ensures !At(ItemsToks(items) + rest, "(")
  {
    if items != [] { assert (ItemsToks(items) + rest)[0] == ItemToks(items[0])[0]; }
  }

  lemma SimpleParse(ts: seq<Token>)
    requires !At(ts, "(")
    ensures ParseExec(ts) == Rest(ts, [], [])
  {
    hide ExecLoop, ParseRedirs;
    if ParseRedirs(ts).Some? { assert [] + ParseRedirs(ts).redirs == ParseRedirs(ts).redirs; }
  }

  lemma BlockParse(inner: seq<Token>, c: Cmd<string>, after: seq<Token>)
    requires ParseLine(inner + ([Sym(')')] + after)) == Ok(c, [Sym(')')] + after)
    ensures ParseExec([Sym('(')] + inner + [Sym(')')] + after) == WrapAll(c, ParseRedirs(after))
  {
    hide ParseLine, ParseRedirs;
    var ts := [Sym('(')] + inner + [Sym(')')] + after;
    assert ts[1..] == inner + ([Sym(')')] + after) && ([Sym(')')] + after)[1..] == after;
  }

  lemma {:induction false} PartParses(p: Part, rest: seq<Token>)
    requires PartFits(p) && Follow(rest, "|)&;")
    ensures ParseExec(PartToks(p) + rest) == Ok(PartTree(p), rest)
    decreases p, 0
  {
    hide ParseExec, ParseLine, Rest, WithItems;
    match p
    case Block(line, files) =>
      var after := ItemsToks(files) + rest;
      LineParses(line, [Sym(')')] + after);
      assert PartToks(p) + rest == [Sym('(')] + LineToks(line) + [Sym(')')] + after;
      BlockParse(LineToks(line), LineTree(line), after);
      FilesParse(files, LineTree(line), rest);
    case Simple(items) =>
      ItemsNoBlock(items, rest);
      SimpleParse(ItemsToks(items) + rest);
      ItemsParse(items, [], [], rest);
  }

  lemma {:induction false} PipelineParses(p: Pipeline, rest: seq<Token>)
    requires PipelineFits(p) && Follow(rest, ")&;")
    ensures ParsePipe(PipelineToks(p) + rest) == Ok(PipelineTree(p), rest)
    decreases p, 1
  {
    hide ParseExec;
    match p
    case Only(part) => PartParses(part, rest);
    case Piped(part, next) =>
      var after := [Sym('|')] + (PipelineToks(next) + rest);
      assert PipelineToks(p) + rest == PartToks(part) + after;
      PartParses(part, after);
      assert after[1..] == PipelineToks(next) + rest;
      PipelineParses(next, rest);
  }

  lemma {:induction false} AmpsParse(c: Cmd<string>, n: nat, rest: seq<Token>)
    requires !At(rest, "&")
    ensures Amps(c, AmpToks(n) + rest) == Ok(Backs(c, n), rest)
    decreases n
  {
    if n == 0 {
      assert AmpToks(n) + rest == rest;
    } else {
      assert (AmpToks(n) + rest)[1..] == AmpToks(n - 1) + rest;
      AmpsParse(Back(c), n - 1, rest);
    }
  }

  /** A pipeline with its '&'s, up to a ';', a ')' or the end. */
  lemma {:induction false} HeadParses(p: Pipeline, amps: nat, rest: seq<Token>)
    requires PipelineFits(p) && Follow(rest, ");")
    ensures ParseBack(PipelineToks(p) + AmpToks(amps) + rest) == Ok(Backs(PipelineTree(p), amps), rest)
    decreases p, 2
  {
    hide ParsePipe;
    assert PipelineToks(p) + AmpToks(amps) + rest == PipelineToks(p) + (AmpToks(amps) + rest);
    assert amps == 0 ==> AmpToks(amps) + rest == rest;
    PipelineParses(p, AmpToks(amps) + rest);
    AmpsParse(PipelineTree(p), amps, rest);
  }

  predicate LineIs(ts: seq<Token>, a: Parsed, b: Parsed)
    requires a.Ok?
  {
    ParseLine(ts) == if b.Ok? then Ok(List(a.cmd, b.cmd), b.rest) else Fail
  }

  lemma LineIsHead(ts: seq<Token>)
    ensures ParseBack(ts).Fail? ==> ParseLine(ts) == Fail
    ensures var a := ParseBack(ts); a.Ok? && !At(a.rest, ";") ==> ParseLine(ts) == a
    ensures var a := ParseBack(ts);
      a.Ok? && At(a.rest, ";") ==> |a.rest| <= |ts| && LineIs(ts, a, ParseLine(a.rest[1..]))
  {
    hide ParsePipe, Amps;
  }

  /** Whatever the grammar allows, the parser gives its tree, and stops at what
      follows. */
  lemma {:induction false} LineParses(l: Line, rest: seq<Token>)
    requires LineFits(l) && Follow(rest, ")")
    ensures ParseLine(LineToks(l) + rest) == Ok(LineTree(l), rest)
    decreases l, 3
  {
    hide ParseLine, ParseBack, Backs, AmpToks;
    match l
    case Last(p, amps) =>
      HeadParses(p, amps, rest);
      LineIsHead(LineToks(l) + rest);
    case Then(p, amps, next) =>
      var after := [Sym(';')] + (LineToks(next) + rest);
      assert LineToks(l) + rest == PipelineToks(p) + AmpToks(amps) + after;
      HeadParses(p, amps, after);
      LineIsHead(LineToks(l) + rest);
      assert after[1..] == LineToks(next) + rest;
      LineParses(next, rest);
  }

  // ---- every parsed line is allowed ----

  lemma ItemAt(ts: seq<Token>, c: Cmd<string>) returns (it: Item)
    requires AtRedir(ts) && |ts| >= 2 && ts[1].Word?
    ensures !it.Arg? && ts == ItemToks(it) + ts[2..] && it.f == ts[1].w
    ensures var r := RedirOf(ts[0], ts[1].w); WithItem(c, it) == Redir(c, r.file, r.mode, r.fd)
  {
    it := if ts[0].Append? then Onto(ts[1].w) else if ts[0].c == '<' then From(ts[1].w) else Into(ts[1].w);
    assert ts == [ts[0], ts[1]] + ts[2..];
  }

  lemma {:induction false} FilesDerive(ts: seq<Token>, c: Cmd<string>) returns (items: seq<Item>)
    requires ParseRedirs(ts).Some?
    ensures (forall it <- items :: !it.Arg?) && ts == ItemsToks(items) + ParseRedirs(ts).rest
    ensures WithItems(c, items) == Wrap(c, ParseRedirs(ts).redirs)
    decreases |ts|
  {
    if !AtRedir(ts) {
      items := [];
    } else {
      var it := ItemAt(ts, c);
      var r := RedirOf(ts[0], ts[1].w);
      var more := FilesDerive(ts[2..], Redir(c, r.file, r.mode, r.fd));
      items := [it] + more;
      assert items[1..] == more && ParseRedirs(ts).redirs[1..] == ParseRedirs(ts[2..]).redirs;
    }
  }

  lemma {:induction false} ItemsDerive(ts: seq<Token>, argv: seq<string>, rs: seq<Redirection>)
    returns (items: seq<Item>)
    requires |argv| < 10 && Rest(ts, argv, rs).Ok?
    ensures |argv| + Args(items) < 10 && ts == ItemsToks(items) + Rest(ts, argv, rs).rest
    ensures Rest(ts, argv, rs).cmd == WithItems(Wrap(Exec(argv), rs), items)
    decreases |ts|
  {
    hide Wrap, ExecLoop;
    if AtRedir(ts) {
      hide AfterWord;
      var it := ItemAt(ts, Wrap(Exec(argv), rs));
      RestFile(it, ts[2..], argv, rs);
      var more := ItemsDerive(ts[2..], argv, rs + [RedirOf(ItemToks(it)[0], it.f)]);
      items := [it] + more;
      assert items[1..] == more;
    } else {
      ExecRound(ts, argv, rs);
      assert rs + [] == rs;
      if ts == [] || At(ts, "|)&;") {
        items := [];
      } else {
        RestArg(ts[0].w, ts[1..], argv, rs);
        assert [ts[0]] + ts[1..] == ts;
        var more := ItemsDerive(ts[1..], argv + [ts[0].w], rs);
        items := [Arg(ts[0].w)] + more;
        assert items[1..] == more;
      }
    }
  }

  lemma BlockIs(ts: seq<Token>)
    requires At(ts, "(") && ParseExec(ts).Ok?
    ensures var r := ParseLine(ts[1..]);
      r.Ok? && At(r.rest, ")") && ts[1..] != ts && WrapAll(r.cmd, ParseRedirs(r.rest[1..])) == ParseExec(ts)
  {
    hide ParseLine, ParseRedirs;
  }

  lemma {:induction false} PartDerives(ts: seq<Token>) returns (p: Part)
    requires ParseExec(ts).Ok?
    ensures PartFits(p) && ts == PartToks(p) + ParseExec(ts).rest && PartTree(p) == ParseExec(ts).cmd
    decreases |ts|, 0
  {
    hide WithItems, ParseExec, ParseLine, ParseRedirs, ItemsToks, Wrap, Rest;
    if At(ts, "(") {
      BlockIs(ts);
      var r := ParseLine(ts[1..]);
      var line := LineDerives(ts[1..]);
      var files := FilesDerive(r.rest[1..], r.cmd);
      p := Block(line, files);
      assert ts == [Sym('(')] + ts[1..] && r.rest == [Sym(')')] + r.rest[1..];
    } else {
      SimpleParse(ts);
      var items := ItemsDerive(ts, [], []);
      p := Simple(items);
      NoWrap(Exec([]));
    }
  }

  lemma NoWrap(c: Cmd<string>)
    ensures Wrap(c, []) == c
  {
  }

  lemma {:induction false} PipelineDerives(ts: seq<Token>) returns (p: Pipeline)
    requires ParsePipe(ts).Ok?
    ensures PipelineFits(p) && ts == PipelineToks(p) + ParsePipe(ts).rest && PipelineTree(p) == ParsePipe(ts).cmd
    decreases |ts|, 1
  {
    hide ParseExec;
    var part := PartDerives(ts);
    var rest := ParseExec(ts).rest;
    if At(rest, "|") {
      var next := PipelineDerives(rest[1..]);
      p := Piped(part, next);
      assert rest == [Sym('|')] + rest[1..];
    } else {
      p := Only(part);
    }
  }

  lemma {:induction false} AmpsDerive(c: Cmd<string>, ts: seq<Token>) returns (n: nat)
    ensures ts == AmpToks(n) + Amps(c, ts).rest && Amps(c, ts).cmd == Backs(c, n)
    decreases |ts|
  {
    if At(ts, "&") {
      var m := AmpsDerive(Back(c), ts[1..]);
      n := m + 1;
      assert ts == [Sym('&')] + ts[1..];
    } else {
      n := 0;
    }
  }

  /** Whatever the parser takes is a line of the grammar, with its tree. */
  lemma {:induction false} LineDerives(ts: seq<Token>) returns (l: Line)
    requires ParseLine(ts).Ok?
    ensures LineFits(l) && ts == LineToks(l) + ParseLine(ts).rest && LineTree(l) == ParseLine(ts).cmd
    decreases |ts|, 2
  {
    hide ParsePipe, Amps, Backs, AmpToks;
    var p := PipelineDerives(ts);
    var r := ParsePipe(ts);
    var n := AmpsDerive(r.cmd, r.rest);
    var rest := Amps(r.cmd, r.rest).rest;
    assert ts == PipelineToks(p) + AmpToks(n) + rest;
    if At(rest, ";") {
      var next := LineDerives(rest[1..]);
      l := Then(p, n, next);
      assert rest == [Sym(';')] + rest[1..];
    } else {
      l := Last(p, n);
    }
  }

  /** The parser decides the grammar: a line has a tree exactly when its tokens
      are those of an allowed line, and then it is the tree of that line. */
  lemma ParseIsGrammar(s: string, c: Cmd<string>)
    ensures Parse(s) == Ok(c, []) <==> exists l: Line :: LineFits(l) && Lex(s) == LineToks(l) && c == LineTree(l)
  {
    hide ParseLine, Lex;
    var ts := Lex(s);
    if Parse(s) == Ok(c, []) {
      var l := LineDerives(ts);
      assert LineToks(l) + [] == LineToks(l);
    }
    forall l: Line | LineFits(l) && ts == LineToks(l) && c == LineTree(l)
      ensures Parse(s) == Ok(c, [])
    {
      LineParses(l, []);
      assert LineToks(l) + [] == LineToks(l);
    }
  }

  // ---- what each symbol means ----

  lemma LastParses(part: Part)
    requires PartFits(part)
    ensures ParseLine(PartToks(part)) == Ok(PartTree(part), [])
  {
    hide ParseLine;
    var l := Last(Only(part), 0);
    LineParses(l, []);
    assert LineToks(l) + [] == PartToks(part);
  }

  lemma Derived(ts: seq<Token>) returns (l: Line)
    requires ParseLine(ts).Ok? && ParseLine(ts).rest == []
    ensures LineFits(l) && LineToks(l) == ts && LineTree(l) == ParseLine(ts).cmd
  {
    hide ParseLine;
    l := LineDerives(ts);
    assert ts == LineToks(l) + [];
  }

  /** Two lines in parentheses, with a symbol behind or between them. */
  lemma Brackets(a: seq<Token>, c: Cmd<string>, b: seq<Token>, d: Cmd<string>)
    requires ParseLine(a) == Ok(c, []) && ParseLine(b) == Ok(d, [])
    ensures ParseLine([Sym('(')] + a + [Sym(')')]) == Ok(c, [])
    ensures ParseLine([Sym('(')] + a + [Sym(')'), Sym('&')]) == Ok(Back(c), [])
    ensures ParseLine([Sym('(')] + a + [Sym(')'), Sym(';')] + b) == Ok(List(c, d), [])
    ensures ParseLine([Sym('(')] + a + [Sym(')'), Sym('|'), Sym('(')] + b + [Sym(')')]) == Ok(Pipe(c, d), [])
  {
    hide ParseLine;
    var l := Derived(a);
    var m := Derived(b);
    var p, q := Block(l, []), Block(m, []);
    BlockToks(l);
    BlockToks(m);
    LastParses(p);
    assert PipelineFits(Only(q)) && PipelineToks(Only(q)) == PartToks(q) && PipelineTree(Only(q)) == d;
    Alone(Last(Only(p), 1));
    assert AmpToks(1) == [Sym('&')] + AmpToks(0) && Backs(c, 1) == Backs(Back(c), 0);
    assert [Sym('(')] + a + [Sym(')'), Sym('&')] == PartToks(p) + AmpToks(1);
    Alone(Then(Only(p), 0, m));
    assert [Sym('(')] + a + [Sym(')'), Sym(';')] + b == PartToks(p) + AmpToks(0) + [Sym(';')] + b;
    Alone(Last(Piped(p, Only(q)), 0));
    assert [Sym('(')] + a + [Sym(')'), Sym('|'), Sym('(')] + b + [Sym(')')] ==
      PartToks(p) + [Sym('|')] + PartToks(q) + AmpToks(0);
  }

  lemma BlockToks(l: Line)
    requires LineFits(l)
    ensures var p := Block(l, []);
      PartFits(p) && PartToks(p) == [Sym('(')] + LineToks(l) + [Sym(')')] && PartTree(p) == LineTree(l)
  {
    assert [Sym('(')] + LineToks(l) + [Sym(')')] + ItemsToks([]) == [Sym('(')] + LineToks(l) + [Sym(')')];
  }

  lemma Alone(l: Line)
    requires LineFits(l)
    ensures ParseLine(LineToks(l)) == Ok(LineTree(l), [])
  {
    hide ParseLine;
    LineParses(l, []);
    assert LineToks(l) + [] == LineToks(l);
  }

  function ArgItems(ws: seq<string>): (items: seq<Item>)
    ensures |items| == |ws| && forall k :: 0 <= k < |ws| ==> items[k] == Arg(ws[k])
  {
    seq(|ws|, k requires 0 <= k < |ws| => Arg(ws[k]))
  }

  lemma {:induction false} ItemsToksPlus(a: seq<Item>, b: seq<Item>)
    ensures ItemsToks(a + b) == ItemsToks(a) + ItemsToks(b) && Args(a + b) == Args(a) + Args(b)
  {
    if a == [] {
      assert a + b == b;
    } else {
      assert (a + b)[1..] == a[1..] + b;
      ItemsToksPlus(a[1..], b);
    }
  }

  lemma {:induction false} WithPlus(c: Cmd<string>, a: seq<Item>, b: seq<Item>)
    ensures WithItems(c, a + b) == WithItems(WithItems(c, a), b)
    decreases |a|
  {
    if a == [] {
      assert a + b == b;
    } else {
      assert (a + b)[1..] == a[1..] + b;
      WithPlus(WithItem(c, a[0]), a[1..], b);
    }
  }

  lemma {:induction false} ArgsToks(ws: seq<string>)
    ensures ItemsToks(ArgItems(ws)) == Words(ws) && Args(ArgItems(ws)) == |ws|
  {
    if ws != [] {
      assert ArgItems(ws)[1..] == ArgItems(ws[1..]);
      ArgsToks(ws[1..]);
    }
  }

  lemma {:induction false} WithArgs(argv: seq<string>, ws: seq<string>)
    ensures WithItems(Exec(argv), ArgItems(ws)) == Exec(argv + ws)
    decreases |ws|
  {
    if ws == [] {
      assert argv + ws == argv;
    } else {
      assert ArgItems(ws)[1..] == ArgItems(ws[1..]) && argv + ws == argv + [ws[0]] + ws[1..];
      WithArgs(argv + [ws[0]], ws[1..]);
    }
  }

  lemma {:induction false} WithArgsIn(c: Cmd<string>, f: string, mode: int, fd: int, items: seq<Item>)
    requires forall it <- items :: it.Arg?
    ensures WithItems(Redir(c, f, mode, fd), items) == Redir(WithItems(c, items), f, mode, fd)
    decreases |items|
  {
    if items != [] { WithArgsIn(WithItem(c, items[0]), f, mode, fd, items[1..]); }
  }

  lemma OneFile(a: seq<string>, it: Item, b: seq<string>)
    requires |a| + |b| < 10 && !it.Arg?
    ensures ParseLine(Words(a) + ItemToks(it) + Words(b)) == Ok(WithItem(Exec(a + b), it), [])
  {
    hide ParseLine, WithItems, Words, ItemsToks, Args;
    var items := ArgItems(a) + [it] + ArgItems(b);
    ItemsToksPlus(ArgItems(a) + [it], ArgItems(b));
    ItemsToksPlus(ArgItems(a), [it]);
    ArgsToks(a);
    ArgsToks(b);
    JustOne(it);
    LastParses(Simple(items));
    WithPlus(Exec([]), ArgItems(a) + [it], ArgItems(b));
    WithPlus(Exec([]), ArgItems(a), [it]);
    WithArgs([], a);
    WithArgs(a, b);
    JustWith(Exec(a), it);
    var r := WithItem(Exec(a), it);
    WithArgsIn(r.cmd, r.file, r.mode, r.fd, ArgItems(b));
    assert [] + a == a;
  }

  lemma JustOne(it: Item)
    ensures ItemsToks([it]) == ItemToks(it) && Args([it]) == if it.Arg? then 1 else 0
  {
    assert [it][1..] == [];
  }

  lemma JustWith(c: Cmd<string>, it: Item)
    ensures WithItems(c, [it]) == WithItem(c, it)
  {
    assert WithItems(c, [it]) == WithItems(WithItem(c, it), [it][1..]);
  }

  /** `<f` reads standard input from `f`; `>f` and `>>f` both write standard
      output to it, created if need be. They may stand anywhere among the words. */
  lemma Redirected(a: seq<string>, f: string, b: seq<string>)
    requires |a| + |b| < 10
    ensures ParseLine(Words(a) + [Sym('<'), Word(f)] + Words(b)) == Ok(Redir(Exec(a + b), f, 0x000, 0), [])
    ensures ParseLine(Words(a) + [Sym('>'), Word(f)] + Words(b)) == Ok(Redir(Exec(a + b), f, 0x201, 1), [])
    ensures ParseLine(Words(a) + [Append, Word(f)] + Words(b)) == Ok(Redir(Exec(a + b), f, 0x201, 1), [])
  {
    hide ParseLine, Words;
    OneFile(a, From(f), b);
    OneFile(a, Into(f), b);
    OneFile(a, Onto(f), b);
  }

  /** Redirections after a parenthesised line. */
  lemma BlockRedirected(a: seq<Token>, c: Cmd<string>, f: string)
    requires ParseLine(a) == Ok(c, [])
    ensures ParseLine([Sym('(')] + a + [Sym(')'), Sym('<'), Word(f)]) == Ok(Redir(c, f, 0x000, 0), [])
    ensures ParseLine([Sym('(')] + a + [Sym(')'), Sym('>'), Word(f)]) == Ok(Redir(c, f, 0x201, 1), [])
    ensures ParseLine([Sym('(')] + a + [Sym(')'), Append, Word(f)]) == Ok(Redir(c, f, 0x201, 1), [])
  {
    hide ParseLine;
    var l := Derived(a);
    forall it <- [From(f), Into(f), Onto(f)]
      ensures ParseLine([Sym('(')] + a + [Sym(')')] + ItemToks(it)) == Ok(WithItem(c, it), [])
    {
      var p := Block(l, [it]);
      JustOne(it);
      JustWith(c, it);
      LastParses(p);
    }
    assert forall it <- [From(f), Into(f), Onto(f)] ::
      [Sym('(')] + a + [Sym(')')] + ItemToks(it) == [Sym('(')] + a + ([Sym(')')] + ItemToks(it));
    assert [From(f), Into(f), Onto(f)][0] == From(f) && [From(f), Into(f), Onto(f)][1] == Into(f);
    assert [From(f), Into(f), Onto(f)][2] == Onto(f);
    assert [Sym(')')] + ItemToks(From(f)) == [Sym(')'), Sym('<'), Word(f)];
    assert [Sym(')')] + ItemToks(Into(f)) == [Sym(')'), Sym('>'), Word(f)];
    assert [Sym(')')] + ItemToks(Onto(f)) == [Sym(')'), Append, Word(f)];
  }

  /** Up to nine words are a command; ten are too many. */
  lemma WordsAlone(ws: seq<string>)
    ensures ParseLine(Words(ws)) == if |ws| < 10 then Ok(Exec(ws), []) else Fail
  {
    hide ParseLine, Words, ParseExec;
    ArgsToks(ws);
    if |ws| < 10 {
      LastParses(Simple(ArgItems(ws)));
      WithArgs([], ws);
      assert [] + ws == ws;
    } else {
      TooMany(ws, []);
      assert Words(ws)[0] == Word(ws[0]);
      SimpleParse(Words(ws));
      ExecFails(Words(ws));
    }
  }

  lemma ExecFails(ts: seq<Token>)
    requires ParseExec(ts) == Fail
    ensures ParseLine(ts) == Fail
  {
    hide ParseExec;
    assert ParsePipe(ts) == Fail;
  }

  lemma {:induction false} TooMany(ws: seq<string>, argv: seq<string>)
    requires |argv| < 10 <= |argv| + |ws|
    ensures Rest(Words(ws), argv, []) == Fail
    decreases |ws|
  {
    hide ExecLoop, ParseRedirs;
    var ts: seq<Token>, none: seq<Redirection> := Words(ws), [];
    assert ts == [Word(ws[0])] + Words(ws[1..]) && none + none == none;
    NoRedirs(ts);
    if |argv| + 1 < 10 {
      RestArg(ws[0], Words(ws[1..]), argv, []);
      TooMany(ws[1..], argv + [ws[0]]);
    } else {
      ExecRound(ts, argv, []);
    }
  }

  // ---- '>>' is another way to write '>' ----

  /** Some of the `>>` tokens replaced by `>`. */
  predicate Same(ts: seq<Token>, us: seq<Token>) {
    |ts| == |us| && forall k :: 0 <= k < |ts| ==> us[k] == ts[k] || (ts[k] == Append && us[k] == Sym('>'))
  }

  predicate SameParsed(p: Parsed, q: Parsed) {
    if p.Ok? then q.Ok? && q.cmd == p.cmd && Same(p.rest, q.rest) else q.Fail?
  }

  lemma SameHead(ts: seq<Token>, us: seq<Token>)
    requires Same(ts, us)
    ensures AtRedir(ts) == AtRedir(us)
    ensures forall syms: string :: '>' !in syms ==> At(ts, syms) == At(us, syms)
    ensures ts != [] ==> Same(ts[1..], us[1..]) && ts[0].Word? == us[0].Word? && (ts[0].Word? ==> us[0] == ts[0])
  {
  }

  lemma {:induction false} SameRedirs(ts: seq<Token>, us: seq<Token>)
    requires Same(ts, us)
    ensures ParseRedirs(ts).Some? == ParseRedirs(us).Some?
    ensures ParseRedirs(ts).Some? ==> ParseRedirs(us).redirs == ParseRedirs(ts).redirs
    ensures ParseRedirs(ts).Some? ==> Same(ParseRedirs(ts).rest, ParseRedirs(us).rest)
    decreases |ts|
  {
    SameHead(ts, us);
    if AtRedir(ts) && |ts| >= 2 {
      SameHead(ts[1..], us[1..]);
      assert ts[1..][1..] == ts[2..] && us[1..][1..] == us[2..] && ts[1..][0] == ts[1] && us[1..][0] == us[1];
      SameRedirs(ts[2..], us[2..]);
    }
  }

  lemma {:induction false} SameLoop(ts: seq<Token>, us: seq<Token>, argv: seq<string>, rs: seq<Redirection>)
    requires Same(ts, us)
    ensures SameParsed(ExecLoop(ts, argv, rs), ExecLoop(us, argv, rs))
    decreases |ts|
  {
    hide ParseRedirs, Wrap, AtRedir;
    SameHead(ts, us);
    if ts != [] && !At(ts, "|)&;") && ts[0].Word? && |argv| + 1 < MAXARGS {
      SameRedirs(ts[1..], us[1..]);
      var p, q := ParseRedirs(ts[1..]), ParseRedirs(us[1..]);
      if p.Some? { SameLoop(p.rest, q.rest, argv + [ts[0].w], rs + p.redirs); }
    }
  }

  lemma {:induction false} SameExec(ts: seq<Token>, us: seq<Token>)
    requires Same(ts, us)
    ensures SameParsed(ParseExec(ts), ParseExec(us))
    decreases |ts|, 0
  {
    hide ParseRedirs, Wrap, ExecLoop, ParseLine, AtRedir;
    SameHead(ts, us);
    if At(ts, "(") {
      SameLine(ts[1..], us[1..]);
      var p, q := ParseLine(ts[1..]), ParseLine(us[1..]);
      if p.Ok? {
        SameHead(p.rest, q.rest);
        if At(p.rest, ")") { SameRedirs(p.rest[1..], q.rest[1..]); }
      }
    } else {
      SameRedirs(ts, us);
      var p, q := ParseRedirs(ts), ParseRedirs(us);
      if p.Some? { SameLoop(p.rest, q.rest, [], p.redirs); }
    }
  }

  lemma {:induction false} SamePipe(ts: seq<Token>, us: seq<Token>)
    requires Same(ts, us)
    ensures SameParsed(ParsePipe(ts), ParsePipe(us))
    decreases |ts|, 1
  {
    hide ParseExec, AtRedir;
    SameExec(ts, us);
    var p, q := ParseExec(ts), ParseExec(us);
    if p.Ok? {
      SameHead(p.rest, q.rest);
      if At(p.rest, "|") { SamePipe(p.rest[1..], q.rest[1..]); }
    }
  }

  lemma {:induction false} SameAmps(c: Cmd<string>, ts: seq<Token>, us: seq<Token>)
    requires Same(ts, us)
    ensures SameParsed(Amps(c, ts), Amps(c, us))
    decreases |ts|
  {
    SameHead(ts, us);
    if At(ts, "&") { SameAmps(Back(c), ts[1..], us[1..]); }
  }

  lemma {:induction false} SameLine(ts: seq<Token>, us: seq<Token>)
    requires Same(ts, us)
    ensures SameParsed(ParseLine(ts), ParseLine(us))
    decreases |ts|, 2
  {
    hide ParsePipe, Amps, AtRedir;
    SamePipe(ts, us);
    var p, q := ParsePipe(ts), ParsePipe(us);
    if p.Ok? {
      SameAmps(p.cmd, p.rest, q.rest);
      var a, b := Amps(p.cmd, p.rest), Amps(p.cmd, q.rest);
      SameHead(a.rest, b.rest);
      if At(a.rest, ";") { SameLine(a.rest[1..], b.rest[1..]); }
    }
  }

  /** Writing `>` for `>>` anywhere in a line, right or wrong, changes nothing:
      the file is not appended to. */
  lemma AppendIsInto(ts: seq<Token>, i: nat)
    requires i < |ts| && ts[i] == Append
    ensures ParseLine(ts).Ok? <==> ParseLine(ts[i := Sym('>')]).Ok?
    ensures ParseLine(ts).Ok? ==> ParseLine(ts[i := Sym('>')]).cmd == ParseLine(ts).cmd
    ensures ParseLine(ts).Ok? ==> |ParseLine(ts[i := Sym('>')]).rest| == |ParseLine(ts).rest|
  {
    hide ParseLine;
    SameLine(ts, ts[i := Sym('>')]);
  }

  // ---- what each character means ----

  lemma LexBlank(c: char, s: string)
    requires c in " \t\r\n\U{0b}"
    ensures Lex([c] + s) == Lex(s)
  {
    assert ([c] + s)[1..] == s && Skip([c] + s) == Skip(s);
  }

  lemma LexEnd(s: string)
    ensures Lex("") == [] && Lex("\0" + s) == []
  {
    assert Skip("\0" + s) == "\0" + s;
  }

  lemma LexSymbol(c: char, s: string)
    requires c in "<|&;()" || (c == '>' && (s == "" || s[0] != '>'))
    ensures Lex([c] + s) == [Sym(c)] + Lex(s)
  {
    assert ([c] + s)[1..] == s && Skip([c] + s) == [c] + s;
    assert |[c] + s| > 1 ==> ([c] + s)[1] == s[0];
  }

  lemma LexAppend(s: string)
    ensures Lex(">>" + s) == [Append] + Lex(s)
  {
    assert (">>" + s)[2..] == s && Skip(">>" + s) == ">>" + s;
  }

  /** A longest run of other characters is a word. */
  lemma LexWord(w: string, s: string)
    requires w != "" && forall c <- w :: c !in " \t\r\n\U{0b}" && c !in "<|>&;()" && c != '\0'
    requires s == "" || s[0] in " \t\r\n\U{0b}" || s[0] in "<|>&;()" || s[0] == '\0'
    ensures Lex(w + s) == [Word(w)] + Lex(s)
  {
    WordLenIs(w, s);
    assert (w + s)[0] == w[0] && (w + s)[..|w|] == w && (w + s)[|w|..] == s && Skip(w + s) == w + s;
  }
}
