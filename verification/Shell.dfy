/**
  * The grammar of user/sh.c: tokens, the parser as a function of the token sequence, and the
  * printer that puts parentheses only where they are needed.
  */
module Shell {
  const MAXARGS := 10

  /** A word, or one of the codes gettoken returns for symbols; '+' stands for >>. */
  datatype Token = Word(w: string) | Sym(c: char)

  datatype Cmd = Exec(argv: seq<string>)
               | Redir(cmd: Cmd, file: string, op: char)
               | Pipe(left: Cmd, right: Cmd)
               | List(left: Cmd, right: Cmd)
               | Back(cmd: Cmd)

  // Tokens of a string

  /** The end of a C string; the strings here are what comes before it. */
  const NUL := 0 as char

  predicate White(c: char) {
    c == ' ' || c == '\t' || c == '\r' || c == '\n' || c == 11 as char
  }

  predicate Symbol(c: char) {
    c == '<' || c == '|' || c == '>' || c == '&' || c == ';' || c == '(' || c == ')'
  }

  predicate WordChar(c: char) {
    !White(c) && !Symbol(c)
  }

  /** The end of the run of word characters from i. */
  function WordEnd(s: string, i: int): (e: int)
    requires 0 <= i <= |s|
    ensures i <= e <= |s| && (forall k | i <= k < e :: WordChar(s[k])) && (e < |s| ==> !WordChar(s[e]))
    ensures i < |s| && WordChar(s[i]) ==> i < e
    decreases |s| - i
  {
    if i < |s| && WordChar(s[i]) then WordEnd(s, i + 1) else i
  }

  /** The first place from i on that is not white space. */
  function Skip(s: string, i: int): (j: int)
    requires 0 <= i <= |s|
    ensures i <= j <= |s| && (j < |s| ==> !White(s[j]))
    decreases |s| - i
  {
    if i < |s| && White(s[i]) then Skip(s, i + 1) else i
  }

  /** The token that starts at i. */
  function TokenAt(s: string, i: int): Token
    requires 0 <= i < |s|
  {
    if s[i] == '>' && i + 1 < |s| && s[i + 1] == '>' then Sym('+')
    else if Symbol(s[i]) then Sym(s[i])
    else Word(s[i..WordEnd(s, i)])
  }

  function TokenEnd(s: string, i: int): (e: int)
    requires 0 <= i < |s|
    ensures i <= e <= |s| && (!White(s[i]) ==> i < e)
  {
    if s[i] == '>' && i + 1 < |s| && s[i + 1] == '>' then i + 2
    else if Symbol(s[i]) then i + 1
    else WordEnd(s, i)
  }

  /** The tokens of s from i on. */
  function Lex(s: string, i: int): seq<Token>
    requires 0 <= i <= |s|
    decreases |s| - i
  {
    var j := Skip(s, i);
    if j == |s| then [] else [TokenAt(s, j)] + Lex(s, TokenEnd(s, j))
  }

  // The parser, on tokens

  datatype Redirection = Redirection(file: string, op: char)

  datatype Res = Ok(cmd: Cmd, rest: seq<Token>) | Err
  datatype RedirRes = GotRedirs(redirs: seq<Redirection>, after: seq<Token>) | NoFile
  datatype ArgsRes = GotArgs(args: seq<string>, redirs: seq<Redirection>, after: seq<Token>) | BadArgs

  predicate At(toks: seq<Token>, c: char) {
    |toks| > 0 && toks[0] == Sym(c)
  }

  predicate AtRedir(toks: seq<Token>) {
    At(toks, '<') || At(toks, '>') || At(toks, '+')
  }

  predicate AtStop(toks: seq<Token>) {
    toks == [] || At(toks, '|') || At(toks, ')') || At(toks, '&') || At(toks, ';')
  }

  function Wrap(c: Cmd, rs: seq<Redirection>): Cmd {
    if rs == [] then c else Redir(Wrap(c, rs[..|rs| - 1]), rs[|rs| - 1].file, rs[|rs| - 1].op)
  }

  /** parseredirs: each redirection symbol must be followed by a word. */
  function TakeRedirs(toks: seq<Token>): (r: RedirRes)
    ensures r.GotRedirs? ==> |r.after| <= |toks| && !AtRedir(r.after)
    ensures !AtRedir(toks) ==> r == GotRedirs([], toks)
  {
    if !AtRedir(toks) then GotRedirs([], toks)
    else if |toks| < 2 || !toks[1].Word? then NoFile
    else
      var r := TakeRedirs(toks[2..]);
      if r.NoFile? then r else r.(redirs := [Redirection(toks[1].w, toks[0].c)] + r.redirs)
  }

  /** The loop of parseexec, with what it has collected so far. */
  function TakeArgs(toks: seq<Token>, args: seq<string>, rs: seq<Redirection>): (r: ArgsRes)
    ensures r.GotArgs? ==> |r.after| <= |toks| && AtStop(r.after)
    decreases |toks|
  {
    if AtStop(toks) then GotArgs(args, rs, toks)
    else if !toks[0].Word? || |args| + 1 >= MAXARGS then BadArgs
    else
      var r := TakeRedirs(toks[1..]);
      if r.NoFile? then BadArgs else TakeArgs(r.after, args + [toks[0].w], rs + r.redirs)
  }

  function ParseExec(toks: seq<Token>): (r: Res)
    ensures r.Ok? ==> |r.rest| <= |toks|
    decreases |toks|, 0
  {
    if At(toks, '(') then
      var b := ParseLine(toks[1..]);
      if b.Err? || !At(b.rest, ')') then Err
      else
        var r := TakeRedirs(b.rest[1..]);
        if r.NoFile? then Err else Ok(Wrap(b.cmd, r.redirs), r.after)
    else
      var r := TakeRedirs(toks);
      if r.NoFile? then Err
      else
        var a := TakeArgs(r.after, [], r.redirs);
        if a.BadArgs? then Err else Ok(Wrap(Exec(a.args), a.redirs), a.after)
  }

  function ParsePipe(toks: seq<Token>): (r: Res)
    ensures r.Ok? ==> |r.rest| <= |toks|
    decreases |toks|, 1
  {
    var l := ParseExec(toks);
    if l.Err? || !At(l.rest, '|') then l
    else
      var r := ParsePipe(l.rest[1..]);
      if r.Err? then Err else Ok(Pipe(l.cmd, r.cmd), r.rest)
  }

  /** The loop of parseline over & symbols. */
  function TakeAmps(c: Cmd, toks: seq<Token>): (r: (Cmd, seq<Token>))
    ensures |r.1| <= |toks| && !At(r.1, '&')
    decreases |toks|
  {
    if At(toks, '&') then TakeAmps(Back(c), toks[1..]) else (c, toks)
  }

  function ParseLine(toks: seq<Token>): (r: Res)
    ensures r.Ok? ==> |r.rest| <= |toks|
    decreases |toks|, 2
  {
    var p := ParsePipe(toks);
    if p.Err? then Err
    else
      var (c, rest) := TakeAmps(p.cmd, p.rest);
      if !At(rest, ';') then Ok(c, rest)
      else
        var r := ParseLine(rest[1..]);
        if r.Err? then Err else Ok(List(c, r.cmd), r.rest)
  }

  /** parsecmd: a line and nothing after it. */
  function Parse(s: string): Res {
    var r := ParseLine(Lex(s, 0));
    if r.Ok? && r.rest == [] then r else Err
  }

  // The printer

  /** Which level of the grammar produces a command without parentheses. */
  function Level(c: Cmd): int {
    match c
    case Exec(_) => 0
    case Redir(_, _, _) => 0
    case Pipe(_, _) => 1
    case Back(_) => 2
    case List(_, _) => 3
  }

  function Words(args: seq<string>): seq<Token> {
    seq(|args|, i requires 0 <= i < |args| => Word(args[i]))
  }

  /** The tokens of a command where the grammar asks for this level. */
  function Toks(c: Cmd, level: int): seq<Token>
    decreases c, 1
  {
    if Level(c) <= level then Body(c) else [Sym('(')] + Body(c) + [Sym(')')]
  }

  function Body(c: Cmd): seq<Token>
    decreases c, 0
  {
    match c
    case Exec(args) => Words(args)
    case Redir(d, file, op) => Toks(d, 0) + [Sym(op), Word(file)]
    case Pipe(l, r) => Toks(l, 0) + [Sym('|')] + Toks(r, 1)
    case Back(d) => Toks(d, 2) + [Sym('&')]
    case List(l, r) => Toks(l, 2) + [Sym(';')] + Toks(r, 3)
  }

  /** A word that can stand in a C string. */
  predicate LegalWord(w: string) {
    w != "" && NUL !in w && forall i | 0 <= i < |w| :: WordChar(w[i])
  }

  /** Words the shell can spell, redirections it knows, and no more arguments than it takes. */
  predicate Legal(c: Cmd) {
    match c
    case Exec(args) => |args| < MAXARGS && forall i | 0 <= i < |args| :: LegalWord(args[i])
    case Redir(d, file, op) => Legal(d) && LegalWord(file) && (op == '<' || op == '>' || op == '+')
    case Pipe(l, r) => Legal(l) && Legal(r)
    case Back(d) => Legal(d)
    case List(l, r) => Legal(l) && Legal(r)
  }

  // Parsing what was printed

  /** What may follow a command parsed at a level. */
  predicate Follows(toks: seq<Token>, level: int) {
    && AtStop(toks)
    && (level >= 1 ==> !At(toks, '|'))
    && (level >= 3 ==> !At(toks, '&') && !At(toks, ';'))
  }

  /** The command under a chain of redirections, and the chain. */
  function Core(c: Cmd): (r: Cmd)
    ensures !r.Redir? && (Legal(c) ==> Legal(r))
  {
    if c.Redir? then Core(c.cmd) else c
  }

  function Chain(c: Cmd): seq<Redirection> {
    if c.Redir? then Chain(c.cmd) + [Redirection(c.file, c.op)] else []
  }

  function RedirToks(rs: seq<Redirection>): seq<Token> {
    if rs == [] then [] else RedirToks(rs[..|rs| - 1]) + [Sym(rs[|rs| - 1].op), Word(rs[|rs| - 1].file)]
  }

  predicate LegalChain(rs: seq<Redirection>) {
    forall i | 0 <= i < |rs| :: rs[i].op == '<' || rs[i].op == '>' || rs[i].op == '+'
  }

  lemma {:induction false} ChainWraps(c: Cmd)
    requires Legal(c)
    ensures c == Wrap(Core(c), Chain(c)) && LegalChain(Chain(c))
    ensures Toks(c, 0) == Toks(Core(c), 0) + RedirToks(Chain(c))
    decreases c
  {
    if c.Redir? {
      ChainWraps(c.cmd);
      var rs := Chain(c);
      assert rs[..|rs| - 1] == Chain(c.cmd);
    }
  }

  lemma {:induction false} RedirToksSplit(rs: seq<Redirection>)
    requires |rs| > 0
    ensures RedirToks(rs) == [Sym(rs[0].op), Word(rs[0].file)] + RedirToks(rs[1..])
    decreases |rs|
  {
    if |rs| > 1 {
      RedirToksSplit(rs[..|rs| - 1]);
      assert rs[1..][..|rs| - 2] == rs[..|rs| - 1][1..];
    }
  }

  lemma RedirStep(toks: seq<Token>, op: char, file: string, tail: seq<Token>)
    requires (op == '<' || op == '>' || op == '+') && toks == [Sym(op), Word(file)] + tail
    ensures var r := TakeRedirs(tail);
            TakeRedirs(toks) == if r.NoFile? then r else GotRedirs([Redirection(file, op)] + r.redirs, r.after)
  {
    assert toks[2..] == tail;
  }

  lemma {:induction false} TakesRedirs(rs: seq<Redirection>, rest: seq<Token>)
    requires LegalChain(rs) && !AtRedir(rest)
    ensures TakeRedirs(RedirToks(rs) + rest) == GotRedirs(rs, rest)
    decreases |rs|
  {
    if rs == [] {
      assert RedirToks(rs) + rest == rest;
    } else {
      RedirToksSplit(rs);
      var tail := RedirToks(rs[1..]) + rest;
      assert RedirToks(rs) + rest == [Sym(rs[0].op), Word(rs[0].file)] + tail;
      TakesRedirs(rs[1..], rest);
      RedirStep(RedirToks(rs) + rest, rs[0].op, rs[0].file, tail);
      assert [rs[0]] + rs[1..] == rs;
    }
  }

  lemma ArgStep(toks: seq<Token>, w: string, tail: seq<Token>, args: seq<string>, rs: seq<Redirection>, r: RedirRes)
    requires toks == [Word(w)] + tail && |args| + 1 < MAXARGS && r == TakeRedirs(tail)
    ensures TakeArgs(toks, args, rs) == if r.NoFile? then BadArgs else TakeArgs(r.after, args + [w], rs + r.redirs)
  {
    assert toks[1..] == tail;
  }

  lemma WordStep(toks: seq<Token>, w: string, tail: seq<Token>, args: seq<string>, rs: seq<Redirection>,
                 after: seq<Token>)
    requires toks == [Word(w)] + tail && |args| + 1 < MAXARGS && TakeRedirs(tail) == GotRedirs(rs, after)
    ensures TakeArgs(toks, args, []) == TakeArgs(after, args + [w], rs)
  {
    ArgStep(toks, w, tail, args, [], GotRedirs(rs, after));
    assert [] + rs == rs;
  }

  lemma WordsTail(more: seq<string>, x: seq<Token>)
    requires more != []
    ensures Words(more) + x == [Word(more[0])] + (Words(more[1..]) + x)
  {
  }

  lemma FirstMoves(args: seq<string>, more: seq<string>)
    requires more != []
    ensures args + [more[0]] + more[1..] == args + more
  {
  }

  lemma Regroup(a: seq<Token>, b: seq<Token>, c: seq<Token>)
    ensures (a + b) + c == a + (b + c)
  {
  }

  /** The arguments still to come, and then a chain of redirections. */
  lemma {:induction false} TakesArgs(args: seq<string>, rs: seq<Redirection>, more: seq<string>, rest: seq<Token>,
                                     x: seq<Token>)
    requires |args| + |more| < MAXARGS && more != [] && LegalChain(rs) && AtStop(rest) && x == RedirToks(rs) + rest
    ensures TakeArgs(Words(more) + x, args, []) == GotArgs(args + more, rs, rest)
    decreases |more|
  {
    var w, tail := more[0], Words(more[1..]) + x;
    WordsTail(more, x);
    if |more| == 1 {
      assert tail == x;
      TakesRedirs(rs, rest);
      WordStep(Words(more) + x, w, tail, args, rs, rest);
      assert more == [w];
    } else {
      assert tail[0] == Word(more[1]);
      WordStep(Words(more) + x, w, tail, args, [], tail);
      TakesArgs(args + [w], rs, more[1..], rest, x);
      FirstMoves(args, more);
    }
  }

  lemma PlainUnfolds(toks: seq<Token>, rs0: seq<Redirection>, after: seq<Token>, args: seq<string>,
                     rs: seq<Redirection>, rest: seq<Token>)
    requires !At(toks, '(') && TakeRedirs(toks) == GotRedirs(rs0, after)
    requires TakeArgs(after, [], rs0) == GotArgs(args, rs, rest)
    ensures ParseExec(toks) == Ok(Wrap(Exec(args), rs), rest)
  {
  }

  lemma ParsesPlain(args: seq<string>, rs: seq<Redirection>, rest: seq<Token>, toks: seq<Token>)
    requires |args| < MAXARGS && LegalChain(rs) && AtStop(rest) && toks == Words(args) + (RedirToks(rs) + rest)
    ensures ParseExec(toks) == Ok(Wrap(Exec(args), rs), rest)
  {
    if args == [] {
      assert toks == RedirToks(rs) + rest;
      if rs != [] {
        RedirToksSplit(rs);
      }
      TakesRedirs(rs, rest);
      PlainUnfolds(toks, rs, rest, [], rs, rest);
    } else {
      assert toks[0] == Word(args[0]);
      TakesArgs([], rs, args, rest, RedirToks(rs) + rest);
      assert [] + args == args;
      PlainUnfolds(toks, [], toks, args, rs, rest);
    }
  }

  lemma BlockUnfolds(toks: seq<Token>, d: Cmd, tail: seq<Token>, rs: seq<Redirection>, rest: seq<Token>)
    requires At(toks, '(') && ParseLine(toks[1..]) == Ok(d, [Sym(')')] + tail)
    requires TakeRedirs(tail) == GotRedirs(rs, rest)
    ensures ParseExec(toks) == Ok(Wrap(d, rs), rest)
  {
    assert ([Sym(')')] + tail)[1..] == tail;
  }

  /** How far a command is from the level that produces it, going down the grammar and round through a block. */
  function Steps(level: int, c: Cmd): int {
    if level >= Level(c) then level - Level(c) else level + 4 - Level(c)
  }

  /** The first half of parseline, up to its test for a semicolon. */
  ghost predicate ParsesAmps(c: Cmd, rest: seq<Token>) {
    var p := ParsePipe(Toks(c, 2) + rest);
    p.Ok? && TakeAmps(p.cmd, p.rest) == TakeAmps(c, rest)
  }

  lemma {:induction false} ParsesExec(c: Cmd, rest: seq<Token>)
    requires Legal(c) && Follows(rest, 0)
    ensures ParseExec(Toks(c, 0) + rest) == Ok(c, rest)
    decreases c, Steps(0, c), 1
  {
    ChainWraps(c);
    var d, rs := Core(c), Chain(c);
    var tail, toks := RedirToks(rs) + rest, Toks(c, 0) + rest;
    Regroup(Toks(d, 0), RedirToks(rs), rest);
    if d.Exec? {
      ParsesPlain(d.argv, rs, rest, toks);
    } else {
      ParsesBlock(c, d, tail, toks);
      TakesRedirs(rs, rest);
      BlockUnfolds(toks, d, tail, rs, rest);
    }
  }

  lemma {:induction false} ParsesBlock(c: Cmd, d: Cmd, tail: seq<Token>, toks: seq<Token>)
    requires Legal(c) && d == Core(c) && !d.Exec? && toks == Toks(d, 0) + tail
    ensures At(toks, '(') && ParseLine(toks[1..]) == Ok(d, [Sym(')')] + tail)
    decreases c, Steps(0, c), 0
  {
    var close := [Sym(')')] + tail;
    assert Toks(d, 3) == Body(d);
    assert toks[1..] == Body(d) + close;
    CoreSmaller(c);
    ParsesLine(d, close);
  }

  lemma {:induction false} CoreSmaller(c: Cmd)
    ensures Core(c) == c || Core(c) < c
    decreases c
  {
    if c.Redir? {
      CoreSmaller(c.cmd);
    }
  }

  lemma {:induction false} ParsesPipe(c: Cmd, rest: seq<Token>)
    requires Legal(c) && Follows(rest, 1)
    ensures ParsePipe(Toks(c, 1) + rest) == Ok(c, rest)
    decreases c, Steps(1, c), 1
  {
    if c.Pipe? {
      var tail := [Sym('|')] + (Toks(c.right, 1) + rest);
      assert Toks(c, 1) + rest == Toks(c.left, 0) + tail;
      ParsesExec(c.left, tail);
      assert tail[1..] == Toks(c.right, 1) + rest;
      ParsesPipe(c.right, rest);
    } else {
      assert Toks(c, 1) == Toks(c, 0);
      ParsesExec(c, rest);
    }
  }

  lemma {:induction false} ParsesBackground(c: Cmd, rest: seq<Token>)
    requires Legal(c) && Follows(rest, 2)
    ensures ParsesAmps(c, rest)
    decreases c, Steps(2, c), 1
  {
    if c.Back? {
      var tail := [Sym('&')] + rest;
      assert Toks(c, 2) + rest == Toks(c.cmd, 2) + tail;
      ParsesBackground(c.cmd, tail);
      assert tail[1..] == rest;
    } else {
      assert Toks(c, 2) == Toks(c, 1);
      ParsesPipe(c, rest);
    }
  }

  lemma {:induction false} ParsesLine(c: Cmd, rest: seq<Token>)
    requires Legal(c) && Follows(rest, 3)
    ensures ParseLine(Toks(c, 3) + rest) == Ok(c, rest)
    decreases c, Steps(3, c), 1
  {
    if c.List? {
      var tail := [Sym(';')] + (Toks(c.right, 3) + rest);
      assert Toks(c, 3) + rest == Toks(c.left, 2) + tail;
      ParsesBackground(c.left, tail);
      assert tail[1..] == Toks(c.right, 3) + rest;
      ParsesLine(c.right, rest);
    } else {
      assert Toks(c, 3) == Toks(c, 2);
      ParsesBackground(c, rest);
    }
  }

  /** Any spelling of a command's tokens parses to that command. */
  lemma ParsesSpelling(c: Cmd, s: string)
    requires Legal(c) && Lex(s, 0) == Toks(c, 3)
    ensures Parse(s) == Ok(c, [])
  {
    ParsesLine(c, []);
    assert Toks(c, 3) + [] == Toks(c, 3);
  }

  // Spelling tokens out

  function Spell(t: Token): string {
    if t.Word? then t.w else if t.c == '+' then ">>" else [t.c]
  }

  function Render(toks: seq<Token>): string {
    if toks == [] then "" else Spell(toks[0]) + " " + Render(toks[1..])
  }

  predicate LegalToken(t: Token) {
    if t.Word? then LegalWord(t.w) else Symbol(t.c) || t.c == '+'
  }

  ghost predicate SameAt(t: string, d: int, s: string, k: int) {
    0 <= k < |s| && 0 <= d && |t| == d + |s| ==> t[d + k] == s[k]
  }

  /** t ends with s, from place d on. */
  ghost predicate EndsWith(t: string, d: int, s: string) {
    0 <= d && |t| == d + |s| && forall k :: SameAt(t, d, s, k)
  }

  lemma {:induction false} WordEndShift(t: string, d: int, s: string, i: int)
    requires EndsWith(t, d, s) && 0 <= i <= |s|
    ensures WordEnd(t, d + i) == d + WordEnd(s, i)
    decreases |s| - i
  {
    if i < |s| {
      assert SameAt(t, d, s, i);
      if WordChar(s[i]) {
        WordEndShift(t, d, s, i + 1);
      }
    }
  }

  lemma {:induction false} SkipShift(t: string, d: int, s: string, i: int)
    requires EndsWith(t, d, s) && 0 <= i <= |s|
    ensures Skip(t, d + i) == d + Skip(s, i)
    decreases |s| - i
  {
    if i < |s| {
      assert SameAt(t, d, s, i);
      if White(s[i]) {
        SkipShift(t, d, s, i + 1);
      }
    }
  }

  lemma SliceShift(t: string, d: int, s: string, i: int, e: int)
    requires EndsWith(t, d, s) && 0 <= i <= e <= |s|
    ensures t[d + i..d + e] == s[i..e]
  {
    forall k | i <= k < e ensures t[d + k] == s[k] {
      assert SameAt(t, d, s, k);
    }
  }

  lemma TokenShift(t: string, d: int, s: string, i: int)
    requires EndsWith(t, d, s) && 0 <= i < |s|
    ensures TokenAt(t, d + i) == TokenAt(s, i) && TokenEnd(t, d + i) == d + TokenEnd(s, i)
  {
    assert SameAt(t, d, s, i) && SameAt(t, d, s, i + 1);
    WordEndShift(t, d, s, i);
    SliceShift(t, d, s, i, WordEnd(s, i));
  }

  /** Tokens from i on depend only on the characters from i on. */
  lemma {:induction false} LexShift(t: string, d: int, s: string, i: int)
    requires EndsWith(t, d, s) && 0 <= i <= |s|
    ensures Lex(t, d + i) == Lex(s, i)
    decreases |s| - i
  {
    SkipShift(t, d, s, i);
    var j := Skip(s, i);
    if j < |s| {
      TokenShift(t, d, s, j);
      LexShift(t, d, s, TokenEnd(s, j));
    }
  }

  lemma {:induction false} WordEndIs(s: string, i: int, e: int)
    requires 0 <= i <= e <= |s| && (forall k | i <= k < e :: WordChar(s[k])) && (e < |s| ==> !WordChar(s[e]))
    ensures WordEnd(s, i) == e
    decreases e - i
  {
    if i < e {
      WordEndIs(s, i + 1, e);
    }
  }

  /** A token spelled out and followed by a space is read as that token. */
  lemma SpelledToken(t: Token, s: string, r: string)
    requires LegalToken(t) && r == Spell(t) + " " + s
    ensures |r| > |Spell(t)| > 0 && r[|Spell(t)|] == ' '
    ensures !White(r[0]) && TokenAt(r, 0) == t && TokenEnd(r, 0) == |Spell(t)|
  {
    if t.Word? {
      assert forall k | 0 <= k < |t.w| :: r[k] == t.w[k];
      WordEndIs(r, 0, |t.w|);
      assert r[0..|t.w|] == t.w;
    }
  }

  lemma LexOne(t: Token, s: string)
    requires LegalToken(t)
    ensures Lex(Spell(t) + " " + s, 0) == [t] + Lex(s, 0)
  {
    var a := Spell(t) + " ";
    var r := a + s;
    SpelledToken(t, s, r);
    forall k ensures SameAt(r, |a|, s, k) {
    }
    LexShift(r, |a|, s, 0);
    assert Skip(r, |a| - 1) == Skip(r, |a|);
  }

  ghost predicate AllLegal(toks: seq<Token>) {
    forall i | 0 <= i < |toks| :: LegalToken(toks[i])
  }

  lemma {:induction false} LexRender(toks: seq<Token>)
    requires AllLegal(toks)
    ensures Lex(Render(toks), 0) == toks
    decreases |toks|
  {
    if toks != [] {
      LexOne(toks[0], Render(toks[1..]));
      LexRender(toks[1..]);
      assert [toks[0]] + toks[1..] == toks;
    }
  }

  lemma {:induction false} LegalToks(c: Cmd, level: int)
    requires Legal(c)
    ensures AllLegal(Toks(c, level))
    decreases c
  {
    match c
    case Exec(args) =>
    case Redir(d, file, op) =>
      LegalToks(d, 0);
      assert LegalToken(Sym(op)) && LegalToken(Word(file));
    case Pipe(l, r) => LegalToks(l, 0); LegalToks(r, 1);
    case Back(d) => LegalToks(d, 2);
    case List(l, r) => LegalToks(l, 2); LegalToks(r, 3);
  }

  /** The printout of a command, with no more parentheses than the grammar needs. */
  function Print(c: Cmd): string {
    Render(Toks(c, 3))
  }

  lemma {:induction false} RenderNoNul(toks: seq<Token>)
    requires AllLegal(toks)
    ensures NUL !in Render(toks)
    decreases |toks|
  {
    if toks != [] {
      assert LegalToken(toks[0]) && NUL !in Spell(toks[0]);
      RenderNoNul(toks[1..]);
    }
  }

  /** Printing a command gives a C string, and parsing it gives the command back. */
  lemma RoundTrip(c: Cmd)
    requires Legal(c)
    ensures NUL !in Print(c) && Parse(Print(c)) == Ok(c, [])
  {
    LegalToks(c, 3);
    LexRender(Toks(c, 3));
    RenderNoNul(Toks(c, 3));
    ParsesSpelling(c, Print(c));
  }

  // What the parser returns can be printed

  lemma {:induction false} LexLegal(s: string, i: int)
    requires 0 <= i <= |s| && NUL !in s
    ensures AllLegal(Lex(s, i))
    decreases |s| - i
  {
    var j := Skip(s, i);
    if j < |s| {
      LexLegal(s, TokenEnd(s, j));
    }
  }

  ghost predicate LegalRedirs(rs: seq<Redirection>) {
    LegalChain(rs) && forall i | 0 <= i < |rs| :: LegalWord(rs[i].file)
  }

  lemma {:induction false} RedirsLegal(toks: seq<Token>)
    requires AllLegal(toks)
    ensures var r := TakeRedirs(toks); r.GotRedirs? ==> LegalRedirs(r.redirs) && AllLegal(r.after)
    decreases |toks|
  {
    if AtRedir(toks) && |toks| >= 2 {
      assert LegalToken(toks[0]) && LegalToken(toks[1]);
      RedirsLegal(toks[2..]);
    }
  }

  ghost predicate LegalArgs(args: seq<string>) {
    |args| < MAXARGS && forall i | 0 <= i < |args| :: LegalWord(args[i])
  }

  lemma {:induction false} ArgsLegal(toks: seq<Token>, args: seq<string>, rs: seq<Redirection>)
    requires AllLegal(toks) && LegalArgs(args) && LegalRedirs(rs)
    ensures var r := TakeArgs(toks, args, rs); r.GotArgs? ==>
            LegalArgs(r.args) && LegalRedirs(r.redirs) && AllLegal(r.after)
    decreases |toks|
  {
    if !AtStop(toks) && toks[0].Word? && |args| + 1 < MAXARGS {
      assert LegalToken(toks[0]);
      RedirsLegal(toks[1..]);
      var r := TakeRedirs(toks[1..]);
      if r.GotRedirs? {
        ArgsLegal(r.after, args + [toks[0].w], rs + r.redirs);
      }
    }
  }

  lemma {:induction false} WrapLegal(c: Cmd, rs: seq<Redirection>)
    requires Legal(c) && LegalRedirs(rs)
    ensures Legal(Wrap(c, rs))
    decreases |rs|
  {
    if rs != [] {
      WrapLegal(c, rs[..|rs| - 1]);
    }
  }

  lemma {:induction false} ExecLegal(toks: seq<Token>)
    requires AllLegal(toks)
    ensures var r := ParseExec(toks); r.Ok? ==> Legal(r.cmd) && AllLegal(r.rest)
    decreases |toks|, 0
  {
    if At(toks, '(') {
      LineLegal(toks[1..]);
      var b := ParseLine(toks[1..]);
      if b.Ok? && At(b.rest, ')') {
        RedirsLegal(b.rest[1..]);
        var r := TakeRedirs(b.rest[1..]);
        if r.GotRedirs? {
          WrapLegal(b.cmd, r.redirs);
        }
      }
    } else {
      PlainLegal(toks);
    }
  }

  lemma PlainLegal(toks: seq<Token>)
    requires AllLegal(toks) && !At(toks, '(')
    ensures var r := ParseExec(toks); r.Ok? ==> Legal(r.cmd) && AllLegal(r.rest)
  {
    RedirsLegal(toks);
    var r := TakeRedirs(toks);
    if r.GotRedirs? {
      ArgsLegal(r.after, [], r.redirs);
      var a := TakeArgs(r.after, [], r.redirs);
      if a.GotArgs? {
        WrapLegal(Exec(a.args), a.redirs);
      }
    }
  }

  lemma {:induction false} PipeLegal(toks: seq<Token>)
    requires AllLegal(toks)
    ensures var r := ParsePipe(toks); r.Ok? ==> Legal(r.cmd) && AllLegal(r.rest)
    decreases |toks|, 1
  {
    ExecLegal(toks);
    var l := ParseExec(toks);
    if l.Ok? && At(l.rest, '|') {
      PipeLegal(l.rest[1..]);
    }
  }

  lemma {:induction false} AmpsLegal(c: Cmd, toks: seq<Token>)
    requires Legal(c) && AllLegal(toks)
    ensures Legal(TakeAmps(c, toks).0) && AllLegal(TakeAmps(c, toks).1)
    decreases |toks|
  {
    if At(toks, '&') {
      AmpsLegal(Back(c), toks[1..]);
    }
  }

  lemma {:induction false} LineLegal(toks: seq<Token>)
    requires AllLegal(toks)
    ensures var r := ParseLine(toks); r.Ok? ==> Legal(r.cmd) && AllLegal(r.rest)
    decreases |toks|, 2
  {
    PipeLegal(toks);
    var p := ParsePipe(toks);
    if p.Ok? {
      AmpsLegal(p.cmd, p.rest);
      var (c, rest) := TakeAmps(p.cmd, p.rest);
      if At(rest, ';') {
        LineLegal(rest[1..]);
      }
    }
  }

  /** The commands the parser can return for C strings are exactly the legal ones. */
  lemma ParserRange(c: Cmd)
    ensures Legal(c) <==> exists s :: NUL !in s && Parse(s) == Ok(c, [])
  {
    if Legal(c) {
      RoundTrip(c);
    }
    forall s | NUL !in s && Parse(s) == Ok(c, []) ensures Legal(c) {
      LexLegal(s, 0);
      LineLegal(Lex(s, 0));
    }
  }

  // No spelling has fewer parentheses

  /** The number of opening parentheses. */
  function Opens(toks: seq<Token>): nat {
    if toks == [] then 0 else (if At(toks, '(') then 1 else 0) + Opens(toks[1..])
  }

  /** The parentheses of the printout. */
  function Cost(c: Cmd, level: int): nat
    decreases c
  {
    (if Level(c) <= level then 0 else 1) +
    match c
    case Exec(_) => 0
    case Redir(d, _, _) => Cost(d, 0)
    case Pipe(l, r) => Cost(l, 0) + Cost(r, 1)
    case Back(d) => Cost(d, 2)
    case List(l, r) => Cost(l, 2) + Cost(r, 3)
  }

  lemma {:induction false} OpensPlus(a: seq<Token>, b: seq<Token>)
    ensures Opens(a + b) == Opens(a) + Opens(b)
    decreases |a|
  {
    if a == [] {
      assert a + b == b;
    } else {
      OpensPlus(a[1..], b);
      assert (a + b)[1..] == a[1..] + b;
    }
  }

  lemma {:induction false} WordsOpen(args: seq<string>)
    ensures Opens(Words(args)) == 0
    decreases |args|
  {
    if args != [] {
      WordsOpen(args[1..]);
      assert Words(args)[1..] == Words(args[1..]);
    }
  }

  lemma {:induction false} OpensBody(c: Cmd)
    requires Legal(c)
    ensures Opens(Body(c)) == Cost(c, Level(c))
    decreases c, 0
  {
    match c
    case Exec(args) => WordsOpen(args);
    case Redir(d, file, op) =>
      OpensToks(d, 0);
      OpensAround(Toks(d, 0), Sym(op), [Word(file)]);
      assert Toks(d, 0) + [Sym(op)] + [Word(file)] == Body(c);
    case Pipe(l, r) =>
      OpensToks(l, 0);
      OpensToks(r, 1);
      OpensAround(Toks(l, 0), Sym('|'), Toks(r, 1));
    case Back(d) =>
      OpensToks(d, 2);
      OpensPlus(Toks(d, 2), [Sym('&')]);
    case List(l, r) =>
      OpensToks(l, 2);
      OpensToks(r, 3);
      OpensAround(Toks(l, 2), Sym(';'), Toks(r, 3));
  }

  lemma OpensAround(a: seq<Token>, t: Token, b: seq<Token>)
    requires t != Sym('(')
    ensures Opens(a + [t] + b) == Opens(a) + Opens(b)
  {
    OpensPlus(a, [t]);
    OpensPlus(a + [t], b);
  }

  lemma {:induction false} OpensToks(c: Cmd, level: int)
    requires Legal(c)
    ensures Opens(Toks(c, level)) == Cost(c, level)
    decreases c, 1
  {
    OpensBody(c);
    if Level(c) > level {
      OpensPlus([Sym('(')], Body(c));
      OpensPlus([Sym('(')] + Body(c), [Sym(')')]);
    }
  }

  lemma {:induction false} WrapCost(c: Cmd, rs: seq<Redirection>)
    ensures Cost(Wrap(c, rs), 0) == Cost(c, 0)
    decreases |rs|
  {
    if rs != [] {
      WrapCost(c, rs[..|rs| - 1]);
    }
  }

  lemma {:induction false} RedirsOpen(toks: seq<Token>)
    ensures var r := TakeRedirs(toks); r.GotRedirs? ==> Opens(r.after) <= Opens(toks)
    decreases |toks|
  {
    if AtRedir(toks) && |toks| >= 2 {
      RedirsOpen(toks[2..]);
      assert toks[1..][1..] == toks[2..];
    }
  }

  lemma {:induction false} ArgsOpen(toks: seq<Token>, args: seq<string>, rs: seq<Redirection>)
    ensures var r := TakeArgs(toks, args, rs); r.GotArgs? ==> Opens(r.after) <= Opens(toks)
    decreases |toks|
  {
    if !AtStop(toks) && toks[0].Word? && |args| + 1 < MAXARGS {
      RedirsOpen(toks[1..]);
      var r := TakeRedirs(toks[1..]);
      if r.GotRedirs? {
        ArgsOpen(r.after, args + [toks[0].w], rs + r.redirs);
      }
    }
  }

  lemma {:induction false} ExecOpens(toks: seq<Token>)
    ensures var r := ParseExec(toks); r.Ok? ==> Opens(toks) >= Cost(r.cmd, 0) + Opens(r.rest)
    decreases |toks|, 0
  {
    if At(toks, '(') {
      LineOpens(toks[1..]);
      var b := ParseLine(toks[1..]);
      if b.Ok? && At(b.rest, ')') {
        RedirsOpen(b.rest[1..]);
        var r := TakeRedirs(b.rest[1..]);
        if r.GotRedirs? {
          WrapCost(b.cmd, r.redirs);
        }
      }
    } else {
      RedirsOpen(toks);
      var r := TakeRedirs(toks);
      if r.GotRedirs? {
        ArgsOpen(r.after, [], r.redirs);
        var a := TakeArgs(r.after, [], r.redirs);
        if a.GotArgs? {
          WrapCost(Exec(a.args), a.redirs);
        }
      }
    }
  }

  lemma {:induction false} PipeOpens(toks: seq<Token>)
    ensures var r := ParsePipe(toks); r.Ok? ==> Opens(toks) >= Cost(r.cmd, 1) + Opens(r.rest)
    decreases |toks|, 1
  {
    ExecOpens(toks);
    var l := ParseExec(toks);
    if l.Ok? && At(l.rest, '|') {
      PipeOpens(l.rest[1..]);
    }
  }

  lemma {:induction false} AmpsOpen(c: Cmd, toks: seq<Token>)
    ensures var (d, rest) := TakeAmps(c, toks); Cost(d, 2) <= Cost(c, 2) && Opens(rest) <= Opens(toks)
    decreases |toks|
  {
    if At(toks, '&') {
      AmpsOpen(Back(c), toks[1..]);
    }
  }

  lemma {:induction false} LineOpens(toks: seq<Token>)
    ensures var r := ParseLine(toks); r.Ok? ==> Opens(toks) >= Cost(r.cmd, 3) + Opens(r.rest)
    decreases |toks|, 2
  {
    PipeOpens(toks);
    var p := ParsePipe(toks);
    if p.Ok? {
      AmpsOpen(p.cmd, p.rest);
      var (c, rest) := TakeAmps(p.cmd, p.rest);
      if At(rest, ';') {
        LineOpens(rest[1..]);
      }
    }
  }

  /** Whatever C string parses to a command has at least as many parentheses as its printout. */
  lemma PrintsFewest(c: Cmd, s: string)
    requires NUL !in s && Parse(s) == Ok(c, [])
    ensures Opens(Lex(Print(c), 0)) <= Opens(Lex(s, 0))
  {
    LexLegal(s, 0);
    LineLegal(Lex(s, 0));
    LineOpens(Lex(s, 0));
    LegalToks(c, 3);
    LexRender(Toks(c, 3));
    OpensToks(c, 3);
  }
}
