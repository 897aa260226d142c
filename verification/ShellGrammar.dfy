/**
  * The language of user/sh.c as a relation between texts and commands, without a parser: how a text
  * splits into tokens, and which token sequences stand for which command. A text is accepted by
  * parsecmd exactly if it stands for a command, and then for one only.
  */
module ShellGrammar {
  import opened Shell

  // Tokens

  predicate Blank(c: char) {
    c in " \t\r\n" || c == 11 as char
  }

  predicate Special(c: char) {
    c in "<|>&;()"
  }

  /** s[i..e] is the token t: a whole word, a symbol, or >>; a single > has no other behind it. */
  ghost predicate Piece(s: string, i: int, e: int, t: Token)
    requires 0 <= i <= e <= |s|
  {
    match t
    case Word(w) =>
      && i < e && w == s[i..e] && (forall k | i <= k < e :: !Blank(s[k]) && !Special(s[k]))
      && (e < |s| ==> Blank(s[e]) || Special(s[e]))
    case Sym(c) =>
      if c == '+' then e == i + 2 && s[i] == '>' && s[i + 1] == '>'
      else Special(c) && e == i + 1 && s[i] == c && (c == '>' && e < |s| ==> s[e] != '>')
  }

  /** From i on, s is the tokens with nothing but white space before, between and after them. */
  ghost predicate Splits(s: string, i: int, toks: seq<Token>)
    requires 0 <= i <= |s|
    decreases |toks|
  {
    if toks == [] then forall k | i <= k < |s| :: Blank(s[k])
    else exists j, e | i <= j < e <= |s| :: PieceAt(s, i, j, e, toks[0]) && Splits(s, e, toks[1..])
  }

  /** White space from i to j, then the token up to e. */
  ghost predicate PieceAt(s: string, i: int, j: int, e: int, t: Token)
    requires 0 <= i <= j < e <= |s|
  {
    (forall k | i <= k < j :: Blank(s[k])) && Piece(s, j, e, t)
  }

  lemma {:induction false} SkipIs(s: string, i: int, j: int)
    requires 0 <= i <= j <= |s| && (forall k | i <= k < j :: Blank(s[k])) && (j < |s| ==> !Blank(s[j]))
    ensures Skip(s, i) == j
    decreases j - i
  {
    if i < j {
      SkipIs(s, i + 1, j);
    }
  }

  lemma {:induction false} SkipsBlanks(s: string, i: int)
    requires 0 <= i <= |s|
    ensures forall k | i <= k < Skip(s, i) :: Blank(s[k])
    decreases |s| - i
  {
    if i < |s| && White(s[i]) {
      SkipsBlanks(s, i + 1);
    }
  }

  lemma PieceIs(s: string, i: int, e: int, t: Token)
    requires 0 <= i < e <= |s| && Piece(s, i, e, t)
    ensures !Blank(s[i]) && TokenAt(s, i) == t && TokenEnd(s, i) == e
  {
    if t.Word? {
      WordEndIs(s, i, e);
    }
  }

  /** The tokens gettoken finds are the only way to split the text. */
  lemma {:induction false} LexSplits(s: string, i: int)
    requires 0 <= i <= |s|
    ensures Splits(s, i, Lex(s, i))
    decreases |s| - i
  {
    SkipsBlanks(s, i);
    var j := Skip(s, i);
    if j < |s| {
      var e, l := TokenEnd(s, j), Lex(s, i);
      LexSplits(s, e);
      assert l[1..] == Lex(s, e);
      assert PieceAt(s, i, j, e, l[0]);
    }
  }

  lemma {:induction false} SplitsOnce(s: string, i: int, toks: seq<Token>)
    requires 0 <= i <= |s| && Splits(s, i, toks)
    ensures toks == Lex(s, i)
    decreases |toks|
  {
    if toks == [] {
      SkipIs(s, i, |s|);
    } else {
      var j, e :| i <= j < e <= |s| && PieceAt(s, i, j, e, toks[0]) && Splits(s, e, toks[1..]);
      PieceIs(s, j, e, toks[0]);
      SkipIs(s, i, j);
      SplitsOnce(s, e, toks[1..]);
      assert toks == [toks[0]] + toks[1..];
    }
  }

  // Commands

  predicate RedirSym(t: Token) {
    t == Sym('<') || t == Sym('>') || t == Sym('+')
  }

  /**
    * Words and redirections in any order, read from the left: each word is the next argument, and each
    * redirection goes around the command so far.
    */
  ghost predicate Items(t: seq<Token>, acc: Cmd, args: seq<string>, c: Cmd)
    decreases |t|
  {
    if t == [] then args == [] && c == acc
    else if t[0].Word? then args != [] && args[0] == t[0].w && Items(t[1..], acc, args[1..], c)
    else RedirSym(t[0]) && |t| >= 2 && t[1].Word? && Items(t[2..], Redir(acc, t[1].w, t[0].c), args, c)
  }

  /** A program with fewer than ten arguments, its redirections anywhere among them. */
  ghost predicate Plain(t: seq<Token>, c: Cmd) {
    exists args: seq<string> :: |args| < 10 && Items(t, Exec(args), args, c)
  }

  /** A line in parentheses, and redirections after it. */
  ghost predicate Block(t: seq<Token>, c: Cmd)
    decreases |t|, 0
  {
    && |t| > 0 && t[0] == Sym('(')
    && exists k, d | 0 < k < |t| :: t[k] == Sym(')') && Line(t[1..k], d) && Items(t[k + 1..], d, [], c)
  }

  ghost predicate Simple(t: seq<Token>, c: Cmd)
    decreases |t|, 1
  {
    Plain(t, c) || Block(t, c)
  }

  ghost predicate Pipeline(t: seq<Token>, c: Cmd)
    decreases |t|, 2
  {
    || Simple(t, c)
    || (c.Pipe? && exists k | 0 <= k < |t| ::
          t[k] == Sym('|') && Simple(t[..k], c.left) && Pipeline(t[k + 1..], c.right))
  }

  ghost predicate Background(t: seq<Token>, c: Cmd)
    decreases |t|, 3
  {
    || Pipeline(t, c)
    || (c.Back? && |t| > 0 && t[|t| - 1] == Sym('&') && Background(t[..|t| - 1], c.cmd))
  }

  ghost predicate Line(t: seq<Token>, c: Cmd)
    decreases |t|, 4
  {
    || Background(t, c)
    || (c.List? && exists k | 0 <= k < |t| ::
          t[k] == Sym(';') && Background(t[..k], c.left) && Line(t[k + 1..], c.right))
  }

  /** The text stands for the command. */
  ghost predicate Means(s: string, c: Cmd) {
    exists toks :: Splits(s, 0, toks) && Line(toks, c)
  }

  // What the parser accepts stands for what it returns

  lemma {:induction false} WrapFirst(c: Cmd, r: Redirection, rs: seq<Redirection>)
    ensures Wrap(c, [r] + rs) == Wrap(Redir(c, r.file, r.op), rs)
    decreases |rs|
  {
    var all := [r] + rs;
    if rs == [] {
      assert all[..0] == [];
    } else {
      WrapFirst(c, r, rs[..|rs| - 1]);
      assert all[..|all| - 1] == [r] + rs[..|rs| - 1];
    }
  }

  lemma {:induction false} WrapBoth(c: Cmd, rs: seq<Redirection>, more: seq<Redirection>)
    ensures Wrap(Wrap(c, rs), more) == Wrap(c, rs + more)
    decreases |more|
  {
    var all := rs + more;
    if more == [] {
      assert all == rs;
    } else {
      WrapBoth(c, rs, more[..|more| - 1]);
      assert all[..|all| - 1] == rs + more[..|more| - 1];
    }
  }

  /** What TakeRedirs takes, before more items. */
  lemma {:induction false} RedirsSound(t: seq<Token>, acc: Cmd, rs: seq<Redirection>, r: seq<Token>,
                                       q: seq<Token>, args: seq<string>, c: Cmd) returns (p: seq<Token>)
    requires TakeRedirs(t) == GotRedirs(rs, r) && Items(q, Wrap(acc, rs), args, c)
    ensures t == p + r && Items(p + q, acc, args, c)
    decreases |t|
  {
    if !AtRedir(t) {
      p := [];
      assert [] + q == q;
    } else {
      var one, more := FirstRedir(t);
      WrapFirst(acc, one, more);
      var p1 := RedirsSound(t[2..], Redir(acc, one.file, one.op), more, r, q, args, c);
      p := [t[0], t[1]] + p1;
      ItemsRedir(p + q, one, p1 + q, acc, args, c);
    }
  }

  lemma FirstRedir(t: seq<Token>) returns (one: Redirection, more: seq<Redirection>)
    requires AtRedir(t) && TakeRedirs(t).GotRedirs?
    ensures |t| >= 2 && t[0] == Sym(one.op) && t[1] == Word(one.file) && RedirSym(t[0])
    ensures TakeRedirs(t).redirs == [one] + more && TakeRedirs(t[2..]) == GotRedirs(more, TakeRedirs(t).after)
  {
    one, more := Redirection(t[1].w, t[0].c), TakeRedirs(t[2..]).redirs;
  }

  lemma ItemsRedir(p: seq<Token>, one: Redirection, q: seq<Token>, acc: Cmd, args: seq<string>, c: Cmd)
    requires p == [Sym(one.op), Word(one.file)] + q && RedirSym(Sym(one.op))
    requires Items(q, Redir(acc, one.file, one.op), args, c)
    ensures Items(p, acc, args, c)
  {
    assert p[2..] == q;
  }

  lemma {:induction false} ArgsSound(t: seq<Token>, args: seq<string>, rs: seq<Redirection>, acc: Cmd)
    returns (p: seq<Token>, more: seq<string>, rs2: seq<Redirection>)
    requires TakeArgs(t, args, rs).GotArgs? && |args| < 10
    ensures var a := TakeArgs(t, args, rs);
            && t == p + a.after && a.args == args + more && a.redirs == rs + rs2 && |a.args| < 10
            && Items(p, acc, more, Wrap(acc, rs2))
    decreases |t|
  {
    if AtStop(t) {
      p, more, rs2 := [], [], [];
    } else {
      var w, x := t[0].w, TakeRedirs(t[1..]);
      var p1, more1, rs3 := ArgsSound(x.after, args + [w], rs + x.redirs, Wrap(acc, x.redirs));
      WrapBoth(acc, x.redirs, rs3);
      rs2, more := x.redirs + rs3, [w] + more1;
      var p2 := RedirsSound(t[1..], acc, x.redirs, x.after, p1, more1, Wrap(acc, rs2));
      p := [t[0]] + (p2 + p1);
      ItemsWord(p, w, p2 + p1, acc, more, more1, Wrap(acc, rs2));
      ArgsGrouped(args, w, more1, rs, x.redirs, rs3, t, p2, p1, TakeArgs(t, args, rs).after);
    }
  }

  lemma ItemsWord(p: seq<Token>, w: string, q: seq<Token>, acc: Cmd, args: seq<string>, more: seq<string>, c: Cmd)
    requires p == [Word(w)] + q && args == [w] + more && Items(q, acc, more, c)
    ensures Items(p, acc, args, c)
  {
    assert p[1..] == q && args[1..] == more;
  }

  lemma ArgsGrouped(args: seq<string>, w: string, more: seq<string>, rs: seq<Redirection>, x: seq<Redirection>,
                    y: seq<Redirection>, t: seq<Token>, p: seq<Token>, q: seq<Token>, rest: seq<Token>)
    requires t != [] && t[1..] == p + (q + rest)
    ensures args + [w] + more == args + ([w] + more) && rs + x + y == rs + (x + y)
    ensures t == [t[0]] + (p + q) + rest
  {
    assert t == [t[0]] + t[1..];
  }

  lemma PlainItems(t: seq<Token>, rs0: seq<Redirection>, after: seq<Token>, args: seq<string>,
                   rs: seq<Redirection>, rest: seq<Token>) returns (p: seq<Token>)
    requires TakeRedirs(t) == GotRedirs(rs0, after) && TakeArgs(after, [], rs0) == GotArgs(args, rs, rest)
    ensures t == p + rest && |args| < 10 && Items(p, Exec(args), args, Wrap(Exec(args), rs))
  {
    var acc := Exec(args);
    var q, more, rs2 := ArgsSound(after, [], rs0, Wrap(acc, rs0));
    assert more == args;
    WrapBoth(acc, rs0, rs2);
    var p1 := RedirsSound(t, acc, rs0, after, q, args, Wrap(acc, rs));
    p := p1 + q;
    Regroup(p1, q, rest);
  }

  lemma PlainSound(t: seq<Token>) returns (p: seq<Token>)
    requires !At(t, '(') && ParseExec(t).Ok?
    ensures t == p + ParseExec(t).rest && Plain(p, ParseExec(t).cmd)
  {
    var r := TakeRedirs(t);
    var a := TakeArgs(r.after, [], r.redirs);
    p := PlainItems(t, r.redirs, r.after, a.args, a.redirs, a.after);
  }

  lemma {:induction false} ExecSound(t: seq<Token>) returns (p: seq<Token>)
    requires ParseExec(t).Ok?
    ensures t == p + ParseExec(t).rest && Simple(p, ParseExec(t).cmd)
    decreases |t|, 0
  {
    if At(t, '(') {
      var b := ParseLine(t[1..]);
      var q := LineSound(t[1..]);
      var r := TakeRedirs(b.rest[1..]);
      var x := RedirsSound(b.rest[1..], b.cmd, r.redirs, r.after, [], [], Wrap(b.cmd, r.redirs));
      p := Bracketed(q, x);
      BlockIs(q, x, b.cmd, Wrap(b.cmd, r.redirs));
      Brackets(t, q, x, b.rest, r.after);
    } else {
      p := PlainSound(t);
    }
  }

  function Bracketed(q: seq<Token>, x: seq<Token>): seq<Token> {
    [Sym('(')] + q + [Sym(')')] + x
  }

  lemma Brackets(t: seq<Token>, q: seq<Token>, x: seq<Token>, tail: seq<Token>, rest: seq<Token>)
    requires At(t, '(') && t[1..] == q + tail && At(tail, ')') && tail[1..] == x + rest
    ensures t == Bracketed(q, x) + rest
  {
    assert t == [t[0]] + t[1..] && tail == [tail[0]] + tail[1..];
  }

  lemma BlockIs(q: seq<Token>, x: seq<Token>, d: Cmd, c: Cmd)
    requires Line(q, d) && Items(x + [], d, [], c)
    ensures Block(Bracketed(q, x), c)
  {
    var p, k := Bracketed(q, x), |q| + 1;
    assert x + [] == x && p[1..k] == q && p[k + 1..] == x && p[k] == Sym(')');
  }

  lemma {:induction false} PipeSound(t: seq<Token>) returns (p: seq<Token>)
    requires ParsePipe(t).Ok?
    ensures t == p + ParsePipe(t).rest && Pipeline(p, ParsePipe(t).cmd)
    decreases |t|, 1
  {
    var l := ParseExec(t);
    var q := ExecSound(t);
    p := q;
    if At(l.rest, '|') {
      var tail := l.rest[1..];
      var x := PipeSound(tail);
      p := Joined(q, Sym('|'), x);
      PipelineIs(q, x, l.cmd, ParsePipe(tail).cmd);
      Joins(t, q, Sym('|'), x, l.rest, ParsePipe(tail).rest);
    }
  }

  function Joined(a: seq<Token>, t: Token, b: seq<Token>): seq<Token> {
    a + [t] + b
  }

  lemma PipelineIs(q: seq<Token>, x: seq<Token>, l: Cmd, r: Cmd)
    requires Simple(q, l) && Pipeline(x, r)
    ensures Pipeline(Joined(q, Sym('|'), x), Pipe(l, r))
  {
    var p := Joined(q, Sym('|'), x);
    assert p[..|q|] == q && p[|q| + 1..] == x && p[|q|] == Sym('|');
  }

  lemma LineIs(q: seq<Token>, x: seq<Token>, l: Cmd, r: Cmd)
    requires Background(q, l) && Line(x, r)
    ensures Line(Joined(q, Sym(';'), x), List(l, r))
  {
    var p := Joined(q, Sym(';'), x);
    assert p[..|q|] == q && p[|q| + 1..] == x && p[|q|] == Sym(';');
  }

  lemma Joins(t: seq<Token>, q: seq<Token>, c: Token, x: seq<Token>, tail: seq<Token>, rest: seq<Token>)
    requires t == q + tail && tail != [] && tail[0] == c && tail[1..] == x + rest
    ensures t == Joined(q, c, x) + rest
  {
    assert tail == [c] + tail[1..];
  }

  lemma {:induction false} AmpsSound(p: seq<Token>, c: Cmd, t: seq<Token>) returns (q: seq<Token>)
    requires Background(p, c)
    ensures t == q + TakeAmps(c, t).1 && Background(p + q, TakeAmps(c, t).0)
    decreases |t|
  {
    if At(t, '&') {
      var one := p + [Sym('&')];
      assert one[..|one| - 1] == p;
      var x := AmpsSound(one, Back(c), t[1..]);
      q := [Sym('&')] + x;
      assert p + q == one + x && t == [Sym('&')] + t[1..];
    } else {
      q := [];
      assert p + q == p;
    }
  }

  lemma {:induction false} LineSound(t: seq<Token>) returns (p: seq<Token>)
    requires ParseLine(t).Ok?
    ensures t == p + ParseLine(t).rest && Line(p, ParseLine(t).cmd)
    decreases |t|, 2
  {
    var l := ParsePipe(t);
    var q := PipeSound(t);
    var x := AmpsSound(q, l.cmd, l.rest);
    var (c, rest) := TakeAmps(l.cmd, l.rest);
    var left := q + x;
    p := left;
    Regroup(q, x, rest);
    if At(rest, ';') {
      var tail := rest[1..];
      var right := LineSound(tail);
      p := Joined(left, Sym(';'), right);
      LineIs(left, right, c, ParseLine(tail).cmd);
      Joins(t, left, Sym(';'), right, rest, ParseLine(tail).rest);
    }
  }

  // What stands for a command is parsed as that command

  lemma WordFirst(p: seq<Token>, rest: seq<Token>)
    requires p != []
    ensures p + rest == [p[0]] + (p[1..] + rest)
  {
  }

  lemma RedirFirst(p: seq<Token>, rest: seq<Token>)
    requires |p| >= 2
    ensures p + rest == [p[0], p[1]] + (p[2..] + rest)
  {
  }

  lemma {:induction false} RedirsComplete(p: seq<Token>, acc: Cmd, c: Cmd, rest: seq<Token>)
    returns (rs: seq<Redirection>)
    requires Items(p, acc, [], c) && !AtRedir(rest)
    ensures TakeRedirs(p + rest) == GotRedirs(rs, rest) && c == Wrap(acc, rs)
    decreases |p|
  {
    if p == [] {
      rs := [];
      assert p + rest == rest;
    } else {
      var one := Redirection(p[1].w, p[0].c);
      var more := RedirsComplete(p[2..], Redir(acc, one.file, one.op), c, rest);
      rs := [one] + more;
      RedirFirst(p, rest);
      RedirStep(p + rest, one.op, one.file, p[2..] + rest);
      WrapFirst(acc, one, more);
    }
  }

  /** The state of parseexec's loop before the items p: the redirections at the front are taken first. */
  ghost predicate TakesItems(t: seq<Token>, args: seq<string>, rs: seq<Redirection>, more: seq<string>,
                             rs2: seq<Redirection>, rest: seq<Token>) {
    && TakeRedirs(t).GotRedirs?
    && TakeArgs(TakeRedirs(t).after, args, rs + TakeRedirs(t).redirs) == GotArgs(args + more, rs + rs2, rest)
  }

  lemma {:induction false} ItemsComplete(p: seq<Token>, acc: Cmd, more: seq<string>, c: Cmd, rest: seq<Token>,
                                         args: seq<string>, rs: seq<Redirection>) returns (rs2: seq<Redirection>)
    requires Items(p, acc, more, c) && AtStop(rest) && |args| + |more| < 10
    ensures c == Wrap(acc, rs2) && TakesItems(p + rest, args, rs, more, rs2, rest)
    decreases |p|
  {
    var t := p + rest;
    if p == [] {
      rs2 := [];
      assert t == rest && args + more == args && rs + [] == rs;
    } else if p[0].Word? {
      var tail := p[1..] + rest;
      WordFirst(p, rest);
      rs2 := ItemsComplete(p[1..], acc, more[1..], c, rest, args + [p[0].w], rs);
      TakesWord(t, p[0].w, tail, args, rs, more, rs2, rest);
    } else {
      var one, tail := Redirection(p[1].w, p[0].c), p[2..] + rest;
      var rs3 := ItemsComplete(p[2..], Redir(acc, one.file, one.op), more, c, rest, args, rs + [one]);
      RedirFirst(p, rest);
      rs2 := [one] + rs3;
      WrapFirst(acc, one, rs3);
      TakesRedir(t, one, tail, args, rs, more, rs3, rest);
    }
  }

  lemma TakesWord(t: seq<Token>, w: string, tail: seq<Token>, args: seq<string>, rs: seq<Redirection>,
                  more: seq<string>, rs2: seq<Redirection>, rest: seq<Token>)
    requires t == [Word(w)] + tail && more != [] && more[0] == w && |args| + 1 < 10
    requires TakesItems(tail, args + [w], rs, more[1..], rs2, rest)
    ensures TakesItems(t, args, rs, more, rs2, rest)
  {
    ArgStep(t, w, tail, args, rs, TakeRedirs(tail));
    assert args + more == args + [w] + more[1..] && rs + [] == rs;
  }

  lemma TakesRedir(t: seq<Token>, one: Redirection, tail: seq<Token>, args: seq<string>, rs: seq<Redirection>,
                   more: seq<string>, rs2: seq<Redirection>, rest: seq<Token>)
    requires t == [Sym(one.op), Word(one.file)] + tail && RedirSym(Sym(one.op))
    requires TakesItems(tail, args, rs + [one], more, rs2, rest)
    ensures TakesItems(t, args, rs, more, [one] + rs2, rest)
  {
    RedirStep(t, one.op, one.file, tail);
    assert rs + ([one] + TakeRedirs(tail).redirs) == rs + [one] + TakeRedirs(tail).redirs;
    assert rs + ([one] + rs2) == rs + [one] + rs2;
  }

  lemma PlainComplete(p: seq<Token>, c: Cmd, rest: seq<Token>)
    requires Plain(p, c) && AtStop(rest)
    ensures ParseExec(p + rest) == Ok(c, rest)
  {
    var args: seq<string> :| |args| < 10 && Items(p, Exec(args), args, c);
    var rs := ItemsComplete(p, Exec(args), args, c, rest, [], []);
    var t := p + rest;
    var r := TakeRedirs(t);
    assert [] + args == args && [] + rs == rs && [] + r.redirs == r.redirs;
    assert p == [] ==> t == rest;
    PlainUnfolds(t, r.redirs, r.after, args, rs, rest);
  }

  lemma BlockParts(p: seq<Token>, c: Cmd) returns (q: seq<Token>, x: seq<Token>, d: Cmd)
    requires Block(p, c)
    ensures p == Bracketed(q, x) && Line(q, d) && Items(x, d, [], c)
  {
    var k, e :| 0 < k < |p| && p[k] == Sym(')') && Line(p[1..k], e) && Items(p[k + 1..], e, [], c);
    q, x, d := p[1..k], p[k + 1..], e;
  }

  lemma PipelineParts(p: seq<Token>, c: Cmd) returns (one: bool, q: seq<Token>, x: seq<Token>)
    requires Pipeline(p, c)
    ensures if one then Simple(p, c)
            else c.Pipe? && p == Joined(q, Sym('|'), x) && Simple(q, c.left) && Pipeline(x, c.right)
  {
    one, q, x := Simple(p, c), [], [];
    if !one {
      var k :| 0 <= k < |p| && p[k] == Sym('|') && Simple(p[..k], c.left) && Pipeline(p[k + 1..], c.right);
      q, x := p[..k], p[k + 1..];
    }
  }

  lemma LineParts(p: seq<Token>, c: Cmd) returns (one: bool, q: seq<Token>, x: seq<Token>)
    requires Line(p, c)
    ensures if one then Background(p, c)
            else c.List? && p == Joined(q, Sym(';'), x) && Background(q, c.left) && Line(x, c.right)
  {
    one, q, x := Background(p, c), [], [];
    if !one {
      var k :| 0 <= k < |p| && p[k] == Sym(';') && Background(p[..k], c.left) && Line(p[k + 1..], c.right);
      q, x := p[..k], p[k + 1..];
    }
  }

  lemma BackgroundParts(p: seq<Token>, c: Cmd) returns (one: bool, q: seq<Token>)
    requires Background(p, c)
    ensures if one then Pipeline(p, c) else c.Back? && p == q + [Sym('&')] && Background(q, c.cmd)
  {
    one, q := Pipeline(p, c), [];
    if !one {
      q := p[..|p| - 1];
    }
  }

  lemma AmpStep(c: Cmd, rest: seq<Token>)
    ensures TakeAmps(c, [Sym('&')] + rest) == TakeAmps(Back(c), rest)
  {
    assert ([Sym('&')] + rest)[1..] == rest;
  }

  lemma JoinedThen(q: seq<Token>, t: Token, x: seq<Token>, rest: seq<Token>)
    ensures Joined(q, t, x) + rest == q + ([t] + (x + rest))
  {
  }

  lemma PipeEnds(t: seq<Token>, c: Cmd, rest: seq<Token>)
    requires ParseExec(t) == Ok(c, rest) && !At(rest, '|')
    ensures ParsePipe(t) == Ok(c, rest)
  {
  }

  lemma PipeGoesOn(t: seq<Token>, l: Cmd, tail: seq<Token>, r: Cmd, rest: seq<Token>)
    requires ParseExec(t) == Ok(l, [Sym('|')] + tail) && ParsePipe(tail) == Ok(r, rest)
    ensures ParsePipe(t) == Ok(Pipe(l, r), rest)
  {
    assert ([Sym('|')] + tail)[1..] == tail;
  }

  lemma LineEnds(t: seq<Token>, c: Cmd, rest: seq<Token>)
    requires ParsePipe(t).Ok? && TakeAmps(ParsePipe(t).cmd, ParsePipe(t).rest) == TakeAmps(c, rest)
    requires rest == [] || At(rest, ')')
    ensures ParseLine(t) == Ok(c, rest)
  {
  }

  lemma LineGoesOn(t: seq<Token>, l: Cmd, tail: seq<Token>, r: Cmd, rest: seq<Token>)
    requires ParsePipe(t).Ok? && TakeAmps(ParsePipe(t).cmd, ParsePipe(t).rest) == TakeAmps(l, [Sym(';')] + tail)
    requires ParseLine(tail) == Ok(r, rest)
    ensures ParseLine(t) == Ok(List(l, r), rest)
  {
    assert ([Sym(';')] + tail)[1..] == tail;
  }

  lemma {:induction false} SimpleComplete(p: seq<Token>, c: Cmd, rest: seq<Token>)
    requires Simple(p, c) && AtStop(rest)
    ensures ParseExec(p + rest) == Ok(c, rest)
    decreases |p|, 1
  {
    if Plain(p, c) {
      PlainComplete(p, c, rest);
    } else {
      BlockComplete(p, c, rest);
    }
  }

  lemma {:induction false} BlockComplete(p: seq<Token>, c: Cmd, rest: seq<Token>)
    requires Block(p, c) && AtStop(rest)
    ensures ParseExec(p + rest) == Ok(c, rest)
    decreases |p|, 0
  {
    var q, x, d := BlockParts(p, c);
    BracketedThen(q, x, rest);
    LineComplete(q, d, [Sym(')')] + (x + rest));
    var rs := RedirsComplete(x, d, c, rest);
    BlockUnfolds(p + rest, d, x + rest, rs, rest);
  }

  lemma BracketedThen(q: seq<Token>, x: seq<Token>, rest: seq<Token>)
    ensures var t := Bracketed(q, x) + rest; At(t, '(') && t[1..] == q + ([Sym(')')] + (x + rest))
  {
  }

  lemma {:induction false} PipelineComplete(p: seq<Token>, c: Cmd, rest: seq<Token>)
    requires Pipeline(p, c) && AtStop(rest) && !At(rest, '|')
    ensures ParsePipe(p + rest) == Ok(c, rest)
    decreases |p|, 2
  {
    var one, q, x := PipelineParts(p, c);
    if one {
      SimpleComplete(p, c, rest);
      PipeEnds(p + rest, c, rest);
    } else {
      JoinedThen(q, Sym('|'), x, rest);
      SimpleComplete(q, c.left, [Sym('|')] + (x + rest));
      PipelineComplete(x, c.right, rest);
      PipeGoesOn(p + rest, c.left, x + rest, c.right, rest);
    }
  }

  lemma {:induction false} BackgroundComplete(p: seq<Token>, c: Cmd, rest: seq<Token>)
    requires Background(p, c) && AtStop(rest) && !At(rest, '|')
    ensures var r := ParsePipe(p + rest); r.Ok? && TakeAmps(r.cmd, r.rest) == TakeAmps(c, rest)
    decreases |p|, 3
  {
    var one, q := BackgroundParts(p, c);
    if one {
      PipelineComplete(p, c, rest);
    } else {
      Regroup(q, [Sym('&')], rest);
      BackgroundComplete(q, c.cmd, [Sym('&')] + rest);
      AmpStep(c.cmd, rest);
    }
  }

  lemma {:induction false} LineComplete(p: seq<Token>, c: Cmd, rest: seq<Token>)
    requires Line(p, c) && (rest == [] || At(rest, ')'))
    ensures ParseLine(p + rest) == Ok(c, rest)
    decreases |p|, 4
  {
    var one, q, x := LineParts(p, c);
    if one {
      BackgroundComplete(p, c, rest);
      LineEnds(p + rest, c, rest);
    } else {
      JoinedThen(q, Sym(';'), x, rest);
      BackgroundComplete(q, c.left, [Sym(';')] + (x + rest));
      LineComplete(x, c.right, rest);
      LineGoesOn(p + rest, c.left, x + rest, c.right, rest);
    }
  }

  // The two agree

  /** parsecmd accepts exactly the texts that stand for a command, and returns that command. */
  lemma ParseIsTheGrammar(s: string, c: Cmd)
    ensures Parse(s) == Ok(c, []) <==> Means(s, c)
  {
    var l := Lex(s, 0);
    LexSplits(s, 0);
    if Parse(s) == Ok(c, []) {
      var p := LineSound(l);
      assert p == l;
    }
    if Means(s, c) {
      var toks :| Splits(s, 0, toks) && Line(toks, c);
      SplitsOnce(s, 0, toks);
      LineComplete(l, c, []);
      assert l + [] == l;
    }
  }

  /** Everything else is rejected. */
  lemma RejectedHasNoMeaning(s: string)
    ensures Parse(s) == Err <==> forall c :: !Means(s, c)
  {
    forall c ensures Parse(s) == Ok(c, []) <==> Means(s, c) {
      ParseIsTheGrammar(s, c);
    }
  }

  /** No text stands for two commands. */
  lemma Unambiguous(s: string, c: Cmd, d: Cmd)
    requires Means(s, c) && Means(s, d)
    ensures c == d
  {
    ParseIsTheGrammar(s, c);
    ParseIsTheGrammar(s, d);
  }
}
