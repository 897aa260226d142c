/** gettoken, peek, the parse procedures and nulterminate of user/sh.c, on the input buffer and a position in it. */
module ShellCode {
  import opened Shell
  import opened ShellGrammar

  /** A counted string: a token's place in the input, as the source's pairs of pointers give it. */
  datatype Span = Span(q: int, eq: int)

  datatype PRedirection = PRedirection(file: Span, op: char)

  /** A command whose strings are still places in the input. */
  datatype PCmd = PExec(argv: seq<Span>)
                | PRedir(cmd: PCmd, file: Span, op: char)
                | PPipe(left: PCmd, right: PCmd)
                | PList(left: PCmd, right: PCmd)
                | PBack(cmd: PCmd)

  function Text(s: string, x: Span): string {
    if 0 <= x.q <= x.eq <= |s| then s[x.q..x.eq] else ""
  }

  function Texts(s: string, xs: seq<Span>): seq<string> {
    seq(|xs|, i requires 0 <= i < |xs| => Text(s, xs[i]))
  }

  function RedirTexts(s: string, rs: seq<PRedirection>): seq<Redirection> {
    seq(|rs|, i requires 0 <= i < |rs| => Redirection(Text(s, rs[i].file), rs[i].op))
  }

  function Read(s: string, p: PCmd): Cmd {
    match p
    case PExec(argv) => Exec(Texts(s, argv))
    case PRedir(c, file, op) => Redir(Read(s, c), Text(s, file), op)
    case PPipe(l, r) => Pipe(Read(s, l), Read(s, r))
    case PList(l, r) => List(Read(s, l), Read(s, r))
    case PBack(c) => Back(Read(s, c))
  }

  /** A span is a whole token: word characters, and none just after them. */
  predicate SpanOk(s: string, x: Span) {
    && 0 <= x.q < x.eq <= |s|
    && (forall k | x.q <= k < x.eq :: WordChar(s[k]))
    && (x.eq < |s| ==> !WordChar(s[x.eq]))
  }

  predicate SpansOk(s: string, p: PCmd) {
    match p
    case PExec(argv) => forall i | 0 <= i < |argv| :: SpanOk(s, argv[i])
    case PRedir(c, file, op) => SpansOk(s, c) && SpanOk(s, file)
    case PPipe(l, r) => SpansOk(s, l) && SpansOk(s, r)
    case PList(l, r) => SpansOk(s, l) && SpansOk(s, r)
    case PBack(c) => SpansOk(s, c)
  }

  function PWrap(c: PCmd, rs: seq<PRedirection>): PCmd {
    if rs == [] then c else PRedir(PWrap(c, rs[..|rs| - 1]), rs[|rs| - 1].file, rs[|rs| - 1].op)
  }

  predicate RedirsOk(s: string, rs: seq<PRedirection>) {
    forall i | 0 <= i < |rs| :: SpanOk(s, rs[i].file)
  }

  lemma {:induction false} WrapReads(s: string, c: PCmd, rs: seq<PRedirection>)
    requires SpansOk(s, c) && RedirsOk(s, rs)
    ensures Read(s, PWrap(c, rs)) == Wrap(Read(s, c), RedirTexts(s, rs)) && SpansOk(s, PWrap(c, rs))
    decreases |rs|
  {
    if rs != [] {
      var init := rs[..|rs| - 1];
      WrapReads(s, c, init);
      assert RedirTexts(s, rs)[..|rs| - 1] == RedirTexts(s, init);
    }
  }

  /** The character peek sees for a token. */
  function FirstChar(t: Token): char {
    if t.Word? then (if t.w == "" then NUL else t.w[0]) else if t.c == '+' then '>' else t.c
  }

  lemma SkipLex(s: string, i: int)
    requires 0 <= i <= |s|
    ensures Lex(s, Skip(s, i)) == Lex(s, i)
  {
  }

  /** What a parse procedure returns agrees with the grammar. */
  ghost predicate Agrees(s: string, r: Res, ok: bool, cmd: PCmd, ps: int) {
    && (ok <==> r.Ok?)
    && (ok ==> 0 <= ps <= |s| && SpansOk(s, cmd) && Read(s, cmd) == r.cmd && Lex(s, ps) == r.rest)
  }

  /** Redirections already taken come before those still to take. */
  ghost function Before(rs: seq<Redirection>, r: RedirRes): RedirRes {
    if r.NoFile? then r else r.(redirs := rs + r.redirs)
  }

  class Parser {
    const s: string
    var ps: int

    constructor (s: string)
      ensures this.s == s && ps == 0
    {
      this.s := s;
      ps := 0;
    }

    /** s is what comes before the NUL of a C string. */
    ghost predicate Valid()
      reads this
    {
      0 <= ps <= |s| && NUL !in s
    }

    ghost function Rest(): seq<Token>
      requires Valid()
      reads this
    {
      Lex(s, ps)
    }

    method SkipWhite()
      requires Valid()
      modifies this`ps
      ensures Valid() && ps == Skip(s, old(ps)) && Rest() == old(Rest())
    {
      SkipLex(s, ps);
      while ps < |s| && White(s[ps])
        invariant Valid() && Skip(s, ps) == Skip(s, old(ps))
        decreases |s| - ps
      {
        ps := ps + 1;
      }
    }

    /** peek: is the next token one that starts with one of these characters? */
    method Peek(toks: string) returns (b: bool)
      requires Valid() && NUL !in toks
      modifies this`ps
      ensures Valid() && Rest() == old(Rest())
      ensures b <==> Rest() != [] && FirstChar(Rest()[0]) in toks
      ensures Rest() != [] ==> LegalToken(Rest()[0])
    {
      LexLegal(s, ps);
      SkipWhite();
      b := ps < |s| && s[ps] in toks;
    }

    method PeekRedir() returns (b: bool)
      requires Valid()
      modifies this`ps
      ensures Valid() && Rest() == old(Rest()) && (b <==> AtRedir(Rest()))
    {
      b := Peek("<>");
    }

    method PeekStop() returns (b: bool)
      requires Valid()
      modifies this`ps
      ensures Valid() && Rest() == old(Rest()) && (b <==> Rest() != [] && AtStop(Rest()))
    {
      b := Peek("|)&;");
    }

    /** gettoken: the next token's code and place. */
    method Gettoken() returns (tok: char, x: Span)
      requires Valid()
      modifies this`ps
      ensures Valid()
      ensures old(Rest()) == [] ==> tok == NUL && Rest() == []
      ensures old(Rest()) != [] ==> Rest() == old(Rest())[1..]
      ensures old(Rest()) != [] && old(Rest())[0].Sym? ==> tok == old(Rest())[0].c && tok != 'a' && tok != NUL
      ensures old(Rest()) != [] && old(Rest())[0].Word? ==> tok == 'a' && SpanOk(s, x) && Text(s, x) == old(Rest())[0].w
    {
      SkipWhite();
      var q := ps;
      if ps == |s| {
        return NUL, Span(q, q);
      }
      tok := s[ps];
      if tok == '|' || tok == '(' || tok == ')' || tok == ';' || tok == '&' || tok == '<' {
        ps := ps + 1;
      } else if tok == '>' {
        ps := ps + 1;
        if ps < |s| && s[ps] == '>' {
          tok := '+';
          ps := ps + 1;
        }
      } else {
        tok := 'a';
        while ps < |s| && !White(s[ps]) && !Symbol(s[ps])
          invariant q <= ps <= |s| && WordEnd(s, ps) == WordEnd(s, q)
          decreases |s| - ps
        {
          ps := ps + 1;
        }
      }
      x := Span(q, ps);
      assert ps == TokenEnd(s, q);
      SkipWhite();
    }

    /** One round of parseredirs. */
    method ParseOneRedir() returns (ok: bool, r: PRedirection)
      requires Valid() && AtRedir(Rest())
      modifies this`ps
      ensures Valid()
      ensures !ok ==> TakeRedirs(old(Rest())).NoFile?
      ensures ok ==> SpanOk(s, r.file) && (r.op == '<' || r.op == '>' || r.op == '+')
      ensures ok ==> old(Rest()) == [Sym(r.op), Word(Text(s, r.file))] + Rest()
    {
      ghost var toks := Rest();
      var tok, x := Gettoken();
      var kind;
      kind, x := Gettoken();
      r := PRedirection(x, tok);
      ok := kind == 'a';
      assert ok ==> toks == [toks[0]] + [toks[1]] + toks[2..];
    }

    /** parseredirs. */
    method Parseredirs() returns (ok: bool, rs: seq<PRedirection>)
      requires Valid()
      modifies this`ps
      ensures Valid()
      ensures ok <==> TakeRedirs(old(Rest())).GotRedirs?
      ensures ok ==> RedirsOk(s, rs) && TakeRedirs(old(Rest())) == GotRedirs(RedirTexts(s, rs), Rest())
    {
      rs := [];
      ghost var target := TakeRedirs(Rest());
      TookNone(s, target);
      ghost var l := Rest();
      var more := PeekRedir();
      while more
        invariant Valid() && l == Rest() && RedirsOk(s, rs)
        invariant target == Before(RedirTexts(s, rs), TakeRedirs(l))
        invariant more <==> AtRedir(l)
        decreases |l|
      {
        var r;
        ok, r := ParseOneRedir();
        if !ok {
          return false, rs;
        }
        TookOne(s, rs, r, l, Rest());
        rs, l := rs + [r], Rest();
        more := PeekRedir();
      }
      TookAll(RedirTexts(s, rs), l);
      ok := true;
    }

    /** One round of parseexec's loop: an argument and the redirections after it; end when there is no token left. */
    method ParseArg(args: seq<Span>, rs: seq<PRedirection>, ghost target: ArgsRes)
      returns (ok: bool, end: bool, args': seq<Span>, rs': seq<PRedirection>)
      requires Valid() && (Rest() == [] || !AtStop(Rest())) && ArgsOk(s, args, rs)
      requires TakeArgs(Rest(), Texts(s, args), RedirTexts(s, rs)) == target
      modifies this`ps
      ensures Valid() && (!ok ==> target.BadArgs?)
      ensures ok ==> ArgsOk(s, args', rs') && (end ==> Rest() == []) && (!end ==> |Rest()| < |old(Rest())|)
      ensures ok ==> TakeArgs(Rest(), Texts(s, args'), RedirTexts(s, rs')) == target
    {
      ghost var toks := Rest();
      var tok, x := Gettoken();
      args', rs' := args, rs;
      if tok == NUL {
        return true, true, args, rs;
      }
      if tok != 'a' {
        return false, false, args, rs;
      }
      args' := args + [x];
      if |args'| >= MAXARGS {
        return false, false, args, rs;
      }
      ghost var tail := Rest();
      assert toks == [Word(Text(s, x))] + tail;
      var more;
      ok, more := Parseredirs();
      TookArg(s, args, rs, x, more, toks, tail, ok, Rest());
      rs', end := rs + more, false;
    }

    /** The loop of parseexec. */
    method ParseArgs(rs0: seq<PRedirection>, ghost target: ArgsRes)
      returns (ok: bool, args: seq<Span>, rs: seq<PRedirection>)
      requires Valid() && RedirsOk(s, rs0) && TakeArgs(Rest(), [], RedirTexts(s, rs0)) == target
      modifies this`ps
      ensures Valid() && (ok <==> target.GotArgs?)
      ensures ok ==> ArgsOk(s, args, rs) && target == GotArgs(Texts(s, args), RedirTexts(s, rs), Rest())
    {
      args, rs, ok := [], rs0, true;
      assert Texts(s, args) == [];
      ghost var l := Rest();
      var stop := PeekStop();
      while !stop
        invariant Valid() && l == Rest() && ArgsOk(s, args, rs) && ok
        invariant TakeArgs(l, Texts(s, args), RedirTexts(s, rs)) == target
        invariant if stop then AtStop(l) else l == [] || !AtStop(l)
        decreases |l|
      {
        var end;
        ok, end, args, rs := ParseArg(args, rs, target);
        l := Rest();
        if !ok || end {
          return;
        }
        stop := PeekStop();
      }
    }

    /** parseexec, after the test for a block. */
    method ParsePlain() returns (ok: bool, cmd: PCmd)
      requires Valid() && !At(Rest(), '(')
      modifies this`ps
      ensures Valid() && Agrees(s, ParseExec(old(Rest())), ok, cmd, ps)
    {
      cmd := PExec([]);
      ghost var toks := Rest();
      var rs0;
      ok, rs0 := Parseredirs();
      if !ok {
        return;
      }
      ghost var after := Rest();
      var args, rs;
      ok, args, rs := ParseArgs(rs0, TakeArgs(after, [], RedirTexts(s, rs0)));
      if ok {
        PlainUnfolds(toks, RedirTexts(s, rs0), after, Texts(s, args), RedirTexts(s, rs), Rest());
        WrapReads(s, PExec(args), rs);
        cmd := PWrap(PExec(args), rs);
      }
    }

    method Parseblock() returns (ok: bool, cmd: PCmd)
      requires Valid() && At(Rest(), '(')
      modifies this`ps
      ensures Valid() && Agrees(s, ParseExec(old(Rest())), ok, cmd, ps)
      decreases |Rest()|, 0
    {
      cmd := PExec([]);
      var open := Peek("(");
      var tok, x := Gettoken();
      ok, cmd := Parseline();
      if !ok {
        return;
      }
      var close := Peek(")");
      if !close {
        return false, cmd;
      }
      tok, x := Gettoken();
      var rs;
      ok, rs := Parseredirs();
      if ok {
        WrapReads(s, cmd, rs);
        cmd := PWrap(cmd, rs);
      }
    }

    method Parseexec() returns (ok: bool, cmd: PCmd)
      requires Valid()
      modifies this`ps
      ensures Valid() && Agrees(s, ParseExec(old(Rest())), ok, cmd, ps)
      decreases |Rest()|, 1
    {
      var block := Peek("(");
      if block {
        ok, cmd := Parseblock();
      } else {
        ok, cmd := ParsePlain();
      }
    }

    method Parsepipe() returns (ok: bool, cmd: PCmd)
      requires Valid()
      modifies this`ps
      ensures Valid() && Agrees(s, ParsePipe(old(Rest())), ok, cmd, ps)
      decreases |Rest()|, 2
    {
      ok, cmd := Parseexec();
      if !ok {
        return;
      }
      var bar := Peek("|");
      if bar {
        var tok, x := Gettoken();
        var right;
        ok, right := Parsepipe();
        cmd := PPipe(cmd, right);
      }
    }

    method Parseline() returns (ok: bool, cmd: PCmd)
      requires Valid()
      modifies this`ps
      ensures Valid() && Agrees(s, ParseLine(old(Rest())), ok, cmd, ps)
      decreases |Rest()|, 3
    {
      ok, cmd := Parsepipe();
      if !ok {
        return;
      }
      ghost var target := TakeAmps(Read(s, cmd), Rest());
      var amp := Peek("&");
      while amp
        invariant Valid() && SpansOk(s, cmd) && (amp <==> At(Rest(), '&'))
        invariant TakeAmps(Read(s, cmd), Rest()) == target && |Rest()| <= |old(Rest())|
        decreases |Rest()|
      {
        var tok, x := Gettoken();
        cmd := PBack(cmd);
        amp := Peek("&");
      }
      var semi := Peek(";");
      if semi {
        var tok, x := Gettoken();
        var right;
        ok, right := Parseline();
        cmd := PList(cmd, right);
      }
    }

    /** parsecmd, up to nulterminate: a line, and nothing after it but white space. */
    method Parsecmd() returns (ok: bool, cmd: PCmd)
      requires Valid() && ps == 0
      modifies this`ps
      ensures ok <==> Parse(s).Ok?
      ensures ok ==> SpansOk(s, cmd) && Read(s, cmd) == Parse(s).cmd
      ensures ok <==> exists c :: Means(s, c)
      ensures ok ==> Means(s, Read(s, cmd))
    {
      RejectedHasNoMeaning(s);
      if Parse(s).Ok? {
        ParseIsTheGrammar(s, Parse(s).cmd);
      }
      ok, cmd := Parseline();
      if ok {
        var none := Peek("");
        SkipWhite();
        ok := ps == |s|;
      }
    }
  }

  predicate ArgsOk(s: string, args: seq<Span>, rs: seq<PRedirection>) {
    |args| < MAXARGS && (forall i | 0 <= i < |args| :: SpanOk(s, args[i])) && RedirsOk(s, rs)
  }

  lemma TookNone(s: string, r: RedirRes)
    ensures Before(RedirTexts(s, []), r) == r
  {
    assert RedirTexts(s, []) == [];
    if r.GotRedirs? {
      assert [] + r.redirs == r.redirs;
    }
  }

  lemma TookAll(rs: seq<Redirection>, rest: seq<Token>)
    requires !AtRedir(rest)
    ensures Before(rs, TakeRedirs(rest)) == GotRedirs(rs, rest)
  {
    assert rs + [] == rs;
  }

  lemma TookArg(s: string, args: seq<Span>, rs: seq<PRedirection>, x: Span, more: seq<PRedirection>,
                toks: seq<Token>, tail: seq<Token>, ok: bool, rest: seq<Token>)
    requires |args| + 1 < MAXARGS && toks == [Word(Text(s, x))] + tail
    requires ok <==> TakeRedirs(tail).GotRedirs?
    requires ok ==> TakeRedirs(tail) == GotRedirs(RedirTexts(s, more), rest)
    ensures !ok ==> TakeArgs(toks, Texts(s, args), RedirTexts(s, rs)).BadArgs?
    ensures ok ==>
              TakeArgs(toks, Texts(s, args), RedirTexts(s, rs))
              == TakeArgs(rest, Texts(s, args + [x]), RedirTexts(s, rs + more))
    ensures ok ==> |rest| < |toks|
  {
    ArgStep(toks, Text(s, x), tail, Texts(s, args), RedirTexts(s, rs), TakeRedirs(tail));
    MoreTexts(s, args, x, rs, more);
  }

  lemma MoreTexts(s: string, args: seq<Span>, x: Span, rs: seq<PRedirection>, more: seq<PRedirection>)
    ensures Texts(s, args + [x]) == Texts(s, args) + [Text(s, x)]
    ensures RedirTexts(s, rs + more) == RedirTexts(s, rs) + RedirTexts(s, more)
  {
  }

  lemma TookOne(s: string, rs: seq<PRedirection>, r: PRedirection, toks: seq<Token>, rest: seq<Token>)
    requires (r.op == '<' || r.op == '>' || r.op == '+') && toks == [Sym(r.op), Word(Text(s, r.file))] + rest
    ensures Before(RedirTexts(s, rs), TakeRedirs(toks)) == Before(RedirTexts(s, rs + [r]), TakeRedirs(rest))
  {
    RedirStep(toks, r.op, Text(s, r.file), rest);
    var was, one := RedirTexts(s, rs), [Redirection(Text(s, r.file), r.op)];
    assert RedirTexts(s, rs + [r]) == was + one;
    var t := TakeRedirs(rest);
    if t.GotRedirs? {
      assert was + (one + t.redirs) == (was + one) + t.redirs;
    }
  }

  // nulterminate

  /** The places where nulterminate writes. */
  function Ends(p: PCmd): set<int> {
    match p
    case PExec(argv) => set i | 0 <= i < |argv| :: argv[i].eq
    case PRedir(c, file, op) => Ends(c) + {file.eq}
    case PPipe(l, r) => Ends(l) + Ends(r)
    case PList(l, r) => Ends(l) + Ends(r)
    case PBack(c) => Ends(c)
  }

  /** The counted strings of a command. */
  function Spans(p: PCmd): set<Span> {
    match p
    case PExec(argv) => set i | 0 <= i < |argv| :: argv[i]
    case PRedir(c, file, op) => Spans(c) + {file}
    case PPipe(l, r) => Spans(l) + Spans(r)
    case PList(l, r) => Spans(l) + Spans(r)
    case PBack(c) => Spans(c)
  }

  lemma {:induction false} SpanIsOk(s: string, p: PCmd, x: Span)
    requires SpansOk(s, p) && x in Spans(p)
    ensures SpanOk(s, x) && x.eq in Ends(p)
  {
    match p
    case PExec(argv) =>
    case PRedir(c, file, op) => if x in Spans(c) { SpanIsOk(s, c, x); }
    case PPipe(l, r) => if x in Spans(l) { SpanIsOk(s, l, x); } else { SpanIsOk(s, r, x); }
    case PList(l, r) => if x in Spans(l) { SpanIsOk(s, l, x); } else { SpanIsOk(s, r, x); }
    case PBack(c) => SpanIsOk(s, c, x);
  }

  /** A place that is written to is the end of the input or no word character. */
  lemma {:induction false} EndIsGap(s: string, p: PCmd, e: int)
    requires SpansOk(s, p) && e in Ends(p)
    ensures 0 <= e <= |s| && (e < |s| ==> !WordChar(s[e]))
  {
    match p
    case PExec(argv) =>
      var i :| 0 <= i < |argv| && argv[i].eq == e;
    case PRedir(c, file, op) => if e in Ends(c) { EndIsGap(s, c, e); }
    case PPipe(l, r) => if e in Ends(l) { EndIsGap(s, l, e); } else { EndIsGap(s, r, e); }
    case PList(l, r) => if e in Ends(l) { EndIsGap(s, l, e); } else { EndIsGap(s, r, e); }
    case PBack(c) => EndIsGap(s, c, e);
  }

  ghost predicate Nulled(was: seq<char>, now: seq<char>, ends: set<int>, k: int) {
    0 <= k < |was| == |now| ==> now[k] == if k in ends then NUL else was[k]
  }

  /** In the buffer now, the C string at q is w. */
  ghost predicate CString(now: seq<char>, q: int, w: string) {
    0 <= q && q + |w| < |now| && now[q..q + |w|] == w && now[q + |w|] == NUL
  }

  /** Although tokens may follow each other without a space, no NUL lands inside another token. */
  lemma StringsSurvive(s: string, p: PCmd, was: seq<char>, now: seq<char>, x: Span)
    requires SpansOk(s, p) && x in Spans(p) && was == s + [NUL] && |now| == |was|
    requires forall k :: Nulled(was, now, Ends(p), k)
    ensures CString(now, x.q, Text(s, x))
  {
    SpanIsOk(s, p, x);
    var w := Text(s, x);
    assert Nulled(was, now, Ends(p), x.eq);
    forall k | x.q <= k < x.eq ensures now[k] == s[k] {
      KeptInside(s, p, x, k);
      assert Nulled(was, now, Ends(p), k);
    }
    assert now[x.q..x.eq] == s[x.q..x.eq];
  }

  lemma KeptInside(s: string, p: PCmd, x: Span, k: int)
    requires SpansOk(s, p) && SpanOk(s, x) && x.q <= k < x.eq
    ensures k !in Ends(p)
  {
    if k in Ends(p) {
      EndIsGap(s, p, k);
    }
  }

  /** nulterminate, writing into the input buffer. */
  method Nulterminate(buf: array<char>, p: PCmd, ghost s: string)
    requires SpansOk(s, p) && buf.Length == |s| + 1
    modifies buf
    ensures forall k :: Nulled(old(buf[..]), buf[..], Ends(p), k)
  {
    match p
    case PExec(argv) =>
      var i := 0;
      while i < |argv|
        invariant 0 <= i <= |argv|
        invariant forall k | 0 <= k < buf.Length ::
                    buf[k] == if exists j :: 0 <= j < i && argv[j].eq == k then NUL else old(buf[k])
      {
        assert SpanOk(s, argv[i]);
        buf[argv[i].eq] := NUL;
        i := i + 1;
      }
    case PRedir(c, file, op) =>
      Nulterminate(buf, c, s);
      assert forall k :: Nulled(old(buf[..]), buf[..], Ends(c), k);
      ghost var mid := buf[..];
      buf[file.eq] := NUL;
      forall k ensures Nulled(old(buf[..]), buf[..], Ends(p), k) {
        assert Nulled(old(buf[..]), mid, Ends(c), k);
      }
    case PPipe(l, r) =>
      Nulterminate(buf, l, s);
      ghost var mid := buf[..];
      Nulterminate(buf, r, s);
      NulledTwice(old(buf[..]), mid, buf[..], Ends(l), Ends(r));
    case PList(l, r) =>
      Nulterminate(buf, l, s);
      ghost var mid := buf[..];
      Nulterminate(buf, r, s);
      NulledTwice(old(buf[..]), mid, buf[..], Ends(l), Ends(r));
    case PBack(c) =>
      Nulterminate(buf, c, s);
  }

  lemma NulledTwice(a: seq<char>, b: seq<char>, c: seq<char>, x: set<int>, y: set<int>)
    requires |a| == |b| == |c| && (forall k :: Nulled(a, b, x, k)) && forall k :: Nulled(b, c, y, k)
    ensures forall k :: Nulled(a, c, x + y, k)
  {
    var z := x + y;
    forall k ensures Nulled(a, c, z, k) {
      assert Nulled(a, b, x, k) && Nulled(b, c, y, k);
    }
  }

  /**
    * The whole of parsecmd on a NUL-terminated buffer: it fails exactly on the strings that stand for
    * no command; otherwise it returns the command the string stands for, and every argument and file
    * name of it is, in the buffer, the C string it should be.
    */
  method ParseBuffer(buf: array<char>) returns (ok: bool, cmd: PCmd)
    requires buf.Length > 0 && forall k | 0 <= k < buf.Length :: buf[k] == NUL <==> k == buf.Length - 1
    modifies buf
    ensures var s := old(buf[..buf.Length - 1]);
            && (ok <==> Parse(s).Ok?)
            && (ok <==> exists c :: Means(s, c))
            && (ok ==> Read(s, cmd) == Parse(s).cmd && Means(s, Read(s, cmd)))
            && (ok ==> forall x | x in Spans(cmd) :: CString(buf[..], x.q, Text(s, x)))
  {
    var s := buf[..buf.Length - 1];
    var parser := new Parser(s);
    ok, cmd := parser.Parsecmd();
    if ok {
      assert buf[..] == s + [NUL];
      Nulterminate(buf, cmd, s);
      forall x | x in Spans(cmd) ensures CString(buf[..], x.q, Text(s, x)) {
        StringsSurvive(s, cmd, old(buf[..]), buf[..], x);
      }
    }
  }
}
