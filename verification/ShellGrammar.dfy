/** The shell's grammar on tokens: the recursive-descent parser of sh.c as functions
    over the tokens still unread, and a printer that puts in no parentheses it can do
    without. */
module ShellGrammar {

  const MAXARGS: nat := 10

  datatype Token<W> = Word(w: W) | Sym(c: char)

  /** Redir's out is the descriptor, 1 for output (O_WRONLY|O_CREATE), 0 for input. */
  datatype Cmd<W> =
    | Exec(args: seq<W>)
    | Redir(cmd: Cmd<W>, file: W, out: bool)
    | Pipe(left: Cmd<W>, right: Cmd<W>)
    | List(left: Cmd<W>, right: Cmd<W>)
    | Back(cmd: Cmd<W>)

  datatype Error = MissingFile | MissingParen | Syntax | TooManyArgs

  datatype Parse<W> = Ok(cmd: Cmd<W>, rest: seq<Token<W>>) | Fail(error: Error)

  predicate Starts<W>(ts: seq<Token<W>>, c: char) {
    ts != [] && ts[0].Sym? && ts[0].c == c
  }

  predicate StartsRedir<W>(ts: seq<Token<W>>) {
    Starts(ts, '<') || Starts(ts, '>') || Starts(ts, '+')
  }

  /** What may come after an exec command: nothing, or one of | ) & ; */
  predicate EndsExec<W>(ts: seq<Token<W>>) {
    ts == [] || Starts(ts, '|') || Starts(ts, ')') || Starts(ts, '&') || Starts(ts, ';')
  }

  /** An exec command under redirections: the one arguments are still added to. */
  predicate Open<W>(c: Cmd<W>) {
    c.Exec? || (c.Redir? && Open(c.cmd))
  }

  function Args<W>(c: Cmd<W>): seq<W>
    requires Open(c)
  {
    if c.Exec? then c.args else Args(c.cmd)
  }

  /** Its redirections, the first one written first. */
  function Files<W>(c: Cmd<W>): seq<(W, bool)>
    requires Open(c)
  {
    if c.Exec? then [] else Files(c.cmd) + [(c.file, c.out)]
  }

  function AddArg<W>(c: Cmd<W>, w: W): (r: Cmd<W>)
    requires Open(c)
    ensures Open(r) && Args(r) == Args(c) + [w] && Files(r) == Files(c)
  {
    match c case Exec(args) => Exec(args + [w]) case Redir(sub, file, out) => Redir(AddArg(sub, w), file, out)
  }

  // ----- the parser -----

  function ParseRedirs<W>(c: Cmd<W>, ts: seq<Token<W>>): (r: Parse<W>)
    ensures r.Ok? ==> |r.rest| <= |ts| && (Open(c) ==> Open(r.cmd) && Args(r.cmd) == Args(c))
    decreases |ts|
  {
    if !StartsRedir(ts) then Ok(c, ts)
    else if |ts| < 2 || !ts[1].Word? then Fail(MissingFile)
    else ParseRedirs(Redir(c, ts[1].w, ts[0].c != '<'), ts[2..])
  }

  /** The loop of parseexec. */
  function ParseArgs<W>(c: Cmd<W>, ts: seq<Token<W>>): (r: Parse<W>)
    requires Open(c)
    ensures r.Ok? ==> |r.rest| <= |ts| && Open(r.cmd)
    decreases |ts|, 0
  {
    if EndsExec(ts) then Ok(c, ts)
    else if !ts[0].Word? then Fail(Syntax)
    else if |Args(c)| + 1 >= MAXARGS then Fail(TooManyArgs)
    else ParseArgsAfter(AddArg(c, ts[0].w), ts[1..])
  }

  /** Redirections, then the loop of parseexec. */
  function ParseArgsAfter<W>(c: Cmd<W>, ts: seq<Token<W>>): (r: Parse<W>)
    requires Open(c)
    ensures r.Ok? ==> |r.rest| <= |ts| && Open(r.cmd)
    decreases |ts|, 1
  {
    var p := ParseRedirs(c, ts);
    if p.Fail? then p else ParseArgs(p.cmd, p.rest)
  }

  function ParseExec<W>(ts: seq<Token<W>>): (r: Parse<W>)
    ensures r.Ok? ==> |r.rest| <= |ts|
    decreases |ts|, 1
  {
    if Starts(ts, '(') then ParseBlock(ts) else ParseArgsAfter(Exec([]), ts)
  }

  function ParseBlock<W>(ts: seq<Token<W>>): (r: Parse<W>)
    requires Starts(ts, '(')
    ensures r.Ok? ==> |r.rest| <= |ts|
    decreases |ts|, 0
  {
    var p := ParseLine(ts[1..]);
    if p.Fail? then p
    else if !Starts(p.rest, ')') then Fail(MissingParen)
    else ParseRedirs(p.cmd, p.rest[1..])
  }

  function ParsePipe<W>(ts: seq<Token<W>>): (r: Parse<W>)
    ensures r.Ok? ==> |r.rest| <= |ts|
    decreases |ts|, 2
  {
    var p := ParseExec(ts);
    if p.Fail? || !Starts(p.rest, '|') then p
    else
      var q := ParsePipe(p.rest[1..]);
      if q.Fail? then q else Ok(Pipe(p.cmd, q.cmd), q.rest)
  }

  function ParseLine<W>(ts: seq<Token<W>>): (r: Parse<W>)
    ensures r.Ok? ==> |r.rest| <= |ts|
    decreases |ts|, 4
  {
    var p := ParsePipe(ts);
    if p.Fail? then p else ParseBacks(p.cmd, p.rest)
  }

  /** The rest of parseline: any number of &, then perhaps ; and another line. */
  function ParseBacks<W>(c: Cmd<W>, ts: seq<Token<W>>): (r: Parse<W>)
    ensures r.Ok? ==> |r.rest| <= |ts|
    decreases |ts|, 3
  {
    if Starts(ts, '&') then ParseBacks(Back(c), ts[1..])
    else if Starts(ts, ';') then
      var q := ParseLine(ts[1..]);
      if q.Fail? then q else Ok(List(c, q.cmd), q.rest)
    else Ok(c, ts)
  }

  // ----- the printer -----

  /** The level of the grammar a command belongs to: 0 what parseexec reads, 1 a pipe,
      2 a command in the background, 3 a list. */
  function Level<W>(c: Cmd<W>): nat {
    match c case Exec(_) => 0 case Redir(_, _, _) => 0 case Pipe(_, _) => 1 case Back(_) => 2 case List(_, _) => 3
  }

  function Words<W>(ws: seq<W>): (ts: seq<Token<W>>)
    ensures |ts| == |ws| && forall k :: 0 <= k < |ws| ==> ts[k] == Word(ws[k])
  {
    seq(|ws|, k requires 0 <= k < |ws| => Word(ws[k]))
  }

  /** c where a command of the level may stand; parentheses only where its own level is
      higher. */
  function Print<W>(level: nat, c: Cmd<W>): seq<Token<W>>
    decreases c, if Level(c) > level then 1 else 0
  {
    if Level(c) > level then [Sym('(')] + Print(3, c) + [Sym(')')]
    else
      match c
      case Exec(args) => Words(args)
      case Redir(sub, file, out) => Print(0, sub) + [Sym(if out then '>' else '<'), Word(file)]
      case Pipe(l, r) => Print(0, l) + [Sym('|')] + Print(1, r)
      case Back(sub) => Print(2, sub) + [Sym('&')]
      case List(l, r) => Print(2, l) + [Sym(';')] + Print(3, r)
  }

  /** At most 9 arguments to each exec. */
  predicate Fits<W>(c: Cmd<W>) {
    match c
    case Exec(args) => |args| < MAXARGS
    case Redir(sub, _, _) => Fits(sub)
    case Pipe(l, r) => Fits(l) && Fits(r)
    case Back(sub) => Fits(sub)
    case List(l, r) => Fits(l) && Fits(r)
  }

  // ----- the round trip -----

  /** Where parseexec stands when it has read c and ts is left. */
  function Continue<W>(c: Cmd<W>, ts: seq<Token<W>>): Parse<W> {
    if Open(c) then ParseArgsAfter(c, ts) else ParseRedirs(c, ts)
  }

  lemma ContinueEnds<W>(c: Cmd<W>, ts: seq<Token<W>>)
    requires EndsExec(ts)
    ensures Continue(c, ts) == Ok(c, ts)
  {
    assert ParseRedirs(c, ts) == Ok(c, ts);
    assert Open(c) ==> ParseArgs(c, ts) == Ok(c, ts);
  }

  lemma {:induction false} WordsParse<W>(args: seq<W>, ts: seq<Token<W>>)
    requires |args| < MAXARGS && !Starts(ts, '(')
    ensures ParseExec(Words(args) + ts) == Continue(Exec(args), ts)
    decreases |args|
  {
    if args == [] {
      assert Words(args) + ts == ts;
    } else {
      var k := |args| - 1;
      var us := [Word(args[k])] + ts;
      assert Words(args) + ts == Words(args[..k]) + us;
      WordsParse(args[..k], us);
      assert us[1..] == ts && args[..k] + [args[k]] == args;
      assert ParseRedirs(Exec(args[..k]), us) == Ok(Exec(args[..k]), us);
      assert ParseArgs(Exec(args[..k]), us) == ParseArgsAfter(Exec(args), ts);
    }
  }

  lemma RedirParses<W>(c: Cmd<W>, file: W, out: bool, ts: seq<Token<W>>)
    ensures var us := [Sym(if out then '>' else '<'), Word(file)] + ts;
            Continue(c, us) == Continue(Redir(c, file, out), ts)
  {
    var us := [Sym(if out then '>' else '<'), Word(file)] + ts;
    assert us[2..] == ts;
  }

  lemma BlockParses<W>(c: Cmd<W>, ts: seq<Token<W>>)
    requires !Open(c)
    requires ParseLine(Print(3, c) + ([Sym(')')] + ts)) == Ok(c, [Sym(')')] + ts)
    ensures ParseExec([Sym('(')] + Print(3, c) + [Sym(')')] + ts) == Continue(c, ts)
  {
    var us := [Sym('(')] + Print(3, c) + [Sym(')')] + ts;
    assert us[1..] == Print(3, c) + ([Sym(')')] + ts);
    assert ([Sym(')')] + ts)[1..] == ts;
  }

  /** What parseexec, parsepipe and parseline do with the printed form of c and
      whatever follows it. */
  lemma {:induction false} PrintedExec<W>(c: Cmd<W>, ts: seq<Token<W>>)
    requires Fits(c) && !Starts(ts, '(')
    ensures ParseExec(Print(0, c) + ts) == Continue(c, ts)
    decreases c, if Level(c) > 0 then 4 else 0
  {
    match c
    case Exec(args) => WordsParse(args, ts);
    case Redir(sub, file, out) =>
      var us := [Sym(if out then '>' else '<'), Word(file)] + ts;
      assert Print(0, c) + ts == Print(0, sub) + us;
      PrintedExec(sub, us);
      RedirParses(sub, file, out, ts);
    case _ =>
      PrintedLine(c, [Sym(')')] + ts);
      BlockParses(c, ts);
  }

  lemma {:induction false} PrintedPipe<W>(c: Cmd<W>, ts: seq<Token<W>>)
    requires Fits(c) && EndsExec(ts) && !Starts(ts, '|')
    ensures ParsePipe(Print(1, c) + ts) == Ok(c, ts)
    decreases c, if Level(c) > 1 then 5 else 1
  {
    if c.Pipe? {
      var us := [Sym('|')] + (Print(1, c.right) + ts);
      assert Print(1, c) + ts == Print(0, c.left) + us;
      PrintedExec(c.left, us);
      ContinueEnds(c.left, us);
      assert us[1..] == Print(1, c.right) + ts;
      PrintedPipe(c.right, ts);
    } else {
      assert Print(1, c) == Print(0, c);
      PrintedExec(c, ts);
      ContinueEnds(c, ts);
    }
  }

  lemma {:induction false} PrintedBack<W>(c: Cmd<W>, ts: seq<Token<W>>)
    requires Fits(c) && EndsExec(ts) && !Starts(ts, '|')
    ensures ParseLine(Print(2, c) + ts) == ParseBacks(c, ts)
    decreases c, if Level(c) > 2 then 6 else 2
  {
    if c.Back? {
      var us := [Sym('&')] + ts;
      assert Print(2, c) + ts == Print(2, c.cmd) + us;
      PrintedBack(c.cmd, us);
      assert us[1..] == ts;
    } else {
      assert Print(2, c) == Print(1, c);
      PrintedPipe(c, ts);
    }
  }

  lemma {:induction false} PrintedLine<W>(c: Cmd<W>, ts: seq<Token<W>>)
    requires Fits(c) && (ts == [] || Starts(ts, ')'))
    ensures ParseLine(Print(3, c) + ts) == Ok(c, ts)
    decreases c, 3
  {
    if c.List? {
      var us := [Sym(';')] + (Print(3, c.right) + ts);
      assert Print(3, c) + ts == Print(2, c.left) + us;
      PrintedBack(c.left, us);
      assert us[1..] == Print(3, c.right) + ts;
      PrintedLine(c.right, ts);
    } else {
      assert Print(3, c) == Print(2, c);
      PrintedBack(c, ts);
    }
  }

  /** Parsing the printed tokens gives the tree back with nothing left. */
  lemma RoundTrip<W>(c: Cmd<W>)
    requires Fits(c)
    ensures ParseLine(Print(3, c)) == Ok(c, [])
  {
    assert Print(3, c) + [] == Print(3, c);
    PrintedLine(c, []);
  }

  // ----- words and redirections in any order -----

  predicate RedirFirst<W>(us: seq<Token<W>>)
    ensures RedirFirst(us) ==> |us| >= 2 && us[0].Sym? && us[1].Word?
  {
    StartsRedir(us) && |us| >= 2 && us[1].Word?
  }

  /** Words and redirections. */
  predicate Simple<W>(us: seq<Token<W>>) {
    us == [] || (if RedirFirst(us) then Simple(us[2..]) else us[0].Word? && Simple(us[1..]))
  }

  /** The words that are no file names, in order. */
  function ArgWords<W>(us: seq<Token<W>>): seq<W>
    requires Simple(us)
  {
    if us == [] then [] else if RedirFirst(us) then ArgWords(us[2..]) else [us[0].w] + ArgWords(us[1..])
  }

  /** The redirections in order: the file, and whether it is for output. */
  function Redirections<W>(us: seq<Token<W>>): seq<(W, bool)>
    requires Simple(us)
  {
    if us == [] then []
    else if RedirFirst(us) then [(us[1].w, us[0].c == '>' || us[0].c == '+')] + Redirections(us[2..])
    else Redirections(us[1..])
  }

  /** A command under redirections, the first innermost. */
  function Under<W>(c: Cmd<W>, files: seq<(W, bool)>): Cmd<W>
    decreases |files|
  {
    if files == [] then c
    else Redir(Under(c, files[..|files| - 1]), files[|files| - 1].0, files[|files| - 1].1)
  }

  lemma {:induction false} OpenIsUnder<W>(c: Cmd<W>)
    requires Open(c)
    ensures c == Under(Exec(Args(c)), Files(c))
  {
    if c.Redir? {
      OpenIsUnder(c.cmd);
      assert Files(c)[..|Files(c)| - 1] == Files(c.cmd);
    }
  }

  /** One round of parseexec's loop. */
  lemma ArgsAfterRound<W>(c: Cmd<W>, ts: seq<Token<W>>)
    requires Open(c)
    ensures ParseArgsAfter(c, ts) ==
            if StartsRedir(ts) then
              if |ts| < 2 || !ts[1].Word? then Fail(MissingFile)
              else ParseArgsAfter(Redir(c, ts[1].w, ts[0].c != '<'), ts[2..])
            else if EndsExec(ts) then Ok(c, ts)
            else if !ts[0].Word? then Fail(Syntax)
            else if |Args(c)| + 1 >= MAXARGS then Fail(TooManyArgs)
            else ParseArgsAfter(AddArg(c, ts[0].w), ts[1..])
  {
    hide AddArg;
  }

  lemma RedirRound<W>(c: Cmd<W>, us: seq<Token<W>>, rest: seq<Token<W>>)
    requires Open(c) && Simple(us) && RedirFirst(us)
    ensures var d := Redir(c, us[1].w, us[0].c != '<');
            && Open(d) && Args(d) == Args(c) && ParseArgsAfter(c, us + rest) == ParseArgsAfter(d, us[2..] + rest)
            && Simple(us[2..]) && ArgWords(us) == ArgWords(us[2..]) && Files(d) + Redirections(us[2..]) == Files(c) + Redirections(us)
  {
    hide ParseArgsAfter;
    var ts := us + rest;
    assert ts[0] == us[0] && ts[1] == us[1] && ts[2..] == us[2..] + rest;
    ArgsAfterRound(c, ts);
  }

  lemma WordRound<W>(c: Cmd<W>, us: seq<Token<W>>, rest: seq<Token<W>>)
    requires Open(c) && Simple(us) && us != [] && !RedirFirst(us)
    ensures us[0].Word? && ParseArgsAfter(c, us + rest) ==
            if |Args(c)| + 1 >= MAXARGS then Fail(TooManyArgs) else ParseArgsAfter(AddArg(c, us[0].w), us[1..] + rest)
    ensures Simple(us[1..]) && ArgWords(us) == [us[0].w] + ArgWords(us[1..]) && Redirections(us) == Redirections(us[1..])
  {
    hide ParseArgsAfter, AddArg, Args;
    var ts := us + rest;
    assert ts[0] == us[0] && ts[1..] == us[1..] + rest;
    ArgsAfterRound(c, ts);
  }

  /** What parseexec reads from words and redirections in any order: one exec of the
      words in order, under the redirections in order, and whatever follows is left;
      ten words or more are refused. */
  lemma {:induction false} ArgsAfterReads<W>(c: Cmd<W>, us: seq<Token<W>>, rest: seq<Token<W>>)
    requires Open(c) && |Args(c)| < MAXARGS && Simple(us) && EndsExec(rest)
    ensures ParseArgsAfter(c, us + rest) ==
            if |Args(c)| + |ArgWords(us)| < MAXARGS
            then Ok(Under(Exec(Args(c) + ArgWords(us)), Files(c) + Redirections(us)), rest)
            else Fail(TooManyArgs)
    decreases |us|
  {
    hide ParseArgsAfter, Under, AddArg, Simple, RedirFirst, ArgWords, Redirections, Files, EndsExec, Open;
    if us == [] {
      NothingRead(c, us, rest);
    } else if RedirFirst(us) {
      RedirRound(c, us, rest);
      ArgsAfterReads(Redir(c, us[1].w, us[0].c != '<'), us[2..], rest);
    } else {
      WordRound(c, us, rest);
      if |Args(c)| + 1 < MAXARGS {
        ArgsAfterReads(AddArg(c, us[0].w), us[1..], rest);
        assert Args(c) + [us[0].w] + ArgWords(us[1..]) == Args(c) + ArgWords(us);
      }
    }
  }

  lemma NothingRead<W>(c: Cmd<W>, us: seq<Token<W>>, rest: seq<Token<W>>)
    requires Open(c) && us == [] && EndsExec(rest)
    ensures Simple(us) && ArgWords(us) == [] && ParseArgsAfter(c, us + rest) ==
            Ok(Under(Exec(Args(c) + ArgWords(us)), Files(c) + Redirections(us)), rest)
  {
    assert us + rest == rest && Args(c) + ArgWords(us) == Args(c) && Files(c) + Redirections(us) == Files(c);
    OpenIsUnder(c);
    ArgsAfterEnds(c, rest);
  }

  lemma ArgsAfterEnds<W>(c: Cmd<W>, ts: seq<Token<W>>)
    requires Open(c) && EndsExec(ts)
    ensures ParseArgsAfter(c, ts) == Ok(c, ts)
  {
    ContinueEnds(c, ts);
  }

  lemma ExecReads<W>(us: seq<Token<W>>, rest: seq<Token<W>>)
    requires Simple(us) && EndsExec(rest)
    ensures ParseExec(us + rest) ==
            if |ArgWords(us)| < MAXARGS then Ok(Under(Exec(ArgWords(us)), Redirections(us)), rest) else Fail(TooManyArgs)
  {
    ArgsAfterReads(Exec([]), us, rest);
    assert [] + ArgWords(us) == ArgWords(us) && [] + Redirections(us) == Redirections(us);
    assert us == [] ==> us + rest == rest;
    assert us != [] ==> (us + rest)[0] == us[0];
  }

  /** And nothing else does parseexec accept that does not begin with a parenthesis. */
  lemma {:induction false} ArgsAfterAccepts<W>(c: Cmd<W>, ts: seq<Token<W>>) returns (us: seq<Token<W>>)
    requires Open(c) && ParseArgsAfter(c, ts).Ok?
    ensures Simple(us) && EndsExec(ParseArgsAfter(c, ts).rest) && ts == us + ParseArgsAfter(c, ts).rest
    decreases |ts|
  {
    hide ParseArgsAfter, AddArg, Simple;
    ArgsAfterRound(c, ts);
    if StartsRedir(ts) {
      var vs := ArgsAfterAccepts(Redir(c, ts[1].w, ts[0].c != '<'), ts[2..]);
      us := ts[..2] + vs;
      SimpleMore(us, 2);
    } else if EndsExec(ts) {
      us := [];
      SimpleMore(us, 0);
    } else {
      var vs := ArgsAfterAccepts(AddArg(c, ts[0].w), ts[1..]);
      us := ts[..1] + vs;
      SimpleMore(us, 1);
    }
  }

  lemma SimpleMore<W>(us: seq<Token<W>>, k: nat)
    requires k <= |us| && (k == 2 ==> RedirFirst(us)) && (k == 1 ==> us[0].Word?) && (k == 0 ==> us == []) && k <= 2
    ensures k == 0 || Simple(us[k..]) ==> Simple(us)
  {
  }

  lemma ExecAccepts<W>(ts: seq<Token<W>>) returns (us: seq<Token<W>>)
    requires !Starts(ts, '(') && ParseExec(ts).Ok?
    ensures Simple(us) && |ArgWords(us)| < MAXARGS && EndsExec(ParseExec(ts).rest) && ts == us + ParseExec(ts).rest
    ensures ParseExec(ts).cmd == Under(Exec(ArgWords(us)), Redirections(us))
  {
    us := ArgsAfterAccepts(Exec([]), ts);
    ExecReads(us, ParseExec(ts).rest);
  }

  // ----- no parentheses it can do without -----

  /** The opening parentheses among the tokens. */
  function Parens<W>(ts: seq<Token<W>>): nat {
    if ts == [] then 0 else (if ts[0] == Sym('(') then 1 else 0) + Parens(ts[1..])
  }

  lemma {:induction false} ParensAppend<W>(a: seq<Token<W>>, b: seq<Token<W>>)
    ensures Parens(a + b) == Parens(a) + Parens(b)
  {
    if a == [] {
      assert a + b == b;
    } else {
      ParensAppend(a[1..], b);
      assert (a + b)[1..] == a[1..] + b;
    }
  }

  lemma ParensJoined<W>(a: seq<Token<W>>, sym: char, b: seq<Token<W>>)
    requires sym != '('
    ensures Parens(a + [Sym(sym)] + b) == Parens(a) + Parens(b)
  {
    ParensAppend(a + [Sym(sym)], b);
    ParensAppend(a, [Sym(sym)]);
  }

  lemma ParensSplit<W>(ts: seq<Token<W>>, i: nat, j: nat)
    requires i <= j <= |ts|
    ensures Parens(ts[i..]) == Parens(ts[i..j]) + Parens(ts[j..])
  {
    ParensAppend(ts[i..j], ts[j..]);
    assert ts[i..j] + ts[j..] == ts[i..];
  }

  lemma ParensHead<W>(ts: seq<Token<W>>, i: nat)
    requires i < |ts|
    ensures Parens(ts[i..]) == (if ts[i] == Sym('(') then 1 else 0) + Parens(ts[i + 1..])
  {
    assert ts[i..][1..] == ts[i + 1..];
  }

  lemma ParensDropped<W>(ts: seq<Token<W>>, i: nat, j: nat)
    requires i < j < |ts| && ts[i] == Sym('(')
    ensures Parens(ts[..i] + ts[i + 1..j] + ts[j + 1..]) < Parens(ts)
  {
    hide Parens;
    ParensAppend(ts[..i] + ts[i + 1..j], ts[j + 1..]);
    ParensAppend(ts[..i], ts[i + 1..j]);
    ParensSplit(ts, 0, i);
    assert ts[0..] == ts && ts[0..i] == ts[..i];
    ParensHead(ts, i);
    ParensSplit(ts, i + 1, j);
    ParensHead(ts, j);
  }

  lemma {:induction false} WordsHaveNone<W>(ws: seq<W>)
    ensures Parens(Words(ws)) == 0
  {
    if ws != [] {
      WordsHaveNone(ws[1..]);
      assert Words(ws)[1..] == Words(ws[1..]);
    }
  }

  /** The pairs of parentheses in the printed form. */
  function Pairs<W>(level: nat, c: Cmd<W>): nat
    decreases c, if Level(c) > level then 1 else 0
  {
    if Level(c) > level then 1 + Pairs(3, c)
    else
      match c
      case Exec(args) => 0
      case Redir(sub, file, out) => Pairs(0, sub)
      case Pipe(l, r) => Pairs(0, l) + Pairs(1, r)
      case Back(sub) => Pairs(2, sub)
      case List(l, r) => Pairs(2, l) + Pairs(3, r)
  }

  lemma {:induction false} PrintedPairs<W>(level: nat, c: Cmd<W>)
    ensures Parens(Print(level, c)) == Pairs(level, c)
    decreases c, if Level(c) > level then 1 else 0
  {
    if Level(c) > level {
      PrintedPairs(3, c);
      ParensAppend([Sym('(')] + Print(3, c), [Sym(')')]);
      ParensAppend([Sym('(')], Print(3, c));
    } else {
      match c
      case Exec(args) => WordsHaveNone(args);
      case Redir(sub, file, out) =>
        PrintedPairs(0, sub);
        var sym: seq<Token<W>> := [Sym(if out then '>' else '<')];
        ParensAppend(Print(0, sub), sym + [Word(file)]);
        ParensAppend(sym, [Word(file)]);
        assert sym + [Word(file)] == [Sym(if out then '>' else '<'), Word(file)];
      case Pipe(l, r) =>
        PrintedPairs(0, l);
        PrintedPairs(1, r);
        ParensJoined(Print(0, l), '|', Print(1, r));
      case List(l, r) =>
        PrintedPairs(2, l);
        PrintedPairs(3, r);
        ParensJoined(Print(2, l), ';', Print(3, r));
      case Back(sub) =>
        PrintedPairs(2, sub);
        ParensAppend(Print(2, sub), [Sym('&')]);
    }
  }

  /** Redirections hold no parentheses and need none. */
  lemma {:induction false} RedirsPairs<W>(c: Cmd<W>, ts: seq<Token<W>>)
    ensures var r := ParseRedirs(c, ts); r.Ok? ==> Pairs(0, r.cmd) == Pairs(0, c) && Parens(r.rest) == Parens(ts)
    decreases |ts|
  {
    if StartsRedir(ts) && |ts| >= 2 && ts[1].Word? {
      RedirsPairs(Redir(c, ts[1].w, ts[0].c != '<'), ts[2..]);
      assert ts[1..][1..] == ts[2..];
    }
  }

  lemma {:induction false} OpenNeedsNone<W>(c: Cmd<W>)
    requires Open(c)
    ensures Pairs(0, c) == 0
  {
    if c.Redir? {
      OpenNeedsNone(c.cmd);
    }
  }

  lemma {:induction false} ArgsParens<W>(c: Cmd<W>, ts: seq<Token<W>>)
    requires Open(c)
    ensures var r := ParseArgsAfter(c, ts); r.Ok? ==> Parens(r.rest) <= Parens(ts)
    decreases |ts|
  {
    RedirsPairs(c, ts);
    var p := ParseRedirs(c, ts);
    if p.Ok? && !EndsExec(p.rest) && p.rest[0].Word? && |Args(p.cmd)| + 1 < MAXARGS {
      ArgsParens(AddArg(p.cmd, p.rest[0].w), p.rest[1..]);
    }
  }

  lemma {:induction false} ExecPairs<W>(ts: seq<Token<W>>)
    ensures var r := ParseExec(ts); r.Ok? ==> Pairs(0, r.cmd) + Parens(r.rest) <= Parens(ts)
    decreases |ts|, 1
  {
    if Starts(ts, '(') {
      LinePairs(ts[1..]);
      var p := ParseLine(ts[1..]);
      if p.Ok? && Starts(p.rest, ')') {
        RedirsPairs(p.cmd, p.rest[1..]);
      }
    } else {
      ArgsParens(Exec([]), ts);
      var p := ParseArgsAfter(Exec([]), ts);
      if p.Ok? {
        OpenNeedsNone(p.cmd);
      }
    }
  }

  lemma {:induction false} PipePairs<W>(ts: seq<Token<W>>)
    ensures var r := ParsePipe(ts); r.Ok? ==> Pairs(1, r.cmd) + Parens(r.rest) <= Parens(ts)
    decreases |ts|, 2
  {
    ExecPairs(ts);
    var p := ParseExec(ts);
    if p.Ok? && Starts(p.rest, '|') {
      PipePairs(p.rest[1..]);
    }
  }

  lemma {:induction false} LinePairs<W>(ts: seq<Token<W>>)
    ensures var r := ParseLine(ts); r.Ok? ==> Pairs(3, r.cmd) + Parens(r.rest) <= Parens(ts)
    decreases |ts|, 4
  {
    PipePairs(ts);
    var p := ParsePipe(ts);
    if p.Ok? {
      BacksPairs(p.cmd, p.rest);
    }
  }

  lemma {:induction false} BacksPairs<W>(c: Cmd<W>, ts: seq<Token<W>>)
    ensures var r := ParseBacks(c, ts); r.Ok? ==> Pairs(3, r.cmd) + Parens(r.rest) <= Pairs(2, c) + Parens(ts)
    decreases |ts|, 3
  {
    if Starts(ts, '&') {
      BacksPairs(Back(c), ts[1..]);
    } else if Starts(ts, ';') {
      LinePairs(ts[1..]);
    }
  }

  /** Of all the token lists that parse to a command, the printed one has the fewest
      parentheses. */
  lemma FewestParens<W>(c: Cmd<W>, ts: seq<Token<W>>)
    requires ParseLine(ts) == Ok(c, [])
    ensures Parens(Print(3, c)) <= Parens(ts)
  {
    LinePairs(ts);
    PrintedPairs(3, c);
  }

  /** Dropping a printed pair of parentheses changes the command or is refused. */
  lemma NoPairToSpare<W>(c: Cmd<W>, i: nat, j: nat)
    requires i < j < |Print(3, c)| && Print(3, c)[i] == Sym('(')
    ensures var ts := Print(3, c); ParseLine(ts[..i] + ts[i + 1..j] + ts[j + 1..]) != Ok(c, [])
  {
    var ts := Print(3, c);
    ParensDropped(ts, i, j);
    if ParseLine(ts[..i] + ts[i + 1..j] + ts[j + 1..]) == Ok(c, []) {
      FewestParens(c, ts[..i] + ts[i + 1..j] + ts[j + 1..]);
    }
  }

  // ----- every result fits, and what words mean does not matter -----

  lemma {:induction false} AddArgFits<W>(c: Cmd<W>, w: W)
    requires Open(c) && Fits(c) && |Args(c)| + 1 < MAXARGS
    ensures Fits(AddArg(c, w))
  {
    if c.Redir? {
      AddArgFits(c.cmd, w);
    }
  }

  lemma {:induction false} RedirsFit<W>(c: Cmd<W>, ts: seq<Token<W>>)
    requires Fits(c)
    ensures var r := ParseRedirs(c, ts); r.Ok? ==> Fits(r.cmd)
    decreases |ts|
  {
    if StartsRedir(ts) && |ts| >= 2 && ts[1].Word? {
      RedirsFit(Redir(c, ts[1].w, ts[0].c != '<'), ts[2..]);
    }
  }

  lemma {:induction false} ArgsFit<W>(c: Cmd<W>, ts: seq<Token<W>>)
    requires Fits(c) && Open(c)
    ensures var r := ParseArgsAfter(c, ts); r.Ok? ==> Fits(r.cmd)
    decreases |ts|
  {
    RedirsFit(c, ts);
    var p := ParseRedirs(c, ts);
    if p.Ok? && !EndsExec(p.rest) && p.rest[0].Word? && |Args(p.cmd)| + 1 < MAXARGS {
      AddArgFits(p.cmd, p.rest[0].w);
      ArgsFit(AddArg(p.cmd, p.rest[0].w), p.rest[1..]);
    }
  }

  lemma {:induction false} ExecFits<W>(ts: seq<Token<W>>)
    ensures var r := ParseExec(ts); r.Ok? ==> Fits(r.cmd)
    decreases |ts|, 1
  {
    if Starts(ts, '(') {
      LineFits(ts[1..]);
      var p := ParseLine(ts[1..]);
      if p.Ok? && Starts(p.rest, ')') {
        RedirsFit(p.cmd, p.rest[1..]);
      }
    } else {
      ArgsFit(Exec([]), ts);
    }
  }

  lemma {:induction false} PipeFits<W>(ts: seq<Token<W>>)
    ensures var r := ParsePipe(ts); r.Ok? ==> Fits(r.cmd)
    decreases |ts|, 2
  {
    ExecFits(ts);
    var p := ParseExec(ts);
    if p.Ok? && Starts(p.rest, '|') {
      PipeFits(p.rest[1..]);
    }
  }

  /** No command that the parser accepts has more than 9 arguments, so that it is its
      own printed form read back. */
  lemma {:induction false} LineFits<W>(ts: seq<Token<W>>)
    ensures var r := ParseLine(ts); r.Ok? ==> Fits(r.cmd)
    decreases |ts|, 4
  {
    PipeFits(ts);
    var p := ParsePipe(ts);
    if p.Ok? {
      BacksFit(p.cmd, p.rest);
    }
  }

  lemma {:induction false} BacksFit<W>(c: Cmd<W>, ts: seq<Token<W>>)
    requires Fits(c)
    ensures var r := ParseBacks(c, ts); r.Ok? ==> Fits(r.cmd)
    decreases |ts|, 3
  {
    if Starts(ts, '&') {
      BacksFit(Back(c), ts[1..]);
    } else if Starts(ts, ';') {
      LineFits(ts[1..]);
    }
  }
}
