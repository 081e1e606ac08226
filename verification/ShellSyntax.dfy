/** The grammar of the shell's lines, as trees of concrete syntax: the parser accepts
    exactly the token lists the grammar derives, with the command of the derivation. */
module ShellSyntax {
  import opened ShellGrammar

  /** Words and redirections, or a parenthesised line with redirections. */
  datatype ExecS<W> = Plain(us: seq<Token<W>>) | Group(line: LineS<W>, redirs: seq<Token<W>>)

  datatype PipeS<W> = One(exec: ExecS<W>) | Piped(exec: ExecS<W>, right: PipeS<W>)

  /** A pipe, any number of &, and perhaps ; and another line. */
  datatype LineS<W> = Last(pipe: PipeS<W>, backs: nat) | Then(pipe: PipeS<W>, backs: nat, next: LineS<W>)

  // ----- which trees there are -----

  predicate ExecOk<W>(x: ExecS<W>) {
    match x
    case Plain(us) => Simple(us) && |ArgWords(us)| < MAXARGS
    case Group(line, redirs) => LineOk(line) && Simple(redirs) && ArgWords(redirs) == []
  }

  predicate PipeOk<W>(x: PipeS<W>) {
    ExecOk(x.exec) && (x.Piped? ==> PipeOk(x.right))
  }

  predicate LineOk<W>(x: LineS<W>) {
    PipeOk(x.pipe) && (x.Then? ==> LineOk(x.next))
  }

  // ----- what they spell -----

  function Amps<W>(n: nat): (ts: seq<Token<W>>)
    ensures |ts| == n && forall k :: 0 <= k < n ==> ts[k] == Sym('&')
  {
    seq(n, _ => Sym('&'))
  }

  function ExecTokens<W>(x: ExecS<W>): seq<Token<W>> {
    match x case Plain(us) => us case Group(line, redirs) => [Sym('(')] + LineTokens(line) + [Sym(')')] + redirs
  }

  function PipeTokens<W>(x: PipeS<W>): seq<Token<W>> {
    match x case One(e) => ExecTokens(e) case Piped(e, r) => ExecTokens(e) + [Sym('|')] + PipeTokens(r)
  }

  function LineTokens<W>(x: LineS<W>): seq<Token<W>> {
    match x
    case Last(p, n) => PipeTokens(p) + Amps(n)
    case Then(p, n, next) => PipeTokens(p) + Amps(n) + [Sym(';')] + LineTokens(next)
  }

  // ----- what they mean -----

  function ExecTree<W>(x: ExecS<W>): Cmd<W>
    requires ExecOk(x)
  {
    match x
    case Plain(us) => Under(Exec(ArgWords(us)), Redirections(us))
    case Group(line, redirs) => Under(LineTree(line), Redirections(redirs))
  }

  function PipeTree<W>(x: PipeS<W>): Cmd<W>
    requires PipeOk(x)
  {
    match x case One(e) => ExecTree(e) case Piped(e, r) => Pipe(ExecTree(e), PipeTree(r))
  }

  /** In the background n times over. */
  function Backs<W>(c: Cmd<W>, n: nat): Cmd<W> {
    if n == 0 then c else Back(Backs(c, n - 1))
  }

  function LineTree<W>(x: LineS<W>): Cmd<W>
    requires LineOk(x)
  {
    match x
    case Last(p, n) => Backs(PipeTree(p), n)
    case Then(p, n, next) => List(Backs(PipeTree(p), n), LineTree(next))
  }

  // ----- what the grammar derives is parsed -----

  /** What may follow: the loop of parseexec must end there, or redirections must. */
  predicate MayFollow<W>(x: ExecS<W>, rest: seq<Token<W>>) {
    if x.Plain? then EndsExec(rest) else !StartsRedir(rest)
  }

  function LastExec<W>(x: PipeS<W>): ExecS<W> {
    match x case One(e) => e case Piped(_, r) => LastExec(r)
  }

  lemma {:induction false} RedirsRead<W>(c: Cmd<W>, us: seq<Token<W>>, rest: seq<Token<W>>)
    requires Simple(us) && ArgWords(us) == [] && !StartsRedir(rest)
    ensures ParseRedirs(c, us + rest) == Ok(Under(c, Redirections(us)), rest)
    decreases |us|
  {
    hide Under;
    if us == [] {
      assert us + rest == rest;
      UnderNone(c);
    } else {
      assert RedirFirst(us);
      var ts := us + rest;
      assert ts[0] == us[0] && ts[1] == us[1] && ts[2..] == us[2..] + rest;
      RedirsRead(Redir(c, us[1].w, us[0].c != '<'), us[2..], rest);
      UnderMore(c, us[1].w, us[0].c != '<', Redirections(us[2..]));
    }
  }

  lemma UnderNone<W>(c: Cmd<W>)
    ensures Under(c, []) == c
  {
  }

  lemma {:induction false} UnderMore<W>(c: Cmd<W>, file: W, out: bool, files: seq<(W, bool)>)
    ensures Under(Redir(c, file, out), files) == Under(c, [(file, out)] + files)
    decreases |files|
  {
    var all := [(file, out)] + files;
    if files == [] {
      assert all[..0] == [];
    } else {
      UnderMore(c, file, out, files[..|files| - 1]);
      assert all[..|all| - 1] == [(file, out)] + files[..|files| - 1];
    }
  }

  lemma {:induction false} ExecParses<W>(x: ExecS<W>, rest: seq<Token<W>>)
    requires ExecOk(x) && MayFollow(x, rest)
    ensures ParseExec(ExecTokens(x) + rest) == Ok(ExecTree(x), rest)
    decreases x, 0
  {
    hide Under;
    match x
    case Plain(us) => ExecReads(us, rest);
    case Group(line, redirs) =>
      var ts := ExecTokens(x) + rest;
      var inner := [Sym(')')] + (redirs + rest);
      assert ts[0] == Sym('(') && ts[1..] == LineTokens(line) + inner;
      LineParses(line, inner);
      assert inner[1..] == redirs + rest;
      RedirsRead(LineTree(line), redirs, rest);
  }

  lemma {:induction false} PipeParses<W>(x: PipeS<W>, rest: seq<Token<W>>)
    requires PipeOk(x) && MayFollow(LastExec(x), rest) && !Starts(rest, '|')
    ensures ParsePipe(PipeTokens(x) + rest) == Ok(PipeTree(x), rest)
    decreases x, 1
  {
    match x
    case One(e) => ExecParses(e, rest);
    case Piped(e, r) =>
      var after := [Sym('|')] + (PipeTokens(r) + rest);
      assert PipeTokens(x) + rest == ExecTokens(e) + after;
      ExecParses(e, after);
      assert after[1..] == PipeTokens(r) + rest;
      PipeParses(r, rest);
  }

  lemma {:induction false} BacksParse<W>(c: Cmd<W>, n: nat, rest: seq<Token<W>>)
    requires !Starts(rest, '&')
    ensures ParseBacks(c, Amps(n) + rest) == ParseBacks(Backs(c, n), rest)
    decreases n
  {
    if n == 0 {
      assert Amps(0) + rest == rest;
    } else {
      assert (Amps(n) + rest)[1..] == Amps(n - 1) + rest;
      BacksParse(Back(c), n - 1, rest);
      BacksOut(c, n - 1);
    }
  }

  lemma {:induction false} BacksOut<W>(c: Cmd<W>, n: nat)
    ensures Backs(Back(c), n) == Back(Backs(c, n))
  {
    if n > 0 {
      BacksOut(c, n - 1);
    }
  }

  lemma {:induction false} LineParses<W>(x: LineS<W>, rest: seq<Token<W>>)
    requires LineOk(x) && (rest == [] || Starts(rest, ')'))
    ensures ParseLine(LineTokens(x) + rest) == Ok(LineTree(x), rest)
    decreases x, 2
  {
    var tail := if x.Last? then rest else [Sym(';')] + (LineTokens(x.next) + rest);
    var amps: seq<Token<W>> := Amps(x.backs);
    assert LineTokens(x) + rest == PipeTokens(x.pipe) + (amps + tail);
    assert x.backs > 0 ==> (amps + tail)[0] == Sym('&');
    assert x.backs == 0 ==> amps + tail == tail;
    PipeParses(x.pipe, amps + tail);
    BacksParse(PipeTree(x.pipe), x.backs, tail);
    if x.Then? {
      assert tail[1..] == LineTokens(x.next) + rest;
      LineParses(x.next, rest);
    }
  }

  // ----- and nothing else is -----

  lemma {:induction false} RedirsDerived<W>(c: Cmd<W>, ts: seq<Token<W>>) returns (us: seq<Token<W>>)
    requires ParseRedirs(c, ts).Ok?
    ensures Simple(us) && ArgWords(us) == [] && ts == us + ParseRedirs(c, ts).rest
    ensures ParseRedirs(c, ts).cmd == Under(c, Redirections(us))
    decreases |ts|
  {
    hide Under;
    if StartsRedir(ts) {
      var d := Redir(c, ts[1].w, ts[0].c != '<');
      var vs := RedirsDerived(d, ts[2..]);
      us := ts[..2] + vs;
      assert us[2..] == vs && RedirFirst(us);
      UnderMore(c, ts[1].w, ts[0].c != '<', Redirections(vs));
    } else {
      us := [];
      UnderNone(c);
    }
  }

  lemma {:induction false} ExecDerived<W>(ts: seq<Token<W>>) returns (x: ExecS<W>)
    requires ParseExec(ts).Ok?
    ensures ExecOk(x) && ts == ExecTokens(x) + ParseExec(ts).rest && ParseExec(ts).cmd == ExecTree(x)
    decreases |ts|, 1
  {
    hide Under, Simple, ArgWords, Redirections, ParseRedirs;
    if Starts(ts, '(') {
      var p := ParseLine(ts[1..]);
      var line := LineDerived(ts[1..]);
      var redirs := RedirsDerived(p.cmd, p.rest[1..]);
      x := Group(line, redirs);
      GroupSpells(ts, line, p.rest, redirs, ParseExec(ts).rest);
    } else {
      var us := ExecAccepts(ts);
      x := Plain(us);
    }
  }

  lemma GroupSpells<W>(ts: seq<Token<W>>, line: LineS<W>, close: seq<Token<W>>, redirs: seq<Token<W>>, rest: seq<Token<W>>)
    requires Starts(ts, '(') && ts[1..] == LineTokens(line) + close && Starts(close, ')') && close[1..] == redirs + rest
    ensures ts == ExecTokens(Group(line, redirs)) + rest
  {
    hide LineTokens;
    assert close == [Sym(')')] + (redirs + rest);
    assert ts == [Sym('(')] + ts[1..];
  }

  lemma {:induction false} PipeDerived<W>(ts: seq<Token<W>>) returns (x: PipeS<W>)
    requires ParsePipe(ts).Ok?
    ensures PipeOk(x) && ts == PipeTokens(x) + ParsePipe(ts).rest && ParsePipe(ts).cmd == PipeTree(x)
    decreases |ts|, 2
  {
    hide ParseExec, ExecOk, ExecTokens, ExecTree;
    var p := ParseExec(ts);
    var e := ExecDerived(ts);
    if Starts(p.rest, '|') {
      var r := PipeDerived(p.rest[1..]);
      x := Piped(e, r);
      assert p.rest == [Sym('|')] + p.rest[1..];
    } else {
      x := One(e);
    }
  }

  /** The rest of a line after its pipe. */
  lemma {:induction false} BacksDerived<W>(c: Cmd<W>, ts: seq<Token<W>>, pipe: PipeS<W>, done: nat, all: seq<Token<W>>) returns (x: LineS<W>)
    requires ParseBacks(c, ts).Ok? && PipeOk(pipe) && c == Backs(PipeTree(pipe), done) && all == PipeTokens(pipe) + Amps(done) + ts
    ensures LineOk(x) && all == LineTokens(x) + ParseBacks(c, ts).rest && ParseBacks(c, ts).cmd == LineTree(x)
    decreases |ts|, 3
  {
    hide ParseLine, PipeOk, PipeTokens, PipeTree;
    if Starts(ts, '&') {
      assert Amps(done) + ts == Amps(done + 1) + ts[1..];
      assert all == PipeTokens(pipe) + Amps(done + 1) + ts[1..];
      x := BacksDerived(Back(c), ts[1..], pipe, done + 1, all);
    } else if Starts(ts, ';') {
      var next := LineDerived(ts[1..]);
      x := Then(pipe, done, next);
      assert ts == [Sym(';')] + ts[1..];
    } else {
      x := Last(pipe, done);
    }
  }

  lemma {:induction false} LineDerived<W>(ts: seq<Token<W>>) returns (x: LineS<W>)
    requires ParseLine(ts).Ok?
    ensures LineOk(x) && ts == LineTokens(x) + ParseLine(ts).rest && ParseLine(ts).cmd == LineTree(x)
    decreases |ts|, 4
  {
    hide ParsePipe, PipeOk, PipeTokens, PipeTree, ParseBacks, LineTokens, LineTree, LineOk;
    var p := ParsePipe(ts);
    var pipe := PipeDerived(ts);
    assert ts == PipeTokens(pipe) + Amps(0) + p.rest;
    x := BacksDerived(p.cmd, p.rest, pipe, 0, ts);
  }

  /** The parser of whole lines is the grammar: it reads ts as c exactly when some tree
      spells ts and means c. */
  lemma LineIff<W(!new)>(ts: seq<Token<W>>, c: Cmd<W>)
    ensures ParseLine(ts) == Ok(c, []) <==> exists x: LineS<W> :: LineOk(x) && LineTokens(x) == ts && LineTree(x) == c
  {
    hide ParseLine, LineOk, LineTokens, LineTree;
    if ParseLine(ts) == Ok(c, []) {
      var x := LineDerived(ts);
      assert LineTokens(x) + [] == LineTokens(x);
    }
    forall x: LineS<W> | LineOk(x) && LineTokens(x) == ts && LineTree(x) == c ensures ParseLine(ts) == Ok(c, []) {
      LineParses(x, []);
      assert LineTokens(x) + [] == LineTokens(x);
    }
  }
}
