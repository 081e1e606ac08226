/** The parser looks at words only as words: replacing them, and >> by >, before the
    parse or after it is the same. */
module ShellWords {
  import opened ShellGrammar

  function MapTok<W, V>(f: W -> V, t: Token<W>): Token<V> {
    match t case Word(w) => Word(f(w)) case Sym(c) => Sym(if c == '+' then '>' else c)
  }

  function MapToks<W, V>(f: W -> V, ts: seq<Token<W>>): (r: seq<Token<V>>)
    ensures |r| == |ts| && forall k :: 0 <= k < |ts| ==> r[k] == MapTok(f, ts[k])
  {
    seq(|ts|, k requires 0 <= k < |ts| => MapTok(f, ts[k]))
  }

  function MapSeq<W, V>(f: W -> V, ws: seq<W>): (r: seq<V>)
    ensures |r| == |ws| && forall k :: 0 <= k < |ws| ==> r[k] == f(ws[k])
  {
    seq(|ws|, k requires 0 <= k < |ws| => f(ws[k]))
  }

  function Map<W, V>(f: W -> V, c: Cmd<W>): Cmd<V> {
    match c
    case Exec(args) => Exec(MapSeq(f, args))
    case Redir(sub, file, out) => Redir(Map(f, sub), f(file), out)
    case Pipe(l, r) => Pipe(Map(f, l), Map(f, r))
    case List(l, r) => List(Map(f, l), Map(f, r))
    case Back(sub) => Back(Map(f, sub))
  }

  function MapParse<W, V>(f: W -> V, p: Parse<W>): Parse<V> {
    match p case Ok(c, rest) => Ok(Map(f, c), MapToks(f, rest)) case Fail(e) => Fail(e)
  }

  lemma MapHead<W, V>(f: W -> V, ts: seq<Token<W>>, c: char)
    requires c != '>' && c != '+'
    ensures Starts(MapToks(f, ts), c) == Starts(ts, c)
    ensures ts != [] ==> MapToks(f, ts)[1..] == MapToks(f, ts[1..])
  {
  }

  lemma {:induction false} MapOpen<W, V>(f: W -> V, c: Cmd<W>)
    ensures Open(Map(f, c)) == Open(c)
    ensures Open(c) ==> Args(Map(f, c)) == MapSeq(f, Args(c))
  {
    if c.Redir? {
      MapOpen(f, c.cmd);
    }
  }

  lemma {:induction false} MapAddArg<W, V>(f: W -> V, c: Cmd<W>, w: W)
    requires Open(c)
    ensures Open(Map(f, c)) && Map(f, AddArg(c, w)) == AddArg(Map(f, c), f(w))
  {
    MapOpen(f, c);
    if c.Redir? {
      MapAddArg(f, c.cmd, w);
    } else {
      assert MapSeq(f, c.args + [w]) == MapSeq(f, c.args) + [f(w)];
    }
  }

  lemma {:induction false} MapRedirs<W, V>(f: W -> V, c: Cmd<W>, ts: seq<Token<W>>)
    ensures ParseRedirs(Map(f, c), MapToks(f, ts)) == MapParse(f, ParseRedirs(c, ts))
    decreases |ts|
  {
    if StartsRedir(ts) && |ts| >= 2 && ts[1].Word? {
      assert MapToks(f, ts)[2..] == MapToks(f, ts[2..]);
      MapRedirs(f, Redir(c, ts[1].w, ts[0].c != '<'), ts[2..]);
    }
  }

  lemma {:induction false} MapArgs<W, V>(f: W -> V, c: Cmd<W>, ts: seq<Token<W>>)
    requires Open(c)
    ensures Open(Map(f, c))
    ensures ParseArgsAfter(Map(f, c), MapToks(f, ts)) == MapParse(f, ParseArgsAfter(c, ts))
    decreases |ts|
  {
    MapOpen(f, c);
    MapRedirs(f, c, ts);
    var p := ParseRedirs(c, ts);
    if p.Ok? {
      MapOpen(f, p.cmd);
      if !EndsExec(p.rest) && p.rest[0].Word? && |Args(p.cmd)| + 1 < MAXARGS {
        MapAddArg(f, p.cmd, p.rest[0].w);
        MapArgs(f, AddArg(p.cmd, p.rest[0].w), p.rest[1..]);
        MapHead(f, p.rest, '(');
      }
    }
  }

  lemma {:induction false} MapExec<W, V>(f: W -> V, ts: seq<Token<W>>)
    ensures ParseExec(MapToks(f, ts)) == MapParse(f, ParseExec(ts))
    decreases |ts|, 1
  {
    MapHead(f, ts, '(');
    if Starts(ts, '(') {
      MapLine(f, ts[1..]);
      var p := ParseLine(ts[1..]);
      if p.Ok? {
        MapHead(f, p.rest, ')');
        if Starts(p.rest, ')') {
          MapRedirs(f, p.cmd, p.rest[1..]);
        }
      }
    } else {
      MapArgs(f, Exec([]), ts);
      assert Map(f, Exec([])) == Exec([]);
    }
  }

  lemma {:induction false} MapPipe<W, V>(f: W -> V, ts: seq<Token<W>>)
    ensures ParsePipe(MapToks(f, ts)) == MapParse(f, ParsePipe(ts))
    decreases |ts|, 2
  {
    MapExec(f, ts);
    var p := ParseExec(ts);
    if p.Ok? {
      MapHead(f, p.rest, '|');
      if Starts(p.rest, '|') {
        MapPipe(f, p.rest[1..]);
      }
    }
  }

  /** Words are carried, not read; >> is parsed as > is. */
  lemma {:induction false} MapLine<W, V>(f: W -> V, ts: seq<Token<W>>)
    ensures ParseLine(MapToks(f, ts)) == MapParse(f, ParseLine(ts))
    decreases |ts|, 4
  {
    MapPipe(f, ts);
    var p := ParsePipe(ts);
    if p.Ok? {
      MapBacks(f, p.cmd, p.rest);
    }
  }

  lemma {:induction false} MapBacks<W, V>(f: W -> V, c: Cmd<W>, ts: seq<Token<W>>)
    ensures ParseBacks(Map(f, c), MapToks(f, ts)) == MapParse(f, ParseBacks(c, ts))
    decreases |ts|, 3
  {
    MapHead(f, ts, '&');
    MapHead(f, ts, ';');
    if Starts(ts, '&') {
      MapBacks(f, Back(c), ts[1..]);
    } else if Starts(ts, ';') {
      MapLine(f, ts[1..]);
    }
  }

  // ----- the words of a command -----

  ghost function WordSet<W>(c: Cmd<W>): set<W> {
    match c
    case Exec(args) => set w | w in args
    case Redir(sub, file, _) => WordSet(sub) + {file}
    case Pipe(l, r) => WordSet(l) + WordSet(r)
    case List(l, r) => WordSet(l) + WordSet(r)
    case Back(sub) => WordSet(sub)
  }

  ghost predicate AllWords<W(!new)>(c: Cmd<W>, good: W -> bool) {
    forall w :: w in WordSet(c) ==> good(w)
  }

  lemma {:induction false} FixedWords<W>(c: Cmd<W>, f: W -> W, w: W)
    requires Map(f, c) == Map(v => v, c) && w in WordSet(c)
    ensures f(w) == w
  {
    match c
    case Exec(args) =>
      var k :| 0 <= k < |args| && args[k] == w;
      assert MapSeq(f, args)[k] == MapSeq(v => v, args)[k];
    case Redir(sub, file, _) =>
      if w in WordSet(sub) {
        FixedWords(sub, f, w);
      }
    case Pipe(l, r) => FixedWords(if w in WordSet(l) then l else r, f, w);
    case List(l, r) => FixedWords(if w in WordSet(l) then l else r, f, w);
    case Back(sub) => FixedWords(sub, f, w);
  }

  /** Every word of the command comes from the tokens. */
  lemma WordsFromTokens<W(!new)>(ts: seq<Token<W>>, good: W -> bool, some: W)
    requires good(some) && forall k :: 0 <= k < |ts| && ts[k].Word? ==> good(ts[k].w)
    ensures var r := ParseLine(ts); r.Ok? ==> AllWords(r.cmd, good)
  {
    var f := (w: W) => if good(w) then w else some;
    var id := (w: W) => w;
    MapLine(f, ts);
    MapLine(id, ts);
    assert MapToks(f, ts) == MapToks(id, ts);
    var r := ParseLine(ts);
    if r.Ok? {
      forall w | w in WordSet(r.cmd) ensures good(w) {
        FixedWords(r.cmd, f, w);
      }
    }
  }
}
