/** The shell's lexical rules: how a line splits into tokens, and a spelling of tokens
    that splits back. */
module ShellLexer {
  import opened ShellGrammar
  import opened ShellWords

  /** A word by its first character and the place just after its last. */
  datatype Span = Span(q: nat, eq: nat)

  predicate IsSpace(c: char) {
    c == ' ' || c == '\t' || c == '\r' || c == '\n' || c == '\U{0B}'
  }

  predicate IsSymbol(c: char) {
    c == '<' || c == '|' || c == '>' || c == '&' || c == ';' || c == '(' || c == ')'
  }

  predicate InWord(c: char) {
    !IsSpace(c) && !IsSymbol(c)
  }

  function SkipSpace(text: string, p: nat): (r: nat)
    requires p <= |text|
    ensures p <= r <= |text|
    ensures forall i :: p <= i < r ==> IsSpace(text[i])
    ensures r == |text| || !IsSpace(text[r])
    decreases |text| - p
  {
    if p < |text| && IsSpace(text[p]) then SkipSpace(text, p + 1) else p
  }

  function WordEnd(text: string, p: nat): (r: nat)
    requires p <= |text|
    ensures p <= r <= |text|
    ensures forall i :: p <= i < r ==> InWord(text[i])
    ensures r == |text| || !InWord(text[r])
    decreases |text| - p
  {
    if p < |text| && InWord(text[p]) then WordEnd(text, p + 1) else p
  }

  /** The end of the token that starts at q. */
  function TokenEnd(text: string, q: nat): (r: nat)
    requires q < |text| && !IsSpace(text[q])
    ensures q < r <= |text|
  {
    if text[q] == '>' && q + 1 < |text| && text[q + 1] == '>' then q + 2
    else if IsSymbol(text[q]) then q + 1
    else WordEnd(text, q + 1)
  }

  function TokenAt(text: string, q: nat): Token<Span>
    requires q < |text| && !IsSpace(text[q])
  {
    if text[q] == '>' && q + 1 < |text| && text[q + 1] == '>' then Sym('+')
    else if IsSymbol(text[q]) then Sym(text[q])
    else Word(Span(q, TokenEnd(text, q)))
  }

  /** The tokens from p on. */
  function Toks(text: string, p: nat): seq<Token<Span>>
    requires p <= |text|
    decreases |text| - p
  {
    var q := SkipSpace(text, p);
    if q == |text| then [] else [TokenAt(text, q)] + Toks(text, TokenEnd(text, q))
  }

  lemma ToksSkip(text: string, p: nat, q: nat)
    requires p <= q <= |text| && forall i :: p <= i < q ==> IsSpace(text[i])
    ensures Toks(text, p) == Toks(text, q)
  {
    SkipUnique(text, p, SkipSpace(text, q));
  }

  lemma SkipUnique(text: string, p: nat, q: nat)
    requires p <= q <= |text| && (q == |text| || !IsSpace(text[q]))
    requires forall i :: p <= i < q ==> IsSpace(text[i])
    ensures SkipSpace(text, p) == q
  {
  }

  lemma WordEndUnique(text: string, p: nat, e: nat)
    requires p <= e <= |text| && (e == |text| || !InWord(text[e]))
    requires forall i :: p <= i < e ==> InWord(text[i])
    ensures WordEnd(text, p) == e
  {
  }

  /** A word of the text that cannot be made longer. */
  predicate IsWord(text: string, s: Span) {
    && s.q < s.eq <= |text|
    && (forall i :: s.q <= i < s.eq ==> InWord(text[i]))
    && (s.eq == |text| || !InWord(text[s.eq]))
  }

  lemma {:induction false} ToksAreWords(text: string, p: nat)
    requires p <= |text|
    ensures forall k :: 0 <= k < |Toks(text, p)| && Toks(text, p)[k].Word? ==> IsWord(text, Toks(text, p)[k].w)
    decreases |text| - p
  {
    var q := SkipSpace(text, p);
    if q < |text| {
      ToksAreWords(text, TokenEnd(text, q));
      assert Toks(text, p) == [TokenAt(text, q)] + Toks(text, TokenEnd(text, q));
    }
  }

  // ----- spelling -----

  function Slice(text: string): Span -> string {
    (s: Span) => if s.q <= s.eq <= |text| then text[s.q..s.eq] else ""
  }

  predicate GoodWord(w: string) {
    w != "" && '\0' !in w && forall i :: 0 <= i < |w| ==> InWord(w[i])
  }

  /** A token the printer makes: a word, or one of the symbols other than >>. */
  predicate GoodTok(t: Token<string>) {
    match t case Word(w) => GoodWord(w) case Sym(c) => IsSymbol(c)
  }

  predicate GoodToks(ts: seq<Token<string>>) {
    forall k :: 0 <= k < |ts| ==> GoodTok(ts[k])
  }

  function Spell(t: Token<string>): string {
    match t case Word(w) => w case Sym(c) => [c]
  }

  /** Each token followed by a space. */
  function Render(ts: seq<Token<string>>): string {
    if ts == [] then "" else Spell(ts[0]) + [' '] + Render(ts[1..])
  }

  lemma FirstToken(text: string, p: nat, t: Token<string>)
    requires GoodTok(t) && p + |Spell(t)| < |text| && text[p..p + |Spell(t)|] == Spell(t)
    requires text[p + |Spell(t)|] == ' '
    ensures SkipSpace(text, p) == p && TokenEnd(text, p) == p + |Spell(t)|
    ensures MapTok(Slice(text), TokenAt(text, p)) == t
  {
    var e := p + |Spell(t)|;
    assert forall i :: p <= i < e ==> text[i] == Spell(t)[i - p];
    assert text[p] == Spell(t)[0];
    SkipUnique(text, p, p);
    if t.Word? {
      WordEndUnique(text, p + 1, e);
    } else {
      assert text[p + 1] == ' ';
    }
  }

  lemma RenderedText(text: string, p: nat, ts: seq<Token<string>>, e: nat)
    requires p <= |text| && ts != [] && text[p..] == Render(ts) && e == p + |Spell(ts[0])|
    ensures e < |text| && text[p..e] == Spell(ts[0]) && text[e] == ' ' && text[e + 1..] == Render(ts[1..])
  {
    assert text[p..][..e - p] == Spell(ts[0]);
    assert text[p..][e - p] == ' ';
    assert text[e + 1..] == text[p..][e + 1 - p..];
  }

  lemma LexOne(text: string, p: nat, t: Token<string>, e: nat)
    requires GoodTok(t) && e == p + |Spell(t)| && e < |text| && text[p..e] == Spell(t) && text[e] == ' '
    ensures MapToks(Slice(text), Toks(text, p)) == [t] + MapToks(Slice(text), Toks(text, e + 1))
  {
    hide Toks, Spell, GoodTok, SkipSpace, TokenEnd, TokenAt, MapTok, Slice;
    FirstToken(text, p, t);
    ToksSkip(text, e, e + 1);
    ToksStep(text, p, e);
  }

  lemma ToksStep(text: string, p: nat, e: nat)
    requires p < |text| && SkipSpace(text, p) == p && TokenEnd(text, p) == e
    ensures Toks(text, p) == [TokenAt(text, p)] + Toks(text, e)
  {
  }

  /** The spelling of tokens splits back into them. */
  lemma {:induction false} LexRendered(text: string, p: nat, ts: seq<Token<string>>)
    requires p <= |text| && GoodToks(ts) && text[p..] == Render(ts)
    ensures MapToks(Slice(text), Toks(text, p)) == ts
    decreases |ts|
  {
    if ts == [] {
      SkipUnique(text, p, p);
    } else {
      var e := p + |Spell(ts[0])|;
      RenderedText(text, p, ts, e);
      hide Render, GoodTok, Spell, Slice, Toks;
      LexOne(text, p, ts[0], e);
      LexRendered(text, e + 1, ts[1..]);
    }
  }

  // ----- the round trip on text -----

  lemma {:induction false} PrintedTokens(level: nat, c: Cmd<string>)
    requires AllWords(c, GoodWord)
    ensures GoodToks(Print(level, c))
    decreases c, if Level(c) > level then 1 else 0
  {
    if Level(c) > level {
      PrintedTokens(3, c);
    } else {
      match c
      case Exec(args) =>
      case Redir(sub, file, out) => PrintedTokens(0, sub);
      case Pipe(l, r) => PrintedTokens(0, l); PrintedTokens(1, r);
      case Back(sub) => PrintedTokens(2, sub);
      case List(l, r) => PrintedTokens(2, l); PrintedTokens(3, r);
    }
  }

  lemma {:induction false} SpelledWithoutNul(ts: seq<Token<string>>)
    requires GoodToks(ts)
    ensures '\0' !in Render(ts)
    decreases |ts|
  {
    if ts != [] {
      SpelledWithoutNul(ts[1..]);
      assert '\0' !in Spell(ts[0]);
    }
  }

  /** The text of a command. */
  function Unparse(c: Cmd<string>): string {
    Render(Print(3, c))
  }

  /** parseline, on the text of c, gives c back (its words as places in the text) and
      leaves nothing. */
  lemma TextRoundTrip(c: Cmd<string>)
    requires Fits(c) && AllWords(c, GoodWord)
    ensures var r := ParseLine(Toks(Unparse(c), 0));
            r.Ok? && r.rest == [] && Map(Slice(Unparse(c)), r.cmd) == c
    ensures '\0' !in Unparse(c)
  {
    var text := Unparse(c);
    PrintedTokens(3, c);
    SpelledWithoutNul(Print(3, c));
    assert text[0..] == text;
    LexRendered(text, 0, Print(3, c));
    MapLine(Slice(text), Toks(text, 0));
    RoundTrip(c);
  }

  /** So two commands are never spelled alike. */
  lemma UnparseInjective(c: Cmd<string>, d: Cmd<string>)
    requires Fits(c) && AllWords(c, GoodWord) && Fits(d) && AllWords(d, GoodWord)
    ensures Unparse(c) == Unparse(d) <==> c == d
  {
    TextRoundTrip(c);
    TextRoundTrip(d);
  }
}
