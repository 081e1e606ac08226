/** The tokens of a line, however it is spaced: the lexical rules as spellings with gaps,
    and that they are exactly what gettoken finds. */
module ShellSpacing {
  import opened ShellGrammar
  import opened ShellLexer

  /** A token of the text with its word written out. */
  function TextOf(text: string, t: Token<Span>): Token<string> {
    match t case Word(s) => Word(Slice(text)(s)) case Sym(c) => Sym(c)
  }

  function Texts(text: string, ts: seq<Token<Span>>): (r: seq<Token<string>>)
    ensures |r| == |ts| && forall k :: 0 <= k < |ts| ==> r[k] == TextOf(text, ts[k])
  {
    seq(|ts|, k requires 0 <= k < |ts| => TextOf(text, ts[k]))
  }

  predicate AllSpace(g: string) {
    forall i :: 0 <= i < |g| ==> IsSpace(g[i])
  }

  /** A word, a symbol, or >>. */
  predicate AnyTok(t: Token<string>) {
    GoodTok(t) || t == Sym('+')
  }

  function Spelling(t: Token<string>): (s: string)
    ensures AnyTok(t) ==> s != ""
  {
    if t == Sym('+') then ">>" else Spell(t)
  }

  /** Two tokens that would be read as something else without a gap. */
  predicate Fuse(a: Token<string>, b: Token<string>) {
    (a.Word? && b.Word?) || (a == Sym('>') && (b == Sym('>') || b == Sym('+')))
  }

  /** Gaps of white space around the tokens, empty only between tokens that do not
      fuse. */
  predicate GapsOk(ts: seq<Token<string>>, gaps: seq<string>)
    ensures GapsOk(ts, gaps) ==> |gaps| == |ts| + 1
  {
    && |gaps| == |ts| + 1
    && (forall k :: 0 <= k < |ts| ==> AnyTok(ts[k]))
    && (forall k :: 0 <= k < |gaps| ==> AllSpace(gaps[k]))
    && (forall k :: 0 < k < |ts| && gaps[k] == "" ==> !Fuse(ts[k - 1], ts[k]))
  }

  function Spaced(ts: seq<Token<string>>, gaps: seq<string>): string
    requires |gaps| == |ts| + 1
  {
    if ts == [] then gaps[0] else gaps[0] + Spelling(ts[0]) + Spaced(ts[1..], gaps[1..])
  }

  /** What follows a token does not belong to it. */
  predicate StopsAt(t: Token<string>, text: string, e: nat) {
    e == |text| || (e < |text| && (t.Word? ==> !InWord(text[e])) && (t == Sym('>') ==> text[e] != '>'))
  }

  lemma TokenHere(text: string, q: nat, t: Token<string>)
    requires AnyTok(t) && q + |Spelling(t)| <= |text| && text[q..q + |Spelling(t)|] == Spelling(t)
    requires StopsAt(t, text, q + |Spelling(t)|)
    ensures q < |text| && !IsSpace(text[q]) && TokenEnd(text, q) == q + |Spelling(t)|
    ensures TextOf(text, TokenAt(text, q)) == t
  {
    var e := q + |Spelling(t)|;
    assert forall i :: q <= i < e ==> text[i] == Spelling(t)[i - q];
    assert text[q] == Spelling(t)[0];
    if t.Word? {
      WordEndUnique(text, q + 1, e);
    } else if t == Sym('+') {
      assert text[q + 1] == '>';
    }
  }

  lemma {:induction false} FirstOf(ts: seq<Token<string>>, gaps: seq<string>, t: Token<string>)
    requires GapsOk(ts, gaps) && Spaced(ts, gaps) != "" && (ts != [] && gaps[0] == "" ==> !Fuse(t, ts[0])) && AnyTok(t)
    ensures var c := Spaced(ts, gaps)[0]; (t.Word? ==> !InWord(c)) && (t == Sym('>') ==> c != '>')
  {
    var s := Spaced(ts, gaps);
    if gaps[0] != "" {
      assert s[0] == gaps[0][0];
    } else if ts != [] {
      assert s[0] == Spelling(ts[0])[0];
    }
  }

  lemma RestOk(ts: seq<Token<string>>, gaps: seq<string>)
    requires GapsOk(ts, gaps) && ts != []
    ensures GapsOk(ts[1..], gaps[1..]) && AnyTok(ts[0]) && AllSpace(gaps[0])
    ensures ts[1..] != [] && gaps[1..][0] == "" ==> !Fuse(ts[0], ts[1..][0])
  {
    forall k | 0 < k < |ts[1..]| && gaps[1..][k] == "" ensures !Fuse(ts[1..][k - 1], ts[1..][k]) {
      assert gaps[k + 1] == "" && ts[k] == ts[1..][k - 1] && ts[k + 1] == ts[1..][k];
    }
  }

  /** Where the first gap and the first token of a spelling lie in the text. */
  lemma FirstSpaced(text: string, p: nat, gap: string, word: string, rest: string)
    requires p <= |text| && text[p..] == gap + word + rest
    ensures p + |gap| + |word| <= |text| && text[p..p + |gap|] == gap
    ensures text[p + |gap|..p + |gap| + |word|] == word && text[p + |gap| + |word|..] == rest
  {
    var q, e := p + |gap|, p + |gap| + |word|;
    var s := text[p..];
    assert s[..|gap|] == gap && s[|gap|..|gap| + |word|] == word && s[|gap| + |word|..] == rest;
    assert text[p..q] == s[..|gap|] && text[q..e] == s[|gap|..|gap| + |word|] && text[e..] == s[|gap| + |word|..];
  }

  lemma Stops(text: string, e: nat, t: Token<string>, ts: seq<Token<string>>, gaps: seq<string>)
    requires e <= |text| && GapsOk(ts, gaps) && text[e..] == Spaced(ts, gaps) && AnyTok(t)
    requires ts != [] && gaps[0] == "" ==> !Fuse(t, ts[0])
    ensures StopsAt(t, text, e)
  {
    hide Spaced, GapsOk, Fuse, AnyTok, InWord;
    if e < |text| {
      assert text[e..][0] == text[e];
      FirstOf(ts, gaps, t);
    }
  }

  lemma SkipGap(text: string, p: nat, q: nat)
    requires p <= q <= |text| && AllSpace(text[p..q]) && (q < |text| ==> !IsSpace(text[q]))
    ensures SkipSpace(text, p) == q
  {
    assert forall i :: p <= i < q ==> text[i] == text[p..q][i - p];
    SkipUnique(text, p, q);
  }

  /** However it is spaced, a spelling of tokens is read as those tokens. */
  lemma {:induction false} SpacedLexes(text: string, p: nat, ts: seq<Token<string>>, gaps: seq<string>)
    requires p <= |text| && GapsOk(ts, gaps) && text[p..] == Spaced(ts, gaps)
    ensures Texts(text, Toks(text, p)) == ts
    decreases |ts|
  {
    hide GapsOk, TextOf, Spelling, Fuse, AllSpace, AnyTok, StopsAt, SkipSpace, TokenEnd, TokenAt, IsSpace;
    if ts == [] {
      assert text[p..|text|] == text[p..] == gaps[0];
      OneGap(gaps);
      SkipGap(text, p, |text|);
    } else {
      var q := p + |gaps[0]|;
      var e := q + |Spelling(ts[0])|;
      RestOk(ts, gaps);
      FirstSpaced(text, p, gaps[0], Spelling(ts[0]), Spaced(ts[1..], gaps[1..]));
      Stops(text, e, ts[0], ts[1..], gaps[1..]);
      TokenHere(text, q, ts[0]);
      SkipGap(text, p, q);
      SpacedLexes(text, e, ts[1..], gaps[1..]);
      ToksFrom(text, p, q, e);
    }
  }

  lemma OneGap(gaps: seq<string>)
    requires GapsOk([], gaps)
    ensures AllSpace(gaps[0])
  {
  }

  lemma ToksFrom(text: string, p: nat, q: nat, e: nat)
    requires p <= q < |text| && SkipSpace(text, p) == q && !IsSpace(text[q]) && TokenEnd(text, q) == e <= |text|
    ensures Toks(text, p) == [TokenAt(text, q)] + Toks(text, e)
    ensures Texts(text, Toks(text, p)) == [TextOf(text, TokenAt(text, q))] + Texts(text, Toks(text, e))
  {
    hide SkipSpace, TokenEnd, TokenAt, TextOf;
  }

  /** And every line is such a spelling of its tokens. */
  lemma {:induction false} LineIsSpaced(text: string, p: nat) returns (gaps: seq<string>)
    requires p <= |text| && '\0' !in text
    ensures GapsOk(Texts(text, Toks(text, p)), gaps)
    ensures text[p..] == Spaced(Texts(text, Toks(text, p)), gaps)
    decreases |text| - p
  {
    hide TextOf, Spelling, TokenEnd, TokenAt, Fuse, AnyTok, GapsOk, Spaced, Toks;
    var q := SkipSpace(text, p);
    if q == |text| {
      gaps := [text[p..]];
      NothingSpaced(text, p);
    } else {
      var e := TokenEnd(text, q);
      var more := LineIsSpaced(text, e);
      gaps := [text[p..q]] + more;
      ToksFrom(text, p, q, e);
      SpelledHere(text, q, e);
      OneMoreSpaced(text, p, q, e, TextOf(text, TokenAt(text, q)), Texts(text, Toks(text, e)), more);
    }
  }

  lemma NothingSpaced(text: string, p: nat)
    requires p <= |text| && SkipSpace(text, p) == |text|
    ensures Toks(text, p) == [] && GapsOk([], [text[p..]]) && Spaced([], [text[p..]]) == text[p..] && Texts(text, Toks(text, p)) == []
  {
  }

  lemma OneMoreSpaced(text: string, p: nat, q: nat, e: nat, t: Token<string>, ts: seq<Token<string>>, more: seq<string>)
    requires p <= q <= e <= |text| && AnyTok(t) && StopsAt(t, text, e) && text[q..e] == Spelling(t) && AllSpace(text[p..q])
    requires GapsOk(ts, more) && text[e..] == Spaced(ts, more)
    ensures GapsOk([t] + ts, [text[p..q]] + more) && text[p..] == Spaced([t] + ts, [text[p..q]] + more)
  {
    hide Spelling, Fuse, AnyTok;
    GapsMore(text, e, t, ts, text[p..q], more);
    hide GapsOk;
    assert ([t] + ts)[1..] == ts && ([text[p..q]] + more)[1..] == more;
    assert text[p..] == text[p..q] + text[q..e] + text[e..];
  }

  lemma SpelledHere(text: string, q: nat, e: nat)
    requires q < |text| && !IsSpace(text[q]) && e == TokenEnd(text, q) && '\0' !in text
    ensures var t := TextOf(text, TokenAt(text, q)); AnyTok(t) && text[q..e] == Spelling(t) && StopsAt(t, text, e)
  {
    if text[q] == '>' && q + 1 < |text| && text[q + 1] == '>' {
      assert text[q..q + 2] == ">>";
    } else if IsSymbol(text[q]) {
      assert text[q..q + 1] == [text[q]];
    }
  }

  lemma GapsMore(text: string, e: nat, t: Token<string>, ts: seq<Token<string>>, gap: string, more: seq<string>)
    requires e <= |text| && AnyTok(t) && StopsAt(t, text, e) && AllSpace(gap) && GapsOk(ts, more) && text[e..] == Spaced(ts, more)
    ensures GapsOk([t] + ts, [gap] + more)
  {
    var us, gs := [t] + ts, [gap] + more;
    if ts != [] && more[0] == "" {
      assert text[e..][0] == Spelling(ts[0])[0];
    }
    forall k | 0 < k < |us| && gs[k] == "" ensures !Fuse(us[k - 1], us[k]) {
      if k > 1 {
        assert more[k - 1] == "" && us[k - 1] == ts[k - 2] && us[k] == ts[k - 1];
      }
    }
  }
}
