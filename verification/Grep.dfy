/** The regular-expression matcher of grep against a declarative meaning of patterns.
    A C string is a sequence without NUL; reading at its end gives NUL. */
module Grep {

  const NUL: char := '\0'

  function At(s: string, i: nat): char {
    if i < |s| then s[i] else NUL
  }

  ghost predicate CString(s: string) {
    forall i :: 0 <= i < |s| ==> s[i] != NUL
  }

  // ----- what a pattern means -----

  /** A pattern character, where '.' stands for any. */
  datatype Atom = One(c: char) | Many(c: char)

  /** A pattern without its leading '^': atoms, and whether it ends in '$'. */
  datatype Pattern = Pattern(atoms: seq<Atom>, atEnd: bool)

  predicate Accepts(c: char, x: char) {
    c == '.' || c == x
  }

  /** The words an atom stands for. */
  ghost predicate AtomLang(a: Atom, w: string) {
    match a
    case One(c) => |w| == 1 && Accepts(c, w[0])
    case Many(c) => forall i :: 0 <= i < |w| ==> Accepts(c, w[i])
  }

  ghost function Join(pieces: seq<string>): string {
    if pieces == [] then "" else pieces[0] + Join(pieces[1..])
  }

  ghost predicate Cuts(atoms: seq<Atom>, pieces: seq<string>, w: string) {
    && |pieces| == |atoms|
    && Join(pieces) == w
    && forall i :: 0 <= i < |atoms| ==> AtomLang(atoms[i], pieces[i])
  }

  /** w can be cut into pieces, one in the language of each atom. */
  ghost predicate InLang(atoms: seq<Atom>, w: string) {
    exists pieces :: Cuts(atoms, pieces, w)
  }

  function Parse(re: string): Pattern {
    if re == "" then Pattern([], false)
    else if At(re, 1) == '*' then
      var p := Parse(re[2..]);
      Pattern([Many(re[0])] + p.atoms, p.atEnd)
    else if re == "$" then Pattern([], true)
    else
      var p := Parse(re[1..]);
      Pattern([One(re[0])] + p.atoms, p.atEnd)
  }

  ghost predicate PrefixAt(re: string, text: string, k: int) {
    0 <= k <= |text| && InLang(Parse(re).atoms, text[..k]) && (Parse(re).atEnd ==> k == |text|)
  }

  /** Some prefix of the text, the whole of it after a '$', is in the language. */
  ghost predicate Here(re: string, text: string) {
    exists k :: PrefixAt(re, text, k)
  }

  /** Some suffix of the text has such a prefix; with '^' the text itself. */
  ghost predicate Matches(re: string, text: string) {
    if At(re, 0) == '^' then Here(re[1..], text)
    else exists i :: 0 <= i <= |text| && Here(re, text[i..])
  }

  // ----- one atom at a time -----

  ghost predicate SplitsAt(a: Atom, atoms: seq<Atom>, w: string, j: int) {
    0 <= j <= |w| && AtomLang(a, w[..j]) && InLang(atoms, w[j..])
  }

  lemma InLangCons(a: Atom, atoms: seq<Atom>, w: string)
    ensures InLang([a] + atoms, w) <==> exists j :: SplitsAt(a, atoms, w, j)
  {
    if InLang([a] + atoms, w) {
      var pieces :| Cuts([a] + atoms, pieces, w);
      var j := |pieces[0]|;
      assert AtomLang(([a] + atoms)[0], pieces[0]);
      assert w[..j] == pieces[0] && w[j..] == Join(pieces[1..]);
      forall i | 0 <= i < |atoms| ensures AtomLang(atoms[i], pieces[1..][i]) {
        assert AtomLang(([a] + atoms)[i + 1], pieces[i + 1]);
      }
      assert Cuts(atoms, pieces[1..], w[j..]);
      assert SplitsAt(a, atoms, w, j);
    }
    if j :| SplitsAt(a, atoms, w, j) {
      var rest :| Cuts(atoms, rest, w[j..]);
      var pieces := [w[..j]] + rest;
      assert pieces[1..] == rest;
      assert w == w[..j] + w[j..];
      assert Cuts([a] + atoms, pieces, w);
    }
  }

  ghost predicate Shifts(a: Atom, re: string, text: string, j: int) {
    0 <= j <= |text| && AtomLang(a, text[..j]) && Here(re, text[j..])
  }

  /** A pattern that begins with atom a matches here iff a takes some prefix and the
      rest matches after it. */
  lemma HereCons(a: Atom, rest: string, re: string, text: string)
    requires Parse(re) == Pattern([a] + Parse(rest).atoms, Parse(rest).atEnd)
    ensures Here(re, text) <==> exists j :: Shifts(a, rest, text, j)
  {
    var atoms := Parse(rest).atoms;
    if Here(re, text) {
      var k :| PrefixAt(re, text, k);
      InLangCons(a, atoms, text[..k]);
      var j :| SplitsAt(a, atoms, text[..k], j);
      assert text[..k][..j] == text[..j] && text[..k][j..] == text[j..][..k - j];
      assert PrefixAt(rest, text[j..], k - j);
      assert Shifts(a, rest, text, j);
    }
    if j :| Shifts(a, rest, text, j) {
      var k :| PrefixAt(rest, text[j..], k);
      var w := text[..j + k];
      assert w[..j] == text[..j] && w[j..] == text[j..][..k];
      assert SplitsAt(a, atoms, w, j);
      InLangCons(a, atoms, w);
      assert PrefixAt(re, text, j + k);
    }
  }

  lemma HereEmpty(text: string)
    ensures Here("", text)
  {
    assert Cuts([], [], text[..0]);
    assert PrefixAt("", text, 0);
  }

  lemma HereEnd(text: string)
    ensures Here("$", text) <==> text == ""
  {
    assert Parse("$") == Pattern([], true);
    if Here("$", text) {
      var k :| PrefixAt("$", text, k);
      assert InLang([], text[..k]);
      var pieces :| Cuts([], pieces, text[..k]);
    }
    if text == "" {
      assert Cuts([], [], text[..0]);
      assert PrefixAt("$", text, 0);
    }
  }

  lemma HereOne(re: string, text: string)
    requires re != "" && At(re, 1) != '*' && re != "$"
    ensures Here(re, text) <==> text != "" && Accepts(re[0], text[0]) && Here(re[1..], text[1..])
  {
    HereCons(One(re[0]), re[1..], re, text);
    if text != "" && Accepts(re[0], text[0]) && Here(re[1..], text[1..]) {
      assert Shifts(One(re[0]), re[1..], text, 1);
    }
  }

  // ----- the matcher -----

  method MatchHere(re: string, text: string) returns (r: bool)
    requires CString(re) && CString(text)
    ensures r <==> Here(re, text)
    decreases |re|, 0
  {
    if At(re, 0) == NUL {
      HereEmpty(text);
      return true;
    }
    if At(re, 1) == '*' {
      HereCons(Many(re[0]), re[2..], re, text);
      r := MatchStar(re[0], re[2..], text);
      return;
    }
    if At(re, 0) == '$' && At(re, 1) == NUL {
      assert re == "$";
      HereEnd(text);
      return At(text, 0) == NUL;
    }
    HereOne(re, text);
    if At(text, 0) != NUL && (At(re, 0) == '.' || At(re, 0) == At(text, 0)) {
      r := MatchHere(re[1..], text[1..]);
    } else {
      r := false;
    }
  }

  /** c*re at the beginning of text: a loop over how many characters c* takes. */
  method MatchStar(c: char, re: string, text: string) returns (r: bool)
    requires CString(re) && CString(text)
    ensures r <==> exists j :: Shifts(Many(c), re, text, j)
    decreases |re|, 1
  {
    var i := 0;
    while true
      invariant 0 <= i <= |text|
      invariant AtomLang(Many(c), text[..i])
      invariant forall j :: 0 <= j < i ==> !Shifts(Many(c), re, text, j)
      decreases |text| - i
    {
      var here := MatchHere(re, text[i..]);
      if here {
        assert Shifts(Many(c), re, text, i);
        return true;
      }
      if !(At(text, i) != NUL && (At(text, i) == c || c == '.')) {
        forall j | i < j ensures !Shifts(Many(c), re, text, j) {
          if j <= |text| {
            assert text[..j][i] == text[i];
          }
        }
        return false;
      }
      assert text[..i + 1] == text[..i] + [text[i]];
      i := i + 1;
    }
  }

  /** match: 1 exactly when the text contains a match. */
  method Match(re: string, text: string) returns (r: bool)
    requires CString(re) && CString(text)
    ensures r <==> Matches(re, text)
  {
    if At(re, 0) == '^' {
      r := MatchHere(re[1..], text);
      return;
    }
    var i := 0;
    while true
      invariant 0 <= i <= |text|
      invariant forall j :: 0 <= j < i ==> !Here(re, text[j..])
      decreases |text| - i
    {
      var here := MatchHere(re, text[i..]);
      if here {
        return true;
      }
      if At(text, i) == NUL {
        return false;
      }
      i := i + 1;
    }
  }
}
