/** Path names: skipelem, and what iterating it yields. */
module Paths {

  const DIRSIZ: nat := 14

  function Cut(s: string): string {
    if |s| <= DIRSIZ then s else s[..DIRSIZ]
  }

  /** All the '/'-separated pieces of a path, empty ones too. */
  function Split(path: string): (r: seq<string>)
    ensures r != []
  {
    if path == "" then [""]
    else
      var r := Split(path[1..]);
      if path[0] == '/' then [""] + r else [[path[0]] + r[0]] + r[1..]
  }

  /** The nonempty ones, each cut to DIRSIZ bytes. */
  function NonEmpty(pieces: seq<string>): seq<string> {
    if pieces == [] then []
    else if pieces[0] == "" then NonEmpty(pieces[1..])
    else [Cut(pieces[0])] + NonEmpty(pieces[1..])
  }

  function Components(path: string): seq<string> {
    NonEmpty(Split(path))
  }

  predicate NoSlash(s: string) {
    forall i :: 0 <= i < |s| ==> s[i] != '/'
  }

  /** A piece without slashes, then a slash or the end. */
  lemma {:induction false} SplitPiece(s: string, rest: string)
    requires NoSlash(s) && (rest == "" || rest[0] == '/')
    ensures Split(s + rest) == [s] + (if rest == "" then [] else Split(rest[1..]))
    decreases |s|
  {
    if s == "" {
      assert s + rest == rest;
      assert rest != "" ==> Split(rest) == [""] + Split(rest[1..]);
    } else {
      assert (s + rest)[1..] == s[1..] + rest;
      SplitPiece(s[1..], rest);
      assert [s[0]] + s[1..] == s;
    }
  }

  lemma ComponentsSlash(path: string)
    requires path != "" && path[0] == '/'
    ensures Components(path) == Components(path[1..])
  {
  }

  lemma ComponentsPiece(s: string, rest: string)
    requires s != "" && NoSlash(s) && (rest == "" || rest[0] == '/')
    ensures Components(s + rest) == [Cut(s)] + Components(rest)
  {
    SplitPiece(s, rest);
    if rest != "" {
      ComponentsSlash(rest);
      assert ([s] + Split(rest[1..]))[1..] == Split(rest[1..]);
    } else {
      assert NonEmpty([s]) == [Cut(s)] + NonEmpty([s][1..]);
    }
  }

  method SkipSlashes(path: string, p0: nat) returns (p: nat)
    requires p0 <= |path|
    ensures p0 <= p <= |path| && Components(path[p0..]) == Components(path[p..])
    ensures p == |path| || path[p] != '/'
    ensures forall i :: p0 <= i < p ==> path[i] == '/'
  {
    hide Components;
    p := p0;
    while p < |path| && path[p] == '/'
      invariant p0 <= p <= |path| && Components(path[p0..]) == Components(path[p..])
      invariant forall i :: p0 <= i < p ==> path[i] == '/'
    {
      ComponentsSlash(path[p..]);
      assert path[p..][1..] == path[p + 1..];
      p := p + 1;
    }
  }

  /** From p0 to p there are slashes up to s, an element up to e and slashes up to p; the
      name is the first DIRSIZ bytes of the element. */
  ghost predicate Element(path: string, p0: int, s: int, e: int, p: int, name: string) {
    && 0 <= p0 <= s < e <= p <= |path|
    && (forall i :: p0 <= i < s || e <= i < p ==> path[i] == '/')
    && (forall i :: s <= i < e ==> path[i] != '/')
    && (e == |path| || path[e] == '/') && (p == |path| || path[p] != '/')
    && |name| == (if e - s < DIRSIZ then e - s else DIRSIZ) && forall i :: 0 <= i < |name| ==> name[i] == path[s + i]
  }

  /** skipelem at position p of the path: whether there is an element, the element, and
      the position of what follows, which does not start with a slash. */
  method SkipElem(path: string, p0: nat) returns (found: bool, name: string, p: nat)
    requires p0 <= |path|
    ensures p0 <= p <= |path|
    ensures found <==> Components(path[p0..]) != []
    ensures found ==> p > p0 && Components(path[p0..]) == [name] + Components(path[p..])
    ensures found ==> (p == |path| <==> Components(path[p..]) == [])
    ensures found ==> exists s, e :: Element(path, p0, s, e, p, name)
    ensures !found ==> forall i :: p0 <= i < |path| ==> path[i] == '/'
  {
    hide Components;
    p := SkipSlashes(path, p0);
    LastIsLast(path[p..]);
    if p == |path| {
      return false, "", p;
    }
    var s := p;
    while p < |path| && path[p] != '/'
      invariant s <= p <= |path|
      invariant forall i :: s <= i < p ==> path[i] != '/'
    {
      p := p + 1;
    }
    name := if p - s >= DIRSIZ then path[s..s + DIRSIZ] else path[s..p];
    found := true;
    assert path[s..] == path[s..p] + path[p..];
    ComponentsPiece(path[s..p], path[p..]);
    assert name == Cut(path[s..p]);
    ghost var e := p;
    p := SkipSlashes(path, p);
    LastIsLast(path[p..]);
    assert Element(path, p0, s, e, p, name);
  }

  /** A path that is not empty and does not start with a slash has an element. */
  lemma LastIsLast(path: string)
    requires path != "" ==> path[0] != '/'
    ensures path == "" <==> Components(path) == []
  {
    if path != "" {
      assert Split(path)[0] != "";
    }
  }

  /** Every element is a name: not empty, without slashes, at most DIRSIZ long. */
  predicate IsName(s: string) {
    0 < |s| <= DIRSIZ && NoSlash(s) && '\0' !in s
  }

  lemma {:induction false} ComponentsAreNames(path: string)
    requires '\0' !in path
    ensures forall k :: 0 <= k < |Components(path)| ==> IsName(Components(path)[k])
  {
    SplitPieces(path);
    NonEmptyNames(Split(path));
  }

  lemma {:induction false} SplitPieces(path: string)
    requires '\0' !in path
    ensures forall k :: 0 <= k < |Split(path)| ==> NoSlash(Split(path)[k]) && '\0' !in Split(path)[k]
    decreases |path|
  {
    if path != "" {
      SplitPieces(path[1..]);
    }
  }

  lemma {:induction false} NonEmptyNames(pieces: seq<string>)
    requires forall k :: 0 <= k < |pieces| ==> NoSlash(pieces[k]) && '\0' !in pieces[k]
    ensures forall k :: 0 <= k < |NonEmpty(pieces)| ==> IsName(NonEmpty(pieces)[k])
    decreases |pieces|
  {
    if pieces != [] {
      NonEmptyNames(pieces[1..]);
    }
  }
}
