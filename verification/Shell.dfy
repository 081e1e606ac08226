/** The parser of sh.c as it runs: a pointer that moves through the line's buffer, and
    terminators written into the buffer at the end. */
module Shell {
  import opened ShellGrammar
  import opened ShellWords
  import opened ShellLexer

  datatype Result = Done(cmd: Cmd<Span>) | Panic(error: Error)

  /** What gettoken returns for a token. */
  function Code(t: Token<Span>): char {
    match t case Word(_) => 'a' case Sym(c) => c
  }

  /** The character a symbol starts with. */
  function Lead(c: char): char {
    if c == '+' then '>' else c
  }

  predicate Shows(ts: seq<Token<Span>>, toks: string) {
    ts != [] && ts[0].Sym? && Lead(ts[0].c) in toks
  }

  /** The method's result and the place it stops at are those of the grammar. */
  ghost predicate Agrees(p: Parse<Span>, r: Result, rest: seq<Token<Span>>) {
    match p case Ok(c, left) => r == Done(c) && rest == left case Fail(e) => r == Panic(e)
  }

  /** The place after the text that a C string at s.q ends at, in a changed buffer. */
  predicate Terminated(b: string, text: string, s: Span) {
    s.q < s.eq < |b| && s.eq <= |text| && b[s.q..s.eq] == text[s.q..s.eq] && '\0' !in b[s.q..s.eq] && b[s.eq] == '\0'
  }

  lemma NulIsNoSpace()
    ensures !IsSpace('\0')
  {
  }

  lemma NextToken(text: string, p: nat, q: nat, eq: nat, s: nat)
    requires p <= |text| && q == SkipSpace(text, p) && q <= eq <= |text| && s == SkipSpace(text, eq)
    requires q < |text| ==> eq == TokenEnd(text, q)
    requires q == |text| ==> eq == q
    ensures Toks(text, p) == if q < |text| then [TokenAt(text, q)] + Toks(text, s) else []
    ensures q == |text| ==> Toks(text, s) == []
    ensures q < |text| && TokenAt(text, q).Word? ==> TokenAt(text, q).w == Span(q, eq)
  {
    ToksSkip(text, eq, s);
  }

  lemma WordsOfText(text: string, cmd: Cmd<Span>)
    requires ParseLine(Toks(text, 0)) == Ok(cmd, [])
    ensures forall s :: s in WordSet(cmd) ==> IsWord(text, s)
  {
    ToksAreWords(text, 0);
    var ts := Toks(text, 0);
    if s :| s in WordSet(cmd) && !IsWord(text, s) {
      if k :| 0 <= k < |ts| && ts[k].Word? {
        WordsFromTokens(ts, w => IsWord(text, w), ts[k].w);
      } else {
        var other := Span(s.q, s.eq + 1);
        WordsFromTokens(ts, w => w == other, other);
      }
    }
  }

  class Parser {
    const buf: array<char>
    var ps: nat

    ghost predicate Valid()
      reads this, buf
    {
      && buf.Length > 0 && ps < buf.Length && buf[buf.Length - 1] == '\0'
      && forall i :: 0 <= i < buf.Length - 1 ==> buf[i] != '\0'
    }

    function Text(): (t: string)
      requires buf.Length > 0
      reads buf
      ensures |t| == buf.Length - 1 && forall i :: 0 <= i < |t| ==> t[i] == buf[i]
    {
      buf[..buf.Length - 1]
    }

    /** The tokens still unread. */
    ghost function Unread(): seq<Token<Span>>
      requires Valid()
      reads this, buf
    {
      Toks(Text(), ps)
    }

    /** A line in a buffer of its own, with a NUL after it. */
    constructor (line: string)
      requires '\0' !in line
      ensures Valid() && fresh(buf) && ps == 0 && Text() == line
    {
      var b := new char[|line| + 1](i requires 0 <= i <= |line| => if i < |line| then line[i] else '\0');
      buf := b;
      ps := 0;
      new;
      assert buf[..buf.Length - 1] == line;
    }

    method Skip(s0: nat) returns (s: nat)
      requires Valid() && s0 < buf.Length
      ensures s == SkipSpace(Text(), s0)
    {
      s := s0;
      while s < buf.Length - 1 && IsSpace(buf[s])
        invariant s0 <= s < buf.Length
        invariant forall i :: s0 <= i < s ==> IsSpace(buf[i])
      {
        s := s + 1;
      }
      SkipUnique(Text(), s0, s);
    }

    /** The token at q: its code and its end. */
    method Scan(q: nat) returns (tok: char, eq: nat)
      requires Valid() && q < buf.Length && !IsSpace(buf[q])
      ensures q == buf.Length - 1 ==> tok == '\0' && eq == q
      ensures q < buf.Length - 1 ==>
                eq == TokenEnd(Text(), q) && tok == Code(TokenAt(Text(), q)) && tok != '\0' && (tok == 'a' <==> TokenAt(Text(), q).Word?)
    {
      var s := q;
      tok := buf[s];
      if tok == '\0' {
      } else if tok == '|' || tok == '(' || tok == ')' || tok == ';' || tok == '&' || tok == '<' {
        s := s + 1;
      } else if tok == '>' {
        s := s + 1;
        if buf[s] == '>' {
          tok := '+';
          s := s + 1;
        }
      } else {
        tok := 'a';
        while s < buf.Length - 1 && InWord(buf[s])
          invariant q <= s < buf.Length
          invariant forall i :: q <= i < s ==> InWord(buf[i])
        {
          s := s + 1;
        }
        WordEndUnique(Text(), q + 1, s);
      }
      eq := s;
    }

    method GetToken() returns (tok: char, q: nat, eq: nat)
      requires Valid()
      modifies `ps
      ensures Valid() && ps >= old(ps)
      ensures old(Unread()) == [] ==> tok == '\0' && Unread() == []
      ensures var ts := old(Unread());
              ts != [] ==>
                && ps > old(ps) && tok == Code(ts[0]) && tok != '\0' && Unread() == ts[1..]
                && (tok == 'a' <==> ts[0].Word?) && (ts[0].Word? ==> ts[0].w == Span(q, eq))
    {
      hide IsSpace, TokenEnd, TokenAt;
      q := Skip(ps);
      assert !IsSpace(buf[q]) by { NulIsNoSpace(); }
      tok, eq := Scan(q);
      var s := Skip(eq);
      NextToken(Text(), ps, q, eq, s);
      ps := s;
    }

    method Peek(toks: string) returns (b: bool)
      requires Valid() && forall i :: 0 <= i < |toks| ==> IsSymbol(toks[i])
      modifies `ps
      ensures Valid() && ps >= old(ps) && Unread() == old(Unread())
      ensures b == Shows(Unread(), toks)
      ensures Unread() == [] <==> ps == buf.Length - 1
    {
      var s := Skip(ps);
      ToksSkip(Text(), ps, s);
      SkipUnique(Text(), s, s);
      ps := s;
      b := buf[s] != '\0' && buf[s] in toks;
    }

    method ParseRedirs(cmd: Cmd<Span>) returns (r: Result)
      requires Valid()
      modifies `ps
      ensures Valid() && ps >= old(ps)
      ensures Agrees(ShellGrammar.ParseRedirs(cmd, old(Unread())), r, Unread())
    {
      hide Toks;
      var c := cmd;
      var more := Peek("<>");
      while more
        invariant Valid() && ps >= old(ps)
        invariant more == Shows(Unread(), "<>")
        invariant ShellGrammar.ParseRedirs(cmd, old(Unread())) == ShellGrammar.ParseRedirs(c, Unread())
        decreases buf.Length - ps
      {
        ghost var ts := Unread();
        var tok, _, _ := GetToken();
        var next, q, eq := GetToken();
        if next != 'a' {
          return Panic(MissingFile);
        }
        assert |ts| >= 2 && ts[1] == Word(Span(q, eq)) && Unread() == ts[2..];
        c := Redir(c, Span(q, eq), tok != '<');
        more := Peek("<>");
      }
      r := Done(c);
    }

    method ParseBlock() returns (r: Result)
      requires Valid() && Starts(Unread(), '(')
      modifies `ps
      ensures Valid() && ps >= old(ps)
      ensures Agrees(ShellGrammar.ParseBlock(old(Unread())), r, Unread())
      decreases buf.Length - ps, 0
    {
      hide Toks;
      var _ := Peek("(");
      var _, _, _ := GetToken();
      r := ParseLine();
      if r.Panic? {
        return;
      }
      var closed := Peek(")");
      if !closed {
        return Panic(MissingParen);
      }
      var _, _, _ := GetToken();
      r := ParseRedirs(r.cmd);
    }

    /** The loop of parseexec. */
    method ParseArguments(cmd: Cmd<Span>) returns (r: Result)
      requires Valid() && Open(cmd) && Args(cmd) == []
      modifies `ps
      ensures Valid() && ps >= old(ps)
      ensures Agrees(ParseArgs(cmd, old(Unread())), r, Unread())
    {
      hide Toks, ShellGrammar.ParseRedirs;
      r := Done(cmd);
      var argc := 0;
      var done := Peek("|)&;");
      while !done
        invariant Valid() && ps >= old(ps) && r.Done? && Open(r.cmd) && argc == |Args(r.cmd)|
        invariant done == Shows(Unread(), "|)&;")
        invariant ParseArgs(cmd, old(Unread())) == ParseArgs(r.cmd, Unread())
        decreases buf.Length - ps
      {
        ghost var c, ts := r.cmd, Unread();
        var tok, q, eq := GetToken();
        if tok == '\0' {
          break;
        }
        if tok != 'a' {
          return Panic(Syntax);
        }
        argc := argc + 1;
        if argc >= MAXARGS {
          return Panic(TooManyArgs);
        }
        assert ParseArgs(c, ts) == ParseArgsAfter(AddArg(c, Span(q, eq)), Unread());
        r := ParseRedirs(AddArg(r.cmd, Span(q, eq)));
        if r.Panic? {
          return;
        }
        done := Peek("|)&;");
      }
    }

    method ParseExec() returns (r: Result)
      requires Valid()
      modifies `ps
      ensures Valid() && ps >= old(ps)
      ensures Agrees(ShellGrammar.ParseExec(old(Unread())), r, Unread())
      decreases buf.Length - ps, 1
    {
      hide Toks, ShellGrammar.ParseLine, ShellGrammar.ParseRedirs, ParseArgs;
      var open := Peek("(");
      if open {
        r := ParseBlock();
        return;
      }
      r := ParseRedirs(Exec([]));
      if r.Done? {
        r := ParseArguments(r.cmd);
      }
    }

    method ParsePipe() returns (r: Result)
      requires Valid()
      modifies `ps
      ensures Valid() && ps >= old(ps)
      ensures Agrees(ShellGrammar.ParsePipe(old(Unread())), r, Unread())
      decreases buf.Length - ps, 2
    {
      hide Toks, ShellGrammar.ParseExec;
      r := ParseExec();
      if r.Panic? {
        return;
      }
      var bar := Peek("|");
      if bar {
        var left := r.cmd;
        var _, _, _ := GetToken();
        r := ParsePipe();
        if r.Done? {
          r := Done(Pipe(left, r.cmd));
        }
      }
    }

    method ParseLine() returns (r: Result)
      requires Valid()
      modifies `ps
      ensures Valid() && ps >= old(ps)
      ensures Agrees(ShellGrammar.ParseLine(old(Unread())), r, Unread())
      decreases buf.Length - ps, 3
    {
      hide Toks, ShellGrammar.ParsePipe;
      r := ParsePipe();
      if r.Panic? {
        return;
      }
      var amp := Peek("&");
      while amp
        invariant Valid() && ps >= old(ps) && r.Done?
        invariant amp == Shows(Unread(), "&")
        invariant ShellGrammar.ParseLine(old(Unread())) == ParseBacks(r.cmd, Unread())
        decreases buf.Length - ps
      {
        var _, _, _ := GetToken();
        r := Done(Back(r.cmd));
        amp := Peek("&");
      }
      var semi := Peek(";");
      if semi {
        var left := r.cmd;
        var _, _, _ := GetToken();
        r := ParseLine();
        if r.Done? {
          r := Done(List(left, r.cmd));
        }
      }
    }

    /** parsecmd: a command, or the panic, with leftovers reported as a syntax error;
        then the words of the command are C strings in the buffer. */
    method ParseCmd() returns (r: Result)
      requires Valid() && ps == 0
      modifies `ps, buf
      ensures var p := ShellGrammar.ParseLine(old(Unread()));
              && (p.Fail? ==> r == Panic(p.error))
              && (p.Ok? && p.rest != [] ==> r == Panic(Syntax))
              && (p.Ok? && p.rest == [] ==> r == Done(p.cmd))
      ensures r.Done? ==> forall s :: s in WordSet(r.cmd) ==> Terminated(buf[..], old(Text()), s)
    {
      hide ShellGrammar.ParseLine;
      ghost var text := Text();
      ToksAreWords(text, ps);
      r := ParseLine();
      if r.Panic? {
        return;
      }
      var _ := Peek("");
      if ps != buf.Length - 1 {
        return Panic(Syntax);
      }
      WordsOfText(text, r.cmd);
      NulTerminate(r.cmd, text);
    }

    /** Every word character of the text is still in the buffer. */
    ghost predicate Keeps(text: string)
      reads buf
    {
      buf.Length == |text| + 1 && forall i :: 0 <= i < |text| && InWord(text[i]) ==> buf[i] == text[i]
    }

    method NulTerminate(cmd: Cmd<Span>, ghost text: string)
      requires Keeps(text) && (forall s :: s in WordSet(cmd) ==> IsWord(text, s)) && '\0' !in text
      modifies buf
      ensures Keeps(text)
      ensures forall i :: 0 <= i < buf.Length && old(buf[i]) == '\0' ==> buf[i] == '\0'
      ensures forall s :: s in WordSet(cmd) ==> s.eq < buf.Length && buf[s.eq] == '\0'
      decreases cmd
    {
      match cmd
      case Exec(args) =>
        for i := 0 to |args|
          invariant Keeps(text)
          invariant forall i :: 0 <= i < buf.Length && old(buf[i]) == '\0' ==> buf[i] == '\0'
          invariant forall k :: 0 <= k < i ==> args[k].eq < buf.Length && buf[args[k].eq] == '\0'
        {
          assert args[i] in WordSet(cmd);
          buf[args[i].eq] := '\0';
        }
      case Redir(sub, file, _) =>
        NulTerminate(sub, text);
        assert file in WordSet(cmd);
        buf[file.eq] := '\0';
      case Pipe(l, r) =>
        NulTerminate(l, text);
        NulTerminate(r, text);
      case List(l, r) =>
        NulTerminate(l, text);
        NulTerminate(r, text);
      case Back(sub) =>
        NulTerminate(sub, text);
    }
  }
}
