/**
 The shell's scanner and parser as the code runs them, and nulterminate, which ends every word in
 place once the whole line is parsed.
 */
module ShellCode {
  import opened ShellParse
  import opened ShellWords

  // ----- Scanning and parsing

  method SkipSpaces(text: string, ps: nat) returns (s: nat)
    requires ps <= |text|
    ensures s == Skip(text, ps)
  {
    s := ps;
    while s < |text| && IsSpace(text[s])
      invariant ps <= s <= |text| && Skip(text, ps) == Skip(text, s)
    {
      s := s + 1;
    }
  }

  method Gettoken(text: string, ps: nat) returns (t: Token)
    requires ps <= |text|
    ensures t == GetToken(text, ps)
  {
    var s := SkipSpaces(text, ps);
    var q := s;
    var ret := CharAt(text, s);
    if s == |text| || ret == NUL {
      ret := NUL;
    } else if ret == '>' {
      s := s + 1;
      if CharAt(text, s) == '>' {
        ret := '+';
        s := s + 1;
      }
    } else if IsSymbol(ret) {
      s := s + 1;
    } else {
      ret := 'a';
      while s < |text| && IsWordChar(text[s])
        invariant q <= s <= |text| && WordEnd(text, q) == WordEnd(text, s)
      {
        s := s + 1;
      }
    }
    var next := SkipSpaces(text, s);
    return Token(ret, Word(q, s), next);
  }

  method PeekFor(text: string, ps: nat, toks: string) returns (s: nat, found: bool)
    requires ps <= |text|
    ensures s == Skip(text, ps) && (found <==> Peek(text, ps, toks))
  {
    s := SkipSpaces(text, ps);
    found := s < |text| && text[s] != NUL && text[s] in toks;
  }

  lemma SkipTwice(text: string, s: nat)
    requires s <= |text|
    ensures Skip(text, Skip(text, s)) == Skip(text, s)
  {
  }

  /** Redirections are collected in order; the caller wraps its command in them. */
  method Parseredirs(text: string, ps: nat, before: seq<Redirection>) returns (r: Result<seq<Redirection>>)
    requires ps <= |text|
    ensures r == ParseRedirs(text, ps, before)
  {
    var rs, pos := before, ps;
    while true
      invariant pos <= |text| && ParseRedirs(text, ps, before) == ParseRedirs(text, pos, rs)
      decreases |text| - pos
    {
      var s, found := PeekFor(text, pos, "<>");
      if !found {
        return Ok(rs, s);
      }
      var tok := Gettoken(text, s);
      var file := Gettoken(text, tok.next);
      if file.kind != 'a' {
        return Err(MissingFile);
      }
      rs := rs + [Redirection(file.word, if tok.kind == '<' then Input else Output)];
      pos := file.next;
    }
  }

  method Parseexec(text: string, ps: nat) returns (r: Result<Cmd>)
    requires ps <= |text|
    ensures r == ParseExec(text, ps)
    decreases |text| - ps, 1
  {
    hide Skip, GetToken, ParseRedirs, Peek;
    var s, block := PeekFor(text, ps, "(");
    if block {
      PeekAgain(text, ps, "(");
      r := Parseblock(text, s);
      return;
    }
    var first := Parseredirs(text, s, []);
    if first.Err? {
      return Err(first.panic);
    }
    var sofar, pos := Simple([], first.value), first.pos;
    while true
      invariant pos <= |text| && ParseArgs(text, first.pos, Simple([], first.value)) == ParseArgs(text, pos, sofar)
      decreases |text| - pos
    {
      var at, stop := PeekFor(text, pos, "|)&;");
      if stop {
        return Ok(Wrap(Exec(sofar.argv), sofar.rs), at);
      }
      var tok := Gettoken(text, at);
      if tok.kind == NUL {
        return Ok(Wrap(Exec(sofar.argv), sofar.rs), tok.next);
      }
      if tok.kind != 'a' {
        return Err(Syntax);
      }
      var argv := sofar.argv + [tok.word];
      if |argv| >= MAXARGS {
        return Err(TooManyArgs);
      }
      var more := Parseredirs(text, tok.next, sofar.rs);
      if more.Err? {
        return Err(more.panic);
      }
      sofar, pos := Simple(argv, more.value), more.pos;
    }
  }

  lemma PeekAgain(text: string, ps: nat, toks: string)
    requires ps <= |text| && Peek(text, ps, toks)
    ensures Peek(text, Skip(text, ps), toks)
  {
    SkipTwice(text, ps);
  }

  method Parseblock(text: string, ps: nat) returns (r: Result<Cmd>)
    requires ps <= |text| && Peek(text, ps, "(")
    ensures r == ParseBlock(text, ps)
    decreases |text| - ps, 0
  {
    hide Skip, ParseRedirs, ParseLine;
    var s, found := PeekFor(text, ps, "(");
    var tok := Gettoken(text, s);
    var line := Parseline(text, tok.next);
    if line.Err? {
      return line;
    }
    var at, closed := PeekFor(text, line.pos, ")");
    if !closed {
      return Err(MissingParen);
    }
    tok := Gettoken(text, at);
    var rs := Parseredirs(text, tok.next, []);
    if rs.Err? {
      return Err(rs.panic);
    }
    return Ok(Wrap(line.value, rs.value), rs.pos);
  }

  method Parsepipe(text: string, ps: nat) returns (r: Result<Cmd>)
    requires ps <= |text|
    ensures r == ParsePipe(text, ps)
    decreases |text| - ps, 2
  {
    hide Skip, ParseExec;
    r := Parseexec(text, ps);
    if r.Err? {
      return;
    }
    var s, found := PeekFor(text, r.pos, "|");
    if !found {
      return Ok(r.value, s);
    }
    var tok := Gettoken(text, s);
    var right := Parsepipe(text, tok.next);
    if right.Err? {
      return right;
    }
    return Ok(Pipe(r.value, right.value), right.pos);
  }

  /** The ampersands after a pipeline. */
  method Parsebacks(text: string, ps: nat, first: Cmd) returns (cmd: Cmd, s: nat)
    requires ps <= |text|
    ensures (cmd, s) == ParseBacks(text, ps, first)
  {
    hide Skip;
    var pos, found := ps, false;
    cmd := first;
    s, found := PeekFor(text, pos, "&");
    while found
      invariant pos <= s <= |text| && s == Skip(text, pos) && (found <==> Peek(text, pos, "&"))
      invariant ParseBacks(text, ps, first) == ParseBacks(text, pos, cmd)
      decreases |text| - pos
    {
      var tok := Gettoken(text, s);
      cmd, pos := Back(cmd), tok.next;
      s, found := PeekFor(text, pos, "&");
    }
  }

  method Parseline(text: string, ps: nat) returns (r: Result<Cmd>)
    requires ps <= |text|
    ensures r == ParseLine(text, ps)
    decreases |text| - ps, 3
  {
    hide Skip, ParsePipe, ParseBacks, Peek;
    r := Parsepipe(text, ps);
    if r.Err? {
      return;
    }
    var cmd, s := Parsebacks(text, r.pos, r.value);
    var at, found := PeekFor(text, s, ";");
    if !found {
      return Ok(cmd, at);
    }
    Progress(text, s, at);
    var tok := Gettoken(text, at);
    var right := Parseline(text, tok.next);
    if right.Err? {
      return right;
    }
    return Ok(List(cmd, right.value), right.pos);
  }

  lemma Progress(text: string, s: nat, at: nat)
    requires s <= |text| && at == Skip(text, s) && Peek(text, s, ";")
    ensures GetToken(text, at).next > s
  {
    SkipTwice(text, s);
  }

  // ----- Ending the words in place

  /** Write a NUL after every word of the command. */
  method Nulterminate(buf: array<char>, cmd: Cmd)
    requires forall i: nat | EndsAt(cmd, i) :: i < buf.Length
    modifies buf
    ensures forall i | 0 <= i < buf.Length :: buf[i] == if EndsAt(cmd, i) then NUL else old(buf[i])
    decreases cmd
  {
    match cmd {
      case Exec(argv) =>
        for k := 0 to |argv|
          invariant forall i | 0 <= i < buf.Length ::
            buf[i] == if exists j :: 0 <= j < k && argv[j].eq == i then NUL else old(buf[i])
        {
          assert EndsAt(cmd, argv[k].eq);
          buf[argv[k].eq] := NUL;
        }
      case Redir(inner, file, _) =>
        assert EndsAt(cmd, file.eq);
        EndsInside(cmd, inner);
        Nulterminate(buf, inner);
        buf[file.eq] := NUL;
      case Pipe(l, r) =>
        EndsInside(cmd, l);
        EndsInside(cmd, r);
        Nulterminate(buf, l);
        Nulterminate(buf, r);
      case List(l, r) =>
        EndsInside(cmd, l);
        EndsInside(cmd, r);
        Nulterminate(buf, l);
        Nulterminate(buf, r);
      case Back(inner) =>
        EndsInside(cmd, inner);
        Nulterminate(buf, inner);
    }
  }

  lemma EndsInside(cmd: Cmd, part: Cmd)
    requires match cmd case Exec(_) => false case Redir(c, _, _) => part == c case Pipe(l, r) => part == l || part == r
                       case List(l, r) => part == l || part == r case Back(c) => part == c
    ensures forall i: nat | EndsAt(part, i) :: EndsAt(cmd, i)
  {
  }

  /** Parse the line that `buf` holds up to its first NUL, at `n`, and end its words in place. */
  method Parsecmd(buf: array<char>, n: nat) returns (r: Result<Cmd>)
    requires n < buf.Length && buf[n] == NUL && NUL !in buf[..n]
    modifies buf
    ensures r == ParseCmd(old(buf[..n]))
    ensures r.Err? ==> buf[..] == old(buf[..])
    ensures r.Ok? ==> Terminated(old(buf[..n]), buf[..], r.value) && buf[n + 1..] == old(buf[n + 1..])
    ensures r.Ok? ==> forall w | Uses(r.value, w) ::
      w.q <= w.eq <= n && CString(buf[..], w.q) == old(buf[..n])[w.q..w.eq]
  {
    hide ParseLine, EndsAt, Uses;
    var text := buf[..n];
    r := Parseline(text, 0);
    if r.Err? {
      return;
    }
    var s, found := PeekFor(text, r.pos, "");
    if s != n {
      return Err(Leftovers);
    }
    r := Ok(r.value, n);
    LineWords(text, 0);
    forall i: nat | EndsAt(r.value, i) ensures i <= n {
      EndNotInWord(text, r.value, i);
    }
    Nulterminate(buf, r.value);
    assert Terminated(text, buf[..], r.value);
    forall w | Uses(r.value, w) ensures w.q <= w.eq <= n && CString(buf[..], w.q) == text[w.q..w.eq] {
      WordReadsBack(text, buf[..], r.value, w);
    }
  }
}
