/**
 The shell's scanner and recursive-descent parser (sh.c) as functions of a line of text and a
 position in it.
 */
module ShellParse {

  const MAXARGS := 10
  const NUL := '\0'

  predicate IsSpace(c: char) {
    c == ' ' || c == '\t' || c == '\r' || c == '\n' || c == '\U{B}'
  }

  predicate IsSymbol(c: char) {
    c == '<' || c == '|' || c == '>' || c == '&' || c == ';' || c == '(' || c == ')'
  }

  predicate IsWordChar(c: char) {
    !IsSpace(c) && !IsSymbol(c)
  }

  /** A counted string: from `q` up to but not including `eq`. */
  datatype Word = Word(q: nat, eq: nat)

  datatype Mode = Input | Output

  datatype Redirection = Redirection(file: Word, mode: Mode)

  datatype Cmd =
    | Exec(argv: seq<Word>)
    | Redir(cmd: Cmd, file: Word, mode: Mode)
    | Pipe(left: Cmd, right: Cmd)
    | List(left: Cmd, right: Cmd)
    | Back(cmd: Cmd)

  datatype Panic = MissingFile | Syntax | TooManyArgs | MissingParen | Leftovers

  datatype Result<T> = Ok(value: T, pos: nat) | Err(panic: Panic)

  // ----- Scanning

  /** First position from `s` on that holds no space. */
  function Skip(text: string, s: nat): (r: nat)
    requires s <= |text|
    ensures s <= r <= |text| && (r < |text| ==> !IsSpace(text[r]))
    ensures forall i | s <= i < r :: IsSpace(text[i])
    decreases |text| - s
  {
    if s < |text| && IsSpace(text[s]) then Skip(text, s + 1) else s
  }

  /** First position from `s` on that holds no word character. */
  function WordEnd(text: string, s: nat): (r: nat)
    requires s <= |text|
    ensures s <= r <= |text| && (r < |text| ==> !IsWordChar(text[r]))
    ensures forall i | s <= i < r :: IsWordChar(text[i])
    decreases |text| - s
  {
    if s < |text| && IsWordChar(text[s]) then WordEnd(text, s + 1) else s
  }

  /** The character at `s`; the line ends with a NUL. */
  function CharAt(text: string, s: nat): char {
    if s < |text| then text[s] else NUL
  }

  /** `kind` is NUL at the end of the line, 'a' for a word, '+' for ">>", and otherwise the symbol itself. */
  datatype Token = Token(kind: char, word: Word, next: nat)

  function GetToken(text: string, pos: nat): (t: Token)
    requires pos <= |text|
    ensures pos <= t.word.q <= t.word.eq <= t.next <= |text|
    ensures t.kind != NUL ==> t.next > pos
  {
    var s := Skip(text, pos);
    var c := CharAt(text, s);
    var (kind, e) :=
      if s == |text| || c == NUL then (NUL, s)
      else if c == '>' then (if CharAt(text, s + 1) == '>' then ('+', s + 2) else ('>', s + 1))
      else if IsSymbol(c) then (c, s + 1)
      else ('a', WordEnd(text, s));
    Token(kind, Word(s, e), Skip(text, e))
  }

  predicate Peek(text: string, pos: nat, toks: string)
    requires pos <= |text|
  {
    var s := Skip(text, pos);
    s < |text| && text[s] != NUL && text[s] in toks
  }

  // ----- Parsing

  function Wrap(cmd: Cmd, rs: seq<Redirection>): Cmd {
    if rs == [] then cmd else Redir(Wrap(cmd, rs[..|rs| - 1]), rs[|rs| - 1].file, rs[|rs| - 1].mode)
  }

  function ParseRedirs(text: string, pos: nat, rs: seq<Redirection>): (r: Result<seq<Redirection>>)
    requires pos <= |text|
    ensures r.Ok? ==> pos <= r.pos <= |text|
    decreases |text| - pos
  {
    if !Peek(text, pos, "<>") then Ok(rs, Skip(text, pos))
    else
      var tok := GetToken(text, Skip(text, pos));
      var file := GetToken(text, tok.next);
      if file.kind != 'a' then Err(MissingFile)
      else ParseRedirs(text, file.next, rs + [Redirection(file.word, if tok.kind == '<' then Input else Output)])
  }

  datatype Simple = Simple(argv: seq<Word>, rs: seq<Redirection>)

  function ParseArgs(text: string, pos: nat, sofar: Simple): (r: Result<Simple>)
    requires pos <= |text|
    ensures r.Ok? ==> pos <= r.pos <= |text|
    decreases |text| - pos
  {
    if Peek(text, pos, "|)&;") then Ok(sofar, Skip(text, pos))
    else
      var tok := GetToken(text, Skip(text, pos));
      if tok.kind == NUL then Ok(sofar, tok.next)
      else if tok.kind != 'a' then Err(Syntax)
      else if |sofar.argv| + 1 >= MAXARGS then Err(TooManyArgs)
      else
        match ParseRedirs(text, tok.next, sofar.rs)
        case Err(e) => Err(e)
        case Ok(rs, p) => ParseArgs(text, p, Simple(sofar.argv + [tok.word], rs))
  }

  function ParseExec(text: string, pos: nat): (r: Result<Cmd>)
    requires pos <= |text|
    ensures r.Ok? ==> pos <= r.pos <= |text|
    decreases |text| - pos, 1
  {
    var s := Skip(text, pos);
    if Peek(text, pos, "(") then ParseBlock(text, s)
    else
      match ParseRedirs(text, s, [])
      case Err(e) => Err(e)
      case Ok(rs, p) =>
        match ParseArgs(text, p, Simple([], rs))
        case Err(e) => Err(e)
        case Ok(c, p') => Ok(Wrap(Exec(c.argv), c.rs), p')
  }

  function ParseBlock(text: string, pos: nat): (r: Result<Cmd>)
    requires pos <= |text| && Peek(text, pos, "(")
    ensures r.Ok? ==> pos <= r.pos <= |text|
    decreases |text| - pos, 0
  {
    match ParseLine(text, GetToken(text, Skip(text, pos)).next)
    case Err(e) => Err(e)
    case Ok(cmd, p) =>
      if !Peek(text, p, ")") then Err(MissingParen)
      else
        match ParseRedirs(text, GetToken(text, Skip(text, p)).next, [])
        case Err(e) => Err(e)
        case Ok(rs, p') => Ok(Wrap(cmd, rs), p')
  }

  function ParsePipe(text: string, pos: nat): (r: Result<Cmd>)
    requires pos <= |text|
    ensures r.Ok? ==> pos <= r.pos <= |text|
    decreases |text| - pos, 2
  {
    match ParseExec(text, pos)
    case Err(e) => Err(e)
    case Ok(left, p) =>
      if !Peek(text, p, "|") then Ok(left, Skip(text, p))
      else
        match ParsePipe(text, GetToken(text, Skip(text, p)).next)
        case Err(e) => Err(e)
        case Ok(right, p') => Ok(Pipe(left, right), p')
  }

  /** Any number of ampersands. */
  function ParseBacks(text: string, pos: nat, cmd: Cmd): (r: (Cmd, nat))
    requires pos <= |text|
    ensures pos <= r.1 <= |text|
    decreases |text| - pos
  {
    if !Peek(text, pos, "&") then (cmd, Skip(text, pos))
    else ParseBacks(text, GetToken(text, Skip(text, pos)).next, Back(cmd))
  }

  function ParseLine(text: string, pos: nat): (r: Result<Cmd>)
    requires pos <= |text|
    ensures r.Ok? ==> pos <= r.pos <= |text|
    decreases |text| - pos, 3
  {
    match ParsePipe(text, pos)
    case Err(e) => Err(e)
    case Ok(first, p) =>
      var (cmd, p') := ParseBacks(text, p, first);
      if !Peek(text, p', ";") then Ok(cmd, Skip(text, p'))
      else
        match ParseLine(text, GetToken(text, Skip(text, p')).next)
        case Err(e) => Err(e)
        case Ok(right, p'') => Ok(List(cmd, right), p'')
  }

  /** The whole line is one command. */
  function ParseCmd(text: string): (r: Result<Cmd>)
    ensures r.Ok? ==> r.pos == |text|
  {
    match ParseLine(text, 0)
    case Err(e) => Err(e)
    case Ok(cmd, p) => if Skip(text, p) == |text| then Ok(cmd, |text|) else Err(Leftovers)
  }
}
