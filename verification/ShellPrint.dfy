/**
 The parser of a line is the parser of its tokens.  So a line is accepted exactly if it is some
 sentence of the grammar, written with any white space between the tokens, and then the result is
 what the sentence means.
 */
module ShellPrint {
  import opened ShellParse
  import opened ShellGrammar
  import opened ShellLex

  // ----- Words as strings

  function Slice(text: string, w: Word): string {
    if w.q <= w.eq <= |text| then text[w.q..w.eq] else ""
  }

  function Slices(text: string, ws: seq<Word>): (r: seq<string>)
    ensures |r| == |ws|
  {
    if ws == [] then [] else Slices(text, ws[..|ws| - 1]) + [Slice(text, ws[|ws| - 1])]
  }

  function Tos(text: string, rs: seq<Redirection>): (r: seq<To>)
    ensures |r| == |rs|
  {
    if rs == [] then [] else Tos(text, rs[..|rs| - 1]) + [To(Slice(text, rs[|rs| - 1].file), rs[|rs| - 1].mode)]
  }

  /** The tree that a parsed command stands for. */
  function TreeOf(text: string, c: Cmd): Tree {
    match c
    case Exec(argv) => TExec(Slices(text, argv))
    case Redir(cmd, file, mode) => TRedir(TreeOf(text, cmd), Slice(text, file), mode)
    case Pipe(l, r) => TPipe(TreeOf(text, l), TreeOf(text, r))
    case List(l, r) => TList(TreeOf(text, l), TreeOf(text, r))
    case Back(cmd) => TBack(TreeOf(text, cmd))
  }

  lemma TosSnoc(text: string, rs: seq<Redirection>, r: Redirection)
    ensures Tos(text, rs + [r]) == Tos(text, rs) + [To(Slice(text, r.file), r.mode)]
  {
    assert (rs + [r])[..|rs|] == rs;
  }

  lemma SlicesSnoc(text: string, ws: seq<Word>, w: Word)
    ensures Slices(text, ws + [w]) == Slices(text, ws) + [Slice(text, w)]
  {
    assert (ws + [w])[..|ws|] == ws;
  }

  lemma {:induction false} TreeWrap(text: string, c: Cmd, rs: seq<Redirection>)
    ensures TreeOf(text, Wrap(c, rs)) == WrapTree(TreeOf(text, c), Tos(text, rs))
    decreases |rs|
  {
    if rs != [] {
      var n := |rs| - 1;
      TreeWrap(text, c, rs[..n]);
      var tos := Tos(text, rs);
      assert tos[..n] == Tos(text, rs[..n]);
    }
  }

  // ----- Parsing text is parsing its tokens

  lemma PeekIs(text: string, pos: nat, chars: string)
    requires pos <= |text| && forall c | c in chars :: Special(c)
    ensures Peek(text, pos, chars) <==> Starts(Lex(text, pos), chars)
  {
    hide Skip, WordEnd;
    var s := Skip(text, pos);
    if s < |text| {
      Classes(text[s]);
    }
  }

  /** The next token of the text, and the ones after it. */
  lemma NextTok(text: string, pos: nat)
    requires pos <= |text|
    ensures var t := GetToken(text, Skip(text, pos));
            && GetToken(text, pos) == t
            && (t.kind == NUL ==> Lex(text, pos) == [] && Lex(text, t.next) == [])
            && (t.kind != NUL ==> Lex(text, pos) == [TokOf(text, t)] + Lex(text, t.next) && Lex(text, pos)[1..] == Lex(text, t.next))
  {
    hide GetToken, Skip, TokOf;
    TokenSkip(text, pos);
    var t := GetToken(text, pos);
    if t.kind == NUL {
      EndStays(text, pos);
    } else {
      Behind(TokOf(text, t), Lex(text, t.next));
    }
  }

  lemma EndStays(text: string, pos: nat)
    requires pos <= |text| && GetToken(text, pos).kind == NUL
    ensures Lex(text, GetToken(text, pos).next) == []
  {
    var s := Skip(text, pos);
    SkipTwice(text, pos);
    assert GetToken(text, pos).next == s;
    TokenSkip(text, pos);
  }

  /** What a token is, by its kind. */
  lemma Kinds(text: string, pos: nat)
    requires pos <= |text|
    ensures var t := GetToken(text, pos);
            && (t.kind == 'a' <==> t.kind != NUL && TokOf(text, t).TWord?)
            && (t.kind == '<' <==> t.kind != NUL && TokOf(text, t) == TSym('<'))
            && (t.kind == 'a' ==> TokOf(text, t) == TWord(Slice(text, t.word)))
  {
    hide Skip, WordEnd;
  }

  ghost predicate SameReds(text: string, a: Result<seq<Redirection>>, b: Read<seq<To>>) {
    match a
    case Err(e) => b == Bad(e)
    case Ok(rs, p) => p <= |text| && b == Got(Tos(text, rs), Lex(text, p))
  }

  ghost predicate SameArgs(text: string, a: Result<Simple>, b: Read<Plain>) {
    match a
    case Err(e) => b == Bad(e)
    case Ok(c, p) => p <= |text| && b == Got(Plain(Slices(text, c.argv), Tos(text, c.rs)), Lex(text, p))
  }

  ghost predicate SameTree(text: string, a: Result<Cmd>, b: Read<Tree>) {
    match a
    case Err(e) => b == Bad(e)
    case Ok(c, p) => p <= |text| && b == Got(TreeOf(text, c), Lex(text, p))
  }

  lemma {:induction false} RedirsSame(text: string, pos: nat, rs: seq<Redirection>)
    requires pos <= |text|
    ensures SameReds(text, ParseRedirs(text, pos, rs), ReadReds(Lex(text, pos), Tos(text, rs)))
    decreases |text| - pos
  {
    hide Skip, GetToken, TokOf, Peek, Lex, Tos;
    PeekIs(text, pos, "<>");
    LexSkip(text, pos);
    if Peek(text, pos, "<>") {
      var toks := Lex(text, pos);
      var tok := GetToken(text, Skip(text, pos));
      NextTok(text, pos);
      Kinds(text, pos);
      var file := GetToken(text, tok.next);
      NextTok(text, tok.next);
      Kinds(text, tok.next);
      if file.kind == 'a' {
        var r := Redirection(file.word, if tok.kind == '<' then Input else Output);
        TosSnoc(text, rs, r);
        assert toks[2..] == toks[1..][1..];
        RedirsSame(text, file.next, rs + [r]);
      }
    }
  }

  lemma {:induction false} ArgsSame(text: string, pos: nat, sofar: Simple)
    requires pos <= |text|
    ensures SameArgs(text, ParseArgs(text, pos, sofar),
                     ReadArgs(Lex(text, pos), Plain(Slices(text, sofar.argv), Tos(text, sofar.rs))))
    decreases |text| - pos
  {
    hide Skip, GetToken, TokOf, Peek, Lex, Tos, Slices, ParseRedirs, ReadReds;
    PeekIs(text, pos, "|)&;");
    LexSkip(text, pos);
    if !Peek(text, pos, "|)&;") {
      var tok := GetToken(text, Skip(text, pos));
      NextTok(text, pos);
      Kinds(text, pos);
      if tok.kind == 'a' && |sofar.argv| + 1 < MAXARGS {
        RedirsSame(text, tok.next, sofar.rs);
        var r := ParseRedirs(text, tok.next, sofar.rs);
        if r.Ok? {
          SlicesSnoc(text, sofar.argv, tok.word);
          ArgsSame(text, r.pos, Simple(sofar.argv + [tok.word], r.value));
        }
      }
    }
  }

  lemma Empty(text: string)
    ensures Tos(text, []) == [] && Slices(text, []) == []
  {
  }

  lemma {:induction false} ExecSame(text: string, pos: nat)
    requires pos <= |text|
    ensures SameTree(text, ParseExec(text, pos), ReadExec(Lex(text, pos)))
    decreases |text| - pos, 1
  {
    hide Skip, GetToken, Peek, Lex, Tos, Slices, ParseRedirs, ReadReds, ParseArgs, ReadArgs, Wrap, WrapTree, ParseBlock, ReadBlock;
    PeekIs(text, pos, "(");
    LexSkip(text, pos);
    var s := Skip(text, pos);
    if Peek(text, pos, "(") {
      PeekIs(text, s, "(");
      BlockSame(text, s);
    } else {
      Empty(text);
      RedirsSame(text, s, []);
      var r := ParseRedirs(text, s, []);
      if r.Ok? {
        ArgsSame(text, r.pos, Simple([], r.value));
        var c := ParseArgs(text, r.pos, Simple([], r.value));
        if c.Ok? {
          TreeWrap(text, Exec(c.value.argv), c.value.rs);
        }
      }
    }
  }

  lemma {:induction false} BlockSame(text: string, pos: nat)
    requires pos <= |text| && Peek(text, pos, "(")
    ensures Lex(text, pos) != [] && SameTree(text, ParseBlock(text, pos), ReadBlock(Lex(text, pos)))
    decreases |text| - pos, 0
  {
    hide Skip, GetToken, TokOf, Peek, Lex, Tos, ParseRedirs, ReadReds, Wrap, WrapTree, ParseLine, ReadLine;
    PeekIs(text, pos, "(");
    NextTok(text, pos);
    var open := GetToken(text, Skip(text, pos));
    LineSame(text, open.next);
    var l := ParseLine(text, open.next);
    if l.Ok? {
      PeekIs(text, l.pos, ")");
      if Peek(text, l.pos, ")") {
        NextTok(text, l.pos);
        var close := GetToken(text, Skip(text, l.pos));
        Empty(text);
        RedirsSame(text, close.next, []);
        var r := ParseRedirs(text, close.next, []);
        if r.Ok? {
          TreeWrap(text, l.value, r.value);
        }
      }
    }
  }

  lemma {:induction false} PipeSame(text: string, pos: nat)
    requires pos <= |text|
    ensures SameTree(text, ParsePipe(text, pos), ReadPipe(Lex(text, pos)))
    decreases |text| - pos, 2
  {
    hide Skip, GetToken, TokOf, Peek, Lex, ParseExec, ReadExec;
    ExecSame(text, pos);
    var e := ParseExec(text, pos);
    if e.Ok? {
      PeekIs(text, e.pos, "|");
      LexSkip(text, e.pos);
      if Peek(text, e.pos, "|") {
        NextTok(text, e.pos);
        PipeSame(text, GetToken(text, Skip(text, e.pos)).next);
      }
    }
  }

  lemma {:induction false} BacksSame(text: string, pos: nat, c: Cmd)
    requires pos <= |text|
    ensures var (c', p) := ParseBacks(text, pos, c); ReadBacks(Lex(text, pos), TreeOf(text, c)) == (TreeOf(text, c'), Lex(text, p))
    decreases |text| - pos
  {
    hide Skip, GetToken, TokOf, Peek, Lex;
    PeekIs(text, pos, "&");
    LexSkip(text, pos);
    if Peek(text, pos, "&") {
      NextTok(text, pos);
      BacksSame(text, GetToken(text, Skip(text, pos)).next, Back(c));
    }
  }

  lemma {:induction false} LineSame(text: string, pos: nat)
    requires pos <= |text|
    ensures SameTree(text, ParseLine(text, pos), ReadLine(Lex(text, pos)))
    decreases |text| - pos, 3
  {
    hide Skip, GetToken, TokOf, Peek, Lex, ParsePipe, ReadPipe, ParseBacks, ReadBacks;
    PipeSame(text, pos);
    var p := ParsePipe(text, pos);
    if p.Ok? {
      BacksSame(text, p.pos, p.value);
      var (c, q) := ParseBacks(text, p.pos, p.value);
      PeekIs(text, q, ";");
      LexSkip(text, q);
      if Peek(text, q, ";") {
        NextTok(text, q);
        LineSame(text, GetToken(text, Skip(text, q)).next);
      }
    }
  }

  /** Parsing a line, panics included, is parsing its tokens. */
  lemma CmdSame(text: string)
    requires NUL !in text
    ensures SameTree(text, ParseCmd(text), ReadCmd(Lex(text, 0)))
  {
    hide Skip, Lex, ParseLine, ReadLine;
    LineSame(text, 0);
    var l := ParseLine(text, 0);
    if l.Ok? {
      if Skip(text, l.pos) == |text| {
        EndOfLine(text, l.pos);
        EndOfLine(text, |text|) by {
          SkipTwice(text, l.pos);
        }
      } else {
        NotAtEnd(text, l.pos);
        NextTok(text, l.pos);
      }
    }
  }

  // ----- Sentences and lines

  ghost predicate Sentence(l: LinePart) {
    SmallLine(l) && GoodToks(LineToks(l))
  }

  /** `text` is `l` written with white space `gaps`. */
  ghost predicate Writes(text: string, l: LinePart, gaps: seq<string>) {
    GapsOk(LineToks(l), gaps) && text == Lay(LineToks(l), gaps)
  }

  lemma OutConcat(a: seq<Tok>, b: seq<Tok>)
    requires OutThenWord(a) && OutThenWord(b)
    ensures OutThenWord(a + b)
  {
    var c := a + b;
    forall i | 0 <= i < |c| && c[i] == TSym('>') ensures i + 1 < |c| && c[i + 1].TWord? {
      if i < |a| {
        assert a[i] == TSym('>');
      } else {
        assert b[i - |a|] == TSym('>');
      }
    }
  }

  lemma {:induction false} RedsOut(reds: seq<Red>)
    ensures OutThenWord(RedsToks(reds))
    decreases |reds|
  {
    if reds != [] {
      RedsOut(reds[1..]);
      OutConcat([OpTok(reds[0].op), TWord(reds[0].file)], RedsToks(reds[1..]));
    }
  }

  lemma {:induction false} ArgsOut(args: seq<Arg>)
    ensures OutThenWord(ArgsToks(args))
    decreases |args|
  {
    hide RedsToks;
    if args != [] {
      ArgsOut(args[1..]);
      RedsOut(args[0].reds);
      OutConcat(RedsToks(args[0].reds), ArgsToks(args[1..]));
      OutConcat([TWord(args[0].word)], RedsToks(args[0].reds) + ArgsToks(args[1..]));
    }
  }

  lemma {:induction false} ExecOut(e: ExecPart)
    ensures OutThenWord(ExecToks(e))
    decreases e
  {
    hide RedsToks, ArgsToks, LineToks;
    RedsOut(e.reds);
    if e.Command? {
      ArgsOut(e.args);
      OutConcat(RedsToks(e.reds), ArgsToks(e.args));
    } else {
      LineOut(e.line);
      OutConcat([TSym(')')], RedsToks(e.reds));
      OutConcat(LineToks(e.line), [TSym(')')] + RedsToks(e.reds));
      OutConcat([TSym('(')], LineToks(e.line) + ([TSym(')')] + RedsToks(e.reds)));
    }
  }

  lemma {:induction false} PipeOut(p: PipePart)
    ensures OutThenWord(PipeToks(p))
    decreases p
  {
    hide ExecToks;
    ExecOut(p.exec);
    if p.Bar? {
      PipeOut(p.rest);
      OutConcat([TSym('|')], PipeToks(p.rest));
      OutConcat(ExecToks(p.exec), [TSym('|')] + PipeToks(p.rest));
    }
  }

  lemma {:induction false} AmpsOut(n: nat)
    ensures OutThenWord(AmpsToks(n))
  {
    if n > 0 {
      AmpsOut(n - 1);
      OutConcat([TSym('&')], AmpsToks(n - 1));
    }
  }

  lemma {:induction false} LineOut(l: LinePart)
    ensures OutThenWord(LineToks(l))
    decreases l
  {
    hide PipeToks, AmpsToks;
    PipeOut(l.pipe);
    AmpsOut(l.amps);
    if l.Final? {
      OutConcat(PipeToks(l.pipe), AmpsToks(l.amps));
    } else {
      LineOut(l.rest);
      OutConcat([TSym(';')], LineToks(l.rest));
      OutConcat(AmpsToks(l.amps), [TSym(';')] + LineToks(l.rest));
      OutConcat(PipeToks(l.pipe), AmpsToks(l.amps) + ([TSym(';')] + LineToks(l.rest)));
    }
  }

  /** Every sentence, with whatever white space it is written, is parsed completely and to its meaning. */
  lemma SentenceIsParsed(text: string, l: LinePart, gaps: seq<string>)
    requires Sentence(l) && Writes(text, l, gaps)
    ensures ParseCmd(text).Ok? && TreeOf(text, ParseCmd(text).value) == LineMeans(l)
  {
    hide ParseCmd, ReadCmd, LineToks, Lay, Lex, GoodTok, BlankGap;
    LaidHasNoNul(LineToks(l), gaps);
    LineOut(l);
    assert text[0..] == text;
    LexLaid(text, 0, LineToks(l), gaps);
    SentenceIsRead(l);
    CmdSame(text);
  }

  /** Whatever line is accepted is a sentence with some white space, and the result is its meaning. */
  lemma ParsedIsSentence(text: string) returns (l: LinePart, gaps: seq<string>)
    requires NUL !in text && ParseCmd(text).Ok?
    ensures Sentence(l) && Writes(text, l, gaps) && TreeOf(text, ParseCmd(text).value) == LineMeans(l)
  {
    hide ParseCmd, ReadCmd, LineToks, Lay, Lex, GoodTok, GapsOk;
    CmdSame(text);
    gaps := LaidOut(text, 0);
    assert text[0..] == text;
    l := ReadIsSentence(Lex(text, 0));
  }

  /** The language of the shell: a line is accepted if and only if it is a sentence with white space in it. */
  lemma AcceptedIff(text: string)
    requires NUL !in text
    ensures ParseCmd(text).Ok? <==> exists l, gaps :: Sentence(l) && Writes(text, l, gaps)
  {
    hide ParseCmd, Sentence, Writes, TreeOf, LineMeans;
    if ParseCmd(text).Ok? {
      var l, gaps := ParsedIsSentence(text);
    }
    if l, gaps :| Sentence(l) && Writes(text, l, gaps) {
      SentenceIsParsed(text, l, gaps);
    }
  }

  // ----- Trees in parentheses

  ghost predicate Printable(t: Tree) {
    match t
    case TExec(args) => |args| <= 9 && forall i | 0 <= i < |args| :: GoodWord(args[i])
    case TRedir(cmd, file, _) => Printable(cmd) && GoodWord(file)
    case TPipe(l, r) => Printable(l) && Printable(r)
    case TList(l, r) => Printable(l) && Printable(r)
    case TBack(cmd) => Printable(cmd)
  }

  function AsArgs(args: seq<string>): (r: seq<Arg>)
    ensures |r| == |args|
  {
    if args == [] then [] else [Arg(args[0], [])] + AsArgs(args[1..])
  }

  function Paren(t: Tree): ExecPart
    decreases t, 1
  {
    Block(SentenceFor(t), [])
  }

  /** The sentence for a tree, with every proper subtree in parentheses. */
  function SentenceFor(t: Tree): LinePart
    decreases t, 0
  {
    match t
    case TExec(args) => Final(Last(Command([], AsArgs(args))), 0)
    case TRedir(cmd, file, mode) => Final(Last(Block(SentenceFor(cmd), [Red(if mode == Input then In else Out, file)])), 0)
    case TPipe(l, r) => Final(Bar(Paren(l), Last(Paren(r))), 0)
    case TList(l, r) => Semi(Last(Paren(l)), 0, Final(Last(Paren(r)), 0))
    case TBack(cmd) => Final(Last(Paren(cmd)), 1)
  }

  ghost predicate GoodExec(e: ExecPart) {
    SmallExec(e) && GoodToks(ExecToks(e))
  }

  lemma {:induction false} ArgsMean(args: seq<string>)
    requires forall i | 0 <= i < |args| :: GoodWord(args[i])
    ensures Words(AsArgs(args)) == args && ArgReds(AsArgs(args)) == [] && GoodToks(ArgsToks(AsArgs(args)))
  {
    hide GoodWord;
    if args != [] {
      ArgsMean(args[1..]);
      assert args == [args[0]] + args[1..];
      assert AsArgs(args)[0] == Arg(args[0], []) && AsArgs(args)[1..] == AsArgs(args[1..]);
      assert RedsToks([]) == [] && RedsMean([]) == [];
    }
  }

  lemma OneRed(t: Tree, red: Red)
    ensures RedsToks([red]) == [OpTok(red.op), TWord(red.file)]
    ensures WrapTree(t, RedsMean([red])) == TRedir(t, red.file, ModeOf(red.op))
  {
    assert [red][1..] == [] && RedsMean([]) == [] && RedsToks([]) == [];
    var tos := RedsMean([red]);
    assert tos == [To(red.file, ModeOf(red.op))];
    assert tos[..0] == [];
  }

  /** A command or block by itself is a line that means the same. */
  lemma Alone(e: ExecPart, amps: nat)
    requires GoodExec(e) && amps <= 1
    ensures Sentence(Final(Last(e), amps)) && LineMeans(Final(Last(e), amps)) == Backs(ExecMeans(e), amps)
  {
    hide ExecToks, ExecMeans, SmallExec, GoodTok;
    var l := Final(Last(e), amps);
    assert PipeToks(Last(e)) == ExecToks(e) && SmallPipe(Last(e)) == SmallExec(e);
    assert AmpsToks(0) == [] && AmpsToks(1) == [TSym('&')] && GoodTok(TSym('&')) by {
      GoodSyms();
    }
    assert LineToks(l) == ExecToks(e) + AmpsToks(amps);
  }

  lemma GoodSyms()
    ensures GoodTok(TSym('&')) && GoodTok(TSym('|')) && GoodTok(TSym(';')) && GoodTok(TSym('(')) && GoodTok(TSym(')'))
    ensures forall op :: GoodTok(OpTok(op))
  {
  }

  /** A sentence in parentheses, perhaps with a redirection after it. */
  lemma BlockGood(l: LinePart, reds: seq<Red>)
    requires Sentence(l) && GoodToks(RedsToks(reds))
    ensures GoodExec(Block(l, reds)) && ExecMeans(Block(l, reds)) == WrapTree(LineMeans(l), RedsMean(reds))
  {
    hide LineToks, RedsToks, GoodTok, SmallLine, LineMeans, RedsMean, WrapTree;
    GoodSyms();
  }

  lemma {:induction false} ParenMeans(t: Tree)
    requires Printable(t)
    ensures GoodExec(Paren(t)) && ExecMeans(Paren(t)) == t
    decreases t, 1
  {
    hide GoodExec, ExecMeans, Sentence, SentenceFor;
    SentenceMeans(t);
    assert RedsToks([]) == [] && RedsMean([]) == [];
    BlockGood(SentenceFor(t), []);
  }

  lemma {:induction false} SentenceMeans(t: Tree)
    requires Printable(t)
    ensures Sentence(SentenceFor(t)) && LineMeans(SentenceFor(t)) == t
    decreases t, 0
  {
    hide Sentence, GoodExec, ExecMeans, Paren, LineMeans, GoodWord;
    match t {
      case TExec(args) => CommandMeans(args);
      case TRedir(cmd, file, mode) =>
        SentenceMeans(cmd);
        var red := Red(if mode == Input then In else Out, file);
        OneRed(cmd, red);
        GoodSyms();
        BlockGood(SentenceFor(cmd), [red]);
        Alone(Block(SentenceFor(cmd), [red]), 0);
      case TPipe(l, r) =>
        ParenMeans(l);
        ParenMeans(r);
        PipeOfTwo(Paren(l), Paren(r));
      case TList(l, r) =>
        ParenMeans(l);
        ParenMeans(r);
        ListOfTwo(Paren(l), Paren(r));
      case TBack(cmd) =>
        ParenMeans(cmd);
        Alone(Paren(cmd), 1);
        assert Backs(cmd, 1) == Backs(TBack(cmd), 0);
    }
  }

  lemma CommandMeans(args: seq<string>)
    requires |args| <= 9 && forall i | 0 <= i < |args| :: GoodWord(args[i])
    ensures Sentence(SentenceFor(TExec(args))) && LineMeans(SentenceFor(TExec(args))) == TExec(args)
  {
    var e := Command([], AsArgs(args));
    ArgsMean(args);
    assert RedsToks([]) + ArgsToks(AsArgs(args)) == ArgsToks(AsArgs(args));
    assert RedsMean([]) + ArgReds(AsArgs(args)) == [];
    Alone(e, 0);
  }

  lemma PipeOfTwo(a: ExecPart, b: ExecPart)
    requires GoodExec(a) && GoodExec(b)
    ensures var l := Final(Bar(a, Last(b)), 0); Sentence(l) && LineMeans(l) == TPipe(ExecMeans(a), ExecMeans(b))
  {
    hide ExecToks, ExecMeans, SmallExec, GoodTok;
    GoodSyms();
    var l := Final(Bar(a, Last(b)), 0);
    assert SmallPipe(Last(b)) && PipeMeans(Last(b)) == ExecMeans(b) && PipeToks(Last(b)) == ExecToks(b);
    assert SmallPipe(l.pipe) && PipeMeans(l.pipe) == TPipe(ExecMeans(a), ExecMeans(b)) && AmpsToks(0) == [];
    assert LineToks(l) == ExecToks(a) + ([TSym('|')] + ExecToks(b));
  }

  lemma ListOfTwo(a: ExecPart, b: ExecPart)
    requires GoodExec(a) && GoodExec(b)
    ensures var l := Semi(Last(a), 0, Final(Last(b), 0)); Sentence(l) && LineMeans(l) == TList(ExecMeans(a), ExecMeans(b))
  {
    hide ExecToks, ExecMeans, SmallExec, GoodTok;
    GoodSyms();
    Alone(b, 0);
    var l := Semi(Last(a), 0, Final(Last(b), 0));
    assert SmallPipe(Last(a)) && PipeMeans(Last(a)) == ExecMeans(a) && PipeToks(Last(a)) == ExecToks(a);
    assert LineToks(l) == ExecToks(a) + ([TSym(';')] + LineToks(Final(Last(b), 0)));
  }

  /** Writing a tree in parentheses, with any white space, and parsing the line gives the tree back. */
  lemma RoundTrip(t: Tree, text: string, gaps: seq<string>)
    requires Printable(t) && Writes(text, SentenceFor(t), gaps)
    ensures ParseCmd(text).Ok? && TreeOf(text, ParseCmd(text).value) == t
  {
    hide ParseCmd, Sentence, Writes;
    SentenceMeans(t);
    SentenceIsParsed(text, SentenceFor(t), gaps);
  }
}
