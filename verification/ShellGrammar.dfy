/**
 The shell's language over tokens: its sentences, what they mean, and the recursive-descent parser
 on a list of tokens.  The parser accepts exactly the sentences with at most nine words per command.
 */
module ShellGrammar {
  import opened ShellParse

  // ----- Command trees over strings

  datatype Tree =
    | TExec(args: seq<string>)
    | TRedir(cmd: Tree, file: string, mode: Mode)
    | TPipe(left: Tree, right: Tree)
    | TList(left: Tree, right: Tree)
    | TBack(cmd: Tree)

  /** A file and how it is opened. */
  datatype To = To(file: string, mode: Mode)

  function WrapTree(t: Tree, tos: seq<To>): Tree {
    if tos == [] then t
    else TRedir(WrapTree(t, tos[..|tos| - 1]), tos[|tos| - 1].file, tos[|tos| - 1].mode)
  }

  // ----- Sentences

  datatype Op = In | Out | Append

  datatype Red = Red(op: Op, file: string)

  /** A word and the redirections written after it. */
  datatype Arg = Arg(word: string, reds: seq<Red>)

  datatype ExecPart = Command(reds: seq<Red>, args: seq<Arg>) | Block(line: LinePart, reds: seq<Red>)

  datatype PipePart = Last(exec: ExecPart) | Bar(exec: ExecPart, rest: PipePart)

  /** A pipeline, a number of ampersands, and possibly a semicolon and the rest of the line. */
  datatype LinePart = Final(pipe: PipePart, amps: nat) | Semi(pipe: PipePart, amps: nat, rest: LinePart)

  /** At most nine words in each simple command. */
  predicate SmallExec(e: ExecPart) {
    match e
    case Command(_, args) => |args| <= 9
    case Block(line, _) => SmallLine(line)
  }

  predicate SmallPipe(p: PipePart) {
    match p
    case Last(e) => SmallExec(e)
    case Bar(e, rest) => SmallExec(e) && SmallPipe(rest)
  }

  predicate SmallLine(l: LinePart) {
    match l
    case Final(p, _) => SmallPipe(p)
    case Semi(p, _, rest) => SmallPipe(p) && SmallLine(rest)
  }

  // ----- The tokens of a sentence

  datatype Tok = TWord(w: string) | TSym(c: char) | TAppend

  function OpTok(op: Op): Tok {
    match op
    case In => TSym('<')
    case Out => TSym('>')
    case Append => TAppend
  }

  function RedsToks(reds: seq<Red>): seq<Tok> {
    if reds == [] then [] else [OpTok(reds[0].op), TWord(reds[0].file)] + RedsToks(reds[1..])
  }

  function ArgsToks(args: seq<Arg>): seq<Tok> {
    if args == [] then [] else [TWord(args[0].word)] + (RedsToks(args[0].reds) + ArgsToks(args[1..]))
  }

  function ExecToks(e: ExecPart): seq<Tok> {
    match e
    case Command(reds, args) => RedsToks(reds) + ArgsToks(args)
    case Block(line, reds) => [TSym('(')] + (LineToks(line) + ([TSym(')')] + RedsToks(reds)))
  }

  function PipeToks(p: PipePart): seq<Tok> {
    match p
    case Last(e) => ExecToks(e)
    case Bar(e, rest) => ExecToks(e) + ([TSym('|')] + PipeToks(rest))
  }

  function AmpsToks(n: nat): seq<Tok> {
    if n == 0 then [] else [TSym('&')] + AmpsToks(n - 1)
  }

  function LineToks(l: LinePart): seq<Tok> {
    match l
    case Final(p, amps) => PipeToks(p) + AmpsToks(amps)
    case Semi(p, amps, rest) => PipeToks(p) + (AmpsToks(amps) + ([TSym(';')] + LineToks(rest)))
  }

  // ----- Meaning

  function ModeOf(op: Op): Mode {
    if op == In then Input else Output
  }

  function RedsMean(reds: seq<Red>): seq<To> {
    if reds == [] then [] else [To(reds[0].file, ModeOf(reds[0].op))] + RedsMean(reds[1..])
  }

  function Words(args: seq<Arg>): seq<string> {
    if args == [] then [] else [args[0].word] + Words(args[1..])
  }

  function ArgReds(args: seq<Arg>): seq<To> {
    if args == [] then [] else RedsMean(args[0].reds) + ArgReds(args[1..])
  }

  /** Redirections apply from the inside out, in the order written, wherever they stand among the words. */
  function ExecMeans(e: ExecPart): Tree {
    match e
    case Command(reds, args) => WrapTree(TExec(Words(args)), RedsMean(reds) + ArgReds(args))
    case Block(line, reds) => WrapTree(LineMeans(line), RedsMean(reds))
  }

  function PipeMeans(p: PipePart): Tree {
    match p
    case Last(e) => ExecMeans(e)
    case Bar(e, rest) => TPipe(ExecMeans(e), PipeMeans(rest))
  }

  function Backs(t: Tree, n: nat): Tree
    decreases n
  {
    if n == 0 then t else Backs(TBack(t), n - 1)
  }

  function LineMeans(l: LinePart): Tree {
    match l
    case Final(p, amps) => Backs(PipeMeans(p), amps)
    case Semi(p, amps, rest) => TList(Backs(PipeMeans(p), amps), LineMeans(rest))
  }

  // ----- The parser on tokens

  datatype Read<T> = Got(value: T, rest: seq<Tok>) | Bad(panic: Panic)

  /** The next token is a symbol that starts with one of `chars`. */
  predicate Starts(toks: seq<Tok>, chars: string) {
    toks != [] &&
    match toks[0]
    case TWord(_) => false
    case TSym(c) => c in chars
    case TAppend => '>' in chars
  }

  function ReadReds(toks: seq<Tok>, tos: seq<To>): (r: Read<seq<To>>)
    ensures r.Got? ==> |r.rest| <= |toks|
    decreases |toks|
  {
    if !Starts(toks, "<>") then Got(tos, toks)
    else if |toks| < 2 || !toks[1].TWord? then Bad(MissingFile)
    else ReadReds(toks[2..], tos + [To(toks[1].w, if toks[0] == TSym('<') then Input else Output)])
  }

  datatype Plain = Plain(argv: seq<string>, tos: seq<To>)

  function ReadArgs(toks: seq<Tok>, sofar: Plain): (r: Read<Plain>)
    ensures r.Got? ==> |r.rest| <= |toks|
    decreases |toks|
  {
    if toks == [] || Starts(toks, "|)&;") then Got(sofar, toks)
    else if !toks[0].TWord? then Bad(Syntax)
    else if |sofar.argv| + 1 >= MAXARGS then Bad(TooManyArgs)
    else
      match ReadReds(toks[1..], sofar.tos)
      case Bad(e) => Bad(e)
      case Got(tos, rest) => ReadArgs(rest, Plain(sofar.argv + [toks[0].w], tos))
  }

  function ReadExec(toks: seq<Tok>): (r: Read<Tree>)
    ensures r.Got? ==> |r.rest| <= |toks|
    decreases |toks|, 1
  {
    if Starts(toks, "(") then ReadBlock(toks)
    else
      match ReadReds(toks, [])
      case Bad(e) => Bad(e)
      case Got(tos, rest) =>
        match ReadArgs(rest, Plain([], tos))
        case Bad(e) => Bad(e)
        case Got(c, rest') => Got(WrapTree(TExec(c.argv), c.tos), rest')
  }

  function ReadBlock(toks: seq<Tok>): (r: Read<Tree>)
    requires toks != []
    ensures r.Got? ==> |r.rest| <= |toks|
    decreases |toks|, 0
  {
    match ReadLine(toks[1..])
    case Bad(e) => Bad(e)
    case Got(t, rest) =>
      if !Starts(rest, ")") then Bad(MissingParen)
      else
        match ReadReds(rest[1..], [])
        case Bad(e) => Bad(e)
        case Got(tos, rest') => Got(WrapTree(t, tos), rest')
  }

  function ReadPipe(toks: seq<Tok>): (r: Read<Tree>)
    ensures r.Got? ==> |r.rest| <= |toks|
    decreases |toks|, 2
  {
    match ReadExec(toks)
    case Bad(e) => Bad(e)
    case Got(left, rest) =>
      if !Starts(rest, "|") then Got(left, rest)
      else
        match ReadPipe(rest[1..])
        case Bad(e) => Bad(e)
        case Got(right, rest') => Got(TPipe(left, right), rest')
  }

  function ReadBacks(toks: seq<Tok>, t: Tree): (r: (Tree, seq<Tok>))
    ensures |r.1| <= |toks|
    decreases |toks|
  {
    if !Starts(toks, "&") then (t, toks) else ReadBacks(toks[1..], TBack(t))
  }

  function ReadLine(toks: seq<Tok>): (r: Read<Tree>)
    ensures r.Got? ==> |r.rest| <= |toks|
    decreases |toks|, 3
  {
    match ReadPipe(toks)
    case Bad(e) => Bad(e)
    case Got(first, rest) =>
      var (t, rest') := ReadBacks(rest, first);
      if !Starts(rest', ";") then Got(t, rest')
      else
        match ReadLine(rest'[1..])
        case Bad(e) => Bad(e)
        case Got(right, rest'') => Got(TList(t, right), rest'')
  }

  function ReadCmd(toks: seq<Tok>): (r: Read<Tree>) {
    match ReadLine(toks)
    case Bad(e) => Bad(e)
    case Got(t, rest) => if rest == [] then Got(t, rest) else Bad(Leftovers)
  }

  // ----- Every sentence is read to its meaning

  /** A line ends here. */
  predicate LineStop(rest: seq<Tok>) {
    rest == [] || rest[0] == TSym(')')
  }

  /** A pipeline ends here. */
  predicate PipeStop(rest: seq<Tok>) {
    LineStop(rest) || rest[0] == TSym('&') || rest[0] == TSym(';')
  }

  /** A command or block ends here. */
  predicate ExecStop(rest: seq<Tok>) {
    PipeStop(rest) || rest[0] == TSym('|')
  }

  lemma Assoc<T>(a: seq<T>, b: seq<T>, c: seq<T>)
    ensures a + b + c == a + (b + c)
  {
  }

  lemma Behind<T>(x: T, a: seq<T>)
    ensures ([x] + a)[0] == x && ([x] + a)[1..] == a
  {
  }

  lemma RedsUnfold(red: Red, more: seq<Red>, rest: seq<Tok>)
    ensures var toks := RedsToks([red] + more) + rest;
            toks == [OpTok(red.op), TWord(red.file)] + (RedsToks(more) + rest) && toks[2..] == RedsToks(more) + rest
    ensures RedsMean([red] + more) == [To(red.file, ModeOf(red.op))] + RedsMean(more)
  {
    Behind(red, more);
    Assoc([OpTok(red.op), TWord(red.file)], RedsToks(more), rest);
  }

  /** One redirection off the front of the tokens. */
  lemma RedStep(red: Red, tail: seq<Tok>, tos: seq<To>)
    ensures ReadReds([OpTok(red.op), TWord(red.file)] + tail, tos) == ReadReds(tail, tos + [To(red.file, ModeOf(red.op))])
  {
    var toks := [OpTok(red.op), TWord(red.file)] + tail;
    assert toks[0] == OpTok(red.op) && toks[1] == TWord(red.file) && toks[2..] == tail;
  }

  lemma {:induction false} RedsAreRead(reds: seq<Red>, rest: seq<Tok>, tos: seq<To>)
    requires !Starts(rest, "<>")
    ensures ReadReds(RedsToks(reds) + rest, tos) == Got(tos + RedsMean(reds), rest)
    decreases |reds|
  {
    if reds == [] {
      assert RedsToks(reds) + rest == rest && tos + RedsMean(reds) == tos;
    } else {
      hide ReadReds, RedsToks, RedsMean;
      var to := To(reds[0].file, ModeOf(reds[0].op));
      assert reds == [reds[0]] + reds[1..];
      RedsUnfold(reds[0], reds[1..], rest);
      RedStep(reds[0], RedsToks(reds[1..]) + rest, tos);
      RedsAreRead(reds[1..], rest, tos + [to]);
      Assoc(tos, [to], RedsMean(reds[1..]));
    }
  }

  lemma ArgsUnfold(args: seq<Arg>, rest: seq<Tok>)
    requires args != []
    ensures ArgsToks(args) + rest == [TWord(args[0].word)] + (RedsToks(args[0].reds) + (ArgsToks(args[1..]) + rest))
    ensures Words(args) == [args[0].word] + Words(args[1..])
    ensures ArgReds(args) == RedsMean(args[0].reds) + ArgReds(args[1..])
  {
    Assoc(RedsToks(args[0].reds), ArgsToks(args[1..]), rest);
    Assoc([TWord(args[0].word)], RedsToks(args[0].reds) + ArgsToks(args[1..]), rest);
  }

  lemma ArgsStart(args: seq<Arg>, rest: seq<Tok>)
    requires ExecStop(rest)
    ensures !Starts(ArgsToks(args) + rest, "<>(") && (args == [] ==> ArgsToks(args) + rest == rest)
  {
    if args != [] {
      ArgsUnfold(args, rest);
    } else {
      assert ArgsToks(args) + rest == rest;
    }
  }

  lemma Extended(sofar: Plain, w: string, tos: seq<To>, words: seq<string>, more: seq<To>)
    ensures sofar.argv + [w] + words == sofar.argv + ([w] + words)
    ensures sofar.tos + tos + more == sofar.tos + (tos + more)
  {
  }

  lemma {:induction false} ArgsAreRead(args: seq<Arg>, rest: seq<Tok>, sofar: Plain)
    requires |sofar.argv| + |args| <= 9 && ExecStop(rest)
    ensures ReadArgs(ArgsToks(args) + rest, sofar) ==
            Got(Plain(sofar.argv + Words(args), sofar.tos + ArgReds(args)), rest)
    decreases |args|
  {
    hide ReadReds, RedsToks, RedsMean;
    ArgsStart(args, rest);
    if args == [] {
      assert sofar.argv + Words(args) == sofar.argv && sofar.tos + ArgReds(args) == sofar.tos;
    } else {
      var w, reds, tail := args[0].word, args[0].reds, ArgsToks(args[1..]) + rest;
      ArgsUnfold(args, rest);
      Behind(TWord(w), RedsToks(reds) + tail);
      ArgsStart(args[1..], rest);
      RedsAreRead(reds, tail, sofar.tos);
      ArgsAreRead(args[1..], rest, Plain(sofar.argv + [w], sofar.tos + RedsMean(reds)));
      Extended(sofar, w, RedsMean(reds), Words(args[1..]), ArgReds(args[1..]));
    }
  }

  lemma RedsStart(reds: seq<Red>, rest: seq<Tok>)
    requires !Starts(rest, "(")
    ensures !Starts(RedsToks(reds) + rest, "(")
  {
    if reds == [] {
      assert RedsToks(reds) + rest == rest;
    }
  }

  lemma CommandIsRead(reds: seq<Red>, args: seq<Arg>, rest: seq<Tok>)
    requires |args| <= 9 && ExecStop(rest)
    ensures ReadExec(ExecToks(Command(reds, args)) + rest) == Got(ExecMeans(Command(reds, args)), rest)
  {
    hide ReadReds, ReadArgs, RedsToks, ArgsToks, RedsMean, ArgReds, Words, WrapTree;
    var tail := ArgsToks(args) + rest;
    Assoc(RedsToks(reds), ArgsToks(args), rest);
    ArgsStart(args, rest);
    RedsStart(reds, tail);
    RedsAreRead(reds, tail, []);
    assert [] + RedsMean(reds) == RedsMean(reds);
    ArgsAreRead(args, rest, Plain([], RedsMean(reds)));
    assert [] + Words(args) == Words(args);
  }

  lemma {:induction false} ExecIsRead(e: ExecPart, rest: seq<Tok>)
    requires SmallExec(e) && ExecStop(rest)
    ensures ReadExec(ExecToks(e) + rest) == Got(ExecMeans(e), rest)
    decreases e
  {
    hide ReadReds, ReadArgs, RedsToks, ArgsToks, RedsMean, WrapTree, LineToks, ReadLine, LineMeans;
    if e.Command? {
      CommandIsRead(e.reds, e.args, rest);
    } else {
      var close := [TSym(')')] + (RedsToks(e.reds) + rest);
      BlockUnfolds(e, rest);
      Behind(TSym('('), LineToks(e.line) + close);
      Behind(TSym(')'), RedsToks(e.reds) + rest);
      LineIsRead(e.line, close);
      RedsAreRead(e.reds, rest, []);
      assert [] + RedsMean(e.reds) == RedsMean(e.reds);
    }
  }

  lemma BlockUnfolds(e: ExecPart, rest: seq<Tok>)
    requires e.Block?
    ensures ExecToks(e) + rest == [TSym('(')] + (LineToks(e.line) + ([TSym(')')] + (RedsToks(e.reds) + rest)))
  {
    hide LineToks, RedsToks;
    var a, b := LineToks(e.line), RedsToks(e.reds);
    Assoc([TSym('(')], a + ([TSym(')')] + b), rest);
    Assoc(a, [TSym(')')] + b, rest);
    Assoc([TSym(')')], b, rest);
  }

  lemma {:induction false} PipeIsRead(p: PipePart, rest: seq<Tok>)
    requires SmallPipe(p) && PipeStop(rest)
    ensures ReadPipe(PipeToks(p) + rest) == Got(PipeMeans(p), rest)
    decreases p
  {
    hide ReadExec, ExecToks, ExecMeans;
    if p.Last? {
      ExecIsRead(p.exec, rest);
    } else {
      var tail := [TSym('|')] + (PipeToks(p.rest) + rest);
      Assoc(ExecToks(p.exec), [TSym('|')] + PipeToks(p.rest), rest);
      Assoc([TSym('|')], PipeToks(p.rest), rest);
      Behind(TSym('|'), PipeToks(p.rest) + rest);
      ExecIsRead(p.exec, tail);
      PipeIsRead(p.rest, rest);
    }
  }

  lemma {:induction false} BacksAreRead(n: nat, t: Tree, rest: seq<Tok>)
    requires !Starts(rest, "&")
    ensures ReadBacks(AmpsToks(n) + rest, t) == (Backs(t, n), rest)
    decreases n
  {
    if n == 0 {
      assert AmpsToks(n) + rest == rest;
    } else {
      Assoc([TSym('&')], AmpsToks(n - 1), rest);
      Behind(TSym('&'), AmpsToks(n - 1) + rest);
      BacksAreRead(n - 1, TBack(t), rest);
    }
  }

  lemma AmpsStop(n: nat, rest: seq<Tok>)
    requires PipeStop(rest) && !Starts(rest, "&")
    ensures PipeStop(AmpsToks(n) + rest)
  {
    if n == 0 {
      assert AmpsToks(n) + rest == rest;
    }
  }

  lemma LineUnfolds(l: LinePart, rest: seq<Tok>)
    ensures l.Final? ==> LineToks(l) + rest == PipeToks(l.pipe) + (AmpsToks(l.amps) + rest)
    ensures l.Semi? ==>
      LineToks(l) + rest == PipeToks(l.pipe) + (AmpsToks(l.amps) + ([TSym(';')] + (LineToks(l.rest) + rest)))
  {
    hide PipeToks, AmpsToks;
    if l.Semi? {
      var more := [TSym(';')] + LineToks(l.rest);
      Assoc(PipeToks(l.pipe), AmpsToks(l.amps) + more, rest);
      Assoc(AmpsToks(l.amps), more, rest);
      Assoc([TSym(';')], LineToks(l.rest), rest);
    } else {
      Assoc(PipeToks(l.pipe), AmpsToks(l.amps), rest);
    }
  }

  lemma {:induction false} LineIsRead(l: LinePart, rest: seq<Tok>)
    requires SmallLine(l) && LineStop(rest)
    ensures ReadLine(LineToks(l) + rest) == Got(LineMeans(l), rest)
    decreases l
  {
    hide ReadPipe, PipeToks, PipeMeans, ReadBacks, AmpsToks, Backs, LineToks;
    LineUnfolds(l, rest);
    if l.Final? {
      AmpsStop(l.amps, rest);
      PipeIsRead(l.pipe, AmpsToks(l.amps) + rest);
      BacksAreRead(l.amps, PipeMeans(l.pipe), rest);
    } else {
      var tail := [TSym(';')] + (LineToks(l.rest) + rest);
      Behind(TSym(';'), LineToks(l.rest) + rest);
      AmpsStop(l.amps, tail);
      PipeIsRead(l.pipe, AmpsToks(l.amps) + tail);
      BacksAreRead(l.amps, PipeMeans(l.pipe), tail);
      LineIsRead(l.rest, rest);
    }
  }

  /** Every sentence is read, all of it, to its meaning. */
  lemma SentenceIsRead(l: LinePart)
    requires SmallLine(l)
    ensures ReadCmd(LineToks(l)) == Got(LineMeans(l), [])
  {
    LineIsRead(l, []);
    assert LineToks(l) + [] == LineToks(l);
  }

  // ----- Whatever is read is a sentence

  lemma {:induction false} RedsWritten(toks: seq<Tok>, tos: seq<To>) returns (reds: seq<Red>)
    requires ReadReds(toks, tos).Got?
    ensures var r := ReadReds(toks, tos);
            r.value == tos + RedsMean(reds) && toks == RedsToks(reds) + r.rest
    decreases |toks|
  {
    if !Starts(toks, "<>") {
      reds := [];
    } else {
      var op := if toks[0] == TSym('<') then In else if toks[0] == TSym('>') then Out else Append;
      var red, to := Red(op, toks[1].w), To(toks[1].w, ModeOf(op));
      assert toks == [OpTok(op), toks[1]] + toks[2..];
      hide ReadReds, RedsToks, RedsMean;
      RedStep(red, toks[2..], tos);
      var more := RedsWritten(toks[2..], tos + [to]);
      reds := [red] + more;
      RedsUnfold(red, more, ReadReds(toks, tos).rest);
      Assoc(tos, [to], RedsMean(more));
    }
  }

  lemma {:induction false} ArgsWritten(toks: seq<Tok>, sofar: Plain) returns (args: seq<Arg>)
    requires ReadArgs(toks, sofar).Got? && |sofar.argv| <= 9
    ensures var r := ReadArgs(toks, sofar);
            && r.value == Plain(sofar.argv + Words(args), sofar.tos + ArgReds(args))
            && toks == ArgsToks(args) + r.rest && |sofar.argv| + |args| <= 9
    decreases |toks|
  {
    hide ReadReds, RedsToks, RedsMean;
    if toks == [] || Starts(toks, "|)&;") {
      args := [];
    } else {
      var w := toks[0].w;
      var reds := RedsWritten(toks[1..], sofar.tos);
      var r := ReadReds(toks[1..], sofar.tos);
      var next := Plain(sofar.argv + [w], r.value);
      var more := ArgsWritten(r.rest, next);
      args := [Arg(w, reds)] + more;
      Behind(Arg(w, reds), more);
      ArgsUnfold(args, ReadArgs(toks, sofar).rest);
      Extended(sofar, w, RedsMean(reds), Words(more), ArgReds(more));
      assert toks == [toks[0]] + toks[1..];
    }
  }

  lemma {:induction false} ExecWritten(toks: seq<Tok>) returns (e: ExecPart)
    requires ReadExec(toks).Got?
    ensures SmallExec(e) && ReadExec(toks).value == ExecMeans(e) && toks == ExecToks(e) + ReadExec(toks).rest
    decreases |toks|, 1
  {
    hide ReadReds, ReadArgs, RedsToks, ArgsToks, RedsMean, ArgReds, Words, WrapTree;
    if Starts(toks, "(") {
      e := BlockWritten(toks);
    } else {
      var reds := RedsWritten(toks, []);
      var r := ReadReds(toks, []);
      var args := ArgsWritten(r.rest, Plain([], r.value));
      e := Command(reds, args);
      assert [] + Words(args) == Words(args) && [] + RedsMean(reds) == RedsMean(reds);
      Assoc(RedsToks(reds), ArgsToks(args), ReadExec(toks).rest);
    }
  }

  lemma {:induction false} BlockWritten(toks: seq<Tok>) returns (e: ExecPart)
    requires Starts(toks, "(") && ReadBlock(toks).Got?
    ensures SmallExec(e) && ReadBlock(toks).value == ExecMeans(e) && toks == ExecToks(e) + ReadBlock(toks).rest
    decreases |toks|, 0
  {
    hide ReadReds, RedsToks, RedsMean, WrapTree, ReadLine, LineToks, LineMeans;
    var line := LineWritten(toks[1..]);
    var rest := ReadLine(toks[1..]).rest;
    var reds := RedsWritten(rest[1..], []);
    e := Block(line, reds);
    assert [] + RedsMean(reds) == RedsMean(reds);
    BlockUnfolds(e, ReadBlock(toks).rest);
    assert toks == [TSym('(')] + toks[1..] && rest == [TSym(')')] + rest[1..];
  }

  lemma {:induction false} PipeWritten(toks: seq<Tok>) returns (p: PipePart)
    requires ReadPipe(toks).Got?
    ensures SmallPipe(p) && ReadPipe(toks).value == PipeMeans(p) && toks == PipeToks(p) + ReadPipe(toks).rest
    decreases |toks|, 2
  {
    hide ReadExec, ExecToks, ExecMeans;
    var e := ExecWritten(toks);
    var rest := ReadExec(toks).rest;
    if !Starts(rest, "|") {
      p := Last(e);
    } else {
      var more := PipeWritten(rest[1..]);
      p := Bar(e, more);
      var end := ReadPipe(toks).rest;
      assert rest == [TSym('|')] + rest[1..];
      Assoc([TSym('|')], PipeToks(more), end);
      Assoc(ExecToks(e), [TSym('|')] + PipeToks(more), end);
    }
  }

  lemma {:induction false} BacksWritten(toks: seq<Tok>, t: Tree) returns (n: nat)
    ensures ReadBacks(toks, t).0 == Backs(t, n) && toks == AmpsToks(n) + ReadBacks(toks, t).1
    decreases |toks|
  {
    if !Starts(toks, "&") {
      n := 0;
    } else {
      var m := BacksWritten(toks[1..], TBack(t));
      n := m + 1;
      assert toks == [TSym('&')] + toks[1..];
      Assoc([TSym('&')], AmpsToks(m), ReadBacks(toks, t).1);
    }
  }

  lemma {:induction false} LineWritten(toks: seq<Tok>) returns (l: LinePart)
    requires ReadLine(toks).Got?
    ensures SmallLine(l) && ReadLine(toks).value == LineMeans(l) && toks == LineToks(l) + ReadLine(toks).rest
    decreases |toks|, 3
  {
    hide ReadPipe, PipeToks, PipeMeans, ReadBacks, AmpsToks, Backs, LineToks;
    var p := PipeWritten(toks);
    var first := ReadPipe(toks);
    var n := BacksWritten(first.rest, first.value);
    var rest := ReadBacks(first.rest, first.value).1;
    if !Starts(rest, ";") {
      l := Final(p, n);
    } else {
      var more := LineWritten(rest[1..]);
      l := Semi(p, n, more);
      assert rest == [TSym(';')] + rest[1..];
    }
    LineUnfolds(l, ReadLine(toks).rest);
  }

  /** Whatever the parser accepts is a sentence with at most nine words per command, and is read to its meaning. */
  lemma ReadIsSentence(toks: seq<Tok>) returns (l: LinePart)
    requires ReadCmd(toks).Got?
    ensures SmallLine(l) && toks == LineToks(l) && ReadCmd(toks) == Got(LineMeans(l), [])
  {
    l := LineWritten(toks);
    assert LineToks(l) + [] == LineToks(l);
  }
}
