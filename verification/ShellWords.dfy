/**
 The words of a parsed command: where they lie in the line, and what is left of them once each is
 ended in place by a NUL.
 */
module ShellWords {
  import opened ShellParse

  /** A maximal run of word characters. */
  ghost predicate WordOk(text: string, w: Word) {
    && w.q < w.eq <= |text|
    && (forall i | w.q <= i < w.eq :: IsWordChar(text[i]))
    && (w.eq < |text| ==> !IsWordChar(text[w.eq]))
  }

  /** `w` is an argument or a file name somewhere in the command. */
  ghost predicate Uses(c: Cmd, w: Word) {
    match c
    case Exec(argv) => w in argv
    case Redir(cmd, file, _) => w == file || Uses(cmd, w)
    case Pipe(l, r) => Uses(l, w) || Uses(r, w)
    case List(l, r) => Uses(l, w) || Uses(r, w)
    case Back(cmd) => Uses(cmd, w)
  }

  ghost predicate WordsOk(text: string, c: Cmd) {
    forall w | Uses(c, w) :: WordOk(text, w)
  }

  ghost predicate RedirsOk(text: string, rs: seq<Redirection>) {
    forall i | 0 <= i < |rs| :: WordOk(text, rs[i].file)
  }

  ghost predicate ArgsOk(text: string, argv: seq<Word>) {
    forall i | 0 <= i < |argv| :: WordOk(text, argv[i])
  }

  // ----- Every word the parser records is a maximal run

  lemma TokenWord(text: string, pos: nat)
    requires pos <= |text| && GetToken(text, pos).kind == 'a'
    ensures WordOk(text, GetToken(text, pos).word)
  {
    var s := Skip(text, pos);
    assert IsWordChar(text[s]);
  }

  lemma {:induction false} RedirsWords(text: string, pos: nat, rs: seq<Redirection>)
    requires pos <= |text| && RedirsOk(text, rs) && ParseRedirs(text, pos, rs).Ok?
    ensures RedirsOk(text, ParseRedirs(text, pos, rs).value)
    decreases |text| - pos
  {
    hide GetToken, Skip, WordOk;
    if Peek(text, pos, "<>") {
      var tok := GetToken(text, Skip(text, pos));
      var file := GetToken(text, tok.next);
      TokenWord(text, tok.next);
      RedirsWords(text, file.next, rs + [Redirection(file.word, if tok.kind == '<' then Input else Output)]);
    }
  }

  lemma {:induction false} ArgsWords(text: string, pos: nat, c: Simple)
    requires pos <= |text| && RedirsOk(text, c.rs) && ArgsOk(text, c.argv) && ParseArgs(text, pos, c).Ok?
    ensures RedirsOk(text, ParseArgs(text, pos, c).value.rs) && ArgsOk(text, ParseArgs(text, pos, c).value.argv)
    decreases |text| - pos
  {
    hide GetToken, Skip, WordOk, RedirsOk, ParseRedirs;
    var tok := GetToken(text, Skip(text, pos));
    if !Peek(text, pos, "|)&;") && tok.kind != NUL {
      TokenWord(text, Skip(text, pos));
      RedirsWords(text, tok.next, c.rs);
      var r := ParseRedirs(text, tok.next, c.rs);
      ArgsWords(text, r.pos, Simple(c.argv + [tok.word], r.value));
    }
  }

  lemma {:induction false} WrapWords(text: string, c: Cmd, rs: seq<Redirection>)
    requires WordsOk(text, c) && RedirsOk(text, rs)
    ensures WordsOk(text, Wrap(c, rs))
    decreases |rs|
  {
    hide WordOk;
    if rs != [] {
      WrapWords(text, c, rs[..|rs| - 1]);
    }
  }

  lemma {:induction false} ExecWords(text: string, pos: nat)
    requires pos <= |text| && ParseExec(text, pos).Ok?
    ensures WordsOk(text, ParseExec(text, pos).value)
    decreases |text| - pos, 1
  {
    hide GetToken, Skip, WordOk, ParseRedirs, ParseArgs, ParseBlock, Wrap;
    var s := Skip(text, pos);
    if Peek(text, pos, "(") {
      BlockWords(text, s);
    } else {
      RedirsWords(text, s, []);
      var rs := ParseRedirs(text, s, []);
      ArgsWords(text, rs.pos, Simple([], rs.value));
      var c := ParseArgs(text, rs.pos, Simple([], rs.value)).value;
      WrapWords(text, Exec(c.argv), c.rs);
    }
  }

  lemma {:induction false} BlockWords(text: string, pos: nat)
    requires pos <= |text| && Peek(text, pos, "(") && ParseBlock(text, pos).Ok?
    ensures WordsOk(text, ParseBlock(text, pos).value)
    decreases |text| - pos, 0
  {
    hide WordOk, WordsOk, ParseRedirs, ParseLine, Wrap, RedirsOk;
    var next := GetToken(text, Skip(text, pos)).next;
    LineWords(text, next);
    var line := ParseLine(text, next);
    var after := GetToken(text, Skip(text, line.pos)).next;
    RedirsNone(text);
    RedirsWords(text, after, []);
    WrapWords(text, line.value, ParseRedirs(text, after, []).value);
  }

  lemma RedirsNone(text: string)
    ensures RedirsOk(text, [])
  {
  }

  lemma {:induction false} PipeWords(text: string, pos: nat)
    requires pos <= |text| && ParsePipe(text, pos).Ok?
    ensures WordsOk(text, ParsePipe(text, pos).value)
    decreases |text| - pos, 2
  {
    hide WordOk, ParseExec;
    ExecWords(text, pos);
    var left := ParseExec(text, pos);
    if Peek(text, left.pos, "|") {
      PipeWords(text, GetToken(text, Skip(text, left.pos)).next);
    }
  }

  lemma {:induction false} BacksWords(text: string, pos: nat, c: Cmd)
    requires pos <= |text| && WordsOk(text, c)
    ensures WordsOk(text, ParseBacks(text, pos, c).0)
    decreases |text| - pos
  {
    hide WordOk;
    if Peek(text, pos, "&") {
      BacksWords(text, GetToken(text, Skip(text, pos)).next, Back(c));
    }
  }

  lemma {:induction false} LineWords(text: string, pos: nat)
    requires pos <= |text| && ParseLine(text, pos).Ok?
    ensures WordsOk(text, ParseLine(text, pos).value)
    decreases |text| - pos, 3
  {
    hide WordOk, ParsePipe, ParseBacks;
    PipeWords(text, pos);
    var first := ParsePipe(text, pos);
    BacksWords(text, first.pos, first.value);
    var p := ParseBacks(text, first.pos, first.value).1;
    if Peek(text, p, ";") {
      LineWords(text, GetToken(text, Skip(text, p)).next);
    }
  }

  // ----- Ending words in place

  /** Some word of the command ends at `i`. */
  ghost predicate EndsAt(c: Cmd, i: nat) {
    match c
    case Exec(argv) => exists k :: 0 <= k < |argv| && argv[k].eq == i
    case Redir(cmd, file, _) => file.eq == i || EndsAt(cmd, i)
    case Pipe(l, r) => EndsAt(l, i) || EndsAt(r, i)
    case List(l, r) => EndsAt(l, i) || EndsAt(r, i)
    case Back(cmd) => EndsAt(cmd, i)
  }

  /** `buf` starts with `text` and its final NUL, with a NUL at the end of every word of the command. */
  ghost predicate Terminated(text: string, buf: string, c: Cmd) {
    |text| < |buf| && forall i | 0 <= i <= |text| :: buf[i] == if EndsAt(c, i) then NUL else CharAt(text, i)
  }

  lemma {:induction false} EndIsUsed(c: Cmd, i: nat) returns (w: Word)
    requires EndsAt(c, i)
    ensures Uses(c, w) && w.eq == i
    decreases c
  {
    match c {
      case Exec(argv) => var k :| 0 <= k < |argv| && argv[k].eq == i; w := argv[k];
      case Redir(cmd, file, _) => if file.eq == i { w := file; } else { w := EndIsUsed(cmd, i); }
      case Pipe(l, r) => if EndsAt(l, i) { w := EndIsUsed(l, i); } else { w := EndIsUsed(r, i); }
      case List(l, r) => if EndsAt(l, i) { w := EndIsUsed(l, i); } else { w := EndIsUsed(r, i); }
      case Back(cmd) => w := EndIsUsed(cmd, i);
    }
  }

  lemma {:induction false} UsedEnds(c: Cmd, w: Word)
    requires Uses(c, w)
    ensures EndsAt(c, w.eq)
    decreases c
  {
    match c {
      case Exec(argv) => var k :| 0 <= k < |argv| && argv[k] == w;
      case Redir(cmd, file, _) => if w != file { UsedEnds(cmd, w); }
      case Pipe(l, r) => if Uses(l, w) { UsedEnds(l, w); } else { UsedEnds(r, w); }
      case List(l, r) => if Uses(l, w) { UsedEnds(l, w); } else { UsedEnds(r, w); }
      case Back(cmd) => UsedEnds(cmd, w);
    }
  }

  /** What a C program reads from `q`: up to the first NUL. */
  function CString(buf: string, q: nat): string
    decreases |buf| - q
  {
    if q >= |buf| || buf[q] == NUL then "" else [buf[q]] + CString(buf, q + 1)
  }

  lemma {:induction false} CStringIs(buf: string, q: nat, e: nat)
    requires q <= e < |buf| && buf[e] == NUL && forall i | q <= i < e :: buf[i] != NUL
    ensures CString(buf, q) == buf[q..e]
    decreases e - q
  {
    if q < e {
      CStringIs(buf, q + 1, e);
      assert buf[q..e] == [buf[q]] + buf[q + 1..e];
    }
  }

  lemma EndNotInWord(text: string, c: Cmd, i: nat)
    requires WordsOk(text, c) && EndsAt(c, i)
    ensures i <= |text| && (i < |text| ==> !IsWordChar(text[i]))
  {
    var v := EndIsUsed(c, i);
    assert WordOk(text, v);
  }

  /** No terminator lands inside a word, so every word reads back as the slice recorded for it. */
  lemma WordReadsBack(text: string, buf: string, c: Cmd, w: Word)
    requires NUL !in text && WordsOk(text, c) && Terminated(text, buf, c) && Uses(c, w)
    ensures w.q <= w.eq <= |text| && CString(buf, w.q) == text[w.q..w.eq]
  {
    assert WordOk(text, w);
    UsedEnds(c, w);
    forall i | w.q <= i < w.eq ensures buf[i] == text[i] && buf[i] != NUL {
      if EndsAt(c, i) {
        EndNotInWord(text, c, i);
      }
      assert text[i] in text;
    }
    CStringIs(buf, w.q, w.eq);
    assert buf[w.q..w.eq] == text[w.q..w.eq];
  }
}
