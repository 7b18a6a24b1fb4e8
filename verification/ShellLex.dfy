/**
 The shell's scanner: a line is cut into tokens, and any white space may stand between them.
 Writing tokens out with any gaps and scanning them are inverse to each other.
 */
module ShellLex {
  import opened ShellParse
  import opened ShellGrammar

  // ----- Writing tokens with gaps

  /** Space, tab, carriage return, newline and vertical tab. */
  predicate Blank(c: char) {
    c in " \t\r\n\U{B}"
  }

  /** Characters that are tokens by themselves. */
  predicate Special(c: char) {
    c in "<|>&;()"
  }

  ghost predicate GoodWord(w: string) {
    w != "" && forall i | 0 <= i < |w| :: !Blank(w[i]) && !Special(w[i]) && w[i] != NUL
  }

  ghost predicate GoodTok(t: Tok) {
    match t
    case TWord(w) => GoodWord(w)
    case TSym(c) => Special(c)
    case TAppend => true
  }

  ghost predicate GoodToks(toks: seq<Tok>) {
    forall i | 0 <= i < |toks| :: GoodTok(toks[i])
  }

  ghost predicate BlankGap(gap: string) {
    forall i | 0 <= i < |gap| :: Blank(gap[i])
  }

  /** A gap before each token and one at the end: any white space, and some between two words. */
  ghost predicate GapsOk(toks: seq<Tok>, gaps: seq<string>) {
    && |gaps| == |toks| + 1
    && (forall i | 0 <= i < |gaps| :: BlankGap(gaps[i]))
    && (forall i {:trigger toks[i]} | 0 < i < |toks| && toks[i - 1].TWord? && toks[i].TWord? :: gaps[i] != "")
  }

  function Spell(t: Tok): string {
    match t
    case TWord(w) => w
    case TSym(c) => [c]
    case TAppend => ">>"
  }

  function Lay(toks: seq<Tok>, gaps: seq<string>): string
    requires |gaps| == |toks| + 1
  {
    if toks == [] then gaps[0] else gaps[0] + (Spell(toks[0]) + Lay(toks[1..], gaps[1..]))
  }

  // ----- Scanning

  function TokOf(text: string, t: Token): Tok
    requires t.word.q <= t.word.eq <= |text|
  {
    if t.kind == 'a' then TWord(text[t.word.q..t.word.eq]) else if t.kind == '+' then TAppend else TSym(t.kind)
  }

  /** All tokens from `pos` on. */
  function Lex(text: string, pos: nat): seq<Tok>
    requires pos <= |text|
    decreases |text| - pos
  {
    var t := GetToken(text, pos);
    if t.kind == NUL then [] else [TokOf(text, t)] + Lex(text, t.next)
  }

  lemma {:induction false} SkipIs(text: string, pos: nat, e: nat)
    requires pos <= e <= |text| && (forall i | pos <= i < e :: IsSpace(text[i])) && (e < |text| ==> !IsSpace(text[e]))
    ensures Skip(text, pos) == e
    decreases e - pos
  {
    if pos < e {
      SkipIs(text, pos + 1, e);
    }
  }

  lemma {:induction false} WordEndIs(text: string, pos: nat, e: nat)
    requires pos <= e <= |text| && (forall i | pos <= i < e :: IsWordChar(text[i])) && (e < |text| ==> !IsWordChar(text[e]))
    ensures WordEnd(text, pos) == e
    decreases e - pos
  {
    if pos < e {
      WordEndIs(text, pos + 1, e);
    }
  }

  lemma WordMoves(text: string, s: nat)
    requires s < |text| && IsWordChar(text[s])
    ensures WordEnd(text, s) > s
  {
  }

  lemma SkipTwice(text: string, pos: nat)
    requires pos <= |text|
    ensures Skip(text, Skip(text, pos)) == Skip(text, pos)
  {
    SkipIs(text, Skip(text, pos), Skip(text, pos));
  }

  /** White space before the first token does not matter. */
  lemma TokenSkip(text: string, pos: nat)
    requires pos <= |text|
    ensures GetToken(text, Skip(text, pos)) == GetToken(text, pos)
  {
    SkipTwice(text, pos);
  }

  lemma LexSkip(text: string, pos: nat)
    requires pos <= |text|
    ensures Lex(text, Skip(text, pos)) == Lex(text, pos)
  {
    hide Skip, GetToken, TokOf;
    TokenSkip(text, pos);
  }

  /** The scanner's classes are the literal ones. */
  lemma Classes(c: char)
    ensures IsSpace(c) <==> Blank(c)
    ensures IsSymbol(c) <==> Special(c)
    ensures Blank(c) ==> !Special(c) && c != NUL
    ensures Special(c) ==> c != NUL
  {
  }

  lemma AllClasses()
    ensures forall c :: IsSpace(c) == Blank(c)
    ensures forall c :: IsSymbol(c) == Special(c)
  {
    forall c ensures IsSpace(c) == Blank(c) && IsSymbol(c) == Special(c) {
      Classes(c);
    }
  }

  // ----- What is written is scanned

  /** A single '>' is always followed by a word. */
  ghost predicate OutThenWord(toks: seq<Tok>) {
    forall i {:trigger toks[i]} | 0 <= i < |toks| && toks[i] == TSym('>') :: i + 1 < |toks| && toks[i + 1].TWord?
  }

  lemma Tails(toks: seq<Tok>, gaps: seq<string>)
    requires toks != [] && GoodToks(toks) && GapsOk(toks, gaps) && OutThenWord(toks)
    ensures GoodToks(toks[1..]) && GapsOk(toks[1..], gaps[1..]) && OutThenWord(toks[1..])
    ensures |toks| > 1 && toks[0].TWord? && toks[1].TWord? ==> gaps[1] != ""
    ensures toks[0] == TSym('>') ==> |toks| > 1 && toks[1].TWord?
  {
    hide BlankGap, GoodTok;
    var rest, more := toks[1..], gaps[1..];
    forall i | 0 < i < |rest| && rest[i - 1].TWord? && rest[i].TWord? ensures more[i] != "" {
      assert toks[i + 1] == rest[i] && toks[i] == rest[i - 1];
    }
    forall i | 0 <= i < |rest| && rest[i] == TSym('>') ensures i + 1 < |rest| && rest[i + 1].TWord? {
      assert toks[i + 1] == rest[i];
    }
    if |toks| > 1 {
      assert toks[1] == toks[1];
    }
  }

  lemma Slid(text: string, pos: nat, a: string, b: string)
    requires pos <= |text| && text[pos..] == a + b
    ensures pos + |a| <= |text| && text[pos + |a|..] == b && text[pos..pos + |a|] == a
    ensures forall i | 0 <= i < |a| :: text[pos + i] == a[i]
  {
    var s := text[pos..];
    assert text[pos + |a|..] == s[|a|..] && text[pos..pos + |a|] == s[..|a|];
    forall i | 0 <= i < |a| ensures text[pos + i] == a[i] {
      assert text[pos + i] == s[i];
    }
  }

  /** What may come right after a token. */
  lemma AfterTok(text: string, pos: nat, toks: seq<Tok>, gaps: seq<string>)
    requires pos <= |text| && GoodToks(toks) && GapsOk(toks, gaps) && text[pos..] == Lay(toks, gaps)
    ensures toks == [] || !toks[0].TWord? || gaps[0] != "" ==>
      pos == |text| || Blank(text[pos]) || Special(text[pos])
    ensures toks != [] && toks[0].TWord? ==> pos < |text| && text[pos] != '>'
    ensures pos == |text| || text[pos] != NUL
  {
    if gaps[0] != "" {
      if toks == [] {
        Slid(text, pos, gaps[0], "");
      } else {
        Slid(text, pos, gaps[0], Spell(toks[0]) + Lay(toks[1..], gaps[1..]));
      }
      assert BlankGap(gaps[0]);
      assert text[pos + 0] == gaps[0][0];
    } else if toks != [] {
      var rest := Lay(toks[1..], gaps[1..]);
      assert text[pos..] == Spell(toks[0]) + rest;
      Slid(text, pos, Spell(toks[0]), rest);
      assert GoodTok(toks[0]);
      assert text[pos + 0] == Spell(toks[0])[0];
    }
  }

  lemma ScanGap(text: string, pos: nat, gap: string, rest: string)
    requires pos <= |text| && text[pos..] == gap + rest && BlankGap(gap) && (rest != "" ==> !Blank(rest[0]))
    ensures pos + |gap| <= |text| && text[pos + |gap|..] == rest && Skip(text, pos) == pos + |gap|
  {
    hide Skip;
    AllClasses();
    hide IsSpace, Blank;
    Slid(text, pos, gap, rest);
    forall i | pos <= i < pos + |gap| ensures IsSpace(text[i]) {
      assert text[pos + (i - pos)] == gap[i - pos];
    }
    if pos + |gap| < |text| {
      assert text[pos + |gap|] == rest[0];
    }
    SkipIs(text, pos, pos + |gap|);
  }

  /** One token at `s`, with something after it that ends it. */
  lemma ScanTok(text: string, pos: nat, s: nat, t: Tok, rest: string)
    requires pos <= s <= |text| && Skip(text, pos) == s && GoodTok(t) && text[s..] == Spell(t) + rest
    requires t.TWord? ==> rest == "" || Blank(rest[0]) || Special(rest[0])
    requires t == TSym('>') ==> rest == "" || rest[0] != '>'
    ensures s + |Spell(t)| <= |text| && text[s + |Spell(t)|..] == rest
    ensures var k := GetToken(text, pos);
            && k.kind != NUL && TokOf(text, k) == t
            && k.word == Word(s, s + |Spell(t)|) && k.next == Skip(text, s + |Spell(t)|)
  {
    hide Skip, WordEnd;
    var e := s + |Spell(t)|;
    Slid(text, s, Spell(t), rest);
    assert text[s + 0] == Spell(t)[0];
    if e < |text| {
      assert text[e] == rest[0];
      Classes(text[e]);
    }
    Classes(text[s]);
    if t.TWord? {
      forall i | s <= i < e ensures IsWordChar(text[i]) {
        assert text[s + (i - s)] == t.w[i - s];
        Classes(text[i]);
      }
      WordEndIs(text, s, e);
    } else if t.TAppend? {
      assert text[s + 1] == Spell(t)[1];
    }
  }

  lemma LayStarts(toks: seq<Tok>, gaps: seq<string>)
    requires toks != [] && GoodToks(toks) && |gaps| == |toks| + 1
    ensures var rest := Spell(toks[0]) + Lay(toks[1..], gaps[1..]);
            Lay(toks, gaps) == gaps[0] + rest && rest != "" && !Blank(rest[0])
  {
    assert GoodTok(toks[0]);
    Classes(Spell(toks[0])[0]);
  }

  /** Past the first token and the gap before it. */
  lemma LaidStep(text: string, pos: nat, toks: seq<Tok>, gaps: seq<string>) returns (e: nat)
    requires pos <= |text| && GoodToks(toks) && GapsOk(toks, gaps) && OutThenWord(toks) && text[pos..] == Lay(toks, gaps)
    requires toks != []
    ensures pos <= e <= |text| && text[e..] == Lay(toks[1..], gaps[1..]) && Lex(text, pos) == [toks[0]] + Lex(text, e)
  {
    hide Skip, GetToken, TokOf, Blank, Special, Spell, Lex;
    assert BlankGap(gaps[0]) && GoodTok(toks[0]);
    var s, after := pos + |gaps[0]|, Lay(toks[1..], gaps[1..]);
    LayStarts(toks, gaps);
    ScanGap(text, pos, gaps[0], Spell(toks[0]) + after);
    Tails(toks, gaps);
    e := s + |Spell(toks[0])|;
    Slid(text, s, Spell(toks[0]), after);
    AfterTok(text, e, toks[1..], gaps[1..]);
    hide Lay, GapsOk, OutThenWord, GoodTok, BlankGap;
    assert e < |text| ==> text[e] == after[0];
    ScanTok(text, pos, s, toks[0], after);
    LexStep(text, pos, e, toks[0]);
  }

  lemma {:induction false} LexLaid(text: string, pos: nat, toks: seq<Tok>, gaps: seq<string>)
    requires pos <= |text| && GoodToks(toks) && GapsOk(toks, gaps) && OutThenWord(toks) && text[pos..] == Lay(toks, gaps)
    ensures Lex(text, pos) == toks
    decreases |toks|
  {
    hide Skip, Lex, Blank, OutThenWord;
    if toks == [] {
      assert BlankGap(gaps[0]);
      assert gaps[0] + "" == gaps[0];
      ScanGap(text, pos, gaps[0], "");
      EndOfLine(text, pos);
    } else {
      var e := LaidStep(text, pos, toks, gaps);
      Tails(toks, gaps);
      LexLaid(text, e, toks[1..], gaps[1..]);
      assert toks == [toks[0]] + toks[1..];
    }
  }

  lemma LexStep(text: string, pos: nat, e: nat, t: Tok)
    requires pos <= e <= |text| && GetToken(text, pos).kind != NUL
    requires TokOf(text, GetToken(text, pos)) == t && GetToken(text, pos).next == Skip(text, e)
    ensures Lex(text, pos) == [t] + Lex(text, e)
  {
    hide Skip, GetToken, TokOf;
    LexSkip(text, e);
  }

  lemma EndOfLine(text: string, pos: nat)
    requires pos <= |text| && Skip(text, pos) == |text|
    ensures Lex(text, pos) == []
  {
  }

  // ----- What is scanned could have been written

  lemma {:induction false} LaidOut(text: string, pos: nat) returns (gaps: seq<string>)
    requires pos <= |text| && NUL !in text
    ensures GoodToks(Lex(text, pos)) && GapsOk(Lex(text, pos), gaps) && text[pos..] == Lay(Lex(text, pos), gaps)
    decreases |text| - pos
  {
    hide Skip, GetToken, TokOf, Blank, Special, Spell;
    var s := Skip(text, pos);
    var gap := text[pos..s];
    ThisGap(text, pos);
    var t := GetToken(text, pos);
    if s == |text| {
      gaps := [gap];
      EndOfLine(text, pos);
    } else {
      NotAtEnd(text, pos);
      var e := t.word.eq;
      ThisTok(text, pos);
      var more := LaidOut(text, e);
      LexSkip(text, e);
      gaps := [gap] + more;
      Behind(gap, more);
      Behind(TokOf(text, t), Lex(text, e));
      Cut(text, pos, s, e);
      NextGap(text, e, Lex(text, e), more, TokOf(text, t));
      Joined(TokOf(text, t), Lex(text, e), gap, more);
    }
  }

  lemma ThisGap(text: string, pos: nat)
    requires pos <= |text|
    ensures pos <= Skip(text, pos) <= |text| && BlankGap(text[pos..Skip(text, pos)])
  {
    hide Skip, Blank, IsSpace;
    AllClasses();
  }

  lemma NotAtEnd(text: string, pos: nat)
    requires pos <= |text| && NUL !in text && Skip(text, pos) < |text|
    ensures GetToken(text, pos).kind != NUL
  {
    hide Skip, WordEnd;
    assert text[Skip(text, pos)] in text;
  }

  /** The token found is good, spelled as in the text, and a word is not continued. */
  lemma ThisTok(text: string, pos: nat)
    requires pos <= |text| && NUL !in text && GetToken(text, pos).kind != NUL
    ensures var t := GetToken(text, pos);
            && t.word.q == Skip(text, pos) && pos < t.word.eq && t.next == Skip(text, t.word.eq)
            && GoodTok(TokOf(text, t)) && Spell(TokOf(text, t)) == text[t.word.q..t.word.eq]
            && (TokOf(text, t).TWord? && t.word.eq < |text| ==> Blank(text[t.word.eq]) || Special(text[t.word.eq]))
  {
    hide Skip, WordEnd;
    var t := GetToken(text, pos);
    var s, e := t.word.q, t.word.eq;
    Classes(text[s]);
    if t.kind == 'a' {
      WordMoves(text, s);
      var w := text[s..e];
      forall i | 0 <= i < |w| ensures !Blank(w[i]) && !Special(w[i]) && w[i] != NUL {
        assert w[i] == text[s + i];
        Classes(text[s + i]);
      }
      if e < |text| {
        Classes(text[e]);
      }
    } else if t.kind == '+' {
      assert text[s..e] == ">>";
    } else {
      assert text[s..e] == [text[s]];
    }
  }

  lemma Cut(text: string, a: nat, b: nat, c: nat)
    requires a <= b <= c <= |text|
    ensures text[a..] == text[a..b] + (text[b..c] + text[c..])
  {
  }

  /** Between a word and a word there is white space. */
  lemma NextGap(text: string, e: nat, toks: seq<Tok>, gaps: seq<string>, t: Tok)
    requires e <= |text| && |gaps| == |toks| + 1 && text[e..] == Lay(toks, gaps) && GoodToks(toks)
    requires t.TWord? && e < |text| ==> Blank(text[e]) || Special(text[e])
    ensures t.TWord? && toks != [] && toks[0].TWord? ==> gaps[0] != ""
  {
    if toks != [] && toks[0].TWord? && gaps[0] == "" {
      var rest := Lay(toks[1..], gaps[1..]);
      assert GoodTok(toks[0]);
      assert text[e..] == toks[0].w + rest;
      Slid(text, e, toks[0].w, rest);
      assert text[e + 0] == toks[0].w[0];
    }
  }

  lemma Joined(t: Tok, toks: seq<Tok>, gap: string, gaps: seq<string>)
    requires GoodTok(t) && GoodToks(toks) && BlankGap(gap) && GapsOk(toks, gaps)
    requires t.TWord? && toks != [] && toks[0].TWord? ==> gaps[0] != ""
    ensures GoodToks([t] + toks) && GapsOk([t] + toks, [gap] + gaps)
    ensures Lay([t] + toks, [gap] + gaps) == gap + (Spell(t) + Lay(toks, gaps))
  {
    hide GoodTok, BlankGap, Spell;
    var all, more := [t] + toks, [gap] + gaps;
    Behind(t, toks);
    Behind(gap, gaps);
    forall i | 0 < i < |all| && all[i - 1].TWord? && all[i].TWord? ensures more[i] != "" {
      assert all[i] == toks[i - 1];
      assert i > 1 ==> all[i - 1] == toks[i - 2];
    }
  }

  lemma {:induction false} LaidHasNoNul(toks: seq<Tok>, gaps: seq<string>)
    requires GoodToks(toks) && |gaps| == |toks| + 1 && forall i | 0 <= i < |gaps| :: BlankGap(gaps[i])
    ensures NUL !in Lay(toks, gaps)
    decreases |toks|
  {
    assert BlankGap(gaps[0]);
    if toks != [] {
      LaidHasNoNul(toks[1..], gaps[1..]);
      assert GoodTok(toks[0]);
      assert NUL !in Spell(toks[0]);
    }
  }
}
