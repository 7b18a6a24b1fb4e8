/**
 The regular-expression matcher of grep: literals, `.`, `c*`, a leading `^` and a final `$`.

 The meaning of a pattern is given by its language: a pattern is a list of atoms, an atom
 denotes a set of strings, and a string spells a list of atoms when it can be cut into one
 piece per atom.  The recursive matcher with its two pointer-advancing loops is proved to
 decide exactly that meaning.
 */
module Grep {

  /** One character, or any number of them; the character '.' stands for every character. */
  datatype Atom = One(c: char) | Many(c: char)

  datatype Pattern = Pattern(atStart: bool, atoms: seq<Atom>, atEnd: bool)

  /** What a read through the pointer `s + i` yields: strings end with a NUL. */
  function At(s: string, i: nat): char
    requires i <= |s|
  {
    if i < |s| then s[i] else '\0'
  }

  predicate CString(s: string) {
    '\0' !in s
  }

  predicate Accepts(c: char, x: char) {
    c == '.' || c == x
  }

  // ----- Syntax

  /** A star binds to the character before it; `$` is an anchor only as the last character. */
  function Body(re: string): (p: Pattern)
    ensures !p.atStart
  {
    if re == "" then Pattern(false, [], false)
    else if |re| >= 2 && re[1] == '*' then
      var p := Body(re[2..]);
      Pattern(false, [Many(re[0])] + p.atoms, p.atEnd)
    else if re == "$" then Pattern(false, [], true)
    else
      var p := Body(re[1..]);
      Pattern(false, [One(re[0])] + p.atoms, p.atEnd)
  }

  function Syntax(re: string): Pattern {
    if re != "" && re[0] == '^' then Body(re[1..]).(atStart := true) else Body(re)
  }

  function ShowAtoms(atoms: seq<Atom>): string {
    if atoms == [] then ""
    else (match atoms[0] case One(c) => [c] case Many(c) => [c, '*']) + ShowAtoms(atoms[1..])
  }

  function Show(p: Pattern): string {
    (if p.atStart then "^" else "") + (ShowAtoms(p.atoms) + (if p.atEnd then "$" else ""))
  }

  lemma {:induction false} BodyShown(re: string)
    ensures Show(Body(re)) == re
  {
    if re == "" || re == "$" {
    } else if |re| >= 2 && re[1] == '*' {
      BodyShown(re[2..]);
      var p := Body(re[2..]);
      assert ([Many(re[0])] + p.atoms)[1..] == p.atoms;
      assert re == [re[0], '*'] + re[2..];
    } else {
      BodyShown(re[1..]);
      var p := Body(re[1..]);
      assert ([One(re[0])] + p.atoms)[1..] == p.atoms;
      assert re == [re[0]] + re[1..];
    }
  }

  /** Reading a pattern loses nothing: written out again it is the same text. */
  lemma SyntaxShown(re: string)
    ensures Show(Syntax(re)) == re
  {
    if re != "" && re[0] == '^' {
      BodyShown(re[1..]);
      assert re == "^" + re[1..];
    } else {
      BodyShown(re);
    }
  }

  /** A pattern that could not have been written otherwise: no star after a single character, no loose '^' at the start,
      no loose '$' at the end. */
  predicate Normal(p: Pattern) {
    && NormalBody(p)
    && (!p.atStart && p.atoms != [] ==> p.atoms[0].c != '^')
  }

  predicate NormalBody(p: Pattern) {
    && (forall i {:trigger p.atoms[i]} | 0 <= i < |p.atoms| - 1 :: p.atoms[i].One? ==> p.atoms[i + 1].c != '*')
    && (!p.atEnd && p.atoms != [] ==> p.atoms[|p.atoms| - 1] != One('$'))
  }

  lemma NormalTail(p: Pattern)
    requires NormalBody(p) && p.atoms != []
    ensures NormalBody(p.(atoms := p.atoms[1..]))
    ensures p.atoms[0].One? && |p.atoms| > 1 ==> p.atoms[1].c != '*'
  {
    var q := p.(atoms := p.atoms[1..]);
    forall i | 0 <= i < |q.atoms| - 1 ensures q.atoms[i].One? ==> q.atoms[i + 1].c != '*' {
      assert p.atoms[i + 1] == q.atoms[i];
    }
  }

  lemma NormalCons(a: Atom, p: Pattern)
    requires NormalBody(p) && (a.One? && p.atoms != [] ==> p.atoms[0].c != '*')
    requires p.atoms == [] && !p.atEnd ==> a != One('$')
    ensures NormalBody(p.(atoms := [a] + p.atoms))
  {
    var q := p.(atoms := [a] + p.atoms);
    forall i | 0 <= i < |q.atoms| - 1 ensures q.atoms[i].One? ==> q.atoms[i + 1].c != '*' {
      assert i > 0 ==> q.atoms[i] == p.atoms[i - 1];
    }
  }

  /** The text of a pattern starts with its first atom. */
  lemma ShowStarts(p: Pattern)
    requires !p.atStart
    ensures p.atoms != [] ==> Show(p) != "" && Show(p)[0] == p.atoms[0].c
    ensures p.atoms == [] ==> Show(p) == if p.atEnd then "$" else ""
  {
  }

  lemma ShowUnfolds(p: Pattern)
    requires !p.atStart && p.atoms != []
    ensures Show(p) == (if p.atoms[0].One? then [p.atoms[0].c] else [p.atoms[0].c, '*']) + Show(p.(atoms := p.atoms[1..]))
  {
  }

  lemma {:induction false} BodyNormal(re: string)
    ensures NormalBody(Body(re)) && (Body(re).atoms != [] ==> Body(re).atoms[0].c == re[0])
  {
    if re == "" || re == "$" {
    } else if |re| >= 2 && re[1] == '*' {
      BodyNormal(re[2..]);
      NormalCons(Many(re[0]), Body(re[2..]));
    } else {
      BodyNormal(re[1..]);
      NormalCons(One(re[0]), Body(re[1..]));
    }
  }

  lemma {:induction false} BodyReads(p: Pattern)
    requires NormalBody(p) && !p.atStart
    ensures Body(Show(p)) == p
    decreases |p.atoms|
  {
    ShowStarts(p);
    if p.atoms != [] {
      var rest := p.(atoms := p.atoms[1..]);
      NormalTail(p);
      BodyReads(rest);
      ShowStarts(rest);
      ShowUnfolds(p);
      var re := Show(p);
      assert p.atoms == [p.atoms[0]] + rest.atoms;
      if p.atoms[0].Many? {
        assert re[2..] == Show(rest);
      } else {
        assert re[1..] == Show(rest);
      }
    }
  }

  /** What is read is always normal. */
  lemma SyntaxNormal(re: string)
    ensures Normal(Syntax(re))
  {
    if re != "" && re[0] == '^' {
      BodyNormal(re[1..]);
    } else {
      BodyNormal(re);
    }
  }

  /** A normal pattern, written out, is read back: every text has one normal reading, and that is the one taken. */
  lemma ShownReads(p: Pattern)
    requires Normal(p)
    ensures Syntax(Show(p)) == p
  {
    var q := p.(atStart := false);
    BodyReads(q);
    ShowStarts(q);
    if p.atStart {
      assert Show(p)[1..] == Show(q);
    }
  }

  // ----- Semantics

  ghost predicate Denotes(a: Atom, s: string) {
    match a
    case One(c) => |s| == 1 && Accepts(c, s[0])
    case Many(c) => forall k | 0 <= k < |s| :: Accepts(c, s[k])
  }

  ghost function Join(pieces: seq<string>): string {
    if pieces == [] then "" else pieces[0] + Join(pieces[1..])
  }

  ghost predicate Cut(atoms: seq<Atom>, pieces: seq<string>, s: string) {
    && |pieces| == |atoms|
    && Join(pieces) == s
    && forall i | 0 <= i < |atoms| :: Denotes(atoms[i], pieces[i])
  }

  ghost predicate Spells(atoms: seq<Atom>, s: string) {
    exists pieces :: Cut(atoms, pieces, s)
  }

  ghost predicate MatchesStretch(p: Pattern, text: string, i: nat, j: nat) {
    && i <= j <= |text|
    && (p.atEnd ==> j == |text|)
    && Spells(p.atoms, text[i..j])
  }

  /** Some stretch of `text` beginning at `i` spells the pattern. */
  ghost predicate MatchesFrom(p: Pattern, text: string, i: nat) {
    exists j: nat :: MatchesStretch(p, text, i, j)
  }

  ghost predicate Matches(p: Pattern, text: string) {
    exists i: nat :: i <= |text| && (p.atStart ==> i == 0) && MatchesFrom(p, text, i)
  }

  // ----- How the language of an atom list unfolds

  lemma SpellsNil(s: string)
    ensures Spells([], s) <==> s == ""
  {
    assert Cut([], [], "");
  }

  lemma SpellsOne(c: char, rest: seq<Atom>, s: string)
    ensures Spells([One(c)] + rest, s) <==> s != "" && Accepts(c, s[0]) && Spells(rest, s[1..])
  {
    var atoms := [One(c)] + rest;
    if Spells(atoms, s) {
      var pieces :| Cut(atoms, pieces, s);
      CutTail(atoms, pieces, s);
    }
    if s != "" && Accepts(c, s[0]) && Spells(rest, s[1..]) {
      var pieces :| Cut(rest, pieces, s[1..]);
      CutCons(One(c), rest, s[..1], pieces, s);
    }
  }

  lemma ManyUnfolds(c: char, rest: seq<Atom>, s: string)
    ensures Spells([Many(c)] + rest, s) <==>
            || Spells(rest, s)
            || (s != "" && Accepts(c, s[0]) && Spells([Many(c)] + rest, s[1..]))
  {
    var atoms := [Many(c)] + rest;
    assert atoms[0] == Many(c) && atoms[1..] == rest;
    if pieces :| Cut(atoms, pieces, s) {
      ManyShrinks(c, rest, pieces, s);
    }
    if pieces :| Cut(rest, pieces, s) {
      CutCons(Many(c), rest, "", pieces, s);
    }
    if s != "" && Accepts(c, s[0]) && Spells(atoms, s[1..]) {
      var pieces :| Cut(atoms, pieces, s[1..]);
      ManyGrows(c, rest, pieces, s);
    }
  }

  lemma ManyShrinks(c: char, rest: seq<Atom>, pieces: seq<string>, s: string)
    requires Cut([Many(c)] + rest, pieces, s)
    ensures Spells(rest, s) || (s != "" && Accepts(c, s[0]) && Spells([Many(c)] + rest, s[1..]))
  {
    CutTail([Many(c)] + rest, pieces, s);
    var first := pieces[0];
    if first != "" {
      assert s[1..][|first| - 1..] == s[|first|..];
      CutCons(Many(c), rest, first[1..], pieces[1..], s[1..]);
    }
  }

  lemma ManyGrows(c: char, rest: seq<Atom>, pieces: seq<string>, s: string)
    requires s != "" && Accepts(c, s[0]) && Cut([Many(c)] + rest, pieces, s[1..])
    ensures Spells([Many(c)] + rest, s)
  {
    CutTail([Many(c)] + rest, pieces, s[1..]);
    var first := [s[0]] + pieces[0];
    assert s[|first|..] == s[1..][|pieces[0]|..];
    CutCons(Many(c), rest, first, pieces[1..], s);
  }

  lemma CutTail(atoms: seq<Atom>, pieces: seq<string>, s: string)
    requires atoms != [] && Cut(atoms, pieces, s)
    ensures pieces[0] <= s && Denotes(atoms[0], pieces[0])
    ensures Cut(atoms[1..], pieces[1..], s[|pieces[0]|..])
  {
    assert s == pieces[0] + Join(pieces[1..]);
    assert s[|pieces[0]|..] == Join(pieces[1..]);
  }

  lemma CutCons(a: Atom, rest: seq<Atom>, first: string, pieces: seq<string>, s: string)
    requires Denotes(a, first) && first <= s && Cut(rest, pieces, s[|first|..])
    ensures Cut([a] + rest, [first] + pieces, s)
  {
    var all := [first] + pieces;
    assert all[1..] == pieces;
    assert s == first + s[|first|..];
  }

  // ----- How matching at a position unfolds

  lemma FromNil(text: string, i: nat, atEnd: bool)
    requires i <= |text|
    ensures MatchesFrom(Pattern(false, [], atEnd), text, i) <==> (atEnd ==> i == |text|)
  {
    var p := Pattern(false, [], atEnd);
    SpellsNil(text[i..i]);
    assert MatchesStretch(p, text, i, i) <==> (atEnd ==> i == |text|);
    if j: nat :| MatchesStretch(p, text, i, j) {
      SpellsNil(text[i..j]);
    }
  }

  lemma FromOne(c: char, p: Pattern, text: string, i: nat)
    requires i <= |text|
    ensures MatchesFrom(p.(atoms := [One(c)] + p.atoms), text, i) <==>
            i < |text| && Accepts(c, text[i]) && MatchesFrom(p, text, i + 1)
  {
    var q := p.(atoms := [One(c)] + p.atoms);
    if j: nat :| MatchesStretch(q, text, i, j) {
      SpellsOne(c, p.atoms, text[i..j]);
      assert text[i..j][1..] == text[i + 1..j];
      assert MatchesStretch(p, text, i + 1, j);
    }
    if i < |text| && Accepts(c, text[i]) && MatchesFrom(p, text, i + 1) {
      var j: nat :| MatchesStretch(p, text, i + 1, j);
      SpellsOne(c, p.atoms, text[i..j]);
      assert text[i..j][1..] == text[i + 1..j];
      assert MatchesStretch(q, text, i, j);
    }
  }

  /** Starred atom: skip it here, or consume one accepted character and try again. */
  lemma FromMany(c: char, p: Pattern, text: string, i: nat)
    requires i <= |text|
    ensures MatchesFrom(p.(atoms := [Many(c)] + p.atoms), text, i) <==>
            || MatchesFrom(p, text, i)
            || (i < |text| && Accepts(c, text[i]) && MatchesFrom(p.(atoms := [Many(c)] + p.atoms), text, i + 1))
  {
    var q := p.(atoms := [Many(c)] + p.atoms);
    if j: nat :| MatchesStretch(q, text, i, j) {
      ManyUnfolds(c, p.atoms, text[i..j]);
      if Spells(p.atoms, text[i..j]) {
        assert MatchesStretch(p, text, i, j);
      } else {
        assert text[i..j][1..] == text[i + 1..j];
        assert MatchesStretch(q, text, i + 1, j);
      }
    }
    if j: nat :| MatchesStretch(p, text, i, j) {
      ManyUnfolds(c, p.atoms, text[i..j]);
      assert MatchesStretch(q, text, i, j);
    }
    if i < |text| && Accepts(c, text[i]) && MatchesFrom(q, text, i + 1) {
      var j: nat :| MatchesStretch(q, text, i + 1, j);
      ManyUnfolds(c, p.atoms, text[i..j]);
      assert text[i..j][1..] == text[i + 1..j];
      assert MatchesStretch(q, text, i, j);
    }
  }

  lemma FromIgnoresStart(p: Pattern, text: string, i: nat, atStart: bool)
    ensures MatchesFrom(p.(atStart := atStart), text, i) == MatchesFrom(p, text, i)
  {
    assert forall j: nat :: MatchesStretch(p.(atStart := atStart), text, i, j) == MatchesStretch(p, text, i, j);
  }

  // ----- The matcher

  /** Search for `re` anywhere in `text`. */
  method Match(re: string, text: string) returns (found: bool)
    requires CString(re) && CString(text)
    ensures found <==> Matches(Syntax(re), text)
  {
    if At(re, 0) == '^' {
      found := MatchHere(re[1..], text, 0);
      FromIgnoresStart(Body(re[1..]), text, 0, true);
      return;
    }
    var t := 0;
    while true
      invariant 0 <= t <= |text|
      invariant forall i: nat | i < t :: !MatchesFrom(Body(re), text, i)
      decreases |text| - t
    {
      found := MatchHere(re, text, t);
      if found || At(text, t) == '\0' {
        return;
      }
      t := t + 1;
    }
  }

  /** Search for `re` at position `t` of `text`. */
  method MatchHere(re: string, text: string, t: nat) returns (found: bool)
    requires CString(re) && CString(text) && t <= |text|
    ensures found <==> MatchesFrom(Body(re), text, t)
    decreases |re|, 0
  {
    FromNil(text, t, false);
    FromNil(text, t, true);
    if At(re, 0) == '\0' {
      return true;
    }
    if At(re, 1) == '*' {
      found := MatchStar(re[0], re[2..], text, t);
      return;
    }
    if re[0] == '$' && At(re, 1) == '\0' {
      return At(text, t) == '\0';
    }
    FromOne(re[0], Body(re[1..]), text, t);
    if At(text, t) != '\0' && (re[0] == '.' || re[0] == At(text, t)) {
      found := MatchHere(re[1..], text, t + 1);
      return;
    }
    return false;
  }

  /** Search for `c*re` at position `t0` of `text`. */
  method MatchStar(c: char, re: string, text: string, t0: nat) returns (found: bool)
    requires CString(re) && CString(text) && t0 <= |text|
    ensures found <==> MatchesFrom(Pattern(false, [Many(c)] + Body(re).atoms, Body(re).atEnd), text, t0)
    decreases |re|, 1
  {
    ghost var p := Body(re);
    ghost var q := p.(atoms := [Many(c)] + p.atoms);
    var t := t0;
    while true
      invariant t0 <= t <= |text|
      invariant MatchesFrom(q, text, t0) == MatchesFrom(q, text, t)
      decreases |text| - t
    {
      FromMany(c, p, text, t);
      found := MatchHere(re, text, t);
      if found {
        return;
      }
      if !(At(text, t) != '\0' && (At(text, t) == c || c == '.')) {
        return;
      }
      t := t + 1;
    }
  }
}
