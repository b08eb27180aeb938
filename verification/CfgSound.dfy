/** What an accepted file must contain: the parser invents nothing and drops nothing but newlines. */
module CfgSound {
  import opened Bytes
  import opened CfgGrammar
  import opened CfgLexer
  import opened CfgRender

  /** The tokens of a text up to its end, newlines left out. */
  ghost function Solid(l: Lexed): seq<Token>
    decreases Size(l)
  {
    if !l.Tok? then []
    else (if l.token.Newline? then [] else [l.token]) + Solid(Next(l.rest))
  }

  ghost function PairTokens(p: Pair): seq<Token> {
    [Str(p.key), Assign, Str(p.value)]
  }

  ghost function PairsTokens(ps: seq<Pair>): seq<Token> {
    if ps == [] then [] else PairTokens(ps[0]) + PairsTokens(ps[1..])
  }

  ghost function SectionTokens(s: Section): seq<Token> {
    [LeftBracket, Str(s.name), RightBracket] + PairsTokens(s.pairs)
  }

  ghost function SectionsTokens(ss: seq<Section>): seq<Token> {
    if ss == [] then [] else SectionTokens(ss[0]) + SectionsTokens(ss[1..])
  }

  lemma KeptIsWord(s: Text)
    requires s != [] && IsAlnum(s[0]) && forall i :: 0 <= i < |s| ==> !EndsString(s[i])
    ensures Word(Kept(s))
  {
    var c := BeforeNul(s);
    assert c != [] && c[0] == s[0];
    var r := Trimmed(c);
    assert r[0] == c[0];
    assert forall i :: 0 <= i < |r| ==> r[i] == c[i] == s[i] && r[i] in c;
  }

  lemma {:induction false} NextIsWord(t: Text)
    ensures Next(t).Tok? && Next(t).token.Str? ==> Word(Next(t).token.text)
    decreases |t|
  {
    if t != [] {
      if t[0] == HASH {
        if LineEnd(t) < |t| {
          NextIsWord(t[LineEnd(t) + 1..]);
        }
      } else if IsAlnum(t[0]) {
        if StringEnd(t) < |t| {
          KeptIsWord(t[..StringEnd(t)]);
        }
      } else if IsSpace(t[0]) && t[0] != NEWLINE {
        NextIsWord(t[1..]);
      }
    }
  }

  lemma PairSound(key: Token, rest: Text)
    requires PairAfter(key, rest).Ok?
    ensures var r := PairAfter(key, rest);
      key.Str? && [key] + Solid(Next(rest)) == PairTokens(r.value) + Solid(r.next)
      && r.value.key == key.text && Word(r.value.value)
  {
    var eq := Next(rest);
    var value := Next(eq.rest);
    var end := Next(value.rest);
    NextIsWord(eq.rest);
    assert Solid(eq) == [Assign] + Solid(value);
    assert Solid(value) == [value.token] + Solid(end);
    assert Solid(end) == if end.Tok? then Solid(Next(end.rest)) else [];
    Regrouped(Assign, value.token, Solid(end));
    PairJoin(key.text, value.token.text, Solid(end));
    hide *;
  }

  lemma PairJoin(key: Text, value: Text, rest: seq<Token>)
    ensures [Str(key)] + ([Assign, Str(value)] + rest) == PairTokens(Pair(key, value)) + rest
  {
  }

  ghost predicate WordToken(l: Lexed) {
    l.Tok? && l.token.Str? ==> Word(l.token.text)
  }

  ghost predicate WordPair(p: Pair) {
    Word(p.key) && Word(p.value)
  }

  lemma StaleStringFails(token: Token)
    requires token.Str?
    ensures Pairs(Seen(EndInComment, token)).Err?
  {
  }

  lemma {:induction false} PairsSound(l: Lexed)
    requires WordToken(l) && Pairs(l).Ok?
    ensures Solid(l) == PairsTokens(Pairs(l).value) + Solid(Pairs(l).next)
    ensures forall i :: 0 <= i < |Pairs(l).value| ==> WordPair(Pairs(l).value[i])
    ensures l.Tok? && l.token.Str? ==> Pairs(l).value != []
    decreases Size(l)
  {
    if Is(l, Newline) {
      var more := Seen(Next(l.rest), Newline);
      SeenIsSmaller(l.rest, Newline);
      NextIsWord(l.rest);
      PairsSound(more);
      assert Solid(more) == Solid(Next(l.rest));
    } else if l.Tok? && l.token.Str? {
      var pair := PairAfter(l.token, l.rest);
      PairSound(l.token, l.rest);
      if pair.next.EndInComment? {
        StaleStringFails(l.token);
      } else {
        PairNextIsWord(l.token, l.rest);
        PairsSound(pair.next);
        PairsJoin(pair.value, Pairs(pair.next).value, Solid(Pairs(pair.next).next));
      }
    }
  }

  lemma PairNextIsWord(key: Token, rest: Text)
    requires PairAfter(key, rest).Ok?
    ensures WordToken(PairAfter(key, rest).next)
  {
    var end := Seen(Next(Seen(Next(Seen(Next(rest), key).rest), Assign).rest), key);
    if end.Tok? {
      NextIsWord(end.rest);
    }
  }

  lemma PairsJoin(p: Pair, ps: seq<Pair>, rest: seq<Token>)
    ensures PairTokens(p) + (PairsTokens(ps) + rest) == PairsTokens([p] + ps) + rest
  {
    assert ([p] + ps)[1..] == ps;
  }

  lemma {:induction false} SkipSolid(l: Lexed)
    requires WordToken(l)
    ensures Solid(SkipNewlines(l)) == Solid(l) && WordToken(SkipNewlines(l))
    decreases Size(l)
  {
    if Is(l, Newline) {
      var more := Seen(Next(l.rest), Newline);
      SeenIsSmaller(l.rest, Newline);
      NextIsWord(l.rest);
      SkipSolid(more);
      assert Solid(more) == Solid(Next(l.rest));
    }
  }

  ghost predicate WordSection(s: Section) {
    Word(s.name) && s.pairs != [] && forall i :: 0 <= i < |s.pairs| ==> WordPair(s.pairs[i])
  }

  lemma NameSound(rest: Text)
    requires SectionName(rest).Ok?
    ensures var r := SectionName(rest);
      Word(r.value) && WordToken(r.next) && Solid(Next(rest)) == [Str(r.value), RightBracket] + Solid(r.next)
  {
    var name := Next(rest);
    NextIsWord(rest);
    var close := Next(name.rest);
    var line := Next(close.rest);
    NextIsWord(line.rest);
    assert Solid(name) == [name.token] + Solid(close);
    assert Solid(close) == [RightBracket] + Solid(line);
    assert Solid(line) == Solid(Next(line.rest));
    hide *;
    Regrouped(name.token, RightBracket, Solid(Next(line.rest)));
  }

  lemma Regrouped(a: Token, b: Token, rest: seq<Token>)
    ensures [a] + ([b] + rest) == [a, b] + rest
  {
  }

  lemma SectionJoin(name: Text, ps: seq<Pair>, rest: seq<Token>)
    ensures [LeftBracket] + ([Str(name), RightBracket] + (PairsTokens(ps) + rest)) ==
      SectionTokens(Section(name, ps)) + rest
  {
    hide PairsTokens;
    var t := PairsTokens(ps);
    assert [LeftBracket] + ([Str(name), RightBracket] + (t + rest)) ==
      ([LeftBracket, Str(name), RightBracket] + t) + rest;
  }

  lemma SectionSound(rest: Text)
    requires SectionAfter(rest).Ok?
    ensures var r := SectionAfter(rest);
      WordSection(r.value) && [LeftBracket] + Solid(Next(rest)) == SectionTokens(r.value) + Solid(r.next)
  {
    var name := SectionName(rest);
    var first := SkipNewlines(name.next);
    NameSound(rest);
    SkipSolid(name.next);
    assert Pairs(EndInString).Err?;
    hide Next, SectionName, SkipNewlines, Pairs, Solid, PairsTokens, SectionTokens, Word, WordSection;
    assert Seen(name.next, Unset) == name.next;
    assert SectionAfter(rest) == Ok(Section(name.value, Pairs(first).value), Pairs(first).next);
    assert first.Tok? && first.token.Str?;
    hide *;
    PairsSound(first);
    SectionIsWord(name.value, Pairs(first).value);
    SectionJoin(name.value, Pairs(first).value, Solid(Pairs(first).next));
  }

  lemma SectionIsWord(name: Text, ps: seq<Pair>)
    requires Word(name) && ps != [] && forall i :: 0 <= i < |ps| ==> WordPair(ps[i])
    ensures WordSection(Section(name, ps))
  {
  }

  lemma {:induction false} SectionsSound(l: Lexed)
    requires Sections(l).Ok?
    ensures Solid(l) == SectionsTokens(Sections(l).value) + Solid(Sections(l).next)
    ensures forall i :: 0 <= i < |Sections(l).value| ==> WordSection(Sections(l).value[i])
    ensures Is(l, LeftBracket) ==> Sections(l).value != []
    decreases Size(l)
  {
    if Is(l, Newline) {
      var more := Seen(Next(l.rest), Newline);
      SeenIsSmaller(l.rest, Newline);
      SectionsSound(more);
      assert Solid(more) == Solid(Next(l.rest));
    } else if Is(l, LeftBracket) {
      var section := SectionAfter(l.rest);
      SectionSound(l.rest);
      SectionsSound(section.next);
      SectionsJoin(section.value, Sections(section.next).value, Solid(Sections(section.next).next));
    }
  }

  lemma SectionsJoin(s: Section, ss: seq<Section>, rest: seq<Token>)
    ensures SectionTokens(s) + (SectionsTokens(ss) + rest) == SectionsTokens([s] + ss) + rest
  {
    assert ([s] + ss)[1..] == ss;
  }

  /** The solid tokens of an accepted file are exactly those of its configuration, which has at least one
      section, no empty section, and no string a file could not spell. */
  lemma AcceptedMeansWritten(file: Text)
    requires Parse(file).Ok?
    ensures var ss := Parse(file).value;
      ss != [] && Solid(Next(file)) == SectionsTokens(ss) && forall i :: 0 <= i < |ss| ==> WordSection(ss[i])
  {
    hide Next, Sections, SectionsTokens, WordSection, Seen;
    SeenNext(Next(file));
    SectionsSound(Next(file));
    var ss := Parse(file).value;
    assert Solid(AtEnd) == [];
    assert SectionsTokens(ss) + [] == SectionsTokens(ss);
  }

  lemma SeenNext(l: Lexed)
    requires !Is(Seen(l, Unset), Unset)
    ensures Seen(l, Unset) == l
  {
  }

  ghost function PlainPairs(n: nat): seq<PairLayout> {
    seq(n, i => PairLayout([], [], 0, [], 0))
  }

  ghost function PlainSections(ss: seq<Section>): seq<SectionLayout> {
    seq(|ss|, i requires 0 <= i < |ss| => SectionLayout([], [], 0, [], PlainPairs(|ss[i].pairs|), []))
  }

  lemma WritableIsParsed(ss: seq<Section>)
    requires ss != [] && forall i :: 0 <= i < |ss| ==> WordSection(ss[i])
    ensures exists file :: Parse(file) == Ok(ss, AtEnd)
  {
    hide Word, Parse, Render;
    var ls := PlainSections(ss);
    forall i | 0 <= i < |ss| ensures GoodSection(ss[i], ls[i]) {
      assert WordSection(ss[i]);
    }
    ParseOfRender([], ss, ls);
  }

  /** What the parser can be made to return. */
  lemma ParsedIffWritable(ss: seq<Section>)
    ensures (exists file :: Parse(file) == Ok(ss, AtEnd)) <==>
      ss != [] && forall i :: 0 <= i < |ss| ==> WordSection(ss[i])
  {
    hide *;
    if file :| Parse(file) == Ok(ss, AtEnd) {
      AcceptedMeansWritten(file);
    }
    if ss != [] && forall i :: 0 <= i < |ss| ==> WordSection(ss[i]) {
      WritableIsParsed(ss);
    }
  }
}
