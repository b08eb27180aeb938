/** Writing a configuration down, in any layout, and reading it back. */
module CfgRender {
  import opened Bytes
  import opened CfgGrammar
  import opened CfgLexer

  /** A line that says nothing. */
  datatype Noise = Blank(space: Text) | Comment(space: Text, text: Text)

  datatype PairLayout = PairLayout(before: seq<Noise>, indent: Text, afterKey: nat, afterEquals: Text, trail: nat)

  datatype SectionLayout =
    SectionLayout(
      indent: Text, inside: Text, afterName: nat, afterBracket: Text, pairs: seq<PairLayout>, after: seq<Noise>)

  ghost predicate Spaces(s: Text) {
    forall i :: 0 <= i < |s| ==> IsSpace(s[i]) && s[i] != NEWLINE
  }

  function Blanks(n: nat): (s: Text)
    ensures |s| == n && forall i :: 0 <= i < n ==> s[i] == SPACE
  {
    seq(n, i => SPACE)
  }

  /** What a name, a key or a value may be. */
  ghost predicate Word(s: Text) {
    && s != [] && IsAlnum(s[0]) && s[|s| - 1] != SPACE && 0 !in s
    && forall i :: 0 <= i < |s| ==> !EndsString(s[i])
  }

  ghost predicate GoodNoise(n: Noise) {
    Spaces(n.space) && (n.Comment? ==> NEWLINE !in n.text)
  }

  function NoiseLine(n: Noise): Text {
    n.space + (if n.Blank? then [] else [HASH] + n.text) + [NEWLINE]
  }

  function NoiseLines(ns: seq<Noise>): Text {
    if ns == [] then [] else NoiseLine(ns[0]) + NoiseLines(ns[1..])
  }

  ghost predicate GoodNoises(ns: seq<Noise>) {
    forall i :: 0 <= i < |ns| ==> GoodNoise(ns[i])
  }

  ghost predicate GoodPair(p: Pair, l: PairLayout) {
    Word(p.key) && Word(p.value) && GoodNoises(l.before) && Spaces(l.indent) && Spaces(l.afterEquals)
  }

  function PairLine(p: Pair, l: PairLayout, rest: Text): Text {
    l.indent
      + (p.key + Blanks(l.afterKey) + ([EQUALS] + (l.afterEquals + (p.value + Blanks(l.trail) + ([NEWLINE] + rest)))))
  }

  /** The pairs in their layouts, and then the rest of the file. */
  function PairLines(ps: seq<Pair>, ls: seq<PairLayout>, rest: Text): Text
    requires |ls| == |ps|
  {
    if ps == [] then rest else NoiseLines(ls[0].before) + PairLine(ps[0], ls[0], PairLines(ps[1..], ls[1..], rest))
  }

  ghost predicate GoodPairs(ps: seq<Pair>, ls: seq<PairLayout>) {
    |ls| == |ps| && forall i :: 0 <= i < |ps| ==> GoodPair(ps[i], ls[i])
  }

  ghost predicate GoodSection(s: Section, l: SectionLayout) {
    && Word(s.name) && s.pairs != [] && GoodPairs(s.pairs, l.pairs)
    && Spaces(l.indent) && Spaces(l.inside) && Spaces(l.afterBracket) && GoodNoises(l.after)
  }

  function HeaderTail(name: Text, l: SectionLayout, rest: Text): Text {
    l.inside + (name + Blanks(l.afterName) + ([CLOSE] + (l.afterBracket + ([NEWLINE] + rest))))
  }

  function SectionText(s: Section, l: SectionLayout, rest: Text): Text
    requires |l.pairs| == |s.pairs|
  {
    l.indent + ([OPEN] + HeaderTail(s.name, l, PairLines(s.pairs, l.pairs, NoiseLines(l.after) + rest)))
  }

  ghost predicate GoodSections(ss: seq<Section>, ls: seq<SectionLayout>) {
    |ls| == |ss| && forall i :: 0 <= i < |ss| ==> GoodSection(ss[i], ls[i])
  }

  ghost function SectionTexts(ss: seq<Section>, ls: seq<SectionLayout>, rest: Text): Text
    requires GoodSections(ss, ls)
  {
    if ss == [] then rest else SectionText(ss[0], ls[0], SectionTexts(ss[1..], ls[1..], rest))
  }

  // ------------------------------------------------- what the lexer makes of the pieces

  lemma {:induction false} NextAfterSpaces(space: Text, rest: Text)
    requires Spaces(space)
    ensures Next(space + rest) == Next(rest)
  {
    if space == [] {
      assert space + rest == rest;
    } else {
      InitialStep(space + rest);
      assert (space + rest)[1..] == space[1..] + rest;
      NextAfterSpaces(space[1..], rest);
    }
  }

  lemma {:induction false} LineEndAt(s: Text, rest: Text)
    requires NEWLINE !in s
    ensures LineEnd(s + [NEWLINE] + rest) == |s|
  {
    if s != [] {
      assert (s + [NEWLINE] + rest)[1..] == s[1..] + [NEWLINE] + rest;
      LineEndAt(s[1..], rest);
    }
  }

  lemma {:induction false} StringEndAt(s: Text, d: byte, rest: Text)
    requires EndsString(d) && forall i :: 0 <= i < |s| ==> !EndsString(s[i])
    ensures StringEnd(s + ([d] + rest)) == |s|
  {
    if s != [] {
      assert (s + ([d] + rest))[1..] == s[1..] + ([d] + rest);
      StringEndAt(s[1..], d, rest);
    }
  }

  lemma {:induction false} TrimBlanksOff(s: Text, n: nat)
    requires s != [] && s[|s| - 1] != SPACE
    ensures Trimmed(s + Blanks(n)) == s
  {
    if n == 0 {
      assert s + Blanks(0) == s;
    } else {
      assert (s + Blanks(n))[..|s| + n - 1] == s + Blanks(n - 1);
      TrimBlanksOff(s, n - 1);
    }
  }

  lemma NextWord(s: Text, n: nat, d: byte, rest: Text)
    requires Word(s) && EndsString(d)
    ensures Next(s + Blanks(n) + ([d] + rest)) == Tok(Str(s), [d] + rest)
  {
    var w := s + Blanks(n);
    var t := w + ([d] + rest);
    StringEndAt(w, d, rest);
    TrimBlanksOff(s, n);
    KeptFrom(w, |w|);
    assert w[..|w|] == w && 0 !in w;
    assert t[..|w|] == w && t[|w|..] == [d] + rest && t[0] == s[0];
  }

  lemma NextNoise(n: Noise, rest: Text)
    requires GoodNoise(n)
    ensures Next(NoiseLine(n) + rest) == if n.Blank? then Tok(Newline, rest) else Next(rest)
  {
    if n.Blank? {
      assert NoiseLine(n) + rest == n.space + ([NEWLINE] + rest);
      NextAfterSpaces(n.space, [NEWLINE] + rest);
      InitialStep([NEWLINE] + rest);
      assert ([NEWLINE] + rest)[1..] == rest;
    } else {
      var t := ([HASH] + n.text) + [NEWLINE] + rest;
      assert NoiseLine(n) + rest == n.space + t;
      NextAfterSpaces(n.space, t);
      LineEndAt([HASH] + n.text, rest);
      assert t[|n.text| + 2..] == rest;
    }
  }

  /** A bracket, an equals sign or a newline behind spaces. */
  lemma NextSign(space: Text, sign: Token, rest: Text)
    requires Spaces(space) && (sign.LeftBracket? || sign.RightBracket? || sign.Assign? || sign.Newline?)
    ensures Next(space + ([SignByte(sign)] + rest)) == Tok(sign, rest)
  {
    var t := [SignByte(sign)] + rest;
    NextAfterSpaces(space, t);
    InitialStep(t);
    assert t[1..] == rest;
  }

  function SignByte(sign: Token): byte {
    if sign.LeftBracket? then OPEN else if sign.RightBracket? then CLOSE else if sign.Assign? then EQUALS else NEWLINE
  }

  // ------------------------------------------------- what the parser makes of them

  lemma {:induction false} PairsSkip(l: Lexed)
    ensures Pairs(SkipNewlines(l)) == Pairs(l) && Sections(SkipNewlines(l)) == Sections(l)
    decreases Size(l)
  {
    if Is(l, Newline) {
      SeenIsSmaller(l.rest, Newline);
      PairsSkip(Seen(Next(l.rest), Newline));
    }
  }

  /** Lines that say nothing are skipped. */
  lemma {:induction false} NoiseSkipped(ns: seq<Noise>, rest: Text, prev: Token)
    requires GoodNoises(ns) && !Next(rest).EndInComment?
    ensures !Next(NoiseLines(ns) + rest).EndInComment?
    ensures SkipNewlines(Seen(Next(NoiseLines(ns) + rest), prev)) == SkipNewlines(Next(rest))
  {
    if ns == [] {
      assert NoiseLines(ns) + rest == rest;
    } else {
      var more := NoiseLines(ns[1..]) + rest;
      assert NoiseLines(ns) + rest == NoiseLine(ns[0]) + more;
      NextNoise(ns[0], more);
      NoiseSkipped(ns[1..], rest, if ns[0].Blank? then Newline else prev);
    }
  }

  lemma PairRead(p: Pair, l: PairLayout, rest: Text)
    requires GoodPair(p, l)
    ensures Next(PairLine(p, l, rest)).Tok? && Next(PairLine(p, l, rest)).token == Str(p.key)
    ensures PairAfter(Str(p.key), Next(PairLine(p, l, rest)).rest) == Ok(p, Next(rest))
  {
    hide Next, Blanks, Word, Spaces, EndsString;
    var afterValue := [NEWLINE] + rest;
    var value := p.value + Blanks(l.trail) + afterValue;
    var equals := [EQUALS] + (l.afterEquals + value);
    NextAfterSpaces(l.indent, p.key + Blanks(l.afterKey) + equals);
    SignsEndStrings();
    NextWord(p.key, l.afterKey, EQUALS, l.afterEquals + value);
    EqualsNext(l.afterEquals + value);
    NextAfterSpaces(l.afterEquals, value);
    NextWord(p.value, l.trail, NEWLINE, rest);
    NewlineNext(rest);
  }

  lemma SignsEndStrings()
    ensures EndsString(EQUALS) && EndsString(NEWLINE) && EndsString(CLOSE)
  {
  }

  lemma EqualsNext(rest: Text)
    ensures Next([EQUALS] + rest) == Tok(Assign, rest)
  {
    NextSign([], Assign, rest);
    assert [] + ([EQUALS] + rest) == [EQUALS] + rest;
  }

  lemma NewlineNext(rest: Text)
    ensures Next([NEWLINE] + rest) == Tok(Newline, rest)
  {
    NextSign([], Newline, rest);
    assert [] + ([NEWLINE] + rest) == [NEWLINE] + rest;
  }

  lemma CloseNext(rest: Text)
    ensures Next([CLOSE] + rest) == Tok(RightBracket, rest)
  {
    NextSign([], RightBracket, rest);
    assert [] + ([CLOSE] + rest) == [CLOSE] + rest;
  }

  /** A pair list is read back, and then what the rest of the file gives to a parser whose variable holds the
      last key. */
  lemma {:induction false} PairsRead(ps: seq<Pair>, ls: seq<PairLayout>, rest: Text, prev: Token)
    requires GoodPairs(ps, ls)
    ensures ps != [] ==> !Next(PairLines(ps, ls, rest)).EndInComment?
    ensures Pairs(Seen(Next(PairLines(ps, ls, rest)), prev)) == Onto(ps, Pairs(Seen(Next(rest), LastRead(ps, prev))))
    ensures ps != [] ==>
      var first := SkipNewlines(Seen(Next(PairLines(ps, ls, rest)), prev));
      first.Tok? && first.token == Str(ps[0].key)
  {
    hide Next, PairLine, NoiseLines, PairAfter, Word, Spaces;
    if ps == [] {
      OntoNothing(Pairs(Seen(Next(rest), prev)));
    } else {
      var more := PairLines(ps[1..], ls[1..], rest);
      var line := PairLine(ps[0], ls[0], more);
      PairsRead(ps[1..], ls[1..], rest, Str(ps[0].key));
      PairRead(ps[0], ls[0], more);
      NoiseSkipped(ls[0].before, line, prev);
      PairsSkip(Seen(Next(PairLines(ps, ls, rest)), prev));
      PairsSkip(Next(line));
      OntoMore(ps, Pairs(Seen(Next(rest), LastRead(ps, prev))));
    }
  }

  function LastRead(ps: seq<Pair>, prev: Token): Token {
    if ps == [] then prev else Str(ps[|ps| - 1].key)
  }

  lemma OntoMore<T>(xs: seq<T>, o: Outcome<seq<T>>)
    requires xs != []
    ensures Onto([xs[0]], Onto(xs[1..], o)) == Onto(xs, o)
  {
    if o.Ok? {
      assert [xs[0]] + (xs[1..] + o.value) == xs + o.value;
    }
  }

  lemma HeaderRead(name: Text, l: SectionLayout, rest: Text)
    requires Word(name) && Spaces(l.inside) && Spaces(l.afterBracket)
    ensures SectionName(HeaderTail(name, l, rest)) == Ok(name, Next(rest))
  {
    hide Next, Blanks, Word, Spaces, EndsString;
    var line := l.afterBracket + ([NEWLINE] + rest);
    NextAfterSpaces(l.inside, name + Blanks(l.afterName) + ([CLOSE] + line));
    SignsEndStrings();
    NextWord(name, l.afterName, CLOSE, line);
    CloseNext(line);
    NextAfterSpaces(l.afterBracket, [NEWLINE] + rest);
    NewlineNext(rest);
    assert l.inside + (name + Blanks(l.afterName) + ([CLOSE] + line)) == HeaderTail(name, l, rest);
  }

  lemma SectionRead(s: Section, l: SectionLayout, rest: Text)
    requires GoodSection(s, l) && (Next(rest).AtEnd? || Is(Next(rest), LeftBracket))
    ensures Next(SectionText(s, l, rest)).Tok? && Next(SectionText(s, l, rest)).token == LeftBracket
    ensures SectionAfter(Next(SectionText(s, l, rest)).rest) == Ok(s, Next(rest))
  {
    hide Next, PairLines, HeaderTail, NoiseLines, SectionName, Word, Spaces, SkipNewlines;
    var gap := NoiseLines(l.after) + rest;
    var body := PairLines(s.pairs, l.pairs, gap);
    var tail := HeaderTail(s.name, l, body);
    OpenNext(l.indent, tail);
    HeaderRead(s.name, l, body);
    NoiseSkipped(l.after, rest, Unset);
    PairsSkip(Next(gap));
    PairsSkip(Next(rest));
    assert Seen(Next(gap), Unset) == Next(gap);
    assert Pairs(Next(rest)) == Ok([], Next(rest));
    PairsRead(s.pairs, l.pairs, gap, Unset);
    assert Seen(Next(gap), LastRead(s.pairs, Unset)) == Next(gap);
    OntoEnds(s.pairs, Next(rest), Syntax);
    PairsSkip(Seen(Next(body), Unset));
  }

  lemma OpenNext(indent: Text, rest: Text)
    requires Spaces(indent)
    ensures Next(indent + ([OPEN] + rest)) == Tok(LeftBracket, rest)
  {
    NextSign(indent, LeftBracket, rest);
  }

  lemma NothingNext()
    ensures Next([]) == AtEnd
  {
  }

  lemma {:induction false} SectionsRead(ss: seq<Section>, ls: seq<SectionLayout>, rest: Text)
    requires GoodSections(ss, ls) && (Next(rest).AtEnd? || Is(Next(rest), LeftBracket))
    ensures Next(SectionTexts(ss, ls, rest)) == Next(rest) || Is(Next(SectionTexts(ss, ls, rest)), LeftBracket)
    ensures ss != [] ==> Is(Next(SectionTexts(ss, ls, rest)), LeftBracket)
    ensures Sections(Next(SectionTexts(ss, ls, rest))) == Onto(ss, Sections(Next(rest)))
  {
    hide Next, SectionText, SectionAfter, Word, Spaces, GoodPairs, GoodNoises;
    if ss == [] {
      OntoNothing(Sections(Next(rest)));
    } else {
      var more := SectionTexts(ss[1..], ls[1..], rest);
      SectionsRead(ss[1..], ls[1..], rest);
      SectionRead(ss[0], ls[0], more);
      OntoMore(ss, Sections(Next(rest)));
    }
  }

  /** A file that writes ss down: comments, and then the sections. */
  ghost function Render(lead: seq<Noise>, ss: seq<Section>, ls: seq<SectionLayout>): Text
    requires GoodSections(ss, ls)
  {
    NoiseLines(lead) + SectionTexts(ss, ls, [])
  }

  ghost predicate Comments(ns: seq<Noise>) {
    GoodNoises(ns) && forall i :: 0 <= i < |ns| ==> ns[i].Comment?
  }

  lemma {:induction false} CommentsSkipped(ns: seq<Noise>, rest: Text)
    requires Comments(ns)
    ensures Next(NoiseLines(ns) + rest) == Next(rest)
  {
    if ns == [] {
      assert NoiseLines(ns) + rest == rest;
    } else {
      var more := NoiseLines(ns[1..]) + rest;
      assert NoiseLines(ns) + rest == NoiseLine(ns[0]) + more;
      NextNoise(ns[0], more);
      CommentsSkipped(ns[1..], rest);
    }
  }

  /** Reading back any rendering of a configuration gives the configuration. */
  lemma ParseOfRender(lead: seq<Noise>, ss: seq<Section>, ls: seq<SectionLayout>)
    requires Comments(lead) && ss != [] && GoodSections(ss, ls)
    ensures Parse(Render(lead, ss, ls)) == Ok(ss, AtEnd)
  {
    NothingNext();
    CommentsSkipped(lead, SectionTexts(ss, ls, []));
    SectionsRead(ss, ls, []);
    OntoEnds(ss, AtEnd, Syntax);
  }

  // ------------------------------------------------- files that stop inside their last line

  /** The beginning of a line that says nothing, or of a pair's line: up to its key, behind the equals sign,
      or into its value. */
  datatype Cut =
    | CutBlank(space: Text)
    | CutComment(space: Text, text: Text)
    | CutKey(indent: Text, key: Text, after: nat)
    | CutEquals(indent: Text, key: Text, after: nat, space: Text)
    | CutValue(indent: Text, key: Text, after: nat, space: Text, value: Text, trail: nat)

  ghost predicate GoodCut(c: Cut) {
    match c
    case CutBlank(space) => Spaces(space)
    case CutComment(space, text) => Spaces(space) && NEWLINE !in text
    case CutKey(indent, key, _) => Spaces(indent) && Word(key)
    case CutEquals(indent, key, _, space) => Spaces(indent) && Word(key) && Spaces(space)
    case CutValue(indent, key, _, space, value, _) => Spaces(indent) && Word(key) && Spaces(space) && Word(value)
  }

  function CutText(c: Cut): Text {
    match c
    case CutBlank(space) => space
    case CutComment(space, text) => space + ([HASH] + text)
    case CutKey(indent, key, after) => indent + (key + Blanks(after))
    case CutEquals(indent, key, after, space) => indent + (key + Blanks(after) + ([EQUALS] + space))
    case CutValue(indent, key, after, space, value, trail) =>
      indent + (key + Blanks(after) + ([EQUALS] + (space + (value + Blanks(trail)))))
  }

  lemma NextCutComment(space: Text, text: Text)
    requires Spaces(space) && NEWLINE !in text
    ensures Next(space + ([HASH] + text)) == EndInComment
  {
    NextAfterSpaces(space, [HASH] + text);
    assert forall i :: 0 <= i < |[HASH] + text| ==> ([HASH] + text)[i] != NEWLINE;
    assert LineEnd([HASH] + text) == |[HASH] + text|;
  }

  lemma NextCutWord(s: Text, n: nat)
    requires Word(s)
    ensures Next(s + Blanks(n)) == EndInString
  {
    assert StringEnd(s + Blanks(n)) == |s + Blanks(n)|;
  }

  /** What the parser makes of a cut pair line. */
  lemma CutPairRead(c: Cut)
    requires GoodCut(c) && !c.CutBlank? && !c.CutComment?
    ensures !Next(CutText(c)).EndInComment?
    ensures Pairs(Next(CutText(c))) == Err(if c.CutValue? then Undefined else Syntax)
  {
    hide Blanks, Spaces, EndsString, StringEnd, Kept, Next, Word;
    SignsEndStrings();
    NothingNext();
    match c {
      case CutKey(indent, key, after) =>
        NextAfterSpaces(indent, key + Blanks(after));
        NextCutWord(key, after);
      case CutEquals(indent, key, after, space) =>
        NextAfterSpaces(indent, key + Blanks(after) + ([EQUALS] + space));
        NextWord(key, after, EQUALS, space);
        EqualsNext(space);
        NextAfterSpaces(space, []);
        assert space + [] == space;
      case CutValue(indent, key, after, space, value, trail) =>
        var rest := space + (value + Blanks(trail));
        NextAfterSpaces(indent, key + Blanks(after) + ([EQUALS] + rest));
        NextWord(key, after, EQUALS, rest);
        EqualsNext(rest);
        NextAfterSpaces(space, value + Blanks(trail));
        NextCutWord(value, trail);
    }
  }

  ghost predicate HasBlank(ns: seq<Noise>) {
    exists i :: 0 <= i < |ns| && ns[i].Blank?
  }

  /** Once a newline token was read, a file may stop inside a comment: the stale token is that newline. */
  lemma {:induction false} CutCommentAfterBlank(ns: seq<Noise>, space: Text, text: Text)
    requires GoodNoises(ns) && Spaces(space) && NEWLINE !in text
    ensures Pairs(Seen(Next(NoiseLines(ns) + (space + ([HASH] + text))), Newline)) == Ok([], AtEnd)
  {
    var cut := space + ([HASH] + text);
    if ns == [] {
      NextCutComment(space, text);
      NothingNext();
      assert NoiseLines(ns) + cut == cut;
    } else {
      var more := NoiseLines(ns[1..]) + cut;
      assert NoiseLines(ns) + cut == NoiseLine(ns[0]) + more;
      NextNoise(ns[0], more);
      hide Next, NoiseLine, NoiseLines;
      CutCommentAfterBlank(ns[1..], space, text);
    }
  }

  /** Right behind a pair the stale token is that pair's key, and the parser takes it for another pair. */
  lemma {:induction false} CutCommentAfterPair(ns: seq<Noise>, space: Text, text: Text, key: Text)
    requires GoodNoises(ns) && Spaces(space) && NEWLINE !in text
    ensures Pairs(Seen(Next(NoiseLines(ns) + (space + ([HASH] + text))), Str(key))) ==
      if HasBlank(ns) then Ok([], AtEnd) else Err(Syntax)
  {
    var cut := space + ([HASH] + text);
    if ns == [] {
      NextCutComment(space, text);
      NothingNext();
      assert NoiseLines(ns) + cut == cut;
    } else {
      var more := NoiseLines(ns[1..]) + cut;
      assert NoiseLines(ns) + cut == NoiseLine(ns[0]) + more;
      NextNoise(ns[0], more);
      hide Next, NoiseLine, NoiseLines;
      if ns[0].Blank? {
        CutCommentAfterBlank(ns[1..], space, text);
      } else {
        CutCommentAfterPair(ns[1..], space, text, key);
        assert HasBlank(ns) <==> HasBlank(ns[1..]) by {
          if i :| 0 <= i < |ns| && ns[i].Blank? {
            assert ns[1..][i - 1].Blank?;
          }
          if i :| 0 <= i < |ns[1..]| && ns[1..][i].Blank? {
            assert ns[i + 1].Blank?;
          }
        }
      }
    }
  }

  /** Which files cut inside a line behind the pairs ps and the lines ns are read. */
  ghost function CutOutcome<T>(read: T, ns: seq<Noise>, c: Cut): Outcome<T> {
    if c.CutBlank? || (c.CutComment? && HasBlank(ns)) then Ok(read, AtEnd)
    else Err(if c.CutValue? then Undefined else Syntax)
  }

  lemma CutPairsRead(ps: seq<Pair>, ls: seq<PairLayout>, ns: seq<Noise>, c: Cut, prev: Token)
    requires GoodPairs(ps, ls) && GoodNoises(ns) && GoodCut(c) && (ps != [] || InPair(c))
    ensures Pairs(Seen(Next(PairLines(ps, ls, NoiseLines(ns) + CutText(c))), prev)) == CutOutcome(ps, ns, c)
  {
    var rest, last := NoiseLines(ns) + CutText(c), LastRead(ps, prev);
    PairsRead(ps, ls, rest, prev);
    OntoEnds(ps, AtEnd, Syntax);
    OntoEnds(ps, AtEnd, Undefined);
    hide Next, PairLines, NoiseLines, Word, Spaces, HasBlank;
    match c {
      case CutComment(space, text) => CutCommentAfterPair(ns, space, text, ps[|ps| - 1].key);
      case CutBlank(space) =>
        NextAfterSpaces(space, []);
        NothingNext();
        assert space + [] == space;
        NoiseSkipped(ns, space, last);
        PairsSkip(Seen(Next(rest), last));
      case _ =>
        CutPairRead(c);
        NoiseSkipped(ns, CutText(c), last);
        PairsSkip(Seen(Next(rest), last));
        PairsSkip(Next(CutText(c)));
    }
  }

  predicate InPair(c: Cut) {
    !c.CutBlank? && !c.CutComment?
  }

  lemma NextIsRead(ps: seq<Pair>, ls: seq<PairLayout>, ns: seq<Noise>, c: Cut)
    requires GoodPairs(ps, ls) && GoodNoises(ns) && GoodCut(c) && (ps != [] || InPair(c))
    ensures !Next(PairLines(ps, ls, NoiseLines(ns) + CutText(c))).EndInComment?
  {
    if ps == [] {
      CutPairRead(c);
      NoiseSkipped(ns, CutText(c), Unset);
    } else {
      PairsRead(ps, ls, NoiseLines(ns) + CutText(c), Unset);
    }
  }

  /** A section whose name is read is what its pairs make it. */
  lemma SectionOf(rest: Text, name: Text, next: Lexed, o: Outcome<seq<Pair>>)
    requires SectionName(rest) == Ok(name, next) && !next.EndInComment? && !Is(SkipNewlines(next), Unset)
    requires Pairs(next) == o && (o.Ok? ==> o.value != [])
    ensures SectionAfter(rest) == if o.Ok? then Ok(Section(name, o.value), o.next) else Err(o.error)
  {
    PairsSkip(next);
  }

  lemma {:induction false} NeverUnset(l: Lexed)
    requires !Is(l, Unset)
    ensures !Is(SkipNewlines(l), Unset)
    decreases Size(l)
  {
    if Is(l, Newline) {
      SeenIsSmaller(l.rest, Newline);
      NeverUnset(Seen(Next(l.rest), Newline));
    }
  }

  /** The last section of a cut file: its header, its whole pairs, lines that say nothing, and the cut line. */
  function CutSection(s: Section, l: SectionLayout, c: Cut): Text
    requires |l.pairs| == |s.pairs|
  {
    l.indent + ([OPEN] + HeaderTail(s.name, l, PairLines(s.pairs, l.pairs, NoiseLines(l.after) + CutText(c))))
  }

  ghost predicate GoodCutSection(s: Section, l: SectionLayout, c: Cut) {
    && Word(s.name) && GoodPairs(s.pairs, l.pairs) && GoodNoises(l.after)
    && Spaces(l.indent) && Spaces(l.inside) && Spaces(l.afterBracket)
    && GoodCut(c) && (s.pairs != [] || InPair(c))
  }

  lemma CutSectionRead(s: Section, l: SectionLayout, c: Cut)
    requires GoodCutSection(s, l, c)
    ensures Is(Next(CutSection(s, l, c)), LeftBracket)
    ensures Sections(Next(CutSection(s, l, c))) == CutOutcome([s], l.after, c)
  {
    var body := PairLines(s.pairs, l.pairs, NoiseLines(l.after) + CutText(c));
    var tail := HeaderTail(s.name, l, body);
    hide Next, PairLines, HeaderTail, NoiseLines, SectionName, Word, Spaces, CutText;
    hide HasBlank, SectionAfter, Pairs, SkipNewlines, Sections;
    OpenNext(l.indent, tail);
    HeaderRead(s.name, l, body);
    NextIsRead(s.pairs, l.pairs, l.after, c);
    CutPairsRead(s.pairs, l.pairs, l.after, c, Unset);
    NextIsNoUnset(body);
    NeverUnset(Next(body));
    SectionOf(tail, s.name, Next(body), CutOutcome(s.pairs, l.after, c));
    LastSection(Next(CutSection(s, l, c)), s, CutOutcome(s.pairs, l.after, c));
  }

  lemma LastSection(l: Lexed, s: Section, o: Outcome<seq<Pair>>)
    requires Is(l, LeftBracket) && (o.Ok? ==> o == Ok(s.pairs, AtEnd))
    requires SectionAfter(l.rest) == if o.Ok? then Ok(Section(s.name, o.value), o.next) else Err(o.error)
    ensures Sections(l) == if o.Ok? then Ok([s], AtEnd) else Err(o.error)
  {
    hide SectionAfter;
    assert Sections(AtEnd) == Ok([], AtEnd);
    assert [s] + [] == [s];
  }

  lemma NextIsNoUnset(t: Text)
    ensures !Is(Next(t), Unset)
  {
  }

  /** A file that stops inside a line of its last section: a blank line may be cut anywhere, a comment only if a
      blank line stands between it and the last pair, and a pair's line nowhere before its newline. */
  lemma ParseOfCutFile(lead: seq<Noise>, ss: seq<Section>, ls: seq<SectionLayout>, s: Section, l: SectionLayout, c: Cut)
    requires Comments(lead) && GoodSections(ss, ls) && GoodCutSection(s, l, c)
    ensures Parse(NoiseLines(lead) + SectionTexts(ss, ls, CutSection(s, l, c))) == CutOutcome(ss + [s], l.after, c)
  {
    var last := CutSection(s, l, c);
    CutSectionRead(s, l, c);
    CommentsSkipped(lead, SectionTexts(ss, ls, last));
    SectionsRead(ss, ls, last);
    hide Next, CutSection, NoiseLines, HasBlank, SectionTexts, Sections;
  }
}
