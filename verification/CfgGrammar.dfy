/** What the recursive-descent parser of cfg.c makes of a file, production by production. */
module CfgGrammar {
  import opened Bytes
  import opened CfgLexer

  datatype Pair = Pair(key: Text, value: Text)

  datatype Section = Section(name: Text, pairs: seq<Pair>)

  /** Syntax stands for `exit(1)` after an error message. Undefined stands for reading a token that was
      never set, or keeping a string that was never terminated. */
  datatype Error = Syntax | Undefined

  datatype Outcome<T> = Ok(value: T, next: Lexed) | Err(error: Error)

  /** A token read, and what follows it, as the next of a text. */
  function LexedOf(token: Token, rest: Text): Lexed {
    if token.End? then AtEnd else if token.Unended? then EndInString else Tok(token, rest)
  }

  /** What `get_token` leaves in a variable that held prev: at the end of a file that stops inside a
      comment the variable keeps its old token. */
  function Seen(l: Lexed, prev: Token): Lexed {
    if l.EndInComment? then LexedOf(prev, []) else l
  }

  function Size(l: Lexed): nat {
    if l.Tok? then |l.rest| + 1 else 0
  }

  lemma SeenIsSmaller(t: Text, prev: Token)
    ensures Size(Seen(Next(t), prev)) <= |t|
  {
  }

  /** `parse_pair` once its first token, a string, is read. */
  function PairAfter(key: Token, rest: Text): (r: Outcome<Pair>)
    ensures r.Ok? ==> Size(r.next) <= |rest|
  {
    var eq := Seen(Next(rest), key);
    if !(eq.Tok? && eq.token.Assign?) then Err(Syntax)
    else
      var value := Seen(Next(eq.rest), Assign);
      if value.EndInString? then Err(Undefined)
      else if !(value.Tok? && value.token.Str?) then Err(Syntax)
      else
        var end := Seen(Next(value.rest), value.token);
        if end.AtEnd? && key.Str? then Ok(Pair(key.text, value.token.text), AtEnd)
        else if end.Tok? && end.token.Newline? && key.Str? then Ok(Pair(key.text, value.token.text), Next(end.rest))
        else Err(Syntax)
  }

  /** `parse_pair_list` */
  function Pairs(l: Lexed): (r: Outcome<seq<Pair>>)
    ensures r.Ok? ==> Size(r.next) <= Size(l)
    ensures r.Ok? && !l.EndInComment? ==> !r.next.EndInComment?
    decreases Size(l)
  {
    if l.Tok? && l.token.Newline? then
      SeenIsSmaller(l.rest, Newline);
      Pairs(Seen(Next(l.rest), Newline))
    else if l.Tok? && l.token.Str? then
      var pair := PairAfter(l.token, l.rest);
      if pair.Err? then Err(pair.error)
      else
        Onto([pair.value], Pairs(Seen(pair.next, l.token)))
    else if l.EndInString? || l.Bad? then Err(Syntax)
    else Ok([], l)
  }

  predicate Is(l: Lexed, token: Token) {
    l.Tok? && l.token == token
  }

  /** The pairs already read in front of what the rest gives. */
  function Onto<T>(done: seq<T>, o: Outcome<seq<T>>): Outcome<seq<T>> {
    if o.Err? then o else Ok(done + o.value, o.next)
  }

  lemma OntoOnto<T>(a: seq<T>, x: T, o: Outcome<seq<T>>)
    ensures Onto(a, Onto([x], o)) == Onto(a + [x], o)
  {
    if o.Ok? {
      assert a + ([x] + o.value) == (a + [x]) + o.value;
    }
  }

  /** One turn of the loop in `parse_pair_list`. */
  lemma PairsTurn(token: Token, rest: Text)
    requires token.Unended? ==> rest == []
    ensures token.Newline? ==> Pairs(LexedOf(token, rest)) == Pairs(Seen(Next(rest), token))
    ensures token.Newline? ==> Size(Seen(Next(rest), token)) < Size(LexedOf(token, rest))
    ensures token.Str? || token.Unended? ==>
      var pair := PairAfter(token, rest);
      if pair.Err? then Pairs(LexedOf(token, rest)) == Err(pair.error)
      else
        && token.Str?
        && Pairs(LexedOf(token, rest)) == Onto([pair.value], Pairs(Seen(pair.next, token)))
        && Size(Seen(pair.next, token)) < Size(LexedOf(token, rest))
    ensures !token.Newline? && !token.Str? && !token.Unended? ==>
      Pairs(LexedOf(token, rest)) == Ok([], LexedOf(token, rest))
    ensures Pairs(Bad) == Err(Syntax)
  {
    if token.Newline? {
      SeenIsSmaller(rest, token);
    }
  }

  /** One turn of the loop in `parse_section_list`. */
  lemma SectionsTurn(token: Token, rest: Text)
    ensures token.Newline? ==> Sections(LexedOf(token, rest)) == Sections(Seen(Next(rest), token))
    ensures token.Newline? ==> Size(Seen(Next(rest), token)) < Size(LexedOf(token, rest))
    ensures token.LeftBracket? ==>
      var section := SectionAfter(rest);
      if section.Err? then Sections(LexedOf(token, rest)) == Err(section.error)
      else
        && Sections(LexedOf(token, rest)) == Onto([section.value], Sections(section.next))
        && Size(section.next) < Size(LexedOf(token, rest))
    ensures !token.Newline? && !token.LeftBracket? ==> Sections(LexedOf(token, rest)) == Ok([], LexedOf(token, rest))
    ensures Sections(Bad) == Err(Syntax)
  {
    if token.Newline? {
      SeenIsSmaller(rest, token);
    }
  }

  lemma OntoNothing<T>(o: Outcome<seq<T>>)
    ensures Onto([], o) == o
  {
    if o.Ok? {
      assert [] + o.value == o.value;
    }
  }

  lemma OntoEnds<T>(done: seq<T>, l: Lexed, e: Error)
    ensures Onto(done, Ok([], l)) == Ok(done, l) && Onto(done, Err(e)) == Err(e)
  {
    assert done + [] == done;
  }

  /** `parse_section_name`, after the bracket that opens it. */
  function SectionName(rest: Text): (r: Outcome<Text>)
    ensures r.Ok? ==> Size(r.next) <= |rest|
  {
    var name := Seen(Next(rest), LeftBracket);
    if !(name.Tok? && name.token.Str?) then Err(Syntax)
    else
      var close := Seen(Next(name.rest), name.token);
      if !Is(close, RightBracket) then Err(Syntax)
      else
        var line := Seen(Next(close.rest), RightBracket);
        if Is(line, Newline) then Ok(name.token.text, Next(line.rest)) else Err(Syntax)
  }

  /** The loops over newline tokens. */
  function SkipNewlines(l: Lexed): (r: Lexed)
    ensures Size(r) <= Size(l) && !Is(r, Newline)
    decreases Size(l)
  {
    if Is(l, Newline) then
      SeenIsSmaller(l.rest, Newline);
      SkipNewlines(Seen(Next(l.rest), Newline))
    else l
  }

  /** `parse_section`, after the bracket. */
  function SectionAfter(rest: Text): (r: Outcome<Section>)
    ensures r.Ok? ==> Size(r.next) <= |rest| && !r.next.EndInComment?
  {
    var name := SectionName(rest);
    if name.Err? then Err(name.error)
    else
      var first := SkipNewlines(Seen(name.next, Unset));
      if Is(first, Unset) then Err(Undefined)
      else if !(first.EndInString? || (first.Tok? && first.token.Str?)) then Err(Syntax)
      else
        var pairs := Pairs(first);
        if pairs.Err? then Err(pairs.error) else Ok(Section(name.value, pairs.value), pairs.next)
  }

  /** `parse_section_list` */
  function Sections(l: Lexed): (r: Outcome<seq<Section>>)
    decreases Size(l)
  {
    if Is(l, Newline) then
      SeenIsSmaller(l.rest, Newline);
      Sections(Seen(Next(l.rest), Newline))
    else if Is(l, LeftBracket) then
      var section := SectionAfter(l.rest);
      if section.Err? then Err(section.error)
      else
        Onto([section.value], Sections(section.next))
    else if l.Bad? then Err(Syntax)
    else Ok([], l)
  }

  /** `parse_cfg` */
  function Parse(file: Text): Outcome<seq<Section>> {
    var first := Seen(Next(file), Unset);
    if Is(first, Unset) then Err(Undefined)
    else if !Is(first, LeftBracket) then Err(Syntax)
    else
      var sections := Sections(first);
      if sections.Ok? && !sections.next.AtEnd? then Err(Syntax) else sections
  }
}
