/** The parser of cfg.c with its one-token buffer, and the lookup of a value. */
module CfgParser {
  import opened Bytes
  import opened CfgGrammar
  import opened CfgLexer

  datatype Result<T> = Success(value: T) | Failure(error: Error)

  predicate IsString(token: Token) {
    token.Str? || token.Unended?
  }

  class Parser {
    const file: Text
    var pos: nat
    var lineNo: nat
    var bufExists: bool
    var buffer: Token

    /** lineNo is one more than the newlines read; a buffered end of file is the end of the file. */
    ghost predicate Valid()
      reads this
    {
      && pos <= |file| && lineNo == 1 + Newlines(file[..pos])
      && (bufExists ==> Placed(buffer))
    }

    ghost predicate Placed(token: Token)
      reads this
    {
      !token.Unset? && (token.End? || token.Unended? ==> pos == |file|)
    }

    /** What the parser will read next. */
    ghost function Ahead(): Lexed
      requires Valid()
      reads this
    {
      if bufExists then LexedOf(buffer, file[pos..]) else Next(file[pos..])
    }

    constructor (file: Text)
      ensures Valid() && this.file == file && Ahead() == Next(file) && !bufExists
    {
      this.file := file;
      pos, lineNo, bufExists, buffer := 0, 1, false, Unset;
      new;
      assert file[..0] == [] && file[0..] == file;
    }

    /** `get_token`; prev is what the caller's variable held. */
    method GetToken(prev: Token) returns (ok: bool, token: Token)
      requires Valid()
      modifies this
      ensures Valid() && !bufExists
      ensures ok == !Seen(old(Ahead()), prev).Bad?
      ensures ok ==> LexedOf(token, file[pos..]) == Seen(old(Ahead()), prev)
      ensures ok && !prev.End? && !prev.Unended? && !token.Unset? ==> Placed(token)
      ensures ok && token.Unset? ==> prev.Unset?
    {
      if bufExists {
        bufExists := false;
        return true, buffer;
      }
      ghost var from := pos;
      ok, pos, lineNo, token := Scan(file, pos, lineNo, prev);
      assert file[..pos] == file[..from] + file[from..pos];
    }

    /** `unget_token` */
    method Unget(token: Token)
      requires Valid() && Placed(token)
      modifies this`bufExists, this`buffer
      ensures Valid() && bufExists && buffer == token && Ahead() == LexedOf(token, file[pos..])
    {
      bufExists, buffer := true, token;
    }

    ghost predicate Yields<T>(o: Outcome<T>, r: Result<T>)
      requires Valid()
      reads this
    {
      if o.Ok? then r == Success(o.value) && Ahead() == o.next else r == Failure(o.error)
    }

    /** `parse_pair` */
    method ParsePair() returns (r: Result<Pair>)
      requires Valid() && bufExists && IsString(buffer)
      modifies this
      ensures Valid() && Yields(PairAfter(old(buffer), old(file[pos..])), r)
      ensures r.Success? ==> !bufExists
    {
      var ok, token := GetToken(Unset);
      var key := token;
      ok, token := GetToken(token);
      if !ok || !token.Assign? {
        return Failure(Syntax);
      }
      ok, token := GetToken(token);
      if !ok || !IsString(token) {
        return Failure(Syntax);
      }
      var value := token;
      ok, token := GetToken(token);
      if !ok || !(token.Newline? || token.End?) {
        return Failure(Syntax);
      }
      if value.Unended? {
        return Failure(Undefined);
      }
      return Success(Pair(key.text, value.text));
    }

    /** `parse_pair_list` */
    method ParsePairs() returns (r: Result<seq<Pair>>)
      requires Valid() && bufExists && IsString(buffer)
      modifies this
      ensures Valid() && Yields(Pairs(old(Ahead())), r)
      ensures r.Success? ==> bufExists
    {
      hide Next, PairAfter, Newlines, Onto, Pairs;
      var pairs := [];
      var ok, token := GetToken(Unset);
      OntoNothing(Pairs(old(Ahead())));
      while ok && (IsString(token) || token.Newline?)
        invariant Valid() && !bufExists && (ok ==> Placed(token))
        invariant Pairs(old(Ahead())) == if ok then Onto(pairs, Pairs(LexedOf(token, file[pos..]))) else Err(Syntax)
        decreases if ok then Size(LexedOf(token, file[pos..])) else 0
      {
        PairsTurn(token, file[pos..]);
        if IsString(token) {
          Unget(token);
          var pair := ParsePair();
          if pair.Failure? {
            OntoEnds(pairs, AtEnd, pair.error);
            return Failure(pair.error);
          }
          OntoOnto(pairs, pair.value, Pairs(Seen(Ahead(), token)));
          pairs := pairs + [pair.value];
        }
        ok, token := GetToken(token);
        OntoEnds(pairs, AtEnd, Syntax);
        PairsTurn(token, []);
      }
      if !ok {
        return Failure(Syntax);
      }
      PairsTurn(token, file[pos..]);
      OntoEnds(pairs, LexedOf(token, file[pos..]), Syntax);
      Unget(token);
      return Success(pairs);
    }

    /** `parse_section_name` */
    method ParseSectionName() returns (r: Result<Text>)
      requires Valid() && bufExists && buffer.LeftBracket?
      modifies this
      ensures Valid() && Yields(SectionName(old(file[pos..])), r)
      ensures r.Success? ==> !bufExists
    {
      var ok, token := GetToken(Unset);
      ok, token := GetToken(token);
      if !ok || !IsString(token) {
        return Failure(Syntax);
      }
      var name := token;
      ok, token := GetToken(token);
      if !ok || !token.RightBracket? {
        return Failure(Syntax);
      }
      ok, token := GetToken(token);
      if !ok || !token.Newline? {
        return Failure(Syntax);
      }
      return Success(name.text);
    }

    /** `parse_section`. Its variable is not set before the first token is read. */
    method ParseSection() returns (r: Result<Section>)
      requires Valid() && bufExists && buffer.LeftBracket?
      modifies this
      ensures Valid() && Yields(SectionAfter(old(file[pos..])), r)
      ensures r.Success? ==> bufExists
    {
      var name := ParseSectionName();
      if name.Failure? {
        return Failure(name.error);
      }
      ghost var l := Seen(Ahead(), Unset);
      var ok, token := GetToken(Unset);
      while ok && token.Newline?
        invariant Valid() && !bufExists && (ok ==> token.Unset? || Placed(token))
        invariant if ok then SkipNewlines(l) == SkipNewlines(LexedOf(token, file[pos..])) else SkipNewlines(l).Bad?
        decreases if ok then Size(LexedOf(token, file[pos..])) else 0
      {
        SeenIsSmaller(file[pos..], token);
        ok, token := GetToken(token);
      }
      if ok && token.Unset? {
        return Failure(Undefined);
      }
      if !ok || !IsString(token) {
        return Failure(Syntax);
      }
      Unget(token);
      var pairs := ParsePairs();
      if pairs.Failure? {
        return Failure(pairs.error);
      }
      return Success(Section(name.value, pairs.value));
    }

    /** `parse_section_list` */
    method ParseSections() returns (r: Result<seq<Section>>)
      requires Valid() && bufExists && buffer.LeftBracket?
      modifies this
      ensures Valid() && Yields(Sections(old(Ahead())), r)
      ensures r.Success? ==> bufExists
    {
      hide Next, SectionAfter, Newlines, Onto, Sections;
      var sections := [];
      var ok, token := GetToken(Unset);
      OntoNothing(Sections(old(Ahead())));
      while ok && (token.LeftBracket? || token.Newline?)
        invariant Valid() && !bufExists && (ok ==> Placed(token))
        invariant Sections(old(Ahead())) ==
          if ok then Onto(sections, Sections(LexedOf(token, file[pos..]))) else Err(Syntax)
        decreases if ok then Size(LexedOf(token, file[pos..])) else 0
      {
        SectionsTurn(token, file[pos..]);
        if token.LeftBracket? {
          Unget(token);
          var section := ParseSection();
          if section.Failure? {
            OntoEnds(sections, AtEnd, section.error);
            return Failure(section.error);
          }
          OntoOnto(sections, section.value, Sections(Ahead()));
          sections := sections + [section.value];
        }
        ok, token := GetToken(token);
        OntoEnds(sections, AtEnd, Syntax);
        SectionsTurn(token, []);
      }
      if !ok {
        return Failure(Syntax);
      }
      SectionsTurn(token, file[pos..]);
      OntoEnds(sections, LexedOf(token, file[pos..]), Syntax);
      Unget(token);
      return Success(sections);
    }
  }

  /** `cfg_open` after the file is read: `parse_cfg`. */
  method ParseCfg(file: Text) returns (r: Result<seq<Section>>)
    ensures r == if Parse(file).Ok? then Success(Parse(file).value) else Failure(Parse(file).error)
  {
    var parser := new Parser(file);
    var ok, token := parser.GetToken(Unset);
    if ok && token.Unset? {
      return Failure(Undefined);
    }
    if !ok || !token.LeftBracket? {
      return Failure(Syntax);
    }
    parser.Unget(token);
    r := parser.ParseSections();
    if r.Success? {
      ok, token := parser.GetToken(token);
      if !token.End? {
        r := Failure(Syntax);
      }
    }
  }

  /** The j-th pair of the i-th section answers to section and key. */
  ghost predicate Answers(cfg: seq<Section>, i: int, j: int, section: Text, key: Text) {
    0 <= i < |cfg| && 0 <= j < |cfg[i].pairs| && cfg[i].name == section && cfg[i].pairs[j].key == key
  }

  /** Pair (a, b) comes before pair (i, j) in the file. */
  ghost predicate Before(a: int, b: int, i: int, j: int) {
    a < i || (a == i && b < j)
  }

  /** `cfg_read`: the first pair in file order that answers, whichever of the sections of that name it is in. */
  method Read(cfg: seq<Section>, section: Text, key: Text, value: Text) returns (status: int, value': Text)
    ensures status == 0 || status == -1
    ensures status == 0 <==> exists i, j :: Answers(cfg, i, j, section, key)
    ensures status == 0 ==> exists i, j ::
      && Answers(cfg, i, j, section, key) && value' == cfg[i].pairs[j].value
      && forall a, b :: Before(a, b, i, j) ==> !Answers(cfg, a, b, section, key)
    ensures status == -1 ==> value' == value
  {
    value' := value;
    for i := 0 to |cfg|
      invariant value' == value
      invariant forall a, b :: a < i ==> !Answers(cfg, a, b, section, key)
    {
      if cfg[i].name == section {
        for j := 0 to |cfg[i].pairs|
          invariant value' == value
          invariant forall a, b :: Before(a, b, i, j) ==> !Answers(cfg, a, b, section, key)
        {
          if cfg[i].pairs[j].key == key {
            assert Answers(cfg, i, j, section, key);
            return 0, cfg[i].pairs[j].value;
          }
        }
      }
    }
    return -1, value;
  }
}
