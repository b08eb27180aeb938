/** The lexer of cfg.c. */
module CfgLexer {
  import opened Bytes

  const SPACE: byte := 32
  const NEWLINE: byte := 10
  const HASH: byte := 35
  const OPEN: byte := 91
  const CLOSE: byte := 93
  const EQUALS: byte := 61

  /** `isalnum` and `isspace` in the C locale. */
  predicate IsAlnum(ch: byte) {
    48 <= ch <= 57 || 65 <= ch <= 90 || 97 <= ch <= 122
  }

  predicate IsSpace(ch: byte) {
    ch == SPACE || 9 <= ch <= 13
  }

  /** What ends a string. */
  predicate EndsString(ch: byte) {
    ch == CLOSE || ch == NEWLINE || ch == EQUALS
  }

  /** A token as the parser's variables hold it. Unended is a string the end of the file cut off, which is
      never terminated; Unset is a variable no token was read into. */
  datatype Token = LeftBracket | RightBracket | Str(text: Text) | Newline | Assign | End | Unended | Unset

  /** What the rest of the file holds next. */
  datatype Lexed =
    | Tok(token: Token, rest: Text)
    | AtEnd
    | EndInComment
    | EndInString
    | Bad

  /** Where the line ends, or the length of the text. */
  function LineEnd(t: Text): (n: nat)
    ensures n <= |t| && (n < |t| ==> t[n] == NEWLINE)
    ensures forall i :: 0 <= i < n ==> t[i] != NEWLINE
  {
    if t == [] || t[0] == NEWLINE then 0 else 1 + LineEnd(t[1..])
  }

  /** Where a string ends, or the length of the text. */
  function StringEnd(t: Text): (n: nat)
    ensures n <= |t| && (n < |t| ==> EndsString(t[n]))
    ensures forall i :: 0 <= i < n ==> !EndsString(t[i])
  {
    if t == [] || EndsString(t[0]) then 0 else 1 + StringEnd(t[1..])
  }

  /** The text without the blanks at its end. */
  function Trimmed(s: Text): (r: Text)
    ensures r <= s && (r != [] ==> r[|r| - 1] != SPACE)
    ensures forall i :: |r| <= i < |s| ==> s[i] == SPACE
  {
    if s == [] || s[|s| - 1] != SPACE then s else Trimmed(s[..|s| - 1])
  }

  /** What a C string holds of a text: everything before the first NUL. */
  function BeforeNul(s: Text): (r: Text)
    ensures r <= s && 0 !in r && (|r| < |s| ==> s[|r|] == 0)
  {
    if s == [] || s[0] == 0 then [] else [s[0]] + BeforeNul(s[1..])
  }

  /** What becomes of the characters read for a string. */
  function Kept(s: Text): Text {
    Trimmed(BeforeNul(s))
  }

  /** The next token of a text. A comment takes its newline with it. */
  function Next(t: Text): (r: Lexed)
    ensures r.Tok? ==> |r.rest| < |t|
    ensures r.Tok? ==> !r.token.End? && !r.token.Unended? && !r.token.Unset?
    decreases |t|
  {
    if t == [] then AtEnd
    else if t[0] == HASH then
      var n := LineEnd(t);
      if n == |t| then EndInComment else Next(t[n + 1..])
    else if IsAlnum(t[0]) then
      var n := StringEnd(t);
      if n == |t| then EndInString else Tok(Str(Kept(t[..n])), t[n..])
    else if t[0] == NEWLINE then Tok(Newline, t[1..])
    else if IsSpace(t[0]) then Next(t[1..])
    else if t[0] == OPEN then Tok(LeftBracket, t[1..])
    else if t[0] == CLOSE then Tok(RightBracket, t[1..])
    else if t[0] == EQUALS then Tok(Assign, t[1..])
    else Bad
  }

  function Newlines(t: Text): nat {
    multiset(t)[NEWLINE]
  }

  lemma {:induction false} KeptFrom(s: Text, n: nat)
    requires n <= |s| && 0 !in s[..n] && (n < |s| ==> s[n] == 0)
    ensures BeforeNul(s) == s[..n]
  {
    if n > 0 {
      assert s[..n][0] == s[0] && s[..n] == [s[0]] + s[1..][..n - 1];
      KeptFrom(s[1..], n - 1);
    }
  }

  /** `token_out_space`, which is only given strings that begin with something besides a blank. */
  method TrimBlanks(s: Text) returns (r: Text)
    requires s != [] && s[0] != SPACE && s[0] != 0
    ensures r == Kept(s)
  {
    var n := 0;
    while n < |s| && s[n] != 0
      invariant 0 <= n <= |s| && 0 !in s[..n]
    {
      assert s[..n + 1] == s[..n] + [s[n]];
      n := n + 1;
    }
    KeptFrom(s, n);
    hide BeforeNul;
    ghost var cut := s[..n];
    while s[n - 1] == SPACE
      invariant 0 < n <= |cut| && cut[0] != SPACE && Trimmed(cut) == Trimmed(s[..n])
      decreases n
    {
      assert s[..n][..n - 1] == s[..n - 1];
      n := n - 1;
    }
    return s[..n];
  }

  datatype State = Initial | InComment | InString

  /** What scanning on from a state must come to; str is the string read so far. */
  ghost function Resume(state: State, str: Text, t: Text): Lexed {
    match state
    case Initial => Next(t)
    case InComment => if LineEnd(t) == |t| then EndInComment else Next(t[LineEnd(t) + 1..])
    case InString =>
      if StringEnd(t) == |t| then EndInString
      else Tok(Str(Kept(str + t[..StringEnd(t)])), t[StringEnd(t)..])
  }

  lemma LineEndStep(t: Text)
    requires t != [] && t[0] != NEWLINE
    ensures LineEnd(t) == 1 + LineEnd(t[1..])
    ensures LineEnd(t) < |t| ==> t[LineEnd(t) + 1..] == t[1..][LineEnd(t[1..]) + 1..]
  {
  }

  lemma StringEndStep(t: Text)
    requires t != [] && !EndsString(t[0])
    ensures StringEnd(t) == 1 + StringEnd(t[1..])
    ensures t[..StringEnd(t)] == [t[0]] + t[1..][..StringEnd(t[1..])]
    ensures t[StringEnd(t)..] == t[1..][StringEnd(t[1..])..]
  {
  }

  lemma InitialStep(t: Text)
    requires t != []
    ensures t[0] == HASH ==> Next(t) == Resume(InComment, [], t[1..])
    ensures IsAlnum(t[0]) ==> Next(t) == Resume(InString, [t[0]], t[1..])
    ensures IsSpace(t[0]) ==> Next(t) == if t[0] == NEWLINE then Tok(Newline, t[1..]) else Next(t[1..])
    ensures t[0] == OPEN ==> Next(t) == Tok(LeftBracket, t[1..])
    ensures t[0] == CLOSE ==> Next(t) == Tok(RightBracket, t[1..])
    ensures t[0] == EQUALS ==> Next(t) == Tok(Assign, t[1..])
    ensures !IsAlnum(t[0]) && !IsSpace(t[0]) && t[0] != HASH && t[0] != OPEN && t[0] != CLOSE && t[0] != EQUALS ==>
      Next(t) == Bad
  {
    hide Kept, LineEnd, StringEnd;
    if t[0] == HASH {
      LineEndStep(t);
    } else if IsAlnum(t[0]) {
      StringEndStep(t);
    }
  }

  lemma CommentStep(t: Text)
    requires t != []
    ensures Resume(InComment, [], t) == if t[0] == NEWLINE then Next(t[1..]) else Resume(InComment, [], t[1..])
  {
    hide Next;
    if t[0] != NEWLINE {
      LineEndStep(t);
    }
  }

  lemma StringStep(str: Text, t: Text)
    requires t != []
    ensures Resume(InString, str, t) ==
      if EndsString(t[0]) then Tok(Str(Kept(str)), t) else Resume(InString, str + [t[0]], t[1..])
  {
    hide Kept, Next;
    if EndsString(t[0]) {
      assert str + t[..0] == str && t[0..] == t;
    } else {
      StringEndStep(t);
      Regroup(str, t[0], t[1..][..StringEnd(t[1..])]);
    }
  }

  lemma Regroup(a: Text, ch: byte, b: Text)
    ensures a + ([ch] + b) == (a + [ch]) + b
  {
  }

  lemma ResumeAtEnd(state: State, str: Text)
    ensures Resume(state, str, []) ==
      match state case Initial => AtEnd case InComment => EndInComment case InString => EndInString
  {
  }

  lemma OneMoreChar(file: Text, from: nat, pos: nat)
    requires from <= pos < |file|
    ensures Newlines(file[from..pos + 1]) == Newlines(file[from..pos]) + if file[pos] == NEWLINE then 1 else 0
    ensures file[pos..] == [file[pos]] + file[pos + 1..]
  {
    assert file[from..pos + 1] == file[from..pos] + [file[pos]];
  }

  /** What one character makes the loop of `scan` do. */
  datatype Action = Continue | Finish | PushBack | Fail

  /** The body of the loop in `scan`; rest is what follows ch in the file. */
  method ScanChar(ch: byte, state: State, str: Text, token: Token, lineNo: nat, ghost rest: Text)
    returns (action: Action, state': State, str': Text, token': Token, lineNo': nat)
    requires if state.InString? then str != [] && IsAlnum(str[0]) else str == []
    ensures match action
      case Continue => token' == token && Resume(state, str, [ch] + rest) == Resume(state', str', rest)
        && (if state'.InString? then str' != [] && IsAlnum(str'[0]) else str' == [])
      case Finish => Resume(state, str, [ch] + rest) == Tok(token', rest)
      case PushBack => Resume(state, str, [ch] + rest) == Tok(token', [ch] + rest)
      case Fail => token' == token && Resume(state, str, [ch] + rest) == Bad
    ensures lineNo' == lineNo + if ch == NEWLINE && !action.PushBack? then 1 else 0
  {
    hide Next, Kept, LineEnd, StringEnd;
    action, state', str', token', lineNo' := Continue, state, str, token, lineNo;
    ghost var t := [ch] + rest;
    assert t[1..] == rest;
    match state {
      case Initial =>
        InitialStep(t);
        if ch == HASH {
          state' := InComment;
        } else if IsAlnum(ch) {
          state', str' := InString, [ch];
        } else if IsSpace(ch) {
          if ch == NEWLINE {
            action, token', lineNo' := Finish, Newline, lineNo + 1;
          }
        } else if ch == OPEN {
          action, token' := Finish, LeftBracket;
        } else if ch == CLOSE {
          action, token' := Finish, RightBracket;
        } else if ch == EQUALS {
          action, token' := Finish, Assign;
        } else {
          action := Fail;
        }
      case InComment =>
        CommentStep(t);
        if ch == NEWLINE {
          state', lineNo' := Initial, lineNo + 1;
        }
      case InString =>
        StringStep(str, t);
        if !EndsString(ch) {
          str' := str + [ch];
        } else {
          str' := TrimBlanks(str);
          action, token' := PushBack, Str(str');
        }
    }
  }

  /** The invariant of the loop in `scan`. */
  ghost predicate Scanning(file: Text, from: nat, pos: nat, lines: int, state: State, str: Text) {
    && from <= pos <= |file|
    && Resume(state, str, file[pos..]) == Next(file[from..])
    && lines == Newlines(file[from..pos])
    && if state.InString? then str != [] && IsAlnum(str[0]) else str == []
  }

  lemma ScanStarts(file: Text, from: nat)
    requires from <= |file|
    ensures Scanning(file, from, from, 0, Initial, [])
  {
    assert file[from..from] == [];
  }

  lemma ScanTurns(file: Text, from: nat, pos: nat, lines: int, state: State, str: Text)
    requires Scanning(file, from, pos, lines, state, str) && pos < |file|
    ensures if state.InString? then str != [] && IsAlnum(str[0]) else str == []
    ensures file[pos..] == [file[pos]] + file[pos + 1..]
    ensures Resume(state, str, [file[pos]] + file[pos + 1..]) == Next(file[from..])
    ensures lines == Newlines(file[from..pos])
    ensures lines + (if file[pos] == NEWLINE then 1 else 0) == Newlines(file[from..pos + 1])
  {
    hide Resume, Next;
    OneMoreChar(file, from, pos);
  }

  lemma ScanAdvances(file: Text, from: nat, pos: nat, lines: int, state: State, str: Text)
    requires from <= pos < |file| && lines == Newlines(file[from..pos + 1])
    requires if state.InString? then str != [] && IsAlnum(str[0]) else str == []
    requires Resume(state, str, file[pos + 1..]) == Next(file[from..])
    ensures Scanning(file, from, pos + 1, lines, state, str)
  {
  }

  lemma ScanEnds(file: Text, from: nat, pos: nat, lines: int, state: State, str: Text)
    requires Scanning(file, from, pos, lines, state, str) && pos >= |file|
    ensures pos == |file| && lines == Newlines(file[from..pos])
    ensures Next(file[from..]) ==
      match state case Initial => AtEnd case InComment => EndInComment case InString => EndInString
  {
    assert file[pos..] == [];
    ResumeAtEnd(state, str);
  }

  /** `scan`: the file from from on; token is the caller's variable, left alone when the file ends in a comment. */
  method Scan(file: Text, from: nat, lineNo: nat, token: Token)
    returns (ok: bool, pos: nat, lineNo': nat, token': Token)
    requires from <= |file|
    ensures from <= pos <= |file|
    ensures ok == !Next(file[from..]).Bad?
    ensures lineNo' - lineNo == Newlines(file[from..pos])
    ensures match Next(file[from..])
      case Tok(t, rest) => token' == t && file[pos..] == rest
      case AtEnd => token' == End && pos == |file|
      case EndInComment => token' == token && pos == |file|
      case EndInString => token' == Unended && pos == |file|
      case Bad => token' == token
  {
    hide *;
    token', pos, lineNo', ok := token, from, lineNo, true;
    var state := Initial;
    var str: Text := [];
    ScanStarts(file, from);
    while pos < |file|
      invariant from <= pos <= |file| && ok && token' == token
      invariant Scanning(file, from, pos, lineNo' - lineNo, state, str)
    {
      ScanTurns(file, from, pos, lineNo' - lineNo, state, str);
      var action;
      action, state, str, token', lineNo' := ScanChar(file[pos], state, str, token, lineNo', file[pos + 1..]);
      if action.PushBack? {
        return;
      }
      if action.Continue? {
        ScanAdvances(file, from, pos, lineNo' - lineNo, state, str);
      }
      pos := pos + 1;
      if !action.Continue? {
        ok := action.Finish?;
        return;
      }
    }
    ScanEnds(file, from, pos, lineNo' - lineNo, state, str);
    if state.Initial? {
      token' := End;
    } else if state.InString? {
      token' := Unended;
    }
  }
}
