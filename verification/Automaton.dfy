/** `struct am`: keywords are added one by one, compiled into a table, and searched for. */
module Automaton {
  import opened Bytes
  import opened Keywords
  import opened Trie
  import opened FailureLinks
  import opened Wrappers

  /** The row the scanner is in after reading s. */
  ghost function State(chart: array2<int>, words: seq<Text>, paths: seq<Text>, s: Text): (n: int)
    requires GotoTable(chart, words, paths)
    reads chart
    ensures 0 <= n < |paths|
  {
    if s == [] then 0
    else
      var m := |s| - 1;
      assert GotoCell(words, paths, State(chart, words, paths, s[..m]), s[m],
        chart[State(chart, words, paths, s[..m]), s[m]]);
      chart[State(chart, words, paths, s[..m]), s[m]]
  }

  lemma {:induction false} StateOfText(chart: array2<int>, words: seq<Text>, paths: seq<Text>, s: Text)
    requires GotoTable(chart, words, paths)
    ensures paths[State(chart, words, paths, s)] == Longest(words, s)
  {
    if s != [] {
      var m := |s| - 1;
      StateOfText(chart, words, paths, s[..m]);
      assert s == s[..m] + [s[m]];
      LongestStep(words, s[..m], s[m]);
      assert GotoCell(words, paths, State(chart, words, paths, s[..m]), s[m], State(chart, words, paths, s));
    }
  }

  /** After any text, the row is the node of the longest suffix that begins some keyword. */
  lemma StateIsLongest(chart: array2<int>, words: seq<Text>, paths: seq<Text>, s: Text)
    requires GotoTable(chart, words, paths)
    ensures var u := paths[State(chart, words, paths, s)];
      && IsNode(words, u) && IsSuffix(u, s)
      && forall x :: IsNode(words, x) && IsSuffix(x, s) ==> |x| <= |u|
  {
    StateOfText(chart, words, paths, s);
    LongestIsLongest(words, s, []);
    forall x | IsNode(words, x) && IsSuffix(x, s) ensures |x| <= |Longest(words, s)| {
      LongestIsLongest(words, s, x);
    }
  }

  /** The row reached by t[..e] carries an end mark exactly if the automaton stops there. */
  lemma EndMark(chart: array2<int>, words: seq<Text>, paths: seq<Text>, t: Text, e: int)
    requires GotoTable(chart, words, paths) && EndColumn(chart, words, paths)
    requires 1 <= e <= |t|
    ensures State(chart, words, paths, t[..e]) < chart.Length0 && chart.Length1 == MAX_CHARS + 1
    ensures var v := chart[State(chart, words, paths, t[..e]), MAX_CHARS];
      && (v != 0 <==> StopsAt(words, t, e))
      && (v != 0 ==> 0 < v <= |words| && words[v - 1] == Longest(words, t[..e]) && IsSuffix(words[v - 1], t[..e]))
  {
    StateOfText(chart, words, paths, t[..e]);
    LongestIsLongest(words, t[..e], []);
  }

  /** The scanner has read p bytes of t without stopping. */
  ghost predicate Scanning(chart: array2<int>, words: seq<Text>, paths: seq<Text>, t: Text, p: int, state: int)
    reads chart
  {
    && GotoTable(chart, words, paths) && EndColumn(chart, words, paths)
    && 0 <= p <= |t| && state == State(chart, words, paths, t[..p])
    && forall e :: e <= p ==> !StopsAt(words, t, e)
  }

  /** An end mark names a keyword that ends with the e-th byte, at the scanner's first stop. */
  ghost predicate Reports(words: seq<Text>, t: Text, e: int, mark: int) {
    && FirstStop(words, t, e)
    && 0 < mark <= |words| && words[mark - 1] == Longest(words, t[..e]) && IsSuffix(words[mark - 1], t[..e])
  }

  lemma ScanStep(chart: array2<int>, words: seq<Text>, paths: seq<Text>, t: Text, p: int, state: int)
    requires Scanning(chart, words, paths, t, p, state) && p < |t|
    ensures 0 <= state < chart.Length0 && chart.Length1 == MAX_CHARS + 1 == 257
    ensures var next := chart[state, t[p]];
      && 0 <= next < chart.Length0
      && var mark := chart[next, MAX_CHARS];
      if mark == 0 then Scanning(chart, words, paths, t, p + 1, next) else Reports(words, t, p + 1, mark)
  {
    assert t[..p + 1][..p] == t[..p];
    EndMark(chart, words, paths, t, p + 1);
  }

  /** The scanning loop of `am_match`: the end mark it stops at, 0 if it reaches the NUL. */
  method Scan(chart: array2<int>, str: Text, ghost t: Text, ghost words: seq<Text>, ghost paths: seq<Text>)
    returns (mark: int)
    requires GotoTable(chart, words, paths) && EndColumn(chart, words, paths)
    requires 0 in str && t == CString(str)
    ensures if mark == 0 then forall e :: !StopsAt(words, t, e) else exists e :: Reports(words, t, e, mark)
  {
    var state, p := 0, 0;
    while str[p] != 0
      invariant Scanning(chart, words, paths, t, p, state)
      decreases |t| - p
    {
      ScanStep(chart, words, paths, t, p, state);
      state := chart[state, str[p]];
      if chart[state, MAX_CHARS] != 0 {
        assert Reports(words, t, p + 1, chart[state, MAX_CHARS]);
        return chart[state, MAX_CHARS];
      }
      p := p + 1;
    }
    mark := 0;
  }

  lemma TotalLenAppend(ws: seq<Text>, w: Text)
    ensures TotalLen(ws + [w]) == TotalLen(ws) + |w|
  {
    assert (ws + [w])[..|ws|] == ws;
  }

  class Matcher {
    var wordVector: array<Text>
    var countMax: int
    var wordCount: int
    var wordsLen: int
    var chart: array2?<int>
    /** The keywords the chart was built from, and the trie node of each of its rows. */
    ghost var built: seq<Text>
    ghost var paths: seq<Text>

    ghost predicate Valid()
      reads this, wordVector, chart
    {
      && 0 <= wordCount <= countMax == wordVector.Length && countMax >= 2
      && wordsLen == TotalLen(wordVector[..wordCount])
      && (chart != null ==>
        && built <= wordVector[..wordCount]
        && GotoTable(chart, built, paths) && EndColumn(chart, built, paths))
    }

    ghost function Words(): seq<Text>
      requires Valid()
      reads this, wordVector, chart
    {
      wordVector[..wordCount]
    }

    /** `am_new` */
    constructor (size: int)
      ensures Valid() && fresh(wordVector) && Words() == [] && chart == null
    {
      var n := if size > 2 then size else 2;
      wordCount := 0;
      wordVector := new Text[n];
      countMax := n;
      wordsLen := 0;
      chart := null;
    }

    /** The doubling step of `am_addword`. */
    method Grow()
      requires Valid()
      modifies this
      ensures Valid() && fresh(wordVector) && Words() == old(Words()) && wordCount < countMax
      ensures chart == old(chart) && built == old(built) && paths == old(paths)
    {
      countMax := countMax + countMax;
      var tmp := new Text[countMax];
      for i := 0 to wordCount
        invariant tmp[..i] == wordVector[..i]
        modifies tmp
      {
        tmp[i] := wordVector[i];
      }
      wordVector := tmp;
    }

    /** `am_addword`: the keyword joins the list; a chart already built stays as it was. */
    method AddWord(word: Text) returns (count: int)
      requires Valid() && 0 in word
      modifies this, wordVector
      ensures Valid() && (wordVector == old(wordVector) || fresh(wordVector))
      ensures Words() == old(Words()) + [CString(word)] && count == |Words()|
      ensures chart == old(chart) && built == old(built) && paths == old(paths)
    {
      hide GotoTable, EndColumn, TotalLen, CString;
      if wordCount == countMax {
        Grow();
      }
      Store(CString(word));
      return wordCount;
    }

    /** The last lines of `am_addword`. */
    method Store(word: Text)
      requires Valid() && wordCount < countMax
      modifies this`wordCount, this`wordsLen, wordVector
      ensures Valid() && Words() == old(Words()) + [word]
    {
      hide GotoTable, EndColumn, TotalLen;
      ghost var was := Words();
      wordVector[wordCount] := word;
      assert wordVector[..wordCount + 1] == was + [word];
      wordsLen := wordsLen + |word|;
      wordCount := wordCount + 1;
      TotalLenAppend(was, word);
    }

    /** `am_build`: compiles the current keywords; -1 and an empty automaton if there are none. spilled tells
        whether a cell behind the two arrays of the breadth-first pass was written. */
    method Build() returns (status: int, ghost spilled: bool)
      requires Valid()
      modifies this
      ensures Valid() && chart != null && fresh(chart) && built == Words() == old(Words())
      ensures wordVector == old(wordVector) && status == if |Words()| == 0 then -1 else 0
      ensures spilled <==> !RingFits(Words())
    {
      var table := new int[wordsLen + 1, MAX_CHARS + 1]((i, j) => 0);
      ghost var rows := BuildTrie(table, wordVector, wordCount);
      if wordCount == 0 {
        assert wordVector[..wordCount] == [];
        assert forall n :: 0 <= n < |rows| ==> rows[n] in rows;
        SeedTable(table, [], rows, []);
        TourDone(table, [], rows, []);
        status, spilled := -1, false;
      } else {
        ghost var order, turns;
        order, spilled, turns := LinkFailures(table, wordsLen, wordVector[..wordCount], rows);
        status := 0;
      }
      chart, built, paths := table, wordVector[..wordCount], rows;
    }

    /** `am_match`: the keyword the automaton first stops at, which ends where the scan
        has got to; on a covered list this is what naive search finds. */
    method Match(str: Text) returns (r: Option<Text>)
      requires Valid() && chart != null && 0 in str
      ensures var t := CString(str);
        if r.None? then forall e :: !StopsAt(built, t, e)
        else r.value in built && exists e ::
          FirstStop(built, t, e) && r.value == Longest(built, t[..e]) && IsSuffix(r.value, t[..e])
    {
      var mark := Scan(chart, str, CString(str), built, paths);
      if mark != 0 {
        return Some(wordVector[mark - 1]);
      }
      return None;
    }

    /** The same scan on a covered list: exactly what naive search finds. */
    method MatchCovered(str: Text) returns (r: Option<Text>)
      requires Valid() && chart != null && 0 in str && Covered(built)
      ensures var t := CString(str);
        if r.None? then forall e :: !EndsAt(built, t, e)
        else r.value in built && exists e :: FirstEnd(built, t, e) && IsSuffix(r.value, t[..e])
    {
      CoveredAgrees(built, CString(str));
      r := Match(str);
    }

    /** `am_rebuild`: forget every keyword and the chart. */
    method Rebuild(num: int)
      requires Valid()
      modifies this
      ensures Valid() && fresh(wordVector) && Words() == [] && chart == null
    {
      countMax := if num > 2 then num else 2;
      wordVector := new Text[countMax];
      wordsLen := 0;
      chart := null;
      wordCount := 0;
    }
  }
}
