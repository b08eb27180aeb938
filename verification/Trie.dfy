/** The keyword trie laid out in the transition table: `am_build`, first half. */
module Trie {
  import opened Bytes
  import opened Keywords
  import opened Seqs

  const MAX_CHARS := 256

  /** paths names the table rows: row n stands for the trie node paths[n]. */
  ghost predicate Rows(words: seq<Text>, paths: seq<Text>) {
    && |paths| >= 1 && paths[0] == []
    && Distinct(paths)
    && forall s :: s in paths <==> IsNode(words, s)
  }

  /** Entry v of row n and column c is the child of node n by c, 0 if there is none. */
  ghost predicate TrieCell(paths: seq<Text>, n: int, c: byte, v: int)
    requires 0 <= n < |paths|
  {
    if v == 0 then paths[n] + [c] !in paths else 0 < v < |paths| && paths[v] == paths[n] + [c]
  }

  ghost predicate TrieRow(chart: array2<int>, paths: seq<Text>, n: int)
    requires chart.Length1 == MAX_CHARS + 1 && 0 <= n < |paths| <= chart.Length0
    reads chart
  {
    forall c: byte :: TrieCell(paths, n, c, chart[n, c])
  }

  ghost predicate EndColumn(chart: array2<int>, words: seq<Text>, paths: seq<Text>)
    requires chart.Length1 == MAX_CHARS + 1 && |paths| <= chart.Length0
    reads chart
  {
    forall n :: 0 <= n < |paths| ==> chart[n, MAX_CHARS] == LastIndex(words, paths[n])
  }

  ghost predicate Blank(chart: array2<int>, used: int)
    requires chart.Length1 == MAX_CHARS + 1 && 0 <= used
    reads chart
  {
    forall n, c :: used <= n < chart.Length0 && 0 <= c <= MAX_CHARS ==> chart[n, c] == 0
  }

  /** Every used row is a trie row and every unused row is zero. */
  ghost predicate TrieTable(chart: array2<int>, words: seq<Text>, paths: seq<Text>)
    reads chart
  {
    && chart.Length1 == MAX_CHARS + 1 && |paths| <= chart.Length0
    && Rows(words, paths)
    && (forall n :: 0 <= n < |paths| ==> TrieRow(chart, paths, n))
    && Blank(chart, |paths|)
  }

  lemma NodesOfLongerWord(ws: seq<Text>, x: Text, c: byte, s: Text)
    ensures IsNode(ws + [x + [c]], s) <==> IsNode(ws + [x], s) || s == x + [c]
  {
    var a, b := ws + [x], ws + [x + [c]];
    assert x + [c] <= b[|ws|];
    if IsNode(a, s) && s != [] {
      var i :| 0 <= i < |a| && s <= a[i];
      if i == |ws| {
        assert s <= x + [c];
      }
      assert s <= b[i];
    }
    if IsNode(b, s) && s != [] && s != x + [c] {
      var i :| 0 <= i < |b| && s <= b[i];
      if i == |ws| {
        assert s == (x + [c])[..|s|] == x[..|s|];
      }
      assert s <= a[i];
    }
  }

  /** A fresh row for a fresh node, linked from its parent, keeps the table a trie. */
  lemma RowsAfterNewNode(ws: seq<Text>, paths: seq<Text>, x: Text, c: byte)
    requires Rows(ws + [x], paths) && x + [c] !in paths
    ensures Rows(ws + [x + [c]], paths + [x + [c]])
    ensures forall d: byte :: x + [c] + [d] !in paths + [x + [c]]
  {
    var q := paths + [x + [c]];
    forall s ensures s in q <==> IsNode(ws + [x + [c]], s) {
      NodesOfLongerWord(ws, x, c, s);
    }
    forall d: byte ensures x + [c] + [d] !in q {
      if x + [c] + [d] in paths {
        PrefixOfNode(ws + [x], x + [c], d);
      }
    }
  }

  lemma RowsAfterOldNode(ws: seq<Text>, paths: seq<Text>, x: Text, c: byte)
    requires Rows(ws + [x], paths) && x + [c] in paths
    ensures Rows(ws + [x + [c]], paths)
  {
    forall s ensures s in paths <==> IsNode(ws + [x + [c]], s) {
      NodesOfLongerWord(ws, x, c, s);
    }
  }

  lemma AppendIsInjective(a: Text, c: byte, b: Text, d: byte)
    requires a + [c] == b + [d]
    ensures a == b && c == d
  {
    assert a == (a + [c])[..|a|];
    assert b == (b + [d])[..|b|];
    assert c == (a + [c])[|a|];
  }

  lemma CellAfterNewNode(paths: seq<Text>, n: int, c: byte, m: int, d: byte, v: int)
    requires Distinct(paths) && 0 <= n < |paths| && 0 <= m < |paths| && TrieCell(paths, m, d, v)
    requires !(m == n && d == c)
    ensures TrieCell(paths + [paths[n] + [c]], m, d, v)
  {
    if paths[m] + [d] == paths[n] + [c] {
      AppendIsInjective(paths[m], d, paths[n], c);
    }
  }

  lemma KeywordIsNode(ws: seq<Text>, x: Text, w: Text)
    requires w in ws
    ensures IsNode(ws + [x], w)
  {
    var i :| 0 <= i < |ws| && ws[i] == w;
    assert w <= (ws + [x])[i];
  }

  /** One turn of the inner loop of `am_build`: follow or create the child of n by c. */
  method Descend(chart: array2<int>, n: int, c: byte, k: int, ghost ws: seq<Text>, ghost paths: seq<Text>)
    returns (n': int, k': int, ghost paths': seq<Text>)
    requires 0 <= n < |paths| == k + 1 < chart.Length0
    requires TrieTable(chart, ws + [paths[n]], paths) && EndColumn(chart, ws, paths)
    modifies chart
    ensures TrieTable(chart, ws + [paths[n] + [c]], paths') && EndColumn(chart, ws, paths')
    ensures paths <= paths' && |paths'| == k' + 1 <= |paths| + 1
    ensures 0 <= n' < |paths'| && paths'[n'] == paths[n] + [c]
  {
    ghost var x := paths[n];
    assert TrieRow(chart, paths, n);
    assert TrieCell(paths, n, c, chart[n, c]);
    if chart[n, c] == 0 {
      RowsAfterNewNode(ws, paths, x, c);
      k' := k + 1;
      paths' := paths + [x + [c]];
      if x + [c] in ws {
        KeywordIsNode(ws, x, x + [c]);
      }
      label before:
      chart[n, c] := k';
      n' := k';
      forall m | 0 <= m < |paths'| ensures TrieRow(chart, paths', m) {
        forall d: byte ensures TrieCell(paths', m, d, chart[m, d]) {
          if m < |paths| && !(m == n && d == c) {
            assert old@before(TrieRow(chart, paths, m));
            CellAfterNewNode(paths, n, c, m, d, chart[m, d]);
          }
        }
      }
    } else {
      n' := chart[n, c];
      k', paths' := k, paths;
      RowsAfterOldNode(ws, paths, x, c);
    }
  }

  lemma LastIndexOfLongerList(ws: seq<Text>, w: Text, s: Text)
    ensures LastIndex(ws + [w], s) == if s == w then |ws| + 1 else LastIndex(ws, s)
  {
    assert (ws + [w])[..|ws|] == ws;
  }

  lemma NodesOfEmptyWord(ws: seq<Text>, s: Text)
    ensures IsNode(ws + [[]], s) <==> IsNode(ws, s)
  {
    if IsNode(ws + [[]], s) && s != [] {
      var i :| 0 <= i < |ws| + 1 && s <= (ws + [[]])[i];
      assert s <= ws[i];
    }
    if IsNode(ws, s) && s != [] {
      var i :| 0 <= i < |ws| && s <= ws[i];
      assert s <= (ws + [[]])[i];
    }
  }

  /** The inner loop of `am_build`: thread one keyword through the table, down to its last row. */
  method ThreadWord(chart: array2<int>, w: Text, k: int, ghost ws: seq<Text>, ghost paths: seq<Text>)
    returns (n: int, k': int, ghost paths': seq<Text>)
    requires |paths| == k + 1 && k + |w| < chart.Length0
    requires TrieTable(chart, ws, paths) && EndColumn(chart, ws, paths)
    modifies chart
    ensures TrieTable(chart, ws + [w], paths') && EndColumn(chart, ws, paths')
    ensures 0 <= n < |paths'| == k' + 1 && k' <= k + |w| && paths'[n] == w
  {
    n, k', paths' := 0, k, paths;
    forall s ensures s in paths <==> IsNode(ws + [[]], s) {
      NodesOfEmptyWord(ws, s);
    }
    assert w[..0] == [];
    for j := 0 to |w|
      invariant 0 <= n < |paths'| == k' + 1 && k' <= k + j && paths'[n] == w[..j]
      invariant TrieTable(chart, ws + [w[..j]], paths') && EndColumn(chart, ws, paths')
    {
      assert w[..j] + [w[j]] == w[..j + 1];
      n, k', paths' := Descend(chart, n, w[j], k', ws, paths');
    }
    assert w[..|w|] == w;
  }

  /** The end mark of the i-th keyword replaces that of any earlier keyword equal to it. */
  method MarkEnd(chart: array2<int>, n: int, w: Text, i: int, ghost ws: seq<Text>, ghost paths: seq<Text>)
    requires |ws| == i && 0 <= n < |paths| && paths[n] == w
    requires TrieTable(chart, ws + [w], paths) && EndColumn(chart, ws, paths)
    modifies chart
    ensures TrieTable(chart, ws + [w], paths) && EndColumn(chart, ws + [w], paths)
  {
    forall s ensures LastIndex(ws + [w], s) == if s == w then i + 1 else LastIndex(ws, s) {
      LastIndexOfLongerList(ws, w, s);
    }
    chart[n, MAX_CHARS] := i + 1;
    forall m | 0 <= m < |paths| ensures TrieRow(chart, paths, m) {
      assert old(TrieRow(chart, paths, m));
    }
  }

  /** One turn of the outer loop of `am_build`. */
  method InsertWord(chart: array2<int>, w: Text, i: int, k: int, ghost words: seq<Text>, ghost paths: seq<Text>)
    returns (k': int, ghost paths': seq<Text>)
    requires 0 <= i < |words| && w == words[i]
    requires |paths| == k + 1 <= TotalLen(words[..i]) + 1 && TotalLen(words) < chart.Length0
    requires TrieTable(chart, words[..i], paths) && EndColumn(chart, words[..i], paths)
    modifies chart
    ensures |paths'| == k' + 1 <= TotalLen(words[..i + 1]) + 1
    ensures TrieTable(chart, words[..i + 1], paths') && EndColumn(chart, words[..i + 1], paths')
  {
    TotalLenOfPrefix(words, i);
    TotalLenOfPrefix(words, i + 1);
    ghost var ws := words[..i];
    assert ws + [w] == words[..i + 1];
    var n;
    n, k', paths' := ThreadWord(chart, w, k, ws, paths);
    MarkEnd(chart, n, w, i, ws, paths');
  }

  lemma TotalLenOfPrefix(words: seq<Text>, i: nat)
    requires i <= |words|
    ensures TotalLen(words[..i]) <= TotalLen(words)
    ensures i < |words| ==> TotalLen(words[..i]) + |words[i]| == TotalLen(words[..i + 1])
    decreases |words| - i
  {
    if i < |words| {
      assert words[..i + 1][..i] == words[..i];
      TotalLenOfPrefix(words, i + 1);
    } else {
      assert words[..i] == words;
    }
  }

  /** The first half of `am_build`: afterwards the rows are exactly the prefixes of the
      keywords, each linked to its children, and column 256 names the keyword of the row. */
  method BuildTrie(chart: array2<int>, words: array<Text>, count: int) returns (ghost paths: seq<Text>)
    requires 0 <= count <= words.Length
    requires chart.Length0 == TotalLen(words[..count]) + 1 && chart.Length1 == MAX_CHARS + 1
    requires Blank(chart, 0)
    modifies chart
    ensures TrieTable(chart, words[..count], paths) && EndColumn(chart, words[..count], paths)
  {
    ghost var ws := words[..count];
    var k := 0;
    paths := [[]];
    assert forall c: byte :: TrieCell(paths, 0, c, chart[0, c]);
    for i := 0 to count
      invariant |paths| == k + 1 <= TotalLen(ws[..i]) + 1
      invariant TrieTable(chart, ws[..i], paths) && EndColumn(chart, ws[..i], paths)
    {
      k, paths := InsertWord(chart, words[i], i, k, ws, paths);
    }
    assert ws[..count] == ws;
  }
}
