/** The breadth-first pass that turns the trie into an automaton: `am_build`, second half. */
module FailureLinks {
  import opened Bits
  import opened Bytes
  import opened Keywords
  import opened Seqs
  import opened Trie

  /** Entry v of row n and column c is the automaton's successor state. */
  ghost predicate GotoCell(words: seq<Text>, paths: seq<Text>, n: int, c: byte, v: int)
    requires 0 <= n < |paths|
  {
    0 <= v < |paths| && paths[v] == Longest(words, paths[n] + [c])
  }

  /** Row n is n itself when it is the trie's root or any node already taken from the queue;
      the row now at the head of the queue is finished up to column i. */
  ghost predicate Finished(order: seq<int>, h: int, i: int, n: int, c: byte)
    requires 0 <= h <= |order|
  {
    n == 0 || n in order[..h] || (h < |order| && n == order[h] && c < i)
  }

  ghost predicate Table(chart: array2<int>, words: seq<Text>, paths: seq<Text>, order: seq<int>, h: int, i: int)
    requires 0 <= h <= |order|
    reads chart
  {
    && chart.Length1 == MAX_CHARS + 1 && |paths| <= chart.Length0
    && forall n, c: byte :: 0 <= n < |paths| ==>
      if Finished(order, h, i, n, c) then GotoCell(words, paths, n, c, chart[n, c])
      else TrieCell(paths, n, c, chart[n, c])
  }

  function Parent(s: Text): Text {
    if s == [] then [] else s[..|s| - 1]
  }

  ghost predicate Queued(paths: seq<Text>, order: seq<int>) {
    Distinct(order) && forall j :: 0 <= j < |order| ==> 0 < order[j] < |paths| && paths[order[j]] != []
  }

  /** Depths never decrease along the queue, and it runs at most one level ahead of its head. */
  ghost predicate Levels(paths: seq<Text>, order: seq<int>, h: int)
    requires Queued(paths, order)
  {
    && (forall j, l :: 0 <= j < l < |order| ==> |paths[order[j]]| <= |paths[order[l]]|)
    && (0 <= h < |order| ==> |paths[order[|order| - 1]]| <= |paths[order[h]]| + 1)
  }

  /** Node n belongs in the queue: it is a child of the root, of a node taken before,
      or a child below i of the node at the head. */
  ghost predicate Reached(paths: seq<Text>, order: seq<int>, h: int, i: int, n: int)
    requires 0 <= h <= |order| && 0 < n < |paths| && Queued(paths, order)
  {
    || |paths[n]| == 1
    || (exists j :: 0 <= j < h && paths[order[j]] == Parent(paths[n]))
    || (h < |order| && exists c: byte :: c < i && paths[n] == paths[order[h]] + [c])
  }

  /** order lists every node ever enqueued, the first h of them already taken. */
  ghost predicate Frontier(paths: seq<Text>, order: seq<int>, h: int, i: int) {
    && 0 <= h <= |order|
    && Queued(paths, order) && Levels(paths, order, h)
    && forall n :: 0 < n < |paths| ==> (n in order <==> Reached(paths, order, h, i, n))
  }

  /** Where the j-th node ever enqueued is kept. */
  ghost function Slot(j: nat, len: nat): (r: nat)
    ensures len > 0 ==> r < len
  {
    if len == 0 then 0 else if j < len then j else Slot(j - len, len)
  }

  /** Node n is kept at s beside its failure link. */
  ghost predicate Kept(queue: array<int>, fail: array<int>, words: seq<Text>, paths: seq<Text>, n: int, s: int)
    requires 0 < n < |paths| && paths[n] != [] && queue.Length == fail.Length
    reads queue, fail
  {
    0 <= s < queue.Length && queue[s] == n && 0 <= fail[s] < |paths| && paths[fail[s]] == Fail(words, paths[n])
  }

  /** The live part of the queue sits in the ring, each node beside its failure link. The arrays have a
      cell the source does not allocate, so that a write just behind the ring can be told. */
  ghost predicate Ring(queue: array<int>, fail: array<int>, words: seq<Text>, paths: seq<Text>, order: seq<int>, h: int)
    requires 0 <= h <= |order| && Queued(paths, order)
    reads queue, fail
  {
    && queue.Length == fail.Length >= 1 && (order == [] || queue.Length > 1)
    && forall j :: h <= j < |order| ==> Kept(queue, fail, words, paths, order[j], Slot(j, queue.Length - 1))
  }

  // ------------------------------------------------------------ facts about the frontier

  lemma ParentRow(words: seq<Text>, paths: seq<Text>, n: int) returns (m: int)
    requires Rows(words, paths) && 0 < n < |paths| && |paths[n]| > 1
    ensures 0 < m < |paths| && paths[m] == Parent(paths[n])
  {
    var p := Parent(paths[n]);
    var c := paths[n][|paths[n]| - 1];
    assert p + [c] == paths[n];
    PrefixOfNode(words, p, c);
    m :| 0 <= m < |paths| && paths[m] == p;
  }

  /** Every node shallower than the head has been taken from the queue. */
  lemma {:induction false} ShallowIsTaken(words: seq<Text>, paths: seq<Text>, order: seq<int>, h: int, i: int, n: int)
    requires Rows(words, paths) && Frontier(paths, order, h, i) && 0 < n < |paths|
    requires h < |order| ==> |paths[n]| < |paths[order[h]]|
    ensures n in order[..h]
    decreases |paths[n]|
  {
    assert paths[n] != paths[0];
    if n !in order {
      assert !Reached(paths, order, h, i, n);
      var m := ParentRow(words, paths, n);
      ShallowIsTaken(words, paths, order, h, i, m);
    }
  }

  function Range(k: nat): (s: set<int>)
    ensures forall x :: x in s <==> 0 < x <= k
    ensures |s| == k
  {
    if k == 0 then {} else Range(k - 1) + {k}
  }

  lemma {:induction false} DistinctFits(xs: seq<int>, s: set<int>)
    requires Distinct(xs) && forall j :: 0 <= j < |xs| ==> xs[j] in s
    ensures |xs| <= |s|
  {
    if xs != [] {
      var m := |xs| - 1;
      assert forall j :: 0 <= j < m ==> xs[..m][j] == xs[j];
      DistinctFits(xs[..m], s - {xs[m]});
    }
  }

  lemma {:induction false} SlotsApart(j: nat, l: nat, len: nat)
    requires j < l < j + len
    ensures Slot(j, len) != Slot(l, len)
  {
    if j >= len {
      SlotsApart(j - len, l - len, len);
    }
  }

  lemma {:induction false} SlotNext(j: nat, len: nat)
    requires 0 < len
    ensures Slot(j + 1, len) == (Slot(j, len) + 1) % len
  {
    if j >= len {
      SlotNext(j - len, len);
    }
  }

  // ---------------------------------------------------- lists that fill the queue with seeds

  /** The distinct first bytes of the keywords: one queue entry each before the pass starts. */
  ghost function FirstBytes(words: seq<Text>): set<byte> {
    set w | w in words && w != [] :: w[0]
  }

  /** The queue has one cell per keyword byte, and seeding must not fill it. */
  ghost predicate RingFits(words: seq<Text>) {
    TotalLen(words) == 0 || |FirstBytes(words)| < TotalLen(words)
  }

  lemma FirstBytesAreNodes(words: seq<Text>, c: byte)
    ensures c in FirstBytes(words) <==> IsNode(words, [c])
  {
    if IsNode(words, [c]) {
      var i :| 0 <= i < |words| && [c] <= words[i];
      assert words[i] in words;
    }
    if c in FirstBytes(words) {
      var w :| w in words && w != [] && w[0] == c;
      var i :| 0 <= i < |words| && words[i] == w;
      assert [c] <= words[i];
    }
  }

  lemma BoundedByOne(fb: set<byte>, i: byte)
    ensures (set c | c in fb && c < i + 1) == (set c | c in fb && c < i) + if i in fb then {i} else {}
    ensures |set c | c in fb && c < i + 1| == |set c | c in fb && c < i| + if i in fb then 1 else 0
  {
    assert (set c | c in fb && c < i + 1) == (set c | c in fb && c < i) + if i in fb then {i} else {};
  }

  /** No keyword is longer than one byte and no one-byte keyword is listed twice. */
  ghost predicate LoneBytes(words: seq<Text>) {
    && (forall i :: 0 <= i < |words| ==> |words[i]| <= 1)
    && forall i, j :: 0 <= i < j < |words| && words[i] == words[j] ==> words[i] == []
  }

  lemma FirstBytesOfLongerList(ws: seq<Text>, w: Text)
    ensures FirstBytes(ws + [w]) == FirstBytes(ws) + if w == [] then {} else {w[0]}
  {
    forall c ensures c in FirstBytes(ws + [w]) <==> c in FirstBytes(ws) + if w == [] then {} else {w[0]} {
      if w != [] && c == w[0] {
        assert w in ws + [w];
      }
      if x :| x in ws && x != [] && x[0] == c {
        assert x in ws + [w];
      }
    }
  }

  lemma LoneBytesOfLongerList(ws: seq<Text>, w: Text)
    ensures LoneBytes(ws + [w]) <==> LoneBytes(ws) && (w == [] || (|w| == 1 && w[0] !in FirstBytes(ws)))
  {
    var l := ws + [w];
    assert l[|ws|] == w && forall i :: 0 <= i < |ws| ==> l[i] == ws[i];
    forall x | LoneBytes(l) && x in ws && x != [] && w != [] ensures x[0] != w[0] {
      var i :| 0 <= i < |ws| && ws[i] == x;
      assert l[i] == x && |x| == 1;
    }
    if LoneBytes(ws) && |w| == 1 && w[0] !in FirstBytes(ws) {
      assert w !in ws;
    }
  }

  /** Seeding never overruns the queue; it fills it to the brim exactly for lists of lone bytes, and then
      `tail` has left the ring. */
  lemma {:induction false} FirstBytesFit(words: seq<Text>)
    ensures |FirstBytes(words)| <= TotalLen(words)
    ensures |FirstBytes(words)| == TotalLen(words) <==> LoneBytes(words)
  {
    if words != [] {
      var m := |words| - 1;
      var ws, w := words[..m], words[m];
      assert words == ws + [w];
      FirstBytesFit(ws);
      FirstBytesOfLongerList(ws, w);
      LoneBytesOfLongerList(ws, w);
    }
  }

  /** The automaton: every row gives, for every byte, the row of the longest suffix that is a node. */
  ghost predicate GotoTable(chart: array2<int>, words: seq<Text>, paths: seq<Text>)
    reads chart
  {
    && chart.Length1 == MAX_CHARS + 1 && |paths| <= chart.Length0
    && Rows(words, paths)
    && forall n, c: byte :: 0 <= n < |paths| ==> GotoCell(words, paths, n, c, chart[n, c])
  }

  // ----------------------------------------------------------------- the pass itself

  /** Everything the pass knows between two turns of its inner loop. */
  ghost predicate Progress(chart: array2<int>, queue: array<int>, fail: array<int>,
                           words: seq<Text>, paths: seq<Text>, order: seq<int>, h: int, i: int)
    reads chart, queue, fail
  {
    && Rows(words, paths) && Frontier(paths, order, h, i)
    && Table(chart, words, paths, order, h, i)
    && Ring(queue, fail, words, paths, order, h)
    && |paths| <= queue.Length
  }

  /** A child found at column i of the head was not enqueued before, and there is room for it. */
  lemma ChildIsNew(paths: seq<Text>, order: seq<int>, h: int, i: byte, m: int)
    requires Distinct(paths) && Frontier(paths, order, h, i) && h < |order|
    requires 0 < m < |paths| && paths[m] == paths[order[h]] + [i]
    ensures m !in order && Queued(paths, order + [m]) && |order| + 1 < |paths|
  {
    var u := paths[order[h]];
    assert Parent(paths[m]) == u;
    forall c: byte | c < i ensures paths[m] != u + [c] {
      assert (u + [c])[|u|] == c && (u + [i])[|u|] == i;
    }
    assert !Reached(paths, order, h, i, m);
    DistinctFits(order + [m], Range(|paths| - 1));
  }

  lemma ReachedGrows(paths: seq<Text>, order: seq<int>, h: int, i: byte, more: seq<int>, n: int)
    requires 0 <= h < |order| && Queued(paths, order) && Queued(paths, order + more) && 0 < n < |paths|
    ensures Reached(paths, order + more, h, i + 1, n) <==>
      Reached(paths, order, h, i, n) || paths[n] == paths[order[h]] + [i]
  {
    assert forall j :: 0 <= j <= h ==> (order + more)[j] == order[j];
  }

  /** ... so it joins the end of the frontier. */
  lemma FrontierGrows(paths: seq<Text>, order: seq<int>, h: int, i: byte, m: int)
    requires Distinct(paths) && Frontier(paths, order, h, i) && h < |order|
    requires 0 < m < |paths| && paths[m] == paths[order[h]] + [i]
    ensures Frontier(paths, order + [m], h, i + 1) && |order| + 1 < |paths|
  {
    ChildIsNew(paths, order, h, i, m);
    forall n | 0 < n < |paths|
      ensures n in order + [m] <==> Reached(paths, order + [m], h, i + 1, n)
    {
      ReachedGrows(paths, order, h, i, [m], n);
    }
    LevelsGrow(paths, order, h, m);
  }

  lemma LevelsGrow(paths: seq<Text>, order: seq<int>, h: int, m: int)
    requires 0 <= h < |order| && Queued(paths, order) && Levels(paths, order, h) && 0 <= m < |paths|
    requires Queued(paths, order + [m]) && |paths[m]| == |paths[order[h]]| + 1
    ensures Levels(paths, order + [m], h)
  {
    forall j, l | 0 <= j < l < |order| + 1
      ensures |paths[(order + [m])[j]]| <= |paths[(order + [m])[l]]|
    {
      if l == |order| && j < |order| - 1 {
        assert |paths[order[j]]| <= |paths[order[|order| - 1]]|;
      }
    }
  }

  lemma FrontierKeeps(paths: seq<Text>, order: seq<int>, h: int, i: byte)
    requires Frontier(paths, order, h, i) && h < |order|
    requires paths[order[h]] + [i] !in paths
    ensures Frontier(paths, order, h, i + 1)
  {
    assert order + [] == order;
    forall n | 0 < n < |paths|
      ensures n in order <==> Reached(paths, order, h, i + 1, n)
    {
      ReachedGrows(paths, order, h, i, [], n);
    }
  }

  lemma FrontierAdvances(paths: seq<Text>, order: seq<int>, h: int)
    requires Frontier(paths, order, h, MAX_CHARS) && h < |order|
    ensures Frontier(paths, order, h + 1, 0)
  {
    forall n | 0 < n < |paths|
      ensures Reached(paths, order, h + 1, 0, n) <==> Reached(paths, order, h, MAX_CHARS, n)
    {
      if paths[order[h]] == Parent(paths[n]) && paths[n] != [] {
        var c := paths[n][|paths[n]| - 1];
        assert paths[n] == paths[order[h]] + [c];
      }
    }
  }

  /** The failure state of the head is strictly shallower, its row is complete, and it
      holds what column i of the head's row needs. */
  lemma FailureRowIsReady(chart: array2<int>, words: seq<Text>, paths: seq<Text>, order: seq<int>,
                          h: int, i: byte, f: int)
    requires Rows(words, paths) && Frontier(paths, order, h, i) && Table(chart, words, paths, order, h, i)
    requires h < |order| && 0 <= f < |paths| && paths[f] == Fail(words, paths[order[h]])
    ensures f == 0 || f in order[..h]
    ensures var v := chart[f, i]; var u := order[h];
      && 0 <= v < |paths| && paths[v] == Fail(words, paths[u] + [i])
      && (paths[u] + [i] !in paths ==> GotoCell(words, paths, u, i, v))
    ensures TrieCell(paths, order[h], i, chart[order[h], i])
  {
    var u := order[h];
    if f > 0 {
      ShallowIsTaken(words, paths, order, h, i, f);
    }
    assert Finished(order, h, i, f, i);
    assert GotoCell(words, paths, f, i, chart[f, i]);
    FailStep(words, paths[u], i);
    assert !Finished(order, h, i, u, i);
  }

  /** After the rows are finished the pass may go on, but only over lone bytes: every row is the root's, and
      the queue, seeds and all, holds rows. */
  ghost predicate Refilling(chart: array2<int>, queue: array<int>, fail: array<int>, words: seq<Text>, paths: seq<Text>)
    reads chart, queue, fail
  {
    && LoneBytes(words) && GotoTable(chart, words, paths)
    && queue.Length == fail.Length == |FirstBytes(words)| + 1 >= 2
    && forall j :: 0 <= j < queue.Length - 1 ==> 0 <= queue[j] < |paths| && 0 <= fail[j] < |paths|
  }

  /** Every row of such a table sends the keyword bytes, and no others, away from the root. */
  lemma LoneRow(chart: array2<int>, words: seq<Text>, paths: seq<Text>, n: int, c: byte)
    requires LoneBytes(words) && GotoTable(chart, words, paths) && 0 <= n < |paths|
    ensures 0 <= chart[n, c] < |paths| && (chart[n, c] != 0 <==> c in FirstBytes(words))
  {
    assert GotoCell(words, paths, n, c, chart[n, c]);
    assert paths[n] in paths && paths[chart[n, c]] in paths;
    FirstBytesAreNodes(words, c);
    LoneLongest(words, paths[n], c);
  }

  lemma LoneLongest(words: seq<Text>, s: Text, c: byte)
    requires LoneBytes(words) && IsNode(words, s)
    ensures Longest(words, s + [c]) == if IsNode(words, [c]) then [c] else []
  {
    if s != [] {
      var i :| 0 <= i < |words| && s <= words[i];
      assert |words[i]| <= 1;
      forall j | 0 <= j < |words| ensures !(s + [c] <= words[j]) {
        assert |words[j]| <= 1;
      }
    }
    assert s + [c] == [] + [c] || (s + [c])[1..] == [c];
    assert [c][1..] == [];
  }

  /** Where `tail`, begun at start, is after k children. */
  ghost function Moved(start: int, k: nat, len: nat): int
    requires len > 0
  {
    if k == 0 then start else k % len
  }

  lemma MovedOn(start: int, k: nat, len: nat)
    requires len > 0 && (start == 0 || start == len)
    ensures (Moved(start, k, len) + 1) % len == Moved(start, k + 1, len)
    ensures 0 <= Moved(start, k, len) <= len
    ensures Moved(start, k, len) == len <==> start == len && k == 0
    ensures Moved(start, len, len) == 0
  {
    if k == 0 {
      if start == len {
        ModAdd(1, len);
      }
    } else {
      ModSucc(k, len);
    }
  }

  lemma ModAdd(k: nat, len: nat)
    requires len > 0
    ensures (len + k) % len == k % len
  {
    var q, r := k / len, k % len;
    assert k == q * len + r;
    assert len + k == (q + 1) * len + r;
    Quotient(len + k, len, q + 1, r);
  }

  lemma ModSucc(k: nat, len: nat)
    requires len > 0
    ensures (k % len + 1) % len == (k + 1) % len
  {
    var q, r := k / len, k % len;
    assert k == q * len + r;
    if r + 1 < len {
      Quotient(k + 1, len, q, r + 1);
      Quotient(r + 1, len, 0, r + 1);
    } else {
      assert k + 1 == (q + 1) * len;
      Quotient(k + 1, len, q + 1, 0);
      Quotient(len, len, 1, 0);
    }
  }

  ghost function Below(words: seq<Text>, i: int): nat {
    |set c | c in FirstBytes(words) && c < i|
  }

  /** What an entry at the tail does to the ring. */
  lemma RingGrows(queue: array<int>, fail: array<int>, words: seq<Text>, paths: seq<Text>, order: seq<int>, h: int,
                  m: int)
    requires 0 <= h <= |order| && Queued(paths, order) && Queued(paths, order + [m])
    requires queue.Length == fail.Length && |order| < queue.Length - 1 && 0 < m < |paths| && paths[m] != []
    requires forall j :: h <= j < |order| ==> Kept(queue, fail, words, paths, order[j], Slot(j, queue.Length - 1))
    requires Kept(queue, fail, words, paths, m, Slot(|order|, queue.Length - 1))
    ensures Ring(queue, fail, words, paths, order + [m], h)
  {
  }

  /** Entering a node at the tail leaves the live part of the ring as it was; spilled tells whether the cell
      behind the ring was written. */
  method Enqueue(queue: array<int>, fail: array<int>, tail: int, m: int, f: int,
                 ghost words: seq<Text>, ghost paths: seq<Text>, ghost order: seq<int>, ghost h: int)
    returns (tail': int, ghost spilled: bool)
    requires queue != fail && queue.Length == fail.Length >= 2 && 0 <= tail < queue.Length && 0 <= h <= |order|
    requires h < |order| ==>
      && Queued(paths, order) && Queued(paths, order + [m]) && Ring(queue, fail, words, paths, order, h)
      && |order| < queue.Length - 1 && tail == Slot(|order|, queue.Length - 1)
      && 0 < m < |paths| && paths[m] != [] && 0 <= f < |paths| && paths[f] == Fail(words, paths[m])
    modifies queue, fail
    ensures queue[tail] == m && fail[tail] == f
    ensures forall j :: 0 <= j < queue.Length && j != tail ==> queue[j] == old(queue[j]) && fail[j] == old(fail[j])
    ensures tail' == (tail + 1) % (queue.Length - 1) && spilled == (tail == queue.Length - 1)
    ensures h < |order| ==> Ring(queue, fail, words, paths, order + [m], h)
    ensures h < |order| ==> tail' == Slot(|order| + 1, queue.Length - 1) && !spilled
  {
    queue[tail] := m;
    fail[tail] := f;
    tail', spilled := (tail + 1) % (queue.Length - 1), tail == queue.Length - 1;
    if h < |order| {
      ghost var len := queue.Length - 1;
      forall j | h <= j < |order| ensures Kept(queue, fail, words, paths, order[j], Slot(j, len)) {
        SlotsApart(j, |order|, len);
        assert old(Kept(queue, fail, words, paths, order[j], Slot(j, len)));
      }
      SlotNext(|order|, len);
      RingGrows(queue, fail, words, paths, order, h, m);
    }
  }

  /** Row order[h] is being processed, finished below column i. */
  ghost predicate Pending(chart: array2<int>, queue: array<int>, fail: array<int>, words: seq<Text>, paths: seq<Text>,
                          order: seq<int>, h: int, i: int, head: int, tail: int)
    reads chart, queue, fail
  {
    && Progress(chart, queue, fail, words, paths, order, h, i)
    && h < |order| && queue.Length >= 2 && head == Slot(h, queue.Length - 1)
    && 0 <= tail < queue.Length && (|order| < queue.Length - 1 ==> tail == Slot(|order|, queue.Length - 1))
  }

  /** All rows are finished and lone bytes are being entered over again, those below column i in this turn. */
  ghost predicate Repeating(chart: array2<int>, queue: array<int>, fail: array<int>, words: seq<Text>, paths: seq<Text>,
                            i: int, start: int, tail: int)
    reads chart, queue, fail
  {
    && Refilling(chart, queue, fail, words, paths)
    && (start == 0 || start == queue.Length - 1) && tail == Moved(start, Below(words, i), queue.Length - 1)
  }

  /** A column with a child already holds the successor state. */
  lemma TableAfterChild(chart: array2<int>, words: seq<Text>, paths: seq<Text>, order: seq<int>,
                        h: int, i: byte, m: int)
    requires Rows(words, paths) && Queued(paths, order) && 0 <= h < |order| && Table(chart, words, paths, order, h, i)
    requires chart[order[h], i] == m && 0 < m < |paths| && paths[m] == paths[order[h]] + [i]
    ensures Table(chart, words, paths, order + [m], h, i + 1)
  {
    assert (order + [m])[..h] == order[..h];
    assert IsNode(words, paths[m]);
    assert GotoCell(words, paths, order[h], i, m);
  }

  lemma ChildReady(chart: array2<int>, queue: array<int>, fail: array<int>, words: seq<Text>, paths: seq<Text>,
                   order: seq<int>, h: int, i: byte, head: int, tail: int, m: int, f: int)
    requires Pending(chart, queue, fail, words, paths, order, h, i, head, tail)
    requires m == chart[queue[head], i] != 0 && f == chart[fail[head], i]
    ensures Frontier(paths, order + [m], h, i + 1) && Queued(paths, order + [m])
    ensures Table(chart, words, paths, order + [m], h, i + 1)
    ensures |order| < queue.Length - 1 && tail == Slot(|order|, queue.Length - 1)
    ensures 0 < m < |paths| && paths[m] != [] && 0 <= f < |paths| && paths[f] == Fail(words, paths[m])
  {
    FailureRowIsReady(chart, words, paths, order, h, i, fail[head]);
    FrontierGrows(paths, order, h, i, m);
    TableAfterChild(chart, words, paths, order, h, i, m);
  }

  lemma BelowNext(words: seq<Text>, i: byte)
    ensures Below(words, i + 1) == Below(words, i) + if i in FirstBytes(words) then 1 else 0
  {
    hide FirstBytes;
    BoundedByOne(FirstBytes(words), i);
  }

  lemma LoneChildReady(chart: array2<int>, queue: array<int>, fail: array<int>, words: seq<Text>, paths: seq<Text>,
                       head: int, i: byte, start: int, tail: int)
    requires Repeating(chart, queue, fail, words, paths, i, start, tail) && 0 <= head < queue.Length - 1
    ensures 0 <= chart[queue[head], i] < |paths| && (chart[queue[head], i] != 0 <==> i in FirstBytes(words))
    ensures 0 <= chart[fail[head], i] < |paths| && (chart[fail[head], i] != 0 <==> i in FirstBytes(words))
    ensures Below(words, i + 1) == Below(words, i) + if i in FirstBytes(words) then 1 else 0
    ensures var len := queue.Length - 1;
      && 0 <= tail <= len && (tail == len <==> start == len && Below(words, i) == 0)
      && (tail + 1) % len == Moved(start, Below(words, i) + 1, len)
  {
    hide LoneBytes, GotoTable, FirstBytes, Below, Moved;
    LoneRow(chart, words, paths, queue[head], i);
    LoneRow(chart, words, paths, fail[head], i);
    BelowNext(words, i);
    MovedOn(start, Below(words, i), queue.Length - 1);
  }

  lemma ChildPending(chart: array2<int>, queue: array<int>, fail: array<int>, words: seq<Text>, paths: seq<Text>,
                     order: seq<int>, h: int, i: byte, head: int, tail: int, m: int)
    requires Rows(words, paths) && |paths| <= queue.Length && 0 <= h < |order| && |order| + 1 <= queue.Length - 1
    requires Frontier(paths, order + [m], h, i + 1) && Table(chart, words, paths, order + [m], h, i + 1)
    requires Ring(queue, fail, words, paths, order + [m], h)
    requires head == Slot(h, queue.Length - 1) && tail == Slot(|order| + 1, queue.Length - 1)
    ensures Pending(chart, queue, fail, words, paths, order + [m], h, i + 1, head, tail)
  {
  }

  lemma PendingParts(chart: array2<int>, queue: array<int>, fail: array<int>, words: seq<Text>, paths: seq<Text>,
                     order: seq<int>, h: int, i: int, head: int, tail: int)
    requires Pending(chart, queue, fail, words, paths, order, h, i, head, tail)
    ensures Rows(words, paths) && |paths| <= queue.Length && 0 <= h < |order| && head == Slot(h, queue.Length - 1)
    ensures Queued(paths, order) && Ring(queue, fail, words, paths, order, h) && 0 <= tail < queue.Length
  {
  }

  lemma ChildRepeating(chart: array2<int>, queue: array<int>, fail: array<int>, words: seq<Text>, paths: seq<Text>,
                       i: byte, start: int, tail: int, tail': int)
    requires LoneBytes(words) && GotoTable(chart, words, paths)
    requires queue.Length == fail.Length == |FirstBytes(words)| + 1 >= 2
    requires forall j :: 0 <= j < queue.Length - 1 && j != tail ==> 0 <= queue[j] < |paths| && 0 <= fail[j] < |paths|
    requires 0 <= tail < queue.Length && 0 <= queue[tail] < |paths| && 0 <= fail[tail] < |paths|
    requires (start == 0 || start == queue.Length - 1) && tail' == Moved(start, Below(words, i + 1), queue.Length - 1)
    ensures Repeating(chart, queue, fail, words, paths, i + 1, start, tail')
  {
  }

  lemma RepeatingParts(chart: array2<int>, queue: array<int>, fail: array<int>, words: seq<Text>, paths: seq<Text>,
                       i: int, start: int, tail: int)
    requires Repeating(chart, queue, fail, words, paths, i, start, tail)
    ensures LoneBytes(words) && GotoTable(chart, words, paths)
    ensures queue.Length == fail.Length == |FirstBytes(words)| + 1 >= 2
    ensures forall j :: 0 <= j < queue.Length - 1 ==> 0 <= queue[j] < |paths| && 0 <= fail[j] < |paths|
    ensures start == 0 || start == queue.Length - 1
  {
  }

  /** A column with a child: the child is entered at the tail, beside its failure link. */
  method EnterChild(chart: array2<int>, queue: array<int>, fail: array<int>, head: int, tail: int, i: byte,
                    ghost words: seq<Text>, ghost paths: seq<Text>, ghost order: seq<int>,
                    ghost h: int, ghost start: int)
    returns (tail': int, ghost order': seq<int>, ghost spilled: bool)
    requires queue != fail && queue.Length == fail.Length >= 2 && 0 <= head < queue.Length - 1 && 0 <= h <= |order|
    requires h < |order| ==> Pending(chart, queue, fail, words, paths, order, h, i, head, tail)
    requires h == |order| ==> Repeating(chart, queue, fail, words, paths, i, start, tail)
    requires 0 <= queue[head] < chart.Length0 && chart.Length1 == MAX_CHARS + 1 && chart[queue[head], i] != 0
    modifies queue, fail
    ensures h < |order| ==> Pending(chart, queue, fail, words, paths, order', h, i + 1, head, tail') && !spilled
    ensures h < |order| ==> |order'| == |order| + 1 && order < order' && tail' == Slot(|order'|, queue.Length - 1)
    ensures h == |order| ==> order' == order && Repeating(chart, queue, fail, words, paths, i + 1, start, tail')
    ensures h == |order| ==> spilled == (start == queue.Length - 1 && Below(words, i) == 0)
    ensures h == |order| ==> Below(words, i + 1) == Below(words, i) + 1
  {
    var tmp := chart[queue[head], i];
    if h < |order| {
      PendingParts(chart, queue, fail, words, paths, order, h, i, head, tail);
      ChildReady(chart, queue, fail, words, paths, order, h, i, head, tail, tmp, chart[fail[head], i]);
    } else {
      RepeatingParts(chart, queue, fail, words, paths, i, start, tail);
      LoneChildReady(chart, queue, fail, words, paths, head, i, start, tail);
    }
    hide *;
    tail', spilled := Enqueue(queue, fail, tail, tmp, chart[fail[head], i], words, paths, order, h);
    if h < |order| {
      order' := order + [tmp];
      ChildPending(chart, queue, fail, words, paths, order, h, i, head, tail', tmp);
    } else {
      order' := order;
      ChildRepeating(chart, queue, fail, words, paths, i, start, tail, tail');
    }
  }

  lemma HoleReady(chart: array2<int>, queue: array<int>, fail: array<int>, words: seq<Text>, paths: seq<Text>,
                  order: seq<int>, h: int, i: byte, head: int, tail: int)
    requires Pending(chart, queue, fail, words, paths, order, h, i, head, tail)
    requires chart[queue[head], i] == 0
    ensures Frontier(paths, order, h, i + 1) && queue[head] == order[h]
    ensures 0 <= fail[head] < |paths| && GotoCell(words, paths, order[h], i, chart[fail[head], i])
  {
    FailureRowIsReady(chart, words, paths, order, h, i, fail[head]);
    FrontierKeeps(paths, order, h, i);
  }

  /** A column without a child is filled from the failure state's row. */
  method FillHole(chart: array2<int>, queue: array<int>, fail: array<int>, head: int, tail: int, i: byte,
                  ghost words: seq<Text>, ghost paths: seq<Text>, ghost order: seq<int>, ghost h: int, ghost start: int)
    requires queue != fail && queue.Length == fail.Length >= 2 && 0 <= head < queue.Length - 1 && 0 <= h <= |order|
    requires h < |order| ==> Pending(chart, queue, fail, words, paths, order, h, i, head, tail)
    requires h == |order| ==> Repeating(chart, queue, fail, words, paths, i, start, tail)
    requires 0 <= queue[head] < chart.Length0 && chart.Length1 == MAX_CHARS + 1 && chart[queue[head], i] == 0
    modifies chart
    ensures h < |order| ==> Pending(chart, queue, fail, words, paths, order, h, i + 1, head, tail)
    ensures h == |order| ==> Repeating(chart, queue, fail, words, paths, i + 1, start, tail)
    ensures h == |order| ==> Below(words, i + 1) == Below(words, i)
    ensures forall n :: 0 <= n < chart.Length0 ==> chart[n, MAX_CHARS] == old(chart[n, MAX_CHARS])
  {
    if h < |order| {
      HoleReady(chart, queue, fail, words, paths, order, h, i, head, tail);
    } else {
      LoneChildReady(chart, queue, fail, words, paths, head, i, start, tail);
    }
    hide Queued, Levels, Reached, Distinct, Fail, Longest, IsNode, Frontier, Rows, LoneBytes, FirstBytes, Moved, Below;
    var tmp := chart[fail[head], i];
    chart[queue[head], i] := tmp;
  }

  /** The queue is as it was, or its new end is where the ring has it. */
  ghost predicate Entered(order: seq<int>, order': seq<int>, tail: int, tail': int, len: int) {
    order <= order' && len >= 0 && if order' == order then tail' == tail else tail' == Slot(|order'|, len)
  }

  lemma HeadIsRow(chart: array2<int>, queue: array<int>, fail: array<int>, words: seq<Text>, paths: seq<Text>,
                  order: seq<int>, h: int, i: int, head: int, start: int, tail: int)
    requires queue.Length == fail.Length >= 2 && 0 <= head < queue.Length - 1 && 0 <= h <= |order|
    requires h < |order| ==> Pending(chart, queue, fail, words, paths, order, h, i, head, tail)
    requires h == |order| ==> Repeating(chart, queue, fail, words, paths, i, start, tail)
    ensures 0 <= queue[head] < chart.Length0 && chart.Length1 == MAX_CHARS + 1 == 257
  {
  }

  /** One turn of the inner loop. */
  method FillCell(chart: array2<int>, queue: array<int>, fail: array<int>, head: int, tail: int, i: byte,
                  ghost words: seq<Text>, ghost paths: seq<Text>, ghost order: seq<int>, ghost h: int, ghost start: int)
    returns (tail': int, ghost order': seq<int>, ghost spilled: bool)
    requires queue != fail && queue.Length == fail.Length >= 2 && 0 <= head < queue.Length - 1 && 0 <= h <= |order|
    requires h < |order| ==> Pending(chart, queue, fail, words, paths, order, h, i, head, tail)
    requires h == |order| ==> Repeating(chart, queue, fail, words, paths, i, start, tail)
    modifies chart, queue, fail
    ensures forall n :: 0 <= n < chart.Length0 ==> chart[n, MAX_CHARS] == old(chart[n, MAX_CHARS])
    ensures h < |order| ==> Pending(chart, queue, fail, words, paths, order', h, i + 1, head, tail') && !spilled
    ensures h < |order| ==> Entered(order, order', tail, tail', queue.Length - 1)
    ensures h < |order| && order' == order ==>
      forall j :: 0 <= j < queue.Length ==> queue[j] == old(queue[j]) && fail[j] == old(fail[j])
    ensures h == |order| ==> order' == order && Repeating(chart, queue, fail, words, paths, i + 1, start, tail')
    ensures h == |order| ==> spilled == (start == queue.Length - 1 && Below(words, i) == 0 && Below(words, i + 1) > 0)
  {
    HeadIsRow(chart, queue, fail, words, paths, order, h, i, head, start, tail);
    hide *;
    if chart[queue[head], i] != 0 {
      tail', order', spilled := EnterChild(chart, queue, fail, head, tail, i, words, paths, order, h, start);
    } else {
      FillHole(chart, queue, fail, head, tail, i, words, paths, order, h, start);
      tail', order', spilled := tail, order, false;
    }
  }

  lemma RowDone(chart: array2<int>, queue: array<int>, fail: array<int>, words: seq<Text>, paths: seq<Text>,
                order: seq<int>, h: int, head: int, tail: int)
    requires Pending(chart, queue, fail, words, paths, order, h, MAX_CHARS, head, tail)
    ensures Progress(chart, queue, fail, words, paths, order, h + 1, 0)
  {
    FrontierAdvances(paths, order, h);
    TableAdvances(chart, words, paths, order, h);
  }

  lemma RepeatDone(chart: array2<int>, queue: array<int>, fail: array<int>, words: seq<Text>, paths: seq<Text>,
                   start: int, tail: int)
    requires Repeating(chart, queue, fail, words, paths, MAX_CHARS, start, tail)
    ensures Refilling(chart, queue, fail, words, paths) && tail == 0 && Below(words, MAX_CHARS) > 0
  {
    assert (set c | c in FirstBytes(words) && c < MAX_CHARS) == FirstBytes(words);
    MovedOn(start, Below(words, MAX_CHARS), queue.Length - 1);
  }

  lemma NothingBelow(words: seq<Text>)
    ensures Below(words, 0) == 0
  {
    assert (set c | c in FirstBytes(words) && c < 0) == {};
  }

  lemma BelowGrows(words: seq<Text>, i: byte)
    ensures Below(words, i) <= Below(words, i + 1)
  {
    BoundedByOne(FirstBytes(words), i);
  }

  /** The inner loop: finish the row at the head and enqueue its children. */
  method FillRow(chart: array2<int>, queue: array<int>, fail: array<int>, head: int, tail: int,
                 ghost words: seq<Text>, ghost paths: seq<Text>, ghost order: seq<int>, ghost h: int)
    returns (tail': int, ghost order': seq<int>, ghost spilled: bool)
    requires queue != fail && queue.Length == fail.Length >= 2 && 0 <= head < queue.Length - 1 && 0 <= h <= |order|
    requires h < |order| ==> Pending(chart, queue, fail, words, paths, order, h, 0, head, tail)
    requires h == |order| ==> Refilling(chart, queue, fail, words, paths) && (tail == 0 || tail == queue.Length - 1)
    modifies chart, queue, fail
    ensures forall n :: 0 <= n < chart.Length0 ==> chart[n, MAX_CHARS] == old(chart[n, MAX_CHARS])
    ensures h < |order| ==> Progress(chart, queue, fail, words, paths, order', h + 1, 0) && !spilled
    ensures h < |order| ==> Entered(order, order', tail, tail', queue.Length - 1)
    ensures h < |order| && order' == order ==>
      forall j :: 0 <= j < queue.Length ==> queue[j] == old(queue[j]) && fail[j] == old(fail[j])
    ensures h == |order| ==> order' == order && Refilling(chart, queue, fail, words, paths) && tail' == 0
    ensures h == |order| ==> spilled == (tail == queue.Length - 1)
  {
    tail', order', spilled := tail, order, false;
    NothingBelow(words);
    HeadIsRow(chart, queue, fail, words, paths, order, h, 0, head, tail, tail);
    hide Progress, Refilling, Below, Slot;
    for i := 0 to MAX_CHARS
      invariant h < |order| ==> Pending(chart, queue, fail, words, paths, order', h, i, head, tail') && !spilled
      invariant h < |order| ==> Entered(order, order', tail, tail', queue.Length - 1)
      invariant h < |order| && order' == order ==>
        forall j :: 0 <= j < queue.Length ==> queue[j] == old(queue[j]) && fail[j] == old(fail[j])
      invariant h == |order| ==> order' == order && Repeating(chart, queue, fail, words, paths, i, tail, tail')
      invariant h == |order| ==> spilled == (tail == queue.Length - 1 && Below(words, i) > 0)
      invariant forall n :: 0 <= n < chart.Length0 ==> chart[n, MAX_CHARS] == old(chart[n, MAX_CHARS])
    {
      BelowGrows(words, i);
      ghost var now;
      tail', order', now := FillCell(chart, queue, fail, head, tail', i, words, paths, order',
        if h < |order| then h else |order'|, tail);
      spilled := spilled || now;
    }
    if h < |order| {
      RowDone(chart, queue, fail, words, paths, order', h, head, tail');
    } else {
      RepeatDone(chart, queue, fail, words, paths, tail, tail');
    }
  }

  lemma TableAdvances(chart: array2<int>, words: seq<Text>, paths: seq<Text>, order: seq<int>, h: int)
    requires 0 <= h < |order| && Table(chart, words, paths, order, h, MAX_CHARS)
    ensures Table(chart, words, paths, order, h + 1, 0)
  {
    assert order[..h + 1] == order[..h] + [order[h]];
    forall n, c: byte | 0 <= n < |paths|
      ensures Finished(order, h + 1, 0, n, c) <==> Finished(order, h, MAX_CHARS, n, c)
    {
    }
  }

  /** What the queue holds while the root's children below i have been entered. */
  ghost predicate Seeded(words: seq<Text>, paths: seq<Text>, order: seq<int>, i: int) {
    && Queued(paths, order)
    && |order| == |set c | c in FirstBytes(words) && c < i|
    && forall n :: 0 < n < |paths| ==> (n in order <==> exists c: byte :: c < i && paths[n] == [c])
  }

  lemma SeedOne(words: seq<Text>, paths: seq<Text>, order: seq<int>, i: byte, v: int)
    requires Rows(words, paths) && Seeded(words, paths, order, i) && TrieCell(paths, 0, i, v)
    ensures if v == 0 then Seeded(words, paths, order, i + 1) else Seeded(words, paths, order + [v], i + 1)
    ensures v != 0 ==> |order| < |FirstBytes(words)|
  {
    assert paths[0] + [i] == [i];
    FirstBytesAreNodes(words, i);
    var fb := FirstBytes(words);
    BoundedByOne(fb, i);
    if v != 0 {
      assert forall c: byte :: c < i ==> [c][0] != [i][0];
      assert v !in order;
      SubsetSmaller((set c | c in fb && c < i + 1), fb);
    }
  }

  lemma {:induction false} SubsetSmaller<T>(a: set<T>, b: set<T>)
    requires a <= b
    ensures |a| <= |b|
  {
    if x :| x in a {
      SubsetSmaller(a - {x}, b - {x});
    }
  }

  /** `am_build`'s loop that enters the root's children: the queue ends up holding exactly
      one entry per distinct first byte, all with the root as failure state. */
  method SeedQueue(chart: array2<int>, queue: array<int>, fail: array<int>,
                   ghost words: seq<Text>, ghost paths: seq<Text>)
    returns (tail: int, ghost order: seq<int>)
    requires TrieTable(chart, words, paths)
    requires queue != fail && queue.Length == fail.Length && |FirstBytes(words)| < queue.Length
    modifies queue, fail
    ensures tail == |order| == |FirstBytes(words)| && Seeded(words, paths, order, MAX_CHARS)
    ensures forall j :: 0 <= j < tail ==> queue[j] == order[j] && fail[j] == 0
  {
    assert TrieRow(chart, paths, 0);
    tail, order := 0, [];
    for i := 0 to MAX_CHARS
      invariant tail == |order| < queue.Length && Seeded(words, paths, order, i)
      invariant forall j :: 0 <= j < tail ==> queue[j] == order[j] && fail[j] == 0
    {
      assert TrieCell(paths, 0, i, chart[0, i]);
      SeedOne(words, paths, order, i, chart[0, i]);
      if chart[0, i] != 0 {
        fail[tail] := 0;
        queue[tail] := chart[0, i];
        tail, order := tail + 1, order + [chart[0, i]];
      }
    }
    assert (set c | c in FirstBytes(words) && c < MAX_CHARS) == FirstBytes(words);
  }

  lemma SeedIsFrontier(words: seq<Text>, paths: seq<Text>, order: seq<int>)
    requires Rows(words, paths) && Seeded(words, paths, order, MAX_CHARS)
    ensures Frontier(paths, order, 0, 0)
  {
    forall n | 0 < n < |paths| ensures n in order <==> Reached(paths, order, 0, 0, n) {
      if |paths[n]| == 1 {
        assert paths[n] == [paths[n][0]];
      }
    }
  }

  /** The root's trie row is already its automaton row. */
  lemma SeedTable(chart: array2<int>, words: seq<Text>, paths: seq<Text>, order: seq<int>)
    requires TrieTable(chart, words, paths) && Queued(paths, order)
    ensures Table(chart, words, paths, order, 0, 0)
  {
    forall n, c: byte | 0 <= n < |paths|
      ensures if n == 0 then GotoCell(words, paths, n, c, chart[n, c]) else TrieCell(paths, n, c, chart[n, c])
    {
      assert TrieRow(chart, paths, n);
      assert TrieCell(paths, n, c, chart[n, c]);
      if n == 0 && chart[n, c] == 0 {
        assert ([] + [c])[1..] == [];
      }
    }
  }

  lemma SeedRing(queue: array<int>, fail: array<int>, words: seq<Text>, paths: seq<Text>, order: seq<int>)
    requires Rows(words, paths) && Seeded(words, paths, order, MAX_CHARS)
    requires |order| < queue.Length == fail.Length
    requires forall j :: 0 <= j < |order| ==> queue[j] == order[j] && fail[j] == 0
    ensures Ring(queue, fail, words, paths, order, 0)
  {
    forall j | 0 <= j < |order| ensures Fail(words, paths[order[j]]) == [] {
      assert order[j] in order;
    }
  }

  /** order is a complete breadth-first tour: every row but the root's, once, by non-decreasing depth. */
  ghost predicate BreadthFirst(paths: seq<Text>, order: seq<int>) {
    && Queued(paths, order) && Levels(paths, order, |order|)
    && forall n :: 0 < n < |paths| ==> n in order
  }

  lemma TourDone(chart: array2<int>, words: seq<Text>, paths: seq<Text>, order: seq<int>)
    requires Rows(words, paths) && Frontier(paths, order, |order|, 0) && Table(chart, words, paths, order, |order|, 0)
    ensures BreadthFirst(paths, order) && GotoTable(chart, words, paths)
  {
    assert order[..|order|] == order;
    forall n | 0 < n < |paths| ensures n in order {
      ShallowIsTaken(words, paths, order, |order|, 0, n);
    }
    forall n, c: byte | 0 <= n < |paths| ensures GotoCell(words, paths, n, c, chart[n, c]) {
      assert Finished(order, |order|, 0, n, c);
    }
  }

  lemma TakenFits(paths: seq<Text>, order: seq<int>)
    requires |paths| >= 1 && Queued(paths, order)
    ensures |order| < |paths|
  {
    DistinctFits(order, Range(|paths| - 1));
  }

  /** One turn of the outer loop is about to start, after h others. Once all rows are finished only a list that
      filled the queue with seeds has turns to come. */
  ghost predicate Turning(chart: array2<int>, queue: array<int>, fail: array<int>, words: seq<Text>, paths: seq<Text>,
                          order: seq<int>, h: int, head: int, tail: int, spilled: bool)
    reads chart, queue, fail
  {
    && queue.Length == fail.Length == TotalLen(words) + 1 && |paths| <= queue.Length && 0 <= h
    && head == Slot(h, queue.Length - 1)
    && if RingFits(words)
       then h <= |order| && Progress(chart, queue, fail, words, paths, order, h, 0) && !spilled
         && tail == Slot(|order|, queue.Length - 1) && (|order| - h < queue.Length - 1 || queue.Length == 1)
       else |order| == queue.Length - 1 && LoneTurn(chart, queue, fail, words, paths, order, h, tail, spilled)
  }

  ghost predicate LoneTurn(chart: array2<int>, queue: array<int>, fail: array<int>, words: seq<Text>, paths: seq<Text>,
                           order: seq<int>, h: int, tail: int, spilled: bool)
    requires 0 <= h && queue.Length == fail.Length == |order| + 1
    reads chart, queue, fail
  {
    if h <= |order|
    then tail == |order| && !spilled && Progress(chart, queue, fail, words, paths, order, h, 0)
      && forall j :: 0 <= j < |order| ==> queue[j] == order[j] && fail[j] == 0
    else h <= 2 * |order| && tail == 0 && spilled && BreadthFirst(paths, order)
         && Refilling(chart, queue, fail, words, paths)
  }

  lemma TurningStarts(chart: array2<int>, queue: array<int>, fail: array<int>, words: seq<Text>, paths: seq<Text>,
                      order: seq<int>)
    requires TrieTable(chart, words, paths) && queue.Length == fail.Length == TotalLen(words) + 1 >= |paths|
    requires |order| == |FirstBytes(words)| < queue.Length && Seeded(words, paths, order, MAX_CHARS)
    requires forall j :: 0 <= j < |order| ==> queue[j] == order[j] && fail[j] == 0
    ensures Turning(chart, queue, fail, words, paths, order, 0, 0, |order|, false)
  {
    FirstBytesFit(words);
    SeedIsFrontier(words, paths, order);
    SeedTable(chart, words, paths, order);
    SeedRing(queue, fail, words, paths, order);
    hide Frontier, Table, Ring, Rows, FirstBytes, Seeded, TrieTable;
  }

  lemma TurnReady(chart: array2<int>, queue: array<int>, fail: array<int>, words: seq<Text>, paths: seq<Text>,
                  order: seq<int>, h: int, head: int, tail: int, spilled: bool)
    requires Turning(chart, queue, fail, words, paths, order, h, head, tail, spilled) && head != tail
    ensures queue.Length == fail.Length == TotalLen(words) + 1 >= 2 && |paths| <= queue.Length && 0 <= h
    ensures 0 <= head < queue.Length - 1 && head == Slot(h, queue.Length - 1)
    ensures RingFits(words) ==> h < |order| && !spilled && tail == Slot(|order|, queue.Length - 1)
    ensures !RingFits(words) && h < |order| ==> !spilled && tail == |order| == queue.Length - 1
    ensures !RingFits(words) && h < |order| ==> forall j :: 0 <= j < |order| ==> queue[j] == order[j] && fail[j] == 0
    ensures h > |order| ==> spilled
    ensures h < |order| ==> Pending(chart, queue, fail, words, paths, order, h, 0, head, tail)
    ensures h >= |order| ==> !RingFits(words) && Refilling(chart, queue, fail, words, paths) && h < 2 * |order|
    ensures h >= |order| ==> |order| == queue.Length - 1 && BreadthFirst(paths, order)
    ensures h >= |order| ==> tail == if h == |order| then queue.Length - 1 else 0
  {
    hide Frontier, Table, Rows;
    if queue.Length > 1 {
      SlotBounds(h, queue.Length - 1);
    }
    if h == |order| && !RingFits(words) {
      LoneDone(chart, queue, fail, words, paths, order);
    }
  }

  lemma SlotBounds(j: nat, len: nat)
    requires len > 0
    ensures Slot(j, len) < len && Slot(2 * len, len) == 0 && (j < len ==> Slot(j, len) == j)
    ensures len < j < 2 * len ==> Slot(j, len) > 0
  {
    assert Slot(len, len) == 0;
  }

  lemma LoneDone(chart: array2<int>, queue: array<int>, fail: array<int>, words: seq<Text>, paths: seq<Text>,
                 order: seq<int>)
    requires !RingFits(words) && queue.Length == fail.Length == TotalLen(words) + 1 == |order| + 1
    requires Progress(chart, queue, fail, words, paths, order, |order|, 0)
    requires forall j :: 0 <= j < |order| ==> queue[j] == order[j] && fail[j] == 0
    ensures Refilling(chart, queue, fail, words, paths) && BreadthFirst(paths, order)
  {
    FirstBytesFit(words);
    TourDone(chart, words, paths, order);
  }

  /** A finished row's children found room: the queue never holds every cell of the ring. */
  lemma FitsTurned(chart: array2<int>, queue: array<int>, fail: array<int>, words: seq<Text>, paths: seq<Text>,
                   order: seq<int>, order': seq<int>, h: int, tail: int, tail': int)
    requires queue.Length == fail.Length == TotalLen(words) + 1 >= 2 && RingFits(words) && 0 <= h < |order|
    requires Progress(chart, queue, fail, words, paths, order', h + 1, 0)
    requires Entered(order, order', tail, tail', queue.Length - 1) && tail == Slot(|order|, queue.Length - 1)
    ensures |order| <= |order'| < |paths|
    ensures Turning(chart, queue, fail, words, paths, order', h + 1, Slot(h + 1, queue.Length - 1), tail', false)
  {
    TakenFits(paths, order');
    hide Frontier, Table, Ring, Rows, RingFits;
  }

  /** Lone bytes have no children, so the queue of seeds is left alone until every row is finished. */
  lemma LoneTurned(chart: array2<int>, queue: array<int>, fail: array<int>, words: seq<Text>, paths: seq<Text>,
                   order: seq<int>, order': seq<int>, h: int, tail: int, tail': int)
    requires queue.Length == fail.Length == TotalLen(words) + 1 == |order| + 1 >= 2
    requires !RingFits(words) && 0 <= h < |order|
    requires Progress(chart, queue, fail, words, paths, order', h + 1, 0) && tail == |order|
    requires Entered(order, order', tail, tail', queue.Length - 1)
    requires order' == order ==> forall j :: 0 <= j < |order| ==> queue[j] == order[j] && fail[j] == 0
    ensures order' == order
    ensures Turning(chart, queue, fail, words, paths, order, h + 1, Slot(h + 1, queue.Length - 1), tail', false)
  {
    TakenFits(paths, order');
    hide Frontier, Table, Ring, Rows, RingFits;
  }

  lemma RepeatTurned(chart: array2<int>, queue: array<int>, fail: array<int>, words: seq<Text>, paths: seq<Text>,
                     order: seq<int>, h: int)
    requires queue.Length == fail.Length == TotalLen(words) + 1 == |order| + 1 >= 2 && !RingFits(words)
    requires |paths| <= queue.Length && |order| <= h < 2 * |order|
    requires BreadthFirst(paths, order) && Refilling(chart, queue, fail, words, paths)
    ensures Turning(chart, queue, fail, words, paths, order, h + 1, Slot(h + 1, queue.Length - 1), 0, true)
  {
  }

  /** One turn of the outer loop. */
  method Turn(chart: array2<int>, queue: array<int>, fail: array<int>, head: int, tail: int,
              ghost words: seq<Text>, ghost paths: seq<Text>, ghost order: seq<int>, ghost h: int, ghost spilled: bool)
    returns (head': int, tail': int, ghost order': seq<int>, ghost spilled': bool)
    requires queue != fail && head != tail
    requires Turning(chart, queue, fail, words, paths, order, h, head, tail, spilled)
    modifies chart, queue, fail
    ensures Turning(chart, queue, fail, words, paths, order', h + 1, head', tail', spilled')
    ensures if RingFits(words) then h < |order| <= |order'| < |paths| else order' == order && h < 2 * |order|
    ensures forall n :: 0 <= n < chart.Length0 ==> chart[n, MAX_CHARS] == old(chart[n, MAX_CHARS])
  {
    hide *;
    TurnReady(chart, queue, fail, words, paths, order, h, head, tail, spilled);
    ghost var now;
    tail', order', now := FillRow(chart, queue, fail, head, tail, words, paths, order,
      if h < |order| then h else |order|);
    head', spilled' := (head + 1) % (queue.Length - 1), spilled || now;
    SlotNext(h, queue.Length - 1);
    if RingFits(words) {
      FitsTurned(chart, queue, fail, words, paths, order, order', h, tail, tail');
    } else if h < |order| {
      LoneTurned(chart, queue, fail, words, paths, order, order', h, tail, tail');
    } else {
      RepeatTurned(chart, queue, fail, words, paths, order, h);
    }
  }

  lemma TurningEnds(chart: array2<int>, queue: array<int>, fail: array<int>, words: seq<Text>, paths: seq<Text>,
                    order: seq<int>, h: int, head: int, spilled: bool)
    requires Turning(chart, queue, fail, words, paths, order, h, head, head, spilled)
    ensures GotoTable(chart, words, paths) && BreadthFirst(paths, order)
    ensures spilled <==> !RingFits(words)
    ensures h == if RingFits(words) then |order| else 2 * |order|
  {
    var len := queue.Length - 1;
    hide Progress, Refilling, BreadthFirst, GotoTable;
    if RingFits(words) {
      if h < |order| {
        SlotsApart(h, |order|, len);
      }
    } else {
      SlotBounds(h, len);
    }
    EndOfProgress(chart, queue, fail, words, paths, order);
    EndOfRefilling(chart, queue, fail, words, paths);
  }

  lemma EndOfProgress(chart: array2<int>, queue: array<int>, fail: array<int>, words: seq<Text>, paths: seq<Text>,
                      order: seq<int>)
    ensures Progress(chart, queue, fail, words, paths, order, |order|, 0) ==>
      GotoTable(chart, words, paths) && BreadthFirst(paths, order)
  {
    if Progress(chart, queue, fail, words, paths, order, |order|, 0) {
      TourDone(chart, words, paths, order);
    }
  }

  lemma EndOfRefilling(chart: array2<int>, queue: array<int>, fail: array<int>, words: seq<Text>, paths: seq<Text>)
    ensures Refilling(chart, queue, fail, words, paths) ==> GotoTable(chart, words, paths)
  {
  }

  /** `am_build`'s second half. The tour is breadth-first and complete and the trie becomes the automaton.
      The ring never overwrites a live entry (that is part of Progress); the cell behind it, which the source
      does not allocate, is written if and only if the seeds fill it. Column 256 is not written. */
  method LinkFailures(chart: array2<int>, wordsLen: int, ghost words: seq<Text>, ghost paths: seq<Text>)
    returns (ghost order: seq<int>, ghost spilled: bool, ghost turns: nat)
    requires TrieTable(chart, words, paths)
    requires wordsLen == TotalLen(words) && |paths| <= wordsLen + 1
    modifies chart
    ensures GotoTable(chart, words, paths) && BreadthFirst(paths, order)
    ensures spilled <==> !RingFits(words)
    ensures turns == if RingFits(words) then |order| else 2 * |order|
    ensures forall n :: 0 <= n < chart.Length0 ==> chart[n, MAX_CHARS] == old(chart[n, MAX_CHARS])
  {
    var fail := new int[wordsLen + 1];
    var queue := new int[wordsLen + 1];
    var head, tail := 0, 0;
    turns, spilled := 0, false;
    FirstBytesFit(words);
    tail, order := SeedQueue(chart, queue, fail, words, paths);
    TurningStarts(chart, queue, fail, words, paths, order);
    hide *;
    while head != tail
      invariant Turning(chart, queue, fail, words, paths, order, turns, head, tail, spilled)
      invariant forall n :: 0 <= n < chart.Length0 ==> chart[n, MAX_CHARS] == old(chart[n, MAX_CHARS])
      decreases if RingFits(words) then |paths| - turns else 2 * |order| - turns
    {
      head, tail, order, spilled := Turn(chart, queue, fail, head, tail, words, paths, order, turns, spilled);
      turns := turns + 1;
    }
    TurningEnds(chart, queue, fail, words, paths, order, turns, head, spilled);
  }

  /** One keyword of one byte: the smallest list whose seeds fill the queue. */
  lemma OneByteFills(c: byte)
    ensures !RingFits([[c]]) && RingFits([[c, c]])
  {
    FirstBytesFit([[c]]);
    FirstBytesFit([[c, c]]);
    assert [[c, c]][0] == [c, c] && [[c]][..0] == [] && [[c, c]][..0] == [];
  }
}
