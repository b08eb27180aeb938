/** Training the word table of spam.c on mails already split into raw words. */
module Spam {
  import opened Bits
  import opened Buckets
  import opened Bytes
  import opened Chains
  import opened Shash
  import opened Wrappers

  const MIN_WORD_LEN := 1
  const MAX_WORD_LEN := 20
  const HASH_LEN := 1024
  const TWO_TO_THE_32 := 0x1_0000_0000

  /** `tolower` in the C locale. */
  function ToLower(ch: byte): byte {
    if 65 <= ch <= 90 then ch + 32 else ch
  }

  function Lower(word: Text): Text {
    seq(|word|, i requires 0 <= i < |word| => ToLower(word[i]))
  }

  predicate Acceptable(word: Text) {
    MIN_WORD_LEN < |word| < MAX_WORD_LEN
  }

  /** `word_process`, in place. */
  method WordProcess(word: array<byte>) returns (accepted: bool)
    modifies word
    ensures accepted == Acceptable(old(word[..]))
    ensures word[..] == if accepted then Lower(old(word[..])) else old(word[..])
  {
    if word.Length <= MIN_WORD_LEN || word.Length >= MAX_WORD_LEN {
      return false;
    }
    for i := 0 to word.Length
      invariant forall k :: 0 <= k < i ==> word[k] == ToLower(old(word[k]))
      invariant forall k :: i <= k < word.Length ==> word[k] == old(word[k])
    {
      word[i] := ToLower(word[i]);
    }
    return true;
  }

  /** A token in its buffer, as `get_token` hands it to word_process. */
  method Prepare(raw: Text) returns (word: Option<Text>)
    ensures word == if Acceptable(raw) then Some(Lower(raw)) else None
  {
    var buffer := new byte[|raw|](k requires 0 <= k < |raw| => raw[k]);
    assert buffer[..] == raw;
    var accepted := WordProcess(buffer);
    return if accepted then Some(buffer[..]) else None;
  }

  /** One accepted word, and whether the mail it came from was spam. */
  datatype Seen = Seen(spam: bool, word: Text)

  ghost function Trace(spam: bool, raw: seq<Text>): seq<Seen> {
    if raw == [] then []
    else
      var last := raw[|raw| - 1];
      Trace(spam, raw[..|raw| - 1]) + if Acceptable(last) then [Seen(spam, Lower(last))] else []
  }

  /** How often word was seen in spam, or in ham. */
  ghost function Occurrences(trace: seq<Seen>, spam: bool, word: Text): nat {
    multiset(trace)[Seen(spam, word)]
  }

  ghost function Words(trace: seq<Seen>): set<Text> {
    set i | 0 <= i < |trace| :: trace[i].word
  }

  /** How many words were seen in spam, or in ham, before they were seen anywhere else. */
  ghost function Introduced(trace: seq<Seen>, spam: bool): nat {
    if trace == [] then 0
    else
      var before, last := trace[..|trace| - 1], trace[|trace| - 1];
      Introduced(before, spam) + if last.spam == spam && last.word !in Words(before) then 1 else 0
  }

  lemma WordsAfter(trace: seq<Seen>, s: Seen)
    ensures Words(trace + [s]) == Words(trace) + {s.word}
    ensures forall b ::
      Introduced(trace + [s], b) == Introduced(trace, b) + if s.spam == b && s.word !in Words(trace) then 1 else 0
  {
    var after := trace + [s];
    assert after[..|trace|] == trace;
    assert after[|trace|] == s;
    forall w | w in Words(trace) ensures w in Words(after) {
      var i :| 0 <= i < |trace| && trace[i].word == w;
      assert after[i].word == w;
    }
  }

  /** Every word is introduced once, by spam or by ham. */
  lemma {:induction false} IntroducedAddUp(trace: seq<Seen>)
    ensures Introduced(trace, true) + Introduced(trace, false) == |Words(trace)|
  {
    if trace == [] {
      assert Words(trace) == {};
    } else {
      var before, last := trace[..|trace| - 1], trace[|trace| - 1];
      IntroducedAddUp(before);
      assert trace == before + [last];
      WordsAfter(before, last);
      hide *;
      assert last.word in Words(before) ==> Words(before) + {last.word} == Words(before);
    }
  }

  /** `struct spam_node` */
  datatype Record = Record(spam: nat, ham: nat, amount: nat)

  /** The exact counts of a word, as the 32-bit counters show them. */
  ghost function Exact(trace: seq<Seen>, word: Text): Record {
    var s, h := Occurrences(trace, true, word), Occurrences(trace, false, word);
    Record(s % TWO_TO_THE_32, h % TWO_TO_THE_32, (s + h) % TWO_TO_THE_32)
  }

  /** `++` on an `unsigned` */
  function Inc(x: nat): nat {
    (x + 1) % TWO_TO_THE_32
  }

  function Bump(r: Record, spam: bool): Record {
    Record(if spam then Inc(r.spam) else r.spam, if spam then r.ham else Inc(r.ham), Inc(r.amount))
  }

  lemma IncCounts(n: nat)
    ensures Inc(n % TWO_TO_THE_32) == (n + 1) % TWO_TO_THE_32
  {
  }

  lemma OccurrencesAfter(trace: seq<Seen>, s: Seen, spam: bool, w: Text)
    ensures Occurrences(trace + [s], spam, w) == Occurrences(trace, spam, w) + if s == Seen(spam, w) then 1 else 0
  {
    assert multiset(trace + [s]) == multiset(trace) + multiset{s};
  }

  lemma ExactAfter(trace: seq<Seen>, s: Seen, w: Text)
    ensures Exact(trace + [s], w) == if w == s.word then Bump(Exact(trace, w), s.spam) else Exact(trace, w)
  {
    hide Occurrences, Inc;
    OccurrencesAfter(trace, s, true, w);
    OccurrencesAfter(trace, s, false, w);
    var spam, ham := Occurrences(trace, true, w), Occurrences(trace, false, w);
    IncCounts(spam);
    IncCounts(ham);
    IncCounts(spam + ham);
  }

  lemma ExactUnseen(trace: seq<Seen>, w: Text)
    requires w !in Words(trace)
    ensures Exact(trace, w) == Record(0, 0, 0)
  {
    assert forall i :: 0 <= i < |trace| ==> trace[i].word != w;
    assert Seen(true, w) !in trace && Seen(false, w) !in trace;
  }

  /** One entry per word seen, holding its exact counts, and none for any other word. */
  ghost predicate Counts(chains: seq<seq<Entry<Record>>>, trace: seq<Seen>)
    reads Nodes(chains)`value
  {
    |chains| > 0 && forall w :: CountsWord(Stack(Hash, chains, w), Nodes(chains), trace, w)
  }

  ghost predicate CountsWord(s: seq<Entry<Record>>, nodes: set<Entry<Record>>, trace: seq<Seen>, w: Text)
    reads nodes`value
  {
    if w in Words(trace) then |s| == 1 && s[0] in nodes && s[0].key == w && s[0].value == Exact(trace, w)
    else s == []
  }

  lemma NothingSeen(chains: seq<seq<Entry<Record>>>)
    requires |chains| > 0 && forall k :: Stack(Hash, chains, k) == []
    ensures Counts(chains, []) && Words([]) == {} && Introduced([], true) == Introduced([], false) == 0
  {
    assert Words([]) == {};
    forall w ensures CountsWord(Stack(Hash, chains, w), Nodes(chains), [], w) {
      assert Stack(Hash, chains, w) == [];
    }
  }

  /** A word the table knows: its counters move, and no other entry. */
  method Again(hash: Table<Record>, node: Entry<Record>, spam: bool, word: Text, ghost trace: seq<Seen>)
    requires hash.Valid() && Counts(hash.chains, trace)
    requires Stack(Hash, hash.chains, word) == [node]
    modifies node`value
    ensures hash.Valid() && Counts(hash.chains, trace + [Seen(spam, word)])
  {
    hide Stack, Exact, Words, Nodes;
    ghost var after := trace + [Seen(spam, word)];
    WordsAfter(trace, Seen(spam, word));
    assert CountsWord(Stack(Hash, hash.chains, word), Nodes(hash.chains), trace, word);
    assert node.value == Exact(trace, word);
    node.value := Bump(node.value, spam);
    forall w ensures CountsWord(Stack(Hash, hash.chains, w), Nodes(hash.chains), after, w) {
      ExactAfter(trace, Seen(spam, word), w);
      assert old(CountsWord(Stack(Hash, hash.chains, w), Nodes(hash.chains), trace, w));
    }
  }

  /** A new word. */
  method First(hash: Table<Record>, spam: bool, word: Text, ghost trace: seq<Seen>)
    requires hash.Valid() && Counts(hash.chains, trace)
    requires word !in Words(trace)
    modifies hash`chains, hash`curPos, hash.buckets
    ensures hash.Valid() && Counts(hash.chains, trace + [Seen(spam, word)])
    ensures forall n :: n in Nodes(hash.chains) ==> n in old(Nodes(hash.chains)) || fresh(n)
  {
    hide Stack, Exact, Words, Nodes, List, Bump, Introduced, Inc;
    ghost var after := trace + [Seen(spam, word)];
    WordsAfter(trace, Seen(spam, word));
    ExactUnseen(trace, word);
    var node := hash.Insert(word, Bump(Record(0, 0, 0), spam));
    forall w ensures CountsWord(Stack(Hash, hash.chains, w), Nodes(hash.chains), after, w) {
      ExactAfter(trace, Seen(spam, word), w);
      assert old(CountsWord(Stack(Hash, hash.chains, w), Nodes(hash.chains), trace, w));
    }
  }

  lemma HashLenIsPower()
    ensures IsPow2(HASH_LEN) && Pow2(10) == HASH_LEN
  {
    assert Pow2(5) == 32;
    hide Pow2;
    Pow2Sum(5, 5);
  }

  /** The three word counters count the words introduced by spam, by ham, and by either. */
  ghost predicate Totals(spamNum: nat, hamNum: nat, totalNum: nat, trace: seq<Seen>) {
    && spamNum == Introduced(trace, true) % TWO_TO_THE_32
    && hamNum == Introduced(trace, false) % TWO_TO_THE_32
    && totalNum == |Words(trace)| % TWO_TO_THE_32
  }

  lemma TotalsAfter(spamNum: nat, hamNum: nat, totalNum: nat, trace: seq<Seen>, s: Seen)
    requires Totals(spamNum, hamNum, totalNum, trace)
    ensures s.word in Words(trace) ==> Totals(spamNum, hamNum, totalNum, trace + [s])
    ensures s.word !in Words(trace) ==>
      Totals(
        if s.spam then Inc(spamNum) else spamNum, if s.spam then hamNum else Inc(hamNum), Inc(totalNum), trace + [s])
  {
    var ws, i, h := Words(trace), Introduced(trace, true), Introduced(trace, false);
    WordsAfter(trace, s);
    assert s.word in ws ==> ws + {s.word} == ws;
    assert s.word !in ws ==> |ws + {s.word}| == |ws| + 1;
    IncCounts(i);
    IncCounts(h);
    IncCounts(|ws|);
    hide Introduced, Words, Inc;
  }

  /** A word is in the table exactly if it was seen. */
  lemma KnownWord(chains: seq<seq<Entry<Record>>>, trace: seq<Seen>, word: Text)
    requires Counts(chains, trace)
    ensures |chains| > 0
    ensures if word in Words(trace)
            then |Stack(Hash, chains, word)| == 1 && Stack(Hash, chains, word)[0] in Nodes(chains)
      else Stack(Hash, chains, word) == []
  {
    assert CountsWord(Stack(Hash, chains, word), Nodes(chains), trace, word);
  }

  class Training {
    var spamMailNum: nat
    var hamMailNum: nat
    var totalMailNum: nat
    var spamNum: nat
    var hamNum: nat
    var totalNum: nat
    const hash: Table<Record>
    ghost var trace: seq<Seen>

    ghost predicate Valid()
      reads this`spamNum, this`hamNum, this`totalNum, this`trace
      reads hash, hash.buckets, Nodes(hash.chains)
    {
      && hash.Valid() && Counts(hash.chains, trace)
      && Totals(spamNum, hamNum, totalNum, trace)
    }

    /** `spam_init` on an empty file. */
    constructor ()
      ensures Valid() && trace == [] && fresh(hash) && fresh(hash.buckets) && Nodes(hash.chains) == {}
      ensures hash.curIndex == 0 && hash.curNode == null && hash.len == HASH_LEN
      ensures spamMailNum == hamMailNum == totalMailNum == 0
    {
      spamMailNum, hamMailNum, totalMailNum := 0, 0, 0;
      spamNum, hamNum, totalNum := 0, 0, 0;
      HashLenIsPower();
      hash := new Table(HASH_LEN);
      trace := [];
      new;
      NothingSeen(hash.chains);
      hide *;
    }

    /** What one accepted word does in `walk`. */
    method Learn(spam: bool, word: Text)
      requires Valid()
      modifies this`spamNum, this`hamNum, this`totalNum, this`trace
      modifies hash`chains, hash`curPos, hash.buckets, Nodes(hash.chains)`value
      ensures Valid() && trace == old(trace) + [Seen(spam, word)]
      ensures forall n :: n in Nodes(hash.chains) ==> n in old(Nodes(hash.chains)) || fresh(n)
    {
      hide Stack, Exact, Words, Nodes, Introduced, Inc, Bump, List, Placed, Totals;
      KnownWord(hash.chains, trace, word);
      assert CountsWord(Stack(Hash, hash.chains, word), Nodes(hash.chains), trace, word);
      TotalsAfter(spamNum, hamNum, totalNum, trace, Seen(spam, word));
      var node := hash.FindNode(word);
      ghost var before := trace;
      trace := before + [Seen(spam, word)];
      assert Counts(hash.chains, before);
      if node != null {
        Again(hash, node, spam, word, before);
      } else {
        First(hash, spam, word, before);
        if spam {
          spamNum := Inc(spamNum);
        } else {
          hamNum := Inc(hamNum);
        }
        totalNum := Inc(totalNum);
      }
    }

    /** The token loop of `walk`. */
    method Read(spam: bool, raw: seq<Text>)
      requires Valid()
      modifies this`spamNum, this`hamNum, this`totalNum, this`trace
      modifies hash`chains, hash`curPos, hash.buckets, Nodes(hash.chains)`value
      ensures Valid() && trace == old(trace) + Trace(spam, raw)
      ensures forall n :: n in Nodes(hash.chains) ==> n in old(Nodes(hash.chains)) || fresh(n)
    {
      hide Stack, Exact, Words, Introduced, Inc, Lower, CountsWord, Placed, List;
      for i := 0 to |raw|
        invariant Valid() && trace == old(trace) + Trace(spam, raw[..i])
        invariant forall n :: n in Nodes(hash.chains) ==> n in old(Nodes(hash.chains)) || fresh(n)
      {
        assert raw[..i + 1][..i] == raw[..i];
        var word := Prepare(raw[i]);
        if word.Some? {
          Learn(spam, word.value);
        }
      }
      assert raw[..|raw|] == raw;
    }

    /** `walk`, on a mail whose tokens are raw. */
    method Walk(spam: bool, raw: seq<Text>)
      requires Valid()
      modifies this, hash`chains, hash`curPos, hash.buckets, Nodes(hash.chains)`value
      ensures Valid() && trace == old(trace) + Trace(spam, raw)
      ensures spamMailNum == if spam then Inc(old(spamMailNum)) else old(spamMailNum)
      ensures hamMailNum == if spam then old(hamMailNum) else Inc(old(hamMailNum))
      ensures totalMailNum == Inc(old(totalMailNum))
      ensures forall n :: n in Nodes(hash.chains) ==> n in old(Nodes(hash.chains)) || fresh(n)
    {
      hide *;
      if spam {
        spamMailNum := Inc(spamMailNum);
      } else {
        hamMailNum := Inc(hamMailNum);
      }
      totalMailNum := Inc(totalMailNum);
      Read(spam, raw);
    }
  }

  /** A mail of the training set, split into its tokens. */
  datatype Mail = Mail(spam: bool, tokens: seq<Text>)

  ghost function Traces(mails: seq<Mail>): seq<Seen> {
    if mails == [] then []
    else Traces(mails[..|mails| - 1]) + Trace(mails[|mails| - 1].spam, mails[|mails| - 1].tokens)
  }

  lemma TracesAfter(mails: seq<Mail>, i: nat)
    requires i < |mails|
    ensures Traces(mails[..i + 1]) == Traces(mails[..i]) + Trace(mails[i].spam, mails[i].tokens)
  {
    assert mails[..i + 1][..i] == mails[..i];
  }

  lemma SumOfCounters(s: nat, h: nat)
    ensures (s + h) % TWO_TO_THE_32 == (s % TWO_TO_THE_32 + h % TWO_TO_THE_32) % TWO_TO_THE_32
  {
  }

  /** Every word was counted as new once: the three word counters agree. */
  lemma CountersAgree(t: Training)
    requires t.Valid()
    ensures t.totalNum == (t.spamNum + t.hamNum) % TWO_TO_THE_32
  {
    var s, h, w := Introduced(t.trace, true), Introduced(t.trace, false), |Words(t.trace)|;
    assert t.spamNum == s % TWO_TO_THE_32 && t.hamNum == h % TWO_TO_THE_32 && t.totalNum == w % TWO_TO_THE_32;
    hide *;
    IntroducedAddUp(t.trace);
    SumOfCounters(s, h);
  }

  /** `spam_init` on an empty file and then `walk` on any sequence of mails. */
  method Train(mails: seq<Mail>) returns (t: Training)
    ensures fresh(t) && t.Valid() && t.trace == Traces(mails) && t.hash.curIndex == 0 && t.hash.curNode == null
    ensures t.hash.len == HASH_LEN && fresh(t.hash)
  {
    t := new Training();
    assert mails[..0] == [] && Traces([]) == [];
    hide *;
    for i := 0 to |mails|
      invariant fresh(t) && fresh(t.hash) && fresh(t.hash.buckets) && forall n :: n in Nodes(t.hash.chains) ==> fresh(n)
      invariant t.Valid() && t.trace == Traces(mails[..i]) && t.hash.curIndex == 0 && t.hash.curNode == null
      invariant t.hash.len == HASH_LEN
    {
      TracesAfter(mails, i);
      t.Walk(mails[i].spam, mails[i].tokens);
    }
    assert mails[..|mails|] == mails;
  }

  /** `spam_close`: what it writes out is what the cursor has not passed. Right after training that is
      everything but bucket 0, and after a `spam_filter`, whose walk ends the cursor, it is nothing. */
  method Close(t: Training) returns (written: seq<Entry<Record>>)
    requires t.Valid()
    modifies t.hash`curIndex, t.hash`curNode, t.hash`curPos
    ensures t.Valid() && written == old(t.hash.Remaining())
    ensures old(t.hash.curIndex) == 0 && old(t.hash.curNode) == null ==>
      Flat(t.hash.chains) == t.hash.chains[0] + written
      && ((forall n :: n in Nodes(t.hash.chains) ==> n in written) <==> t.hash.chains[0] == [])
  {
    MissedFirst(t.hash.chains, t.hash.curPos);
    hide Flat, Placed, Nodes, List, Counts;
    written := t.hash.Collect();
  }

  /** A word counted by the table is in the bucket its hash names, and closing right after training writes it
      out unless that is bucket 0. */
  lemma WordWalked(chains: seq<seq<Entry<Record>>>, trace: seq<Seen>, pos: int, word: Text)
    requires Placed(Hash, chains) && Counts(chains, trace) && word in Words(trace)
    ensures (exists n :: n in Rest(chains, 0, pos, false) && n.key == word) <==> Index(Hash, word, |chains|) != 0
  {
    var home := Index(Hash, word, |chains|);
    var s := Stack(Hash, chains, word);
    assert CountsWord(s, Nodes(chains), trace, word);
    MatchingInside(chains[home], word);
    hide Matching, Index, Rest;
    assert s[0] in chains[home] && s[0].key == word;
    BucketOfWalked(chains, pos, s[0]);
    if n :| n in Rest(chains, 0, pos, false) && n.key == word {
      BucketOfWalked(chains, pos, n);
    }
  }

  /** Training and closing at once: of the words seen exactly those in bucket 0 are lost. */
  method TrainAndClose(mails: seq<Mail>) returns (t: Training, written: seq<Entry<Record>>)
    ensures fresh(t) && t.Valid() && t.trace == Traces(mails)
    ensures forall w :: w in Words(t.trace) ==>
      ((exists n :: n in written && n.key == w) <==> Index(Hash, w, HASH_LEN) != 0)
  {
    t := Train(mails);
    assert Placed(Hash, t.hash.chains) && |t.hash.chains| == HASH_LEN && Counts(t.hash.chains, t.trace);
    ghost var rest := Rest(t.hash.chains, 0, t.hash.curPos, false);
    forall w | w in Words(t.trace)
      ensures (exists n :: n in rest && n.key == w) <==> Index(Hash, w, HASH_LEN) != 0
    {
      WordWalked(t.hash.chains, t.trace, t.hash.curPos, w);
    }
    written := Close(t);
    assert written == rest;
  }

  /** The word "m9", whose hash is 14 times 1024. */
  const M9: Text := [109, 57]

  lemma PolynomialOfM9()
    ensures Polynomial(M9) == 14336
  {
    assert M9[..1] == [109] && [109][..0] == [];
    assert Polynomial([]) == 0 && Polynomial([109]) == 109;
  }

  lemma BucketZeroWord()
    ensures Hash(M9) == 14 * HASH_LEN && Index(Hash, M9, HASH_LEN) == 0
  {
    PolynomialOfM9();
    HashLenIsPower();
    ModIsRemainder(14336, 10);
    hide Polynomial, Pow2, And;
  }

  /** One ham mail that says "M9" trains a word that is not written out. */
  method BucketZeroLost() returns (t: Training, written: seq<Entry<Record>>)
    ensures M9 in Words(t.trace) && Exact(t.trace, M9) == Record(0, 1, 1)
    ensures forall i :: 0 <= i < |written| ==> written[i].key != M9
  {
    var mails := [Mail(false, [[77, 57]])];
    t, written := TrainAndClose(mails);
    TraceOfM9(mails);
    BucketZeroWord();
    assert t.trace[0].word == M9;
    assert M9 in Words(t.trace);
  }

  lemma TraceOfM9(mails: seq<Mail>)
    requires mails == [Mail(false, [[77, 57]])]
    ensures Traces(mails) == [Seen(false, M9)]
    ensures Exact([Seen(false, M9)], M9) == Record(0, 1, 1)
  {
    var raw: seq<Text> := [[77, 57]];
    assert mails[..0] == [] && raw[..0] == [];
    assert Lower([77, 57]) == M9;
    assert Trace(false, raw) == Trace(false, []) + [Seen(false, M9)];
    assert Traces(mails) == Traces([]) + Trace(false, raw);
    assert multiset([Seen(false, M9)]) == multiset{Seen(false, M9)};
  }
}
