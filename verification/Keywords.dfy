/** What a keyword automaton ought to compute, stated on words alone:
    prefixes, longest suffixes, and naive search. No table appears here. */
module Keywords {
  import opened Bytes

  /** s is a node of the keyword trie: the root, or a prefix of some keyword. */
  ghost predicate IsNode(words: seq<Text>, s: Text) {
    s == [] || exists i :: 0 <= i < |words| && s <= words[i]
  }

  function TotalLen(words: seq<Text>): nat {
    if words == [] then 0 else TotalLen(words[..|words| - 1]) + |words[|words| - 1]|
  }

  /** One plus the position of the last keyword equal to s, or 0 if s is no keyword. */
  function LastIndex(words: seq<Text>, s: Text): (i: nat)
    ensures i <= |words|
    ensures i > 0 <==> s in words
    ensures i > 0 ==> words[i - 1] == s && s !in words[i..]
  {
    if words == [] then 0
    else if words[|words| - 1] == s then |words|
    else LastIndex(words[..|words| - 1], s)
  }

  /** The longest suffix of s that is a node of the trie. */
  ghost function Longest(words: seq<Text>, s: Text): (t: Text)
    ensures IsNode(words, t) && |t| <= |s|
  {
    if IsNode(words, s) then s else Longest(words, s[1..])
  }

  lemma {:induction false} LongestIsLongest(words: seq<Text>, s: Text, u: Text)
    ensures IsSuffix(Longest(words, s), s)
    ensures IsNode(words, u) && IsSuffix(u, s) ==> IsSuffix(u, Longest(words, s))
  {
    if !IsNode(words, s) {
      LongestIsLongest(words, s[1..], u);
      var t := Longest(words, s[1..]);
      assert s[|s| - |t|..] == s[1..][|s| - 1 - |t|..];
      if IsNode(words, u) && IsSuffix(u, s) {
        assert s[|s| - |u|..] == s[1..][|s| - 1 - |u|..];
      }
    }
  }

  lemma PrefixOfNode(words: seq<Text>, s: Text, c: byte)
    requires IsNode(words, s + [c])
    ensures IsNode(words, s)
  {
    var i :| 0 <= i < |words| && s + [c] <= words[i];
    assert s <= s + [c];
  }

  /** The automaton law: to know the longest node ending at the next byte
      it is enough to remember the longest node ending at this one. */
  lemma {:induction false} LongestStep(words: seq<Text>, s: Text, c: byte)
    ensures Longest(words, s + [c]) == Longest(words, Longest(words, s) + [c])
    decreases |s|
  {
    if !IsNode(words, s) {
      if IsNode(words, s + [c]) {
        PrefixOfNode(words, s, c);
      }
      assert (s + [c])[1..] == s[1..] + [c];
      LongestStep(words, s[1..], c);
    }
  }

  /** Where a failure link points: the longest proper suffix that is a node. */
  ghost function Fail(words: seq<Text>, s: Text): (t: Text)
    requires s != []
    ensures IsNode(words, t) && |t| < |s|
  {
    Longest(words, s[1..])
  }

  /** Failure links are computed from the shorter failure link of the parent. */
  lemma FailStep(words: seq<Text>, s: Text, c: byte)
    requires s != []
    ensures Fail(words, s + [c]) == Longest(words, Fail(words, s) + [c])
    ensures !IsNode(words, s + [c]) ==> Longest(words, s + [c]) == Longest(words, Fail(words, s) + [c])
  {
    assert (s + [c])[1..] == s[1..] + [c];
    LongestStep(words, s[1..], c);
  }

  // ---------------------------------------------------------------- naive search

  /** Some keyword ends exactly after the first e bytes of t (e >= 1). */
  ghost predicate EndsAt(words: seq<Text>, t: Text, e: int) {
    1 <= e <= |t| && exists w :: w in words && IsSuffix(w, t[..e])
  }

  /** The automaton stops after the first e bytes of t: its state is itself a keyword. */
  ghost predicate StopsAt(words: seq<Text>, t: Text, e: int) {
    1 <= e <= |t| && Longest(words, t[..e]) in words
  }

  ghost predicate FirstEnd(words: seq<Text>, t: Text, e: int) {
    EndsAt(words, t, e) && forall d :: d < e ==> !EndsAt(words, t, d)
  }

  ghost predicate FirstStop(words: seq<Text>, t: Text, e: int) {
    StopsAt(words, t, e) && forall d :: d < e ==> !StopsAt(words, t, d)
  }

  /** On t, the automaton stops exactly where naive search first succeeds, or neither succeeds. */
  ghost predicate AgreesOn(words: seq<Text>, t: Text) {
    forall e :: FirstStop(words, t, e) <==> FirstEnd(words, t, e)
  }

  /** On t, the automaton stops somewhere exactly if some keyword occurs. */
  ghost predicate DetectsOn(words: seq<Text>, t: Text) {
    (exists e :: StopsAt(words, t, e)) <==> (exists e :: EndsAt(words, t, e))
  }

  /** Every keyword occurrence inside a keyword v ends no earlier than some
      keyword that is a non-empty prefix of v. Decidable from the list alone. */
  ghost predicate Covered(words: seq<Text>) {
    forall v, e :: v in words && EndsAt(words, v, e) ==> exists p :: 1 <= p <= e && v[..p] in words
  }

  ghost predicate OccursAt(w: Text, v: Text, o: int) {
    0 <= o && o + |w| <= |v| && v[o..o + |w|] == w
  }

  /** No keyword occurs in a keyword at a non-zero offset. */
  ghost predicate NoInnerOccurrence(words: seq<Text>) {
    forall v, w, o :: v in words && w in words && OccursAt(w, v, o) ==> o == 0
  }

  // -------------------------------------------------------------------- theorems

  /** The automaton never reports a keyword that does not end there. */
  lemma StopIsEnd(words: seq<Text>, t: Text, e: int)
    requires StopsAt(words, t, e)
    ensures EndsAt(words, t, e)
  {
    LongestIsLongest(words, t[..e], []);
  }

  lemma NodeOfKeyword(words: seq<Text>, w: Text, n: nat)
    requires w in words && n <= |w|
    ensures IsNode(words, w[..n])
  {
    var i :| 0 <= i < |words| && words[i] == w;
    assert w[..n] <= words[i];
  }

  lemma SuffixOfPrefix(t: Text, u: Text, e: int, p: int)
    requires 0 <= e <= |t| && IsSuffix(u, t[..e]) && 0 <= p <= |u|
    ensures IsSuffix(u[..p], t[..e - |u| + p])
  {
    assert t[..e][e - |u|..] == u;
    assert t[..e - |u| + p][e - |u|..] == u[..p];
  }

  /** A trie node that ends with a keyword starts with a non-empty one. */
  lemma CoverOfNode(words: seq<Text>, u: Text, w: Text) returns (p: int)
    requires Covered(words) && IsNode(words, u) && u != [] && w in words && IsSuffix(w, u)
    ensures 1 <= p <= |u| && u[..p] in words
  {
    var i :| 0 <= i < |words| && u <= words[i];
    var v := words[i];
    assert v[..|u|] == u;
    assert EndsAt(words, v, |u|);
    p :| 1 <= p <= |u| && v[..p] in words;
    assert v[..p] == u[..p];
  }

  /** A keyword ends inside the automaton's state; its cover ends there too, or before. */
  lemma CoverOfState(words: seq<Text>, t: Text, e: int) returns (d: int)
    requires Covered(words) && EndsAt(words, t, e)
    ensures d <= e && if d == e then StopsAt(words, t, e) else EndsAt(words, t, d)
  {
    var w :| w in words && IsSuffix(w, t[..e]);
    NodeOfKeyword(words, w, |w|);
    assert w[..|w|] == w;
    var u := Longest(words, t[..e]);
    assert IsSuffix(w, u) && IsSuffix(u, t[..e]) by {
      LongestIsLongest(words, t[..e], w);
    }
    if u == [] {
      assert w == u;
      d := e;
    } else {
      var p := CoverOfNode(words, u, w);
      SuffixOfPrefix(t, u, e, p);
      d := e - |u| + p;
      if p == |u| {
        assert u[..p] == u;
      }
    }
  }

  /** If naive search succeeds at e, the automaton stops at e or before it. */
  lemma {:induction false} EndIsCovered(words: seq<Text>, t: Text, e: int)
    requires Covered(words) && EndsAt(words, t, e)
    ensures exists d :: d <= e && StopsAt(words, t, d)
    decreases e
  {
    var d := CoverOfState(words, t, e);
    if d < e {
      EndIsCovered(words, t, d);
    }
  }

  lemma {:induction false} LeastStop(words: seq<Text>, t: Text, e: int) returns (d: int)
    requires StopsAt(words, t, e)
    ensures d <= e && FirstStop(words, t, d)
    decreases e
  {
    if c :| c < e && StopsAt(words, t, c) {
      d := LeastStop(words, t, c);
    } else {
      d := e;
    }
  }

  /** Covered keyword lists are searched exactly. */
  lemma CoveredAgrees(words: seq<Text>, t: Text)
    requires Covered(words)
    ensures AgreesOn(words, t) && DetectsOn(words, t)
  {
    forall e ensures FirstStop(words, t, e) <==> FirstEnd(words, t, e) {
      forall d | StopsAt(words, t, d) ensures EndsAt(words, t, d) {
        StopIsEnd(words, t, d);
      }
      if FirstEnd(words, t, e) {
        EndIsCovered(words, t, e);
      }
      if FirstStop(words, t, e) {
        forall d | d < e ensures !EndsAt(words, t, d) {
          if EndsAt(words, t, d) {
            EndIsCovered(words, t, d);
          }
        }
      }
    }
    if e :| EndsAt(words, t, e) {
      EndIsCovered(words, t, e);
    }
    if e :| StopsAt(words, t, e) {
      StopIsEnd(words, t, e);
    }
  }

  /** Fed a prefix of a keyword, the automaton walks that keyword's own path. */
  lemma OnPath(words: seq<Text>, v: Text, n: nat)
    requires v in words && n <= |v|
    ensures Longest(words, v[..n]) == v[..n]
  {
    NodeOfKeyword(words, v, n);
  }

  /** An uncovered occurrence is missed: the text that ends with it is the counterexample. */
  lemma UncoveredMisses(words: seq<Text>, v: Text, e: int)
    requires v in words && EndsAt(words, v, e)
    requires forall p :: 1 <= p <= e ==> v[..p] !in words
    ensures !DetectsOn(words, v[..e])
  {
    var t := v[..e];
    assert t[..e] == t;
    assert EndsAt(words, t, e);
    forall d ensures !StopsAt(words, t, d) {
      if 1 <= d <= e {
        assert t[..d] == v[..d];
        OnPath(words, v, d);
      }
    }
  }

  /** The scanner is exact on every text if and only if the keyword list is covered;
      merely answering "some keyword" or "none" correctly already needs it. */
  lemma ExactIffCovered(words: seq<Text>)
    ensures Covered(words) <==> forall t :: AgreesOn(words, t)
    ensures Covered(words) <==> forall t :: DetectsOn(words, t)
  {
    if Covered(words) {
      forall t ensures AgreesOn(words, t) && DetectsOn(words, t) {
        CoveredAgrees(words, t);
      }
    } else {
      var v, e :| v in words && EndsAt(words, v, e) && !exists p :: 1 <= p <= e && v[..p] in words;
      UncoveredMisses(words, v, e);
      if AgreesOn(words, v[..e]) {
        AgreeDetects(words, v[..e]);
      }
    }
  }

  lemma AgreeDetects(words: seq<Text>, t: Text)
    requires AgreesOn(words, t)
    ensures DetectsOn(words, t)
  {
    if e :| EndsAt(words, t, e) {
      var d := LeastEnd(words, t, e);
      assert FirstStop(words, t, d);
    }
    if e :| StopsAt(words, t, e) {
      StopIsEnd(words, t, e);
    }
  }

  lemma {:induction false} LeastEnd(words: seq<Text>, t: Text, e: int) returns (d: int)
    requires EndsAt(words, t, e)
    ensures d <= e && FirstEnd(words, t, d)
    decreases e
  {
    if c :| c < e && EndsAt(words, t, c) {
      d := LeastEnd(words, t, c);
    } else {
      d := e;
    }
  }

  /** Keywords that do not occur inside one another are covered. */
  lemma NoInnerIsCovered(words: seq<Text>)
    requires NoInnerOccurrence(words)
    ensures Covered(words)
  {
    forall v, e | v in words && EndsAt(words, v, e)
      ensures exists p :: 1 <= p <= e && v[..p] in words
    {
      var w :| w in words && IsSuffix(w, v[..e]);
      assert v[e - |w|..e] == v[..e][e - |w|..] == w;
      assert OccursAt(w, v, e - |w|);
      assert v[..e] == w;
    }
  }

  /** "bc" inside "abcd" is missed in "abc", although it ends there. */
  lemma InnerKeywordMissed(v: Text, w: Text)
    requires v == [97, 98, 99, 100] && w == [98, 99]
    ensures EndsAt([v, w], v[..3], 3) && !DetectsOn([v, w], v[..3])
  {
    var words := [v, w];
    assert IsSuffix(w, v[..3]);
    assert v[..3][..3] == v[..3];
    assert words[1] == w;
    assert EndsAt(words, v, 3);
    forall p | 1 <= p <= 3 ensures v[..p] !in words {
      assert v[..p][0] == 97 && w[0] == 98;
    }
    assert words[0] == v;
    UncoveredMisses(words, v, 3);
  }
}
