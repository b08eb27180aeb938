/** Singly linked bucket lists, as mhash.c and shash.c both chain them. */
module Chains {
  import opened Seqs

  class Node<K, V> {
    const key: K
    var value: V
    var next: Node?<K, V>

    constructor (key: K, value: V, next: Node?<K, V>)
      ensures this.key == key && this.value == value && this.next == next
    {
      this.key := key;
      this.value := value;
      this.next := next;
    }
  }

  ghost function At<K, V>(c: seq<Node<K, V>>, i: int): Node?<K, V> {
    if 0 <= i < |c| then c[i] else null
  }

  /** Following next from head visits exactly the nodes of c. */
  ghost predicate List<K, V>(head: Node?<K, V>, c: seq<Node<K, V>>)
    reads c`next
  {
    head == At(c, 0) && forall i :: 0 <= i < |c| ==> c[i].next == At(c, i + 1)
  }

  ghost function Nodes<K, V>(chains: seq<seq<Node<K, V>>>): set<Node<K, V>> {
    set b, i | 0 <= b < |chains| && 0 <= i < |chains[b]| :: chains[b][i]
  }

  /** The nodes with key k, nearest to the head first: what is stored under k, newest first. */
  ghost function Matching<K, V>(c: seq<Node<K, V>>, k: K): seq<Node<K, V>> {
    if c == [] then []
    else (if c[0].key == k then [c[0]] else []) + Matching(c[1..], k)
  }

  lemma {:induction false} MatchingInside<K, V>(c: seq<Node<K, V>>, k: K)
    ensures forall i :: 0 <= i < |Matching(c, k)| ==> Matching(c, k)[i] in c
  {
    if c != [] {
      MatchingInside(c[1..], k);
    }
  }

  /** The chain without its first node of key k. */
  ghost function Without<K, V>(c: seq<Node<K, V>>, k: K): seq<Node<K, V>> {
    if c == [] then [] else if c[0].key == k then c[1..] else [c[0]] + Without(c[1..], k)
  }

  lemma {:induction false} WithoutMatching<K, V>(c: seq<Node<K, V>>, k: K, j: K)
    ensures Matching(Without(c, k), j) ==
      if j == k && Matching(c, k) != [] then Matching(c, k)[1..] else Matching(c, j)
  {
    if c != [] && c[0].key != k {
      WithoutMatching(c[1..], k, j);
    }
  }

  /** Nodes of another key at the front of a chain do not count. */
  lemma {:induction false} SkipOthers<K, V>(c: seq<Node<K, V>>, k: K, i: nat)
    requires i <= |c| && forall l :: 0 <= l < i ==> c[l].key != k
    ensures Matching(c, k) == Matching(c[i..], k) && Without(c, k) == c[..i] + Without(c[i..], k)
  {
    if i > 0 {
      SkipOthers(c[1..], k, i - 1);
      assert c[1..][i - 1..] == c[i..] && c[1..][..i - 1] == c[1..i];
      assert c[..i] == [c[0]] + c[1..i];
    }
  }

  /** Where the search for k stops. */
  lemma MatchAt<K, V>(c: seq<Node<K, V>>, k: K, i: nat)
    requires i < |c| && c[i].key == k && forall l :: 0 <= l < i ==> c[l].key != k
    ensures Matching(c, k) != [] && Matching(c, k)[0] == c[i] && Without(c, k) == c[..i] + c[i + 1..]
  {
    SkipOthers(c, k, i);
    assert c[i..][0] == c[i] && c[i..][1..] == c[i + 1..];
  }

  lemma NoMatch<K, V>(c: seq<Node<K, V>>, k: K)
    requires forall l :: 0 <= l < |c| ==> c[l].key != k
    ensures Matching(c, k) == [] && Without(c, k) == c
  {
    SkipOthers(c, k, |c|);
    assert c[|c|..] == [] && c[..|c|] == c;
  }

  lemma {:induction false} NoMatches<K, V>(c: seq<Node<K, V>>, k: K)
    requires Matching(c, k) == []
    ensures Without(c, k) == c
  {
    if c != [] {
      NoMatches(c[1..], k);
    }
  }

  /** What Without takes out, and where it was. */
  lemma FirstMatch<K, V>(c: seq<Node<K, V>>, k: K) returns (i: nat)
    requires Matching(c, k) != []
    ensures i < |c| && c[i] == Matching(c, k)[0] && Without(c, k) == c[..i] + c[i + 1..]
  {
    if forall l :: 0 <= l < |c| ==> c[l].key != k {
      NoMatch(c, k);
    }
    i := 0;
    while c[i].key != k
      invariant i <= |c| && forall l :: 0 <= l < i ==> c[l].key != k
      decreases |c| - i
    {
      i := i + 1;
    }
    MatchAt(c, k, i);
  }

  /** The search loop of `Mhash_find` and `Shash_find`. */
  method Find<K(==), V>(head: Node?<K, V>, k: K, ghost c: seq<Node<K, V>>) returns (r: Node?<K, V>)
    requires List(head, c)
    ensures if Matching(c, k) == [] then r == null else r == Matching(c, k)[0]
  {
    r := head;
    ghost var i := 0;
    while r != null
      invariant 0 <= i <= |c| && r == At(c, i) && forall l :: 0 <= l < i ==> c[l].key != k
      decreases |c| - i
    {
      if r.key == k {
        MatchAt(c, k, i);
        return;
      }
      r := r.next;
      i := i + 1;
    }
    NoMatch(c, k);
  }

  lemma Push<K, V>(n: Node<K, V>, c: seq<Node<K, V>>)
    requires List(n.next, c)
    ensures List(n, [n] + c)
  {
  }

  /** The loop of `Mhash_del`: prev is the node whose next field the pointer p of the source points at,
      null while p points at the bucket's own list pointer. */
  method Unlink<K(==), V>(head: Node?<K, V>, k: K, ghost c: seq<Node<K, V>>)
    returns (head': Node?<K, V>, removed: Node?<K, V>)
    requires List(head, c) && Distinct(c)
    modifies c`next
    ensures List(head', Without(c, k))
    ensures if Matching(c, k) == [] then removed == null else removed == Matching(c, k)[0]
  {
    head' := head;
    removed := head;
    hide Matching, Without;
    var prev: Node?<K, V> := null;
    ghost var i := 0;
    while removed != null
      invariant head' == head && List(head, c)
      invariant 0 <= i <= |c| && removed == At(c, i) && prev == At(c, i - 1)
      invariant forall l :: 0 <= l < i ==> c[l].key != k
      decreases |c| - i
    {
      if removed.key == k {
        MatchAt(c, k, i);
        if prev == null {
          head' := removed.next;
        } else {
          prev.next := removed.next;
        }
        ghost var d := c[..i] + c[i + 1..];
        assert forall j :: 0 <= j < |d| ==> d[j] == if j < i then c[j] else c[j + 1];
        return;
      }
      prev := removed;
      removed := removed.next;
      i := i + 1;
    }
    NoMatch(c, k);
  }

  /** Every node of every chain, bucket by bucket. */
  ghost function Flat<K, V>(chains: seq<seq<Node<K, V>>>): seq<Node<K, V>> {
    if chains == [] then [] else chains[0] + Flat(chains[1..])
  }
}
