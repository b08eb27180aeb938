/** Bucket arrays of chained nodes, as mhash.c and shash.c both keep them. */
module Buckets {
  import opened Bits
  import opened Chains
  import opened Seqs

  /** The bucket of a key: `MOD(hash(key), len)`. */
  function Index<K>(h: K -> nat, k: K, len: nat): (i: nat)
    requires len > 0
    ensures i < len
  {
    Mod(h(k), len)
  }

  /** What is stored under k, newest first. */
  ghost function Stack<K, V>(h: K -> nat, chains: seq<seq<Node<K, V>>>, k: K): seq<Node<K, V>>
    requires |chains| > 0
  {
    Matching(chains[Index(h, k, |chains|)], k)
  }

  /** Every node is in the bucket its key hashes to, and once only. */
  ghost predicate Placed<K, V>(h: K -> nat, chains: seq<seq<Node<K, V>>>) {
    && |chains| > 0
    && (forall b :: 0 <= b < |chains| ==> Distinct(chains[b]))
    && forall b, i :: 0 <= b < |chains| && 0 <= i < |chains[b]| ==> Index(h, chains[b][i].key, |chains|) == b
  }

  /** Changing one bucket changes only the stacks of keys in that bucket. */
  lemma StackAfter<K, V>(h: K -> nat, chains: seq<seq<Node<K, V>>>, b: nat, c: seq<Node<K, V>>, k: K)
    requires b < |chains|
    ensures Stack(h, chains[b := c], k) == if Index(h, k, |chains|) == b then Matching(c, k) else Stack(h, chains, k)
  {
    hide Index, Matching;
  }

  lemma Pushed<K, V>(h: K -> nat, chains: seq<seq<Node<K, V>>>, b: nat, n: Node<K, V>)
    requires b < |chains| && Index(h, n.key, |chains|) == b
    ensures forall k ::
      Stack(h, chains[b := [n] + chains[b]], k) ==
        (if k == n.key then [n] + Stack(h, chains, k) else Stack(h, chains, k))
    ensures Nodes(chains[b := [n] + chains[b]]) == Nodes(chains) + {n}
    ensures Placed(h, chains) && n !in chains[b] ==> Placed(h, chains[b := [n] + chains[b]])
  {
    hide Index;
    var c := [n] + chains[b];
    var d := chains[b := c];
    forall k ensures Stack(h, d, k) == if k == n.key then [n] + Stack(h, chains, k) else Stack(h, chains, k) {
      StackAfter(h, chains, b, c, k);
      assert c[1..] == chains[b];
    }
    NodesPushed(chains, b, n);
  }

  lemma NodesPushed<K, V>(chains: seq<seq<Node<K, V>>>, b: nat, n: Node<K, V>)
    requires b < |chains|
    ensures Nodes(chains[b := [n] + chains[b]]) == Nodes(chains) + {n}
  {
    var d := chains[b := [n] + chains[b]];
    assert d[b][0] == n;
    forall a, i | 0 <= a < |chains| && 0 <= i < |chains[a]| ensures chains[a][i] in Nodes(d) {
      assert chains[a][i] == if a == b then d[a][i + 1] else d[a][i];
    }
  }

  lemma Popped<K, V>(h: K -> nat, chains: seq<seq<Node<K, V>>>, k: K)
    requires |chains| > 0
    ensures var d := chains[Index(h, k, |chains|) := Without(chains[Index(h, k, |chains|)], k)];
      forall j :: Stack(h, d, j) ==
        if j == k && Stack(h, chains, k) != [] then Stack(h, chains, j)[1..] else Stack(h, chains, j)
  {
    hide Index, Matching, Without;
    var b := Index(h, k, |chains|);
    forall j ensures Stack(h, chains[b := Without(chains[b], k)], j) ==
      if j == k && Stack(h, chains, k) != [] then Stack(h, chains, j)[1..] else Stack(h, chains, j)
    {
      StackAfter(h, chains, b, Without(chains[b], k), j);
      WithoutMatching(chains[b], k, j);
    }
  }

  /** Taking one node out of its chain takes exactly that node out of the table. */
  lemma NodesCut<K, V>(h: K -> nat, chains: seq<seq<Node<K, V>>>, b: nat, i: nat)
    requires Placed(h, chains) && b < |chains| && i < |chains[b]|
    ensures Nodes(chains[b := chains[b][..i] + chains[b][i + 1..]]) == Nodes(chains) - {chains[b][i]}
  {
    hide Index;
    var c := chains[b];
    var d := chains[b := c[..i] + c[i + 1..]];
    forall n | n in Nodes(chains) && n != c[i] ensures n in Nodes(d) {
      var a, j :| 0 <= a < |chains| && 0 <= j < |chains[a]| && chains[a][j] == n;
      assert n == if a == b && j > i then d[a][j - 1] else d[a][j];
    }
    forall n | n in Nodes(d) ensures n in Nodes(chains) && n != c[i] {
      var a, j :| 0 <= a < |d| && 0 <= j < |d[a]| && d[a][j] == n;
      assert n == if a == b && j >= i then chains[a][j + 1] else chains[a][j];
      assert Index(h, n.key, |chains|) == a;
    }
  }

  lemma PlacedCut<K, V>(h: K -> nat, chains: seq<seq<Node<K, V>>>, b: nat, i: nat)
    requires Placed(h, chains) && b < |chains| && i < |chains[b]|
    ensures Placed(h, chains[b := chains[b][..i] + chains[b][i + 1..]])
  {
    hide Index;
  }

  lemma NodesPopped<K, V>(h: K -> nat, chains: seq<seq<Node<K, V>>>, k: K)
    requires Placed(h, chains)
    ensures var d := chains[Index(h, k, |chains|) := Without(chains[Index(h, k, |chains|)], k)];
      Placed(h, d) && Nodes(d) ==
        if Stack(h, chains, k) == [] then Nodes(chains) else Nodes(chains) - {Stack(h, chains, k)[0]}
    ensures Stack(h, chains, k) != [] ==> Stack(h, chains, k)[0] in Nodes(chains)
  {
    hide Index, Matching, Without;
    var b := Index(h, k, |chains|);
    var c := chains[b];
    if Matching(c, k) == [] {
      NoMatches(c, k);
      assert chains[b := c] == chains;
    } else {
      var i := FirstMatch(c, k);
      hide Placed, Nodes;
      NodesCut(h, chains, b, i);
      PlacedCut(h, chains, b, i);
      StackInside(h, chains, k);
    }
  }

  /** No node is in two buckets. */
  lemma Apart<K, V>(h: K -> nat, chains: seq<seq<Node<K, V>>>, a: nat)
    requires Placed(h, chains) && a < |chains|
    ensures Distinct(chains[a])
    ensures forall b, i :: 0 <= b < |chains| && b != a && 0 <= i < |chains[b]| ==> chains[b][i] !in chains[a]
  {
    hide Index;
  }

  ghost predicate Inside<T>(s: seq<T>, ns: set<T>) {
    forall i :: 0 <= i < |s| ==> s[i] in ns
  }

  lemma StackInside<K, V>(h: K -> nat, chains: seq<seq<Node<K, V>>>, k: K)
    requires |chains| > 0
    ensures Inside(Stack(h, chains, k), Nodes(chains))
  {
    var b := Index(h, k, |chains|);
    MatchingInside(chains[b], k);
    forall i | 0 <= i < |Stack(h, chains, k)| ensures Stack(h, chains, k)[i] in Nodes(chains) {
      var j :| 0 <= j < |chains[b]| && chains[b][j] == Stack(h, chains, k)[i];
    }
  }
}
