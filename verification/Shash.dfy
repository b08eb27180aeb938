/** The word table of shash.c: string keys, and a cursor that walks every entry. */
module Shash {
  import opened Bits
  import opened Buckets
  import opened Bytes
  import opened Chains
  import opened Seqs

  const TWO_TO_THE_64 := 0x1_0000_0000_0000_0000

  /** A `char` is signed where the program runs. */
  function Signed(ch: byte): int {
    if ch < 128 then ch else ch - 256
  }

  /** The polynomial in 131, in 64-bit arithmetic. */
  function Polynomial(key: Text): nat {
    if key == [] then 0 else (Polynomial(key[..|key| - 1]) * 131 + Signed(key[|key| - 1])) % TWO_TO_THE_64
  }

  function Hash(key: Text): nat {
    Polynomial(key)
  }

  /** `str_hash` */
  method StrHash(key: Text) returns (hash: nat)
    ensures hash == Hash(key)
  {
    hash := 0;
    for i := 0 to |key|
      invariant hash == Polynomial(key[..i])
    {
      assert key[..i + 1][..i] == key[..i];
      hash := (hash * 131 + Signed(key[i])) % TWO_TO_THE_64;
    }
    assert key[..|key|] == key;
  }

  type Entry<V> = Node<Text, V>

  lemma {:induction false} FlatMembers<K, V>(chains: seq<seq<Node<K, V>>>, n: Node<K, V>)
    ensures n in Flat(chains) <==> exists b :: 0 <= b < |chains| && n in chains[b]
  {
    if chains != [] {
      FlatMembers(chains[1..], n);
      if b :| 0 <= b < |chains| && n in chains[b] {
        assert b == 0 || n in chains[1..][b - 1];
      }
    }
  }

  /** The flattened table lists every node, and no node twice. */
  lemma {:induction false} FlatOnce<K, V>(h: K -> nat, chains: seq<seq<Node<K, V>>>, from: nat)
    requires Placed(h, chains) && from <= |chains|
    ensures Distinct(Flat(chains[from..]))
    decreases |chains| - from
  {
    if from < |chains| {
      hide Index;
      FlatOnce(h, chains, from + 1);
      var rest := Flat(chains[from + 1..]);
      assert chains[from..][1..] == chains[from + 1..];
      Apart(h, chains, from);
      forall i | 0 <= i < |rest| ensures rest[i] !in chains[from] {
        FlatMembers(chains[from + 1..], rest[i]);
        var b :| 0 <= b < |chains[from + 1..]| && rest[i] in chains[from + 1..][b];
        var j :| 0 <= j < |chains[from + 1..][b]| && chains[from + 1..][b][j] == rest[i];
        assert chains[from + 1 + b][j] == rest[i];
      }
    }
  }

  /** What lies behind a cursor: at a node the rest of its chain, and then the buckets after index. */
  ghost function Rest<K, V>(chains: seq<seq<Node<K, V>>>, index: int, pos: int, atNode: bool): seq<Node<K, V>>
    requires -1 <= index && (atNode ==> 0 <= index < |chains| && 0 <= pos < |chains[index]|)
  {
    if atNode then chains[index][pos + 1..] + Flat(chains[index + 1..])
    else if index < |chains| then Flat(chains[index + 1..])
    else []
  }

  lemma RestOfBuckets<K, V>(chains: seq<seq<Node<K, V>>>, index: int, pos: int)
    requires -1 <= index
    ensures index + 1 >= |chains| ==> Rest(chains, index, pos, false) == []
    ensures index + 1 < |chains| && chains[index + 1] == [] ==>
      Rest(chains, index, pos, false) == Rest(chains, index + 1, pos, false)
    ensures index + 1 < |chains| && chains[index + 1] != [] ==>
      Rest(chains, index, pos, false) == [chains[index + 1][0]] + Rest(chains, index + 1, 0, true)
  {
    if index + 1 < |chains| {
      assert chains[index + 1..][1..] == chains[index + 2..];
    }
  }

  lemma RestOfChain<K, V>(chains: seq<seq<Node<K, V>>>, index: int, pos: int)
    requires 0 <= index < |chains| && 0 <= pos < |chains[index]|
    ensures pos + 1 == |chains[index]| ==> Rest(chains, index, pos, true) == Rest(chains, index, pos + 1, false)
    ensures pos + 1 < |chains[index]| ==>
      Rest(chains, index, pos, true) == [chains[index][pos + 1]] + Rest(chains, index, pos + 1, true)
  {
    var c, f := chains[index], Flat(chains[index + 1..]);
    assert Rest(chains, index, pos, true) == c[pos + 1..] + f;
    if pos + 1 < |c| {
      assert Rest(chains, index, pos + 1, true) == c[pos + 2..] + f;
      hide *;
      assert c[pos + 1..] == [c[pos + 1]] + c[pos + 2..];
      assert ([c[pos + 1]] + c[pos + 2..]) + f == [c[pos + 1]] + (c[pos + 2..] + f);
    } else {
      assert c[pos + 1..] == [];
    }
  }

  lemma FlatIsNodes<K, V>(chains: seq<seq<Node<K, V>>>, n: Node<K, V>)
    ensures n in Flat(chains) <==> n in Nodes(chains)
  {
    FlatMembers(chains, n);
  }

  /** A walk that was not rewound gives every entry exactly when bucket 0 is empty. */
  lemma MissedFirst<V>(chains: seq<seq<Entry<V>>>, pos: int)
    requires Placed(Hash, chains)
    ensures Flat(chains) == chains[0] + Rest(chains, 0, pos, false)
    ensures (forall n :: n in Nodes(chains) ==> n in Rest(chains, 0, pos, false)) <==> chains[0] == []
  {
    var rest := Flat(chains[1..]);
    FlatOnce(Hash, chains, 0);
    assert chains[0..] == chains && Flat(chains) == chains[0] + rest;
    TailOfDistinct(chains[0], rest);
    forall n | n in Nodes(chains) ensures n in chains[0] || n in rest {
      FlatIsNodes(chains, n);
    }
    if chains[0] != [] {
      FlatIsNodes(chains, chains[0][0]);
    }
  }

  /** What such a walk gives of one bucket. */
  lemma BucketOfWalked<V>(chains: seq<seq<Entry<V>>>, pos: int, n: Entry<V>)
    requires Placed(Hash, chains)
    ensures n in Rest(chains, 0, pos, false) <==>
      n in chains[Index(Hash, n.key, |chains|)] && Index(Hash, n.key, |chains|) != 0
  {
    var later := chains[1..];
    FlatMembers(later, n);
    hide Index;
    if b :| 0 <= b < |later| && n in later[b] {
      var i :| 0 <= i < |later[b]| && later[b][i] == n;
      assert chains[b + 1][i] == n;
    }
    var home := Index(Hash, n.key, |chains|);
    if n in chains[home] && home != 0 {
      assert later[home - 1] == chains[home];
    }
  }

  lemma TailOfDistinct<T>(c: seq<T>, rest: seq<T>)
    requires Distinct(c + rest)
    ensures c != [] ==> c[0] !in rest
  {
    forall i | c != [] && 0 <= i < |rest| ensures rest[i] != c[0] {
      assert (c + rest)[|c| + i] == rest[i] && (c + rest)[0] == c[0];
    }
  }

  lemma OneTaken<T>(all: seq<T>, x: T, rest: seq<T>)
    requires rest != [] && x == rest[0]
    ensures all + rest == (all + [x]) + rest[1..]
  {
  }

  class Table<V> {
    const len: nat
    var buckets: array<Node?<Text, V>>
    var curIndex: int
    var curNode: Node?<Text, V>
    ghost var chains: seq<seq<Entry<V>>>
    /** Where curNode stands in its chain. */
    ghost var curPos: int

    ghost predicate Linked()
      reads this, buckets, Nodes(chains)`next
    {
      && len == buckets.Length == |chains| && Placed(Hash, chains)
      && forall b :: 0 <= b < len ==> List(buckets[b], chains[b])
    }

    ghost predicate Valid()
      reads this, buckets, Nodes(chains)`next
    {
      && Linked()
      && -1 <= curIndex
      && (curNode != null ==>
        0 <= curIndex < len && 0 <= curPos < |chains[curIndex]| && chains[curIndex][curPos] == curNode)
    }

    /** The entries the walk has still to give. */
    ghost function Remaining(): seq<Entry<V>>
      requires Valid()
      reads this, buckets, Nodes(chains)`next
    {
      Rest(chains, curIndex, curPos, curNode != null)
    }

    /** `Shash_new`. The cursor starts behind bucket 0, so a walk that does not rewind first misses it. */
    constructor (size: int)
      requires 0 < size <= 0x4000_0000
      ensures Valid() && fresh(buckets) && Nodes(chains) == {} && forall k :: Stack(Hash, chains, k) == []
      ensures curIndex == 0 && curNode == null && (IsPow2(size) ==> len == size)
    {
      var l := size;
      PowerTest(size);
      if And(size, size - 1) != 0 {
        LargestPower();
        l := RoundUpPowOfTwo(size);
      }
      len := l;
      buckets := new Node?<Text, V>[l](i => null);
      chains := seq(l, i => []);
      curIndex, curNode, curPos := 0, null, 0;
    }

    /** `Shash_find` */
    method FindNode(key: Text) returns (r: Node?<Text, V>)
      requires Valid()
      ensures if Stack(Hash, chains, key) == [] then r == null else r == Stack(Hash, chains, key)[0]
    {
      hide Hash, Mod, Matching;
      var hash := StrHash(key);
      var index := Mod(hash, len);
      assert index == Index(Hash, key, len);
      r := Find(buckets[index], key, chains[index]);
    }

    /** Puts a new node in front of its bucket. */
    method Add(index: nat, key: Text, value: V) returns (node: Entry<V>)
      requires Linked() && index < len && index == Index(Hash, key, len)
      modifies this`chains, buckets
      ensures Linked() && fresh(node) && node.key == key && node.value == value
      ensures chains == old(chains)[index := [node] + old(chains)[index]]
    {
      hide Index, Matching;
      node := new Node(key, value, buckets[index]);
      buckets[index] := node;
      Push(node, chains[index]);
      Pushed(Hash, chains, index, node);
      chains := chains[index := [node] + chains[index]];
    }

    /** `Shash_insert`. The cursor keeps its place. */
    method Insert(key: Text, value: V) returns (node: Entry<V>)
      requires Valid()
      modifies this`chains, this`curPos, buckets
      ensures Valid() && fresh(node) && node.key == key && node.value == value
      ensures Nodes(chains) == old(Nodes(chains)) + {node}
      ensures forall k ::
        Stack(Hash, chains, k) ==
          (if k == key then [node] + old(Stack(Hash, chains, k)) else old(Stack(Hash, chains, k)))
    {
      hide Hash, Mod, Matching, Nodes, List;
      var hash := StrHash(key);
      var index := Mod(hash, len);
      assert index == Index(Hash, key, len);
      ghost var was := chains;
      node := Add(index, key, value);
      Pushed(Hash, was, index, node);
      if index == curIndex {
        curPos := curPos + 1;
      }
    }

    /** `Shash_rewalk` */
    method Rewalk()
      requires Valid()
      modifies this`curIndex, this`curNode
      ensures Valid() && Remaining() == Flat(chains)
    {
      curNode := null;
      curIndex := -1;
      assert chains[0..] == chains;
    }

    /** The inner loop of `Shash_walk`: on to the next bucket that holds anything. */
    method Advance() returns (found: bool)
      requires Valid() && curNode == null
      modifies this`curIndex, this`curNode, this`curPos
      ensures Valid() && found == (old(Remaining()) != []) == (curNode != null)
      ensures if found then curNode == old(Remaining()[0]) && Remaining() == old(Remaining()[1..])
              else Remaining() == []
    {
      hide Rest, Placed, Nodes;
      while true
        invariant Valid() && curNode == null && Remaining() == old(Remaining())
        decreases len - curIndex
      {
        RestOfBuckets(chains, curIndex, curPos);
        curIndex := curIndex + 1;
        if curIndex > len - 1 {
          RestOfBuckets(chains, curIndex, curPos);
          return false;
        }
        curNode := buckets[curIndex];
        if curNode != null {
          curPos := 0;
          return true;
        }
      }
    }

    /** `Shash_walk`: the next entry, or -1 once there is none, on that call and on every later one. */
    method Walk() returns (status: int, node: Node?<Text, V>)
      requires Valid()
      modifies this`curIndex, this`curNode, this`curPos
      ensures Valid()
      ensures if old(Remaining()) == [] then status == -1 && node == null && Remaining() == []
        else status == 0 && node == old(Remaining()[0]) && Remaining() == old(Remaining()[1..])
    {
      hide Rest, Placed, Nodes;
      if curNode != null {
        RestOfChain(chains, curIndex, curPos);
        curNode, curPos := curNode.next, curPos + 1;
        if curNode != null {
          return 0, curNode;
        }
      }
      var found := Advance();
      return if found then 0 else -1, curNode;
    }

    /** The loop `while (-1 != Shash_walk(...))` of `spam_filter` and `spam_close`. */
    method Collect() returns (all: seq<Entry<V>>)
      requires Valid()
      modifies this`curIndex, this`curNode, this`curPos
      ensures Valid() && all == old(Remaining()) && Remaining() == []
    {
      hide *;
      all := [];
      ghost var rest := Remaining();
      while true
        invariant Valid() && Remaining() == rest && old(Remaining()) == all + rest
        decreases |rest|
      {
        var status, node := Walk();
        if status == -1 {
          return;
        }
        OneTaken(all, node, rest);
        all, rest := all + [node], rest[1..];
      }
    }

    /** After a rewind the walk gives every stored entry exactly once. */
    method CollectAll() returns (all: seq<Entry<V>>)
      requires Valid()
      modifies this`curIndex, this`curNode, this`curPos
      ensures Valid() && Remaining() == []
      ensures Distinct(all) && forall n :: n in all <==> n in Nodes(chains)
    {
      Rewalk();
      all := Collect();
      FlatOnce(Hash, chains, 0);
      assert chains[0..] == chains;
      forall n: Entry<V> ensures n in all <==> n in Nodes(chains) {
        FlatIsNodes(chains, n);
      }
    }
  }
}
