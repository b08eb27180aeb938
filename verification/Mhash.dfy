/** The connection table of mhash.c: a stack of nodes per 4-tuple, chained in buckets. */
module Mhash {
  import opened Bits
  import opened Buckets
  import opened Chains
  import opened Seqs
  import opened Wrappers

  /** `struct tuple4` */
  datatype Tuple4 = Tuple4(source: bv16, dest: bv16, saddr: bv32, daddr: bv32)

  /** `tuple4_hash`: six bits of the high address halves beside ten bits of the low address bytes and the
      source port. The destination port takes no part, so both directions are not told apart by it. */
  function Hash(k: Tuple4): nat {
    var h6 := (k.daddr >> 16) ^ (k.saddr >> 16);
    var l10 := ((k.daddr & 0xff) ^ (k.saddr & 0xff)) ^ (k.source as bv32);
    (((h6 & 63) << 10) | (l10 & 1023)) as nat
  }

  type Cell<V> = Node<Tuple4, V>

  // ------------------------------------------------------------------- the pool of nodes

  /** The pool hands a cell of memory out, or gets it back. */
  datatype Event = Out(cell: nat) | Back(cell: nat)

  ghost function InUse(log: seq<Event>): set<nat> {
    if log == [] then {}
    else
      var before := InUse(log[..|log| - 1]);
      match log[|log| - 1]
      case Out(cell) => before + {cell}
      case Back(cell) => before - {cell}
  }

  /** Only cells not in use are handed out, and only cells in use come back. */
  ghost predicate TakesTurns(log: seq<Event>) {
    forall i :: 0 <= i < |log| ==> (log[i].Out? <==> log[i].cell !in InUse(log[..i]))
  }

  lemma InUseAfter(log: seq<Event>, e: Event)
    ensures InUse(log + [e]) == if e.Out? then InUse(log) + {e.cell} else InUse(log) - {e.cell}
  {
    assert (log + [e])[..|log|] == log;
  }

  lemma TurnsMore(log: seq<Event>, e: Event)
    requires TakesTurns(log) && (e.Out? <==> e.cell !in InUse(log))
    ensures TakesTurns(log + [e])
  {
    var log' := log + [e];
    forall i | 0 <= i < |log'| ensures log'[i].Out? <==> log'[i].cell !in InUse(log'[..i]) {
      assert log'[..i] == log[..i] && log[..|log|] == log;
    }
  }

  /** A cell stays in or out of use for as long as no event turns it over. */
  lemma {:induction false} Unturned(log: seq<Event>, i: nat, j: nat, cell: nat)
    requires i < j <= |log| && log[i].cell == cell
    requires forall k :: i < k < j && log[k].cell == cell ==> log[k].Out? == log[i].Out?
    ensures cell in InUse(log[..j]) <==> log[i].Out?
    decreases j
  {
    assert log[..j] == log[..j - 1] + [log[j - 1]];
    InUseAfter(log[..j - 1], log[j - 1]);
    if i < j - 1 {
      Unturned(log, i, j - 1, cell);
    }
  }

  /** Between two returns of a cell it is handed out, and between two hand-outs it comes back. */
  ghost predicate Alternates(log: seq<Event>) {
    forall i, j :: 0 <= i < j < |log| && log[i] == log[j] ==>
      exists k :: i < k < j && log[k].cell == log[i].cell && log[k].Out? != log[i].Out?
  }

  lemma TurnsAlternate(log: seq<Event>)
    requires TakesTurns(log)
    ensures Alternates(log)
  {
    forall i, j | 0 <= i < j < |log| && log[i] == log[j]
      ensures exists k :: i < k < j && log[k].cell == log[i].cell && log[k].Out? != log[i].Out?
    {
      if forall k :: i < k < j && log[k].cell == log[i].cell ==> log[k].Out? == log[i].Out? {
        Unturned(log, i, j, log[i].cell);
      }
    }
  }

  /** The pool: its free cells, the next to be handed out first, and how many it ever carved. */
  datatype Pool = Pool(free: seq<nat>, carved: nat, step: nat)

  /** Every cell is free once, or used. */
  ghost predicate Sorted(p: Pool, used: set<nat>) {
    && p.step > 0 && Distinct(p.free)
    && (forall a :: 0 <= a < p.carved <==> a in p.free || a in used)
    && forall a :: a in used ==> a !in p.free
  }

  /** The cells of a block. */
  function Block(from: nat, n: nat): (s: seq<nat>)
    ensures |s| == n && Distinct(s) && forall a :: a in s <==> from <= a < from + n
    decreases n
  {
    if n == 0 then []
    else
      var more := Block(from + 1, n - 1);
      assert forall i :: 0 <= i < |more| ==> more[i] in more;
      [from] + more
  }

  /** `Mpool_new`: one block, all of it free. */
  function NewPool(step: nat): Pool {
    Pool(Block(0, step), step, step)
  }

  /** `Mpool_alloc` by the only thread: a block more if no cell is free, and the first free cell. */
  function Grown(p: Pool): Pool {
    if p.free == [] then p.(free := Block(p.carved, p.step), carved := p.carved + p.step) else p
  }

  function Taken(p: Pool): (r: (Pool, nat))
    requires p.step > 0
  {
    var g := Grown(p);
    (g.(free := g.free[1..]), g.free[0])
  }

  /** `Mpool_free` by the only thread. */
  function Given(p: Pool, cell: nat): Pool {
    p.(free := [cell] + p.free)
  }

  lemma NewIsSorted(step: nat)
    requires step > 0
    ensures Sorted(NewPool(step), {})
  {
  }

  lemma GrownIsSorted(p: Pool, used: set<nat>)
    requires Sorted(p, used)
    ensures Sorted(Grown(p), used) && Grown(p).free != []
  {
    assert p.free == [] || Grown(p) == p;
  }

  lemma FreeTail(free: seq<nat>)
    requires Distinct(free) && free != []
    ensures Distinct(free[1..]) && free[0] !in free[1..]
    ensures forall a :: a in free <==> a == free[0] || a in free[1..]
  {
    var rest := free[1..];
    assert free == [free[0]] + rest;
    assert forall i :: 0 <= i < |rest| ==> rest[i] == free[i + 1] != free[0];
  }

  lemma TakenIsSorted(p: Pool, used: set<nat>)
    requires Sorted(p, used)
    ensures var (q, cell) := Taken(p); cell !in used && Sorted(q, used + {cell})
  {
    GrownIsSorted(p, used);
    var g := Grown(p);
    FreeTail(g.free);
    hide Grown, Distinct;
  }

  lemma GivenIsSorted(p: Pool, used: set<nat>, cell: nat)
    requires Sorted(p, used) && cell in used
    ensures Sorted(Given(p, cell), used - {cell})
  {
  }

  /** Every cell is free, or holds one node, and no cell was handed out or given back twice running. */
  ghost predicate PoolInv<N>(pool: Pool, cells: map<N, nat>, log: seq<Event>) {
    && Sorted(pool, cells.Values)
    && (forall n, m :: n in cells && m in cells && n != m ==> cells[n] != cells[m])
    && TakesTurns(log) && InUse(log) == cells.Values
  }

  lemma PoolStarts<N>(step: nat)
    requires step > 0
    ensures PoolInv<N>(NewPool(step), map[], [])
  {
    NewIsSorted(step);
  }

  /** A new node gets a cell no other node is in. */
  lemma HandedOut<N>(pool: Pool, cells: map<N, nat>, log: seq<Event>, n: N)
    requires PoolInv(pool, cells, log) && n !in cells
    ensures pool.step > 0
    ensures var (q, cell) := Taken(pool); PoolInv(q, cells[n := cell], log + [Out(cell)])
  {
    hide Taken, TakesTurns, InUse;
    var (q, cell) := Taken(pool);
    TakenIsSorted(pool, cells.Values);
    TurnsMore(log, Out(cell));
    InUseAfter(log, Out(cell));
    var cells' := cells[n := cell];
    assert forall m :: m in cells ==> cells'[m] == cells[m] && cells[m] in cells.Values;
    forall a | a in cells.Values ensures a in cells'.Values {
      var m :| m in cells && cells[m] == a;
      assert cells'[m] == a;
    }
    assert cells'[n] == cell && cells'.Values == cells.Values + {cell};
    hide Sorted;
  }

  lemma CellFreed<N>(cells: map<N, nat>, n: N)
    requires n in cells && forall k, m :: k in cells && m in cells && k != m ==> cells[k] != cells[m]
    ensures (cells - {n}).Values == cells.Values - {cells[n]}
  {
    var cells' := cells - {n};
    assert forall m :: m in cells' ==> cells'[m] == cells[m];
    forall a | a in cells.Values && a != cells[n] ensures a in cells'.Values {
      var m :| m in cells && cells[m] == a;
      assert cells'[m] == a;
    }
  }

  /** ... and gives it back. */
  lemma TakenBack<N>(pool: Pool, cells: map<N, nat>, log: seq<Event>, n: N)
    requires PoolInv(pool, cells, log) && n in cells
    ensures PoolInv(Given(pool, cells[n]), cells - {n}, log + [Back(cells[n])])
  {
    GivenIsSorted(pool, cells.Values, cells[n]);
    TurnsMore(log, Back(cells[n]));
    InUseAfter(log, Back(cells[n]));
    CellFreed(cells, n);
    hide Sorted, TakesTurns, InUse, Given;
  }

  // ------------------------------------------------------------------- the table

  lemma BucketInside<V>(chains: seq<seq<Cell<V>>>, b: nat)
    requires b < |chains|
    ensures forall n :: n in chains[b] ==> n in Nodes(chains)
  {
  }

  class Table<V> {
    var len: nat
    var buckets: array<Node?<Tuple4, V>>
    ghost var chains: seq<seq<Cell<V>>>
    /** The pool the nodes come from, the cell each node in the table is kept in, and what the pool did. A cell
        that is handed out again holds a new node. */
    ghost var pool: Pool
    ghost var cells: map<Cell<V>, nat>
    ghost var log: seq<Event>

    ghost predicate Valid()
      reads this`len, this`buckets, this`chains, buckets, Nodes(chains)`next
    {
      && len == buckets.Length == |chains| && Placed(Hash, chains)
      && forall b :: 0 <= b < len ==> List(buckets[b], chains[b])
    }

    /** The pool's cells in use are those of the nodes in the table. */
    ghost predicate Pooled()
      reads this`chains, this`pool, this`cells, this`log
    {
      cells.Keys == Nodes(chains) && PoolInv(pool, cells, log)
    }

    /** `Mhash_new`. For a power of two the source leaves the length alone, otherwise it rounds up. */
    constructor (size: int, step: nat)
      requires 0 < size <= 0x4000_0000 && step > 0
      ensures Valid() && Pooled() && fresh(buckets) && log == [] && Nodes(chains) == {}
              && forall k :: Stack(Hash, chains, k) == []
    {
      var l := size;
      PowerTest(size);
      if And(size, size - 1) != 0 {
        LargestPower();
        l := RoundUpPowOfTwo(size);
      }
      len := l;
      buckets := new Node?<Tuple4, V>[l](i => null);
      chains := seq(l, i => []);
      pool := NewPool(step);
      cells := map[];
      log := [];
      PoolStarts<Cell<V>>(step);
    }

    /** `Mhash_find`: the newest node stored under key. */
    method FindNode(key: Tuple4) returns (r: Node?<Tuple4, V>)
      requires Valid()
      ensures if Stack(Hash, chains, key) == [] then r == null else r == Stack(Hash, chains, key)[0]
    {
      hide Index, Matching;
      var index := Index(Hash, key, len);
      r := Find(buckets[index], key, chains[index]);
    }

    /** `Mhash_insert` */
    method Insert(key: Tuple4, value: V) returns (node: Cell<V>)
      requires Valid() && Pooled()
      modifies this`chains, this`pool, this`cells, this`log, buckets
      ensures Valid() && Pooled() && fresh(node) && node.key == key && node.value == value
      ensures node in cells && cells == old(cells)[node := cells[node]]
      ensures old(pool).step > 0 && (pool, cells[node]) == Taken(old(pool))
      ensures log == old(log) + [Out(cells[node])]
      ensures buckets == old(buckets) && Nodes(chains) == old(Nodes(chains)) + {node}
      ensures forall k ::
        Stack(Hash, chains, k) ==
          (if k == key then [node] + old(Stack(Hash, chains, k)) else old(Stack(Hash, chains, k)))
    {
      hide Index, Matching, PoolInv, Taken, Nodes, Placed, List;
      node := PutFirst(key, value);
      Acquire(node);
    }

    /** Puts a new node at the front of the bucket of key. */
    method PutFirst(key: Tuple4, value: V) returns (node: Cell<V>)
      requires Valid()
      modifies this`chains, buckets
      ensures Valid() && fresh(node) && node.key == key && node.value == value
      ensures node !in old(Nodes(chains)) && Nodes(chains) == old(Nodes(chains)) + {node}
      ensures forall k ::
        Stack(Hash, chains, k) ==
          (if k == key then [node] + old(Stack(Hash, chains, k)) else old(Stack(Hash, chains, k)))
    {
      hide Index, Matching;
      var index := Index(Hash, key, len);
      node := new Node(key, value, buckets[index]);
      buckets[index] := node;
      Push(node, chains[index]);
      Pushed(Hash, chains, index, node);
      chains := chains[index := [node] + chains[index]];
    }

    /** `Mpool_alloc` */
    method Acquire(node: Cell<V>)
      requires node !in cells && PoolInv(pool, cells, log)
      modifies this`pool, this`cells, this`log
      ensures PoolInv(pool, cells, log) && node in cells && cells == old(cells)[node := cells[node]]
      ensures old(pool).step > 0 && (pool, cells[node]) == Taken(old(pool)) && log == old(log) + [Out(cells[node])]
    {
      hide PoolInv, Taken;
      HandedOut(pool, cells, log, node);
      var (rest, cell) := Taken(pool);
      pool, cells, log := rest, cells[node := cell], log + [Out(cell)];
    }

    /** Takes the newest node of key out of the bucket at index. */
    method Cut(index: nat, key: Tuple4) returns (removed: Node?<Tuple4, V>)
      requires Valid() && index < len && index == Index(Hash, key, len)
      modifies this`chains, buckets, chains[index]`next
      ensures Valid() && chains == old(chains)[index := Without(old(chains)[index], key)]
      ensures if old(Stack(Hash, chains, key)) == [] then removed == null
              else removed == old(Stack(Hash, chains, key)[0])
    {
      hide Index, Matching, Without, Nodes, List;
      ghost var c := chains[index];
      NodesPopped(Hash, chains, key);
      Apart(Hash, chains, index);
      hide Placed, Distinct;
      buckets[index], removed := Unlink(buckets[index], key, c);
      chains := chains[index := Without(c, key)];
    }

    /** `Mpool_free` */
    method Release(node: Cell<V>)
      requires node in cells && PoolInv(pool, cells, log)
      modifies this`pool, this`cells, this`log
      ensures PoolInv(pool, cells, log) && cells == old(cells) - {node}
      ensures pool == Given(old(pool), old(cells)[node]) && log == old(log) + [Back(old(cells)[node])]
    {
      hide PoolInv, Given;
      TakenBack(pool, cells, log, node);
      pool, cells, log := Given(pool, cells[node]), cells - {node}, log + [Back(cells[node])];
    }

    /** Takes the newest node of key out of the table, if there is one. */
    method Pop(key: Tuple4) returns (removed: Node?<Tuple4, V>)
      requires Valid()
      modifies this`chains, buckets, Nodes(chains)`next
      ensures Valid()
      ensures if old(Stack(Hash, chains, key)) == [] then removed == null && Nodes(chains) == old(Nodes(chains))
              else removed == old(Stack(Hash, chains, key)[0]) && removed in old(Nodes(chains))
                   && Nodes(chains) == old(Nodes(chains)) - {removed}
      ensures forall k ::
        Stack(Hash, chains, k) ==
        (if k == key && removed != null then old(Stack(Hash, chains, k))[1..] else old(Stack(Hash, chains, k)))
    {
      var index := Index(Hash, key, len);
      hide Index, Matching, Without;
      Popped(Hash, chains, key);
      NodesPopped(Hash, chains, key);
      if buckets[index] == null {
        NoMatch(chains[index], key);
        return null;
      }
      BucketInside(chains, index);
      hide Nodes, Placed, List;
      removed := Cut(index, key);
    }

    /** `Mhash_del` */
    method Del(key: Tuple4) returns (status: int)
      requires Valid() && Pooled()
      modifies this`chains, this`pool, this`cells, this`log, buckets, Nodes(chains)`next
      ensures Valid() && Pooled() && buckets == old(buckets)
      ensures status == if old(Stack(Hash, chains, key)) == [] then -1 else 0
      ensures Nodes(chains) == old(Nodes(chains)) - if status == 0 then {old(Stack(Hash, chains, key)[0])} else {}
      ensures status != 0 ==> cells == old(cells) && log == old(log) && pool == old(pool)
      ensures status == 0 ==>
        var node := old(Stack(Hash, chains, key)[0]);
        && node in old(cells) && cells == old(cells) - {node} && pool == Given(old(pool), old(cells)[node])
        && log == old(log) + [Back(old(cells)[node])]
      ensures forall k ::
        Stack(Hash, chains, k) ==
        (if k == key && status == 0 then old(Stack(Hash, chains, k))[1..] else old(Stack(Hash, chains, k)))
    {
      hide Index, Matching, PoolInv, Given, Nodes, Placed, List;
      var removed := Pop(key);
      if removed == null {
        return -1;
      }
      Release(removed);
      return 0;
    }
  }

  datatype Op<V> = Ins(key: Tuple4, value: V) | Look(key: Tuple4) | Rem(key: Tuple4)

  /** What one operation does to the stack m kept under k. */
  ghost function Effect<V>(op: Op<V>, k: Tuple4, m: seq<V>): seq<V> {
    if op.Look? || op.key != k then m else if op.Ins? then [op.value] + m else if m == [] then [] else m[1..]
  }

  /** What the operations leave under k in the map the table stands for, newest first. */
  ghost function Model<V>(ops: seq<Op<V>>, k: Tuple4): seq<V> {
    if ops == [] then [] else Effect(ops[|ops| - 1], k, Model(ops[..|ops| - 1], k))
  }

  ghost function Top<V>(s: seq<V>): Option<V> {
    if s == [] then None else Some(s[0])
  }

  ghost function Values<V>(s: seq<Cell<V>>): seq<V>
    reads s
  {
    seq(|s|, i requires 0 <= i < |s| reads s => s[i].value)
  }

  /** The table holds, under every key, the values the operations so far leave there. */
  ghost predicate Refines<V>(t: Table<V>, ops: seq<Op<V>>)
    reads t, t.buckets, Nodes(t.chains)
  {
    && t.Valid() && t.Pooled()
    && forall k ::
      Inside(Stack(Hash, t.chains, k), Nodes(t.chains)) && Values(Stack(Hash, t.chains, k)) == Model(ops, k)
  }

  lemma NewTable<V>(t: Table<V>)
    requires t.Valid() && t.Pooled() && forall k :: Stack(Hash, t.chains, k) == []
    ensures Refines(t, [])
    ensures Answers<V>([]) == []
  {
  }

  lemma ModelAfter<V>(ops: seq<Op<V>>, op: Op<V>, k: Tuple4)
    ensures Model(ops + [op], k) == Effect(op, k, Model(ops, k))
  {
    assert (ops + [op])[..|ops|] == ops;
  }

  method ApplyIns<V>(t: Table<V>, key: Tuple4, value: V, ghost ops: seq<Op<V>>)
    requires Refines(t, ops)
    modifies t, t.buckets
    ensures Refines(t, ops + [Ins(key, value)]) && t.buckets == old(t.buckets)
    ensures forall n :: n in Nodes(t.chains) ==> n in old(Nodes(t.chains)) || fresh(n)
  {
    hide Nodes, Stack, Index, PoolInv, Taken;
    var node := t.Insert(key, value);
    forall k ensures Inside(Stack(Hash, t.chains, k), Nodes(t.chains))
      && Values(Stack(Hash, t.chains, k)) == Model(ops + [Ins(key, value)], k)
    {
      ModelAfter(ops, Ins(key, value), k);
      StackInside(Hash, t.chains, k);
      assert Values(old(Stack(Hash, t.chains, k))) == old(Values(Stack(Hash, t.chains, k)));
    }
  }

  method ApplyRem<V>(t: Table<V>, key: Tuple4, ghost ops: seq<Op<V>>)
    requires Refines(t, ops)
    modifies t, t.buckets, Nodes(t.chains)
    ensures Refines(t, ops + [Rem(key)]) && t.buckets == old(t.buckets)
    ensures forall n :: n in Nodes(t.chains) ==> n in old(Nodes(t.chains)) || fresh(n)
  {
    hide Nodes, Stack, Index, PoolInv, Model;
    var status := t.Del(key);
    forall k ensures Inside(Stack(Hash, t.chains, k), Nodes(t.chains))
      && Values(Stack(Hash, t.chains, k)) == Model(ops + [Rem(key)], k)
    {
      ModelAfter(ops, Rem(key), k);
      StackInside(Hash, t.chains, k);
      assert Values(old(Stack(Hash, t.chains, k))) == old(Values(Stack(Hash, t.chains, k)));
    }
  }

  /** A find answers what the map holds. */
  method ApplyLook<V>(t: Table<V>, key: Tuple4, ghost ops: seq<Op<V>>) returns (answer: Option<V>)
    requires Refines(t, ops)
    ensures answer == Top(Model(ops, key)) && Refines(t, ops + [Look(key)])
  {
    hide Index;
    assert Values(Stack(Hash, t.chains, key)) == Model(ops, key);
    var r := t.FindNode(key);
    assert Refines(t, ops);
    answer := if r == null then None else Some(r.value);
    forall k ensures Model(ops + [Look(key)], k) == Model(ops, k) {
      ModelAfter(ops, Look(key), k);
    }
  }

  /** The answers the map gives to the finds among the operations, in order. */
  ghost function Answers<V>(ops: seq<Op<V>>): seq<Option<V>> {
    if ops == [] then []
    else
      var before, op := ops[..|ops| - 1], ops[|ops| - 1];
      Answers(before) + if op.Look? then [Top(Model(before, op.key))] else []
  }

  lemma AnswersAfter<V>(ops: seq<Op<V>>, n: nat)
    requires n < |ops|
    ensures Answers(ops[..n + 1]) == Answers(ops[..n]) + if ops[n].Look? then [Top(Model(ops[..n], ops[n].key))] else []
    ensures ops[..n + 1] == ops[..n] + [ops[n]]
  {
    assert ops[..n + 1][..n] == ops[..n];
  }

  /** Any run of inserts, finds and deletes on a new table is a run on the map. */
  method Run<V>(size: int, step: nat, ops: seq<Op<V>>) returns (t: Table<V>, answers: seq<Option<V>>)
    requires 0 < size <= 0x4000_0000 && step > 0
    ensures fresh(t) && Refines(t, ops) && answers == Answers(ops) && Alternates(t.log)
  {
    hide Nodes, Stack, Index, PoolInv, Model, Answers;
    t := new Table(size, step);
    answers := [];
    NewTable(t);
    for n := 0 to |ops|
      invariant Refines(t, ops[..n]) && answers == Answers(ops[..n])
      invariant fresh(t) && fresh(t.buckets) && fresh(Nodes(t.chains))
    {
      AnswersAfter(ops, n);
      match ops[n] {
        case Ins(key, value) => ApplyIns(t, key, value, ops[..n]);
        case Rem(key) => ApplyRem(t, key, ops[..n]);
        case Look(key) =>
          var answer := ApplyLook(t, key, ops[..n]);
          answers := answers + [answer];
      }
    }
    assert ops[..|ops|] == ops;
    LogAlternates(t);
  }

  lemma LogAlternates<V>(t: Table<V>)
    requires t.Pooled()
    ensures Alternates(t.log)
  {
    TurnsAlternate(t.log);
  }
}
