/** How many threads the pool stands: it is safe in every interleaving exactly when at most one thread
    allocates, or none frees. */
module PoolThreads {
  import opened PoolSafety
  import opened PoolSteps
  import opened Seqs
  import opened Wrappers

  /** The free list is acyclic and holds no node that a caller has. */
  ghost predicate Sound(p: Pool) {
    exists l: seq<Addr> :: Chain(p.next, p.top, l) && Distinct(l) && forall b :: b in l ==> b !in p.handed
  }

  /** Every block added has the size of the first. */
  ghost predicate SameSize(sts: seq<Step>, n: nat) {
    forall i :: 0 <= i < |sts| && sts[i].Malloc? ==> |sts[i].block| == n
  }

  // ------------------------------------------------------------------- without freeing threads

  /** Without frees no link of a node ever changes, so what an allocating thread has read stays true. */
  ghost predicate ThreadOk(pc: AllocPc, next: map<Addr, Link>, l: seq<Addr>, handed: set<Addr>) {
    match pc
    case Idle => true
    case Empty => true
    case Looping => true
    case Fresh(block) =>
      && block != [] && Distinct(block) && Chain(next, Some(block[0]), block)
      && forall b :: b in block ==> b in next && b !in l && b !in handed
    case Loaded(tmp) => tmp in next
    case Ready(tmp, after) => tmp in next && next[tmp] == after
  }

  ghost predicate Apart(allocs: seq<AllocPc>, a: int, c: int)
    requires 0 <= a < |allocs| && 0 <= c < |allocs|
  {
    allocs[a].Fresh? && allocs[c].Fresh? ==> forall b :: b in allocs[a].block ==> b !in allocs[c].block
  }

  ghost predicate NoFrees(p: Pool, l: seq<Addr>) {
    && |p.frees| == 0 && Chain(p.next, p.top, l) && Distinct(l) && p.handed <= p.next.Keys
    && (forall b :: b in l ==> b in p.next && b !in p.handed)
    && (forall a :: 0 <= a < |p.allocs| ==> ThreadOk(p.allocs[a], p.next, l, p.handed))
    && forall a, c :: 0 <= a < |p.allocs| && 0 <= c < |p.allocs| && a != c ==> Apart(p.allocs, a, c)
  }

  /** A thread's view survives new links of other nodes, and a new list or new holders that avoid its block. */
  lemma ThreadKeeps(pc: AllocPc, next: map<Addr, Link>, l: seq<Addr>, handed: set<Addr>,
                    next': map<Addr, Link>, l': seq<Addr>, handed': set<Addr>)
    requires ThreadOk(pc, next, l, handed)
    requires forall b :: b in next ==> b in next' && next'[b] == next[b]
    requires pc.Fresh? ==> forall b :: b in pc.block ==> b !in l' && b !in handed'
    ensures ThreadOk(pc, next', l', handed')
  {
    if pc.Fresh? {
      ChainOfOthers(next, next', Some(pc.block[0]), pc.block);
    }
  }

  lemma MallocThreads(p: Pool, st: Step, l: seq<Addr>, a: int)
    requires NoFrees(p, l) && Enabled(p, st) && st.Malloc? && 0 <= a < |p.allocs|
    ensures ThreadOk(After(p, st).allocs[a], After(p, st).next, l, p.handed)
    ensures a != st.a ==> Apart(After(p, st).allocs, a, st.a) && Apart(After(p, st).allocs, st.a, a)
  {
    var q := After(p, st);
    assert ThreadOk(p.allocs[a], p.next, l, p.handed);
    if a == st.a {
      NewBlockChain(p.next, st.block);
      hide Chain, Links;
      assert forall b :: b in st.block ==> b !in p.next;
    } else {
      hide Chain, Links, Distinct;
      ThreadKeeps(p.allocs[a], p.next, l, p.handed, q.next, l, p.handed);
    }
  }

  lemma MallocKeeps(p: Pool, st: Step, l: seq<Addr>)
    requires NoFrees(p, l) && Enabled(p, st) && st.Malloc?
    ensures NoFrees(After(p, st), l)
  {
    var q := After(p, st);
    ChainOfOthers(p.next, q.next, p.top, l);
    forall a | 0 <= a < |q.allocs| ensures ThreadOk(q.allocs[a], q.next, l, q.handed) {
      MallocThreads(p, st, l, a);
    }
    forall a, c | 0 <= a < |q.allocs| && 0 <= c < |q.allocs| && a != c ensures Apart(q.allocs, a, c) {
      MallocThreads(p, st, l, a);
      MallocThreads(p, st, l, c);
      assert Apart(p.allocs, a, c);
    }
    hide ThreadOk, Apart, Links, Distinct;
  }

  lemma PublishKeeps(p: Pool, st: Step, l: seq<Addr>)
    requires NoFrees(p, l) && Enabled(p, st) && st.Publish?
    ensures NoFrees(After(p, st), p.allocs[st.a].block)
  {
    var q, block := After(p, st), p.allocs[st.a].block;
    assert ThreadOk(p.allocs[st.a], p.next, l, p.handed);
    forall a | 0 <= a < |q.allocs| ensures ThreadOk(q.allocs[a], q.next, block, q.handed) {
      if a != st.a {
        assert ThreadOk(p.allocs[a], p.next, l, p.handed) && Apart(p.allocs, a, st.a);
        ThreadKeeps(p.allocs[a], p.next, l, p.handed, p.next, block, p.handed);
      }
    }
    forall a, c | 0 <= a < |q.allocs| && 0 <= c < |q.allocs| && a != c ensures Apart(q.allocs, a, c) {
      assert Apart(p.allocs, a, c);
    }
  }

  lemma PopKeeps(p: Pool, st: Step, l: seq<Addr>)
    requires NoFrees(p, l) && Enabled(p, st) && st.CasPop?
    ensures NoFrees(After(p, st), if p.top == Some(p.allocs[st.a].tmp) then l[1..] else l)
  {
    var q, tmp := After(p, st), p.allocs[st.a].tmp;
    var l' := if p.top == Some(tmp) then l[1..] else l;
    assert ThreadOk(p.allocs[st.a], p.next, l, p.handed);
    if p.top == Some(tmp) {
      ChainWithoutFirst(p.next, p.top, l);
    }
    forall a | 0 <= a < |q.allocs| ensures ThreadOk(q.allocs[a], q.next, l', q.handed) {
      if a != st.a {
        assert ThreadOk(p.allocs[a], p.next, l, p.handed);
        ThreadKeeps(p.allocs[a], p.next, l, p.handed, p.next, l', q.handed);
      }
    }
    forall a, c | 0 <= a < |q.allocs| && 0 <= c < |q.allocs| && a != c ensures Apart(q.allocs, a, c) {
      assert Apart(p.allocs, a, c);
    }
  }

  lemma ReadKeeps(p: Pool, st: Step, l: seq<Addr>)
    requires NoFrees(p, l) && Enabled(p, st) && (st.Enter? || st.Load? || st.LoadNext?)
    ensures NoFrees(After(p, st), l)
  {
    var q := After(p, st);
    assert p.top != None ==> l != [] && l[0] in l;
    forall a | 0 <= a < |q.allocs| ensures ThreadOk(q.allocs[a], q.next, l, q.handed) {
      assert ThreadOk(p.allocs[a], p.next, l, p.handed);
    }
    forall a, c | 0 <= a < |q.allocs| && 0 <= c < |q.allocs| && a != c ensures Apart(q.allocs, a, c) {
      assert Apart(p.allocs, a, c);
    }
  }

  lemma AllocatorsKeep(p: Pool, st: Step, l: seq<Addr>) returns (l': seq<Addr>)
    requires NoFrees(p, l) && Enabled(p, st)
    ensures NoFrees(After(p, st), l')
  {
    if st.Malloc? {
      l' := l;
      MallocKeeps(p, st, l);
    } else if st.Publish? {
      l' := p.allocs[st.a].block;
      PublishKeeps(p, st, l);
    } else if st.CasPop? {
      l' := if p.top == Some(p.allocs[st.a].tmp) then l[1..] else l;
      PopKeeps(p, st, l);
    } else {
      l' := l;
      ReadKeeps(p, st, l);
    }
  }

  lemma {:induction false} RunWithoutFrees(p: Pool, block: seq<Addr>, sts: seq<Step>) returns (l: seq<Addr>)
    requires Initial(p, block) && |p.frees| == 0 && Exec(p, sts).Some?
    ensures NoFrees(Exec(p, sts).value, l)
    decreases |sts|
  {
    if sts == [] {
      l := block;
      LinksMakeChain(block);
    } else {
      var m := |sts| - 1;
      l := RunWithoutFrees(p, block, sts[..m]);
      l := AllocatorsKeep(Exec(p, sts[..m]).value, sts[m], l);
    }
  }

  /** Nobody ever holds a node, so nothing happens. */
  lemma {:induction false} RunWithoutAllocs(p: Pool, block: seq<Addr>, sts: seq<Step>)
    requires Initial(p, block) && |p.allocs| == 0 && Exec(p, sts).Some?
    ensures sts == []
    decreases |sts|
  {
    if sts != [] {
      RunWithoutAllocs(p, block, sts[..|sts| - 1]);
    }
  }

  lemma InvIsSound(p: Pool, l: seq<Addr>, at: map<Addr, Place>)
    requires Inv(p, l, at)
    ensures Sound(p)
  {
    assert Chain(p.next, p.top, l) && Distinct(l);
    assert forall b :: b in l ==> b in at && at[b] == OnFreeList;
  }

  lemma FewThreadsAreSound(p: Pool, block: seq<Addr>, sts: seq<Step>)
    requires Initial(p, block) && Exec(p, sts).Some? && (|p.allocs| <= 1 || |p.frees| == 0)
    ensures Sound(Exec(p, sts).value)
  {
    if |p.frees| == 0 {
      var l := RunWithoutFrees(p, block, sts);
      assert Chain(Exec(p, sts).value.next, Exec(p, sts).value.top, l);
    } else if |p.allocs| == 1 {
      var l, at := RunIsSafe(p, block, sts);
      InvIsSound(Exec(p, sts).value, l, at);
    } else {
      RunWithoutAllocs(p, block, sts);
      LinksMakeChain(block);
      assert Chain(p.next, p.top, block);
    }
  }

  // ------------------------------------------------------------------- with two allocating threads

  /** Two threads may allocate and one may free; x is free and y is free behind it. */
  ghost predicate TwoFree(q: Pool, x: Addr, y: Addr) {
    && |q.allocs| >= 2 && |q.frees| >= 1 && (q.allocs[0] == Idle || q.allocs[0] == Looping) && q.allocs[1] == Idle
    && q.frees[0] == Out
    && x != y && q.top == Some(x) && x in q.next && q.next[x] == Some(y) && y in q.next
  }

  lemma GoesOnSameSize(sts: seq<Step>, sts': seq<Step>, n: nat)
    requires GoesOn(sts, sts') && SameSize(sts, n)
    ensures SameSize(sts', n)
  {
    forall i | 0 <= i < |sts'| && sts'[i].Malloc? ensures |sts'[i].block| == n {
      assert i < |sts| && sts[i] == sts'[i];
    }
  }

  /** A thread that is idle, or about to read, reads the first free node and its successor. */
  lemma ReadAlone(p: Pool, sts: seq<Step>, q: Pool, a: nat, x: Addr) returns (sts': seq<Step>)
    requires Exec(p, sts) == Some(q) && q.top == Some(x) && x in q.next
    requires a < |q.allocs| && (q.allocs[a] == Idle || q.allocs[a] == Looping)
    ensures Exec(p, sts') == Some(q.(allocs := q.allocs[a := Ready(x, q.next[x])])) && GoesOn(sts, sts')
  {
    var s0 := sts;
    if q.allocs[a] == Idle {
      OneMore(p, sts, q, Enter(a));
      s0 := sts + [Enter(a)];
    }
    var q1 := q.(allocs := q.allocs[a := Looping]);
    assert q.allocs[a] == Looping ==> q1 == q;
    OneMore(p, s0, q1, Load(a));
    var q2 := q.(allocs := q.allocs[a := Loaded(x)]);
    assert q1.allocs[a := Loaded(x)] == q2.allocs;
    OneMore(p, s0 + [Load(a)], q2, LoadNext(a));
    assert q2.allocs[a := Ready(x, q.next[x])] == q.allocs[a := Ready(x, q.next[x])];
    sts' := s0 + [Load(a)] + [LoadNext(a)];
  }

  /** Thread 1 takes x and y, and x comes back. */
  lemma TakenAndBack(p: Pool, sts: seq<Step>, q: Pool, x: Addr, y: Addr, n: nat) returns (sts': seq<Step>, r: Pool)
    requires Exec(p, sts) == Some(q) && |q.allocs| >= 2 && q.allocs[1] == Idle && |q.frees| >= 1 && q.frees[0] == Out
    requires q.top == Some(x) && x != y && x in q.next && q.next[x] == Some(y) && y in q.next && SameSize(sts, n)
    ensures Exec(p, sts') == Some(r) && SameSize(sts', n)
    ensures r.top == Some(x) && y in r.handed && r.allocs == q.allocs
  {
    var s1 := AllocAlone(p, sts, q, 1, x);
    GoesOnSameSize(sts, s1, n);
    var q1 := q.(top := Some(y), handed := q.handed + {x});
    var s2 := AllocAlone(p, s1, q1, 1, y);
    GoesOnSameSize(s1, s2, n);
    var q2 := q1.(top := q.next[y], handed := q1.handed + {y});
    sts' := FreeAlone(p, s2, q2, 0, x);
    GoesOnSameSize(s2, sts', n);
    r := q2.(top := Some(x), next := q2.next[x := q2.top], handed := q2.handed - {x});
  }

  /** Thread 0 reads x and its successor y; thread 1 takes both; x comes back; thread 0 takes x again and leaves
      y first on the list. */
  lemma StaleSuccessor(p: Pool, sts: seq<Step>, q: Pool, x: Addr, y: Addr, n: nat) returns (sts': seq<Step>)
    requires Exec(p, sts) == Some(q) && TwoFree(q, x, y) && SameSize(sts, n)
    ensures Exec(p, sts').Some? && SameSize(sts', n)
    ensures Exec(p, sts').value.top == Some(y) && y in Exec(p, sts').value.handed
  {
    var s1 := ReadAlone(p, sts, q, 0, x);
    GoesOnSameSize(sts, s1, n);
    var q1 := q.(allocs := q.allocs[0 := Ready(x, Some(y))]);
    var s2, q2 := TakenAndBack(p, s1, q1, x, y, n);
    OneMore(p, s2, q2, CasPop(0));
    sts' := s2 + [CasPop(0)];
    GoesOnSameSize(s2, sts', n);
  }

  /** A pool of one-node blocks: the one node is taken and a second block is added. */
  lemma GrowByOne(p: Pool, x: Addr, y: Addr) returns (sts: seq<Step>, q: Pool)
    requires Initial(p, [x]) && x != y && |p.allocs| >= 1
    ensures Exec(p, sts) == Some(q) && SameSize(sts, 1)
    ensures q.top == Some(y) && q.next == map[x := None, y := None] && q.handed == {x}
    ensures q.allocs == p.allocs[0 := Looping] && q.frees == p.frees
  {
    assert p.next == map[x := None] && Links([y]) == map[y := None];
    var s1 := AllocAlone(p, [], p, 0, x);
    GoesOnSameSize([], s1, 1);
    var q1 := p.(top := None, handed := {x});
    assert p.handed + {x} == {x};
    OneMore(p, s1, q1, Enter(0));
    var q2 := q1.(allocs := q1.allocs[0 := Empty]);
    var s2 := s1 + [Enter(0)];
    OneMore(p, s2, q2, Malloc(0, [y]));
    var q3 := q1.(next := map[x := None, y := None], allocs := q1.allocs[0 := Fresh([y])]);
    assert q2.allocs[0 := Fresh([y])] == q3.allocs && q2.next + Links([y]) == q3.next;
    var s3 := s2 + [Malloc(0, [y])];
    OneMore(p, s3, q3, Publish(0));
    sts := s3 + [Publish(0)];
    q := q3.(top := Some(y), allocs := q1.allocs[0 := Looping]);
    assert q3.allocs[0 := Looping] == q.allocs;
  }

  /** ... and then the other thread takes it and both come back. */
  lemma OneNodeBlocks(p: Pool, x: Addr, y: Addr) returns (sts: seq<Step>, q: Pool)
    requires Initial(p, [x]) && x != y && |p.allocs| >= 2 && |p.frees| >= 1
    ensures Exec(p, sts) == Some(q) && SameSize(sts, 1) && TwoFree(q, x, y)
  {
    var s0, q0 := GrowByOne(p, x, y);
    var s1 := AllocAlone(p, s0, q0, 1, y);
    GoesOnSameSize(s0, s1, 1);
    var q1 := q0.(top := None, handed := q0.handed + {y});
    var s2 := FreeAlone(p, s1, q1, 0, y);
    GoesOnSameSize(s1, s2, 1);
    var q2 := q1.(top := Some(y), next := q1.next[y := None], handed := q1.handed - {y});
    sts := FreeAlone(p, s2, q2, 0, x);
    GoesOnSameSize(s2, sts, 1);
    q := q2.(top := Some(x), next := q2.next[x := Some(y)], handed := q2.handed - {x});
  }

  /** Two allocating threads and a freeing one break every pool: there is a run, adding only blocks of the pool's
      own size, after which a node that a caller has is first on the free list. */
  lemma TwoAllocatorsBreak(p: Pool, block: seq<Addr>) returns (sts: seq<Step>)
    requires Initial(p, block) && |p.allocs| >= 2 && |p.frees| >= 1
    ensures Exec(p, sts).Some? && SameSize(sts, |block|) && !Sound(Exec(p, sts).value)
  {
    var q, s0, x, y;
    if |block| == 1 {
      x, y := block[0], block[0] + 1;
      assert block == [x];
      s0, q := OneNodeBlocks(p, x, y);
    } else {
      s0, q, x, y := [], p, block[0], block[1];
      assert Links(block)[x] == Some(y) && y in block;
    }
    sts := StaleSuccessor(p, s0, q, x, y, |block|);
    var r := Exec(p, sts).value;
    forall l: seq<Addr> | Chain(r.next, r.top, l) ensures y in l {
      assert l[0] == y;
    }
  }

  /** The pool is safe in every interleaving if and only if at most one thread allocates, or none frees. */
  lemma SafeIffFewThreads(p: Pool, block: seq<Addr>)
    requires Initial(p, block)
    ensures (forall sts :: Exec(p, sts).Some? ==> Sound(Exec(p, sts).value)) <==> |p.allocs| <= 1 || |p.frees| == 0
  {
    if |p.allocs| <= 1 || |p.frees| == 0 {
      forall sts | Exec(p, sts).Some? ensures Sound(Exec(p, sts).value) {
        FewThreadsAreSound(p, block, sts);
      }
    } else {
      var sts := TwoAllocatorsBreak(p, block);
    }
  }

  /** The smallest pool that breaks: one block of two nodes, two allocating threads, one freeing thread. */
  lemma SmallestBreak()
    ensures var p := Pool(Some(0), map[0 := Some(1), 1 := None], {}, [Idle, Idle], [Out]);
      Initial(p, [0, 1]) && exists sts :: Exec(p, sts).Some? && !Sound(Exec(p, sts).value)
  {
    var p := Pool(Some(0), map[0 := Some(1), 1 := None], {}, [Idle, Idle], [Out]);
    assert [0, 1][1..] == [1] && Links([1]) == map[1 := None];
    var sts := TwoAllocatorsBreak(p, [0, 1]);
  }
}
