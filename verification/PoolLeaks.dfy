/** When the pool loses nodes: exactly when, beside the thread that adds blocks, another one may be in the pool. */
module PoolLeaks {
  import opened PoolSafety
  import opened PoolSteps
  import opened PoolThreads
  import opened Seqs
  import opened Wrappers

  /** x was carved and can be had no more: no free list starting at top meets it, no caller and no freeing thread
      has it, and it is in no block still to be published. */
  ghost predicate Leaked(p: Pool, x: Addr) {
    && x in p.next && x !in p.handed
    && (forall l: seq<Addr> :: Chain(p.next, p.top, l) ==> x !in l)
    && (forall f :: 0 <= f < |p.frees| && p.frees[f] != Out ==> p.frees[f].node != x)
    && forall a :: 0 <= a < |p.allocs| && p.allocs[a].Fresh? ==> x !in p.allocs[a].block
  }

  ghost predicate KeepsAll(p: Pool) {
    forall x :: !Leaked(p, x)
  }

  lemma ChainTail(next: map<Addr, Link>, top: Link, l: seq<Addr>)
    requires Chain(next, top, l) && l != []
    ensures l[0] in next && Chain(next, next[l[0]], l[1..])
  {
    var r := l[1..];
    assert forall i :: 0 <= i < |r| ==> r[i] == l[i + 1] && r[i + 1..] == l[i + 2..];
  }

  lemma {:induction false} ChainUnique(next: map<Addr, Link>, top: Link, l: seq<Addr>, m: seq<Addr>)
    requires Chain(next, top, l) && Chain(next, top, m)
    ensures l == m
    decreases |l|
  {
    if l != [] && m != [] {
      ChainTail(next, top, l);
      ChainTail(next, top, m);
      ChainUnique(next, next[l[0]], l[1..], m[1..]);
      assert l == [l[0]] + l[1..] && m == [m[0]] + m[1..];
    }
  }

  // ------------------------------------------------------------------- one allocating thread

  /** With one allocating thread the nodes that leaked are those the bookkeeping of a run calls lost. */
  lemma LeakedIsLost(p: Pool, l: seq<Addr>, at: map<Addr, Place>, x: Addr)
    requires Inv(p, l, at)
    ensures Leaked(p, x) <==> x in LostNodes(at)
  {
    forall m: seq<Addr> | Chain(p.next, p.top, m) ensures m == l {
      ChainUnique(p.next, p.top, l, m);
    }
    assert Chain(p.next, p.top, l);
    hide Chain, Distinct;
  }

  /** A leaked node never comes back. */
  lemma LeakedStays(p: Pool, l: seq<Addr>, at: map<Addr, Place>, st: Step, x: Addr)
    requires Inv(p, l, at) && Enabled(p, st) && Leaked(p, x)
    ensures Leaked(After(p, st), x)
  {
    StepKeeps(p, st, l, at);
    StepLoses(p, st, l, at);
    hide *;
    LeakedIsLost(p, l, at, x);
    LeakedIsLost(After(p, st), NextList(p, st, l), NextPlaces(p, st, at), x);
  }

  /** A run with one allocating thread leaks if and only if one of its publishing stores found the list refilled. */
  lemma LeaksIffRefilled(p: Pool, block: seq<Addr>, sts: seq<Step>)
    requires Initial(p, block) && |p.allocs| == 1 && Exec(p, sts).Some?
    ensures KeepsAll(Exec(p, sts).value) <==> PublishesOnEmpty(p, sts)
  {
    var q := Exec(p, sts).value;
    var l, at := RunIsSafe(p, block, sts);
    forall x ensures Leaked(q, x) <==> x in LostNodes(at) {
      LeakedIsLost(q, l, at, x);
    }
    hide *;
    if LostNodes(at) != {} {
      var x :| x in LostNodes(at);
      assert Leaked(q, x);
    }
  }

  ghost predicate Alone(p: Pool) {
    |p.allocs| == 1 && |p.frees| == 0 && (p.allocs[0].Empty? || p.allocs[0].Fresh? ==> p.top == None)
  }

  lemma AloneStep(p: Pool, st: Step)
    requires Alone(p) && Enabled(p, st)
    ensures Alone(After(p, st)) && (st.Publish? ==> p.top == None)
  {
  }

  /** Alone in the pool, a thread that saw the list empty finds it empty still. */
  lemma {:induction false} AloneStaysEmpty(p: Pool, block: seq<Addr>, sts: seq<Step>)
    requires Initial(p, block) && |p.allocs| == 1 && |p.frees| == 0 && Exec(p, sts).Some?
    ensures Alone(Exec(p, sts).value) && PublishesOnEmpty(p, sts)
    decreases |sts|
  {
    if sts != [] {
      var m := |sts| - 1;
      AloneStaysEmpty(p, block, sts[..m]);
      AloneStep(Exec(p, sts[..m]).value, sts[m]);
      hide Alone, Enabled, After;
    }
  }

  // ------------------------------------------------------------------- runs that leak

  lemma {:induction false} Bound(s: set<Addr>) returns (m: Addr)
    ensures forall x :: x in s ==> x < m
    decreases |s|
  {
    if s == {} {
      m := 0;
    } else {
      var x :| x in s;
      var n := Bound(s - {x});
      m := if x < n then n else x + 1;
      assert forall y :: y in s && y != x ==> y in s - {x};
    }
  }

  /** There is always room for another block. */
  lemma FreshBlock(next: map<Addr, Link>, n: nat) returns (block: seq<Addr>)
    requires n > 0
    ensures |block| == n && NewBlock(next, block)
  {
    var m := Bound(next.Keys);
    block := seq(n, i => m + i);
  }

  /** Thread 0 takes every node of the free list. */
  lemma {:induction false} Drain(p: Pool, sts: seq<Step>, q: Pool, l: seq<Addr>, n: nat)
    returns (sts': seq<Step>, r: Pool)
    requires Exec(p, sts) == Some(q) && SameSize(sts, n) && |q.allocs| >= 1 && q.allocs[0] == Idle
    requires Chain(q.next, q.top, l)
    ensures Exec(p, sts') == Some(r) && SameSize(sts', n)
    ensures r == q.(top := None, handed := r.handed) && q.handed <= r.handed && forall x :: x in l ==> x in r.handed
    ensures forall x :: x in r.handed ==> x in q.handed || x in q.next
    decreases |l|
  {
    if l == [] {
      sts', r := sts, q;
    } else {
      var x := l[0];
      ChainTail(q.next, q.top, l);
      var s1 := AllocAlone(p, sts, q, 0, x);
      GoesOnSameSize(sts, s1, n);
      sts', r := Drain(p, s1, q.(top := q.next[x], handed := q.handed + {x}), l[1..], n);
      assert l == [x] + l[1..];
    }
  }

  /** A new pool all taken. */
  lemma DrainedPool(p: Pool, block: seq<Addr>) returns (sts: seq<Step>, q: Pool)
    requires Initial(p, block) && |p.allocs| >= 1
    ensures Exec(p, sts) == Some(q) && SameSize(sts, |block|)
    ensures q == p.(top := None, handed := q.handed) && block[0] in q.handed && q.handed <= p.next.Keys
  {
    LinksMakeChain(block);
    sts, q := Drain(p, [], p, block, |block|);
  }

  /** ... and thread 0 about to add the block b. */
  lemma AboutToPublish(p: Pool, block: seq<Addr>) returns (sts: seq<Step>, q: Pool, b: seq<Addr>)
    requires Initial(p, block) && |p.allocs| >= 1
    ensures Exec(p, sts) == Some(q) && SameSize(sts, |block|)
    ensures NewBlock(p.next, b) && q.next == p.next + Links(b) && q.top == None && block[0] in q.handed
    ensures q.allocs == p.allocs[0 := Fresh(b)] && q.frees == p.frees
  {
    var s0, q0 := DrainedPool(p, block);
    OneMore(p, s0, q0, Enter(0));
    var q1 := q0.(allocs := q0.allocs[0 := PoolSteps.Empty]);
    b := FreshBlock(q1.next, |block|);
    OneMore(p, s0 + [Enter(0)], q1, Malloc(0, b));
    sts := s0 + [Enter(0)] + [Malloc(0, b)];
    q := After(q1, Malloc(0, b));
    assert q1.allocs[0 := Fresh(b)] == p.allocs[0 := Fresh(b)];
  }

  /** The leak the author warns of: a node comes back while the block is added, and the store that publishes the
      block drops it. */
  lemma FreeWhileAdding(p: Pool, block: seq<Addr>) returns (sts: seq<Step>)
    requires Initial(p, block) && |p.allocs| >= 1 && |p.frees| >= 1
    ensures Exec(p, sts).Some? && SameSize(sts, |block|)
    ensures !PublishesOnEmpty(p, sts) && Leaked(Exec(p, sts).value, block[0])
  {
    var s0, q0, b := AboutToPublish(p, block);
    var x := block[0];
    var s1 := FreeAlone(p, s0, q0, 0, x);
    GoesOnSameSize(s0, s1, |block|);
    var q1 := q0.(top := Some(x), next := q0.next[x := None], handed := q0.handed - {x});
    OneMore(p, s1, q1, Publish(0));
    sts := s1 + [Publish(0)];
    var q := After(q1, Publish(0));
    assert sts[..|sts| - 1] == s1;
    OlderIsLeaked(p.next, b, q, x);
  }

  /** Once the block b is published, an older node that nobody has is leaked. */
  lemma OlderIsLeaked(next: map<Addr, Link>, b: seq<Addr>, q: Pool, x: Addr)
    requires NewBlock(next, b) && q.top == Some(b[0])
    requires forall y :: y in b ==> y in q.next && q.next[y] == (next + Links(b))[y]
    requires x in next && x in q.next && x !in q.handed
    requires forall f :: 0 <= f < |q.frees| ==> q.frees[f] == Out
    requires forall a :: 0 <= a < |q.allocs| ==> !q.allocs[a].Fresh?
    ensures Leaked(q, x)
  {
    NewBlockChain(next, b);
    ChainOfOthers(next + Links(b), q.next, Some(b[0]), b);
    forall l: seq<Addr> | Chain(q.next, q.top, l) ensures x !in l {
      ChainUnique(q.next, q.top, b, l);
    }
  }

  /** Two threads that both saw the list empty are both about to add a block. */
  lemma TwoAboutToPublish(p: Pool, block: seq<Addr>)
    returns (sts: seq<Step>, q: Pool, next: map<Addr, Link>, b: seq<Addr>, c: seq<Addr>)
    requires Initial(p, block) && |p.allocs| >= 2
    ensures Exec(p, sts) == Some(q) && SameSize(sts, |block|)
    ensures b != [] && b[0] in next && b[0] !in q.handed && NewBlock(next, c) && q.next == next + Links(c)
    ensures q.allocs == p.allocs[0 := Fresh(b)][1 := Fresh(c)] && q.frees == p.frees
  {
    var s0, q0 := DrainedPool(p, block);
    OneMore(p, s0, q0, Enter(0));
    var q1 := After(q0, Enter(0));
    OneMore(p, s0 + [Enter(0)], q1, Enter(1));
    var q2 := After(q1, Enter(1));
    var s2 := s0 + [Enter(0)] + [Enter(1)];
    b := FreshBlock(q2.next, |block|);
    OneMore(p, s2, q2, Malloc(0, b));
    var q3 := After(q2, Malloc(0, b));
    next := q3.next;
    c := FreshBlock(next, |block|);
    OneMore(p, s2 + [Malloc(0, b)], q3, Malloc(1, c));
    q := After(q3, Malloc(1, c));
    sts := s2 + [Malloc(0, b)] + [Malloc(1, c)];
  }

  /** ... and the second store drops the first block. */
  lemma TwoAddBlocks(p: Pool, block: seq<Addr>) returns (sts: seq<Step>, x: Addr)
    requires Initial(p, block) && |p.allocs| >= 2
    ensures Exec(p, sts).Some? && SameSize(sts, |block|)
    ensures !PublishesOnEmpty(p, sts) && Leaked(Exec(p, sts).value, x)
  {
    var s0, q0, next, b, c := TwoAboutToPublish(p, block);
    OneMore(p, s0, q0, Publish(0));
    var q1 := After(q0, Publish(0));
    OneMore(p, s0 + [Publish(0)], q1, Publish(1));
    sts := s0 + [Publish(0)] + [Publish(1)];
    assert sts[..|sts| - 1] == s0 + [Publish(0)];
    x := b[0];
    OlderIsLeaked(next, c, After(q1, Publish(1)), x);
  }

  /** No run loses a node if and only if the thread that adds blocks is alone in the pool, or no thread does. */
  lemma KeepsAllIffAlone(p: Pool, block: seq<Addr>)
    requires Initial(p, block)
    ensures (forall sts :: Exec(p, sts).Some? ==> KeepsAll(Exec(p, sts).value)) <==>
      |p.allocs| == 0 || (|p.allocs| == 1 && |p.frees| == 0)
  {
    if |p.allocs| == 0 {
      forall sts | Exec(p, sts).Some? ensures KeepsAll(Exec(p, sts).value) {
        RunWithoutAllocs(p, block, sts);
        LinksMakeChain(block);
        assert Chain(p.next, p.top, block);
      }
    } else if |p.allocs| == 1 && |p.frees| == 0 {
      forall sts | Exec(p, sts).Some? ensures KeepsAll(Exec(p, sts).value) {
        AloneStaysEmpty(p, block, sts);
        LeaksIffRefilled(p, block, sts);
      }
    } else if |p.frees| == 0 {
      var sts, x := TwoAddBlocks(p, block);
    } else {
      var sts := FreeWhileAdding(p, block);
    }
  }

  /** With one allocating thread every publishing store finds the list empty in every run if and only if no thread
      frees. */
  lemma NeverRefilledIffNoFrees(p: Pool, block: seq<Addr>)
    requires Initial(p, block) && |p.allocs| == 1
    ensures (forall sts :: Exec(p, sts).Some? ==> PublishesOnEmpty(p, sts)) <==> |p.frees| == 0
  {
    if |p.frees| == 0 {
      forall sts | Exec(p, sts).Some? ensures PublishesOnEmpty(p, sts) {
        AloneStaysEmpty(p, block, sts);
      }
    } else {
      var sts := FreeWhileAdding(p, block);
    }
  }
}
