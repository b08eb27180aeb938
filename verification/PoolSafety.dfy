/** With one allocating thread the pool is safe in every interleaving. */
module PoolSafety {
  import opened Wrappers
  import opened PoolSteps
  import opened Seqs

  /** Where a node is. Every node is in one place only, since this labels it. */
  datatype Place = OnFreeList | WithCaller | WithFreer(f: nat) | InNewBlock | Lost

  function First(l: seq<Addr>): Link {
    if l == [] then None else Some(l[0])
  }

  /** Following links from top visits exactly l and ends. */
  ghost predicate Chain(next: map<Addr, Link>, top: Link, l: seq<Addr>) {
    && top == First(l)
    && forall i :: 0 <= i < |l| ==> l[i] in next && next[l[i]] == First(l[i + 1..])
  }

  ghost predicate PlacesOfFreers(frees: seq<FreePc>, at: map<Addr, Place>) {
    && (forall f :: 0 <= f < |frees| && frees[f] != Out ==> frees[f].node in at && at[frees[f].node] == WithFreer(f))
    && forall b :: b in at && at[b].WithFreer? ==>
      at[b].f < |frees| && frees[at[b].f] != Out && frees[at[b].f].node == b
  }

  ghost predicate PlacesOfAllocator(pc: AllocPc, next: map<Addr, Link>, l: seq<Addr>, at: map<Addr, Place>) {
    && (forall b :: b in at && at[b] == InNewBlock ==> pc.Fresh? && b in pc.block)
    && match pc
       case Idle => true
       case Empty => true
       case Looping => true
       case Fresh(block) =>
         && block != [] && Distinct(block) && Chain(next, Some(block[0]), block)
         && forall b :: b in block ==> b in at && at[b] == InNewBlock
       case Loaded(tmp) => tmp in l
       case Ready(tmp, after) => tmp in l && tmp in next && next[tmp] == after
  }

  /** The free list is the acyclic chain l, and at says so. */
  ghost predicate ListInv(p: Pool, l: seq<Addr>, at: map<Addr, Place>) {
    && at.Keys == p.next.Keys
    && Chain(p.next, p.top, l) && Distinct(l)
    && forall b :: b in l <==> b in at && at[b] == OnFreeList
  }

  /** Every other node is with the holder at names. */
  ghost predicate HolderInv(p: Pool, l: seq<Addr>, at: map<Addr, Place>) {
    && |p.allocs| == 1
    && (forall b :: b in p.handed <==> b in at && at[b] == WithCaller)
    && PlacesOfFreers(p.frees, at)
    && PlacesOfAllocator(p.allocs[0], p.next, l, at)
  }

  ghost predicate Inv(p: Pool, l: seq<Addr>, at: map<Addr, Place>) {
    ListInv(p, l, at) && HolderInv(p, l, at)
  }

  /** How a step changes the free list ... */
  ghost function NextList(p: Pool, st: Step, l: seq<Addr>): seq<Addr>
    requires Enabled(p, st)
  {
    match st
    case Publish(a) => p.allocs[a].block
    case CasPop(a) => if l != [] && p.top == Some(p.allocs[a].tmp) then l[1..] else l
    case CasPush(f) => if p.top == p.next[p.frees[f].node] then [p.frees[f].node] + l else l
    case _ => l
  }

  /** ... and who holds what. */
  ghost function NextPlaces(p: Pool, st: Step, at: map<Addr, Place>): map<Addr, Place>
    requires Enabled(p, st)
  {
    match st
    case Malloc(a, block) => map b | b in at.Keys + (set x | x in block) :: if b in block then InNewBlock else at[b]
    case Publish(a) => map b | b in at ::
      if at[b] == OnFreeList then Lost else if at[b] == InNewBlock then OnFreeList else at[b]
    case CasPop(a) => if p.top == Some(p.allocs[a].tmp) then at[p.allocs[a].tmp := WithCaller] else at
    case Begin(f, node) => at[node := WithFreer(f)]
    case CasPush(f) => if p.top == p.next[p.frees[f].node] then at[p.frees[f].node := OnFreeList] else at
    case _ => at
  }

  ghost function LostNodes(at: map<Addr, Place>): set<Addr> {
    set b | b in at && at[b] == Lost
  }

  lemma LinkStep(block: seq<Addr>)
    requires |block| > 1 && Distinct(block) && Chain(Links(block[1..]), Some(block[1]), block[1..])
    ensures Chain(Links(block), Some(block[0]), block)
  {
    var rest := block[1..];
    forall i | 0 <= i < |block| ensures block[i] in Links(block) && Links(block)[block[i]] == First(block[i + 1..]) {
      if i > 0 {
        assert rest[i - 1] == block[i] && rest[i..] == block[i + 1..];
      }
    }
  }

  lemma {:induction false} LinksMakeChain(block: seq<Addr>)
    requires block != [] && Distinct(block)
    ensures Chain(Links(block), Some(block[0]), block)
  {
    if |block| > 1 {
      LinksMakeChain(block[1..]);
      LinkStep(block);
    } else {
      assert block[0 + 1..] == [];
    }
  }

  /** Rewriting or adding links of nodes outside a chain leaves the chain. */
  lemma ChainOfOthers(next: map<Addr, Link>, next': map<Addr, Link>, top: Link, l: seq<Addr>)
    requires Chain(next, top, l)
    requires forall b :: b in l && b in next ==> b in next' && next'[b] == next[b]
    ensures Chain(next', top, l)
  {
    forall i | 0 <= i < |l| ensures l[i] in next' && next'[l[i]] == First(l[i + 1..]) {
      assert l[i] in l;
    }
  }

  lemma ChainWithoutFirst(next: map<Addr, Link>, top: Link, l: seq<Addr>)
    requires Chain(next, top, l) && Distinct(l) && l != []
    ensures l[0] in next && Chain(next, next[l[0]], l[1..]) && Distinct(l[1..])
    ensures forall b :: b in l[1..] <==> b in l && b != l[0]
  {
    var r := l[1..];
    assert forall i :: 0 <= i < |r| ==> r[i] == l[i + 1] && r[i + 1..] == l[i + 2..];
    assert l == [l[0]] + r;
  }

  lemma ChainWithFirst(next: map<Addr, Link>, top: Link, l: seq<Addr>, node: Addr)
    requires Chain(next, top, l) && Distinct(l) && node in next && next[node] == top && node !in l
    ensures Chain(next, Some(node), [node] + l) && Distinct([node] + l)
    ensures forall b :: b in [node] + l <==> b in l || b == node
  {
    var r := [node] + l;
    assert r[1..] == l;
    assert forall i :: 1 <= i < |r| ==> r[i] == l[i - 1] && r[i + 1..] == l[i..];
  }

  /** Steps taken inside `Mpool_alloc`; the others are taken inside `Mpool_free`. */
  predicate OfAllocator(st: Step) {
    st.Enter? || st.Malloc? || st.Publish? || st.Load? || st.LoadNext? || st.CasPop?
  }

  lemma MallocKeepsList(p: Pool, st: Step, l: seq<Addr>, at: map<Addr, Place>)
    requires Inv(p, l, at) && Enabled(p, st) && st.Malloc?
    ensures ListInv(After(p, st), l, NextPlaces(p, st, at))
  {
    ChainOfOthers(p.next, p.next + Links(st.block), p.top, l);
  }

  lemma PopKeepsList(p: Pool, st: Step, l: seq<Addr>, at: map<Addr, Place>)
    requires Inv(p, l, at) && Enabled(p, st) && st.CasPop?
    ensures ListInv(After(p, st), NextList(p, st, l), NextPlaces(p, st, at))
  {
    if p.top == Some(p.allocs[0].tmp) {
      ChainWithoutFirst(p.next, p.top, l);
      assert l[0 + 1..] == l[1..];
    }
  }

  lemma PublishKeepsList(p: Pool, st: Step, l: seq<Addr>, at: map<Addr, Place>)
    requires Inv(p, l, at) && Enabled(p, st) && st.Publish?
    ensures ListInv(After(p, st), NextList(p, st, l), NextPlaces(p, st, at))
  {
  }

  lemma AllocatorKeepsList(p: Pool, st: Step, l: seq<Addr>, at: map<Addr, Place>)
    requires Inv(p, l, at) && Enabled(p, st) && OfAllocator(st)
    ensures ListInv(After(p, st), NextList(p, st, l), NextPlaces(p, st, at))
  {
    if st.Malloc? {
      MallocKeepsList(p, st, l, at);
    } else if st.CasPop? {
      PopKeepsList(p, st, l, at);
    } else if st.Publish? {
      PublishKeepsList(p, st, l, at);
    }
  }

  lemma FreerKeepsList(p: Pool, st: Step, l: seq<Addr>, at: map<Addr, Place>)
    requires Inv(p, l, at) && Enabled(p, st) && !OfAllocator(st)
    ensures ListInv(After(p, st), NextList(p, st, l), NextPlaces(p, st, at))
  {
    if st.StoreNext? {
      assert at[p.frees[st.f].node] == WithFreer(st.f);
      ChainOfOthers(p.next, After(p, st).next, p.top, l);
    } else if st.CasPush? {
      assert at[p.frees[st.f].node] == WithFreer(st.f);
      if p.top == p.next[p.frees[st.f].node] {
        ChainWithFirst(p.next, p.top, l, p.frees[st.f].node);
      }
    }
  }

  lemma NewBlockChain(next: map<Addr, Link>, block: seq<Addr>)
    requires NewBlock(next, block)
    ensures Chain(next + Links(block), Some(block[0]), block)
  {
    LinksMakeChain(block);
    ChainOfOthers(Links(block), next + Links(block), Some(block[0]), block);
  }

  lemma MallocKeepsAllocator(next: map<Addr, Link>, block: seq<Addr>, l: seq<Addr>,
                             at: map<Addr, Place>, at': map<Addr, Place>)
    requires NewBlock(next, block) && forall b :: b in at ==> at[b] != InNewBlock
    requires forall b :: b in at' <==> b in at || b in block
    requires forall b :: b in at' ==> at'[b] == if b in block then InNewBlock else at[b]
    ensures PlacesOfAllocator(Fresh(block), next + Links(block), l, at')
  {
    NewBlockChain(next, block);
  }

  lemma StoreKeepsAllocator(p: Pool, st: Step, l: seq<Addr>, at: map<Addr, Place>)
    requires Inv(p, l, at) && Enabled(p, st) && st.StoreNext?
    ensures PlacesOfAllocator(p.allocs[0], After(p, st).next, l, at)
  {
    assert at[p.frees[st.f].node] == WithFreer(st.f);
    if p.allocs[0].Fresh? {
      ChainOfOthers(p.next, After(p, st).next, Some(p.allocs[0].block[0]), p.allocs[0].block);
    }
  }

  lemma AllocatorMoves(p: Pool, st: Step, l: seq<Addr>, at: map<Addr, Place>)
    requires Inv(p, l, at) && Enabled(p, st) && OfAllocator(st)
    ensures PlacesOfAllocator(After(p, st).allocs[0], After(p, st).next, NextList(p, st, l), NextPlaces(p, st, at))
  {
    if st.Malloc? {
      MallocKeepsAllocator(p.next, st.block, l, at, NextPlaces(p, st, at));
      hide Chain, Distinct, Links, PlacesOfFreers;
    } else if st.Publish? {
      PublishMoves(p, st, l, at);
    } else {
      hide Distinct, PlacesOfFreers;
    }
  }

  lemma PublishMoves(p: Pool, st: Step, l: seq<Addr>, at: map<Addr, Place>)
    requires Inv(p, l, at) && Enabled(p, st) && st.Publish?
    ensures PlacesOfAllocator(After(p, st).allocs[0], After(p, st).next, NextList(p, st, l), NextPlaces(p, st, at))
  {
    hide Chain, Distinct, PlacesOfFreers;
  }

  lemma AllocatorUndisturbed(p: Pool, st: Step, l: seq<Addr>, at: map<Addr, Place>)
    requires Inv(p, l, at) && Enabled(p, st) && !OfAllocator(st)
    ensures PlacesOfAllocator(p.allocs[0], After(p, st).next, NextList(p, st, l), NextPlaces(p, st, at))
  {
    if st.StoreNext? {
      StoreKeepsAllocator(p, st, l, at);
    } else if st.CasPush? {
      assert at[p.frees[st.f].node] == WithFreer(st.f);
    }
  }

  /** The allocating thread's steps leave nodes with callers and freeing threads where they are, but for the
      node it hands out. */
  lemma AllocatorMovesOne(p: Pool, st: Step, l: seq<Addr>, at: map<Addr, Place>, b: Addr)
    requires Inv(p, l, at) && Enabled(p, st) && OfAllocator(st)
    ensures var at' := NextPlaces(p, st, at);
      && (b in at && at[b].WithFreer? ==> b in at' && at'[b] == at[b])
      && (b in at' && at'[b].WithFreer? ==> b in at && at'[b] == at[b])
      && (b in After(p, st).handed <==> b in at' && at'[b] == WithCaller)
  {
    hide Chain, Distinct, PlacesOfFreers;
  }

  lemma FreersStay(frees: seq<FreePc>, at: map<Addr, Place>, at': map<Addr, Place>)
    requires PlacesOfFreers(frees, at)
    requires forall b :: b in at && at[b].WithFreer? ==> b in at' && at'[b] == at[b]
    requires forall b :: b in at' && at'[b].WithFreer? ==> b in at && at'[b] == at[b]
    ensures PlacesOfFreers(frees, at')
  {
  }

  lemma AllocatorKeepsHolders(p: Pool, st: Step, l: seq<Addr>, at: map<Addr, Place>)
    requires Inv(p, l, at) && Enabled(p, st) && OfAllocator(st)
    ensures var at' := NextPlaces(p, st, at);
      && PlacesOfFreers(After(p, st).frees, at')
      && forall b :: b in After(p, st).handed <==> b in at' && at'[b] == WithCaller
  {
    assert PlacesOfFreers(p.frees, at) && After(p, st).frees == p.frees;
    var at', handed := NextPlaces(p, st, at), After(p, st).handed;
    hide *;
    forall b ensures b in handed <==> b in at' && at'[b] == WithCaller {
      AllocatorMovesOne(p, st, l, at, b);
    }
    forall b | b in at && at[b].WithFreer? ensures b in at' && at'[b] == at[b] {
      AllocatorMovesOne(p, st, l, at, b);
    }
    forall b | b in at' && at'[b].WithFreer? ensures b in at && at'[b] == at[b] {
      AllocatorMovesOne(p, st, l, at, b);
    }
    FreersStay(p.frees, at, at');
  }

  lemma BeginKeepsHolders(p: Pool, st: Step, l: seq<Addr>, at: map<Addr, Place>)
    requires Inv(p, l, at) && Enabled(p, st) && st.Begin?
    ensures PlacesOfFreers(After(p, st).frees, NextPlaces(p, st, at))
  {
  }

  lemma PushKeepsHolders(p: Pool, st: Step, l: seq<Addr>, at: map<Addr, Place>)
    requires Inv(p, l, at) && Enabled(p, st) && st.CasPush?
    ensures PlacesOfFreers(After(p, st).frees, NextPlaces(p, st, at))
  {
    var f, frees, at' := st.f, p.frees, NextPlaces(p, st, at);
    assert at[frees[f].node] == WithFreer(f) && PlacesOfFreers(frees, at);
    if p.top == p.next[frees[f].node] {
      assert After(p, st).frees == frees[f := Out] && at' == at[frees[f].node := OnFreeList];
      hide *;
      FreerDone(frees, at, f);
    } else {
      assert After(p, st).frees == frees[f := Retry(frees[f].node)] && at' == at;
      hide *;
      FreerAgain(frees, at, f);
    }
  }

  lemma FreerDone(frees: seq<FreePc>, at: map<Addr, Place>, f: nat)
    requires PlacesOfFreers(frees, at) && f < |frees| && frees[f] != Out
    ensures PlacesOfFreers(frees[f := Out], at[frees[f].node := OnFreeList])
  {
  }

  lemma FreerAgain(frees: seq<FreePc>, at: map<Addr, Place>, f: nat)
    requires PlacesOfFreers(frees, at) && f < |frees| && frees[f] != Out
    ensures PlacesOfFreers(frees[f := Retry(frees[f].node)], at)
  {
  }

  lemma FreerKeepsHolders(p: Pool, st: Step, l: seq<Addr>, at: map<Addr, Place>)
    requires Inv(p, l, at) && Enabled(p, st) && !OfAllocator(st)
    ensures var at' := NextPlaces(p, st, at);
      && PlacesOfFreers(After(p, st).frees, at')
      && forall b :: b in After(p, st).handed <==> b in at' && at'[b] == WithCaller
  {
    if st.Begin? {
      BeginKeepsHolders(p, st, l, at);
    } else if st.CasPush? {
      PushKeepsHolders(p, st, l, at);
      assert at[p.frees[st.f].node] == WithFreer(st.f);
    }
  }

  /** Every step of every thread keeps the invariant. */
  lemma StepKeeps(p: Pool, st: Step, l: seq<Addr>, at: map<Addr, Place>)
    requires Inv(p, l, at) && Enabled(p, st)
    ensures Inv(After(p, st), NextList(p, st, l), NextPlaces(p, st, at))
  {
    if OfAllocator(st) {
      AllocatorMoves(p, st, l, at);
      AllocatorKeepsList(p, st, l, at);
      AllocatorKeepsHolders(p, st, l, at);
    } else {
      AllocatorUndisturbed(p, st, l, at);
      FreerKeepsList(p, st, l, at);
      FreerKeepsHolders(p, st, l, at);
    }
  }

  lemma PublishLoses(p: Pool, st: Step, l: seq<Addr>, at: map<Addr, Place>)
    requires Inv(p, l, at) && Enabled(p, st) && st.Publish?
    ensures LostNodes(NextPlaces(p, st, at)) == LostNodes(at) + set b | b in l
  {
  }

  /** Only the store that publishes a new block loses nodes, and it loses those then on the list. */
  lemma StepLoses(p: Pool, st: Step, l: seq<Addr>, at: map<Addr, Place>)
    requires Inv(p, l, at) && Enabled(p, st)
    ensures LostNodes(NextPlaces(p, st, at)) == LostNodes(at) + if st.Publish? then set b | b in l else {}
  {
    var at' := NextPlaces(p, st, at);
    if st.Publish? {
      PublishLoses(p, st, l, at);
    } else if st.CasPush? {
      assert at[p.frees[st.f].node] == WithFreer(st.f);
    }
    if !st.Publish? {
      assert forall b :: b in at' && at'[b] == Lost <==> b in at && at[b] == Lost;
    }
  }

  // ------------------------------------------------------------------- over whole runs

  lemma InitialList(p: Pool, block: seq<Addr>, at: map<Addr, Place>)
    requires block != [] && Distinct(block) && p.top == Some(block[0]) && p.next == Links(block)
    requires at.Keys == p.next.Keys && forall b :: b in at ==> at[b] == OnFreeList
    ensures ListInv(p, block, at)
  {
    LinksMakeChain(block);
    hide Links;
  }

  lemma InitialHolders(p: Pool, block: seq<Addr>, at: map<Addr, Place>)
    requires Initial(p, block) && |p.allocs| == 1 && forall b :: b in at ==> at[b] == OnFreeList
    ensures HolderInv(p, block, at) && LostNodes(at) == {}
    ensures block != [] && Distinct(block) && p.top == Some(block[0]) && p.next == Links(block)
    ensures ListInv(p, block, at) && HolderInv(p, block, at) ==> Inv(p, block, at)
  {
    hide Links, Chain, ListInv;
  }

  lemma InitialInv(p: Pool, block: seq<Addr>) returns (at: map<Addr, Place>)
    requires Initial(p, block) && |p.allocs| == 1
    ensures Inv(p, block, at) && LostNodes(at) == {}
  {
    at := map b | b in p.next :: OnFreeList;
    InitialHolders(p, block, at);
    InitialList(p, block, at);
    hide *;
  }

  /** Every store that publishes a block finds the free list as empty as the check did. */
  ghost predicate PublishesOnEmpty(p: Pool, sts: seq<Step>)
    requires Exec(p, sts).Some?
  {
    sts == [] ||
    var m := |sts| - 1;
    PublishesOnEmpty(p, sts[..m]) && (sts[m].Publish? ==> Exec(p, sts[..m]).value.top == None)
  }

  /** In every interleaving: the free list is acyclic, and each node ever carved is free,
      with one caller, with one freeing thread, in the block being added, or lost. */
  lemma {:induction false} RunIsSafe(p: Pool, block: seq<Addr>, sts: seq<Step>)
    returns (l: seq<Addr>, at: map<Addr, Place>)
    requires Initial(p, block) && |p.allocs| == 1 && Exec(p, sts).Some?
    ensures Inv(Exec(p, sts).value, l, at)
    ensures LostNodes(at) == {} <==> PublishesOnEmpty(p, sts)
    decreases |sts|
  {
    if sts == [] {
      l := block;
      at := InitialInv(p, block);
    } else {
      var m := |sts| - 1;
      var r := Exec(p, sts[..m]).value;
      var l0, at0 := RunIsSafe(p, block, sts[..m]);
      StepKeeps(r, sts[m], l0, at0);
      l, at := NextList(r, sts[m], l0), NextPlaces(r, sts[m], at0);
      LosesUnlessEmpty(r, sts[m], l0, at0);
    }
  }

  lemma LosesUnlessEmpty(p: Pool, st: Step, l: seq<Addr>, at: map<Addr, Place>)
    requires Inv(p, l, at) && Enabled(p, st)
    ensures LostNodes(NextPlaces(p, st, at)) == {} <==> LostNodes(at) == {} && (st.Publish? ==> p.top == None)
  {
    StepLoses(p, st, l, at);
    if st.Publish? && p.top != None {
      assert l[0] in LostNodes(NextPlaces(p, st, at));
    }
  }

  /** No ABA: when the compare-and-swap of the allocating thread succeeds, the node it takes is still
      the first free one, its successor is still the one read earlier, and nobody else has it. */
  lemma PopTakesTheFirst(p: Pool, l: seq<Addr>, at: map<Addr, Place>)
    requires Inv(p, l, at) && p.allocs[0].Ready? && p.top == Some(p.allocs[0].tmp)
    ensures l != [] && l[0] == p.allocs[0].tmp && p.allocs[0].after == First(l[1..])
    ensures p.allocs[0].tmp !in p.handed
    ensures forall f :: 0 <= f < |p.frees| && p.frees[f] != Out ==> p.frees[f].node != p.allocs[0].tmp
  {
    assert l[0 + 1..] == l[1..];
  }

  /** sts' goes on from sts without adding a block. */
  ghost predicate GoesOn(sts: seq<Step>, sts': seq<Step>) {
    sts <= sts' && forall i :: |sts| <= i < |sts'| ==> !sts'[i].Malloc?
  }

  /** One whole `Mpool_alloc` by thread a, undisturbed. */
  lemma AllocAlone(p: Pool, sts: seq<Step>, q: Pool, a: nat, x: Addr) returns (sts': seq<Step>)
    requires Exec(p, sts) == Some(q) && a < |q.allocs| && q.allocs[a] == Idle && q.top == Some(x) && x in q.next
    ensures Exec(p, sts') == Some(q.(top := q.next[x], handed := q.handed + {x})) && GoesOn(sts, sts')
  {
    sts' := sts + [Enter(a)];
    OneMore(p, sts, q, Enter(a));
    var q1 := q.(allocs := q.allocs[a := Looping]);
    OneMore(p, sts', q1, Load(a));
    sts' := sts' + [Load(a)];
    var q2 := q.(allocs := q.allocs[a := Loaded(x)]);
    assert q1.allocs[a := Loaded(x)] == q2.allocs;
    OneMore(p, sts', q2, LoadNext(a));
    sts' := sts' + [LoadNext(a)];
    var q3 := q.(allocs := q.allocs[a := Ready(x, q.next[x])]);
    assert q2.allocs[a := Ready(x, q.next[x])] == q3.allocs;
    OneMore(p, sts', q3, CasPop(a));
    sts' := sts' + [CasPop(a)];
    assert q3.allocs[a := Idle] == q.allocs;
  }

  /** One whole `Mpool_free` by thread f, undisturbed. */
  lemma FreeAlone(p: Pool, sts: seq<Step>, q: Pool, f: nat, x: Addr) returns (sts': seq<Step>)
    requires Exec(p, sts) == Some(q) && f < |q.frees| && q.frees[f] == Out && x in q.handed
    ensures Exec(p, sts') == Some(q.(top := Some(x), next := q.next[x := q.top], handed := q.handed - {x}))
    ensures GoesOn(sts, sts')
  {
    sts' := sts + [Begin(f, x)];
    OneMore(p, sts, q, Begin(f, x));
    var q0 := q.(handed := q.handed - {x});
    var q1 := q0.(frees := q.frees[f := Retry(x)]);
    OneMore(p, sts', q1, LoadTop(f));
    sts' := sts' + [LoadTop(f)];
    var q2 := q0.(frees := q.frees[f := Seen(x, q.top)]);
    assert q1.frees[f := Seen(x, q.top)] == q2.frees;
    OneMore(p, sts', q2, StoreNext(f));
    sts' := sts' + [StoreNext(f)];
    var q3 := q0.(next := q.next[x := q.top], frees := q.frees[f := Linked(x)]);
    assert q2.frees[f := Linked(x)] == q3.frees;
    OneMore(p, sts', q3, CasPush(f));
    sts' := sts' + [CasPush(f)];
    assert q3.frees[f := Out] == q.frees;
  }
}
