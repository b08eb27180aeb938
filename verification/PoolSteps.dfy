/** The lock-free memory pool: `Mpool_alloc` and `Mpool_free` cut into their atomic steps.
    Any number of threads may be inside either; a step is taken by one of them. */
module PoolSteps {
  import opened Seqs
  import opened Wrappers

  type Addr = nat
  type Link = Option<Addr>

  /** Where an allocating thread is inside `Mpool_alloc`. */
  datatype AllocPc =
    | Idle
    | Empty                         // saw pool->free == NULL, about to allocate a block
    | Fresh(block: seq<Addr>)       // block allocated and linked, pool->free not yet stored
    | Looping                       // at the head of for (;;)
    | Loaded(tmp: Addr)             // tmp = pool->free
    | Ready(tmp: Addr, after: Link) // tmp->next read, about to compare and swap

  /** Where a freeing thread is inside `Mpool_free`. */
  datatype FreePc =
    | Out
    | Retry(node: Addr)             // at the head of for (;;)
    | Seen(node: Addr, top: Link)   // pool->free read, tmp->next not yet stored
    | Linked(node: Addr)            // tmp->next stored, about to compare and swap

  datatype Pool = Pool(
    top: Link,                      // pool->free
    next: map<Addr, Link>,          // node->next, for every node of every block
    handed: set<Addr>,              // nodes the callers hold
    allocs: seq<AllocPc>,
    frees: seq<FreePc>)

  datatype Step =
    | Enter(a: nat)
    | Malloc(a: nat, block: seq<Addr>)
    | Publish(a: nat)
    | Load(a: nat)
    | LoadNext(a: nat)
    | CasPop(a: nat)
    | Begin(f: nat, node: Addr)
    | LoadTop(f: nat)
    | StoreNext(f: nat)
    | CasPush(f: nat)

  /** The links a freshly carved block gets: each node to the one behind it, the last to NULL. */
  function Links(block: seq<Addr>): (m: map<Addr, Link>)
    ensures m.Keys == set b | b in block
  {
    if block == [] then map[]
    else Links(block[1..])[block[0] := if |block| == 1 then None else Some(block[1])]
  }

  /** A block is carved out of memory no node occupies. */
  ghost predicate NewBlock(next: map<Addr, Link>, block: seq<Addr>) {
    block != [] && Distinct(block) && forall b :: b in block ==> b !in next
  }

  ghost predicate Enabled(p: Pool, st: Step) {
    match st
    case Enter(a) => a < |p.allocs| && p.allocs[a] == Idle
    case Malloc(a, block) => a < |p.allocs| && p.allocs[a] == Empty && NewBlock(p.next, block)
    case Publish(a) => a < |p.allocs| && p.allocs[a].Fresh? && p.allocs[a].block != []
    case Load(a) => a < |p.allocs| && p.allocs[a] == Looping
    case LoadNext(a) => a < |p.allocs| && p.allocs[a].Loaded? && p.allocs[a].tmp in p.next
    case CasPop(a) => a < |p.allocs| && p.allocs[a].Ready?
    case Begin(f, node) => f < |p.frees| && p.frees[f] == Out && node in p.handed
    case LoadTop(f) => f < |p.frees| && p.frees[f].Retry?
    case StoreNext(f) => f < |p.frees| && p.frees[f].Seen?
    case CasPush(f) => f < |p.frees| && p.frees[f].Linked? && p.frees[f].node in p.next
  }

  /** The effect of one atomic step. */
  ghost function After(p: Pool, st: Step): Pool
    requires Enabled(p, st)
  {
    match st
    case Enter(a) => p.(allocs := p.allocs[a := if p.top == None then Empty else Looping])
    case Malloc(a, block) => p.(next := p.next + Links(block), allocs := p.allocs[a := Fresh(block)])
    case Publish(a) => p.(top := Some(p.allocs[a].block[0]), allocs := p.allocs[a := Looping])
    case Load(a) => p.(allocs := p.allocs[a := if p.top == None then Looping else Loaded(p.top.value)])
    case LoadNext(a) => p.(allocs := p.allocs[a := Ready(p.allocs[a].tmp, p.next[p.allocs[a].tmp])])
    case CasPop(a) =>
      if p.top == Some(p.allocs[a].tmp)
      then p.(top := p.allocs[a].after, handed := p.handed + {p.allocs[a].tmp}, allocs := p.allocs[a := Idle])
      else p.(allocs := p.allocs[a := Looping])
    case Begin(f, node) => p.(handed := p.handed - {node}, frees := p.frees[f := Retry(node)])
    case LoadTop(f) => p.(frees := p.frees[f := Seen(p.frees[f].node, p.top)])
    case StoreNext(f) =>
      p.(next := p.next[p.frees[f].node := p.frees[f].top], frees := p.frees[f := Linked(p.frees[f].node)])
    case CasPush(f) =>
      if p.top == p.next[p.frees[f].node]
      then p.(top := Some(p.frees[f].node), frees := p.frees[f := Out])
      else p.(frees := p.frees[f := Retry(p.frees[f].node)])
  }

  /** What `Mpool_new` leaves: one block, all of it free. */
  ghost predicate Initial(p: Pool, block: seq<Addr>) {
    && NewBlock(map[], block)
    && p.top == Some(block[0]) && p.next == Links(block) && p.handed == {}
    && (forall a :: 0 <= a < |p.allocs| ==> p.allocs[a] == Idle)
    && forall f :: 0 <= f < |p.frees| ==> p.frees[f] == Out
  }

  /** The pool after the steps sts, one interleaving of the threads; None if one of them could not be taken. */
  ghost function Exec(p: Pool, sts: seq<Step>): Option<Pool> {
    if sts == [] then Some(p)
    else
      var m := |sts| - 1;
      var r := Exec(p, sts[..m]);
      if r.Some? && Enabled(r.value, sts[m]) then Some(After(r.value, sts[m])) else None
  }

  lemma OneMore(p: Pool, sts: seq<Step>, q: Pool, st: Step)
    requires Exec(p, sts) == Some(q) && Enabled(q, st)
    ensures Exec(p, sts + [st]) == Some(After(q, st))
  {
    assert (sts + [st])[..|sts|] == sts;
  }
}
