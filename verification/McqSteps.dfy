/** One producing and one consuming thread inside `Mcq_enq` and `Mcq_deq` at the same time,
    with no lock: the ring of mcq.c cut into its shared-memory steps. */
module McqSteps {
  import opened Bits
  import opened Mcq
  import opened Wrappers

  /** The producer has found room at cell l (data still being copied in), or has copied it. */
  datatype ProducerPc<T> = Outside | Filling(data: T, l: nat) | Filled(data: T, l: nat)

  /** The consumer has found an item at cell l, or has copied it out. */
  datatype ConsumerPc<T> = Away | Fetching(l: nat) | Fetched(data: T, l: nat)

  datatype Ring<T> = Ring(
    buf: seq<T>, head: nat, tail: nat,
    producer: ProducerPc<T>, consumer: ConsumerPc<T>,
    accepted: seq<T>,   // every item whose enqueue has returned 0, in order
    delivered: seq<T>)  // every item a dequeue has returned, in order

  datatype Step<T> =
    | EnqCheck(data: T)   // l = MOD(tail + 1, len); compare with head
    | EnqScribble(junk: T) // memcpy half done: the cell holds anything
    | EnqCopy             // memcpy done
    | EnqPublish          // tail = l
    | DeqCheck            // compare head with tail; l = MOD(head + 1, len)
    | DeqCopy             // memcpy
    | DeqPublish          // head = l

  ghost predicate Sized<T>(r: Ring<T>) {
    IsPow2(|r.buf|) && r.head < |r.buf| && r.tail < |r.buf|
  }

  ghost predicate Enabled<T>(r: Ring<T>, st: Step<T>) {
    match st
    case EnqCheck(data) => r.producer.Outside?
    case EnqScribble(junk) => r.producer.Filling? && r.producer.l < |r.buf|
    case EnqCopy => r.producer.Filling? && r.producer.l < |r.buf|
    case EnqPublish => r.producer.Filled?
    case DeqCheck => r.consumer.Away?
    case DeqCopy => r.consumer.Fetching? && r.consumer.l < |r.buf|
    case DeqPublish => r.consumer.Fetched?
  }

  /** The effect of one step; a failed check returns -1 and leaves everything as it was. */
  ghost function After<T>(r: Ring<T>, st: Step<T>): Ring<T>
    requires Sized(r) && Enabled(r, st)
  {
    match st
    case EnqCheck(data) =>
      var l := Mod(r.tail + 1, |r.buf|);
      if l == r.head then r else r.(producer := Filling(data, l))
    case EnqScribble(junk) => r.(buf := r.buf[r.producer.l := junk])
    case EnqCopy =>
      r.(buf := r.buf[r.producer.l := r.producer.data], producer := Filled(r.producer.data, r.producer.l))
    case EnqPublish =>
      r.(tail := r.producer.l, producer := Outside, accepted := r.accepted + [r.producer.data])
    case DeqCheck =>
      if r.head == r.tail then r else r.(consumer := Fetching(Mod(r.head + 1, |r.buf|)))
    case DeqCopy => r.(consumer := Fetched(r.buf[r.consumer.l], r.consumer.l))
    case DeqPublish =>
      r.(head := r.consumer.l, consumer := Away, delivered := r.delivered + [r.consumer.data])
  }

  ghost predicate Initial<T>(r: Ring<T>) {
    Sized(r) && r.head == r.tail == 0 && r.producer.Outside? && r.consumer.Away?
    && r.accepted == [] && r.delivered == []
  }

  /** The ring always holds exactly the accepted items not yet delivered; each thread's cell
      is the one beyond its own index, and the counts each thread saw still hold. */
  ghost predicate Inv<T>(r: Ring<T>) {
    && Sized(r)
    && r.accepted == r.delivered + Items(r.buf, r.head, r.tail)
    && (!r.producer.Outside? ==> r.producer.l == Succ(r.tail, |r.buf|) != r.head)
    && (r.producer.Filled? ==> r.buf[r.producer.l] == r.producer.data)
    && (!r.consumer.Away? ==> r.consumer.l == Succ(r.head, |r.buf|) && r.head != r.tail)
    && (r.consumer.Fetched? ==> r.buf[r.consumer.l] == r.consumer.data)
  }

  /** The two threads never have the same cell in hand. */
  lemma CellsDiffer<T>(r: Ring<T>)
    requires Inv(r) && !r.producer.Outside? && !r.consumer.Away?
    ensures r.producer.l != r.consumer.l
  {
  }

  lemma ScribbleBeyond<T>(buf: seq<T>, head: nat, tail: nat, x: T)
    requires head < |buf| && tail < |buf| && Succ(tail, |buf|) != head
    ensures Items(buf[Succ(tail, |buf|) := x], head, tail) == Items(buf, head, tail)
  {
  }

  lemma PublishTail<T>(buf: seq<T>, head: nat, tail: nat)
    requires head < |buf| && tail < |buf| && Succ(tail, |buf|) != head
    ensures Items(buf, head, Succ(tail, |buf|)) == Items(buf, head, tail) + [buf[Succ(tail, |buf|)]]
  {
  }

  lemma PublishHead<T>(buf: seq<T>, head: nat, tail: nat)
    requires head < |buf| && tail < |buf| && head != tail
    ensures Items(buf, head, tail) == [buf[Succ(head, |buf|)]] + Items(buf, Succ(head, |buf|), tail)
  {
  }

  lemma StepKeeps<T>(r: Ring<T>, st: Step<T>)
    requires Inv(r) && Enabled(r, st)
    ensures Inv(After(r, st))
  {
    ModIsSucc(r.tail, |r.buf|);
    ModIsSucc(r.head, |r.buf|);
    hide IsPow2, Mod;
    match st
    case EnqScribble(junk) => ScribbleBeyond(r.buf, r.head, r.tail, junk);
    case EnqCopy => ScribbleBeyond(r.buf, r.head, r.tail, r.producer.data);
    case EnqPublish =>
      PublishTail(r.buf, r.head, r.tail);
      assert r.delivered + Items(r.buf, r.head, r.tail) + [r.producer.data]
          == r.delivered + (Items(r.buf, r.head, r.tail) + [r.producer.data]);
    case DeqPublish =>
      PublishHead(r.buf, r.head, r.tail);
    case _ =>
  }

  /** -1 is returned exactly when the ring is full, respectively empty, at the moment of the check. */
  lemma RefusalsAreExact<T>(r: Ring<T>, data: T)
    requires Inv(r)
    ensures r.producer.Outside? ==>
      (After(r, EnqCheck(data)).producer.Outside? <==> |r.accepted| - |r.delivered| == |r.buf| - 1)
    ensures r.consumer.Away? ==> (After(r, DeqCheck).consumer.Away? <==> r.accepted == r.delivered)
  {
    ModIsSucc(r.tail, |r.buf|);
    ModIsSucc(r.head, |r.buf|);
    assert r.delivered + [] == r.delivered;
  }

  /** The ring after the steps sts, in whatever order the two threads took them. */
  ghost function Exec<T>(r: Ring<T>, sts: seq<Step<T>>): Option<Ring<T>> {
    if sts == [] then Some(r)
    else
      var m := |sts| - 1;
      var q := Exec(r, sts[..m]);
      if q.Some? && Sized(q.value) && Enabled(q.value, sts[m]) then Some(After(q.value, sts[m])) else None
  }

  /** Over every interleaving: what was delivered is a prefix of what was accepted, the rest is in the
      ring, which never holds more than len - 1 items, and the threads' cells are disjoint. */
  lemma {:induction false} RunIsFifo<T>(r: Ring<T>, sts: seq<Step<T>>)
    requires Initial(r) && Exec(r, sts).Some?
    ensures var q := Exec(r, sts).value;
      && Inv(q)
      && q.delivered <= q.accepted && |q.accepted| - |q.delivered| <= |q.buf| - 1
      && (!q.producer.Outside? && !q.consumer.Away? ==> q.producer.l != q.consumer.l)
    decreases |sts|
  {
    if sts != [] {
      var m := |sts| - 1;
      RunIsFifo(r, sts[..m]);
      StepKeeps(Exec(r, sts[..m]).value, sts[m]);
    }
  }
}
