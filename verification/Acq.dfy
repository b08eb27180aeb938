/** The blocking queue of acq.c: any number of producers and one consumer around a ring,
    a mutex and a condition variable, cut into their atomic steps. */
module Acq {
  import opened Wrappers

  /** Where a thread is inside `Acq_enq`; status is what `Mcq_enq` returned. */
  datatype ProducerPc<T> =
    | Outside
    | WantsLock(data: T)
    | Holds(data: T)
    | Enqueued(status: int)      // still holding the mutex
    | Signalling(status: int)    // mutex released, signal not yet sent

  /** Where the consumer is inside `Acq_deq`. */
  datatype ConsumerPc =
    | Away
    | Locking                    // at pthread_mutex_lock
    | Testing                    // holds the mutex, about to test for empty
    | Waiting                    // asleep in pthread_cond_wait, mutex released
    | Woken                      // woken, must take the mutex again
    | Taking                     // holds the mutex, saw an item
    | Leaving                    // holds the mutex, has the item

  datatype Owner = Producer(i: nat) | Consumer

  datatype Queue<T> = Queue(
    capacity: nat,               // one less than the ring's length
    items: seq<T>,
    mutex: Option<Owner>,
    producers: seq<ProducerPc<T>>,
    consumer: ConsumerPc,
    accepted: seq<T>,            // every item Mcq_enq took, in order
    delivered: seq<T>)           // every item Acq_deq returned, in order

  datatype Step<T> =
    | Call(i: nat, data: T) | Lock(i: nat) | Enq(i: nat) | Unlock(i: nat) | Signal(i: nat)
    | DeqCall | DeqLock | DeqTest | DeqTake | DeqUnlock
    | Spurious                   // pthread_cond_wait may return unsignalled

  ghost predicate Enabled<T>(q: Queue<T>, st: Step<T>) {
    match st
    case Call(i, data) => i < |q.producers| && q.producers[i].Outside?
    case Lock(i) => i < |q.producers| && q.producers[i].WantsLock? && q.mutex == None
    case Enq(i) => i < |q.producers| && q.producers[i].Holds?
    case Unlock(i) => i < |q.producers| && q.producers[i].Enqueued?
    case Signal(i) => i < |q.producers| && q.producers[i].Signalling?
    case DeqCall => q.consumer == Away
    case DeqLock => (q.consumer == Locking || q.consumer == Woken) && q.mutex == None
    case DeqTest => q.consumer == Testing
    case DeqTake => q.consumer == Taking && q.items != []
    case DeqUnlock => q.consumer == Leaving
    case Spurious => q.consumer == Waiting
  }

  ghost function After<T>(q: Queue<T>, st: Step<T>): Queue<T>
    requires Enabled(q, st)
  {
    match st
    case Call(i, data) => q.(producers := q.producers[i := WantsLock(data)])
    case Lock(i) => q.(mutex := Some(Producer(i)), producers := q.producers[i := Holds(q.producers[i].data)])
    case Enq(i) =>
      if |q.items| == q.capacity then q.(producers := q.producers[i := Enqueued(-1)])
      else q.(items := q.items + [q.producers[i].data], accepted := q.accepted + [q.producers[i].data],
              producers := q.producers[i := Enqueued(0)])
    case Unlock(i) => q.(mutex := None, producers := q.producers[i := Signalling(q.producers[i].status)])
    case Signal(i) =>
      q.(producers := q.producers[i := Outside], consumer := if q.consumer == Waiting then Woken else q.consumer)
    case DeqCall => q.(consumer := Locking)
    case DeqLock => q.(mutex := Some(Consumer), consumer := Testing)
    case DeqTest => if q.items == [] then q.(mutex := None, consumer := Waiting) else q.(consumer := Taking)
    case DeqTake => q.(items := q.items[1..], delivered := q.delivered + [q.items[0]], consumer := Leaving)
    case DeqUnlock => q.(mutex := None, consumer := Away)
    case Spurious => q.(consumer := Woken)
  }

  ghost predicate Initial<T>(q: Queue<T>) {
    q.items == q.accepted == q.delivered == [] && q.mutex == None && q.consumer == Away
    && forall i :: 0 <= i < |q.producers| ==> q.producers[i].Outside?
  }

  /** Producer i has added an item and has not yet signalled. */
  ghost predicate OwesSignal<T>(q: Queue<T>, i: int) {
    0 <= i < |q.producers| && (q.producers[i] == Enqueued(0) || q.producers[i] == Signalling(0))
  }

  /** The mutex is held by exactly the thread that believes so. */
  ghost predicate Exclusive<T>(q: Queue<T>) {
    && (forall i :: 0 <= i < |q.producers| ==>
      (q.mutex == Some(Producer(i)) <==> q.producers[i].Holds? || q.producers[i].Enqueued?))
    && (q.mutex.Some? && q.mutex.value.Producer? ==> q.mutex.value.i < |q.producers|)
    && (q.mutex == Some(Consumer) <==> q.consumer == Testing || q.consumer == Taking || q.consumer == Leaving)
  }

  ghost predicate Inv<T>(q: Queue<T>) {
    && Exclusive(q)
    && (q.consumer == Taking ==> q.items != [])
    && |q.items| <= q.capacity
    && q.accepted == q.delivered + q.items
    && (q.consumer == Waiting && q.items != [] ==> exists i :: OwesSignal(q, i))
  }

  lemma StepKeepsExclusive<T>(q: Queue<T>, st: Step<T>)
    requires Inv(q) && Enabled(q, st)
    ensures Exclusive(After(q, st))
  {
  }

  /** No wake-up is lost. */
  lemma StepKeepsDebt<T>(q: Queue<T>, st: Step<T>)
    requires Inv(q) && Enabled(q, st) && After(q, st).consumer == Waiting && After(q, st).items != []
    ensures exists i :: OwesSignal(After(q, st), i)
  {
    var r := After(q, st);
    if q.items == [] {
      assert OwesSignal(r, st.i);
    } else {
      var i :| OwesSignal(q, i);
      if st.Enq? && st.i != i {
        assert OwesSignal(r, i);
      } else if st.Unlock? && st.i == i {
        assert OwesSignal(r, i);
      } else {
        assert OwesSignal(r, i);
      }
    }
  }

  lemma StepKeeps<T>(q: Queue<T>, st: Step<T>)
    requires Inv(q) && Enabled(q, st)
    ensures Inv(After(q, st))
  {
    StepKeepsExclusive(q, st);
    if After(q, st).consumer == Waiting && After(q, st).items != [] {
      StepKeepsDebt(q, st);
    }
    if st.Enq? {
      assert q.delivered + q.items + [q.producers[st.i].data] == q.delivered + (q.items + [q.producers[st.i].data]);
    } else if st.DeqTake? {
      assert q.delivered + q.items == q.delivered + [q.items[0]] + q.items[1..];
    }
  }

  ghost function Exec<T>(q: Queue<T>, sts: seq<Step<T>>): Option<Queue<T>> {
    if sts == [] then Some(q)
    else
      var m := |sts| - 1;
      var r := Exec(q, sts[..m]);
      if r.Some? && Enabled(r.value, sts[m]) then Some(After(r.value, sts[m])) else None
  }

  /** Over every interleaving: delivered items are the accepted ones in order, the rest is queued,
      and a consumer asleep beside a non-empty queue has a signal coming. */
  lemma {:induction false} RunIsFifo<T>(q: Queue<T>, sts: seq<Step<T>>)
    requires Initial(q) && Exec(q, sts).Some?
    ensures var r := Exec(q, sts).value;
      && Inv(r)
      && r.delivered <= r.accepted && r.accepted[|r.delivered|..] == r.items
      && (r.consumer == Waiting && r.items != [] ==> exists i :: OwesSignal(r, i))
    decreases |sts|
  {
    if sts != [] {
      var m := |sts| - 1;
      RunIsFifo(q, sts[..m]);
      StepKeeps(Exec(q, sts[..m]).value, sts[m]);
    }
  }

  // ------------------------------------------------------------------------ progress

  /** Steps still to be taken, by the consumer and by a producer in its way, before the next delivery. */
  ghost function Work<T>(q: Queue<T>): nat {
    (match q.consumer case Waiting => 9 case Locking => 6 case Woken => 6 case Testing => 3 case _ => 0)
    + match q.mutex
      case Some(Producer(i)) => if i < |q.producers| && q.producers[i].Holds? then 2 else 1
      case _ => 0
  }

  /** While an item is queued and the consumer is inside `Acq_deq`, some thread can take
      a step that delivers the oldest item or brings its delivery nearer. */
  lemma NeverStuck<T>(q: Queue<T>) returns (st: Step<T>)
    requires Inv(q) && q.items != [] && q.consumer != Away && q.consumer != Leaving
    ensures Enabled(q, st)
    ensures After(q, st).delivered == q.delivered + [q.items[0]] ||
      (Work(After(q, st)) < Work(q) && q.items <= After(q, st).items && After(q, st).delivered == q.delivered
       && After(q, st).consumer != Away && After(q, st).consumer != Leaving)
  {
    if q.mutex.Some? && q.mutex.value.Producer? {
      var i := q.mutex.value.i;
      st := if q.producers[i].Holds? then Enq(i) else Unlock(i);
    } else if q.consumer == Waiting {
      var i :| OwesSignal(q, i);
      st := Signal(i);
    } else if q.consumer == Testing {
      st := DeqTest;
    } else if q.consumer == Taking {
      st := DeqTake;
    } else {
      st := DeqLock;
    }
  }

  /** The protocol cannot deadlock: from every state a run can reach, a consumer inside `Acq_deq`
      beside a non-empty queue is at most Work + 1 steps from being handed the oldest item. */
  lemma {:induction false} CanDeliver<T>(q: Queue<T>) returns (sts: seq<Step<T>>)
    requires Inv(q) && q.items != [] && q.consumer != Away && q.consumer != Leaving
    ensures |sts| <= Work(q) + 1
    ensures Exec(q, sts).Some? && Exec(q, sts).value.delivered == q.delivered + [q.items[0]]
    decreases Work(q)
  {
    var st := NeverStuck(q);
    var r := After(q, st);
    StepKeeps(q, st);
    sts := [st];
    assert [st][..0] == [];
    if r.delivered != q.delivered + [q.items[0]] {
      var rest := CanDeliver(r);
      ExecFrom(q, st, rest);
      sts := [st] + rest;
    }
  }

  lemma {:induction false} ExecFrom<T>(q: Queue<T>, st: Step<T>, sts: seq<Step<T>>)
    requires Enabled(q, st)
    ensures Exec(q, [st] + sts) == Exec(After(q, st), sts)
    decreases |sts|
  {
    var all := [st] + sts;
    if sts == [] {
      assert all == [st] && all[..0] == [];
    } else {
      var m := |sts| - 1;
      assert all[..m + 1] == [st] + sts[..m];
      ExecFrom(q, st, sts[..m]);
    }
  }
}
