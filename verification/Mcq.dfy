/** The ring buffer of mcq.c as one thread sees it: a bounded first-in first-out queue. */
module Mcq {
  import opened Bits

  /** The cell after i in a ring of len cells. */
  function Succ(i: nat, len: nat): nat {
    if i + 1 == len then 0 else i + 1
  }

  /** How many cells lie after head up to and including tail. */
  function Count(head: nat, tail: nat, len: nat): nat
    requires head < len && tail < len
  {
    if head <= tail then tail - head else tail + len - head
  }

  /** The cell i places after head. */
  function Cell(head: nat, i: nat, len: nat): (c: nat)
    requires head < len && i <= len
    ensures c < len || i == len
  {
    if head + i < len then head + i else head + i - len
  }

  /** The items held, oldest first. */
  function Items<T>(buf: seq<T>, head: nat, tail: nat): (s: seq<T>)
    requires head < |buf| && tail < |buf|
    ensures |s| == Count(head, tail, |buf|)
  {
    seq(Count(head, tail, |buf|), i requires 0 <= i < Count(head, tail, |buf|) => buf[Cell(head, i + 1, |buf|)])
  }

  lemma ModIsSucc(i: nat, len: nat)
    requires IsPow2(len) && i < len
    ensures Mod(i + 1, len) == Succ(i, len)
  {
    var k: nat :| len == Pow2(k);
    ModIsRemainder(i + 1, k);
    if i + 1 < len {
      Quotient(i + 1, len, 0, i + 1);
    } else {
      Quotient(i + 1, len, 1, 0);
    }
  }

  class Queue<T(0)> {
    var buf: array<T>
    var len: nat
    var head: nat
    var tail: nat

    ghost predicate Valid()
      reads this, buf
    {
      IsPow2(len) && buf.Length == len && head < len && tail < len
    }

    ghost function Contents(): seq<T>
      requires Valid()
      reads this, buf
    {
      Items(buf[..], head, tail)
    }

    /** `Mcq_new`: a length that is no power of two is rounded up; one that is, is kept, and then
        the ring holds one item fewer than asked for. */
    constructor (size: int)
      requires 0 < size <= 0x4000_0000
      ensures Valid() && fresh(buf) && Contents() == []
      ensures if IsPow2(size) then len == size else len > size && forall p :: IsPow2(p) && p > size ==> len <= p
    {
      var l := size;
      PowerTest(size);
      if And(size, size - 1) != 0 {
        LargestPower();
        l := RoundUpPowOfTwo(size);
      }
      buf := new T[l];
      len := l;
      head, tail := 0, 0;
    }

    /** `Mcq_enq` */
    method Enq(data: T) returns (status: int)
      requires Valid()
      modifies this`tail, buf
      ensures Valid() && status == if |old(Contents())| == len - 1 then -1 else 0
      ensures Contents() == if status == 0 then old(Contents()) + [data] else old(Contents())
    {
      ModIsSucc(tail, len);
      var l := Mod(tail + 1, len);
      if l == head {
        return -1;
      }
      buf[l] := data;
      tail := l;
      return 0;
    }

    /** `Mcq_deq`; data is the caller's buffer, left alone when the queue is empty. */
    method Deq(data: T) returns (status: int, data': T)
      requires Valid()
      modifies this`head
      ensures Valid() && status == if old(Contents()) == [] then -1 else 0
      ensures if status == 0 then old(Contents()) == [data'] + Contents()
              else Contents() == old(Contents()) && data' == data
    {
      if head == tail {
        return -1, data;
      }
      ModIsSucc(head, len);
      var l := Mod(head + 1, len);
      data' := buf[l];
      head := l;
      status := 0;
    }

    /** `Mcq_empty` */
    method IsEmpty() returns (b: bool)
      requires Valid()
      ensures b <==> Contents() == []
    {
      return head == tail;
    }

    /** `Mcq_full` */
    method IsFull() returns (b: bool)
      requires Valid()
      ensures b <==> |Contents()| == len - 1
    {
      ModIsSucc(tail, len);
      return Mod(tail + 1, len) == head;
    }
  }
}
