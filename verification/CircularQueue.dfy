/** circular_q: a ring buffer over a vector with one slot kept free, refining a bounded first-in first-out queue. */
module CircularQueue {
  /** A push onto a queue of at most cap items: the oldest goes when there is no room. */
  function Pushed<T>(q: seq<T>, cap: nat, x: T): seq<T> {
    if |q| < cap then q + [x] else (q + [x])[1..]
  }

  /** The items from head to tail of a ring. */
  function Ring<T>(s: seq<T>, head: nat, tail: nat): seq<T>
    requires head <= |s| && tail <= |s|
  {
    if head <= tail then s[head..tail] else s[head..] + s[..tail]
  }

  function Next(i: nat, n: nat): nat {
    if i + 1 == n then 0 else i + 1
  }

  /** Storing at the tail and moving it adds the item; when the tail meets the head, all slots hold items. */
  lemma RingStore<T>(s: seq<T>, head: nat, tail: nat, x: T)
    requires head < |s| && tail < |s|
    ensures var t := Next(tail, |s|);
            if t != head then Ring(s[tail := x], head, t) == Ring(s, head, tail) + [x]
            else |Ring(s, head, tail)| == |s| - 1
                 && Ring(s[tail := x], Next(head, |s|), t) == (Ring(s, head, tail) + [x])[1..]
  {
    var t := Next(tail, |s|);
    var q := Ring(s, head, tail) + [x];
    if t != head {
      assert Ring(s[tail := x], head, t) == q;
    } else {
      assert Ring(s[tail := x], Next(head, |s|), t) == q[1..];
    }
  }

  class CircularQ<T(0)> {
    var maxItems: nat
    var head: nat
    var tail: nat
    var overrunCounter: nat
    var v: array<T>

    ghost predicate Valid()
      reads this
    {
      && v.Length == maxItems
      && (maxItems == 0 ==> head == tail == 0)
      && (maxItems > 0 ==> head < maxItems && tail < maxItems)
    }

    /** The stored items, oldest first. */
    ghost function Contents(): seq<T>
      reads this, v
      requires Valid()
    {
      Ring(v[..], head, tail)
    }

    /** How many items fit: one slot marks the full queue; a disabled queue has none. */
    ghost function Capacity(): nat
      reads this
    {
      if maxItems == 0 then 0 else maxItems - 1
    }

    /** The disabled queue. */
    constructor ()
      ensures Valid() && maxItems == 0 && Contents() == [] && overrunCounter == 0
      ensures fresh(v)
    {
      maxItems, head, tail, overrunCounter := 0, 0, 0, 0;
      v := new T[0];
    }

    constructor WithCapacity(items: nat)
      ensures Valid() && maxItems == items + 1 && Capacity() == items && Contents() == [] && overrunCounter == 0
      ensures fresh(v)
    {
      maxItems, head, tail, overrunCounter := items + 1, 0, 0, 0;
      v := new T[items + 1];
    }

    /** push_back; a disabled queue ignores the item. */
    method PushBack(item: T)
      requires Valid()
      modifies this, v
      ensures Valid() && v == old(v) && maxItems == old(maxItems)
      ensures maxItems == 0 ==> Contents() == [] && overrunCounter == old(overrunCounter)
      ensures maxItems > 0 ==> Contents() == Pushed(old(Contents()), Capacity(), item)
      ensures maxItems > 0 ==> overrunCounter == old(overrunCounter) + if |old(Contents())| < Capacity() then 0 else 1
    {
      if maxItems > 0 {
        RingStore(v[..], head, tail, item);
        WrapIndex(tail + 1, maxItems);
        WrapIndex(head + 1, maxItems);
        v[tail] := item;
        assert v[..] == old(v[..])[tail := item];
        tail := (tail + 1) % maxItems;
        if tail == head {
          head := (head + 1) % maxItems;
          overrunCounter := overrunCounter + 1;
        }
      }
    }

    /** front; undefined on an empty queue. */
    method Front() returns (item: T)
      requires Valid() && Contents() != []
      ensures item == Contents()[0]
    {
      item := v[head];
    }

    method Size() returns (n: nat)
      requires Valid()
      ensures n == |Contents()|
    {
      if tail >= head {
        n := tail - head;
      } else {
        n := maxItems - (head - tail);
      }
    }

    method At(i: nat) returns (item: T)
      requires Valid() && i < |Contents()|
      ensures item == Contents()[i]
    {
      WrapIndex(head + i, maxItems);
      item := v[(head + i) % maxItems];
    }

    /** pop_front; undefined on an empty queue. */
    method PopFront()
      requires Valid() && Contents() != []
      modifies this`head
      ensures Valid() && Contents() == old(Contents())[1..]
    {
      WrapIndex(head + 1, maxItems);
      head := (head + 1) % maxItems;
    }

    method Empty() returns (empty: bool)
      requires Valid()
      ensures empty <==> Contents() == []
    {
      empty := tail == head;
    }

    /** full; a disabled queue never is. */
    method Full() returns (full: bool)
      requires Valid()
      ensures full <==> maxItems > 0 && |Contents()| == Capacity()
    {
      if maxItems > 0 {
        WrapIndex(tail + 1, maxItems);
        full := (tail + 1) % maxItems == head;
      } else {
        full := false;
      }
    }

    /** Move assignment: everything passes over, and the source is left disabled, even by a move onto itself. */
    method MoveFrom(other: CircularQ<T>)
      requires Valid() && other.Valid()
      modifies this, other
      ensures Valid()
      ensures other != this ==>
                && Contents() == old(other.Contents()) && maxItems == old(other.maxItems)
                && overrunCounter == old(other.overrunCounter)
      ensures other.Valid() && other.maxItems == 0 && other.Contents() == [] && other.overrunCounter == 0
    {
      maxItems, head, tail := other.maxItems, other.head, other.tail;
      overrunCounter, v := other.overrunCounter, other.v;
      other.v := new T[0];
      other.maxItems, other.head, other.tail, other.overrunCounter := 0, 0, 0, 0;
    }
  }

  lemma WrapIndex(i: nat, n: nat)
    requires n > 0 && i < 2 * n
    ensures i % n == if i < n then i else i - n
  {
  }

  datatype Op<T> = Push(item: T) | Pop

  /** A bounded queue with its history: what was pushed, popped and overrun. */
  datatype Fifo<T> = Fifo(queue: seq<T>, pushed: seq<T>, removed: seq<T>, popped: nat, overrun: nat)

  /** One operation as PushBack and PopFront perform it; popping an empty queue is not allowed. */
  function Apply<T>(s: Fifo<T>, cap: nat, op: Op<T>): Fifo<T>
    requires op.Pop? ==> s.queue != []
  {
    match op
    case Push(x) =>
      var all := s.queue + [x];
      if |s.queue| < cap then s.(queue := Pushed(s.queue, cap, x), pushed := s.pushed + [x])
      else s.(queue := Pushed(s.queue, cap, x), pushed := s.pushed + [x],
              removed := s.removed + [all[0]], overrun := s.overrun + 1)
    case Pop =>
      s.(queue := s.queue[1..], removed := s.removed + [s.queue[0]], popped := s.popped + 1)
  }

  predicate Allowed<T>(s: Fifo<T>, cap: nat, ops: seq<Op<T>>)
    decreases |ops|
  {
    ops == [] || ((ops[0].Pop? ==> s.queue != []) && Allowed(Apply(s, cap, ops[0]), cap, ops[1..]))
  }

  function Run<T>(s: Fifo<T>, cap: nat, ops: seq<Op<T>>): Fifo<T>
    requires Allowed(s, cap, ops)
    decreases |ops|
  {
    if ops == [] then s else Run(Apply(s, cap, ops[0]), cap, ops[1..])
  }

  ghost predicate Conserved<T>(s: Fifo<T>, cap: nat) {
    && s.pushed == s.removed + s.queue
    && |s.removed| == s.popped + s.overrun
    && |s.queue| <= cap
  }

  /** Every item pushed is removed once, in order, or still stored; what was not popped was overrun. */
  lemma {:induction false} RunConserves<T>(s: Fifo<T>, cap: nat, ops: seq<Op<T>>)
    requires Conserved(s, cap) && Allowed(s, cap, ops)
    ensures var r := Run(s, cap, ops);
            Conserved(r, cap) && |r.pushed| == r.popped + |r.queue| + r.overrun
    decreases |ops|
  {
    if ops != [] {
      var next := Apply(s, cap, ops[0]);
      match ops[0] {
        case Push(x) =>
          var all := s.queue + [x];
          assert s.pushed + [x] == s.removed + all;
          assert all == [all[0]] + all[1..];
        case Pop =>
          assert s.queue == [s.queue[0]] + s.queue[1..];
      }
      assert next.pushed == next.removed + next.queue;
      RunConserves(next, cap, ops[1..]);
    }
  }

  function Last<T>(s: seq<T>, n: nat): seq<T> {
    if |s| <= n then s else s[|s| - n..]
  }

  /** With pushes only, the queue holds the last items pushed, as many as fit. */
  lemma {:induction false} OnlyPushes<T>(s: Fifo<T>, cap: nat, ops: seq<Op<T>>)
    requires forall i :: 0 <= i < |ops| ==> ops[i].Push?
    requires Conserved(s, cap) && s.popped == 0 && s.queue == Last(s.pushed, cap) && Allowed(s, cap, ops)
    ensures Run(s, cap, ops).queue == Last(Run(s, cap, ops).pushed, cap)
    decreases |ops|
  {
    if ops != [] {
      var next := Apply(s, cap, ops[0]);
      assert Run(s, cap, ops[..1] + ops[1..]) == Run(s, cap, ops) by { assert ops[..1] + ops[1..] == ops; }
      RunConserves(s, cap, ops[..1]);
      assert next == Run(s, cap, ops[..1]);
      OnlyPushes(next, cap, ops[1..]);
    }
  }
}
