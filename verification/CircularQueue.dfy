/** spdlog's circular_q: a ring with one reserved slot, refining a bounded sequence that drops its oldest element. */
module CircularQueue {

  // ---- the sequence it stands for ----

  function PushBack<T>(q: seq<T>, capacity: nat, x: T): (r: seq<T>)
    requires |q| <= capacity
    ensures |r| <= capacity
  {
    if |q| < capacity then q + [x] else (q + [x])[1..]
  }

  // ---- indices around the ring ----

  function Wrap(i: nat, n: nat): (r: nat)
    requires n > 0 && i < 2 * n
    ensures r < n
  {
    if i < n then i else i - n
  }

  lemma ModuloWraps(i: nat, n: nat)
    requires n > 0 && i < 2 * n
    ensures i % n == Wrap(i, n)
  {
    var q := i / n;
    assert i == q * n + i % n;
    assert q >= 2 ==> q * n >= 2 * n;
    assert q == 0 || q == 1;
  }

  /** The elements from head up to, and without, tail. */
  function Ring<T>(s: seq<T>, head: nat, tail: nat): (r: seq<T>)
    requires head <= |s| && tail <= |s|
    ensures |r| == if tail >= head then tail - head else |s| - (head - tail)
  {
    if tail >= head then s[head..tail] else s[head..] + s[..tail]
  }

  lemma RingKeepsElsewhere<T>(s: seq<T>, head: nat, tail: nat, x: T)
    requires head < |s| && tail < |s|
    ensures Ring(s[tail := x], head, tail) == Ring(s, head, tail)
  {
  }

  /** Storing at tail and moving it on appends, unless tail runs into head. */
  lemma RingAppends<T>(s: seq<T>, head: nat, tail: nat)
    requires head < |s| && tail < |s| && Wrap(tail + 1, |s|) != head
    ensures Ring(s, head, Wrap(tail + 1, |s|)) == Ring(s, head, tail) + [s[tail]]
    ensures |Ring(s, head, tail)| < |s| - 1
  {
    if tail + 1 == |s| { assert s[head..] == s[head..tail] + [s[tail]]; }
  }

  /** When it does, moving head on as well drops the oldest element. */
  lemma RingOverruns<T>(s: seq<T>, head: nat, tail: nat)
    requires head < |s| && tail < |s| && Wrap(tail + 1, |s|) == head
    ensures Ring(s, Wrap(head + 1, |s|), head) == (Ring(s, head, tail) + [s[tail]])[1..]
    ensures |Ring(s, head, tail)| == |s| - 1
  {
  }

  lemma RingDrops<T>(s: seq<T>, head: nat, tail: nat)
    requires head < |s| && tail < |s| && head != tail
    ensures Ring(s, Wrap(head + 1, |s|), tail) == Ring(s, head, tail)[1..]
  {
  }

  class CircularQ<T(0)> {
    var maxItems: nat
    var head: nat
    var tail: nat
    var overrunCounter: nat
    var v: array<T>

    ghost predicate Valid()
      reads this
    {
      v.Length == maxItems && if maxItems == 0 then head == tail == 0 else head < maxItems && tail < maxItems
    }

    /** The number of elements the queue can hold; the disabled queue holds none. */
    function Capacity(): nat
      reads this
    {
      if maxItems == 0 then 0 else maxItems - 1
    }

    function Size(): (n: nat)
      requires Valid()
      reads this
      ensures n <= Capacity()
    {
      if tail >= head then tail - head else maxItems - (head - tail)
    }

    ghost function Contents(): (s: seq<T>)
      requires Valid()
      reads this, v
      ensures |s| == Size()
    {
      Ring(v[..], head, tail)
    }

    constructor Disabled()
      ensures Valid() && maxItems == 0 && Contents() == [] && overrunCounter == 0 && fresh(v)
    {
      maxItems, head, tail, overrunCounter := 0, 0, 0, 0;
      v := new T[0];
    }

    constructor (capacity: nat)
      ensures Valid() && maxItems == capacity + 1 && Contents() == [] && overrunCounter == 0 && fresh(v)
    {
      maxItems, head, tail, overrunCounter := capacity + 1, 0, 0, 0;
      v := new T[capacity + 1];
    }

    /** Appends, overrunning the oldest element when there is no room; the disabled queue swallows everything. */
    method PushItem(item: T)
      requires Valid()
      modifies this`head, this`tail, this`overrunCounter, v
      ensures Valid()
      ensures Contents() == PushBack(old(Contents()), Capacity(), item)
      ensures overrunCounter == old(overrunCounter) + if maxItems > 0 && |old(Contents())| == Capacity() then 1 else 0
    {
      hide Ring, Wrap;
      if maxItems > 0 {
        RingKeepsElsewhere(v[..], head, tail, item);
        v[tail] := item;
        assert v[..] == old(v[..])[tail := item];
        ModuloWraps(tail + 1, maxItems);
        if Wrap(tail + 1, maxItems) == head {
          RingOverruns(v[..], head, tail);
        } else {
          RingAppends(v[..], head, tail);
        }
        tail := (tail + 1) % maxItems;
        if tail == head {
          ModuloWraps(head + 1, maxItems);
          head := (head + 1) % maxItems;
          overrunCounter := overrunCounter + 1;
        }
      }
    }

    method PopFront()
      requires Valid() && Size() > 0
      modifies this`head
      ensures Valid()
      ensures Contents() == old(Contents())[1..]
    {
      ModuloWraps(head + 1, maxItems);
      RingDrops(v[..], head, tail);
      head := (head + 1) % maxItems;
    }

    /** The move constructor and assignment: takes over another queue and leaves it disabled, even if that is itself. */
    method MoveFrom(other: CircularQ<T>)
      requires other.Valid()
      modifies this, other
      ensures Valid() && other.Valid() && other.maxItems == 0 && other.overrunCounter == 0 && fresh(other.v)
      ensures other != this ==>
        && Contents() == old(other.Contents()) && Capacity() == old(other.Capacity())
        && maxItems == old(other.maxItems) && overrunCounter == old(other.overrunCounter) && v == old(other.v)
    {
      maxItems, head, tail, overrunCounter, v := other.maxItems, other.head, other.tail, other.overrunCounter, other.v;
      other.v := new T[0];
      other.maxItems, other.head, other.tail, other.overrunCounter := 0, 0, 0, 0;
    }

    method Front() returns (x: T)
      requires Valid() && Size() > 0
      ensures x == Contents()[0]
    {
      x := v[head];
    }

    method At(i: nat) returns (x: T)
      requires Valid() && i < Size()
      ensures x == Contents()[i]
    {
      ModuloWraps(head + i, maxItems);
      x := v[(head + i) % maxItems];
    }

    method Empty() returns (r: bool)
      requires Valid()
      ensures r <==> Contents() == []
    {
      r := tail == head;
    }

    /** Full means no room is left, except that the disabled queue never claims to be full. */
    method Full() returns (r: bool)
      requires Valid()
      ensures r <==> maxItems > 0 && |Contents()| == Capacity()
    {
      if maxItems > 0 {
        ModuloWraps(tail + 1, maxItems);
        r := (tail + 1) % maxItems == head;
      } else {
        r := false;
      }
    }
  }
}
