// The fixed-capacity slot ring `RingBuffer<T>` of Allocator.h: `capacity`
// value slots, one readiness flag per slot, a send cursor, a receive cursor
// and the occupancy counter `used` that the allocator keeps in the ring's
// header. Atomic operations are modelled as plain sequential updates.
module Ring {
  import opened Bits

  /** A snapshot of a ring: slot values, readiness flags, both cursors and
      the occupancy counter. */
  datatype RingState<T> = RingState(
    slots: seq<T>,
    ready: seq<bool>,
    sendIndex: int,
    receiveIndex: int,
    used: int)

  /** The shape every ring keeps: one flag per slot, a power-of-two
      capacity, a receive cursor that names a slot, a non-negative send
      cursor. */
  predicate WellFormed<T>(s: RingState<T>)
  {
    |s.slots| == |s.ready| && IsPowerOfTwo(|s.slots|) &&
    0 <= s.receiveIndex < |s.slots| && 0 <= s.sendIndex
  }

  /** The effect of `Send(v)`: the slot at the send cursor (taken modulo the
      capacity) receives `v` and becomes ready, whether or not it was still
      ready, and the cursor advances by one. */
  function Publish<T>(s: RingState<T>, v: T): (t: RingState<T>)
    requires WellFormed(s)
    ensures WellFormed(t)
    ensures t.sendIndex == s.sendIndex + 1
    ensures t.receiveIndex == s.receiveIndex && t.used == s.used
    ensures |t.slots| == |s.slots|
    ensures var j := s.sendIndex % |s.slots|;
      t.slots[j] == v && t.ready[j] &&
      forall k :: 0 <= k < |s.slots| && k != j ==> t.slots[k] == s.slots[k] && t.ready[k] == s.ready[k]
  {
    var j := s.sendIndex % |s.slots|;
    s.(slots := s.slots[j := v], ready := s.ready[j := true], sendIndex := s.sendIndex + 1)
  }

  /** How many steps a cyclic scan starting at slot `from` takes to reach
      slot `to`, for slots in [0, n). */
  function Distance(from: int, to: int, n: int): int
  {
    if to >= from then to - from else to - from + n
  }

  ghost predicate AnyReady<T>(s: RingState<T>)
  {
    exists j :: 0 <= j < |s.ready| && s.ready[j]
  }

  /** `idx` is the first ready slot that a cyclic scan starting at the
      receive cursor meets. */
  ghost predicate IsNextReady<T>(s: RingState<T>, idx: int)
    requires WellFormed(s)
  {
    0 <= idx < |s.ready| && s.ready[idx] &&
    forall j :: 0 <= j < |s.ready| && s.ready[j] ==>
      Distance(s.receiveIndex, idx, |s.ready|) <= Distance(s.receiveIndex, j, |s.ready|)
  }

  lemma {:induction false} ClosestReadyExists<T>(s: RingState<T>, j: int)
    requires WellFormed(s) && 0 <= j < |s.ready| && s.ready[j]
    ensures exists idx :: IsNextReady(s, idx)
    decreases Distance(s.receiveIndex, j, |s.ready|)
  {
    if !IsNextReady(s, j) {
      var k :| 0 <= k < |s.ready| && s.ready[k] &&
        Distance(s.receiveIndex, k, |s.ready|) < Distance(s.receiveIndex, j, |s.ready|);
      ClosestReadyExists(s, k);
    }
  }

  /** A cyclic scan meets exactly one first ready slot. */
  lemma NextReadyUnique<T>(s: RingState<T>, a: int, b: int)
    requires WellFormed(s) && IsNextReady(s, a) && IsNextReady(s, b)
    ensures a == b
  {
  }

  /** The slot `Wait` consumes when some slot is ready. */
  ghost function NextReady<T>(s: RingState<T>): (idx: int)
    requires WellFormed(s) && AnyReady(s)
    ensures IsNextReady(s, idx)
  {
    var j :| 0 <= j < |s.ready| && s.ready[j];
    ClosestReadyExists(s, j);
    var idx :| IsNextReady(s, idx);
    idx
  }

  /** The effect of `Wait` once it has found slot `idx`: that flag is
      cleared and the receive cursor stores the masked index; values, the
      send cursor and the counter are untouched. */
  function Consume<T>(s: RingState<T>, idx: int): (t: RingState<T>)
    requires WellFormed(s) && 0 <= idx < |s.ready|
    ensures WellFormed(t)
    ensures t.slots == s.slots && !t.ready[idx]
    ensures forall k :: 0 <= k < |s.ready| && k != idx ==> t.ready[k] == s.ready[k]
    ensures t.sendIndex == s.sendIndex && t.receiveIndex == idx && t.used == s.used
  {
    s.(ready := s.ready[idx := false], receiveIndex := idx)
  }

  class RingBuffer<T> {
    var used: int
    var sendIndex: int
    var receiveIndex: int
    const capacityMask: nat
    const values: array<T>
    const flags: array<bool>

    function State(): RingState<T>
      reads this, values, flags
    {
      RingState(values[..], flags[..], sendIndex, receiveIndex, used)
    }

    ghost predicate Valid()
      reads this, values, flags
    {
      WellFormed(State()) && capacityMask == values.Length - 1 &&
      values as object != flags
    }

    function Capacity(): nat
    {
      values.Length
    }

    /** Construction: `count` must pass the power-of-two test; every slot
        holds the zeroed value, every flag is clear, cursors and counter
        start at 0. */
    constructor (count: int, zero: T)
      requires count >= 1 && BitAnd(count, count - 1) == 0
      ensures Valid() && fresh(values) && fresh(flags)
      ensures Capacity() == count && capacityMask == count - 1
      ensures State() == RingState(seq(count, _ => zero), seq(count, _ => false), 0, 0, 0)
    {
      PowerOfTwoTest(count);
      used := 0;
      sendIndex := 0;
      receiveIndex := 0;
      capacityMask := count - 1;
      values := new T[count](_ => zero);
      flags := new bool[count](_ => false);
    }

    /** Claims the next send cursor value, writes `v` into its slot, marks
        the slot ready and returns the unmasked cursor value. */
    method Send(v: T) returns (i: int)
      requires Valid()
      modifies this, values, flags
      ensures Valid()
      ensures i == old(sendIndex)
      ensures State() == Publish(old(State()), v)
    {
      i := sendIndex;
      sendIndex := i + 1;
      var j := BitAnd(i, capacityMask);
      MaskIsMod(i, values.Length);
      values[j] := v;
      flags[j] := true;
    }

    /** Scans the flags cyclically from the receive cursor, clears the
        first one that is set, stores its masked index as the new receive
        cursor and returns that slot's value and index. */
    method Wait() returns (value: T, index: int)
      requires Valid() && AnyReady(State())
      modifies this, flags
      ensures Valid()
      ensures index == NextReady(old(State()))
      ensures State() == Consume(old(State()), index)
      ensures value == old(State()).slots[index]
    {
      ghost var s := State();
      ghost var n, r := values.Length, receiveIndex;
      ghost var j0 :| 0 <= j0 < n && flags[j0];
      var ir := receiveIndex;
      while !flags[BitAnd(ir, capacityMask)]
        invariant r <= ir <= r + Distance(r, j0, n)
        invariant forall j :: 0 <= j < n && flags[j] ==> ir - r <= Distance(r, j, n)
        decreases r + Distance(r, j0, n) - ir
        modifies {}
      {
        WrapOnce(r, ir, n);
        ir := ir + 1;
      }
      WrapOnce(r, ir, n);
      ir := BitAnd(ir, capacityMask);
      assert IsNextReady(s, ir);
      NextReadyUnique(s, ir, NextReady(s));
      flags[ir] := false;
      receiveIndex := ir;
      value := values[ir];
      index := ir;
    }
  }

  // A scan position less than one lap past slot `r` masks to the slot that
  // lies that many steps along.
  lemma WrapOnce(r: int, k: int, n: int)
    requires IsPowerOfTwo(n) && 0 <= r < n && r <= k < r + n
    ensures BitAnd(k, n - 1) == if k < n then k else k - n
    ensures Distance(r, BitAnd(k, n - 1), n) == k - r
  {
    MaskIsMod(k, n);
    if k < n {
      ModUnique(k, n, 0, k);
    } else {
      ModUnique(k, n, 1, k - n);
    }
  }
}
