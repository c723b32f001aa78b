// `Reference` and `ReferenceAllocator` of Allocator.h: the slot ring over
// reference slots, with allocate, the two add-reference forms, release and
// one-step collection.
//
// Pointers are opaque values. `malloc` is a parameter of `Allocate` (the
// block it returned, `Null` on failure) and every `free` is recorded in the
// ghost log `freed`. The allocator owns its ring (the source inherits from
// it); the counter `used` stays in the ring, where the source declares it.
module Allocator {
  import opened Bits
  import opened Ring

  datatype Ptr = Null | Block(id: nat)

  /** One slot's value: owning pointer, byte size, reference count. */
  datatype Reference = Reference(ptr: Ptr, size: int, count: int)

  /** The value of a slot zeroed at construction, and what `Dispose` leaves. */
  const Empty := Reference(Null, 0, 0)

  /** The failure result of every operation. */
  const Sentinel := -1

  type Table = RingState<Reference>

  /** A table after an operation, with the operation's return value. */
  datatype Outcome = Outcome(table: Table, result: int)

  predicate CountsNonNegative(t: Table)
  {
    forall j :: 0 <= j < |t.slots| ==> t.slots[j].count >= 0
  }

  /** The admission test of `Allocate` and `AddRef(void*)`. */
  predicate Saturated(t: Table)
  {
    t.used > |t.slots| - 1
  }

  /** The blocks `Dispose` hands to `free`: the pointer, unless it is null. */
  function DisposedBlocks(r: Reference): (b: seq<Ptr>)
    ensures Null !in b
    ensures r.ptr != Null ==> b == [r.ptr]
    ensures r.ptr == Null ==> b == []
  {
    if r.ptr != Null then [r.ptr] else []
  }

  /** `Allocate(size)` when `malloc(size)` returned `block`: a saturated
      table or a failed `malloc` leaves everything as it was and yields the
      sentinel; otherwise the result is exactly `Send({block, size, 1})`. */
  function AllocateStep(t: Table, size: int, block: Ptr): (o: Outcome)
    requires WellFormed(t)
    ensures WellFormed(o.table) && o.table.used == t.used
    ensures CountsNonNegative(t) ==> CountsNonNegative(o.table)
    ensures o.result == Sentinel <==> Saturated(t) || block == Null
    ensures o.result == Sentinel ==> o.table == t
    ensures o.result != Sentinel ==>
      o.result == t.sendIndex && o.table == Publish(t, Reference(block, size, 1))
  {
    if Saturated(t) || block == Null then Outcome(t, Sentinel)
    else Outcome(Publish(t, Reference(block, size, 1)), t.sendIndex)
  }

  /** `AddRef(ptr)`: like `Allocate`, but the new slot wraps the caller's
      pointer with size 0; it never merges with a slot already holding it. */
  function AddRefPointerStep(t: Table, p: Ptr): (o: Outcome)
    requires WellFormed(t)
    ensures WellFormed(o.table) && o.table.used == t.used
    ensures CountsNonNegative(t) ==> CountsNonNegative(o.table)
    ensures o.result == Sentinel <==> Saturated(t) || p == Null
    ensures o.result == Sentinel ==> o.table == t
    ensures o.result != Sentinel ==>
      o.result == t.sendIndex && o.table == Publish(t, Reference(p, 0, 1))
  {
    if Saturated(t) || p == Null then Outcome(t, Sentinel)
    else Outcome(Publish(t, Reference(p, 0, 1)), t.sendIndex)
  }

  /** `AddRef(handle)`: a handle in [0, used) raises the count of its slot
      and the counter by one and yields the new count; any other handle
      yields the sentinel and changes nothing. */
  function AddRefHandleStep(t: Table, h: int): (o: Outcome)
    requires WellFormed(t)
    ensures WellFormed(o.table)
    ensures CountsNonNegative(t) ==> CountsNonNegative(o.table)
    ensures o.table.sendIndex == t.sendIndex && o.table.ready == t.ready
    ensures o.table.receiveIndex == t.receiveIndex
    ensures !(0 <= h < t.used) ==> o == Outcome(t, Sentinel)
    ensures 0 <= h < t.used ==> var j := h % |t.slots|;
      o.result == t.slots[j].count + 1 && o.table.used == t.used + 1 &&
      o.table.slots == t.slots[j := t.slots[j].(count := o.result)]
  {
    if 0 <= h < t.used then
      var j := h % |t.slots|;
      var c := t.slots[j].count + 1;
      Outcome(t.(slots := t.slots[j := t.slots[j].(count := c)], used := t.used + 1), c)
    else Outcome(t, Sentinel)
  }

  /** `Release(handle)`: any handle, negative ones included, names slot
      `handle mod capacity`; a zero count yields the sentinel and changes
      nothing, otherwise the count and the counter drop by one and the new
      count is returned. */
  function ReleaseStep(t: Table, h: int): (o: Outcome)
    requires WellFormed(t)
    ensures WellFormed(o.table)
    ensures CountsNonNegative(t) ==> CountsNonNegative(o.table)
    ensures o.table.sendIndex == t.sendIndex && o.table.ready == t.ready
    ensures o.table.receiveIndex == t.receiveIndex
    ensures var j := h % |t.slots|;
      if t.slots[j].count == 0 then o == Outcome(t, Sentinel)
      else o.result == t.slots[j].count - 1 && o.table.used == t.used - 1 &&
           o.table.slots == t.slots[j := t.slots[j].(count := o.result)]
  {
    var j := h % |t.slots|;
    if t.slots[j].count == 0 then Outcome(t, Sentinel)
    else
      var c := t.slots[j].count - 1;
      Outcome(t.(slots := t.slots[j := t.slots[j].(count := c)], used := t.used - 1), c)
  }

  /** On a table whose counts are non-negative, a released count is never
      negative: a successful release returns a count >= 0 and a release of
      a zero count is refused. */
  lemma ReleaseNeverNegative(t: Table, h: int)
    requires WellFormed(t) && CountsNonNegative(t)
    ensures ReleaseStep(t, h).result == Sentinel || ReleaseStep(t, h).result >= 0
    ensures ReleaseStep(t, h).result == Sentinel <==> t.slots[h % |t.slots|].count == 0
  {
  }

  /** `used` starts at 0 and only `AddRef(handle)` raises it, which needs a
      handle below `used`; so no operation ever makes it positive. */
  predicate CounterUnraised(t: Table)
  {
    t.used <= 0
  }

  /** With the counter never raised, `AddRef(handle)` refuses every handle and
      neither `Allocate` nor `AddRef(ptr)` is ever refused for saturation. */
  lemma UnraisedCounterConsequences(t: Table, h: int)
    requires WellFormed(t) && CounterUnraised(t)
    ensures AddRefHandleStep(t, h) == Outcome(t, Sentinel)
    ensures !Saturated(t)
  {
  }

  /** Every step of the allocator, starting where the counter is not
      raised, leaves it not raised. */
  lemma CounterStaysUnraised(t: Table, h: int, size: int, p: Ptr)
    requires WellFormed(t) && CounterUnraised(t)
    ensures CounterUnraised(AllocateStep(t, size, p).table)
    ensures CounterUnraised(AddRefPointerStep(t, p).table)
    ensures CounterUnraised(AddRefHandleStep(t, h).table)
    ensures CounterUnraised(ReleaseStep(t, h).table)
    ensures forall idx :: 0 <= idx < |t.ready| ==> CounterUnraised(Consume(t, idx))
  {
  }

  class ReferenceAllocator {
    const ring: RingBuffer<Reference>
    /** Every block handed to `free`, in order. */
    ghost var freed: seq<Ptr>

    ghost function Repr(): set<object>
    {
      {ring, ring.values, ring.flags}
    }

    function Table(): Table
      reads ring, ring.values, ring.flags
    {
      ring.State()
    }

    ghost predicate Valid()
      reads ring, ring.values, ring.flags
    {
      ring.Valid() && CountsNonNegative(Table())
    }

    /** A table of `count` zeroed, unready slots with both cursors and the
        counter at 0; `count` must pass the power-of-two test. */
    constructor (count: int)
      requires count >= 1 && BitAnd(count, count - 1) == 0
      ensures Valid() && fresh(Repr()) && freed == []
      ensures Table() == RingState(seq(count, _ => Empty), seq(count, _ => false), 0, 0, 0)
    {
      ring := new RingBuffer<Reference>(count, Empty);
      freed := [];
    }

    method GetUsedCount() returns (n: int)
      ensures n == Table().used
    {
      n := ring.used;
    }

    /** Allocates a block of `size` bytes, `block` being what `malloc`
        returned, and publishes it with count 1. */
    method Allocate(size: int, block: Ptr) returns (h: int)
      requires Valid()
      modifies Repr()
      ensures Valid()
      ensures Outcome(Table(), h) == AllocateStep(old(Table()), size, block)
    {
      if ring.used > ring.capacityMask {
        return Sentinel;
      }
      h := Sentinel;
      if block != Null {
        h := ring.Send(Reference(block, size, 1));
      }
    }

    /** Publishes a new slot wrapping `p` with count 1. */
    method AddRefPointer(p: Ptr) returns (h: int)
      requires Valid()
      modifies Repr()
      ensures Valid()
      ensures Outcome(Table(), h) == AddRefPointerStep(old(Table()), p)
    {
      if ring.used > ring.capacityMask {
        return Sentinel;
      }
      h := Sentinel;
      if p != Null {
        h := ring.Send(Reference(p, 0, 1));
      }
    }

    /** Raises the count of the slot of `handle`, guarded by `0 <= handle < used`. */
    method AddRefHandle(handle: int) returns (c: int)
      requires Valid()
      modifies Repr()
      ensures Valid()
      ensures Outcome(Table(), c) == AddRefHandleStep(old(Table()), handle)
    {
      if 0 <= handle < ring.used {
        var j := BitAnd(handle, ring.capacityMask);
        MaskIsMod(handle, ring.values.Length);
        c := ring.values[j].count + 1;
        ring.values[j] := ring.values[j].(count := c);
        ring.used := ring.used + 1;
        return c;
      }
      return Sentinel;
    }

    /** Lowers the count of the slot of `handle` unless it is already zero. */
    method Release(handle: int) returns (c: int)
      requires Valid()
      modifies Repr()
      ensures Valid()
      ensures Outcome(Table(), c) == ReleaseStep(old(Table()), handle)
    {
      var j := BitAnd(handle, ring.capacityMask);
      MaskIsMod(handle, ring.values.Length);
      if ring.values[j].count == 0 {
        return Sentinel;
      }
      c := ring.values[j].count - 1;
      ring.values[j] := ring.values[j].(count := c);
      ring.used := ring.used - 1;
    }

    /** `Reference::Dispose` on a value: frees a non-null block and returns
        the cleared reference. */
    method Dispose(r: Reference) returns (d: Reference)
      modifies this`freed
      ensures d == Empty
      ensures freed == old(freed) + DisposedBlocks(r)
    {
      d := r;
      if d.ptr != Null {
        freed := freed + [d.ptr];
        d := d.(ptr := Null);
      }
      d := d.(count := 0, size := 0);
    }

    /** Consumes the next ready slot. A zero count frees its block (from a
        copy: the stored slot keeps its value) and returns the masked index;
        otherwise the sentinel is returned and the slot stays unready. */
    method TryCollectOnce() returns (h: int)
      requires Valid() && AnyReady(Table())
      modifies this`freed, Repr()
      ensures Valid()
      ensures var t := old(Table()); var idx := NextReady(t);
        Table() == Consume(t, idx) &&
        if t.slots[idx].count == 0 then
          h == idx && freed == old(freed) + DisposedBlocks(t.slots[idx])
        else
          h == Sentinel && freed == old(freed)
    {
      var reference, handle := ring.Wait();
      ghost var consumed := Table();
      if reference.count == 0 {
        reference := Dispose(reference);
        var j := BitAnd(handle, ring.capacityMask);
        MaskIsMod(handle, ring.values.Length);
        ModUnique(handle, ring.values.Length, 0, handle);
        ring.flags[j] := false;
        assert ring.flags[..] == consumed.ready;
        return handle;
      }
      return Sentinel;
    }
  }

  /** The end-to-end use of one allocator with capacity 8: allocate 64
      bytes, add a reference by handle, release twice, collect, allocate
      again. The add-reference by handle is refused (the counter is 0), so
      the first release already reaches count 0 and the second is refused;
      the collector frees the block and returns slot 0, and the next
      allocation gets handle 1. */
  method EndToEnd() returns (h: int, added: int, first: int, second: int, collected: int, next: int,
                             ghost freedBlocks: seq<Ptr>)
    ensures h == 0 && added == Sentinel && first == 0 && second == Sentinel
    ensures collected == 0 && next == 1 && freedBlocks == [Block(1)]
  {
    assert BitAnd(8, 7) == 0;
    var a := new ReferenceAllocator(8);
    h := a.Allocate(64, Block(1));
    added := a.AddRefHandle(h);
    first := a.Release(h);
    second := a.Release(h);
    ghost var t := a.Table();
    assert IsNextReady(t, 0);
    NextReadyUnique(t, 0, NextReady(t));
    collected := a.TryCollectOnce();
    next := a.Allocate(64, Block(2));
    freedBlocks := a.freed;
  }
}
