# NRCGC slot table, modelled in Dafny

NRCGC keeps reference-counted memory blocks in a fixed-capacity ring of
slots. Each slot holds a `Reference` (pointer, byte size, count) and a
readiness flag. `Send` claims the next value of the send cursor, writes the
slot at `cursor & (capacity - 1)` and raises its flag. `Wait` scans the flags
cyclically from the receive cursor and consumes the first ready slot.
`ReferenceAllocator` builds allocate, add-reference (by pointer and by
handle), release and one-step collection on this ring. The smart pointer
`gcrc_ptr` drives the allocator from its constructors, destructor and
assignment.

The project has four modules:

- `Bits` (`bits.dfy`): the two's-complement `&` of any integer with a
  non-negative mask, and the power-of-two test. Masking with `n - 1` is
  proved equal to Euclidean `mod n` for every power of two `n`, negative
  handles included. The construction check `(count & (count - 1)) == 0` is
  proved to accept a positive `count` exactly when it is a power of two.
- `Ring` (`ring.dfy`): the class `RingBuffer<T>` with its value array, flag
  array, cursors and counter. It has a snapshot type `RingState<T>`.
  `Publish` specifies `Send`, and `NextReady`/`Consume` specify `Wait`.
  `NextReady` is the first ready slot in cyclic order from the receive
  cursor, proved to exist and to be unique.
- `Allocator` (`allocator.dfy`): `Ptr`, `Reference` and the class
  `ReferenceAllocator`. Each operation is proved against a step function on
  the snapshot (`AllocateStep`, `AddRefPointerStep`, `AddRefHandleStep`,
  `ReleaseStep`). The class keeps the invariant that no count is negative.
  `malloc` is a parameter (the block it returned, `Null` on failure). Every
  `free` is appended to a ghost log `freed`. The C++ `Reference` constructor
  defaults `Count` to 1 (and `_Size` to 0); the model writes those values out
  where `Allocate` and `AddRef(ptr)` build a reference.
- `Gcrc` (`gcrc.dfy`): the class `GcrcPtr`, tied to an explicit allocator
  object instead of the process-wide default.

Where the code differs from what allocator users would expect, the model
follows the code. The expected behaviour is reference-count bookkeeping in
which `Allocate` counts toward `used`, and `AddRef(handle)` on a live handle
raises that slot's count. The code instead does the following:

- `Allocate` and `AddRef(ptr)` never raise `used`. The only increment is in
  `AddRef(handle)`, and it needs `handle < used`. Since `used` starts at 0,
  it never becomes positive (`CounterStaysUnraised`). So `AddRef(handle)`
  refuses every handle, and the saturation test never fires
  (`UnraisedCounterConsequences`). Expected bookkeeping would run
  "allocate, AddRef → 2, release → 1, release → 0, collect". The code gives
  AddRef → -1, release → 0, release → -1, and collect then frees the block.
  `EndToEnd` proves this run.
- After that collection, the next `Allocate` returns handle 1 at slot 1, not
  handle 8 at slot 0: the send cursor advances once per publish.
- `TryCollectOnce` disposes a local copy. The stored slot keeps its pointer,
  size and count, and only its flag is cleared. `TryCollectOnce` does not
  publish a slot whose count is not zero again. That slot becomes ready
  again only when the send cursor wraps round to it (`SameSlotAfterWrap`).
  Then `Send` overwrites the still-referenced value without freeing its
  block (`Publish` rewrites the slot whatever it held).
- `AddRef(ptr)` applies the same saturation test as `Allocate`.

## Model

| member | source | states |
|---|---|---|
| `Bits.BitAnd` | Allocator.h:54 | masking any integer (including a negative one) with `m >= 0` gives a value in [0, m] |
| `Bits.MaskIsMod` | Allocator.h:196 | for a power-of-two capacity `n`, `h & (n - 1)` equals Euclidean `h mod n` and lies in [0, n), for every integer `h` |
| `Bits.SameSlotAfterWrap` | Allocator.h:53-54 | handles `h` and `h + capacity` address the same slot (slot storage is reused on wrap-around) |
| `Bits.PowerOfTwoTest` | Allocator.h:42 | for `count >= 1`, `(count & (count - 1)) == 0` holds exactly when `count` is a power of two (both directions) |
| `Ring.Publish` | Allocator.h:51-66 | Send's effect: only slot `send mod capacity` changes; it gets the value and a set flag, whether or not it was still ready; the cursor advances by exactly 1; the receive cursor and counter do not change |
| `Ring.ClosestReadyExists` | Allocator.h:80-93 | when any flag is set, a cyclic scan from the receive cursor reaches a first ready slot |
| `Ring.NextReadyUnique` | Allocator.h:80-83 | that first ready slot is unique |
| `Ring.NextReady` | Allocator.h:70-98 | the slot `Wait` consumes: a ready slot with no ready slot before it on the cyclic scan from the receive cursor |
| `Ring.Consume` | Allocator.h:94-96 | Wait's effect: exactly that flag is cleared, the receive cursor becomes the masked index, the values, send cursor and counter are unchanged |
| `Ring.RingBuffer.constructor` | Allocator.h:32-45 | requires a count that passes the power-of-two test; mask = count - 1; every slot zeroed, every flag clear, both cursors and `used` at 0 |
| `Ring.RingBuffer.Send` | Allocator.h:51-66 | returns the old send cursor, unmasked, and leaves the ring exactly as `Publish` says |
| `Ring.RingBuffer.Wait` | Allocator.h:70-98 | returns the index `NextReady` of the old state, in [0, capacity), and that slot's value; the new ring is `Consume` of the old one |
| `Allocator.DisposedBlocks` | Allocator.h:126-133 | Dispose frees nothing for a null pointer and exactly that one block for a non-null pointer |
| `Allocator.AllocateStep` | Allocator.h:176-184 | sentinel exactly when saturated (`used > capacity - 1`) or malloc failed, and then nothing changes; otherwise exactly `Send({block, size, 1})` returning the old send cursor; `used` unchanged |
| `Allocator.AddRefPointerStep` | Allocator.h:186-193 | sentinel exactly when saturated or the pointer is null, with nothing changed; otherwise exactly `Send({ptr, 0, 1})`, a new slot; `used` unchanged |
| `Allocator.AddRefHandleStep` | Allocator.h:194-212 | for `0 <= handle < used`: the count at `handle mod capacity` and `used` rise by 1 and the new count is returned; otherwise sentinel and nothing changes; flags and cursors untouched |
| `Allocator.ReleaseStep` | Allocator.h:214-231 | slot `handle mod capacity` for any handle; count 0 gives sentinel and no change; otherwise count and `used` drop by 1 and the new count is returned; non-negative counts stay non-negative |
| `Allocator.ReleaseNeverNegative` | Allocator.h:216-227 | on non-negative counts, a release returns the sentinel exactly when the count was 0, and otherwise a count >= 0 |
| `Allocator.UnraisedCounterConsequences` | Allocator.h:177 | while `used <= 0`, `AddRef(handle)` refuses every handle and the table is never saturated |
| `Allocator.CounterStaysUnraised` | Allocator.h:195-207 | from `used <= 0`, allocate, both add-reference forms, release and consume all keep `used <= 0` |
| `Allocator.ReferenceAllocator.constructor` | Allocator.h:171-172 | a power-of-two table of empty references (null, 0, 0), all unready, cursors and counter 0, nothing freed |
| `Allocator.ReferenceAllocator.GetUsedCount` | Allocator.h:174 | returns the counter `used` |
| `Allocator.ReferenceAllocator.Allocate` | Allocator.h:176-184 | new table and result are `AllocateStep` of the old table; counts stay non-negative |
| `Allocator.ReferenceAllocator.AddRefPointer` | Allocator.h:186-193 | new table and result are `AddRefPointerStep` of the old table |
| `Allocator.ReferenceAllocator.AddRefHandle` | Allocator.h:194-212 | new table and result are `AddRefHandleStep` of the old table |
| `Allocator.ReferenceAllocator.Release` | Allocator.h:214-231 | new table and result are `ReleaseStep` of the old table |
| `Allocator.ReferenceAllocator.Dispose` | Allocator.h:126-133 | the reference becomes (null, 0, 0), and the free log grows by the pointer exactly when it was not null |
| `Allocator.ReferenceAllocator.TryCollectOnce` | Allocator.h:234-251 | consumes slot `NextReady` (its flag cleared in every case, stored values untouched); with count 0 it frees that slot's non-null pointer and returns the masked index; otherwise it returns the sentinel, frees nothing and does not re-publish |
| `Allocator.EndToEnd` | Allocator.h:176-251 | capacity 8: Allocate(64) returns 0; AddRef(0) returns -1; Release(0) returns 0 and then -1; TryCollectOnce frees the block and returns 0; the next Allocate returns 1 |
| `Gcrc.GcrcPtr.constructor` | GCRC.h:10-13 | stores the pointer; the handle and new table are `AddRef(ptr)` of the old table; a null pointer gives the sentinel and an unchanged allocator |
| `Gcrc.GcrcPtr.Copy` | GCRC.h:9 | tracks the source's pointer with a fresh `AddRef(ptr)` rather than sharing the source's handle: the handle is the sentinel or the freshly claimed send cursor value |
| `Gcrc.GcrcPtr.Destroy` | GCRC.h:15-19 | releases the handle only when it is >= 0, then sets the handle to -1 and the pointer to null |
| `Gcrc.GcrcPtr.Assign` | GCRC.h:21-29 | equal pointers (both null included) or a null source: nothing changes; otherwise release the old handle if >= 0, adopt the source pointer and take the handle from `AddRef` on the table after that release |
| `Gcrc.GcrcPtr.IsSet` | GCRC.h:31-33 | true exactly when the pointer is not null |
| `Gcrc.GcrcPtr.Get` | GCRC.h:40-42 | returns the stored pointer unchanged |

## Left out

- Ring.RingBuffer.Wait: requires that some flag is set. With no ready slot the source spins forever, which a terminating method cannot model.
- Allocator.ReferenceAllocator.TryCollectOnce: requires some ready slot, for the same reason.
- Ring.RingBuffer.constructor: also requires `count >= 1`. The source's bit test alone would accept 0, which gives mask -1 and slot indices beyond an empty region.
- The undeclared `i` in the POSIX branch of `TryCollectOnce` (Allocator.h:246) is modelled as `handle`, as in the Windows branch (Allocator.h:241).
- Atomics, memory orders and interleavings, including the non-atomic check-then-decrement in `Release`. Every atomic is a plain sequential update, with the POSIX meaning: `Send` sets the flag, and `Wait` clears it with a ready-to-clear compare-and-swap.
- The yield/backoff in `Wait` (`idle_count`, `ic`, `sched_yield`/`SwitchToThread`) and the `idle_count` constructor parameter. They do not affect table state.
- The static `Create` factories and the raw memory layout (one `malloc` for header, values and flags; the `pbuffer`/`pflags_` offsets; the null result when that `malloc` fails). The arrays are modelled directly.
- `malloc` and `free` themselves: `malloc` is the `block` parameter of `Allocate`, and `free` is the ghost log `freed`.
- Width of `intptr_t`: cursors, counts and `used` are unbounded integers, so overflow of the cursors is not modelled.
- The `const PTR*` that `gcrc_ptr`'s constructor takes (GCRC.h:10-12) converts to neither `void*` nor `intptr_t`, so neither `AddRef` overload accepts it, and `_ptr(ptr)` drops `const`. An instantiation would not compile as written. The model reads the call as `AddRef(void*)`, which is evidently what was meant.
- `gcrc_ptr`'s `operator*` and `operator->`: they only dereference the raw pointer.
- `ReferenceAllocator::Storage`, the `Default` singleton and its wiring in NRCGC.cpp: process start-up and teardown. `GcrcPtr` takes its allocator explicitly.
- NRCGC.h is not part of this model: it is a superseded draft, unreachable from the program, and does not compile.
- main.cpp is not part of this model: it is a thread-and-sleep test driver.
