// The managed handle `gcrc_ptr` of GCRC.h: a raw pointer and the handle the
// allocator issued for it. The source binds every handle to the process-wide
// default allocator; here each handle names its allocator explicitly.
module Gcrc {
  import opened Allocator

  class GcrcPtr {
    var ptr: Ptr
    var handle: int
    const allocator: ReferenceAllocator

    /** Construction from a raw pointer: stores it and tracks it in a new
        slot via `AddRef(ptr)`; a null pointer, or a saturated table, leaves
        the handle at the sentinel and the allocator as it was. */
    constructor (alloc: ReferenceAllocator, p: Ptr)
      requires alloc.Valid()
      modifies alloc.Repr()
      ensures alloc.Valid() && allocator == alloc
      ensures ptr == p
      ensures Outcome(alloc.Table(), handle) == AddRefPointerStep(old(alloc.Table()), p)
      ensures p == Null ==> handle == Sentinel && alloc.Table() == old(alloc.Table())
    {
      allocator := alloc;
      ptr := p;
      handle := Sentinel;
      var h := alloc.AddRefPointer(p);
      handle := h;
    }

    /** Copy construction: tracks the source's pointer anew instead of
        sharing the source's handle, so the copy holds either the sentinel or
        the send cursor value it has just claimed. */
    constructor Copy(src: GcrcPtr)
      requires src.allocator.Valid()
      modifies src.allocator.Repr()
      ensures src.allocator.Valid() && allocator == src.allocator
      ensures ptr == src.ptr
      ensures Outcome(allocator.Table(), handle) == AddRefPointerStep(old(src.allocator.Table()), src.ptr)
      ensures handle == Sentinel || handle == old(src.allocator.Table().sendIndex)
    {
      allocator := src.allocator;
      ptr := src.ptr;
      handle := Sentinel;
      var h := src.allocator.AddRefPointer(src.ptr);
      handle := h;
    }

    /** Destruction: releases a handle that is not negative, then clears
        both fields. */
    method Destroy()
      requires allocator.Valid()
      modifies this, allocator.Repr()
      ensures allocator.Valid()
      ensures ptr == Null && handle == Sentinel
      ensures allocator.Table() ==
        if old(handle) >= 0 then ReleaseStep(old(allocator.Table()), old(handle)).table
        else old(allocator.Table())
    {
      if handle >= 0 {
        var _ := allocator.Release(handle);
      }
      handle := Sentinel;
      ptr := Null;
    }

    /** Assignment: nothing happens when both already hold the same pointer
        or when the source holds null; otherwise the old handle (if not
        negative) is released and the source's pointer is tracked anew. */
    method Assign(src: GcrcPtr)
      requires allocator.Valid() && src.allocator == allocator
      modifies this, allocator.Repr()
      ensures allocator.Valid()
      ensures var t := old(allocator.Table());
        if old(ptr) == old(src.ptr) || old(src.ptr) == Null then
          ptr == old(ptr) && handle == old(handle) && allocator.Table() == t
        else
          var released := if old(handle) >= 0 then ReleaseStep(t, old(handle)).table else t;
          ptr == old(src.ptr) &&
          Outcome(allocator.Table(), handle) == AddRefPointerStep(released, ptr)
    {
      if ptr == src.ptr {
      } else if src.ptr != Null {
        if handle >= 0 {
          var _ := allocator.Release(handle);
        }
        ptr := src.ptr;
        handle := allocator.AddRefPointer(ptr);
      }
    }

    /** `operator bool`: whether a pointer is held. */
    function IsSet(): (b: bool)
      reads this
      ensures b <==> ptr != Null
    {
      ptr != Null
    }

    /** `get`: the held pointer, as stored. */
    function Get(): (p: Ptr)
      reads this
      ensures p == ptr
      ensures p == Null <==> !IsSet()
    {
      ptr
    }
  }
}
