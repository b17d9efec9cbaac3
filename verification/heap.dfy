/**
  The allocations webp.c makes and frees, and the ImageBuffer handle
  operations on them: the accessors get_image_bytes_from_handle and
  get_num_bytes_from_handle, and release_image_handle.

  A pointer is a natural number; NULL is `None`. The heap records which
  blocks are live, the next fresh pointer, and a log of every allocation and
  free in the order they happen.
 */
module Heap {

  import opened Options
  import opened ImageBuffers

  type Ptr = nat

  /** A live block: an RGBA pixel buffer from the WebP decoder, or an ImageBuffer struct with its stretchy buffer. */
  datatype Block = Rgba(pixels: seq<uint8>) | Handle(buffer: ImageBuffer)

  /** Malloc(p): p is allocated; SbFree(p): sb_free of handle p's stretchy buffer; Free(p): the block p itself is freed. */
  datatype Event = Malloc(p: Ptr) | SbFree(p: Ptr) | Free(p: Ptr)

  datatype Heap = Heap(live: map<Ptr, Block>, next: Ptr, log: seq<Event>)

  /** Every live pointer and every logged pointer was handed out before `next`; every live handle is Valid. */
  predicate HeapOk(h: Heap) {
    && (forall p | p in h.live :: p < h.next)
    && (forall p | p in h.live && h.live[p].Handle? :: Valid(h.live[p].buffer))
    && (forall i | 0 <= i < |h.log| :: h.log[i].p < h.next)
  }

  predicate IsHandle(h: Heap, p: Ptr) {
    p in h.live && h.live[p].Handle?
  }

  /** A fresh block at `next`. Pointers only grow and are never reused, which the free counts rely on. */
  function Alloc(h: Heap, b: Block): Heap {
    Heap(h.live[h.next := b], h.next + 1, h.log + [Malloc(h.next)])
  }

  /** Replace the contents of a live block in place. */
  function Store(h: Heap, p: Ptr, b: Block): Heap
    requires p in h.live
  {
    h.(live := h.live[p := b])
  }

  /** free(p). */
  function FreeBlock(h: Heap, p: Ptr): Heap
    requires p in h.live
  {
    Heap(h.live - {p}, h.next, h.log + [Free(p)])
  }

  /** How many times the log frees block `p`. */
  function FreeCount(log: seq<Event>, p: Ptr): nat {
    if log == [] then 0
    else (if log[0] == Free(p) then 1 else 0) + FreeCount(log[1..], p)
  }

  /** How many times the log frees the stretchy buffer of handle `p`. */
  function SbFreeCount(log: seq<Event>, p: Ptr): nat {
    if log == [] then 0
    else (if log[0] == SbFree(p) then 1 else 0) + SbFreeCount(log[1..], p)
  }

  lemma {:induction false} CountsAppend(a: seq<Event>, b: seq<Event>, p: Ptr)
    ensures FreeCount(a + b, p) == FreeCount(a, p) + FreeCount(b, p)
    ensures SbFreeCount(a + b, p) == SbFreeCount(a, p) + SbFreeCount(b, p)
    decreases |a|
  {
    if a != [] {
      assert (a + b)[1..] == a[1..] + b;
      CountsAppend(a[1..], b, p);
    } else {
      assert a + b == b;
    }
  }

  /** The counts of a log that starts with one event. */
  lemma CountsCons(e: Event, rest: seq<Event>, p: Ptr)
    ensures FreeCount([e] + rest, p) == (if e == Free(p) then 1 else 0) + FreeCount(rest, p)
    ensures SbFreeCount([e] + rest, p) == (if e == SbFree(p) then 1 else 0) + SbFreeCount(rest, p)
  {
    assert ([e] + rest)[1..] == rest;
  }

  /** A pointer not yet handed out has never been freed. */
  lemma {:induction false} FreshNeverFreed(h: Heap, p: Ptr)
    requires HeapOk(h)
    requires h.next <= p
    ensures FreeCount(h.log, p) == 0 && SbFreeCount(h.log, p) == 0
  {
    NotLoggedCounts(h.log, p);
  }

  lemma {:induction false} NotLoggedCounts(log: seq<Event>, p: Ptr)
    requires forall i | 0 <= i < |log| :: log[i].p != p
    ensures FreeCount(log, p) == 0 && SbFreeCount(log, p) == 0
    decreases |log|
  {
    if log != [] {
      assert log[0].p != p;
      assert forall i | 0 <= i < |log[1..]| :: log[1..][i].p != p by {
        forall i | 0 <= i < |log[1..]| ensures log[1..][i].p != p {
          assert log[1..][i] == log[i + 1];
        }
      }
      NotLoggedCounts(log[1..], p);
    }
  }

  /**
    get_image_bytes_from_handle: the stretchy buffer of a live handle. Its
    first byteCount elements are initialised, so get_num_bytes_from_handle
    bytes can be read from it.
   */
  function ImageBytes(h: Heap, p: Ptr): (r: seq<Cell>)
    requires HeapOk(h) && IsHandle(h, p)
    ensures NumBytes(h, p) <= |r|
    ensures forall i | 0 <= i < |r| :: r[i].Byte? <==> i < NumBytes(h, p)
  {
    h.live[p].buffer.bytes
  }

  /**
    get_num_bytes_from_handle: the byte count of a live handle, the length of
    what the encoder wrote. Together with ImageBytes this is the accessor
    consistency of a handle: that many initialised bytes can be read from
    get_image_bytes_from_handle, and no more.
   */
  function NumBytes(h: Heap, p: Ptr): (n: nat)
    requires HeapOk(h) && IsHandle(h, p)
    ensures n == |Contents(h.live[p].buffer)|
  {
    h.live[p].buffer.byteCount
  }

  /**
    release_image_handle: NULL is a no-op; otherwise the stretchy buffer is
    freed, then the struct, and the handle is no longer live, so a second
    release of it is not allowed.
   */
  function Release(h: Heap, handle: Option<Ptr>): (r: Heap)
    requires handle.Some? ==> IsHandle(h, handle.value)
    ensures handle.None? ==> r == h
    ensures handle.Some? ==>
      && r.live == h.live - {handle.value}
      && r.next == h.next
      && r.log == h.log + [SbFree(handle.value), Free(handle.value)]
      && !IsHandle(r, handle.value)
    ensures HeapOk(h) ==> HeapOk(r)
  {
    match handle
    case None => h
    case Some(p) => FreeBlock(Heap(h.live, h.next, h.log + [SbFree(p)]), p)
  }
}
