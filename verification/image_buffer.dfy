/**
  The ImageBuffer output sink of webp.c: a byte count plus a stretchy buffer
  that the PNG/JPEG encoder fills, chunk by chunk, through the
  write_image_to_mem callback.

  The stretchy buffer (stretchy_buffer.h, not part of this model) is seen only
  through `sb_count` and `sb_add`: its element count is the length of `bytes`,
  and `sb_add(a, n)` extends it by `n` uninitialised elements, keeping the
  existing ones.
 */
module ImageBuffers {

  newtype uint8 = x: int | 0 <= x < 256

  /** One element of the stretchy buffer: uninitialised until a byte is copied into it. */
  datatype Cell = Uninit | Byte(value: uint8)

  /** The ImageBuffer struct. A NULL stretchy buffer is the empty sequence. */
  datatype ImageBuffer = ImageBuffer(byteCount: nat, bytes: seq<Cell>)

  /** The smallest number of elements one growth step adds. */
  const MinGrowth: nat := 128

  /** sb_count of the stretchy buffer: the allocated capacity. */
  function Capacity(b: ImageBuffer): nat {
    |b.bytes|
  }

  /** The number of elements a write of `size` bytes grows the buffer by, when it grows at all. */
  function Growth(size: nat): nat {
    if size < MinGrowth then MinGrowth else size
  }

  /**
    What every ImageBuffer reachable from createImageBuffer through writes
    satisfies: the capacity covers the byte count, the first `byteCount`
    cells hold bytes and the rest are uninitialised.
   */
  predicate Valid(b: ImageBuffer) {
    && b.byteCount <= |b.bytes|
    && forall i | 0 <= i < |b.bytes| :: b.bytes[i].Byte? <==> i < b.byteCount
  }

  /** The bytes `bytes[0..byteCount)` a reader of the handle sees. */
  function Contents(b: ImageBuffer): (r: seq<uint8>)
    requires Valid(b)
    ensures |r| == b.byteCount
  {
    seq(b.byteCount, i requires 0 <= i < b.byteCount => b.bytes[i].value)
  }

  /** The bytes of all chunks, in order. */
  function Concat(chunks: seq<seq<uint8>>): seq<uint8> {
    if chunks == [] then [] else chunks[0] + Concat(chunks[1..])
  }

  /** The largest chunk length, 0 for no chunks. */
  function MaxChunk(chunks: seq<seq<uint8>>): (m: nat)
    ensures forall i | 0 <= i < |chunks| :: |chunks[i]| <= m
  {
    if chunks == [] then 0
    else
      var rest := MaxChunk(chunks[1..]);
      if |chunks[0]| < rest then rest else |chunks[0]|
  }

  /** createImageBuffer: a zero byte count and NULL storage. */
  function Create(): (b: ImageBuffer)
    ensures b.byteCount == 0 && Capacity(b) == 0
    ensures Valid(b) && Contents(b) == []
  {
    ImageBuffer(0, [])
  }

  /** sb_add: `n` more elements, uninitialised, after the existing ones. */
  function SbAdd(a: seq<Cell>, n: nat): seq<Cell> {
    a + seq(n, _ => Uninit)
  }

  /** memcpy of `src` into `dst` at `offset`; the destination range must lie inside `dst`. */
  function Memcpy(dst: seq<Cell>, offset: nat, src: seq<uint8>): (r: seq<Cell>)
    requires offset + |src| <= |dst|
    ensures |r| == |dst|
    ensures forall i | 0 <= i < |r| ::
      r[i] == if offset <= i < offset + |src| then Byte(src[i - offset]) else dst[i]
  {
    dst[..offset] + seq(|src|, i requires 0 <= i < |src| => Byte(src[i])) + dst[offset + |src|..]
  }

  /**
    write_image_to_mem: grow the stretchy buffer by Growth(size) when it is
    too small for the new bytes, copy them in at `byteCount`, advance
    `byteCount`. The memcpy precondition is the in-bounds obligation of the
    copy, discharged by Valid(b).
   */
  function Write(b: ImageBuffer, data: seq<uint8>): (r: ImageBuffer)
    requires Valid(b)
    ensures Valid(r)
    ensures r.byteCount == b.byteCount + |data|
    ensures Contents(r) == Contents(b) + data
    ensures forall i | 0 <= i < b.byteCount :: r.bytes[i] == b.bytes[i]
    ensures Capacity(b) < b.byteCount + |data| ==> Capacity(r) == Capacity(b) + Growth(|data|)
    ensures b.byteCount + |data| <= Capacity(b) ==> Capacity(r) == Capacity(b)
  {
    var storage := if Capacity(b) < b.byteCount + |data| then SbAdd(b.bytes, Growth(|data|)) else b.bytes;
    ImageBuffer(b.byteCount + |data|, Memcpy(storage, b.byteCount, data))
  }

  lemma AppendAssoc(a: seq<uint8>, b: seq<uint8>, c: seq<uint8>)
    ensures (a + b) + c == a + (b + c)
  {
  }

  /** The encoder's sequence of callback invocations, one Write per chunk. */
  function WriteAll(b: ImageBuffer, chunks: seq<seq<uint8>>): (r: ImageBuffer)
    requires Valid(b)
    ensures Valid(r)
    ensures Contents(r) == Contents(b) + Concat(chunks)
    ensures Capacity(b) <= Capacity(r)
    decreases |chunks|
  {
    if chunks == [] then b
    else
      var next := Write(b, chunks[0]);
      var r := WriteAll(next, chunks[1..]);
      AppendAssoc(Contents(b), chunks[0], Concat(chunks[1..]));
      r
  }

  /**
    The growth policy never leaves more than max(128, largest chunk) - 1
    unused elements: one growth step leaves less than Growth(size) spare,
    and a write without growth only uses up spare room.
   */
  lemma {:induction false} SpareBelowGrowth(b: ImageBuffer, chunks: seq<seq<uint8>>, m: nat)
    requires Valid(b)
    requires Capacity(b) - b.byteCount < Growth(m)
    requires forall i | 0 <= i < |chunks| :: |chunks[i]| <= m
    ensures Capacity(WriteAll(b, chunks)) - WriteAll(b, chunks).byteCount < Growth(m)
    decreases |chunks|
  {
    if chunks != [] {
      var next := Write(b, chunks[0]);
      assert Capacity(next) - next.byteCount < Growth(m);
      assert forall i | 0 <= i < |chunks[1..]| :: |chunks[1..][i]| <= m by {
        forall i | 0 <= i < |chunks[1..]| ensures |chunks[1..][i]| <= m {
          assert chunks[1..][i] == chunks[i + 1];
        }
      }
      SpareBelowGrowth(next, chunks[1..], m);
    }
  }

  /**
    A buffer filled from createImageBuffer holds exactly the concatenated
    chunks, and its capacity exceeds the byte count by less than
    max(128, largest chunk).
   */
  lemma FilledFromEmpty(chunks: seq<seq<uint8>>)
    ensures Contents(WriteAll(Create(), chunks)) == Concat(chunks)
    ensures WriteAll(Create(), chunks).byteCount == |Concat(chunks)|
    ensures Capacity(WriteAll(Create(), chunks)) < |Concat(chunks)| + Growth(MaxChunk(chunks))
  {
    SpareBelowGrowth(Create(), chunks, MaxChunk(chunks));
  }
}
