/**
  The transcode entry points of webp.c: decode_webp_to_rgba,
  get_png_handle_from_webp and get_jpg_handle_from_webp.

  The WebP decoder (WebPGetInfo, WebPDecodeRGBA) and the PNG/JPEG writers
  (stbi_write_png_to_func, stbi_write_jpg_to_func) are not part of this
  model; they are the uninterpreted capabilities of a `Codecs` value. A
  writer is seen as the chunks it hands to write_image_to_mem, in order,
  and the success flag it returns.
 */
module Transcode {

  import opened Options
  import opened ImageBuffers
  import opened Heap

  /**
    Width and height reported by WebPGetInfo. The shim only tests whether
    WebPGetInfo succeeded: WebPDecodeRGBA overwrites both before the writers
    read them, so the writers get the dimensions of `Decoded`.
   */
  datatype Dims = Dims(width: int, height: int)

  /** The result of WebPDecodeRGBA: dimensions and the RGBA pixels. */
  datatype Decoded = Decoded(width: int, height: int, rgba: seq<uint8>)

  /** The arguments the shim passes to an stb writer after the callback and its context. */
  datatype EncodeCall =
    | PngCall(width: int, height: int, comp: int, pixels: seq<uint8>, strideInBytes: int)
    | JpgCall(width: int, height: int, comp: int, pixels: seq<uint8>, quality: int)

  /** The chunks a writer passes to the callback, and whether it reported success. */
  datatype EncodeResult = EncodeResult(chunks: seq<seq<uint8>>, ok: bool)

  datatype Codecs = Codecs(
    getInfo: seq<uint8> -> Option<Dims>,
    decodeRgba: seq<uint8> -> Option<Decoded>,
    writePng: EncodeCall -> EncodeResult,
    writeJpg: EncodeCall -> EncodeResult)

  datatype Format = Png | Jpg

  /** Components per pixel handed to the writers: RGBA. */
  const Channels: int := 4

  /** The fixed JPEG quality. */
  const JpegQuality: int := 100

  /** What an entry point returns (the handle, or NULL) and the heap after it. */
  datatype Outcome = Outcome(result: Option<Ptr>, heap: Heap)

  /**
    decode_webp_to_rgba: NULL when WebPGetInfo fails, otherwise whatever
    WebPDecodeRGBA returns (itself NULL on a decode error).
   */
  function DecodeWebpToRgba(c: Codecs, webp: seq<uint8>): (r: Option<Decoded>)
    ensures r.Some? <==> c.getInfo(webp).Some? && c.decodeRgba(webp).Some?
    ensures r.Some? ==> r == c.decodeRgba(webp)
  {
    if c.getInfo(webp).None? then None else c.decodeRgba(webp)
  }

  /**
    The writer call of each entry point: 4 components, the decoded pixels
    and dimensions; PNG with a row stride of width * 4 bytes, JPEG with
    quality 100.
   */
  function EncodeRequest(f: Format, d: Decoded): (call: EncodeCall)
    ensures call.width == d.width && call.height == d.height
    ensures call.comp == Channels && call.pixels == d.rgba
    ensures call.JpgCall? <==> f == Jpg
    ensures call.JpgCall? ==> call.quality == JpegQuality
    ensures call.PngCall? ==> call.strideInBytes == d.width * Channels
  {
    match f
    case Png => PngCall(d.width, d.height, Channels, d.rgba, d.width * Channels)
    case Jpg => JpgCall(d.width, d.height, Channels, d.rgba, JpegQuality)
  }

  /** Run the stb writer the call is meant for. */
  function Encode(c: Codecs, call: EncodeCall): EncodeResult {
    match call
    case PngCall(_, _, _, _, _) => c.writePng(call)
    case JpgCall(_, _, _, _, _) => c.writeJpg(call)
  }

  /** The writer outcome the entry point for `f` sees for input `webp`, when decoding succeeds. */
  function EncodeOf(c: Codecs, f: Format, webp: seq<uint8>): EncodeResult
    requires DecodeWebpToRgba(c, webp).Some?
  {
    Encode(c, EncodeRequest(f, DecodeWebpToRgba(c, webp).value))
  }

  /**
    The body shared by get_png_handle_from_webp and get_jpg_handle_from_webp,
    as written: decode (the decoder allocates the RGBA buffer); return NULL
    if that failed; create a handle; let the writer fill it; WebPFree the
    RGBA buffer; return NULL if the writer failed, else the handle.
   */
  function HandleFromWebp(c: Codecs, f: Format, h: Heap, webp: seq<uint8>): (o: Outcome)
    requires HeapOk(h)
    ensures HeapOk(o.heap)
    ensures o.result.Some? <==> DecodeWebpToRgba(c, webp).Some? && EncodeOf(c, f, webp).ok
    ensures forall p | p in h.live :: p in o.heap.live && o.heap.live[p] == h.live[p]
  {
    match DecodeWebpToRgba(c, webp)
    case None => Outcome(None, h)
    case Some(d) =>
      var rgba := h.next;
      var decoded := Alloc(h, Rgba(d.rgba));
      var handle := decoded.next;
      var created := Alloc(decoded, Handle(Create()));
      var enc := Encode(c, EncodeRequest(f, d));
      var written := Store(created, handle, Handle(WriteAll(Create(), enc.chunks)));
      var freed := FreeBlock(written, rgba);
      if !enc.ok then Outcome(None, freed) else Outcome(Some(handle), freed)
  }

  /** get_png_handle_from_webp: a handle exactly when decoding and the PNG writer both succeed. */
  function PngHandleFromWebp(c: Codecs, h: Heap, webp: seq<uint8>): (o: Outcome)
    requires HeapOk(h)
    ensures HeapOk(o.heap)
    ensures o.result.Some? <==>
      DecodeWebpToRgba(c, webp).Some? && c.writePng(EncodeRequest(Png, DecodeWebpToRgba(c, webp).value)).ok
  {
    HandleFromWebp(c, Png, h, webp)
  }

  /** get_jpg_handle_from_webp: a handle exactly when decoding and the JPEG writer both succeed. */
  function JpgHandleFromWebp(c: Codecs, h: Heap, webp: seq<uint8>): (o: Outcome)
    requires HeapOk(h)
    ensures HeapOk(o.heap)
    ensures o.result.Some? <==>
      DecodeWebpToRgba(c, webp).Some? && c.writeJpg(EncodeRequest(Jpg, DecodeWebpToRgba(c, webp).value)).ok
  {
    HandleFromWebp(c, Jpg, h, webp)
  }

  /** Blocks the call allocated that are still live but not returned to the caller: leaked. */
  function Leaked(before: Heap, o: Outcome): set<Ptr> {
    set p | p in o.heap.live && p !in before.live && o.result != Some(p)
  }

  /** A failing decode returns NULL and leaves the heap exactly as it was; a successful one changes it. */
  lemma DecodeFailureAllocatesNothing(c: Codecs, f: Format, h: Heap, webp: seq<uint8>)
    requires HeapOk(h)
    ensures DecodeWebpToRgba(c, webp).None? <==> HandleFromWebp(c, f, h, webp) == Outcome(None, h)
  {
  }

  /**
    Once decoding succeeds, the RGBA buffer is allocated once and freed
    exactly once before the call returns, and never handed to the caller,
    whatever the writer does.
   */
  lemma RgbaAlwaysFreed(c: Codecs, f: Format, h: Heap, webp: seq<uint8>)
    requires HeapOk(h)
    requires DecodeWebpToRgba(c, webp).Some?
    ensures h.next !in h.live
    ensures h.next !in HandleFromWebp(c, f, h, webp).heap.live
    ensures FreeCount(HandleFromWebp(c, f, h, webp).heap.log, h.next) == 1
    ensures HandleFromWebp(c, f, h, webp).result != Some(h.next)
  {
    var o := HandleFromWebp(c, f, h, webp);
    var rgba := h.next;
    FreshNeverFreed(h, rgba);
    var tail := [Malloc(rgba), Malloc(rgba + 1), Free(rgba)];
    assert o.heap.log == h.log + tail;
    CountsCons(Free(rgba), [], rgba);
    CountsCons(Malloc(rgba + 1), [Free(rgba)], rgba);
    CountsCons(Malloc(rgba), [Malloc(rgba + 1), Free(rgba)], rgba);
    CountsAppend(h.log, tail, rgba);
  }

  /**
    On success the returned handle is a block the call allocated, it holds
    exactly the bytes the writer produced, in order, and every block that was
    live before is still live and unchanged.
   */
  lemma SuccessReturnsFilledHandle(c: Codecs, f: Format, h: Heap, webp: seq<uint8>)
    requires HeapOk(h)
    requires HandleFromWebp(c, f, h, webp).result.Some?
    ensures var o := HandleFromWebp(c, f, h, webp);
      && o.result.value !in h.live
      && IsHandle(o.heap, o.result.value)
      && Contents(o.heap.live[o.result.value].buffer) == Concat(EncodeOf(c, f, webp).chunks)
      && NumBytes(o.heap, o.result.value) == |Concat(EncodeOf(c, f, webp).chunks)|
      && o.heap.live.Keys == h.live.Keys + {o.result.value}
      && forall p | p in h.live :: o.heap.live[p] == h.live[p]
  {
  }

  /**
    As written, the call leaks exactly one block, the ImageBuffer it
    created, precisely when decoding succeeds and the writer fails; in
    every other case nothing leaks.
   */
  lemma LeakIffEncodeFails(c: Codecs, f: Format, h: Heap, webp: seq<uint8>)
    requires HeapOk(h)
    ensures var o := HandleFromWebp(c, f, h, webp);
      Leaked(h, o) == if DecodeWebpToRgba(c, webp).Some? && !EncodeOf(c, f, webp).ok then {h.next + 1} else {}
    ensures var o := HandleFromWebp(c, f, h, webp);
      DecodeWebpToRgba(c, webp).Some? && !EncodeOf(c, f, webp).ok ==>
        && IsHandle(o.heap, h.next + 1)
        && Contents(o.heap.live[h.next + 1].buffer) == Concat(EncodeOf(c, f, webp).chunks)
  {
  }

  /** A WebP that decodes to one red pixel, with both writers failing. */
  function FailingWriters(): Codecs {
    Codecs(
      _ => Some(Dims(1, 1)),
      _ => Some(Decoded(1, 1, [255, 0, 0, 255])),
      _ => EncodeResult([], false),
      _ => EncodeResult([], false))
  }

  /** The concrete leak: from an empty heap, a failing PNG writer leaves handle 1 live and unreachable. */
  lemma LeakExample()
    ensures var o := PngHandleFromWebp(FailingWriters(), Heap(map[], 0, []), []);
      o.result == None && 1 in o.heap.live && Leaked(Heap(map[], 0, []), o) == {1}
  {
    LeakIffEncodeFails(FailingWriters(), Png, Heap(map[], 0, []), []);
  }

  /**
    The entry point with the missing release_image_handle on the writer
    failure path: same result as HandleFromWebp, nothing leaks, and the
    caller's blocks survive untouched: afterwards exactly the blocks live
    before, plus the returned handle, are live. Where the source does not
    leak, the outcome is the source's own; where it leaks, the only change is
    releasing the leaked handle.
   */
  function HandleFromWebpReleasing(c: Codecs, f: Format, h: Heap, webp: seq<uint8>): (o: Outcome)
    requires HeapOk(h)
    ensures HeapOk(o.heap)
    ensures o.result == HandleFromWebp(c, f, h, webp).result
    ensures Leaked(h, o) == {}
    ensures o.heap.live.Keys == h.live.Keys + (if o.result.Some? then {o.result.value} else {})
    ensures forall p | p in h.live :: o.heap.live[p] == h.live[p]
    ensures Leaked(h, HandleFromWebp(c, f, h, webp)) == {} ==> o == HandleFromWebp(c, f, h, webp)
    ensures Leaked(h, HandleFromWebp(c, f, h, webp)) != {} ==>
      && IsHandle(HandleFromWebp(c, f, h, webp).heap, h.next + 1)
      && o == Outcome(None, Release(HandleFromWebp(c, f, h, webp).heap, Some(h.next + 1)))
  {
    var o := HandleFromWebp(c, f, h, webp);
    LeakIffEncodeFails(c, f, h, webp);
    if o.result.None? && DecodeWebpToRgba(c, webp).Some? then
      var released := Outcome(None, Release(o.heap, Some(h.next + 1)));
      assert Leaked(h, released) == {};
      released
    else o
  }

  /** The allocation events of a successful call: RGBA buffer, then handle, then the RGBA buffer freed. */
  lemma SuccessShape(c: Codecs, f: Format, h: Heap, webp: seq<uint8>)
    requires HeapOk(h)
    requires HandleFromWebp(c, f, h, webp).result.Some?
    ensures var o := HandleFromWebp(c, f, h, webp);
      && o.result == Some(h.next + 1)
      && o.heap.log == h.log + [Malloc(h.next), Malloc(h.next + 1), Free(h.next)]
      && o.heap.live.Keys == h.live.Keys + {h.next + 1}
  {
  }

  /** The frees in the events of a successful call followed by the release of its handle. */
  lemma ReleasedTailCounts(rgba: Ptr, p: Ptr)
    requires rgba != p
    ensures var tail := [Malloc(rgba), Malloc(p), Free(rgba), SbFree(p), Free(p)];
      && FreeCount(tail, rgba) == 1 && FreeCount(tail, p) == 1 && SbFreeCount(tail, p) == 1
  {
    forall q | q == rgba || q == p
      ensures FreeCount([Malloc(rgba), Malloc(p), Free(rgba), SbFree(p), Free(p)], q) == 1
      ensures q == p ==> SbFreeCount([Malloc(rgba), Malloc(p), Free(rgba), SbFree(p), Free(p)], q) == 1
    {
      CountsCons(Free(p), [], q);
      CountsCons(SbFree(p), [Free(p)], q);
      CountsCons(Free(rgba), [SbFree(p), Free(p)], q);
      CountsCons(Malloc(p), [Free(rgba), SbFree(p), Free(p)], q);
      CountsCons(Malloc(rgba), [Malloc(p), Free(rgba), SbFree(p), Free(p)], q);
    }
  }

  /**
    Transcoding and then releasing the handle returns the heap to the
    blocks it had before, with the handle's stretchy buffer and struct each
    freed exactly once, and the RGBA buffer freed exactly once.
   */
  lemma TranscodeThenRelease(c: Codecs, f: Format, h: Heap, webp: seq<uint8>)
    requires HeapOk(h)
    requires HandleFromWebp(c, f, h, webp).result.Some?
    ensures var o := HandleFromWebp(c, f, h, webp);
      var r := Release(o.heap, o.result);
      && r.live == h.live
      && FreeCount(r.log, o.result.value) == 1
      && SbFreeCount(r.log, o.result.value) == 1
      && FreeCount(r.log, h.next) == 1
  {
    var o := HandleFromWebp(c, f, h, webp);
    var rgba := h.next;
    var p := h.next + 1;
    SuccessShape(c, f, h, webp);
    SuccessReturnsFilledHandle(c, f, h, webp);
    var r := Release(o.heap, o.result);
    var tail := [Malloc(rgba), Malloc(p), Free(rgba), SbFree(p), Free(p)];
    assert r.log == h.log + tail;
    ReleasedTailCounts(rgba, p);
    FreshNeverFreed(h, rgba);
    FreshNeverFreed(h, p);
    CountsAppend(h.log, tail, rgba);
    CountsAppend(h.log, tail, p);
    assert r.live.Keys == h.live.Keys;
  }
}
