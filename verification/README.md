# webp-shim: ImageBuffer sink and WebP transcode pipeline

A Dafny model of `build/image/webp-shim/src/webp.c`. This is the WebAssembly shim that
decodes a WebP image to RGBA and re-encodes it as PNG or JPEG into an `ImageBuffer`
handle, which the JavaScript side then reads and releases.

The model has four modules:

- `Options` (`options.dfy`): `Option`, whose `None` stands for a C `NULL`.
- `ImageBuffers` (`image_buffer.dfy`): the `ImageBuffer` struct (`byteCount` plus a stretchy buffer) and
  `createImageBuffer` / `write_image_to_mem` as the pure functions `Create` and `Write`. It also has
  `WriteAll`, which applies `Write` to each chunk an encoder hands to the callback, in order.
  The stretchy buffer is a `seq<Cell>` whose length is `sb_count`. A `Cell` is either
  `Uninit` or `Byte(v)`, and a NULL stretchy buffer is the empty sequence.
- `Heap` (`heap.dfy`): the blocks the shim allocates. A pointer is a `nat`, and the heap holds
  the live blocks, the next fresh pointer and a log of `Malloc`, `SbFree` and `Free` events.
  The handle accessors `get_image_bytes_from_handle` / `get_num_bytes_from_handle` are `ImageBytes`
  and `NumBytes`, and `release_image_handle` is `Release`.
  Pointers come from a counter that only grows, so a freed pointer is never handed out again;
  the "freed exactly once" counts rely on this. A handle's stretchy-buffer storage is part of its
  handle block: `sb_add` logs no `Malloc` of its own, and `Release` logs its `sb_free` as `SbFree`.
- `Transcode` (`transcode.dfy`): `decode_webp_to_rgba`, `get_png_handle_from_webp` and
  `get_jpg_handle_from_webp`. The shared staged body is `HandleFromWebp`: decode, stop with NULL,
  create the handle, encode into it, free the RGBA buffer, then return NULL or the handle.

libwebp and stb_image_write are not part of this model. They are the uninterpreted fields of a
`Codecs` value:

- `getInfo` and `decodeRgba` return an optional result.
- Each stb writer maps its call arguments to the chunks it passes to `write_image_to_mem` plus
  its success flag.

Stated assumption about `stretchy_buffer.h`, which is not part of this model: `sb_count(a)` is
the element count (0 for NULL), `sb_add(a, n)` keeps the existing elements and appends `n`
uninitialised ones, and `sb_free(NULL)` is harmless.

## Model

| member | source | states |
|---|---|---|
| ImageBuffers.Create | build/image/webp-shim/src/webp.c:45-50 | a fresh ImageBuffer has byte count 0 and NULL (empty) storage, is Valid, and holds no bytes |
| ImageBuffers.Write | build/image/webp-shim/src/webp.c:52-64 | one callback keeps Valid: capacity >= byte count, and the memcpy at line 62 stays in bounds. It raises the byte count by exactly `size`, leaves all earlier bytes unchanged, and makes the contents the old contents followed by the chunk. Storage grows by exactly max(size, 128) elements only when sb_count < byte_count + size; otherwise capacity is unchanged |
| ImageBuffers.WriteAll | build/image/webp-shim/src/webp.c:52-64 | after any sequence of callbacks the buffer is still Valid, its contents are the old contents followed by the concatenation of the chunks, and capacity never shrinks |
| ImageBuffers.SpareBelowGrowth | build/image/webp-shim/src/webp.c:56-59 | the growth policy keeps unused capacity below max(128, largest chunk) through any sequence of writes |
| ImageBuffers.FilledFromEmpty | build/image/webp-shim/src/webp.c:45-64 | a buffer filled from createImageBuffer holds exactly the concatenated chunks, its byte count is their total length, and its capacity exceeds that by less than max(128, largest chunk) |
| Heap.ImageBytes | build/image/webp-shim/src/webp.c:36 | the storage of a live handle has at least get_num_bytes_from_handle elements, and exactly its first byte_count elements are initialised |
| Heap.NumBytes | build/image/webp-shim/src/webp.c:37 | the byte count of a live handle is the length of the bytes readable from it |
| Heap.Release | build/image/webp-shim/src/webp.c:38-43 | releasing NULL changes nothing. Releasing a handle logs sb_free of its storage and then free of the struct, removes exactly that block from the live set, and leaves it no longer a handle, so it cannot be released again |
| Transcode.DecodeWebpToRgba | build/image/webp-shim/src/webp.c:66-76 | the RGBA pixels come back exactly when both WebPGetInfo and WebPDecodeRGBA succeed, and they are WebPDecodeRGBA's result |
| Transcode.EncodeRequest | build/image/webp-shim/src/webp.c:86-87 | the writer gets the decoded width, height and pixels with 4 components. PNG gets a stride of width * 4 bytes; JPEG gets the fixed quality 100 (line 103-104) |
| Transcode.HandleFromWebp | build/image/webp-shim/src/webp.c:78-110 | the shared body of both entry points keeps the heap well-formed, returns a handle exactly when decoding and the writer both succeed, and on every path leaves each block that was live before live and unchanged |
| Transcode.PngHandleFromWebp | build/image/webp-shim/src/webp.c:78-93 | get_png_handle_from_webp returns a handle exactly when decoding succeeds and the PNG writer reports success |
| Transcode.JpgHandleFromWebp | build/image/webp-shim/src/webp.c:95-110 | get_jpg_handle_from_webp returns a handle exactly when decoding succeeds and the JPEG writer reports success |
| Transcode.DecodeFailureAllocatesNothing | build/image/webp-shim/src/webp.c:80-83 | a transcode returns NULL with the heap untouched (no ImageBuffer is created) if and only if decoding fails |
| Transcode.RgbaAlwaysFreed | build/image/webp-shim/src/webp.c:85-92 | once decoding succeeds, the RGBA buffer is freed exactly once before the call returns and is never returned, whether the writer succeeds or fails |
| Transcode.SuccessReturnsFilledHandle | build/image/webp-shim/src/webp.c:85-92 | a returned handle is newly allocated, holds exactly the concatenated writer chunks, reports their total length as its byte count, and leaves every earlier block live and unchanged |
| Transcode.LeakIffEncodeFails | build/image/webp-shim/src/webp.c:85-108 | as written, exactly one block is left live and unreachable, and this happens precisely when decoding succeeds and the writer fails. That block is the created ImageBuffer handle, holding the chunks the writer produced before failing |
| Transcode.LeakExample | build/image/webp-shim/src/webp.c:85-91 | a 1x1 decode with a failing PNG writer returns NULL and leaves handle 1 live and leaked |
| Transcode.HandleFromWebpReleasing | build/image/webp-shim/src/webp.c:85-92 | releasing the handle on writer failure gives the same result as the source and leaks nothing on any input. Afterwards exactly the caller's earlier blocks, unchanged, plus the returned handle are live. Where the source leaks nothing, the outcome, including the filled handle on success, is the source's own; where it leaks, the only difference is release_image_handle of the leaked handle |
| Transcode.TranscodeThenRelease | build/image/webp-shim/src/webp.c:38-43 | a successful transcode followed by release_image_handle leaves the original live blocks. The handle's storage and struct are each freed exactly once, and so is the RGBA buffer |

## Left out

- `create_buffer` / `destroy_buffer` (lines 25-26): thin `malloc`/`free` wrappers. They have nothing to state beyond allocation bookkeeping, and the transcode entry points take the input bytes as a `seq<uint8>`.
- A NULL `webp_ptr` (lines 67-69): the source only prints a diagnostic and carries on. The model's input is a byte sequence and the diagnostic is I/O.
- The `printf` / `fprintf` diagnostics and the Emscripten export macros: I/O and build glue.
- `malloc` failure in `createImageBuffer` and `sb_add` reallocation failure: the source does not check either, so the model assumes allocation succeeds.
- The signed `int size` and the `int` / `size_t` mixing on lines 56-57, and a possible overflow of `width * 4` on line 87: `size` is a `nat` and all arithmetic is unbounded.
- WebP parsing and decoding, and PNG/JPEG encoding: foreign libraries. They appear only as the abstract `Codecs` capabilities, and no claim is made about pixels or image round trips.
- The real reallocation policy and header layout of `stretchy_buffer.h`: only the count/append abstraction above is modelled.
- Separate allocations for the stretchy buffer: its storage is counted with its handle block. In C, a writer that calls back before failing leaks two allocations, the struct and its storage. The model's leak of "one block" covers both.
- The release of the ImageBuffer on encode failure: the code does not do it, so the entry points model the leak as written. The corrected variant is under Findings.

## Findings

| source | as written | input that shows it | evidently intended | confidence | as-written member | corrected member |
|---|---|---|---|---|---|---|
| build/image/webp-shim/src/webp.c:88-91 | when the PNG or JPEG writer fails, the entry point returns NULL without `release_image_handle`, so the ImageBuffer from line 85 (line 102 for JPEG, returned at 106-108) is leaked | any WebP that decodes while the stb writer returns 0, such as a 1x1 image whose writer fails on allocation. From an empty heap this leaves block 1 live and unreachable | release the ImageBuffer before returning NULL | high; not executed | Transcode.LeakIffEncodeFails | Transcode.HandleFromWebpReleasing |
