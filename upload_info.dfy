/**
 * The device side of a coredump: whether the last reset left one behind, and
 * how the image found in flash is cut into chunks, with the sizes of their
 * Base64 encodings. `size_t` is 32 bits wide on the ESP32, and its arithmetic
 * wraps; the model keeps that wrap-around.
 */
module UploadInfo {
  import Base64
  import Arith

  /** `esp_reset_reason_t`. */
  datatype ResetReason =
    | Unknown | PowerOn | External | Software | Panic | IntWdt | TaskWdt | Wdt
    | DeepSleep | Brownout | Sdio | Usb | Jtag | Efuse | PowerGlitch | CpuLockup

  /** `coredump_uploader_need_upload`: the resets that may have left a coredump, and the undefined one. */
  function NeedUpload(reason: ResetReason): bool {
    match reason
    case Panic | IntWdt | TaskWdt | Wdt | Unknown => true
    case _ => false
  }

  /** Exactly the panic, the three watchdogs and the unknown reset ask for an upload. */
  lemma NeedUploadExactly(reason: ResetReason)
    ensures NeedUpload(reason) <==> reason in {Panic, IntWdt, TaskWdt, Wdt, Unknown}
    ensures reason in {PowerOn, Software, DeepSleep, Brownout} ==> !NeedUpload(reason)
  {
  }

  /** `esp_err_t` codes. */
  type EspErr = int
  const EspOk: EspErr := 0
  const EspFail: EspErr := -1
  const EspNoMem: EspErr := 0x101
  const EspInvalidArg: EspErr := 0x102
  const EspNotFound: EspErr := 0x105

  /** One past the largest `size_t` of the ESP32. */
  const SizeMax: int := 0x1_0000_0000

  type Size = x: int | 0 <= x < SizeMax

  /** `size_t` wrap-around. */
  function Wrap(x: int): Size {
    x % SizeMax
  }

  /** `COREDUMP_DEFAULT_CHUNK_SIZE`. */
  const DefaultChunk: Size := 3 * 256

  /** `_b64_encoded_size`, in `size_t`. */
  function EncodedSize(n: Size): Size {
    Wrap((Wrap(n + 2) / 3) * 4)
  }

  /** Below the wrap it is the padded Base64 length. */
  lemma EncodedSizeExact(n: Size)
    requires n + 2 < SizeMax && 4 * n + 8 < 3 * SizeMax
    ensures EncodedSize(n) == Base64.EncodedSize(n)
    ensures EncodedSize(n) <= (4 * n + 8) / 3
  {
  }

  /** `coredump_uploader_info_t`. */
  datatype Info = Info(
    flashAddr: Size, totalSize: Size, chunkSize: Size, chunkCount: Size, lastChunkSize: Size,
    useBase64: bool, b64TotalSize: Size, b64ChunkSize: Size, b64LastChunkSize: Size)

  /** The structure after `memset(out, 0, sizeof(*out))`. */
  const Zeroed := Info(0, 0, 0, 0, 0, false, 0, 0, 0)

  /** What `esp_core_dump_image_get` answers: an error code, and the image's address and size. */
  datatype Image = Image(err: EspErr, addr: Size, size: Size)

  /** The chunk size: the requested one or the default, cut down to a multiple of 3 (at least 3) for Base64. */
  function ChunkSize(desired: Size, useBase64: bool): (chunk: Size)
  {
    var c := if desired != 0 then desired else DefaultChunk;
    if useBase64 && c % 3 != 0 then (if c - c % 3 == 0 then 3 else c - c % 3) else c
  }

  /** The chunk size never is 0; with Base64 it is a multiple of 3 within 3 of the request, else the request. */
  lemma ChunkSizeRules(desired: Size, useBase64: bool)
    ensures ChunkSize(desired, useBase64) >= 1
    ensures desired == 0 ==> ChunkSize(desired, useBase64) == DefaultChunk
    ensures !useBase64 && desired != 0 ==> ChunkSize(desired, useBase64) == desired
    ensures useBase64 ==> ChunkSize(desired, useBase64) % 3 == 0 && ChunkSize(desired, useBase64) >= 3
    ensures useBase64 && desired >= 3 ==> desired - 3 < ChunkSize(desired, useBase64) <= desired
    ensures useBase64 && 0 < desired < 3 ==> ChunkSize(desired, useBase64) == 3
  {
    if useBase64 {
      var c := ChunkSize(desired, useBase64);
      var q := c / 3;
      assert c == 3 * q;
    }
  }

  /** The chunking fields, with the Base64 fields still zero. */
  function Plain(addr: Size, size: Size, chunk: Size, count: Size, useBase64: bool): Info
    requires chunk >= 1
  {
    Info(addr, size, chunk, count, Last(size, chunk), useBase64, 0, 0, 0)
  }

  /** The Base64 fields from the chunking fields, in `size_t`. */
  function WithBase64Sizes(info: Info): Info {
    var b64Chunk := EncodedSize(info.chunkSize);
    var b64Last := EncodedSize(info.lastChunkSize);
    info.(b64ChunkSize := b64Chunk, b64LastChunkSize := b64Last,
      b64TotalSize := if info.chunkCount > 1 then Wrap(b64Chunk * (info.chunkCount - 1) + b64Last) else b64Last)
  }

  /** Filling in the Base64 fields leaves the chunking fields as they are. */
  lemma ChunkingKept(info: Info)
    ensures var w := WithBase64Sizes(info);
      && w.flashAddr == info.flashAddr && w.totalSize == info.totalSize && w.useBase64 == info.useBase64
      && w.chunkSize == info.chunkSize && w.chunkCount == info.chunkCount && w.lastChunkSize == info.lastChunkSize
  {
  }

  /** The chunking of `size` bytes into chunks of `chunk` bytes, as the header promises it. */
  predicate Tiles(size: int, chunk: int, count: int, last: int) {
    count >= 1 && 1 <= last <= chunk && (count - 1) * chunk + last == size
  }

  /** The remainder of `size`, or a whole chunk when it divides evenly. */
  function Last(size: int, chunk: int): int
    requires chunk >= 1
  {
    if size % chunk != 0 then size % chunk else chunk
  }

  /** Rounding `size / chunk` up tiles `size`. */
  lemma {:induction false} Ceiling(size: int, chunk: int)
    requires size >= 1 && chunk >= 1
    ensures Tiles(size, chunk, (size + chunk - 1) / chunk, Last(size, chunk))
    ensures (size + chunk - 1) / chunk == size / chunk + (if size % chunk != 0 then 1 else 0)
  {
    var q := size / chunk;
    var r := size % chunk;
    assert size == q * chunk + r;
    if r == 0 {
      Arith.DivUnique(size + chunk - 1, chunk, q, chunk - 1);
      Arith.MulBounds(q, chunk);
      assert (q - 1) * chunk + chunk == q * chunk;
    } else {
      assert size + chunk - 1 == (q + 1) * chunk + (r - 1);
      Arith.DivUnique(size + chunk - 1, chunk, q + 1, r - 1);
    }
  }

  /** The count as written: `(size + chunk - 1) / chunk` in `size_t`. */
  function WrappedCount(size: Size, chunk: Size): (r: Size)
    requires chunk >= 1
  {
    Arith.DivAtMost(Wrap(size + chunk - 1), chunk);
    Wrap(size + chunk - 1) / chunk
  }

  /** The filled structure for an image of `size` bytes at `addr`, with the count as written. */
  function Layout(addr: Size, size: Size, desired: Size, useBase64: bool): Info
  {
    var chunk := ChunkSize(desired, useBase64);
    var plain := Plain(addr, size, chunk, WrappedCount(size, chunk), useBase64);
    if useBase64 then WithBase64Sizes(plain) else plain
  }

  /** What a non-NULL `out` holds after `coredump_uploader_get_info`. */
  function InfoFor(image: Image, desired: Size, useBase64: bool): Info
  {
    if image.err != EspOk || image.size == 0 then Zeroed
    else Layout(image.addr, image.size, desired, useBase64)
  }

  /** The code `coredump_uploader_get_info` returns on a non-NULL `out`. */
  function InfoErr(image: Image): EspErr {
    if image.err != EspOk then image.err else if image.size == 0 then EspNotFound else EspOk
  }

  /** A failed lookup and an empty image both leave the structure zeroed. */
  lemma InfoErrors(image: Image, desired: Size, useBase64: bool)
    ensures InfoErr(image) != EspOk <==> image.err != EspOk || image.size == 0
    ensures InfoErr(image) != EspOk ==> InfoFor(image, desired, useBase64) == Zeroed
    ensures image.err != EspOk ==> InfoErr(image) == image.err
    ensures image.err == EspOk && image.size == 0 ==> InfoErr(image) == EspNotFound
  {
  }

  /**
   * Below the wrap, a found image is tiled by its chunks: at least one, the
   * last of 1..chunk bytes, and all of them together exactly the image.
   */
  lemma LayoutTiles(addr: Size, size: Size, desired: Size, useBase64: bool)
    requires size >= 1 && size + ChunkSize(desired, useBase64) <= SizeMax
    ensures var info := Layout(addr, size, desired, useBase64);
      && info.flashAddr == addr && info.totalSize == size && info.useBase64 == useBase64
      && info.chunkSize == ChunkSize(desired, useBase64)
      && Tiles(size, info.chunkSize, info.chunkCount, info.lastChunkSize)
  {
    var chunk := ChunkSize(desired, useBase64);
    ChunkSizeRules(desired, useBase64);
    assert Wrap(size + chunk - 1) == size + chunk - 1;
    Ceiling(size, chunk);
  }

  /**
   * A request for chunks of 0xFFFFFFFF bytes wraps `size + chunk - 1`, so a
   * 10-byte image is laid out in no chunk at all.
   */
  lemma HugeChunkWraps()
    ensures Layout(0, 10, SizeMax - 1, true).chunkCount == 0
    ensures Layout(0, 10, SizeMax - 1, false).chunkCount == 0
  {
    assert (SizeMax - 1) % 3 == 0;
    assert Wrap(10 + (SizeMax - 1) - 1) == 8;
  }

  /** The number of chunks of `chunk` bytes that `size` bytes need, without the wrap. */
  function CeilCount(size: Size, chunk: Size): (r: Size)
    requires chunk >= 1
  {
    var q := size / chunk;
    Arith.MulAtLeast(q, chunk);
    assert size == q * chunk + size % chunk;
    if size % chunk != 0 then q + 1 else q
  }

  /** The filled structure with the chunk count computed without the wrap. */
  function LayoutFixed(addr: Size, size: Size, desired: Size, useBase64: bool): Info
  {
    var chunk := ChunkSize(desired, useBase64);
    var plain := Plain(addr, size, chunk, CeilCount(size, chunk), useBase64);
    if useBase64 then WithBase64Sizes(plain) else plain
  }

  /** The corrected count tiles every non-empty image, whatever chunk size was asked for. */
  lemma LayoutFixedTiles(addr: Size, size: Size, desired: Size, useBase64: bool)
    requires size >= 1
    ensures var info := LayoutFixed(addr, size, desired, useBase64);
      && info.chunkSize == ChunkSize(desired, useBase64)
      && Tiles(size, info.chunkSize, info.chunkCount, info.lastChunkSize)
  {
    var chunk := ChunkSize(desired, useBase64);
    ChunkSizeRules(desired, useBase64);
    Ceiling(size, chunk);
    var count := CeilCount(size, chunk);
    assert count == (size + chunk - 1) / chunk;
    var plain := Plain(addr, size, chunk, count, useBase64);
    ChunkingKept(plain);
    assert Tiles(size, plain.chunkSize, plain.chunkCount, plain.lastChunkSize);
  }

  /** Where `size + chunk - 1` does not wrap, the two counts agree. */
  lemma LayoutFixedAgrees(addr: Size, size: Size, desired: Size, useBase64: bool)
    requires size >= 1 && size + ChunkSize(desired, useBase64) <= SizeMax
    ensures LayoutFixed(addr, size, desired, useBase64) == Layout(addr, size, desired, useBase64)
  {
    var chunk := ChunkSize(desired, useBase64);
    ChunkSizeRules(desired, useBase64);
    Ceiling(size, chunk);
    assert Wrap(size + chunk - 1) == size + chunk - 1;
    assert CeilCount(size, chunk) == WrappedCount(size, chunk);
  }

  /** The length of chunk k: the chunk size, and the last chunk size for the final one. */
  function ChunkLen(info: Info, k: int): Size {
    if k == info.chunkCount - 1 then info.lastChunkSize else info.chunkSize
  }

  /** The Base64 lengths of chunks 0..k-1, added up without wrap. */
  function EncodedPrefix(info: Info, k: nat): nat {
    if k == 0 then 0 else EncodedPrefix(info, k - 1) + Base64.EncodedSize(ChunkLen(info, k - 1))
  }

  lemma {:induction false} EncodedPrefixWhole(info: Info, k: nat)
    requires k <= info.chunkCount - 1
    ensures EncodedPrefix(info, k) == k * Base64.EncodedSize(info.chunkSize)
  {
    if k > 0 {
      EncodedPrefixWhole(info, k - 1);
      assert k * Base64.EncodedSize(info.chunkSize) ==
        (k - 1) * Base64.EncodedSize(info.chunkSize) + Base64.EncodedSize(info.chunkSize);
    }
  }

  /** The bound on the image that keeps every size of the Base64 layout below the wrap. */
  predicate Small(size: int, chunk: int) {
    2 * (size + chunk) + 8 < SizeMax
  }

  /** k whole chunks of a multiple of 3 bytes encode to exactly 4/3 of their length. */
  lemma {:induction false} WholeChunksEncoded(k: int, chunk: int)
    requires k >= 0 && chunk >= 3 && chunk % 3 == 0
    ensures 3 * (k * Base64.EncodedSize(chunk)) == 4 * (k * chunk)
  {
    assert (chunk + 2) / 3 == chunk / 3;
    if k > 0 {
      WholeChunksEncoded(k - 1, chunk);
      assert k * Base64.EncodedSize(chunk) == (k - 1) * Base64.EncodedSize(chunk) + Base64.EncodedSize(chunk);
      assert k * chunk == (k - 1) * chunk + chunk;
    }
  }

  /** The total of a tiled Base64 layout below the wrap does not wrap. */
  lemma TotalNoWrap(count: int, chunk: int, last: int, size: int)
    requires Tiles(size, chunk, count, last) && chunk % 3 == 0 && chunk >= 3 && Small(size, chunk)
    ensures Wrap(Base64.EncodedSize(chunk) * (count - 1) + Base64.EncodedSize(last)) ==
      (count - 1) * Base64.EncodedSize(chunk) + Base64.EncodedSize(last)
  {
    WholeChunksEncoded(count - 1, chunk);
    Arith.MulNonneg(count - 1, Base64.EncodedSize(chunk));
    assert Base64.EncodedSize(chunk) * (count - 1) == (count - 1) * Base64.EncodedSize(chunk);
  }

  /** The Base64 fields of a tiled layout below the wrap are the padded lengths, and the total their sum. */
  lemma {:induction false} SizesOfTiles(info: Info)
    requires Tiles(info.totalSize, info.chunkSize, info.chunkCount, info.lastChunkSize)
    requires info.chunkSize >= 3 && info.chunkSize % 3 == 0 && Small(info.totalSize, info.chunkSize)
    ensures var w := WithBase64Sizes(info);
      && w.b64ChunkSize == Base64.EncodedSize(info.chunkSize)
      && w.b64LastChunkSize == Base64.EncodedSize(info.lastChunkSize)
      && w.b64TotalSize == EncodedPrefix(info, info.chunkCount)
  {
    var count := info.chunkCount;
    EncodedSizeExact(info.chunkSize);
    EncodedSizeExact(info.lastChunkSize);
    EncodedPrefixWhole(info, count - 1);
    assert EncodedPrefix(info, count) ==
      (count - 1) * Base64.EncodedSize(info.chunkSize) + Base64.EncodedSize(info.lastChunkSize);
    TotalNoWrap(count, info.chunkSize, info.lastChunkSize, info.totalSize);
  }

  /** The prefix sums read only the chunking fields. */
  lemma {:induction false} EncodedPrefixChunking(a: Info, b: Info, k: nat)
    requires a.chunkSize == b.chunkSize && a.chunkCount == b.chunkCount && a.lastChunkSize == b.lastChunkSize
    ensures EncodedPrefix(a, k) == EncodedPrefix(b, k)
  {
    if k > 0 {
      EncodedPrefixChunking(a, b, k - 1);
    }
  }

  /**
   * With Base64 and an image below the wrap, `b64_total_size` is the sum of
   * the padded Base64 lengths of all chunks, and the per-chunk fields are the
   * lengths of a whole and of the last chunk.
   */
  lemma Base64Total(addr: Size, size: Size, desired: Size)
    requires size >= 1 && Small(size, ChunkSize(desired, true))
    ensures var info := Layout(addr, size, desired, true);
      && info.b64ChunkSize == Base64.EncodedSize(info.chunkSize)
      && info.b64LastChunkSize == Base64.EncodedSize(info.lastChunkSize)
      && info.b64TotalSize == EncodedPrefix(info, info.chunkCount)
  {
    var chunk := ChunkSize(desired, true);
    var plain := Plain(addr, size, chunk, WrappedCount(size, chunk), true);
    var info := WithBase64Sizes(plain);
    assert Layout(addr, size, desired, true) == info;
    LayoutTiles(addr, size, desired, true);
    assert Tiles(plain.totalSize, plain.chunkSize, plain.chunkCount, plain.lastChunkSize);
    ChunkSizeRules(desired, true);
    assert Small(plain.totalSize, plain.chunkSize);
    SizesOfTiles(plain);
    EncodedPrefixChunking(plain, info, plain.chunkCount);
  }

  /** The caller's `coredump_uploader_info_t`, filled in place. */
  class InfoOut {
    var info: Info

    constructor()
      ensures info == Zeroed
    {
      info := Zeroed;
    }
  }

  /**
   * `coredump_uploader_get_info(out, desired_chunk_size, use_base64)`: NULL
   * is refused, otherwise `out` is zeroed and then filled from the image.
   */
  method GetInfo(out: InfoOut?, image: Image, desired: Size, useBase64: bool) returns (err: EspErr)
    modifies out
    ensures out == null ==> err == EspInvalidArg
    ensures out != null ==> err == InfoErr(image) && out.info == InfoFor(image, desired, useBase64)
  {
    if out == null {
      return EspInvalidArg;
    }
    out.info := Zeroed;
    if image.err != EspOk {
      return image.err;
    }
    if image.size == 0 {
      return EspNotFound;
    }
    var chunk := if desired != 0 then desired else DefaultChunk;
    if useBase64 && chunk % 3 != 0 {
      chunk := chunk - chunk % 3;
      if chunk == 0 {
        chunk := 3;
      }
    }
    var count := WrappedCount(image.size, chunk);
    var last := if image.size % chunk != 0 then image.size % chunk else chunk;
    out.info := out.info.(flashAddr := image.addr, totalSize := image.size, chunkSize := chunk,
      chunkCount := count, lastChunkSize := last, useBase64 := useBase64);
    if useBase64 {
      out.info := WithBase64Sizes(out.info);
    }
    err := EspOk;
  }
}
