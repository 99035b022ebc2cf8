/**
 * What `coredump_upload` guarantees: where the loop stops, what `end` and the
 * erase do with its status, that the Base64 buffer fits every chunk, and that
 * a run without failures hands the image to `write` chunk by chunk.
 */
module UploadProps {
  import opened Wrappers
  import opened UploadInfo
  import opened Upload
  import Base64
  import Arith

  /** The calls of chunks k..n-1, every pass taken whole. */
  function Passes(info: Info, env: Env, k: nat, n: nat): seq<Call>
    decreases n - k
  {
    if k >= n then [] else ChunkStep(info, env, k).1 + Passes(info, env, k + 1, n)
  }

  /** Every pass of chunks k..n-1 ends OK. */
  predicate AllPass(info: Info, env: Env, k: nat, n: nat) {
    forall j: nat | k <= j < n :: ChunkStep(info, env, j).0 == EspOk
  }

  /** When no pass fails, the loop makes every pass and ends OK. */
  lemma {:induction false} RunsToEnd(info: Info, env: Env, k: nat)
    requires k <= info.chunkCount && AllPass(info, env, k, info.chunkCount)
    ensures Chunks(info, env, k) == (EspOk, Passes(info, env, k, info.chunkCount))
    decreases info.chunkCount - k
  {
    if k < info.chunkCount {
      RunsToEnd(info, env, k + 1);
    }
  }

  /** The loop leaves at the first pass that fails, with that pass's error, and after its calls. */
  lemma {:induction false} StopsAtFirstFailure(info: Info, env: Env, k: nat, f: nat)
    requires k <= f < info.chunkCount && AllPass(info, env, k, f) && ChunkStep(info, env, f).0 != EspOk
    ensures Chunks(info, env, k) == (ChunkStep(info, env, f).0, Passes(info, env, k, f) + ChunkStep(info, env, f).1)
    decreases f - k
  {
    if k < f {
      assert ChunkStep(info, env, k).0 == EspOk;
      StopsAtFirstFailure(info, env, k + 1, f);
      var step := ChunkStep(info, env, k).1;
      assert Chunks(info, env, k) == (Chunks(info, env, k + 1).0, step + Chunks(info, env, k + 1).1);
      assert Passes(info, env, k, f) == step + Passes(info, env, k + 1, f);
      assert step + (Passes(info, env, k + 1, f) + ChunkStep(info, env, f).1)
        == (step + Passes(info, env, k + 1, f)) + ChunkStep(info, env, f).1;
    } else {
      var last := ChunkStep(info, env, f);
      assert [] + last.1 == last.1;
      assert last == (last.0, last.1);
    }
  }

  /** Only the flash and the `write` and `progress` callbacks are called inside the loop. */
  predicate LoopCalls(calls: seq<Call>) {
    forall i | 0 <= i < |calls| :: calls[i].Read? || calls[i].WriteCb? || calls[i].ProgressCb?
  }

  lemma {:induction false} ChunksCallNoMore(info: Info, env: Env, k: nat)
    ensures LoopCalls(Chunks(info, env, k).1)
    decreases info.chunkCount - k
  {
    if k < info.chunkCount && ChunkStep(info, env, k).0 == EspOk {
      ChunksCallNoMore(info, env, k + 1);
    }
  }

  lemma LoopCallsCount(calls: seq<Call>)
    requires LoopCalls(calls)
    ensures multiset(calls)[EndCb] == 0 && multiset(calls)[Erase] == 0 && multiset(calls)[StartCb] == 0
  {
    assert EndCb !in calls && Erase !in calls && StartCb !in calls;
  }

  /** Without a buffer nothing is called; a failing `start` returns its error before any read, write or `end`. */
  lemma TransferRefuses(info: Info, env: Env)
    ensures !env.readBuffer || (info.useBase64 && !env.b64Buffer) ==> Transfer(info, env) == (EspNoMem, [])
    ensures env.readBuffer && (!info.useBase64 || env.b64Buffer) && env.start.Some? && env.start.value != EspOk ==>
      Transfer(info, env) == (env.start.value, [StartCb])
  {
  }

  /**
   * Once `start` succeeded: `end` runs exactly once when there is one, its
   * error only replaces an OK status of the loop, and the image is erased,
   * last and once, exactly when the status is then still OK, the erase's
   * answer being returned.
   */
  lemma EndAndErase(info: Info, env: Env)
    requires env.readBuffer && (!info.useBase64 || env.b64Buffer) && (env.start.None? || env.start.value == EspOk)
    ensures var r := Transfer(info, env);
      var loop := Chunks(info, env, 0);
      && multiset(r.1)[StartCb] == (if env.start.Some? then 1 else 0)
      && multiset(r.1)[EndCb] == (if env.end.Some? then 1 else 0)
      && (loop.0 != EspOk ==> r.0 == loop.0)
      && (loop.0 == EspOk && env.end.Some? && env.end.value != EspOk ==> r.0 == env.end.value)
      && (Erase in r.1 <==> loop.0 == EspOk && (env.end.None? || env.end.value == EspOk))
      && multiset(r.1)[Erase] <= 1
      && (Erase in r.1 ==> r.1[|r.1| - 1] == Erase && r.0 == env.erase)
  {
    var loop := Chunks(info, env, 0);
    ChunksCallNoMore(info, env, 0);
    var status := if loop.0 == EspOk && env.end.Some? && env.end.value != EspOk then env.end.value else loop.0;
    CallCounts(loop.1, env.start.Some?, env.end.Some?, status == EspOk);
  }

  /** The calls around the loop's: `start` first when there is one, `end` after the loop when there is one, the erase last when asked. */
  lemma CallCounts(calls: seq<Call>, hasStart: bool, hasEnd: bool, erased: bool)
    requires LoopCalls(calls)
    ensures var body := (if hasStart then [StartCb] else []) + calls + (if hasEnd then [EndCb] else []);
      var all := if erased then body + [Erase] else body;
      && multiset(all)[StartCb] == (if hasStart then 1 else 0)
      && multiset(all)[EndCb] == (if hasEnd then 1 else 0)
      && (Erase in all <==> erased)
      && multiset(all)[Erase] <= 1
      && (erased ==> all[|all| - 1] == Erase)
  {
    LoopCallsCount(calls);
    var began := if hasStart then [StartCb] else [];
    var ended := if hasEnd then [EndCb] else [];
    var body := began + calls + ended;
    assert multiset(body) == multiset(began) + multiset(calls) + multiset(ended);
    assert multiset(body)[StartCb] == (if hasStart then 1 else 0);
    assert multiset(body)[EndCb] == (if hasEnd then 1 else 0);
    assert multiset(body)[Erase] == 0;
    assert Erase !in body;
    if erased {
      var all := body + [Erase];
      assert multiset(all) == multiset(body) + multiset{Erase};
      assert all[|all| - 1] == Erase;
    }
  }

  /** A NULL `info` is filled by `get_info` with the default chunk size and no Base64. */
  lemma NullInfoDefaults(env: Env)
    requires env.hasWrite && InfoErr(env.image) == EspOk
    ensures var info := InfoFor(env.image, 0, false);
      && UploadRun(None, env) == Transfer(info, env)
      && info.chunkSize == DefaultChunk && !info.useBase64
      && info.flashAddr == env.image.addr && info.totalSize == env.image.size
  {
    ChunkSizeRules(0, false);
  }

  /** The encoding of `chunk_size` bytes and its NUL fit in `size_t`. */
  predicate Encodable(chunk: int) {
    4 * chunk + 12 <= 3 * SizeMax
  }

  /** The Base64 buffer of `encoded(chunk_size) + 1` bytes holds the encoding of every chunk and its NUL. */
  lemma CapacityFits(info: Info, k: int)
    requires info.useBase64 && info.lastChunkSize <= info.chunkSize && Encodable(info.chunkSize)
    ensures Base64.EncodedSize(ChunkLen(info, k)) + 1 <= Capacity(info)
  {
    EncodedSizeExact(info.chunkSize);
    var len := ChunkLen(info, k);
    assert (len + 2) / 3 <= (info.chunkSize + 2) / 3;
  }

  /** The layouts the uploader can send whole: tiled, inside the flash and below the wrap. */
  predicate Fits(info: Info, env: Env) {
    && Tiles(info.totalSize, info.chunkSize, info.chunkCount, info.lastChunkSize)
    && info.flashAddr + info.totalSize <= |env.flash|
    && info.flashAddr + info.totalSize <= SizeMax
    && (info.useBase64 ==> Encodable(info.chunkSize))
  }

  /** No flash read, write or progress call fails for chunks 0..n-1. */
  predicate Quiet(env: Env, n: int) {
    forall j | 0 <= j < n ::
      Answer(env.readFails, j) == EspOk && Answer(env.writeFails, j) == EspOk && Answer(env.progressFails, j) == EspOk
  }

  /** Chunk k of a tiling starts at `k * chunk` and ends inside the image, at its end for the last chunk. */
  lemma ChunkOffset(size: int, chunk: int, count: int, last: int, k: nat)
    requires Tiles(size, chunk, count, last) && k < count
    ensures 0 <= k * chunk && (k + 1) * chunk == k * chunk + chunk
    ensures k + 1 < count ==> k * chunk + chunk < size
    ensures k + 1 == count ==> k * chunk + last == size
  {
    Arith.MulNonneg(k, chunk);
    assert (k + 1) * chunk == k * chunk + chunk;
    if k + 1 < count {
      Arith.MulMonotone(k + 1, count - 1, chunk);
    }
  }

  /** Chunk k starts at `flash_addr + k * chunk_size`, and ends where chunk k + 1 starts or, for the last, at the end of the image. */
  lemma ChunkBounds(info: Info, k: nat)
    requires Tiles(info.totalSize, info.chunkSize, info.chunkCount, info.lastChunkSize)
    requires info.flashAddr + info.totalSize <= SizeMax && k < info.chunkCount
    ensures ChunkAddr(info, k) == info.flashAddr + k * info.chunkSize
    ensures k + 1 < info.chunkCount ==> ChunkAddr(info, k) + ChunkLen(info, k) == ChunkAddr(info, k + 1)
    ensures k + 1 == info.chunkCount ==> ChunkAddr(info, k) + ChunkLen(info, k) == info.flashAddr + info.totalSize
    ensures ChunkAddr(info, k) + ChunkLen(info, k) <= info.flashAddr + info.totalSize
  {
    ChunkOffset(info.totalSize, info.chunkSize, info.chunkCount, info.lastChunkSize, k);
    var p := k * info.chunkSize;
    assert Wrap(p) == p;
    if k + 1 < info.chunkCount {
      var q := (k + 1) * info.chunkSize;
      assert q == p + info.chunkSize;
      assert Wrap(q) == q;
    }
  }

  /** Pass k starts with the read of chunk k at its address and with its length. */
  lemma ReadAt(info: Info, env: Env, k: nat)
    requires Tiles(info.totalSize, info.chunkSize, info.chunkCount, info.lastChunkSize)
    requires info.flashAddr + info.totalSize <= SizeMax && k < info.chunkCount
    ensures ChunkStep(info, env, k).1[0] == Read(info.flashAddr + k * info.chunkSize, ChunkLen(info, k))
  {
    ChunkBounds(info, k);
  }

  /** What one write hands over, decoded back when the upload is in Base64. */
  function Payload(data: seq<byte>, b64: bool): seq<byte> {
    if !b64 then data
    else match Base64.Decode(data) case Some(b) => b case None => []
  }

  /** Everything the `write` calls hand over, in order. */
  function Delivered(calls: seq<Call>, b64: bool): seq<byte> {
    if calls == [] then []
    else (if calls[0].WriteCb? then Payload(calls[0].data, b64) else []) + Delivered(calls[1..], b64)
  }

  lemma {:induction false} DeliveredAppend(a: seq<Call>, b: seq<Call>, b64: bool)
    ensures Delivered(a + b, b64) == Delivered(a, b64) + Delivered(b, b64)
  {
    if a != [] {
      DeliveredAppend(a[1..], b, b64);
      assert (a + b)[0] == a[0];
      assert (a + b)[1..] == a[1..] + b;
      var head := if a[0].WriteCb? then Payload(a[0].data, b64) else [];
      assert head + (Delivered(a[1..], b64) + Delivered(b, b64)) == (head + Delivered(a[1..], b64)) + Delivered(b, b64);
    } else {
      assert a + b == b;
      assert [] + Delivered(b, b64) == Delivered(b, b64);
    }
  }

  /** A pass whose read, write and progress succeed, inside the flash and the Base64 buffer, hands over its chunk. */
  lemma StepDelivers(info: Info, env: Env, k: nat)
    requires Answer(env.readFails, k) == EspOk && Answer(env.writeFails, k) == EspOk && Answer(env.progressFails, k) == EspOk
    requires ChunkAddr(info, k) + ChunkLen(info, k) <= |env.flash|
    requires info.useBase64 ==> Base64.EncodedSize(ChunkLen(info, k)) + 1 <= Capacity(info)
    ensures var step := ChunkStep(info, env, k);
      && step.0 == EspOk
      && Delivered(step.1, info.useBase64) == env.flash[ChunkAddr(info, k)..ChunkAddr(info, k) + ChunkLen(info, k)]
  {
    PassCalls(info, env, k);
    var bytes := env.flash[ChunkAddr(info, k)..ChunkAddr(info, k) + ChunkLen(info, k)];
    PayloadOfSent(bytes, info.useBase64);
    PassDelivers(ChunkAddr(info, k), ChunkLen(info, k), if info.useBase64 then Base64.Encode(bytes) else bytes,
                 k, info.useBase64, bytes, env.progress);
  }

  /** What a pass writes decodes back to the chunk it read. */
  lemma PayloadOfSent(bytes: seq<byte>, b64: bool)
    ensures Payload(if b64 then Base64.Encode(bytes) else bytes, b64) == bytes
  {
    if b64 {
      Base64.DecodeEncode(bytes);
    }
  }

  /** The calls of a pass whose read, write and progress succeed: the read, the write of the (encoded) chunk, the progress report. */
  lemma PassCalls(info: Info, env: Env, k: nat)
    requires Answer(env.readFails, k) == EspOk && Answer(env.writeFails, k) == EspOk && Answer(env.progressFails, k) == EspOk
    requires ChunkAddr(info, k) + ChunkLen(info, k) <= |env.flash|
    requires info.useBase64 ==> Base64.EncodedSize(ChunkLen(info, k)) + 1 <= Capacity(info)
    ensures var addr := ChunkAddr(info, k);
      var len := ChunkLen(info, k);
      var data := if info.useBase64 then Base64.Encode(env.flash[addr..addr + len]) else env.flash[addr..addr + len];
      ChunkStep(info, env, k) == (EspOk, if env.progress then [Read(addr, len)] + [WriteCb(data)] + [ProgressCb(k, |data|)] else [Read(addr, len)] + [WriteCb(data)])
  {
    assert FlashRead(env, k, ChunkAddr(info, k), ChunkLen(info, k)) == EspOk;
  }

  /** A read, a write whose payload is `bytes`, and possibly a progress report hand over `bytes`. */
  lemma PassDelivers(addr: int, len: int, data: seq<byte>, k: nat, b64: bool, bytes: seq<byte>, progress: bool)
    requires Payload(data, b64) == bytes
    ensures Delivered(if progress then [Read(addr, len)] + [WriteCb(data)] + [ProgressCb(k, |data|)]
                                  else [Read(addr, len)] + [WriteCb(data)], b64) == bytes
  {
    var two := [Read(addr, len)] + [WriteCb(data)];
    assert two[1..] == [WriteCb(data)] && [WriteCb(data)][1..] == [];
    assert Delivered([WriteCb(data)], b64) == bytes + [];
    assert Delivered(two, b64) == bytes;
    var tail := [ProgressCb(k, |data|)];
    assert tail[1..] == [];
    assert Delivered(tail, b64) == [];
    DeliveredAppend(two, tail, b64);
  }

  /** Chunk j ends inside the flash where the next one starts, the last at the end of the image, and fits the Base64 buffer. */
  predicate LaidOne(info: Info, env: Env, j: nat) {
    && ChunkAddr(info, j) + ChunkLen(info, j) <= |env.flash|
    && ChunkAddr(info, j) + ChunkLen(info, j) ==
       (if j + 1 < info.chunkCount then ChunkAddr(info, j + 1) else info.flashAddr + info.totalSize)
    && (info.useBase64 ==> Base64.EncodedSize(ChunkLen(info, j)) + 1 <= Capacity(info))
  }

  /** Chunks k.. are each laid out so; stated by recursion, so that a proof unfolds it one chunk at a time. */
  predicate LaidFrom(info: Info, env: Env, k: nat)
    decreases info.chunkCount - k
  {
    k >= info.chunkCount || (LaidOne(info, env, k) && LaidFrom(info, env, k + 1))
  }

  lemma {:induction false} FitsLaidFrom(info: Info, env: Env, k: nat)
    requires Fits(info, env)
    ensures LaidFrom(info, env, k)
    decreases info.chunkCount - k
  {
    if k < info.chunkCount {
      ChunkBounds(info, k);
      if info.useBase64 {
        CapacityFits(info, k);
      }
      FitsLaidFrom(info, env, k + 1);
    }
  }

  /** Chunk k hands over its bytes, followed by whatever the later chunks hand over. */
  lemma DeliversStep(info: Info, env: Env, k: nat)
    requires LaidOne(info, env, k) && k < info.chunkCount
    requires Answer(env.readFails, k) == EspOk && Answer(env.writeFails, k) == EspOk && Answer(env.progressFails, k) == EspOk
    requires k + 1 < info.chunkCount ==>
      && ChunkAddr(info, k + 1) <= info.flashAddr + info.totalSize <= |env.flash|
      && Delivered(Passes(info, env, k + 1, info.chunkCount), info.useBase64) ==
         env.flash[ChunkAddr(info, k + 1)..info.flashAddr + info.totalSize]
    ensures ChunkAddr(info, k) <= info.flashAddr + info.totalSize <= |env.flash|
    ensures Delivered(Passes(info, env, k, info.chunkCount), info.useBase64) ==
      env.flash[ChunkAddr(info, k)..info.flashAddr + info.totalSize]
  {
    StepDelivers(info, env, k);
    var step := ChunkStep(info, env, k).1;
    var start: int := ChunkAddr(info, k);
    var next: int := start + ChunkLen(info, k);
    var end: int := info.flashAddr + info.totalSize;
    var rest := Passes(info, env, k + 1, info.chunkCount);
    assert Passes(info, env, k, info.chunkCount) == step + rest;
    if k + 1 == info.chunkCount {
      assert Delivered(rest, info.useBase64) == env.flash[next..end];
    }
    Joined(step, rest, info.useBase64, env.flash, start, next, end);
  }

  /** Without failures, the loop from chunk k on hands over the image from chunk k to its end. */
  lemma {:induction false} DeliversFrom(info: Info, env: Env, k: nat)
    requires LaidFrom(info, env, k) && Quiet(env, info.chunkCount) && k < info.chunkCount
    ensures ChunkAddr(info, k) <= info.flashAddr + info.totalSize <= |env.flash|
    ensures Delivered(Passes(info, env, k, info.chunkCount), info.useBase64) ==
      env.flash[ChunkAddr(info, k)..info.flashAddr + info.totalSize]
    decreases info.chunkCount - k
  {
    if k + 1 < info.chunkCount {
      DeliversFrom(info, env, k + 1);
    }
    DeliversStep(info, env, k);
  }

  lemma Joined(a: seq<Call>, b: seq<Call>, b64: bool, flash: seq<byte>, i: int, j: int, k: int)
    requires 0 <= i <= j <= k <= |flash|
    requires Delivered(a, b64) == flash[i..j] && Delivered(b, b64) == flash[j..k]
    ensures Delivered(a + b, b64) == flash[i..k]
  {
    DeliveredAppend(a, b, b64);
    Join(flash, i, j, k);
  }

  lemma Join(s: seq<byte>, a: int, b: int, c: int)
    requires 0 <= a <= b <= c <= |s|
    ensures s[a..b] + s[b..c] == s[a..c]
  {
  }

  /** Without failures in the first n chunks, each of their passes ends OK. */
  lemma QuietPasses(info: Info, env: Env, n: nat)
    requires Fits(info, env) && n <= info.chunkCount && Quiet(env, n)
    ensures AllPass(info, env, 0, n)
  {
    forall j: nat | j < n
      ensures ChunkStep(info, env, j).0 == EspOk
    {
      ChunkBounds(info, j);
      if info.useBase64 {
        CapacityFits(info, j);
      }
      StepDelivers(info, env, j);
    }
  }

  /**
   * A run on a layout that fits and without failures: every chunk is sent,
   * the loop ends OK, and the writes hand over exactly the image, with the
   * Base64 of each chunk decoding back to its bytes.
   */
  lemma DeliversImage(info: Info, env: Env)
    requires Fits(info, env) && Quiet(env, info.chunkCount)
    ensures Chunks(info, env, 0).0 == EspOk
    ensures Delivered(Chunks(info, env, 0).1, info.useBase64) ==
      env.flash[info.flashAddr..info.flashAddr + info.totalSize]
  {
    FitsLaidFrom(info, env, 0);
    ChunkBounds(info, 0);
    QuietPasses(info, env, info.chunkCount);
    RunsToEnd(info, env, 0);
    DeliversFrom(info, env, 0);
  }

  /**
   * The structure `get_info` fills for an image that fits below the wrap is
   * one the uploader sends whole: every chunk is read once, in order, and the
   * image reaches `write`.
   */
  lemma GetInfoDelivers(env: Env, desired: Size, useBase64: bool)
    requires env.image.err == EspOk && env.image.size >= 1
    requires env.image.size + ChunkSize(desired, useBase64) <= SizeMax
    requires env.image.addr + env.image.size <= |env.flash| && env.image.addr + env.image.size <= SizeMax
    requires useBase64 ==> Encodable(ChunkSize(desired, useBase64))
    requires Quiet(env, InfoFor(env.image, desired, useBase64).chunkCount)
    ensures var info := InfoFor(env.image, desired, useBase64);
      && Chunks(info, env, 0).0 == EspOk
      && Delivered(Chunks(info, env, 0).1, useBase64) == env.flash[env.image.addr..env.image.addr + env.image.size]
  {
    LayoutTiles(env.image.addr, env.image.size, desired, useBase64);
    DeliversImage(InfoFor(env.image, desired, useBase64), env);
  }
}
