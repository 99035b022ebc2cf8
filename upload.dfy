/**
 * `coredump_upload`: the chunk loop of the device. The callback table, the
 * flash and the allocator are described by what they answer; the model
 * records, in order, every call the loop makes to them.
 */
module Upload {
  import opened Wrappers
  import opened UploadInfo
  import Base64
  import Arith
  import Session

  /** What the callbacks, the flash and the allocator answer during one upload. */
  datatype Env = Env(
    /** `cbs` is non-NULL and has a `write` callback. */
    hasWrite: bool,
    /** The `start` callback's answer; None when there is none. */
    start: Option<EspErr>,
    /** The `end` callback's answer; None when there is none. */
    end: Option<EspErr>,
    /** Whether there is a `progress` callback. */
    progress: bool,
    /** The non-OK answers of `esp_flash_read`, `write` and `progress`, by chunk index. */
    readFails: map<int, EspErr>,
    writeFails: map<int, EspErr>,
    progressFails: map<int, EspErr>,
    /** The flash contents from address 0. */
    flash: seq<byte>,
    /** Whether the read buffer and the Base64 buffer can be allocated. */
    readBuffer: bool,
    b64Buffer: bool,
    /** What `esp_core_dump_image_get` answers, for a NULL `info`. */
    image: Image,
    /** The answer of `esp_core_dump_image_erase`. */
    erase: EspErr)

  /** One call the upload makes. */
  datatype Call =
    | StartCb
    | Read(addr: int, len: int)
    | WriteCb(data: seq<byte>)
    | ProgressCb(index: int, sent: int)
    | EndCb
    | Erase

  /** The answer recorded for chunk k, OK when none is. */
  function Answer(m: map<int, EspErr>, k: int): EspErr {
    if k in m then m[k] else EspOk
  }

  /** `esp_flash_read` of `len` bytes at `addr` into the buffer of chunk k. */
  function FlashRead(env: Env, k: int, addr: int, len: int): EspErr {
    if Answer(env.readFails, k) != EspOk then Answer(env.readFails, k)
    else if addr + len > |env.flash| then EspInvalidArg
    else EspOk
  }

  /** Where chunk k starts: `flash_addr + chunk_index * chunk_size`, in `size_t`. */
  function ChunkAddr(info: Info, k: nat): Size {
    Wrap(info.flashAddr + Wrap(k * info.chunkSize))
  }

  /** The size of the Base64 buffer. */
  function Capacity(info: Info): Size {
    if info.useBase64 then Wrap(EncodedSize(info.chunkSize) + 1) else 0
  }

  /**
   * One pass of the loop for chunk k: read, encode when Base64 is on (mbedtls
   * refuses a buffer without room for the encoding and its NUL), write, then
   * report progress; the first call that fails ends the pass with its error.
   */
  function ChunkStep(info: Info, env: Env, k: nat): (EspErr, seq<Call>) {
    var addr := ChunkAddr(info, k);
    var len := ChunkLen(info, k);
    var read := [Read(addr, len)];
    if FlashRead(env, k, addr, len) != EspOk then (FlashRead(env, k, addr, len), read)
    else if info.useBase64 && Base64.EncodedSize(len) + 1 > Capacity(info) then (EspFail, read)
    else
      var bytes := env.flash[addr..addr + len];
      var data := if info.useBase64 then Base64.Encode(bytes) else bytes;
      var sent := read + [WriteCb(data)];
      if Answer(env.writeFails, k) != EspOk then (Answer(env.writeFails, k), sent)
      else if !env.progress then (EspOk, sent)
      else (Answer(env.progressFails, k), sent + [ProgressCb(k, |data|)])
  }

  /** The loop from chunk k on: every pass in order, up to the first that fails. */
  function Chunks(info: Info, env: Env, k: nat): (EspErr, seq<Call>)
    decreases info.chunkCount - k
  {
    if k >= info.chunkCount then (EspOk, [])
    else
      var step := ChunkStep(info, env, k);
      if step.0 != EspOk then step
      else
        var rest := Chunks(info, env, k + 1);
        (rest.0, step.1 + rest.1)
  }

  /** From the buffers on: start, the loop, end once, and the erase only when everything was OK. */
  function Transfer(info: Info, env: Env): (EspErr, seq<Call>) {
    if !env.readBuffer || (info.useBase64 && !env.b64Buffer) then (EspNoMem, [])
    else if env.start.Some? && env.start.value != EspOk then (env.start.value, [StartCb])
    else
      var began := if env.start.Some? then [StartCb] else [];
      var loop := Chunks(info, env, 0);
      var ended := if env.end.Some? then [EndCb] else [];
      var err := if loop.0 == EspOk && env.end.Some? && env.end.value != EspOk then env.end.value else loop.0;
      if err == EspOk then (env.erase, began + loop.1 + ended + [Erase])
      else (err, began + loop.1 + ended)
  }

  /** `coredump_upload(cbs, info)`: a NULL `info` is computed with the default chunk size and no Base64. */
  function UploadRun(info: Option<Info>, env: Env): (EspErr, seq<Call>) {
    if !env.hasWrite then (EspInvalidArg, [])
    else if info.Some? then Transfer(info.value, env)
    else if InfoErr(env.image) != EspOk then (InfoErr(env.image), [])
    else Transfer(InfoFor(env.image, 0, false), env)
  }

  /** The layout `get_info` produces never has a last chunk longer than the read buffer. */
  lemma LastFitsBuffer(image: Image, desired: Size, useBase64: bool)
    ensures InfoFor(image, desired, useBase64).lastChunkSize <= InfoFor(image, desired, useBase64).chunkSize
  {
    if image.err == EspOk && image.size != 0 {
      ChunkSizeRules(desired, useBase64);
    }
  }

  /**
   * `coredump_upload`. The read buffer holds `chunk_size` bytes, so an
   * `info` whose last chunk is longer would overflow it; `get_info` never
   * produces one.
   */
  method Upload(info: Option<Info>, env: Env) returns (err: EspErr, calls: seq<Call>)
    requires info.Some? ==> info.value.lastChunkSize <= info.value.chunkSize
    ensures (err, calls) == UploadRun(info, env)
  {
    if !env.hasWrite {
      return EspInvalidArg, [];
    }
    var local: Info;
    if info.None? {
      var out := new InfoOut();
      var infoErr := GetInfo(out, env.image, 0, false);
      if infoErr != EspOk {
        return infoErr, [];
      }
      local := out.info;
    } else {
      local := info.value;
    }
    err, calls := RunTransfer(local, env);
  }

  /** The part of `coredump_upload` after `info` is known: buffers, `start`, the chunk loop, `end` and the erase. */
  method RunTransfer(info: Info, env: Env) returns (err: EspErr, calls: seq<Call>)
    ensures (err, calls) == Transfer(info, env)
  {
    if !env.readBuffer || (info.useBase64 && !env.b64Buffer) {
      return EspNoMem, [];
    }
    calls := [];
    if env.start.Some? {
      calls := [StartCb];
      if env.start.value != EspOk {
        return env.start.value, calls;
      }
    }
    var sent;
    err, sent := RunChunks(info, env);
    ghost var began := calls;
    calls := calls + sent;
    if env.end.Some? {
      calls := calls + [EndCb];
      if err == EspOk && env.end.value != EspOk {
        err := env.end.value;
      }
    }
    ghost var ended := if env.end.Some? then [EndCb] else [];
    assert calls == began + sent + ended;
    if err == EspOk {
      calls := calls + [Erase];
      err := env.erase;
    }
  }

  /** The chunk loop: one pass per chunk, leaving at the first call that fails. */
  method RunChunks(info: Info, env: Env) returns (err: EspErr, sent: seq<Call>)
    ensures (err, sent) == Chunks(info, env, 0)
  {
    var capacity := Capacity(info);
    sent := [];
    err := EspOk;
    var k: nat := 0;
    ghost var whole := Chunks(info, env, 0);
    assert sent + whole.1 == whole.1;
    assert whole == (whole.0, whole.1);
    while k < info.chunkCount
      invariant k <= info.chunkCount && err == EspOk
      invariant Chunks(info, env, 0) == (Chunks(info, env, k).0, sent + Chunks(info, env, k).1)
    {
      var pass;
      err, pass := Pass(info, env, k, capacity);
      ghost var rest := Chunks(info, env, k + 1);
      if err != EspOk {
        sent := sent + pass;
        break;
      }
      assert Chunks(info, env, k) == (rest.0, pass + rest.1);
      assert sent + (pass + rest.1) == (sent + pass) + rest.1;
      sent := sent + pass;
      k := k + 1;
    }
    if err == EspOk {
      assert sent + Chunks(info, env, k).1 == sent;
    }
  }

  /** One pass of the loop body for chunk k, with the Base64 buffer of `capacity` bytes. */
  method Pass(info: Info, env: Env, k: nat, capacity: Size) returns (err: EspErr, pass: seq<Call>)
    requires capacity == Capacity(info)
    ensures (err, pass) == ChunkStep(info, env, k)
  {
    var len := if k == info.chunkCount - 1 then info.lastChunkSize else info.chunkSize;
    var addr := Wrap(info.flashAddr + Wrap(k * info.chunkSize));
    pass := [Read(addr, len)];
    err := FlashRead(env, k, addr, len);
    if err != EspOk {
      return;
    }
    var data := env.flash[addr..addr + len];
    if info.useBase64 {
      if Base64.EncodedSize(len) + 1 > capacity {
        return EspFail, pass;
      }
      data := Base64.Encode(data);
    }
    pass := pass + [WriteCb(data)];
    err := Answer(env.writeFails, k);
    if err != EspOk {
      return;
    }
    if env.progress {
      pass := pass + [ProgressCb(k, |data|)];
      err := Answer(env.progressFails, k);
    }
  }
}
