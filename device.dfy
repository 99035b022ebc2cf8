/**
 * The application side of the firmware: the MQTT callbacks that
 * `coredump_upload` drives, the topic the dump is published under, and the
 * boot-time check that starts an upload. `publish_message` is described by
 * whether the MQTT client accepts each message; every call the callbacks make
 * to it is recorded, in order.
 */
module Device {
  import opened Wrappers
  import opened UploadInfo
  import opened Upload
  import UploadProps
  import Text
  import Ingest
  import Session

  /** The MAC address the firmware puts in its topic (the eFuse lookup is commented out). */
  const Mac: seq<byte> := [0x16, 0x03, 0x25, 0x22, 0x07, 0x02]

  /** The largest C `int`. */
  const IntMax: int := 0x7FFF_FFFF

  /** The conversion of a `size_t` to a 32-bit `int`, as GCC performs it (modulo 2^32). */
  function IntOf(n: Size): int {
    if n <= IntMax then n else n - SizeMax
  }

  /** `%02x:%02x:%02x:%02x:%02x:%02x`: each byte as two hexadecimal digits, separated by ':'. */
  function MacText(mac: seq<byte>): string
    requires |mac| >= 1
    decreases |mac|
  {
    if |mac| == 1 then Text.Hex2(mac[0]) else Text.Hex2(mac[0]) + ":" + MacText(mac[1..])
  }

  /** `coredump/` followed by the MAC. */
  function DeviceTopic(mac: seq<byte>): string
    requires |mac| == 6
  {
    "coredump/" + MacText(mac)
  }

  /** `"%s/%d"`: the topic of one part. */
  function PartTopic(topic: string, count: int): string {
    topic + "/" + Text.IntToString(count)
  }

  /** `{"parts":%d}`: the message that announces a dump. */
  function StartText(quantity: int): string {
    "{\"parts\":" + Text.IntToString(quantity) + "}"
  }

  predicate IsLowerHex(c: char) {
    '0' <= c <= '9' || 'a' <= c <= 'f'
  }

  /** Two-digit lower-case hexadecimal numbers separated by ':'. */
  predicate MacShaped(s: string)
    decreases |s|
  {
    && |s| >= 2 && IsLowerHex(s[0]) && IsLowerHex(s[1])
    && (|s| == 2 || (|s| >= 3 && s[2] == ':' && MacShaped(s[3..])))
  }

  /** The byte two hexadecimal digits stand for. */
  function HexByte(hi: char, lo: char): byte {
    (16 * Text.HexValue(hi) + Text.HexValue(lo)) as byte
  }

  /** The bytes written in a MAC text. */
  function ParseMac(s: string): (mac: seq<byte>)
    requires |s| >= 2
    decreases |s|
  {
    [HexByte(s[0], s[1])] + if |s| >= 5 then ParseMac(s[3..]) else []
  }

  lemma Hex2Lower(b: byte)
    ensures IsLowerHex(Text.Hex2(b)[0]) && IsLowerHex(Text.Hex2(b)[1])
  {
    var digits := "0123456789abcdef";
    assert forall d | 0 <= d < 16 :: IsLowerHex(digits[d]);
  }

  /** The MAC text has the shape of the format, no '/', and gives the bytes back. */
  lemma {:induction false} MacTextFormat(mac: seq<byte>)
    requires |mac| >= 1
    ensures |MacText(mac)| == 3 * |mac| - 1
    ensures MacShaped(MacText(mac))
    ensures ParseMac(MacText(mac)) == mac
    ensures '/' !in MacText(mac)
    decreases |mac|
  {
    var t := MacText(mac);
    var h := Text.Hex2(mac[0]);
    Hex2Lower(mac[0]);
    assert t[0] == h[0] && t[1] == h[1];
    assert HexByte(h[0], h[1]) == mac[0];
    if |mac| == 1 {
      assert mac == [mac[0]];
    } else {
      var rest := MacText(mac[1..]);
      MacTextFormat(mac[1..]);
      assert t == h + ":" + rest;
      assert t[2] == ':' && t[3..] == rest;
      assert ParseMac(t) == [mac[0]] + mac[1..];
      assert mac == [mac[0]] + mac[1..];
      forall i | 0 <= i < |t|
        ensures t[i] != '/'
      {
        if i >= 3 {
          assert t[i] == rest[i - 3];
        }
      }
    }
  }

  /**
   * The device topic is `coredump/` followed by the six bytes of the MAC as
   * two lower-case hexadecimal digits each, separated by ':', and the MAC can
   * be read back from it.
   */
  lemma TopicFormat(mac: seq<byte>)
    requires |mac| == 6
    ensures |DeviceTopic(mac)| == 26
    ensures DeviceTopic(mac)[..9] == "coredump/" && DeviceTopic(mac)[9..] == MacText(mac)
    ensures MacShaped(DeviceTopic(mac)[9..])
    ensures ParseMac(DeviceTopic(mac)[9..]) == mac
    ensures '/' !in DeviceTopic(mac)[9..]
  {
    MacTextFormat(mac);
  }

  /**
   * The backend routes the device topic to a session of the MAC and each part
   * topic to that session with the part's number.
   */
  lemma TopicsRoute(mac: seq<byte>, count: int, meta: Option<int>)
    requires |mac| == 6
    ensures Ingest.Route(Ingest.DefaultBase, DeviceTopic(mac), meta) ==
      if meta.Some? && meta.value > 0 then Ingest.Start(MacText(mac), meta.value) else Ingest.Ignored
    ensures Ingest.Route(Ingest.DefaultBase, PartTopic(DeviceTopic(mac), count), meta) == Ingest.Part(MacText(mac), count)
  {
    MacTextFormat(mac);
    RoutesUnder(MacText(mac), count, meta);
  }

  lemma RoutesUnder(m: string, count: int, meta: Option<int>)
    requires '/' !in m
    ensures Ingest.Route(Ingest.DefaultBase, "coredump/" + m, meta) ==
      if meta.Some? && meta.value > 0 then Ingest.Start(m, meta.value) else Ingest.Ignored
    ensures Ingest.Route(Ingest.DefaultBase, PartTopic("coredump/" + m, count), meta) == Ingest.Part(m, count)
  {
    assert "coredump/" + m == Ingest.DefaultBase + "/" + m;
    Ingest.RouteMeta(Ingest.DefaultBase, m, meta);
    Ingest.RoutePart(Ingest.DefaultBase, m, count, meta);
  }

  function Pow10(d: nat): nat {
    if d == 0 then 1 else 10 * Pow10(d - 1)
  }

  /** A number below 10^d has at most d digits. */
  lemma {:induction false} DigitsAtMost(n: nat, d: nat)
    requires 1 <= d && n < Pow10(d)
    ensures |Text.NatToString(n)| <= d
  {
    if n >= 10 {
      DigitsAtMost(n / 10, d - 1);
    }
  }

  /**
   * `snprintf` never truncates: the device topic fits its 128-byte buffer,
   * every part topic its 150-byte buffer and the start message its 64-byte
   * buffer, each with its NUL, for any count an `int` holds.
   */
  lemma TopicsFit(count: int)
    requires 0 <= count <= IntMax
    ensures |DeviceTopic(Mac)| + 1 <= 128
    ensures |PartTopic(DeviceTopic(Mac), count)| + 1 <= 150
    ensures |StartText(count)| + 1 <= 64
  {
    TopicFormat(Mac);
    assert Pow10(10) == 10_000_000_000;
    DigitsAtMost(count, 10);
  }

  /** One `publish_message` call, and whether the client accepted it. */
  datatype Publication =
    | Meta(topic: string, text: string, accepted: bool)
    | Chunk(topic: string, data: seq<byte>, accepted: bool)

  /** `mqtt_coredump_ctx_t`, reached by the callbacks through `priv`. */
  class CoredumpCtx {
    var topic: string
    var partQuantity: int
    var partCount: int
    /** The messages handed to `publish_message`, in order. */
    var published: seq<Publication>

    /** The context `check_and_upload_coredump` sets up: both counters zero, then the topic. */
    constructor (topic: string)
      ensures this.topic == topic && partQuantity == 0 && partCount == 0 && published == []
    {
      this.topic := topic;
      partQuantity := 0;
      partCount := 0;
      published := [];
    }

    /** `mqtt_coredump_start`: announces the number of parts on the topic and answers OK whatever the publish did. */
    method Start(accepted: bool) returns (err: EspErr)
      modifies this
      ensures err == EspOk
      ensures published == old(published) + [Meta(topic, StartText(partQuantity), accepted)]
      ensures topic == old(topic) && partQuantity == old(partQuantity) && partCount == old(partCount)
    {
      published := published + [Meta(topic, StartText(partQuantity), accepted)];
      err := EspOk;
    }

    /**
     * `mqtt_coredump_write`: the count is raised before the topic is built,
     * so the n-th write goes to `<topic>/<n>`; a refused publish answers
     * ESP_FAIL. Raising an `int` past its largest value would be undefined.
     */
    method Write(data: seq<byte>, accepted: bool) returns (err: EspErr)
      requires partCount < IntMax
      modifies this
      ensures partCount == old(partCount) + 1
      ensures published == old(published) + [Chunk(PartTopic(topic, partCount), data, accepted)]
      ensures err == (if accepted then EspOk else EspFail)
      ensures topic == old(topic) && partQuantity == old(partQuantity)
    {
      partCount := partCount + 1;
      published := published + [Chunk(PartTopic(topic, partCount), data, accepted)];
      if !accepted {
        return EspFail;
      }
      err := EspOk;
    }

    /** `progress_cb` and `mqtt_coredump_end`: they only log, and answer OK. */
    method Progress() returns (err: EspErr)
      ensures err == EspOk
    {
      err := EspOk;
    }

    method End() returns (err: EspErr)
      ensures err == EspOk
    {
      err := EspOk;
    }
  }

  /** What the MQTT client does with the messages: the start message, and the writes (by chunk index) it refuses. */
  datatype Broker = Broker(startAccepted: bool, refused: set<int>)

  /** What the chip answers: the reset reason, the image lookup, the flash, the allocator, the reads and the erase. */
  datatype Board = Board(
    reason: ResetReason, image: Image, flash: seq<byte>, readBuffer: bool, b64Buffer: bool,
    readFails: map<int, EspErr>, erase: EspErr)

  /**
   * The callback table of `check_and_upload_coredump` as the upload sees it:
   * every callback is present, start, progress and end answer OK, and a write
   * answers ESP_FAIL exactly when its publish is refused.
   */
  function CallbackEnv(board: Board, broker: Broker): Env {
    Env(true, Some(EspOk), Some(EspOk), true, board.readFails, map k | k in broker.refused :: EspFail, map[],
      board.flash, board.readBuffer, board.b64Buffer, board.image, board.erase)
  }

  /** The data of the writes in a trace of upload calls. */
  function Writes(calls: seq<Call>): (w: seq<seq<byte>>)
    ensures |w| <= |calls|
  {
    if calls == [] then [] else (if calls[0].WriteCb? then [calls[0].data] else []) + Writes(calls[1..])
  }

  /** What the callbacks publish for a trace of upload calls, when `count` parts were sent before it. */
  function Outbox(topic: string, quantity: int, count: int, calls: seq<Call>, broker: Broker): seq<Publication>
    decreases |calls|
  {
    if calls == [] then []
    else
      Published(topic, quantity, count, calls[0], broker) +
      Outbox(topic, quantity, if calls[0].WriteCb? then count + 1 else count, calls[1..], broker)
  }

  /** What one upload call publishes: the start message for `start`, the next part for `write`, nothing otherwise. */
  function Published(topic: string, quantity: int, count: int, call: Call, broker: Broker): seq<Publication> {
    match call
    case StartCb => [Meta(topic, StartText(quantity), broker.startAccepted)]
    case WriteCb(data) => [Chunk(PartTopic(topic, count + 1), data, count !in broker.refused)]
    case _ => []
  }

  /** Parts count+1.. of a transfer, one per written chunk. */
  function Parts(topic: string, count: int, data: seq<seq<byte>>, refused: set<int>): seq<Publication>
    decreases |data|
  {
    if data == [] then []
    else [Chunk(PartTopic(topic, count + 1), data[0], count !in refused)] + Parts(topic, count + 1, data[1..], refused)
  }

  /** Part i of them carries chunk i under number count + i + 1. */
  lemma {:induction false} PartsAt(topic: string, count: int, data: seq<seq<byte>>, refused: set<int>)
    ensures |Parts(topic, count, data, refused)| == |data|
    ensures forall i | 0 <= i < |data| ::
      Parts(topic, count, data, refused)[i] == Chunk(PartTopic(topic, count + i + 1), data[i], count + i !in refused)
    decreases |data|
  {
    if data != [] {
      PartsAt(topic, count + 1, data[1..], refused);
      var r := Parts(topic, count, data, refused);
      var tail := Parts(topic, count + 1, data[1..], refused);
      assert r == [Chunk(PartTopic(topic, count + 1), data[0], count !in refused)] + tail;
      forall i | 0 <= i < |data|
        ensures r[i] == Chunk(PartTopic(topic, count + i + 1), data[i], count + i !in refused)
      {
        if i == 0 {
          assert count + i + 1 == count + 1 && count + i == count;
        } else {
          PartAfterFirst(r, tail, data, topic, count, refused, i);
        }
      }
    }
  }

  /** A part after the first is the matching part of the rest. */
  lemma PartAfterFirst(r: seq<Publication>, tail: seq<Publication>, data: seq<seq<byte>>, topic: string, count: int, refused: set<int>, i: int)
    requires 1 <= i < |data| && |r| == |data| && r[1..] == tail
    requires |tail| == |data| - 1
    requires forall j | 0 <= j < |data| - 1 ::
      tail[j] == Chunk(PartTopic(topic, count + 1 + j + 1), data[1..][j], count + 1 + j !in refused)
    ensures r[i] == Chunk(PartTopic(topic, count + i + 1), data[i], count + i !in refused)
  {
    var j := i - 1;
    assert r[i] == tail[j];
    assert count + 1 + j + 1 == count + i + 1 && count + 1 + j == count + i;
    assert data[1..][j] == data[i];
  }

  lemma {:induction false} WritesAppend(a: seq<Call>, b: seq<Call>)
    ensures Writes(a + b) == Writes(a) + Writes(b)
  {
    if a != [] {
      assert (a + b)[0] == a[0] && (a + b)[1..] == a[1..] + b;
      WritesAppend(a[1..], b);
    } else {
      assert a + b == b;
    }
  }

  /** Replaying two traces one after the other publishes what each does, the second counting on from the first. */
  lemma {:induction false} OutboxAppend(topic: string, quantity: int, count: int, a: seq<Call>, b: seq<Call>, broker: Broker)
    decreases |a|
    ensures Outbox(topic, quantity, count, a + b, broker) ==
      Outbox(topic, quantity, count, a, broker) + Outbox(topic, quantity, count + |Writes(a)|, b, broker)
  {
    if a != [] {
      assert (a + b)[0] == a[0] && (a + b)[1..] == a[1..] + b;
      var next := if a[0].WriteCb? then count + 1 else count;
      var head := Published(topic, quantity, count, a[0], broker);
      OutboxAppend(topic, quantity, next, a[1..], b, broker);
      assert Outbox(topic, quantity, count, a + b, broker) == head + Outbox(topic, quantity, next, a[1..] + b, broker);
      assert Outbox(topic, quantity, count, a, broker) == head + Outbox(topic, quantity, next, a[1..], broker);
      assert |Writes(a)| == |Writes(a[1..])| + (if a[0].WriteCb? then 1 else 0);
      assert next + |Writes(a[1..])| == count + |Writes(a)|;
    } else {
      assert a + b == b;
    }
  }

  /** Replaying one more call publishes what that call does, counting on from the writes before it. */
  lemma OutboxSnoc(topic: string, quantity: int, count: int, a: seq<Call>, call: Call, broker: Broker)
    ensures Outbox(topic, quantity, count, a + [call], broker) ==
      Outbox(topic, quantity, count, a, broker) + Published(topic, quantity, count + |Writes(a)|, call, broker)
    ensures Writes(a + [call]) == Writes(a) + (if call.WriteCb? then [call.data] else [])
  {
    OutboxAppend(topic, quantity, count, a, [call], broker);
    WritesAppend(a, [call]);
    assert [call][1..] == [];
  }

  /** Call i adds its own publications and write to those of the calls before it. */
  lemma OutboxPrefix(topic: string, quantity: int, count: int, calls: seq<Call>, i: nat, broker: Broker)
    requires i < |calls|
    ensures Outbox(topic, quantity, count, calls[..i + 1], broker) ==
      Outbox(topic, quantity, count, calls[..i], broker) + Published(topic, quantity, count + |Writes(calls[..i])|, calls[i], broker)
    ensures |Writes(calls[..i + 1])| == |Writes(calls[..i])| + (if calls[i].WriteCb? then 1 else 0)
  {
    assert calls[..i + 1] == calls[..i] + [calls[i]];
    OutboxSnoc(topic, quantity, count, calls[..i], calls[i], broker);
  }

  /** The writes among the first i calls, and call i, are among the writes of the whole trace. */
  lemma WritesPrefix(calls: seq<Call>, i: nat)
    requires i < |calls|
    ensures |Writes(calls[..i])| + (if calls[i].WriteCb? then 1 else 0) <= |Writes(calls)|
  {
    assert calls == calls[..i] + calls[i..];
    assert calls[i..] == [calls[i]] + calls[i + 1..];
    WritesAppend(calls[..i], calls[i..]);
    WritesAppend([calls[i]], calls[i + 1..]);
    assert [calls[i]][1..] == [];
  }

  /** The calls of the chunk loop publish the parts, numbered on from `count`, and nothing else. */
  lemma {:induction false} OutboxLoop(topic: string, quantity: int, count: int, calls: seq<Call>, broker: Broker)
    requires UploadProps.LoopCalls(calls)
    ensures Outbox(topic, quantity, count, calls, broker) == Parts(topic, count, Writes(calls), broker.refused)
    decreases |calls|
  {
    if calls != [] {
      var next := if calls[0].WriteCb? then count + 1 else count;
      assert UploadProps.LoopCalls(calls[1..]) by {
        forall i | 0 <= i < |calls| - 1
          ensures calls[1..][i].Read? || calls[1..][i].WriteCb? || calls[1..][i].ProgressCb?
        {
          assert calls[1..][i] == calls[i + 1];
        }
      }
      OutboxLoop(topic, quantity, next, calls[1..], broker);
      var w := Writes(calls);
      if calls[0].WriteCb? {
        assert w == [calls[0].data] + Writes(calls[1..]);
        assert w[0] == calls[0].data && w[1..] == Writes(calls[1..]);
      } else {
        assert calls[0].Read? || calls[0].ProgressCb?;
        assert w == Writes(calls[1..]);
      }
    }
  }

  /** One upload call made against the context. */
  method Apply(ctx: CoredumpCtx, call: Call, broker: Broker)
    requires call.WriteCb? ==> ctx.partCount < IntMax
    modifies ctx
    ensures ctx.published == old(ctx.published) + Published(ctx.topic, ctx.partQuantity, old(ctx.partCount), call, broker)
    ensures ctx.partCount == old(ctx.partCount) + (if call.WriteCb? then 1 else 0)
    ensures ctx.topic == old(ctx.topic) && ctx.partQuantity == old(ctx.partQuantity)
  {
    match call {
      case StartCb =>
        var err := ctx.Start(broker.startAccepted);
      case WriteCb(data) =>
        var err := ctx.Write(data, ctx.partCount !in broker.refused);
      case ProgressCb(_, _) =>
        var err := ctx.Progress();
      case EndCb =>
        var err := ctx.End();
      case Read(_, _) =>
      case Erase =>
    }
  }

  /**
   * `check_and_upload_coredump` from the upload on: the calls the upload
   * makes, replayed against the context, publish what `Outbox` says.
   */
  method Replay(ctx: CoredumpCtx, calls: seq<Call>, broker: Broker)
    requires ctx.partCount + |Writes(calls)| <= IntMax
    modifies ctx
    ensures ctx.published == old(ctx.published) + Outbox(ctx.topic, ctx.partQuantity, old(ctx.partCount), calls, broker)
    ensures ctx.partCount == old(ctx.partCount) + |Writes(calls)|
    ensures ctx.topic == old(ctx.topic) && ctx.partQuantity == old(ctx.partQuantity)
  {
    ghost var topic, quantity, first, start := ctx.topic, ctx.partQuantity, ctx.partCount, ctx.published;
    var i: nat := 0;
    while i < |calls|
      invariant 0 <= i <= |calls|
      invariant ctx.topic == topic && ctx.partQuantity == quantity
      invariant ctx.partCount == first + |Writes(calls[..i])|
      invariant ctx.published == start + Outbox(topic, quantity, first, calls[..i], broker)
    {
      WritesPrefix(calls, i);
      OutboxPrefix(topic, quantity, first, calls, i, broker);
      ghost var before := ctx.published;
      ghost var added := Published(topic, quantity, ctx.partCount, calls[i], broker);
      Apply(ctx, calls[i], broker);
      assert ctx.published == before + added;
      i := i + 1;
    }
    assert calls[..i] == calls;
  }

  /** What `check_and_upload_coredump` ends with: the upload's error (None when none was needed) and the publishes. */
  function CheckRun(board: Board, broker: Broker): (Option<EspErr>, seq<Publication>) {
    if !NeedUpload(board.reason) then (None, [])
    else if InfoErr(board.image) != EspOk then (Some(InfoErr(board.image)), [])
    else
      var info := InfoFor(board.image, 0, true);
      var run := UploadRun(Some(info), CallbackEnv(board, broker));
      (Some(run.0), Outbox(DeviceTopic(Mac), IntOf(info.chunkCount), 0, run.1, broker))
  }

  /** With the default chunk of 768 bytes, the count stays far below the largest `int`. */
  lemma DefaultCount(image: Image)
    ensures InfoFor(image, 0, true).chunkCount < IntMax
    ensures IntOf(InfoFor(image, 0, true).chunkCount) == InfoFor(image, 0, true).chunkCount
  {
    if image.err == EspOk && image.size != 0 {
      assert ChunkSize(0, true) == DefaultChunk;
    }
  }

  /** A pass writes at most once, and exactly once when it ends OK. */
  lemma StepWrites(info: Info, env: Env, k: nat)
    ensures |Writes(ChunkStep(info, env, k).1)| <= 1
    ensures ChunkStep(info, env, k).0 == EspOk ==> |Writes(ChunkStep(info, env, k).1)| == 1
  {
    var step := ChunkStep(info, env, k).1;
    assert step[0].Read?;
    WritesAppend([step[0]], step[1..]);
    assert step == [step[0]] + step[1..];
    if |step| >= 2 {
      assert step[1].WriteCb?;
      WritesAppend([step[1]], step[2..]);
      assert step[1..] == [step[1]] + step[2..];
      if |step| == 3 {
        assert step[2..] == [step[2]] && step[2].ProgressCb?;
      }
    }
  }

  /** The loop from chunk k writes at most once per remaining chunk. */
  lemma {:induction false} ChunksWrites(info: Info, env: Env, k: nat)
    ensures |Writes(Chunks(info, env, k).1)| <= info.chunkCount - k || k >= info.chunkCount
    decreases info.chunkCount - k
  {
    if k < info.chunkCount {
      StepWrites(info, env, k);
      var step := ChunkStep(info, env, k);
      if step.0 == EspOk {
        ChunksWrites(info, env, k + 1);
        WritesAppend(step.1, Chunks(info, env, k + 1).1);
      }
    }
  }

  /** Passes k..n-1 that all end OK write once each. */
  lemma {:induction false} PassesWrites(info: Info, env: Env, k: nat, n: nat)
    requires k <= n && UploadProps.AllPass(info, env, k, n)
    ensures |Writes(UploadProps.Passes(info, env, k, n))| == n - k
    decreases n - k
  {
    if k < n {
      StepWrites(info, env, k);
      PassesWrites(info, env, k + 1, n);
      WritesAppend(ChunkStep(info, env, k).1, UploadProps.Passes(info, env, k + 1, n));
    }
  }

  /**
   * The upload under the device's callbacks: the start message, the loop,
   * `end`, and the erase only after a loop that ended OK.
   */
  lemma DeviceTransfer(info: Info, board: Board, broker: Broker)
    requires board.readBuffer && (!info.useBase64 || board.b64Buffer)
    ensures var env := CallbackEnv(board, broker);
      var loop := Chunks(info, env, 0);
      && Transfer(info, env).0 == (if loop.0 == EspOk then board.erase else loop.0)
      && Transfer(info, env).1 == [StartCb] + loop.1 + [EndCb] + (if loop.0 == EspOk then [Erase] else [])
  {
  }

  /** What a run publishes: the start message, then one part per write, numbered from 1. */
  lemma RunOutbox(topic: string, quantity: int, loop: seq<Call>, tail: seq<Call>, broker: Broker)
    requires UploadProps.LoopCalls(loop) && (tail == [] || tail == [Erase])
    ensures Outbox(topic, quantity, 0, [StartCb] + loop + [EndCb] + tail, broker) ==
      [Meta(topic, StartText(quantity), broker.startAccepted)] + Parts(topic, 0, Writes(loop), broker.refused)
  {
    var a := [StartCb] + loop;
    var b := [EndCb] + tail;
    assert [StartCb] + loop + [EndCb] + tail == a + b;
    OutboxAppend(topic, quantity, 0, a, b, broker);
    OutboxAppend(topic, quantity, 0, [StartCb], loop, broker);
    OutboxLoop(topic, quantity, 0, loop, broker);
    assert Writes([StartCb]) == [];
    assert Outbox(topic, quantity, 0, [StartCb], broker) == [Meta(topic, StartText(quantity), broker.startAccepted)];
    var count := |Writes(a)|;
    if tail != [] {
      assert tail[1..] == [];
    }
    assert Outbox(topic, quantity, count, tail, broker) == [];
    assert b[0] == EndCb && b[1..] == tail;
    assert Outbox(topic, quantity, count, b, broker) == [];
  }

  /** The device's upload writes fewer parts than the largest `int`, so the part counter never overflows. */
  lemma RunWritesBound(board: Board, broker: Broker)
    ensures |Writes(UploadRun(Some(InfoFor(board.image, 0, true)), CallbackEnv(board, broker)).1)| < IntMax
  {
    var info := InfoFor(board.image, 0, true);
    var env := CallbackEnv(board, broker);
    DefaultCount(board.image);
    ChunksWrites(info, env, 0);
    if board.readBuffer && board.b64Buffer {
      DeviceTransfer(info, board, broker);
      var loop := Chunks(info, env, 0);
      var tail := if loop.0 == EspOk then [Erase] else [];
      WritesAppend([StartCb] + loop.1, [EndCb] + tail);
      WritesAppend([StartCb], loop.1);
      assert [StartCb] + loop.1 + [EndCb] + tail == ([StartCb] + loop.1) + ([EndCb] + tail);
      assert Writes([StartCb]) == [];
      assert ([EndCb] + tail)[1..] == tail;
      assert Writes([EndCb] + tail) == [];
    }
  }

  /** `check_and_upload_coredump`. */
  method CheckAndUpload(board: Board, broker: Broker) returns (err: Option<EspErr>, published: seq<Publication>)
    ensures (err, published) == CheckRun(board, broker)
  {
    if !NeedUpload(board.reason) {
      return None, [];
    }
    var ctx := new CoredumpCtx(DeviceTopic(Mac));
    var out := new InfoOut();
    var infoErr := GetInfo(out, board.image, 0, true);
    if infoErr != EspOk {
      return Some(infoErr), [];
    }
    var info := out.info;
    ctx.partQuantity := IntOf(info.chunkCount);
    var env := CallbackEnv(board, broker);
    LastFitsBuffer(board.image, 0, true);
    var upErr, calls := Upload.Upload(Some(info), env);
    RunWritesBound(board, broker);
    Replay(ctx, calls, broker);
    assert ctx.topic == DeviceTopic(Mac) && ctx.partQuantity == IntOf(info.chunkCount);
    assert info == InfoFor(board.image, 0, true);
    assert (upErr, calls) == UploadRun(Some(InfoFor(board.image, 0, true)), CallbackEnv(board, broker));
    published := ctx.published;
    assert published == Outbox(DeviceTopic(Mac), IntOf(info.chunkCount), 0, calls, broker);
    return Some(upErr), published;
  }

  /** What the backend stores for each part after decoding it: `Payload` of each write. */
  function Payloads(data: seq<seq<byte>>, b64: bool): (r: seq<seq<byte>>)
    ensures |r| == |data|
    decreases |data|
  {
    if data == [] then [] else [UploadProps.Payload(data[0], b64)] + Payloads(data[1..], b64)
  }

  /** What the writes of a trace hand over is the concatenation of their payloads. */
  lemma {:induction false} DeliveredWrites(calls: seq<Call>, b64: bool)
    ensures UploadProps.Delivered(calls, b64) == Session.Flatten(Payloads(Writes(calls), b64))
    decreases |calls|
  {
    if calls != [] {
      DeliveredWrites(calls[1..], b64);
      var w := Writes(calls);
      if calls[0].WriteCb? {
        assert w == [calls[0].data] + Writes(calls[1..]);
        assert w[0] == calls[0].data && w[1..] == Writes(calls[1..]);
        var p := Payloads(w, b64);
        assert p[0] == UploadProps.Payload(calls[0].data, b64) && p[1..] == Payloads(Writes(calls[1..]), b64);
      } else {
        assert w == Writes(calls[1..]);
        assert UploadProps.Delivered(calls, b64) == [] + UploadProps.Delivered(calls[1..], b64);
      }
    }
  }

  /**
   * Whatever happens to the chunks, the device publishes the start message
   * first and then one part per write, numbered 1, 2, ... in the order of the
   * writes; the result is the erase answer after a loop that ended OK, and the
   * loop's error otherwise (start and end always answer OK).
   */
  lemma PublishedInOrder(board: Board, broker: Broker)
    requires NeedUpload(board.reason) && InfoErr(board.image) == EspOk && board.readBuffer && board.b64Buffer
    ensures var info := InfoFor(board.image, 0, true);
      var loop := Chunks(info, CallbackEnv(board, broker), 0);
      && CheckRun(board, broker).0 == Some(if loop.0 == EspOk then board.erase else loop.0)
      && CheckRun(board, broker).1 == [Meta(DeviceTopic(Mac), StartText(info.chunkCount), broker.startAccepted)] +
           Parts(DeviceTopic(Mac), 0, Writes(loop.1), broker.refused)
  {
    var info := InfoFor(board.image, 0, true);
    var env := CallbackEnv(board, broker);
    var loop := Chunks(info, env, 0);
    DefaultCount(board.image);
    DeviceTransfer(info, board, broker);
    UploadProps.ChunksCallNoMore(info, env, 0);
    RunOutbox(DeviceTopic(Mac), info.chunkCount, loop.1, if loop.0 == EspOk then [Erase] else [], broker);
  }

  /** The images the device sends whole: found, below the `size_t` wrap, inside the flash, with both buffers. */
  predicate Sendable(board: Board) {
    && NeedUpload(board.reason) && board.image.err == EspOk && board.image.size >= 1
    && board.image.size + DefaultChunk <= SizeMax
    && board.image.addr + board.image.size <= |board.flash| && board.image.addr + board.image.size <= SizeMax
    && board.readBuffer && board.b64Buffer
  }

  /** A sendable image is laid out in Base64 chunks of the default size that tile it inside the flash. */
  lemma SendableLayout(board: Board, broker: Broker)
    requires Sendable(board)
    ensures var info := InfoFor(board.image, 0, true);
      && info.useBase64 && info.chunkSize == DefaultChunk
      && info.flashAddr == board.image.addr && info.totalSize == board.image.size
      && info.chunkCount >= 1 && info.lastChunkSize <= info.chunkSize
      && UploadProps.Fits(info, CallbackEnv(board, broker))
  {
    assert ChunkSize(0, true) == DefaultChunk;
    LayoutTiles(board.image.addr, board.image.size, 0, true);
    assert InfoFor(board.image, 0, true) == Layout(board.image.addr, board.image.size, 0, true);
    assert UploadProps.Encodable(DefaultChunk);
  }

  /** No read fails and no publish is refused before chunk n. */
  predicate Clear(board: Board, broker: Broker, n: int) {
    forall j | 0 <= j < n :: Answer(board.readFails, j) == EspOk && j !in broker.refused
  }

  lemma ClearQuiet(board: Board, broker: Broker, n: int)
    requires Clear(board, broker, n)
    ensures UploadProps.Quiet(CallbackEnv(board, broker), n)
  {
  }

  /** Without failures the loop makes one write per chunk, and decoding the writes in turn gives back the image. */
  lemma WholeLoop(board: Board, broker: Broker)
    requires Sendable(board)
    requires Clear(board, broker, InfoFor(board.image, 0, true).chunkCount)
    ensures var info := InfoFor(board.image, 0, true);
      var loop := Chunks(info, CallbackEnv(board, broker), 0);
      && loop.0 == EspOk
      && |Writes(loop.1)| == info.chunkCount >= 1
      && Session.Flatten(Payloads(Writes(loop.1), true)) == board.flash[board.image.addr..board.image.addr + board.image.size]
  {
    var info := InfoFor(board.image, 0, true);
    var env := CallbackEnv(board, broker);
    ClearQuiet(board, broker, info.chunkCount);
    SendableLayout(board, broker);
    UploadProps.GetInfoDelivers(env, 0, true);
    UploadProps.QuietPasses(info, env, info.chunkCount);
    UploadProps.RunsToEnd(info, env, 0);
    PassesWrites(info, env, 0, info.chunkCount);
    DeliveredWrites(Chunks(info, env, 0).1, true);
  }

  /**
   * A sendable dump without failures reaches the broker whole: the start
   * message announces N parts, parts 1..N follow in order, all accepted, and
   * decoding them in turn gives back the image in flash; the dump is then
   * erased.
   */
  lemma SendsWholeDump(board: Board, broker: Broker)
    requires Sendable(board)
    requires Clear(board, broker, InfoFor(board.image, 0, true).chunkCount)
    ensures var info := InfoFor(board.image, 0, true);
      var data := Writes(Chunks(info, CallbackEnv(board, broker), 0).1);
      var parts := Parts(DeviceTopic(Mac), 0, data, broker.refused);
      && |data| == info.chunkCount >= 1
      && CheckRun(board, broker) ==
           (Some(board.erase), [Meta(DeviceTopic(Mac), StartText(|data|), broker.startAccepted)] + parts)
      && |parts| == |data|
      && (forall i | 0 <= i < |data| :: parts[i] == Chunk(PartTopic(DeviceTopic(Mac), i + 1), data[i], true))
      && Session.Flatten(Payloads(data, true)) == board.flash[board.image.addr..board.image.addr + board.image.size]
  {
    var info := InfoFor(board.image, 0, true);
    var data := Writes(Chunks(info, CallbackEnv(board, broker), 0).1);
    WholeLoop(board, broker);
    InfoErrors(board.image, 0, true);
    PublishedInOrder(board, broker);
    PartsAt(DeviceTopic(Mac), 0, data, broker.refused);
  }

  /** A pass whose read succeeds and whose write is refused ends with the write's answer, after its one write. */
  lemma StepRefused(info: Info, env: Env, k: nat)
    requires Answer(env.readFails, k) == EspOk && Answer(env.writeFails, k) != EspOk
    requires ChunkAddr(info, k) + ChunkLen(info, k) <= |env.flash|
    requires info.useBase64 ==> Base64.EncodedSize(ChunkLen(info, k)) + 1 <= Capacity(info)
    ensures ChunkStep(info, env, k).0 == Answer(env.writeFails, k)
    ensures |Writes(ChunkStep(info, env, k).1)| == 1
  {
    var step := ChunkStep(info, env, k).1;
    assert |step| == 2 && step[0].Read? && step[1].WriteCb?;
    assert step[1..][1..] == [];
  }

  /** The loop when chunk f is the first whose publish is refused: f + 1 writes, ending with ESP_FAIL. */
  lemma RefusedLoop(board: Board, broker: Broker, f: nat)
    requires Sendable(board) && f < InfoFor(board.image, 0, true).chunkCount
    requires Clear(board, broker, f) && Answer(board.readFails, f) == EspOk && f in broker.refused
    ensures var loop := Chunks(InfoFor(board.image, 0, true), CallbackEnv(board, broker), 0);
      loop.0 == EspFail && |Writes(loop.1)| == f + 1
  {
    var info := InfoFor(board.image, 0, true);
    var env := CallbackEnv(board, broker);
    ClearQuiet(board, broker, f);
    SendableLayout(board, broker);
    UploadProps.QuietPasses(info, env, f);
    UploadProps.ChunkBounds(info, f);
    assert ChunkAddr(info, f) + ChunkLen(info, f) <= |env.flash|;
    UploadProps.CapacityFits(info, f);
    assert Answer(env.writeFails, f) == EspFail;
    StepRefused(info, env, f);
    UploadProps.StopsAtFirstFailure(info, env, 0, f);
    PassesWrites(info, env, 0, f);
    WritesAppend(UploadProps.Passes(info, env, 0, f), ChunkStep(info, env, f).1);
  }

  /**
   * A refused publish stops the upload: when part f + 1 is the first the
   * client refuses, parts 1..f are published and accepted, part f + 1 is the
   * last one tried, and the result is ESP_FAIL.
   */
  lemma StopsAtRefusal(board: Board, broker: Broker, f: nat)
    requires Sendable(board) && f < InfoFor(board.image, 0, true).chunkCount
    requires Clear(board, broker, f) && Answer(board.readFails, f) == EspOk && f in broker.refused
    ensures var info := InfoFor(board.image, 0, true);
      var loop := Chunks(info, CallbackEnv(board, broker), 0);
      var parts := Parts(DeviceTopic(Mac), 0, Writes(loop.1), broker.refused);
      && CheckRun(board, broker) ==
           (Some(EspFail), [Meta(DeviceTopic(Mac), StartText(info.chunkCount), broker.startAccepted)] + parts)
      && |parts| == f + 1
      && (forall i | 0 <= i < f :: parts[i].topic == PartTopic(DeviceTopic(Mac), i + 1) && parts[i].accepted)
      && parts[f].topic == PartTopic(DeviceTopic(Mac), f + 1) && !parts[f].accepted
  {
    var info := InfoFor(board.image, 0, true);
    var loop := Chunks(info, CallbackEnv(board, broker), 0);
    var parts := Parts(DeviceTopic(Mac), 0, Writes(loop.1), broker.refused);
    RefusedLoop(board, broker, f);
    InfoErrors(board.image, 0, true);
    PublishedInOrder(board, broker);
    PartsAt(DeviceTopic(Mac), 0, Writes(loop.1), broker.refused);
    forall i | 0 <= i < f
      ensures parts[i].topic == PartTopic(DeviceTopic(Mac), i + 1) && parts[i].accepted
    {
      assert parts[i] == Chunk(PartTopic(DeviceTopic(Mac), i + 1), Writes(loop.1)[i], i !in broker.refused);
    }
    assert parts[f] == Chunk(PartTopic(DeviceTopic(Mac), f + 1), Writes(loop.1)[f], false);
  }

  /** ... and the dump stays in flash: the upload never erases it. */
  lemma RefusalKeepsDump(board: Board, broker: Broker, f: nat)
    requires Sendable(board) && f < InfoFor(board.image, 0, true).chunkCount
    requires Clear(board, broker, f) && Answer(board.readFails, f) == EspOk && f in broker.refused
    ensures Erase !in UploadRun(Some(InfoFor(board.image, 0, true)), CallbackEnv(board, broker)).1
  {
    var info := InfoFor(board.image, 0, true);
    var env := CallbackEnv(board, broker);
    var loop := Chunks(info, env, 0);
    RefusedLoop(board, broker, f);
    DeviceTransfer(info, board, broker);
    UploadProps.ChunksCallNoMore(info, env, 0);
    var t := UploadRun(Some(info), env).1;
    assert t == [StartCb] + loop.1 + [EndCb];
    forall i | 0 <= i < |t|
      ensures t[i] != Erase
    {
      if 1 <= i <= |loop.1| {
        assert t[i] == loop.1[i - 1];
      }
    }
  }
}
