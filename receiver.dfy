/**
 * The assembler of the component MQTT receiver: one session per MAC, a
 * metadata message that never cuts short a transfer in progress, and a
 * session marked completed before its dump is written, so each announced
 * dump is written at most once.
 */
module Receiver {
  import opened Wrappers
  import opened Session
  import opened Ingest
  import Sets

  /** `start_session`: refused while an uncompleted session exists, otherwise a fresh session replaces any old one. */
  function Started(v: Sessions, mac: string, n: int, now: real): (bool, Sessions) {
    if mac in v && !v[mac].completed then (false, v) else (true, v[mac := Fresh(mac, n, now)])
  }

  /**
   * What `add_part` returns once the part is stored in the open session `s`:
   * `is_complete` and `assemble` may raise, and `writeOk` says whether writing
   * the blob to `path` succeeds.
   */
  function Settled(s: SessionView, path: string, writeOk: bool): Outcome {
    match IsComplete(s)
    case None => Raised
    case Some(false) => Pending
    case Some(true) =>
      match Assembled(s.parts, s.expected)
      case None => Raised
      case Some(blob) => if writeOk then Written(path, blob) else WriteFailed
  }

  /**
   * `add_part(mac, index, data)`. The session is marked completed as soon as
   * its parts are complete, before the blob is assembled and written, so a
   * failed write leaves it completed.
   */
  function AfterPart(v: Sessions, mac: string, index: int, data: seq<byte>, path: string, writeOk: bool): (Outcome, Sessions) {
    if mac !in v then (NoSession, v)
    else if v[mac].completed then (Rejected, v)
    else
      var s := WithPart(v, mac, index, data);
      (Settled(s, path, writeOk), v[mac := s.(completed := IsComplete(s) == Some(true))])
  }

  /** A part changes at most its own session: it stores the part, and perhaps marks the session completed. */
  lemma AfterPartShape(v: Sessions, mac: string, index: int, data: seq<byte>, path: string, writeOk: bool)
    ensures var w := AfterPart(v, mac, index, data, path, writeOk).1;
      || w == v
      || (mac in v && !v[mac].completed &&
          (w == v[mac := WithPart(v, mac, index, data)] || w == v[mac := WithPart(v, mac, index, data).(completed := true)]))
  {
    if mac in v && !v[mac].completed {
      var s := WithPart(v, mac, index, data);
      assert s.(completed := false) == s;
    }
  }

  /** A part that does not complete its open session leaves the dump pending. */
  lemma AfterPartPending(v: Sessions, mac: string, index: int, data: seq<byte>, path: string, writeOk: bool)
    requires mac in v && !v[mac].completed
    requires CompleteOf(WithPart(v, mac, index, data).parts, v[mac].expected) == Some(false)
    ensures AfterPart(v, mac, index, data, path, writeOk) == (Pending, v[mac := WithPart(v, mac, index, data)])
  {
    var s := WithPart(v, mac, index, data);
    assert s.(completed := false) == s;
  }

  /** A part that completes its open session writes the assembled blob. */
  lemma AfterPartCompletes(v: Sessions, mac: string, index: int, data: seq<byte>, path: string, blob: seq<byte>)
    requires mac in v && !v[mac].completed
    requires CompleteOf(WithPart(v, mac, index, data).parts, v[mac].expected) == Some(true)
    requires Assembled(WithPart(v, mac, index, data).parts, v[mac].expected) == Some(blob)
    ensures AfterPart(v, mac, index, data, path, true) ==
      (Written(path, blob), v[mac := WithPart(v, mac, index, data).(completed := true)])
  {
  }

  /**
   * A part writes a dump exactly when its session is open, the part completes
   * it and the write succeeds; the dump is the assembled parts, numbered from
   * 0 or 1, and the session is then completed. Other sessions never change.
   */
  lemma WrittenIff(v: Sessions, mac: string, index: int, data: seq<byte>, path: string, writeOk: bool)
    ensures var (r, w) := AfterPart(v, mac, index, data, path, writeOk);
      && (r.Written? <==>
        mac in v && !v[mac].completed && writeOk &&
        CompleteOf(Stored(v[mac].parts, v[mac].expected, index, data), v[mac].expected) == Some(true))
      && (r.Written? ==>
        var parts := Stored(v[mac].parts, v[mac].expected, index, data);
        && r.path == path
        && Assembled(parts, v[mac].expected) == Some(r.blob)
        && (parts.Keys == Range(0, v[mac].expected) || parts.Keys == Range(1, v[mac].expected + 1))
        && w[mac] == v[mac].(parts := parts, completed := true))
      && w.Keys == v.Keys
      && (forall m | m in v && m != mac :: w[m] == v[m])
  {
    if mac in v && !v[mac].completed {
      var parts := Stored(v[mac].parts, v[mac].expected, index, data);
      if CompleteOf(parts, v[mac].expected) == Some(true) {
        AssembledComplete(parts, v[mac].expected);
        CompleteIff(parts, v[mac].expected);
      }
    }
  }

  /** One part message of a transfer, with the write's file name and success. */
  datatype PartMsg = PartMsg(index: int, data: seq<byte>, path: string, writeOk: bool)

  /** The outcomes of a run of part messages for one MAC, and the sessions after it. */
  function PartRun(v: Sessions, mac: string, msgs: seq<PartMsg>): (r: (seq<Outcome>, Sessions))
    ensures |r.0| == |msgs|
    decreases |msgs|
  {
    if |msgs| == 0 then ([], v)
    else
      var step := AfterPart(v, mac, msgs[0].index, msgs[0].data, msgs[0].path, msgs[0].writeOk);
      var rest := PartRun(step.1, mac, msgs[1..]);
      ([step.0] + rest.0, rest.1)
  }

  /** How many outcomes wrote a dump. */
  function Writes(os: seq<Outcome>): nat
    decreases |os|
  {
    if |os| == 0 then 0 else (if os[0].Written? then 1 else 0) + Writes(os[1..])
  }

  /** A completed session turns every later part away and stays as it is. */
  lemma {:induction false} CompletedIsFinal(v: Sessions, mac: string, msgs: seq<PartMsg>)
    requires mac in v && v[mac].completed
    ensures Writes(PartRun(v, mac, msgs).0) == 0
    ensures PartRun(v, mac, msgs).1 == v
    ensures forall i | 0 <= i < |msgs| :: PartRun(v, mac, msgs).0[i] == Rejected
    decreases |msgs|
  {
    if |msgs| > 0 {
      CompletedIsFinal(v, mac, msgs[1..]);
    }
  }

  /**
   * Duplicate protection: however the parts of one session arrive, repeat or
   * fail, at most one dump is written, and none for a session already completed.
   */
  lemma {:induction false} AtMostOneWrite(v: Sessions, mac: string, msgs: seq<PartMsg>)
    ensures Writes(PartRun(v, mac, msgs).0) <= 1
    ensures mac in v && v[mac].completed ==> Writes(PartRun(v, mac, msgs).0) == 0
    decreases |msgs|
  {
    if mac in v && v[mac].completed {
      CompletedIsFinal(v, mac, msgs);
    } else if |msgs| > 0 {
      var (o, w) := AfterPart(v, mac, msgs[0].index, msgs[0].data, msgs[0].path, msgs[0].writeOk);
      AtMostOneWrite(w, mac, msgs[1..]);
      if o.Written? {
        WrittenIff(v, mac, msgs[0].index, msgs[0].data, msgs[0].path, msgs[0].writeOk);
        CompletedIsFinal(w, mac, msgs[1..]);
      }
    }
  }

  /**
   * A failed write loses the dump for good: the session stays completed, so
   * every later part of it is turned away and nothing is written.
   */
  lemma WriteFailureIsFinal(v: Sessions, mac: string, index: int, data: seq<byte>, path: string, msgs: seq<PartMsg>)
    requires AfterPart(v, mac, index, data, path, false).0 == WriteFailed
    ensures var w := AfterPart(v, mac, index, data, path, false).1;
      mac in w && w[mac].completed && Writes(PartRun(w, mac, msgs).0) == 0
  {
    var w := AfterPart(v, mac, index, data, path, false).1;
    assert mac in w && w[mac].completed;
    CompletedIsFinal(w, mac, msgs);
  }

  /** Parts lo+1..N of a transfer numbered from 1: part i carries chunk i - 1 and is written to `path`. */
  function Numbering(chunks: seq<seq<byte>>, path: string, lo: int): (r: seq<PartMsg>)
    requires 0 <= lo <= |chunks|
    ensures |r| == |chunks| - lo
    ensures forall i | 0 <= i < |r| :: r[i] == PartMsg(lo + i + 1, chunks[lo + i], path, true)
  {
    seq(|chunks| - lo, i requires 0 <= i < |chunks| - lo => PartMsg(lo + i + 1, chunks[lo + i], path, true))
  }

  /** `count` outcomes that each leave the dump pending. */
  function Pendings(count: nat): (r: seq<Outcome>)
    ensures |r| == count
  {
    if count == 0 then [] else [Pending] + Pendings(count - 1)
  }

  /** A numbered transfer of the chunks under `mac` that has delivered parts 1..k so far. */
  predicate Midway(v: Sessions, mac: string, chunks: seq<seq<byte>>, k: int) {
    0 <= k < |chunks| && mac in v && v[mac].expected == |chunks| && !v[mac].completed && v[mac].parts == Numbered(chunks, k)
  }

  /** Parts 1..k are in; part k + 1 adds chunk k. */
  lemma NextPart(v: Sessions, mac: string, chunks: seq<seq<byte>>, k: int)
    requires 0 <= k < |chunks|
    requires mac in v && v[mac].expected == |chunks| && v[mac].parts == Numbered(chunks, k)
    ensures WithPart(v, mac, k + 1, chunks[k]).parts == Numbered(chunks, k + 1)
    ensures |Numbered(chunks, k + 1)| == k + 1
  {
    NumberedShape(chunks, k);
    NumberedShape(chunks, k + 1);
    assert k + 1 !in v[mac].parts && InRange(|chunks|, k + 1);
  }

  /** A run is its first message followed by the rest. */
  lemma PartRunCons(v: Sessions, mac: string, msgs: seq<PartMsg>)
    requires |msgs| > 0
    ensures var step := AfterPart(v, mac, msgs[0].index, msgs[0].data, msgs[0].path, msgs[0].writeOk);
      PartRun(v, mac, msgs).0 == [step.0] + PartRun(step.1, mac, msgs[1..]).0
  {
  }

  /** The last part completes the transfer and writes every chunk in order. */
  lemma TransferLast(v: Sessions, mac: string, chunks: seq<seq<byte>>, path: string)
    requires |chunks| >= 1 && Midway(v, mac, chunks, |chunks| - 1)
    ensures PartRun(v, mac, Numbering(chunks, path, |chunks| - 1)).0 == [Written(path, Flatten(chunks))]
  {
    var k := |chunks| - 1;
    NumberingCons(chunks, path, k);
    assert Numbering(chunks, path, k + 1) == [];
    NextPart(v, mac, chunks, k);
    AssembledNumbered(chunks);
    AfterPartCompletes(v, mac, k + 1, chunks[k], path, Flatten(chunks));
    PartRunCons(v, mac, Numbering(chunks, path, k));
  }

  lemma NumberingCons(chunks: seq<seq<byte>>, path: string, k: int)
    requires 0 <= k < |chunks|
    ensures var msgs := Numbering(chunks, path, k);
      |msgs| > 0 && msgs[0] == PartMsg(k + 1, chunks[k], path, true) && msgs[1..] == Numbering(chunks, path, k + 1)
  {
    var msgs := Numbering(chunks, path, k);
    assert msgs[0] == PartMsg(k + 1, chunks[k], path, true);
    forall i | 0 <= i < |msgs| - 1
      ensures msgs[1..][i] == Numbering(chunks, path, k + 1)[i]
    {
      assert msgs[1..][i] == msgs[i + 1];
    }
  }

  /** The session of a numbered transfer after parts 1..k. */
  function After(v: Sessions, mac: string, chunks: seq<seq<byte>>, k: int): Sessions
    requires mac in v && 0 <= k <= |chunks|
  {
    v[mac := v[mac].(parts := Numbered(chunks, k))]
  }

  /** A part before the last one leaves the dump pending and adds its chunk. */
  lemma TransferStep(v: Sessions, mac: string, chunks: seq<seq<byte>>, path: string, k: int)
    requires k < |chunks| - 1 && Midway(v, mac, chunks, k)
    ensures PartRun(v, mac, Numbering(chunks, path, k)).0 ==
      [Pending] + PartRun(After(v, mac, chunks, k + 1), mac, Numbering(chunks, path, k + 1)).0
    ensures Midway(After(v, mac, chunks, k + 1), mac, chunks, k + 1)
  {
    NumberingCons(chunks, path, k);
    NextPart(v, mac, chunks, k);
    PartRunCons(v, mac, Numbering(chunks, path, k));
    AfterPartPending(v, mac, k + 1, chunks[k], path, true);
  }

  /** One more pending outcome in front. */
  lemma PendingFront(x: seq<Outcome>, y: seq<Outcome>, count: nat, last: Outcome)
    requires count >= 1 && x == [Pending] + y && y == Pendings(count - 1) + [last]
    ensures x == Pendings(count) + [last]
  {
    assert Pendings(count) == [Pending] + Pendings(count - 1);
  }

  lemma {:induction false} TransferSuffix(v: Sessions, mac: string, chunks: seq<seq<byte>>, path: string, k: int, last: Outcome)
    requires Midway(v, mac, chunks, k)
    requires last == Written(path, Flatten(chunks))
    ensures PartRun(v, mac, Numbering(chunks, path, k)).0 == Pendings(|chunks| - 1 - k) + [last]
    decreases |chunks| - k
  {
    if k + 1 == |chunks| {
      TransferLast(v, mac, chunks, path);
      assert Pendings(0) + [last] == [last];
    } else {
      var w := After(v, mac, chunks, k + 1);
      TransferStep(v, mac, chunks, path, k);
      TransferSuffix(w, mac, chunks, path, k + 1, last);
      var x := PartRun(v, mac, Numbering(chunks, path, k)).0;
      var y := PartRun(w, mac, Numbering(chunks, path, k + 1)).0;
      var n: nat := |chunks| - 1 - k;
      assert y == Pendings(n - 1) + [last];
      PendingFront(x, y, n, last);
    }
  }

  /**
   * The firmware's transfer end to end: after `{"parts": N}`, parts 1..N in
   * order leave the dump pending N - 1 times and then write exactly the
   * concatenation of the chunks.
   */
  lemma DeliveredInOrder(v: Sessions, mac: string, chunks: seq<seq<byte>>, now: real, path: string)
    requires |chunks| >= 1
    requires mac !in v || v[mac].completed
    ensures var (created, w) := Started(v, mac, |chunks|, now);
      && created
      && PartRun(w, mac, Numbering(chunks, path, 0)).0 == Pendings(|chunks| - 1) + [Written(path, Flatten(chunks))]
  {
    var (created, w) := Started(v, mac, |chunks|, now);
    assert Midway(w, mac, chunks, 0);
    TransferSuffix(w, mac, chunks, path, 0, Written(path, Flatten(chunks)));
  }

  /** One event the assembler sees: metadata, a part, or a sweep of the cleanup thread. */
  datatype Event =
    | StartEv(mac: string, n: int, now: real)
    | PartEv(mac: string, msg: PartMsg)
    | SweepEv(olderThan: real, now: real)

  function Step(v: Sessions, e: Event): Sessions {
    match e
    case StartEv(mac, n, now) => Started(v, mac, n, now).1
    case PartEv(mac, p) => AfterPart(v, mac, p.index, p.data, p.path, p.writeOk).1
    case SweepEv(olderThan, now) => Swept(v, olderThan, now)
  }

  /** Every event keeps each session under its own MAC with in-range indices only. */
  lemma StepKeepsWellFormed(v: Sessions, e: Event)
    requires WellFormed(v)
    ensures WellFormed(Step(v, e))
  {
    match e
    case StartEv(mac, n, now) =>
      var w := Started(v, mac, n, now).1;
      assert w == v || w == v[mac := Fresh(mac, n, now)];
      Replaced(v, mac, Fresh(mac, n, now));
    case PartEv(mac, p) =>
      AfterPartShape(v, mac, p.index, p.data, p.path, p.writeOk);
      if mac in v {
        var s := WithPart(v, mac, p.index, p.data);
        assert forall k | k in s.parts :: InRange(s.expected, k);
        Replaced(v, mac, s);
        Replaced(v, mac, s.(completed := true));
      }
    case SweepEv(olderThan, now) =>
      SweptExactly(v, olderThan, now);
  }

  /** Putting a well-formed session under its own MAC keeps the sessions well formed. */
  lemma Replaced(v: Sessions, mac: string, s: SessionView)
    requires WellFormed(v) && s.mac == mac && forall k | k in s.parts :: InRange(s.expected, k)
    ensures WellFormed(v[mac := s])
  {
  }

  /**
   * No event loses a part of an open transfer: while the session under a MAC
   * stays open and is not swept, its announced count and received parts are
   * kept and only grow.
   */
  lemma OpenSessionOnlyGrows(v: Sessions, e: Event, mac: string)
    requires mac in v && !v[mac].completed && mac in Step(v, e)
    ensures Step(v, e)[mac].expected == v[mac].expected
    ensures Step(v, e)[mac].start == v[mac].start
    ensures v[mac].parts.Keys <= Step(v, e)[mac].parts.Keys
    ensures forall k | k in v[mac].parts :: Step(v, e)[mac].parts[k] == v[mac].parts[k]
  {
    match e
    case StartEv(m, n, now) =>
    case PartEv(m, p) =>
      AfterPartShape(v, m, p.index, p.data, p.path, p.writeOk);
    case SweepEv(olderThan, now) =>
      SweptExactly(v, olderThan, now);
  }

  /** `_Assembler`: the sessions by MAC, each updated in place. */
  class Assembler {
    var sessions: map<string, CoreDumpSession>

    /** Each session object sits under its own MAC, so distinct keys hold distinct objects. */
    ghost predicate Valid()
      reads this
    {
      forall m | m in sessions :: sessions[m].mac == m
    }

    ghost function View(): Sessions
      reads this, sessions.Values
    {
      map m | m in sessions :: sessions[m].View()
    }

    constructor()
      ensures Valid() && View() == map[]
    {
      sessions := map[];
    }

    method StartSession(mac: string, expectedParts: int, now: real) returns (created: bool)
      requires Valid()
      modifies this
      ensures Valid()
      ensures (created, View()) == Started(old(View()), mac, expectedParts, now)
    {
      if mac in sessions && !sessions[mac].completed {
        return false;
      }
      ghost var v0 := View();
      var s := new CoreDumpSession(mac, expectedParts, now);
      sessions := sessions[mac := s];
      created := true;
      forall m | m in sessions
        ensures sessions[m].View() == v0[mac := Fresh(mac, expectedParts, now)][m]
      {
        if m != mac {
          assert sessions[m] == old(sessions)[m];
        }
      }
      assert View().Keys == v0.Keys + {mac};
      assert View() == v0[mac := Fresh(mac, expectedParts, now)];
    }

    method AddPart(mac: string, index: int, data: seq<byte>, path: string, writeOk: bool) returns (r: Outcome)
      requires Valid()
      modifies sessions.Values
      ensures Valid() && sessions == old(sessions)
      ensures (r, View()) == AfterPart(old(View()), mac, index, data, path, writeOk)
    {
      if mac !in sessions {
        return NoSession;
      }
      var sess := sessions[mac];
      if sess.completed {
        return Rejected;
      }
      ghost var v0 := View();
      sess.AddPart(index, data);
      ghost var s := WithPart(v0, mac, index, data);
      assert sess.View() == s;
      var complete := sess.Complete();
      if complete == Some(true) {
        sess.completed := true;
        var blob := sess.Assemble();
        r := if blob.None? then Raised else if !writeOk then WriteFailed else Written(path, blob.value);
      } else {
        r := if complete.None? then Raised else Pending;
      }
      assert r == Settled(s, path, writeOk);
      assert sess.View() == s.(completed := IsComplete(s) == Some(true));
      forall m | m in sessions && m != mac
        ensures sessions[m].View() == old(sessions[m].View())
      {
        var o := sessions[m];
        assert o.mac == m && o != sess;
        assert o.parts == old(o.parts) && o.completed == old(o.completed);
      }
      OnlyOneChanged(mac);
    }

    /** When only the session under `mac` changed, the view changed only there. */
    twostate lemma OnlyOneChanged(mac: string)
      requires old(Valid()) && sessions == old(sessions) && mac in sessions
      requires forall m | m in sessions && m != mac :: sessions[m].View() == old(sessions[m].View())
      ensures View() == old(View())[mac := sessions[mac].View()]
    {
      assert View().Keys == old(View()).Keys;
    }

    /** `cleanup(older_than)` with the clock reading `now`: collect the stale MACs, then delete them one by one. */
    method Cleanup(olderThan: real, now: real)
      requires Valid()
      modifies this
      ensures Valid()
      ensures View() == Swept(old(View()), olderThan, now)
    {
      ghost var v0 := View();
      var stale := set m | m in sessions && now - sessions[m].startTime > olderThan && !sessions[m].completed;
      ghost var before := sessions;
      var remaining := stale;
      ghost var done: set<string> := {};
      while remaining != {}
        invariant remaining <= stale && done == stale - remaining
        invariant sessions == before - done
        decreases |remaining|
      {
        var m := PickMac(remaining);
        Sets.MovedOne(stale, remaining, done, m);
        Sets.DroppedMore(before, done, m);
        sessions := sessions - {m};
        remaining := remaining - {m};
        done := done + {m};
      }
      Sets.AllMoved(stale, done);
      SweptExactly(v0, olderThan, now);
      ghost var w := Swept(v0, olderThan, now);
      forall m | m in sessions
        ensures m in w && sessions[m].View() == w[m]
      {
        assert sessions[m] == before[m];
      }
      forall m | m in w
        ensures m in sessions
      {
      }
      assert View().Keys == w.Keys;
    }
  }

  method PickMac(s: set<string>) returns (m: string)
    requires s != {}
    ensures m in s
  {
    m :| m in s;
  }
}
