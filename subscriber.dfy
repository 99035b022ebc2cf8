/**
 * The assembler of the standalone MQTT subscriber. It shares the session
 * with the component receiver but differs in three ways: metadata always
 * restarts the session, a part is stored even into a completed session (whose
 * `is_complete` then answers true at once), and the session is marked
 * completed only after its dump was written.
 */
module Subscriber {
  import opened Wrappers
  import opened Session
  import opened Ingest
  import Receiver
  import Sets

  /** `start_session`: a fresh session under the MAC, whatever was there. */
  function Restarted(v: Sessions, mac: string, n: int, now: real): Sessions {
    v[mac := Fresh(mac, n, now)]
  }

  /**
   * What `add_part` makes of a session once the part is stored: a complete
   * session (or one completed before) is assembled and written, and only a
   * successful write marks it completed.
   */
  function Finished(s: SessionView, path: string, writeOk: bool): (Outcome, SessionView) {
    match IsComplete(s)
    case None => (Raised, s)
    case Some(false) => (Pending, s)
    case Some(true) =>
      match Assembled(s.parts, s.expected)
      case None => (Raised, s)
      case Some(blob) => if writeOk then (Written(path, blob), s.(completed := true)) else (WriteFailed, s)
  }

  /** `add_part(mac, index, data)`: the part is stored whether or not the session completed before. */
  function AfterPart(v: Sessions, mac: string, index: int, data: seq<byte>, path: string, writeOk: bool): (Outcome, Sessions) {
    if mac !in v then (NoSession, v)
    else
      var f := Finished(WithPart(v, mac, index, data), path, writeOk);
      (f.0, v[mac := f.1])
  }

  /** On a session that is still open and a write that succeeds, both assemblers take the same step. */
  lemma AgreesWhileOpen(v: Sessions, mac: string, index: int, data: seq<byte>, path: string)
    requires mac in v && !v[mac].completed
    ensures AfterPart(v, mac, index, data, path, true) == Receiver.AfterPart(v, mac, index, data, path, true)
  {
    var s := WithPart(v, mac, index, data);
    if IsComplete(s) == Some(true) {
      AssembledComplete(s.parts, s.expected);
    } else {
      assert s.(completed := false) == s;
    }
  }

  /** A failed write leaves the session open, so a part sent again retries the write of the same dump. */
  lemma WriteFailureRetried(v: Sessions, mac: string, index: int, data: seq<byte>, path: string, again: int, more: seq<byte>)
    requires mac in v && !v[mac].completed
    requires AfterPart(v, mac, index, data, path, false).0 == WriteFailed
    requires again in WithPart(v, mac, index, data).parts
    ensures var w := AfterPart(v, mac, index, data, path, false).1;
      && mac in w && !w[mac].completed
      && AfterPart(w, mac, again, more, path, true).0 ==
         Written(path, Assembled(WithPart(v, mac, index, data).parts, v[mac].expected).value)
  {
    var w := AfterPart(v, mac, index, data, path, false).1;
    assert w[mac] == WithPart(v, mac, index, data);
    assert WithPart(w, mac, again, more) == w[mac];
  }

  /** A completed session, numbered from 0 or from 1, as `add_part` finds it when a part comes late. */
  predicate CompletedAt(v: Sessions, mac: string) {
    && mac in v && v[mac].completed && v[mac].expected >= 1
    && (v[mac].parts.Keys == Range(0, v[mac].expected) || v[mac].parts.Keys == Range(1, v[mac].expected + 1))
  }

  /**
   * After completion the receiver refuses every part, while the subscriber
   * stores it and writes the dump again; unless the late part is a part 0 of a
   * transfer numbered from 1, the dump written is the one written at completion.
   */
  lemma RewrittenAfterCompletion(v: Sessions, mac: string, index: int, data: seq<byte>, path: string)
    requires CompletedAt(v, mac)
    requires index != 0 || 0 in v[mac].parts
    ensures Assembled(v[mac].parts, v[mac].expected).Some?
    ensures AfterPart(v, mac, index, data, path, true).0 ==
      Written(path, Assembled(v[mac].parts, v[mac].expected).value)
    ensures AfterPart(v, mac, index, data, path, true).1[mac].completed
    ensures Receiver.AfterPart(v, mac, index, data, path, true) == (Rejected, v)
  {
    var n := v[mac].expected;
    var p := v[mac].parts;
    var q := Stored(p, n, index, data);
    assert p.Keys == Range(0, n) ==> 0 in p;
    assert p.Keys == Range(1, n + 1) ==> 1 in p;
    if 0 in p {
      assert p.Keys == Range(0, n);
      assert MinKey(p.Keys) == 0;
      assert MinKey(q.Keys) == 0;
      ConcatAgree(p, q, 0, n);
    } else {
      assert p.Keys == Range(1, n + 1);
      assert q == p;
    }
    ConcatLayout(p, MinKey(p.Keys), n);
  }

  /**
   * A part 0 after a completed transfer numbered from 1 makes the subscriber
   * assemble from index 0: the dump it writes starts with the late payload and
   * has lost the last part, where the dump written at completion ends with it.
   */
  lemma TruncatedAfterCompletion(v: Sessions, mac: string, data: seq<byte>, path: string)
    requires CompletedAt(v, mac) && v[mac].parts.Keys == Range(1, v[mac].expected + 1)
    ensures Concat(v[mac].parts, 1, v[mac].expected - 1).Some?
    ensures Assembled(v[mac].parts, v[mac].expected) ==
      Some(Concat(v[mac].parts, 1, v[mac].expected - 1).value + v[mac].parts[v[mac].expected])
    ensures AfterPart(v, mac, 0, data, path, true).0 ==
      Written(path, data + Concat(v[mac].parts, 1, v[mac].expected - 1).value)
    ensures Receiver.AfterPart(v, mac, 0, data, path, true) == (Rejected, v)
  {
    var n := v[mac].expected;
    var p := v[mac].parts;
    var q := Stored(p, n, 0, data);
    assert 1 in p;
    assert MinKey(p.Keys) == 1;
    assert q == p[0 := data];
    assert MinKey(q.Keys) == 0;
    ConcatSnoc(p, 1, n - 1);
    ConcatAgree(p, q, 1, n - 1);
  }

  /** Metadata in the middle of a transfer throws away what arrived so far. */
  lemma RestartDiscardsParts(v: Sessions, mac: string, n: int, now: real)
    requires mac in v && !v[mac].completed && v[mac].parts != map[]
    ensures Restarted(v, mac, n, now)[mac].parts == map[]
    ensures Receiver.Started(v, mac, n, now).1[mac].parts == v[mac].parts
  {
  }

  /** `CoreDumpAssembler`: the sessions by MAC, each updated in place. */
  class CoreDumpAssembler {
    var sessions: map<string, CoreDumpSession>

    /** Each session object sits under its own MAC, so distinct keys hold distinct objects. */
    ghost predicate Valid()
      reads this
    {
      forall m | m in sessions :: sessions[m].mac == m
    }

    ghost function View(): Sessions
      reads this, sessions.Values
    {
      map m | m in sessions :: sessions[m].View()
    }

    constructor()
      ensures Valid() && View() == map[]
    {
      sessions := map[];
    }

    method StartSession(mac: string, expectedParts: int, now: real)
      requires Valid()
      modifies this
      ensures Valid()
      ensures View() == Restarted(old(View()), mac, expectedParts, now)
    {
      ghost var v0 := View();
      var s := new CoreDumpSession(mac, expectedParts, now);
      sessions := sessions[mac := s];
      forall m | m in sessions
        ensures sessions[m].View() == v0[mac := Fresh(mac, expectedParts, now)][m]
      {
        if m != mac {
          assert sessions[m] == old(sessions)[m];
        }
      }
      assert View().Keys == v0.Keys + {mac};
      assert View() == v0[mac := Fresh(mac, expectedParts, now)];
    }

    method AddPart(mac: string, index: int, data: seq<byte>, path: string, writeOk: bool) returns (r: Outcome)
      requires Valid()
      modifies sessions.Values
      ensures Valid() && sessions == old(sessions)
      ensures (r, View()) == AfterPart(old(View()), mac, index, data, path, writeOk)
    {
      if mac !in sessions {
        return NoSession;
      }
      var sess := sessions[mac];
      ghost var v0 := View();
      sess.AddPart(index, data);
      ghost var s := WithPart(v0, mac, index, data);
      assert sess.View() == s;
      r := Settle(sess, path, writeOk);
      forall m | m in sessions
        ensures sessions[m].View() == v0[mac := sess.View()][m]
      {
        if m != mac {
          assert sessions[m].mac != sess.mac;
        }
      }
      assert View().Keys == v0.Keys;
      assert View() == v0[mac := sess.View()];
    }

    /** The second half of `add_part`: check, assemble, write, and only then mark the session completed. */
    method Settle(sess: CoreDumpSession, path: string, writeOk: bool) returns (r: Outcome)
      modifies sess
      ensures (r, sess.View()) == Finished(old(sess.View()), path, writeOk)
    {
      ghost var s := sess.View();
      var complete := sess.Complete();
      if complete == Some(true) {
        var blob := sess.Assemble();
        if blob.None? {
          r := Raised;
        } else if !writeOk {
          r := WriteFailed;
        } else {
          sess.completed := true;
          r := Written(path, blob.value);
          assert sess.View() == s.(completed := true);
        }
      } else {
        r := if complete.None? then Raised else Pending;
      }
    }

    /** `cleanup(older_than)` with the clock reading `now`: collect the stale MACs, then delete them one by one. */
    method Cleanup(olderThan: real, now: real)
      requires Valid()
      modifies this
      ensures Valid()
      ensures View() == Swept(old(View()), olderThan, now)
    {
      ghost var v0 := View();
      var stale := set m | m in sessions && now - sessions[m].startTime > olderThan && !sessions[m].completed;
      ghost var before := sessions;
      var remaining := stale;
      ghost var done: set<string> := {};
      while remaining != {}
        invariant remaining <= stale && done == stale - remaining
        invariant sessions == before - done
        decreases |remaining|
      {
        var m := Receiver.PickMac(remaining);
        Sets.MovedOne(stale, remaining, done, m);
        Sets.DroppedMore(before, done, m);
        sessions := sessions - {m};
        remaining := remaining - {m};
        done := done + {m};
      }
      Sets.AllMoved(stale, done);
      SweptExactly(v0, olderThan, now);
      forall m
        ensures m in sessions <==> m in Swept(v0, olderThan, now)
      {
      }
    }
  }
}
