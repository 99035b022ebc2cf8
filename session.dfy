/**
 * One coredump transfer from one device: the number of parts announced by the
 * metadata message, the payloads received so far by index, and whether the
 * transfer was already assembled. The device may number its parts from 0 or
 * from 1, so indices 0..N are accepted and completion means exactly 0..N-1 or
 * exactly 1..N.
 */
module Session {
  import opened Wrappers
  import Similarity
  import Sets

  /** Received payloads by part index. */
  type Parts = map<int, seq<byte>>

  /** The index check of `add_part`: 0 <= index < expected_parts + 1. */
  predicate InRange(n: int, index: int) {
    0 <= index < n + 1
  }

  /** The parts after `add_part(index, data)`: out-of-range and repeated indices change nothing. */
  function Stored(parts: Parts, n: int, index: int, data: seq<byte>): (r: Parts)
    ensures r.Keys == parts.Keys + (if InRange(n, index) then {index} else {})
    ensures forall k | k in parts :: r[k] == parts[k]
    ensures index in r && index !in parts ==> r[index] == data
  {
    if !InRange(n, index) || index in parts then parts else parts[index := data]
  }

  /** The indices lo..hi-1. */
  function Range(lo: int, hi: int): (r: set<int>)
    ensures forall i :: i in r <==> lo <= i < hi
    ensures lo <= hi ==> |r| == hi - lo
    decreases hi - lo
  {
    if lo >= hi then {} else Range(lo, hi - 1) + {hi - 1}
  }

  /** `sorted(keys)[0] == v` for a non-empty key set. */
  predicate IsMinKey(s: set<int>, v: int) {
    v in s && forall k | k in s :: v <= k
  }

  /** `sorted(keys)[-1] == v` for a non-empty key set. */
  predicate IsMaxKey(s: set<int>, v: int) {
    v in s && forall k | k in s :: k <= v
  }

  /**
   * `is_complete` on a session not yet marked completed. None stands for the
   * IndexError of `sorted(keys)[0]`, reached when there are no parts and
   * expected_parts <= 0.
   */
  function CompleteOf(parts: Parts, n: int): Option<bool> {
    if |parts| < n then Some(false)
    else if |parts| == 0 then None
    else
      Some((IsMinKey(parts.Keys, 0) && IsMaxKey(parts.Keys, n - 1) && |parts| == n)
        || (IsMinKey(parts.Keys, 1) && IsMaxKey(parts.Keys, n) && |parts| == n))
  }

  /** A key set of size n inside a range of n indices is that range. */
  lemma FillsRange(s: set<int>, lo: int, n: int)
    requires n >= 0 && |s| == n && forall k | k in s :: lo <= k < lo + n
    ensures s == Range(lo, lo + n)
  {
    Similarity.SubsetSameSize(s, Range(lo, lo + n));
  }

  /** Completion is exactly the index set 0..N-1 or the index set 1..N. */
  lemma CompleteIff(parts: Parts, n: int)
    ensures CompleteOf(parts, n) == Some(true) <==>
      n >= 1 && (parts.Keys == Range(0, n) || parts.Keys == Range(1, n + 1))
  {
    if n >= 1 {
      if CompleteOf(parts, n) == Some(true) {
        if IsMinKey(parts.Keys, 0) && IsMaxKey(parts.Keys, n - 1) && |parts| == n {
          FillsRange(parts.Keys, 0, n);
        } else {
          FillsRange(parts.Keys, 1, n);
        }
      }
      if parts.Keys == Range(0, n) {
        assert IsMinKey(parts.Keys, 0) && IsMaxKey(parts.Keys, n - 1);
      }
      if parts.Keys == Range(1, n + 1) {
        assert IsMinKey(parts.Keys, 1) && IsMaxKey(parts.Keys, n);
      }
    }
  }

  /** A session holding every index 0..N has N + 1 parts and never completes. */
  lemma NeverCompleteWithAll(parts: Parts, n: int)
    requires n >= 0 && Range(0, n + 1) <= parts.Keys
    ensures CompleteOf(parts, n) != Some(true)
  {
    Similarity.SubsetSize(Range(0, n + 1), parts.Keys);
  }

  /** `is_complete` raises exactly when there are no parts and no positive part count. */
  lemma CompleteOfRaises(parts: Parts, n: int)
    ensures CompleteOf(parts, n) == None <==> parts == map[] && n <= 0
  {
    if |parts| == 0 {
      assert parts == map[];
    }
  }

  lemma {:induction false} MinKeyExists(s: set<int>)
    requires s != {}
    ensures exists m :: IsMinKey(s, m)
    decreases |s|
  {
    var x := Sets.Element(s);
    if s != {x} {
      MinKeyExists(s - {x});
      var m :| IsMinKey(s - {x}, m);
      var v := if x < m then x else m;
      forall k | k in s
        ensures v <= k
      {
        if k != x {
          assert k in s - {x};
        }
      }
      assert IsMinKey(s, v);
    } else {
      assert IsMinKey(s, x);
    }
  }

  /** The smallest index, `sorted(keys)[0]`. */
  function MinKey(s: set<int>): (m: int)
    requires s != {}
    ensures IsMinKey(s, m)
  {
    MinKeyExists(s);
    var m :| IsMinKey(s, m);
    m
  }

  /** `parts[base] + ... + parts[base + n - 1]`; None for the KeyError of a missing index. */
  function Concat(parts: Parts, base: int, n: int): Option<seq<byte>>
    decreases n
  {
    if n <= 0 then Some([])
    else if base !in parts then None
    else
      match Concat(parts, base + 1, n - 1)
      case None => None
      case Some(rest) => Some(parts[base] + rest)
  }

  /** `assemble`: the parts from the smallest index on, in index order; None where Python raises. */
  function Assembled(parts: Parts, n: int): Option<seq<byte>> {
    if |parts| == 0 then None else Concat(parts, MinKey(parts.Keys), n)
  }

  /** Every index base..base+n-1 is present. */
  predicate Covers(parts: Parts, base: int, n: int) {
    forall k | base <= k < base + n :: k in parts
  }

  /** The total length of the parts base..base+i-1. */
  function Offset(parts: Parts, base: int, i: int): nat
    requires Covers(parts, base, i)
    decreases i
  {
    if i <= 0 then 0 else Offset(parts, base, i - 1) + |parts[base + i - 1]|
  }

  /** Where part k starts in the concatenation from base. */
  function At(parts: Parts, base: int, k: int): nat
    requires base <= k && Covers(parts, base, k - base)
  {
    Offset(parts, base, k - base)
  }

  /** Splitting off the first part: Offset(base, i) = |parts[base]| + Offset(base + 1, i - 1). */
  lemma {:induction false} OffsetShift(parts: Parts, base: int, i: int)
    requires i >= 1 && Covers(parts, base, i)
    ensures Offset(parts, base, i) == |parts[base]| + Offset(parts, base + 1, i - 1)
    decreases i
  {
    if i > 1 {
      OffsetShift(parts, base, i - 1);
    }
  }

  lemma {:induction false} OffsetMonotone(parts: Parts, base: int, i: int, j: int)
    requires 0 <= i <= j && Covers(parts, base, j)
    ensures Offset(parts, base, i) <= Offset(parts, base, j)
    decreases j - i
  {
    if i < j {
      OffsetMonotone(parts, base, i, j - 1);
    }
  }

  /**
   * With every index base..base+n-1 present the concatenation exists, has the
   * total length of those parts, and each part sits at its offset.
   */
  lemma {:induction false} ConcatLayout(parts: Parts, base: int, n: int)
    requires n >= 0 && Covers(parts, base, n)
    ensures Concat(parts, base, n).Some?
    ensures |Concat(parts, base, n).value| == Offset(parts, base, n)
    ensures forall k {:trigger At(parts, base, k)} | base <= k < base + n ::
      At(parts, base, k) + |parts[k]| <= Offset(parts, base, n) &&
      Concat(parts, base, n).value[At(parts, base, k)..At(parts, base, k) + |parts[k]|] == parts[k]
    decreases n
  {
    if n > 0 {
      ConcatLayout(parts, base + 1, n - 1);
      var rest := Concat(parts, base + 1, n - 1).value;
      var all := Concat(parts, base, n).value;
      assert all == parts[base] + rest;
      OffsetShift(parts, base, n);
      forall k | base <= k < base + n
        ensures At(parts, base, k) + |parts[k]| <= Offset(parts, base, n)
        ensures all[At(parts, base, k)..At(parts, base, k) + |parts[k]|] == parts[k]
      {
        OffsetMonotone(parts, base, k - base + 1, n);
        if k > base {
          OffsetShift(parts, base, k - base);
          assert At(parts, base, k) == |parts[base]| + At(parts, base + 1, k);
        }
      }
    }
  }

  /** Two part maps that agree on the indices base..base+n-1 concatenate them alike. */
  lemma {:induction false} ConcatAgree(p: Parts, q: Parts, base: int, n: int)
    requires forall k | base <= k < base + n :: (k in p <==> k in q) && (k in p ==> p[k] == q[k])
    ensures Concat(p, base, n) == Concat(q, base, n)
    decreases n
  {
    if n > 0 {
      ConcatAgree(p, q, base + 1, n - 1);
    }
  }

  /** Concatenating one more part appends it at the end. */
  lemma {:induction false} ConcatSnoc(p: Parts, base: int, n: int)
    requires n >= 0 && Covers(p, base, n + 1)
    ensures Concat(p, base, n).Some?
    ensures Concat(p, base, n + 1) == Some(Concat(p, base, n).value + p[base + n])
    decreases n
  {
    if n == 0 {
      assert Concat(p, base + 1, 0) == Some([]);
      assert p[base] + [] == [] + p[base];
    } else {
      ConcatSnoc(p, base + 1, n - 1);
      var rest := Concat(p, base + 1, n - 1).value;
      assert p[base] + (rest + p[base + n]) == (p[base] + rest) + p[base + n];
    }
  }

  /** A complete session numbers its parts from 0 or from 1, without gaps. */
  lemma CompleteBase(parts: Parts, n: int)
    requires CompleteOf(parts, n) == Some(true)
    ensures parts != map[]
    ensures var base := MinKey(parts.Keys);
      (base == 0 || base == 1) && parts.Keys == Range(base, base + n) && n >= 1
  {
    CompleteIff(parts, n);
    if parts.Keys == Range(0, n) {
      assert 0 in parts.Keys;
    } else {
      assert 1 in parts.Keys;
    }
  }

  /**
   * On a complete session `assemble` succeeds, starts at index 0 or 1, and
   * lays out all N parts in index order; its length is the sum of their lengths.
   */
  lemma AssembledComplete(parts: Parts, n: int)
    requires CompleteOf(parts, n) == Some(true)
    ensures var base := MinKey(parts.Keys);
      && (base == 0 || base == 1)
      && parts.Keys == Range(base, base + n)
      && Assembled(parts, n).Some?
      && |Assembled(parts, n).value| == Offset(parts, base, n)
      && forall k {:trigger At(parts, base, k)} | k in parts ::
        At(parts, base, k) + |parts[k]| <= Offset(parts, base, n) &&
        Assembled(parts, n).value[At(parts, base, k)..At(parts, base, k) + |parts[k]|] == parts[k]
  {
    CompleteBase(parts, n);
    var base := MinKey(parts.Keys);
    assert Covers(parts, base, n);
    ConcatLayout(parts, base, n);
  }

  /** The parts after a sequence of `add_part` calls, in arrival order. */
  function Received(parts: Parts, n: int, log: seq<(int, seq<byte>)>): Parts
    decreases |log|
  {
    if |log| == 0 then parts else Received(Stored(parts, n, log[0].0, log[0].1), n, log[1..])
  }

  /** The first in-range payload the log carries for index k. */
  function FirstPayload(n: int, log: seq<(int, seq<byte>)>, k: int): Option<seq<byte>>
    decreases |log|
  {
    if |log| == 0 then None
    else if log[0].0 == k && InRange(n, k) then Some(log[0].1)
    else FirstPayload(n, log[1..], k)
  }

  /** First write wins: a stored payload is the earliest one for its index. */
  lemma {:induction false} ReceivedFirst(parts: Parts, n: int, log: seq<(int, seq<byte>)>, k: int)
    ensures k in Received(parts, n, log) <==> k in parts || FirstPayload(n, log, k).Some?
    ensures k in Received(parts, n, log) ==>
      Received(parts, n, log)[k] == if k in parts then parts[k] else FirstPayload(n, log, k).value
    decreases |log|
  {
    if |log| > 0 {
      ReceivedFirst(Stored(parts, n, log[0].0, log[0].1), n, log[1..], k);
    }
  }

  /**
   * Arrival order and repeated fragments do not matter: two logs that agree on
   * the first payload for every index leave the same parts, hence assemble equally.
   */
  lemma ArrivalOrderIrrelevant(n: int, log1: seq<(int, seq<byte>)>, log2: seq<(int, seq<byte>)>)
    requires forall k :: FirstPayload(n, log1, k) == FirstPayload(n, log2, k)
    ensures Received(map[], n, log1) == Received(map[], n, log2)
    ensures Assembled(Received(map[], n, log1), n) == Assembled(Received(map[], n, log2), n)
  {
    var r1, r2 := Received(map[], n, log1), Received(map[], n, log2);
    forall k
      ensures k in r1 <==> k in r2
      ensures k in r1 ==> r1[k] == r2[k]
    {
      ReceivedFirst(map[], n, log1, k);
      ReceivedFirst(map[], n, log2, k);
    }
    assert r1.Keys == r2.Keys;
  }

  /** `b"".join(chunks)`. */
  function Flatten(chunks: seq<seq<byte>>): seq<byte>
    decreases |chunks|
  {
    if |chunks| == 0 then [] else chunks[0] + Flatten(chunks[1..])
  }

  /** The parts of a transfer that sent chunk i - 1 as part i, for i = 1..k. */
  function Numbered(chunks: seq<seq<byte>>, k: int): Parts
    requires 0 <= k <= |chunks|
    decreases k
  {
    if k == 0 then map[] else Numbered(chunks, k - 1)[k := chunks[k - 1]]
  }

  /** Adding part k to parts 1..k-1 that hold chunks 0..k-2 gives parts 1..k that hold chunks 0..k-1. */
  lemma NumberedStep(chunks: seq<seq<byte>>, m: Parts, r: Parts, k: int)
    requires 1 <= k <= |chunks| && r == m[k := chunks[k - 1]]
    requires m.Keys == Range(1, k) && |m| == k - 1
    requires forall i | i in m :: m[i] == chunks[i - 1]
    ensures r.Keys == Range(1, k + 1) && |r| == k
    ensures forall i | i in r :: r[i] == chunks[i - 1]
  {
    assert Range(1, k + 1) == Range(1, k) + {k};
    assert k !in m;
  }

  /** The numbered parts are indices 1..k, part i holding chunk i - 1. */
  lemma {:induction false} NumberedShape(chunks: seq<seq<byte>>, k: int)
    requires 0 <= k <= |chunks|
    ensures Numbered(chunks, k).Keys == Range(1, k + 1) && |Numbered(chunks, k)| == k
    ensures forall i | i in Numbered(chunks, k) :: Numbered(chunks, k)[i] == chunks[i - 1]
    decreases k
  {
    if k > 0 {
      NumberedShape(chunks, k - 1);
      NumberedStep(chunks, Numbered(chunks, k - 1), Numbered(chunks, k), k);
    }
  }

  /** Parts j+1..k of a numbered transfer concatenate to chunks j..k-1. */
  lemma {:induction false} ConcatNumbered(chunks: seq<seq<byte>>, k: int, j: int)
    requires 0 <= j <= k <= |chunks|
    ensures Concat(Numbered(chunks, k), j + 1, k - j) == Some(Flatten(chunks[j..k]))
    decreases k - j
  {
    if j < k {
      ConcatNumbered(chunks, k, j + 1);
      NumberedShape(chunks, k);
      assert j + 1 in Numbered(chunks, k);
      assert chunks[j..k][0] == chunks[j] && chunks[j..k][1..] == chunks[j + 1..k];
    } else {
      assert chunks[j..k] == [];
    }
  }

  /** A transfer numbered from 1 that delivered every chunk is complete, with 1 as its smallest index. */
  lemma NumberedComplete(chunks: seq<seq<byte>>)
    requires |chunks| >= 1
    ensures CompleteOf(Numbered(chunks, |chunks|), |chunks|) == Some(true)
    ensures Numbered(chunks, |chunks|) != map[] && MinKey(Numbered(chunks, |chunks|).Keys) == 1
  {
    var n := |chunks|;
    var parts := Numbered(chunks, n);
    NumberedShape(chunks, n);
    CompleteIff(parts, n);
    assert 1 in parts.Keys;
  }

  /** ... and it assembles to all the chunks in order. */
  lemma AssembledNumbered(chunks: seq<seq<byte>>)
    requires |chunks| >= 1
    ensures CompleteOf(Numbered(chunks, |chunks|), |chunks|) == Some(true)
    ensures Assembled(Numbered(chunks, |chunks|), |chunks|) == Some(Flatten(chunks))
  {
    NumberedComplete(chunks);
    ConcatNumbered(chunks, |chunks|, 0);
    assert chunks[0..|chunks|] == chunks;
  }

  /** A session as a value. */
  datatype SessionView = SessionView(mac: string, expected: int, start: real, parts: Parts, completed: bool)

  /** A fresh session: no parts, not completed. */
  function Fresh(mac: string, n: int, now: real): SessionView {
    SessionView(mac, n, now, map[], false)
  }

  /** `is_complete`, which answers true at once for a session marked completed. */
  function IsComplete(s: SessionView): Option<bool> {
    if s.completed then Some(true) else CompleteOf(s.parts, s.expected)
  }

  /** The sessions of an assembler by MAC, as values. */
  type Sessions = map<string, SessionView>

  /** Every session sits under its own MAC and holds only in-range indices. */
  predicate WellFormed(v: Sessions) {
    forall m | m in v :: v[m].mac == m && forall k | k in v[m].parts :: InRange(v[m].expected, k)
  }

  /** The session under `mac` after its `add_part(index, data)`, before completion is decided. */
  function WithPart(v: Sessions, mac: string, index: int, data: seq<byte>): SessionView
    requires mac in v
  {
    v[mac].(parts := Stored(v[mac].parts, v[mac].expected, index, data))
  }

  /** The sweep removes sessions older than the timeout that never completed. */
  predicate Stale(s: SessionView, olderThan: real, now: real) {
    now - s.start > olderThan && !s.completed
  }

  /** `cleanup(older_than)` with the clock reading `now`. */
  function Swept(v: Sessions, olderThan: real, now: real): Sessions {
    map m | m in v && !Stale(v[m], olderThan, now) :: v[m]
  }

  /**
   * The sweep drops exactly the stale sessions, leaves the others as they
   * were, never drops a completed one, and a second sweep changes nothing.
   */
  lemma SweptExactly(v: Sessions, olderThan: real, now: real)
    ensures forall m :: m in Swept(v, olderThan, now) <==> m in v && !Stale(v[m], olderThan, now)
    ensures forall m | m in Swept(v, olderThan, now) :: Swept(v, olderThan, now)[m] == v[m]
    ensures forall m | m in v && v[m].completed :: m in Swept(v, olderThan, now)
    ensures Swept(Swept(v, olderThan, now), olderThan, now) == Swept(v, olderThan, now)
    ensures WellFormed(v) ==> WellFormed(Swept(v, olderThan, now))
  {
  }

  /** `CoreDumpSession`: the session dataclass, updated in place. */
  class CoreDumpSession {
    const mac: string
    const expectedParts: int
    /** `start_time`, the clock reading when the session was created. */
    const startTime: real
    var parts: Parts
    var completed: bool

    constructor(mac: string, expectedParts: int, now: real)
      ensures View() == Fresh(mac, expectedParts, now)
    {
      this.mac := mac;
      this.expectedParts := expectedParts;
      this.startTime := now;
      this.parts := map[];
      this.completed := false;
    }

    function View(): SessionView
      reads this
    {
      SessionView(mac, expectedParts, startTime, parts, completed)
    }

    /** `add_part`: only an in-range index not seen before is stored. */
    method AddPart(index: int, data: seq<byte>)
      modifies this
      ensures parts == Stored(old(parts), expectedParts, index, data)
      ensures completed == old(completed)
    {
      if index < 0 || index >= expectedParts + 1 {
        return;
      }
      if index in parts {
        return;
      }
      parts := parts[index := data];
    }

    /** `is_complete`: already completed, or exactly the indices 0..N-1 or 1..N arrived. */
    function Complete(): (r: Option<bool>)
      reads this
      ensures r == Some(true) <==> (completed ||
        (expectedParts >= 1 && (parts.Keys == Range(0, expectedParts) || parts.Keys == Range(1, expectedParts + 1))))
      ensures r == None <==> !completed && parts == map[] && expectedParts <= 0
    {
      CompleteIff(parts, expectedParts);
      CompleteOfRaises(parts, expectedParts);
      IsComplete(View())
    }

    /** `assemble`, which cannot fail once the parts are complete. */
    function Assemble(): (r: Option<seq<byte>>)
      reads this
      ensures CompleteOf(parts, expectedParts) == Some(true) ==> r.Some?
    {
      if CompleteOf(parts, expectedParts) == Some(true) then
        AssembledComplete(parts, expectedParts);
        Assembled(parts, expectedParts)
      else
        Assembled(parts, expectedParts)
    }
  }
}
