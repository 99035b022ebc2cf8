/**
 * What both MQTT back ends share around the assembler: how a topic is
 * routed (`<base>/<MAC>` carries the `{"parts": N}` metadata,
 * `<base>/<MAC>/<index>` one part), how the raw file of a finished dump is
 * named, and what one `add_part` call can amount to.
 */
module Ingest {
  import opened Wrappers
  import opened Text

  /** `BASE_TOPIC`'s default. */
  const DefaultBase: string := "coredump"

  /** `SESSION_TIMEOUT`'s default, in seconds. */
  const DefaultTimeout: real := 600.0

  /** What a message asks of the assembler. */
  datatype Message =
    | Ignored
    | Start(mac: string, parts: int)
    | Part(mac: string, index: int)

  /**
   * `on_message`: `meta` is the integer under "parts" in the JSON payload, or
   * None when the payload is not such JSON (the handler then drops the
   * message). Metadata with a non-positive count, a non-numeric index and a
   * topic of any other shape are ignored.
   */
  function Route(base: string, topic: string, meta: Option<int>): (r: Message)
  {
    var seg := Split(topic, '/');
    if |seg| < 2 || seg[0] != base then Ignored
    else if |seg| == 2 then
      if meta.Some? && meta.value > 0 then Start(seg[1], meta.value) else Ignored
    else if |seg| == 3 then
      match ParseInt(seg[2])
      case None => Ignored
      case Some(i) => Part(seg[1], i)
    else Ignored
  }

  /** A string without the separator splits into itself. */
  lemma {:induction false} SplitWhole(s: string, sep: char)
    requires sep !in s
    ensures Split(s, sep) == [s]
  {
    if s != [] {
      assert s[0] != sep && sep !in s[1..];
      SplitWhole(s[1..], sep);
      assert [s[0]] + s[1..] == s;
    }
  }

  /** Splitting at an occurrence of the separator splits both sides. */
  lemma {:induction false} SplitAt(a: string, b: string, sep: char)
    ensures Split(a + [sep] + b, sep) == Split(a, sep) + Split(b, sep)
  {
    var s := a + [sep] + b;
    if a == [] {
      assert s == [sep] + b;
      assert s[1..] == b;
    } else {
      assert s[0] == a[0];
      assert s[1..] == a[1..] + [sep] + b;
      SplitAt(a[1..], b, sep);
    }
  }

  /** The metadata topic of a device starts its session exactly when the count is positive. */
  lemma RouteMeta(base: string, mac: string, meta: Option<int>)
    requires '/' !in base && '/' !in mac
    ensures Route(base, base + "/" + mac, meta) ==
      if meta.Some? && meta.value > 0 then Start(mac, meta.value) else Ignored
  {
    SplitAt(base, mac, '/');
    SplitWhole(base, '/');
    SplitWhole(mac, '/');
  }

  /** A part topic with a decimal index reaches the part handler with that index. */
  lemma RoutePart(base: string, mac: string, index: int, meta: Option<int>)
    requires '/' !in base && '/' !in mac
    ensures Route(base, base + "/" + mac + "/" + IntToString(index), meta) == Part(mac, index)
  {
    var digits := IntToString(index);
    ParseIntToString(index);
    assert '/' !in digits by {
      if index < 0 {
        var tail := NatToString(-index);
        assert digits == "-" + tail;
        forall i | 0 <= i < |digits| ensures digits[i] != '/' {
          if i > 0 {
            assert digits[i] == tail[i - 1];
          }
        }
      }
    }
    SplitAt(base + "/" + mac, digits, '/');
    SplitAt(base, mac, '/');
    SplitWhole(base, '/');
    SplitWhole(mac, '/');
    SplitWhole(digits, '/');
  }

  /** Conversely, only topics of the two shapes reach the assembler. */
  lemma RouteShape(base: string, topic: string, meta: Option<int>)
    ensures Route(base, topic, meta).Start? ==>
      meta == Some(Route(base, topic, meta).parts) && Route(base, topic, meta).parts > 0 &&
      topic == base + "/" + Route(base, topic, meta).mac
    ensures Route(base, topic, meta).Part? ==>
      exists s :: ParseInt(s) == Some(Route(base, topic, meta).index) &&
        topic == base + "/" + Route(base, topic, meta).mac + "/" + s
  {
    var seg := Split(topic, '/');
    JoinSplit(topic, '/');
    if |seg| == 2 {
      assert Join(seg, "/") == seg[0] + "/" + Join(seg[1..], "/");
    } else if |seg| == 3 && ParseInt(seg[2]).Some? {
      assert Join(seg[1..], "/") == seg[1] + "/" + Join(seg[2..], "/");
      assert Join(seg, "/") == seg[0] + "/" + seg[1] + "/" + seg[2];
    }
  }

  /** `str.upper` on one character, for the ASCII letters only: any other character is left as it is. */
  function Upper(c: char): char {
    if 'a' <= c <= 'z' then ((c as int) - 32) as char else c
  }

  /** `mac.replace(":", "").replace("-", "").upper()`, upper-casing ASCII letters only. */
  function SafeMac(mac: string): (r: string)
    ensures |r| <= |mac|
    ensures ':' !in r && '-' !in r
    ensures forall i | 0 <= i < |r| :: !('a' <= r[i] <= 'z')
  {
    if mac == [] then []
    else (if mac[0] == ':' || mac[0] == '-' then [] else [Upper(mac[0])]) + SafeMac(mac[1..])
  }

  /** Making a MAC safe twice is making it safe once. */
  lemma {:induction false} SafeMacIdempotent(mac: string)
    ensures SafeMac(SafeMac(mac)) == SafeMac(mac)
  {
    if mac != [] {
      SafeMacIdempotent(mac[1..]);
      var head := if mac[0] == ':' || mac[0] == '-' then [] else [Upper(mac[0])];
      assert SafeMac(mac) == head + SafeMac(mac[1..]);
      SafeMacAppend(head, SafeMac(mac[1..]));
    }
  }

  lemma {:induction false} SafeMacAppend(a: string, b: string)
    ensures SafeMac(a + b) == SafeMac(a) + SafeMac(b)
  {
    if a != [] {
      assert (a + b)[0] == a[0] && (a + b)[1..] == a[1..] + b;
      SafeMacAppend(a[1..], b);
      var head := if a[0] == ':' || a[0] == '-' then [] else [Upper(a[0])];
      assert SafeMac(a + b) == head + SafeMac(a[1..] + b);
      assert SafeMac(a) == head + SafeMac(a[1..]);
      assert head + (SafeMac(a[1..]) + SafeMac(b)) == (head + SafeMac(a[1..])) + SafeMac(b);
    } else {
      assert a + b == b;
    }
  }

  /** The raw file `RAWS_OUTPUT_DIR/<stamp>_<SAFEMAC>.cdmp`, with `stamp` the formatted arrival time. */
  function RawFileName(dir: string, stamp: string, mac: string): string {
    dir + "/" + stamp + "_" + SafeMac(mac) + ".cdmp"
  }

  /** What one `add_part` call amounts to. */
  datatype Outcome =
    /** No session for the MAC: None. */
    | NoSession
    /** The session already completed and the part is turned away: None. */
    | Rejected
    /** The part was stored or dropped and the dump is not complete: None. */
    | Pending
    /** `is_complete` or `assemble` raised (an empty session, a missing index). */
    | Raised
    /** Writing the raw file failed; the error reaches the message handler. */
    | WriteFailed
    /** The blob was written to `path`, which is returned, and registration started. */
    | Written(path: string, blob: seq<byte>)
}
