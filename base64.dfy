/**
 * Base64 with the standard alphabet and '=' padding of section 4 of RFC 4648,
 * over bytes: the device encodes every chunk this way, and the backend decodes
 * strictly (only alphabet symbols, padding only at the very end, in the forms
 * `xx==` and `xxx=`) before it accepts a payload as Base64.
 */
module Base64 {
  import opened Wrappers

  /** The symbol for a 6-bit value: A-Z, a-z, 0-9, '+', '/'. */
  function Symbol(v: int): (c: byte)
    requires 0 <= v < 64
  {
    if v < 26 then (65 + v) as byte
    else if v < 52 then (71 + v) as byte
    else if v < 62 then (v - 4) as byte
    else if v == 62 then 43
    else 47
  }

  /** The 6-bit value of an alphabet symbol; None for anything else, '=' included. */
  function ValueOf(c: byte): (r: Option<int>)
    ensures r.Some? ==> 0 <= r.value < 64
  {
    if 65 <= c <= 90 then Some(c as int - 65)
    else if 97 <= c <= 122 then Some(c as int - 71)
    else if 48 <= c <= 57 then Some(c as int + 4)
    else if c == 43 then Some(62)
    else if c == 47 then Some(63)
    else None
  }

  /** The padding byte '='. */
  const Pad: byte := 61

  /** `BASE64_CHARS`: the alphabet plus '='. */
  predicate InCharset(c: byte) {
    ValueOf(c).Some? || c == Pad
  }

  lemma ValueOfSymbol(v: int)
    requires 0 <= v < 64
    ensures ValueOf(Symbol(v)) == Some(v)
  {
  }

  /** Symbol and ValueOf are inverse bijections between [0, 64) and the alphabet. */
  lemma SymbolOfValue(c: byte)
    requires ValueOf(c).Some?
    ensures Symbol(ValueOf(c).value) == c
  {
  }

  /** The padded length of the encoding of n bytes: 4 * ceil(n / 3). */
  function EncodedSize(n: nat): nat {
    ((n + 2) / 3) * 4
  }

  /** Every encoded size is a whole number of quads, one more for each three bytes. */
  lemma EncodedSizeQuads(n: nat)
    ensures EncodedSize(n) % 4 == 0
    ensures n >= 3 ==> EncodedSize(n) == 4 + EncodedSize(n - 3)
  {
    assert EncodedSize(n) == 4 * ((n + 2) / 3);
    if n >= 3 {
      assert (n + 2) / 3 == 1 + (n - 1) / 3;
    }
  }

  /** Three bytes as four symbols. */
  function EncodeGroup(b0: byte, b1: byte, b2: byte): seq<byte> {
    [Symbol(b0 as int / 4), Symbol((b0 as int % 4) * 16 + b1 as int / 16),
     Symbol((b1 as int % 16) * 4 + b2 as int / 64), Symbol(b2 as int % 64)]
  }

  /** One or two trailing bytes as a quad padded with '='. */
  function EncodeTail(b: seq<byte>): seq<byte>
    requires 1 <= |b| <= 2
  {
    if |b| == 1 then [Symbol(b[0] as int / 4), Symbol((b[0] as int % 4) * 16), Pad, Pad]
    else [Symbol(b[0] as int / 4), Symbol((b[0] as int % 4) * 16 + b[1] as int / 16), Symbol((b[1] as int % 16) * 4), Pad]
  }

  /** Encoding: whole groups of three bytes, then the padded tail. */
  function Encode(b: seq<byte>): (r: seq<byte>)
    ensures |r| == EncodedSize(|b|)
    decreases |b|
  {
    if |b| == 0 then []
    else if |b| <= 2 then EncodeTail(b)
    else EncodeGroup(b[0], b[1], b[2]) + Encode(b[3..])
  }

  /** The bytes of one quad; padding is accepted only when it is the last quad. */
  function DecodeQuad(q: seq<byte>, last: bool): Option<seq<byte>>
    requires |q| == 4
  {
    var v0, v1, v2, v3 := ValueOf(q[0]), ValueOf(q[1]), ValueOf(q[2]), ValueOf(q[3]);
    if v0.None? || v1.None? then None
    else if v2.Some? && v3.Some? then
      Some([(v0.value * 4 + v1.value / 16) as byte, ((v1.value % 16) * 16 + v2.value / 4) as byte,
            ((v2.value % 4) * 64 + v3.value) as byte])
    else if last && v2.Some? && q[3] == Pad then
      Some([(v0.value * 4 + v1.value / 16) as byte, ((v1.value % 16) * 16 + v2.value / 4) as byte])
    else if last && q[2] == Pad && q[3] == Pad then
      Some([(v0.value * 4 + v1.value / 16) as byte])
    else None
  }

  /** `base64.b64decode(s, validate=True)`: None where Python raises `binascii.Error`. */
  function Decode(s: seq<byte>): Option<seq<byte>>
    decreases |s|
  {
    if |s| % 4 != 0 then None
    else if |s| == 0 then Some([])
    else
      match DecodeQuad(s[..4], |s| == 4)
      case None => None
      case Some(d) =>
        match Decode(s[4..])
        case None => None
        case Some(rest) => Some(d + rest)
  }

  /** The value arithmetic of a full quad recovers the three bytes. */
  lemma GroupArithmetic(b0: int, b1: int, b2: int)
    requires 0 <= b0 < 256 && 0 <= b1 < 256 && 0 <= b2 < 256
    ensures var v1, v2 := (b0 % 4) * 16 + b1 / 16, (b1 % 16) * 4 + b2 / 64;
      && (b0 / 4) * 4 + v1 / 16 == b0
      && (v1 % 16) * 16 + v2 / 4 == b1
      && (v2 % 4) * 64 + b2 % 64 == b2
  {
    var v1, v2 := (b0 % 4) * 16 + b1 / 16, (b1 % 16) * 4 + b2 / 64;
    assert v1 / 16 == b0 % 4 && v1 % 16 == b1 / 16;
    assert v2 / 4 == b1 % 16 && v2 % 4 == b2 / 64;
  }

  /** A quad of four symbols decodes by the value arithmetic. */
  lemma FullQuad(q: seq<byte>, last: bool, v0: int, v1: int, v2: int, v3: int)
    requires |q| == 4
    requires ValueOf(q[0]) == Some(v0) && ValueOf(q[1]) == Some(v1) && ValueOf(q[2]) == Some(v2) && ValueOf(q[3]) == Some(v3)
    ensures DecodeQuad(q, last) ==
      Some([(v0 * 4 + v1 / 16) as byte, ((v1 % 16) * 16 + v2 / 4) as byte, ((v2 % 4) * 64 + v3) as byte])
  {
  }

  lemma GroupRoundTrip(b0: byte, b1: byte, b2: byte, last: bool)
    ensures DecodeQuad(EncodeGroup(b0, b1, b2), last) == Some([b0, b1, b2])
  {
    var v0, v1, v2, v3 := b0 as int / 4, (b0 as int % 4) * 16 + b1 as int / 16,
      (b1 as int % 16) * 4 + b2 as int / 64, b2 as int % 64;
    ValueOfSymbol(v0);
    ValueOfSymbol(v1);
    ValueOfSymbol(v2);
    ValueOfSymbol(v3);
    FullQuad(EncodeGroup(b0, b1, b2), last, v0, v1, v2, v3);
    GroupArithmetic(b0 as int, b1 as int, b2 as int);
  }

  /** A quad `xx==` decodes to one byte. */
  lemma OnePadQuad(q: seq<byte>, v0: int, v1: int)
    requires |q| == 4 && q[2] == Pad && q[3] == Pad
    requires ValueOf(q[0]) == Some(v0) && ValueOf(q[1]) == Some(v1)
    ensures DecodeQuad(q, true) == Some([(v0 * 4 + v1 / 16) as byte])
  {
  }

  /** A quad `xxx=` decodes to two bytes. */
  lemma TwoPadQuad(q: seq<byte>, v0: int, v1: int, v2: int)
    requires |q| == 4 && q[3] == Pad
    requires ValueOf(q[0]) == Some(v0) && ValueOf(q[1]) == Some(v1) && ValueOf(q[2]) == Some(v2)
    ensures DecodeQuad(q, true) == Some([(v0 * 4 + v1 / 16) as byte, ((v1 % 16) * 16 + v2 / 4) as byte])
  {
  }

  /** The value arithmetic of `xx==` and `xxx=` recovers the bytes. */
  lemma PaddedArithmetic(b0: int, b1: int)
    requires 0 <= b0 < 256 && 0 <= b1 < 256
    ensures (b0 / 4) * 4 + ((b0 % 4) * 16) / 16 == b0
    ensures var v1 := (b0 % 4) * 16 + b1 / 16;
      && (b0 / 4) * 4 + v1 / 16 == b0
      && (v1 % 16) * 16 + ((b1 % 16) * 4) / 4 == b1
  {
  }

  /** One or two trailing bytes come back from their padded quad. */
  lemma PaddedRoundTrip(b: seq<byte>)
    requires 1 <= |b| <= 2
    ensures DecodeQuad(EncodeTail(b), true) == Some(b)
  {
    var b0 := b[0] as int;
    var b1 := if |b| == 2 then b[1] as int else 0;
    PaddedArithmetic(b0, b1);
    ValueOfSymbol(b0 / 4);
    if |b| == 1 {
      var q := [Symbol(b0 / 4), Symbol((b0 % 4) * 16), Pad, Pad];
      assert EncodeTail(b) == q;
      ValueOfSymbol((b0 % 4) * 16);
      OnePadQuad(q, b0 / 4, (b0 % 4) * 16);
      assert b == [b[0]];
    } else {
      var q := [Symbol(b0 / 4), Symbol((b0 % 4) * 16 + b1 / 16), Symbol((b1 % 16) * 4), Pad];
      assert EncodeTail(b) == q;
      ValueOfSymbol((b0 % 4) * 16 + b1 / 16);
      ValueOfSymbol((b1 % 16) * 4);
      TwoPadQuad(q, b0 / 4, (b0 % 4) * 16 + b1 / 16, (b1 % 16) * 4);
      assert b == [b[0], b[1]];
    }
  }

  /** Decoding undoes encoding, for every byte string. */
  lemma {:induction false} DecodeEncode(b: seq<byte>)
    ensures Decode(Encode(b)) == Some(b)
    decreases |b|
  {
    var e := Encode(b);
    if |b| == 0 {
    } else if |b| <= 2 {
      PaddedRoundTrip(b);
      assert e[..4] == e && e[4..] == [];
      assert Decode([]) == Some([]);
      assert b + [] == b;
    } else {
      assert e[..4] == EncodeGroup(b[0], b[1], b[2]);
      assert e[4..] == Encode(b[3..]);
      GroupRoundTrip(b[0], b[1], b[2], |e| == 4);
      DecodeEncode(b[3..]);
      EncodedSizeQuads(|b|);
      assert Decode(e) == Some([b[0], b[1], b[2]] + b[3..]);
      assert b == [b[0], b[1], b[2]] + b[3..];
    }
  }

  /** A string that decodes holds only charset bytes, so never a NUL. */
  lemma {:induction false} DecodedInCharset(s: seq<byte>)
    requires Decode(s).Some?
    ensures forall i :: 0 <= i < |s| ==> InCharset(s[i])
    decreases |s|
  {
    if |s| > 0 {
      DecodedInCharset(s[4..]);
      assert forall i :: 4 <= i < |s| ==> s[i] == s[4..][i - 4];
    }
  }

  /** A successful decode of q quads yields between 3q - 2 and 3q bytes. */
  lemma {:induction false} DecodedLength(s: seq<byte>)
    requires Decode(s).Some?
    ensures |s| % 4 == 0
    ensures 3 * (|s| / 4) - 2 <= |Decode(s).value| <= 3 * (|s| / 4)
    decreases |s|
  {
    if |s| > 0 {
      DecodedLength(s[4..]);
      if |s| > 4 {
        assert |DecodeQuad(s[..4], false).value| == 3;
      }
    }
  }

  /**
   * `maybe_decode_base64`: the guards in their order (the switch, at least 8
   * bytes, charset, length a multiple of 4, no NUL, strict decoding, a
   * non-empty result), then the size ratio in [0.45, 0.85] compared by
   * cross-multiplication, or a trailing '='.
   */
  function MaybeDecode(accept: bool, data: seq<byte>): (r: (seq<byte>, bool)) {
    if !accept || |data| < 8 then (data, false)
    else if (exists i :: 0 <= i < |data| && !InCharset(data[i])) || |data| % 4 != 0 then (data, false)
    else if 0 in data then (data, false)
    else
      match Decode(data)
      case None => (data, false)
      case Some(decoded) =>
        if |decoded| == 0 then (data, false)
        else if (45 * |data| <= 100 * |decoded| <= 85 * |data|) || data[|data| - 1] == Pad then (decoded, true)
        else (data, false)
  }

  /** Past the decode step the ratio always lies in [0.5, 0.75]. */
  lemma RatioBounds(data: seq<byte>)
    requires |data| >= 8 && Decode(data).Some?
    ensures 50 * |data| <= 100 * |Decode(data).value| <= 75 * |data|
  {
    DecodedLength(data);
  }

  /**
   * The later guards never decide: a payload is decoded exactly when the
   * switch is on, it has at least 8 bytes and it decodes strictly.
   */
  lemma MaybeDecodeExactly(accept: bool, data: seq<byte>)
    ensures MaybeDecode(accept, data) ==
      if accept && |data| >= 8 && Decode(data).Some? then (Decode(data).value, true) else (data, false)
  {
    if accept && |data| >= 8 && Decode(data).Some? {
      DecodedInCharset(data);
      RatioBounds(data);
      assert 0 !in data by {
        forall i | 0 <= i < |data| ensures data[i] != 0 {
          assert InCharset(data[i]);
        }
      }
    }
  }

  /** A payload with a NUL byte is always passed on unchanged. */
  lemma NulNeverDecoded(accept: bool, data: seq<byte>)
    requires 0 in data
    ensures MaybeDecode(accept, data) == (data, false)
  {
  }

  /** The encoding of four or more bytes is recognised and decoded back. */
  lemma MaybeDecodeEncoded(b: seq<byte>)
    requires |b| >= 4
    ensures MaybeDecode(true, Encode(b)) == (b, true)
  {
    DecodeEncode(b);
    MaybeDecodeExactly(true, Encode(b));
  }
}
