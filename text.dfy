/**
 * String helpers with Python's semantics: `str.strip`, `str.find`,
 * `str.split(sep)`, `sep.join`, `os.path.basename`, `Path.stem`, `str(int)`
 * and `int(str)`, plus C's `%02x` on one byte. `int(str)` is modelled on
 * ASCII signs and digits only, and `Path.name` as `os.path.basename`.
 */
module Text {
  import opened Wrappers

  /** Python's `str.isspace` on one character: the characters `str.strip()` removes. */
  predicate IsSpace(c: char) {
    c == ' ' || ('\t' <= c <= '\r') || ('\U{1C}' <= c <= '\U{1F}') || c == '\U{85}' || c == '\U{A0}'
    || c == '\U{1680}' || ('\U{2000}' <= c <= '\U{200A}') || c == '\U{2028}' || c == '\U{2029}'
    || c == '\U{202F}' || c == '\U{205F}' || c == '\U{3000}'
  }

  /** No whitespace at either end. */
  predicate Stripped(s: string) {
    s == [] || (!IsSpace(s[0]) && !IsSpace(s[|s| - 1]))
  }

  /** Python's `s.strip()`: the text between the leading and the trailing whitespace. */
  function Strip(s: string): (r: string)
    ensures Stripped(r)
    ensures |r| <= |s|
  {
    if |s| > 0 && IsSpace(s[0]) then Strip(s[1..])
    else if |s| > 0 && IsSpace(s[|s| - 1]) then Strip(s[..|s| - 1])
    else s
  }

  lemma StripOfStripped(s: string)
    requires Stripped(s)
    ensures Strip(s) == s
  {
  }

  /** `pat` occurs in `s` starting at index `i`. */
  predicate OccursAt(s: string, pat: string, i: int) {
    0 <= i && i + |pat| <= |s| && s[i..i + |pat|] == pat
  }

  /** Python's `s.find(pat, start)`: the lowest index at or after `start` where `pat` occurs, or -1. */
  function FindFrom(s: string, pat: string, start: nat): (r: int)
    ensures r == -1 || (start <= r && OccursAt(s, pat, r))
    ensures r == -1 ==> forall i :: start <= i ==> !OccursAt(s, pat, i)
    ensures r != -1 ==> forall i :: start <= i < r ==> !OccursAt(s, pat, i)
    decreases |s| - start
  {
    if start + |pat| > |s| then -1
    else if s[start..start + |pat|] == pat then start
    else FindFrom(s, pat, start + 1)
  }

  /** Python's `s.index(pat, start)`: like `FindFrom`, but a miss is an error (ValueError). */
  function IndexFrom(s: string, pat: string, start: nat): (r: Option<nat>)
    ensures r.None? <==> forall i :: start <= i ==> !OccursAt(s, pat, i)
    ensures r.Some? ==> start <= r.value && OccursAt(s, pat, r.value)
    ensures r.Some? ==> forall i :: start <= i < r.value ==> !OccursAt(s, pat, i)
  {
    var k := FindFrom(s, pat, start);
    if k == -1 then None else Some(k)
  }

  /** Python's `s.split(sep)` for a one-character separator. */
  function Split(s: string, sep: char): (r: seq<string>)
    ensures |r| >= 1
    ensures forall i :: 0 <= i < |r| ==> sep !in r[i]
  {
    if s == [] then [[]]
    else
      var rest := Split(s[1..], sep);
      if s[0] == sep then [[]] + rest else [[s[0]] + rest[0]] + rest[1..]
  }

  /** Python's `sep.join(parts)`. */
  function Join(parts: seq<string>, sep: string): string {
    if |parts| == 0 then []
    else if |parts| == 1 then parts[0]
    else parts[0] + sep + Join(parts[1..], sep)
  }

  /** Joining the pieces of a split with the separator gives back the string. */
  lemma {:induction false} JoinSplit(s: string, sep: char)
    ensures Join(Split(s, sep), [sep]) == s
  {
    if s != [] {
      var rest := Split(s[1..], sep);
      JoinSplit(s[1..], sep);
      if s[0] == sep {
        assert Split(s, sep) == [[]] + rest;
      } else {
        var r := Split(s, sep);
        assert r == [[s[0]] + rest[0]] + rest[1..];
        if |rest| == 1 {
          assert Join(rest, [sep]) == rest[0];
        } else {
          assert rest == [rest[0]] + rest[1..];
          assert Join(rest, [sep]) == rest[0] + [sep] + Join(rest[1..], [sep]);
          assert r[1..] == rest[1..];
        }
      }
    }
  }

  /** A string free of the separator splits into itself alone. */
  lemma {:induction false} SplitWithoutSep(s: string, sep: char)
    requires sep !in s
    ensures Split(s, sep) == [s]
  {
    if s != [] {
      SplitWithoutSep(s[1..], sep);
      assert s[0] != sep && [s[0]] + s[1..] == s;
    }
  }

  /** A separator-free piece followed by the separator splits off as the first piece. */
  lemma {:induction false} SplitAfterPiece(p: string, sep: char, rest: string)
    requires sep !in p
    ensures Split(p + [sep] + rest, sep) == [p] + Split(rest, sep)
  {
    var s := p + [sep] + rest;
    if p == [] {
      assert s[0] == sep && s[1..] == rest;
      assert Split(s, sep) == [[]] + Split(rest, sep);
    } else {
      assert s[0] == p[0] && s[1..] == p[1..] + [sep] + rest;
      assert p[0] != sep && [p[0]] + p[1..] == p;
      SplitAfterPiece(p[1..], sep, rest);
    }
  }

  /** Splitting a join of separator-free pieces gives the pieces back. */
  lemma {:induction false} SplitJoin(parts: seq<string>, sep: char)
    requires |parts| >= 1
    requires forall i :: 0 <= i < |parts| ==> sep !in parts[i]
    ensures Split(Join(parts, [sep]), sep) == parts
  {
    if |parts| == 1 {
      SplitWithoutSep(parts[0], sep);
    } else {
      SplitJoin(parts[1..], sep);
      SplitAfterPiece(parts[0], sep, Join(parts[1..], [sep]));
    }
  }

  /** Index of the last occurrence of `c` in `s`, or -1. */
  function LastIndexOf(s: string, c: char): (r: int)
    ensures -1 <= r < |s|
    ensures r >= 0 ==> s[r] == c
    ensures forall i :: r < i < |s| ==> s[i] != c
  {
    if s == [] then -1
    else if s[|s| - 1] == c then |s| - 1
    else LastIndexOf(s[..|s| - 1], c)
  }

  /**
   * `os.path.basename` of a POSIX path: the text after the last '/'. It is
   * also `Path.name` except on a path ending in '/' or in "/." (and `Path`'s
   * other normalisations), where pathlib drops the trailing segment:
   * `Path("dump/").name` and `Path("dump/.").name` are "dump", Basename
   * gives "" and ".".
   */
  function Basename(path: string): string {
    path[LastIndexOf(path, '/') + 1..]
  }

  /** The base name is the final segment: a suffix of the path free of '/', after a '/' or the whole path. */
  lemma BasenameShape(path: string)
    ensures var r := Basename(path);
      && '/' !in r
      && |r| <= |path| && r == path[|path| - |r|..]
      && (r == path || path[|path| - |r| - 1] == '/')
  {
  }

  /** A character absent from a string is absent from each of its prefixes. */
  lemma PrefixLacks(s: string, n: nat, c: char)
    requires n <= |s| && c !in s
    ensures c !in s[..n]
  {
    forall i | 0 <= i < n ensures s[..n][i] != c {
      assert s[..n][i] == s[i];
    }
  }

  /** `Path(name).stem` on a base name: the name without its last suffix (a dot that neither starts nor ends it). */
  function Stem(name: string): (r: string)
    ensures r == name || (|r| < |name| - 1 && name[|r|] == '.' && 0 < |r| && r == name[..|r|] && '.' !in name[|r| + 1..])
  {
    var i := LastIndexOf(name, '.');
    if 0 < i < |name| - 1 then
      assert '.' !in name[i + 1..] by {
        var tail := name[i + 1..];
        forall k | 0 <= k < |tail| ensures tail[k] != '.' {
          assert tail[k] == name[i + 1 + k];
        }
      }
      name[..i]
    else name
  }

  predicate IsDigit(c: char) { '0' <= c <= '9' }

  predicate AllDigits(s: string) { forall i :: 0 <= i < |s| ==> IsDigit(s[i]) }

  function DigitChar(d: nat): (c: char)
    requires d < 10
    ensures IsDigit(c) && (c as int) - ('0' as int) == d
  {
    (('0' as int) + d) as char
  }

  /** Python's `str(n)` for a natural number. */
  function NatToString(n: nat): (r: string)
    ensures |r| >= 1 && AllDigits(r)
    ensures |r| > 1 ==> r[0] != '0'
  {
    if n < 10 then [DigitChar(n)] else NatToString(n / 10) + [DigitChar(n % 10)]
  }

  /** Python's `str(n)` for an integer. */
  function IntToString(n: int): string {
    if n < 0 then "-" + NatToString(-n) else NatToString(n)
  }

  /** The number a string of decimal digits denotes. */
  function DigitsValue(s: string): nat
    requires AllDigits(s)
  {
    if s == [] then 0 else DigitsValue(s[..|s| - 1]) * 10 + ((s[|s| - 1] as int) - ('0' as int))
  }

  /** A non-empty run of decimal digits, read as a number. */
  function ParseDigits(s: string): (r: Option<nat>)
    ensures r.Some? <==> |s| >= 1 && AllDigits(s)
  {
    if |s| >= 1 && AllDigits(s) then Some(DigitsValue(s)) else None
  }

  /** An optional sign followed by digits. */
  function ParseSigned(t: string): (r: Option<int>)
  {
    if |t| > 0 && t[0] == '-' then
      match ParseDigits(t[1..])
      case Some(v) => Some(-(v as int))
      case None => None
    else if |t| > 0 && t[0] == '+' then
      match ParseDigits(t[1..])
      case Some(v) => Some(v as int)
      case None => None
    else
      match ParseDigits(t)
      case Some(v) => Some(v as int)
      case None => None
  }

  /**
   * Python's `int(s)` on text: surrounding whitespace is ignored, then an
   * optional ASCII sign and one or more ASCII decimal digits; anything else
   * is a ValueError here. Python also accepts '_' between digits and
   * non-ASCII decimal digits, which this model reads as errors.
   */
  function ParseInt(s: string): (r: Option<int>)
    ensures r.Some? ==> Strip(s) != []
  {
    ParseSigned(Strip(s))
  }

  lemma {:induction false} DigitsOfNat(n: nat)
    ensures DigitsValue(NatToString(n)) == n
  {
    if n >= 10 {
      DigitsOfNat(n / 10);
      var s := NatToString(n);
      assert s[..|s| - 1] == NatToString(n / 10);
    }
  }

  lemma {:induction false} ParseSignedOfDigits(t: string, neg: bool)
    requires |t| >= 1 && AllDigits(t)
    ensures ParseSigned(if neg then "-" + t else t) == Some(if neg then -(DigitsValue(t) as int) else DigitsValue(t))
  {
    var d := ParseDigits(t);
    assert d == Some(DigitsValue(t));
    if neg {
      var u := "-" + t;
      assert u[0] == '-' && u[1..] == t;
      assert ParseSigned(u) == Some(-(d.value as int));
    } else {
      assert t[0] != '-' && t[0] != '+';
      assert ParseSigned(t) == Some(d.value as int);
    }
  }

  /** Parsing text that is a digit string, possibly after a '-'. */
  lemma {:induction false} ParseIntOfDigits(t: string, neg: bool)
    requires |t| >= 1 && AllDigits(t)
    ensures ParseInt(if neg then "-" + t else t) == Some(if neg then -(DigitsValue(t) as int) else DigitsValue(t))
  {
    var s := if neg then "-" + t else t;
    assert IsDigit(t[0]) && IsDigit(t[|t| - 1]);
    assert s[|s| - 1] == t[|t| - 1];
    assert Stripped(s);
    StripOfStripped(s);
    ParseSignedOfDigits(t, neg);
  }

  /** `int(str(n)) == n`. */
  lemma {:induction false} ParseIntToString(n: int)
    ensures ParseInt(IntToString(n)) == Some(n)
  {
    var m: nat := if n < 0 then -n else n;
    DigitsOfNat(m);
    ParseIntOfDigits(NatToString(m), n < 0);
  }

  function HexDigit(d: nat): (c: char)
    requires d < 16
    ensures HexValue(c) == d
  {
    "0123456789abcdef"[d]
  }

  /** C's `%02x` applied to one byte: two lower-case hexadecimal digits. */
  function Hex2(b: byte): (r: string)
    ensures |r| == 2 && b as int == 16 * HexValue(r[0]) + HexValue(r[1])
  {
    var hi := b as nat / 16;
    var lo := b as nat % 16;
    [HexDigit(hi), HexDigit(lo)]
  }

  function HexValue(c: char): nat {
    if '0' <= c <= '9' then (c as int) - ('0' as int)
    else if 'a' <= c <= 'f' then (c as int) - ('a' as int) + 10
    else 0
  }
}
