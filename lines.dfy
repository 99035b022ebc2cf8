/**
 * Python's `str.splitlines()`: the text cut at every line boundary, the
 * boundaries dropped, a "\r\n" pair counting as one boundary and no empty
 * piece after a final boundary.
 */
module Lines {
  import Text

  /** The characters `str.splitlines` treats as line boundaries. */
  predicate IsLineBreak(c: char) {
    c == '\n' || c == '\r' || c == '\U{0B}' || c == '\U{0C}' || ('\U{1C}' <= c <= '\U{1E}')
    || c == '\U{85}' || c == '\U{2028}' || c == '\U{2029}'
  }

  /** A line proper: no boundary character inside. */
  predicate NoBreak(line: string) {
    forall k :: 0 <= k < |line| ==> !IsLineBreak(line[k])
  }

  /** The first boundary at or after `i`, or the end of the text. */
  function LineEnd(s: string, i: nat): (r: nat)
    requires i <= |s|
    ensures i <= r <= |s|
    ensures r < |s| ==> IsLineBreak(s[r])
    ensures forall k :: i <= k < r ==> !IsLineBreak(s[k])
    decreases |s| - i
  {
    if i == |s| || IsLineBreak(s[i]) then i else LineEnd(s, i + 1)
  }

  /** `s.splitlines()`. */
  function SplitLines(s: string): (r: seq<string>)
    ensures forall k :: 0 <= k < |r| ==> NoBreak(r[k])
    decreases |s|
  {
    if s == [] then []
    else
      var e := LineEnd(s, 0);
      if e == |s| then [s]
      else
        var next := if s[e] == '\r' && e + 1 < |s| && s[e + 1] == '\n' then e + 2 else e + 1;
        [s[..e]] + SplitLines(s[next..])
  }

  /** Stripping a line keeps it a line. */
  lemma {:induction false} StripNoBreak(s: string)
    requires NoBreak(s)
    ensures NoBreak(Text.Strip(s))
    decreases |s|
  {
    if |s| > 0 && Text.IsSpace(s[0]) {
      StripNoBreak(s[1..]);
    } else if |s| > 0 && Text.IsSpace(s[|s| - 1]) {
      StripNoBreak(s[..|s| - 1]);
    }
  }

  /** Non-empty lines joined by "\n" split back into the same lines. */
  lemma {:induction false} SplitLinesJoin(lines: seq<string>)
    requires forall k :: 0 <= k < |lines| ==> lines[k] != [] && NoBreak(lines[k])
    ensures SplitLines(Text.Join(lines, "\n")) == lines
  {
    if |lines| == 1 {
      var s := lines[0];
      assert LineEnd(s, 0) == |s|;
    } else if |lines| > 1 {
      var head := lines[0];
      var rest := Text.Join(lines[1..], "\n");
      var s := Text.Join(lines, "\n");
      assert s == head + "\n" + rest;
      assert s[|head|] == '\n';
      assert forall k :: 0 <= k < |head| ==> s[k] == head[k];
      assert LineEnd(s, 0) == |head|;
      assert s[..|head|] == head;
      assert s[|head| + 1..] == rest;
      SplitLinesJoin(lines[1..]);
    }
  }
}
