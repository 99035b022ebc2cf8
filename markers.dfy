/**
 * The block between two marker lines of a text, as the report extractor and
 * the cluster namer both cut it: from the end of the first start marker to
 * the first end marker found from where the start marker begins, stripped.
 */
module Markers {
  import opened Wrappers
  import Text

  /** `i` is the first place at or after `from` where `pat` occurs. */
  predicate FirstAt(s: string, pat: string, from: int, i: int) {
    from <= i && Text.OccursAt(s, pat, i) && forall k :: from <= k < i ==> !Text.OccursAt(s, pat, k)
  }

  /** Python's `s[a:b]` for indices inside the text: empty when `b < a`. */
  function Slice(s: string, a: nat, b: nat): (r: string)
    requires a <= |s| && b <= |s|
    ensures b < a ==> r == []
    ensures a <= b ==> r == s[a..b]
  {
    if b < a then [] else s[a..b]
  }

  /** The stripped block between the markers; None when the start marker is missing or no end marker follows it. */
  function Between(s: string, start: string, end: string): Option<string> {
    var i := Text.FindFrom(s, start, 0);
    if i == -1 then None
    else
      var j := Text.FindFrom(s, end, i);
      if j == -1 then None else Some(Text.Strip(Slice(s, i + |start|, j)))
  }

  /** What `Between` answers, stated by where the markers occur. */
  lemma BetweenCases(s: string, start: string, end: string)
    ensures (forall i :: !Text.OccursAt(s, start, i)) ==> Between(s, start, end).None?
    ensures forall i | FirstAt(s, start, 0, i) ::
      (forall j :: i <= j ==> !Text.OccursAt(s, end, j)) ==> Between(s, start, end).None?
    ensures forall i, j | FirstAt(s, start, 0, i) && FirstAt(s, end, i, j) ::
      Between(s, start, end) == Some(Text.Strip(Slice(s, i + |start|, j)))
  {
    var i := Text.FindFrom(s, start, 0);
    forall i' | FirstAt(s, start, 0, i') ensures i == i' {
    }
    if i != -1 {
      var j := Text.FindFrom(s, end, i);
      forall j' | FirstAt(s, end, i, j') ensures j == j' {
      }
    }
  }

  /** The block between the first start marker, at `i`, and the first end marker from there on, at `j`. */
  lemma BetweenOf(s: string, start: string, end: string, i: nat, j: nat)
    requires FirstAt(s, start, 0, i) && FirstAt(s, end, i, j) && i + |start| <= j
    ensures Between(s, start, end) == Some(Text.Strip(s[i + |start|..j]))
  {
    BetweenCases(s, start, end);
    assert Slice(s, i + |start|, j) == s[i + |start|..j];
  }

  /**
   * A block framed by the two markers is cut out again, stripped, when the
   * start marker does not occur before the frame and the end marker does
   * not occur between the start of the frame and the closing marker.
   */
  lemma BetweenFramed(pre: string, body: string, post: string, start: string, end: string)
    requires forall k :: 0 <= k < |pre| ==> !Text.OccursAt(pre + start + body + end + post, start, k)
    requires forall k :: |pre| <= k < |pre + start + body| ==> !Text.OccursAt(pre + start + body + end + post, end, k)
    ensures Between(pre + start + body + end + post, start, end) == Some(Text.Strip(body))
  {
    var s := pre + start + body + end + post;
    var i := |pre|;
    var j := |pre + start + body|;
    assert s[i..i + |start|] == start;
    assert FirstAt(s, start, 0, i);
    assert s[j..j + |end|] == end;
    assert FirstAt(s, end, i, j);
    assert s[i + |start|..j] == body;
    BetweenOf(s, start, end, i, j);
  }
}
