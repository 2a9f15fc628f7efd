/** String helpers: ASCII lower-casing (standing in for `str.lower`) and
    substring containment (Python's `needle in haystack`). */
module Text {

  predicate IsUpper(ch: char) {
    'A' <= ch <= 'Z'
  }

  /** Lower-cases one character; only the ASCII letters 'A'..'Z' change. */
  function LowerChar(ch: char): (r: char)
    ensures !IsUpper(r)
    ensures !IsUpper(ch) ==> r == ch
    ensures IsUpper(ch) ==> r as int == ch as int + ('a' as int - 'A' as int)
  {
    if IsUpper(ch) then (ch as int + ('a' as int - 'A' as int)) as char else ch
  }

  /** Lower-cases a whole string, character by character. */
  function Lower(s: string): (r: string)
    ensures |r| == |s|
    ensures forall i :: 0 <= i < |s| ==> r[i] == LowerChar(s[i])
  {
    if s == [] then [] else [LowerChar(s[0])] + Lower(s[1..])
  }

  /** Lower-casing is idempotent, so lower-casing a query before a
      case-insensitive comparison changes nothing. */
  lemma LowerIdempotent(s: string)
    ensures Lower(Lower(s)) == Lower(s)
  {
  }

  /** The window of `hay` starting at offset `i` spells `needle`. */
  ghost predicate OccursAt(needle: string, hay: string, i: int) {
    0 <= i <= |hay| - |needle| && hay[i..i + |needle|] == needle
  }

  /** Reference meaning of `needle in hay`: some window of `hay` spells `needle`. */
  ghost predicate IsSubstring(needle: string, hay: string) {
    exists i :: OccursAt(needle, hay, i)
  }

  /** Python's substring test, scanning `hay` from the left. */
  function Contains(needle: string, hay: string): (r: bool)
    ensures r <==> IsSubstring(needle, hay)
    decreases |hay|
  {
    if |needle| > |hay| then
      false
    else if hay[..|needle|] == needle then
      assert OccursAt(needle, hay, 0);
      true
    else
      var r := Contains(needle, hay[1..]);
      ShiftWindow(needle, hay);
      r
  }

  /** A window of `hay` other than the first one is a window of `hay[1..]`. */
  lemma ShiftWindow(needle: string, hay: string)
    requires |needle| <= |hay|
    requires hay[..|needle|] != needle
    ensures IsSubstring(needle, hay) <==> IsSubstring(needle, hay[1..])
  {
    if IsSubstring(needle, hay) {
      var i :| OccursAt(needle, hay, i);
      assert hay[0..0 + |needle|] == hay[..|needle|];
      assert i != 0;
      var w := hay[1..][i - 1..i - 1 + |needle|];
      assert |w| == |needle|;
      forall k | 0 <= k < |needle|
        ensures w[k] == needle[k]
      {
        assert w[k] == hay[i + k];
      }
      assert w == needle;
      assert OccursAt(needle, hay[1..], i - 1);
    }
    if IsSubstring(needle, hay[1..]) {
      var i :| OccursAt(needle, hay[1..], i);
      var w := hay[i + 1..i + 1 + |needle|];
      assert |w| == |needle|;
      forall k | 0 <= k < |needle|
        ensures w[k] == needle[k]
      {
        assert w[k] == hay[1..][i + k];
      }
      assert w == needle;
      assert OccursAt(needle, hay, i + 1);
    }
  }

  /** The empty string is contained in every string. */
  lemma EmptyContained(hay: string)
    ensures Contains("", hay)
  {
    assert OccursAt("", hay, 0);
  }
}
