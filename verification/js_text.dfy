/** The few JavaScript string and array primitives the dashboard relies on,
    with their lenient semantics written out: `slice` never fails, it clamps. */
module JsText {

  function Min(a: int, b: int): int { if a <= b then a else b }

  function Max(a: int, b: int): int { if a <= b then b else a }

  /** How `slice` reads one of its position arguments against a length `n`:
      a negative position counts back from the end, and the result is clamped
      into `[0, n]`. */
  function RelativeIndex(i: int, n: nat): (r: nat)
    ensures r <= n
    ensures 0 <= i ==> r == Min(i, n)
    ensures i < 0 ==> r == Max(n + i, 0)
  {
    if i < 0 then
      if n + i < 0 then 0 else n + i
    else if i < n then i
    else n
  }

  /** `s.slice(start, end)` for a string or an array: the elements from the
      relative position `start` up to (not including) the relative position
      `end`; empty when the two positions cross. */
  function Slice<T>(s: seq<T>, start: int, end: int): (r: seq<T>)
    ensures |r| <= |s|
    ensures start <= end ==> |r| <= end - start
    ensures 0 <= start <= end ==> r == s[Min(start, |s|)..Min(end, |s|)]
  {
    var from := RelativeIndex(start, |s|);
    var to := RelativeIndex(end, |s|);
    if from < to then s[from..to] else []
  }

  /** `s.slice(start)`: the end position defaults to the length. */
  function SliceFrom<T>(s: seq<T>, start: int): (r: seq<T>)
    ensures 0 <= start ==> r == s[Min(start, |s|)..]
    ensures start < 0 ==> r == s[Max(|s| + start, 0)..]
    ensures start < 0 ==> |r| == Min(-start, |s|)
  {
    Slice(s, start, |s|)
  }

  /** Lower-casing of one character, restricted to ASCII: `A`..`Z` map to
      `a`..`z`, every other character is left alone. */
  function LowerChar(c: char): (r: char)
    ensures !('A' <= r <= 'Z')
    ensures r == c || ('A' <= c <= 'Z' && r as int == c as int + 32)
  {
    if 'A' <= c <= 'Z' then (c as int + 32) as char else c
  }

  /** `s.toLowerCase()` over ASCII, character by character. */
  function Lower(s: string): (r: string)
    ensures |r| == |s|
    ensures forall i :: 0 <= i < |s| ==> r[i] == LowerChar(s[i])
  {
    seq(|s|, i requires 0 <= i < |s| => LowerChar(s[i]))
  }

  /** Lower-casing twice is lower-casing once. */
  lemma LowerIdempotent(s: string)
    ensures Lower(Lower(s)) == Lower(s)
  {
  }

  /** Two strings that agree after lower-casing have the same length, so a
      case-insensitive match never changes how long a string is. */
  lemma LowerEqualSameLength(a: string, b: string)
    requires Lower(a) == Lower(b)
    ensures |a| == |b|
  {
  }

}
