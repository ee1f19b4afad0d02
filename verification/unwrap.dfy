/** Recovery of the JSON document from the wrapped Visualization API response. */
module Unwrap {

  /** Length of the wrapper text before the JSON document. */
  const PREFIX_LEN: nat := 47
  /** Length of the wrapper text after the JSON document. */
  const SUFFIX_LEN: nat := 2

  /** A `String.prototype.substring` argument, clamped to `[0, len]`. */
  function Clamp(x: int, len: nat): nat
  {
    if x < 0 then 0 else if x > len then len else x
  }

  /** `s.substring(start, end)`: both arguments are clamped to the string and
      swapped when the start lies after the end. */
  function Substring(s: string, start: int, end: int): string
  {
    var a, b := Clamp(start, |s|), Clamp(end, |s|);
    if a <= b then s[a..b] else s[b..a]
  }

  lemma SubstringInRange(s: string, start: int, end: int)
    requires 0 <= start <= end <= |s|
    ensures Substring(s, start, end) == s[start..end]
  {
  }

  lemma SubstringSymmetric(s: string, start: int, end: int)
    ensures Substring(s, start, end) == Substring(s, end, start)
  {
  }

  /** `text.substring(47, text.length - 2)`: the text handed to `JSON.parse`. */
  function Payload(text: string): string
  {
    Substring(text, PREFIX_LEN, |text| - SUFFIX_LEN)
  }

  /** A response long enough to hold the wrapper loses exactly its first 47
      and last 2 characters. */
  lemma PayloadOfWrapped(text: string)
    requires |text| >= PREFIX_LEN + SUFFIX_LEN
    ensures Payload(text) == text[PREFIX_LEN..|text| - SUFFIX_LEN]
    ensures |Payload(text)| == |text| - (PREFIX_LEN + SUFFIX_LEN)
  {
  }

  /** Any document wrapped in a 47-character prefix and a 2-character suffix
      comes back unchanged. */
  lemma PayloadRoundTrip(prefix: string, doc: string, suffix: string)
    requires |prefix| == PREFIX_LEN && |suffix| == SUFFIX_LEN
    ensures Payload(prefix + doc + suffix) == doc
  {
    var text := prefix + doc + suffix;
    assert text[PREFIX_LEN..|text| - SUFFIX_LEN] == doc;
  }

  /** A response too short for the wrapper is not rejected by the slicing: the
      swapped, clamped arguments select a slice of its last two characters (the
      second-to-last alone at length 48), or the whole text when it has fewer
      than two. */
  lemma PayloadOfShortText(text: string)
    requires |text| < PREFIX_LEN + SUFFIX_LEN
    ensures |text| < SUFFIX_LEN ==> Payload(text) == text
    ensures SUFFIX_LEN <= |text| <= PREFIX_LEN ==> Payload(text) == text[|text| - SUFFIX_LEN..]
    ensures |text| == PREFIX_LEN + 1 ==> Payload(text) == text[PREFIX_LEN - 1..PREFIX_LEN]
    ensures |Payload(text)| <= SUFFIX_LEN
  {
  }
}
