/** The one string predicate the page relies on: whether a possibly-null
    string is blank, in the sense of `str == null || str.trim().isEmpty()`. */
module Text {
  import opened Optional

  /** `String.trim` removes every leading and trailing character whose code
      is at most U+0020 (space and the ASCII control characters). */
  predicate IsTrimmed(c: char) {
    c <= ' '
  }

  /** How many characters `trim` removes at the front: the longest prefix of
      trimmed characters. */
  function LeadingTrimmed(s: string): (n: nat)
    ensures n <= |s|
    ensures forall i :: 0 <= i < n ==> IsTrimmed(s[i])
    ensures n < |s| ==> !IsTrimmed(s[n])
  {
    if s != [] && IsTrimmed(s[0]) then
      var n := 1 + LeadingTrimmed(s[1..]);
      assert forall i :: 1 <= i < |s| ==> s[i] == s[1..][i - 1];
      n
    else 0
  }

  /** How many characters `trim` removes at the back: the longest suffix of
      trimmed characters. */
  function TrailingTrimmed(s: string): (n: nat)
    ensures n <= |s|
    ensures forall i :: |s| - n <= i < |s| ==> IsTrimmed(s[i])
    ensures n < |s| ==> !IsTrimmed(s[|s| - n - 1])
  {
    if s != [] && IsTrimmed(s[|s| - 1]) then
      var n := 1 + TrailingTrimmed(s[..|s| - 1]);
      assert forall i :: 0 <= i < |s| - 1 ==> s[i] == s[..|s| - 1][i];
      n
    else 0
  }

  /** Java's `String.trim`. */
  function Trim(s: string): string {
    var t := s[LeadingTrimmed(s)..];
    t[..|t| - TrailingTrimmed(t)]
  }

  /** `StringUtils.isBlank`: null, or empty after trimming. */
  predicate IsBlank(s: Option<string>) {
    s.None? || Trim(s.value) == ""
  }

  /** A present string is blank exactly when every character in it is one
      that `trim` removes; in particular the empty string is blank. */
  lemma BlankIffAllTrimmed(s: string)
    ensures IsBlank(Some(s)) <==> forall i :: 0 <= i < |s| ==> IsTrimmed(s[i])
  {
    var lead := LeadingTrimmed(s);
    var t := s[lead..];
    if lead < |s| {
      assert t[0] == s[lead];
      assert TrailingTrimmed(t) < |t|;
    }
  }
}
