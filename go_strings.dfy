/**
 * The one function of Go's `strings` package the directive parser relies on:
 * `strings.TrimSpace`, with white space as `unicode.IsSpace` defines it.
 */
module GoStrings {

  /** `unicode.IsSpace`: the Latin-1 spaces plus the Unicode White_Space property. */
  predicate IsSpace(c: char) {
    var n := c as int;
    (0x09 <= n <= 0x0D) || n == 0x20 || n == 0x85 || n == 0xA0 || n == 0x1680
    || (0x2000 <= n <= 0x200A) || n == 0x2028 || n == 0x2029 || n == 0x202F
    || n == 0x205F || n == 0x3000
  }

  predicate AllSpace(s: string) {
    forall i :: 0 <= i < |s| ==> IsSpace(s[i])
  }

  /** The number of white-space characters `s` starts with. */
  function LeadingSpaces(s: string): nat {
    if s != [] && IsSpace(s[0]) then 1 + LeadingSpaces(s[1..]) else 0
  }

  /** The number of white-space characters `s` ends with. */
  function TrailingSpaces(s: string): nat {
    if s != [] && IsSpace(s[|s| - 1]) then 1 + TrailingSpaces(s[..|s| - 1]) else 0
  }

  /** The leading white space is all white space, and stops before a character that is not. */
  lemma {:induction false} LeadingSpacesSpan(s: string)
    ensures var k := LeadingSpaces(s); k <= |s| && AllSpace(s[..k]) && (k == |s| || !IsSpace(s[k]))
  {
    if s != [] && IsSpace(s[0]) {
      LeadingSpacesSpan(s[1..]);
      var k := LeadingSpaces(s);
      assert forall i :: 1 <= i < k ==> s[..k][i] == s[1..][..k - 1][i - 1];
    }
  }

  /** The trailing white space is all white space, and starts after a character that is not. */
  lemma {:induction false} TrailingSpacesSpan(s: string)
    ensures var k := TrailingSpaces(s); k <= |s| && AllSpace(s[|s| - k..]) && (k == |s| || !IsSpace(s[|s| - k - 1]))
  {
    if s != [] && IsSpace(s[|s| - 1]) {
      var p := s[..|s| - 1];
      TrailingSpacesSpan(p);
      var k := TrailingSpaces(s);
      var tail, rest := s[|s| - k..], p[|p| - (k - 1)..];
      assert forall i :: 0 <= i < k - 1 ==> tail[i] == rest[i];
      assert k < |s| ==> s[|s| - k - 1] == p[|p| - (k - 1) - 1];
    }
  }

  /**
   * `strings.TrimSpace`: `s` without its leading and trailing white space. The
   * result is the slice of `s` between a white-space prefix and a white-space
   * suffix, and it neither starts nor ends with white space.
   */
  function TrimSpace(s: string): (r: string)
    ensures var k := LeadingSpaces(s);
      k + |r| <= |s| && r == s[k..k + |r|] && AllSpace(s[..k]) && AllSpace(s[k + |r|..])
    ensures r == [] || (!IsSpace(r[0]) && !IsSpace(r[|r| - 1]))
  {
    LeadingSpacesSpan(s);
    var k := LeadingSpaces(s);
    TrailingSpacesSpan(s[k..]);
    var m := TrailingSpaces(s[k..]);
    MiddleSlice(s, k, m);
    s[k..|s| - m]
  }

  /** The middle of `s`, between a white-space prefix and a white-space suffix. */
  lemma MiddleSlice(s: string, k: nat, m: nat)
    requires k + m <= |s| && AllSpace(s[..k]) && (k == |s| || !IsSpace(s[k]))
    requires var t := s[k..]; AllSpace(t[|t| - m..]) && (m == |t| || !IsSpace(t[|t| - m - 1]))
    ensures var r := s[k..|s| - m];
      k + |r| <= |s| && r == s[k..k + |r|] && AllSpace(s[..k]) && AllSpace(s[k + |r|..])
      && (r == [] || (!IsSpace(r[0]) && !IsSpace(r[|r| - 1])))
  {
    var t := s[k..];
    assert s[|s| - m..] == t[|t| - m..];
  }

  /** A value trims to the empty string exactly when it is all white space. */
  lemma TrimSpaceEmptyIffBlank(s: string)
    ensures TrimSpace(s) == [] <==> AllSpace(s)
  {
  }
}
