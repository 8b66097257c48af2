/**
 * The two string functions of Go's standard library that the registry calls:
 * strings.TrimSpace (over unicode.IsSpace) and strings.ToLower (restricted to
 * ASCII letters). Strings are sequences of Unicode scalar values here, not UTF-8
 * bytes.
 */
module Text {

  /** The code points Go's unicode.IsSpace reports as white space. */
  predicate IsSpace(c: char)
  {
    || c == '\t' || c == '\n' || c == '\U{0B}' || c == '\U{0C}' || c == '\r' || c == ' '
    || c == '\U{85}' || c == '\U{A0}' || c == '\U{1680}'
    || ('\U{2000}' <= c <= '\U{200A}')
    || c == '\U{2028}' || c == '\U{2029}' || c == '\U{202F}' || c == '\U{205F}' || c == '\U{3000}'
  }

  predicate AllSpace(s: string)
  {
    forall i :: 0 <= i < |s| ==> IsSpace(s[i])
  }

  /** Scanning forward from i: the index of the first character that is not white space, or |s|. */
  function SpaceRunEnd(s: string, i: nat): (k: nat)
    requires i <= |s|
    ensures i <= k <= |s|
    ensures forall j :: i <= j < k ==> IsSpace(s[j])
    ensures k == |s| || !IsSpace(s[k])
    decreases |s| - i
  {
    if i < |s| && IsSpace(s[i]) then SpaceRunEnd(s, i + 1) else i
  }

  /** Scanning backward from j, but not below lo: the index just past the last character that is not white space, or lo. */
  function SpaceRunStart(s: string, lo: nat, j: nat): (k: nat)
    requires lo <= j <= |s|
    ensures lo <= k <= j
    ensures forall m :: k <= m < j ==> IsSpace(s[m])
    ensures k == lo || !IsSpace(s[k - 1])
    decreases j
  {
    if lo < j && IsSpace(s[j - 1]) then SpaceRunStart(s, lo, j - 1) else j
  }

  /**
   * strings.TrimSpace: the slice of s that starts at the first character that is
   * not white space and ends after the last one. Everything cut off is white
   * space, the result neither starts nor ends with white space, and it is empty
   * exactly when s is all white space.
   */
  function TrimSpace(s: string): (r: string)
    ensures var k := SpaceRunEnd(s, 0);
      && k + |r| <= |s| && r == s[k..k + |r|]
      && AllSpace(s[..k]) && AllSpace(s[k + |r|..])
    ensures r == [] <==> AllSpace(s)
    ensures r == [] || (!IsSpace(r[0]) && !IsSpace(r[|r| - 1]))
  {
    var i := SpaceRunEnd(s, 0);
    var j := SpaceRunStart(s, i, |s|);
    assert i == |s| ==> AllSpace(s) by {
      if i == |s| {
        assert forall m :: 0 <= m < |s| ==> IsSpace(s[m]);
      }
    }
    assert AllSpace(s) ==> i == |s|;
    assert i < |s| ==> i < j;
    s[i..j]
  }

  /** The ASCII case mapping of strings.ToLower. */
  function LowerChar(c: char): char
  {
    if 'A' <= c <= 'Z' then (c as int + 32) as char else c
  }

  predicate HasUpper(s: string)
  {
    exists i :: 0 <= i < |s| && 'A' <= s[i] <= 'Z'
  }

  /** strings.ToLower on ASCII: same length, no upper-case letter left, every other character kept. */
  function Lower(s: string): (r: string)
    ensures |r| == |s|
    ensures !HasUpper(r)
    ensures forall i :: 0 <= i < |s| && !('A' <= s[i] <= 'Z') ==> r[i] == s[i]
    ensures forall i :: 0 <= i < |s| && 'A' <= s[i] <= 'Z' ==> r[i] as int == s[i] as int + 32
  {
    seq(|s|, i requires 0 <= i < |s| => LowerChar(s[i]))
  }

}
