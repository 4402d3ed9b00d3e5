/** The part of JavaScript's String.prototype.substring that the typewriter uses:
    index arguments are clamped into [0, length] and swapped when out of order. */
module JsString {

  /** An index argument of substring, clamped into [0, len]. */
  function ClampIndex(k: int, len: nat): (c: nat)
    ensures c <= len
    ensures k < 0 ==> c == 0
    ensures 0 <= k <= len ==> c == k
    ensures len < k ==> c == len
  {
    if k < 0 then 0 else if k > len then len else k
  }

  /** s.substring(start, end): the characters between the two clamped indices,
      whichever of them is the smaller. An index below 0 acts as 0 and one above
      the length as the length, so substring(0, -1) is "" and substring(0, k) for
      k beyond the length is the whole string. */
  function Substring(s: string, start: int, end: int): (r: string)
    ensures |r| <= |s|
    ensures 0 <= start <= end <= |s| ==> r == s[start..end]
    ensures 0 <= end <= start <= |s| ==> r == s[end..start]
    ensures start <= 0 && end <= 0 ==> r == []
    ensures start <= 0 && |s| <= end ==> r == s
    ensures start <= 0 <= end <= |s| ==> r == s[..end]
    ensures end <= 0 && |s| <= start ==> r == s
  {
    var a := ClampIndex(start, |s|);
    var b := ClampIndex(end, |s|);
    if a <= b then s[a..b] else s[b..a]
  }

  /** s.substring(0, k), the only form the typewriter uses: with a start of 0
      the two indices are never swapped, so it is the prefix up to the clamped k. */
  function SubstringFromZero(s: string, k: int): (r: string)
  {
    s[..ClampIndex(k, |s|)]
  }

  /** s.substring(0, k) is always a prefix of s: the whole of s once k reaches
      its length, the empty string once k is negative, and s[..k] in between. */
  lemma SubstringFromZeroIsPrefix(s: string, k: int)
    ensures SubstringFromZero(s, k) <= s
    ensures |s| <= k ==> SubstringFromZero(s, k) == s
    ensures k <= 0 ==> SubstringFromZero(s, k) == []
    ensures 0 <= k <= |s| ==> SubstringFromZero(s, k) == s[..k]
  {
  }

  /** The specialised form agrees with the general substring for every k. */
  lemma SubstringFromZeroAgrees(s: string, k: int)
    ensures SubstringFromZero(s, k) == Substring(s, 0, k)
  {
  }
}
