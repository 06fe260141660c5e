/**
 * Ticker symbols and the upper-case normalisation applied to the text the
 * user types into the watchlist field (app.py:119, `str.upper`).
 * Only the ASCII letters are mapped; every other character is kept.
 */
module Tickers {

  /** True for the ASCII lower-case letters 'a'..'z'. */
  predicate IsLowerAscii(c: char) {
    'a' <= c <= 'z'
  }

  /** True for the ASCII upper-case letters 'A'..'Z'. */
  predicate IsUpperAscii(c: char) {
    'A' <= c <= 'Z'
  }

  /** `str.upper` on one ASCII character: a lower-case letter becomes its capital. */
  function UpperChar(c: char): (u: char)
    ensures !IsLowerAscii(u)
    ensures IsLowerAscii(c) ==> IsUpperAscii(u) && u as int == c as int - 32
    ensures !IsLowerAscii(c) ==> u == c
  {
    if IsLowerAscii(c) then (c as int - 32) as char else c
  }

  /** A string holds no ASCII lower-case letter. */
  predicate NoLowerAscii(s: string) {
    forall i :: 0 <= i < |s| ==> !IsLowerAscii(s[i])
  }

  /** `s.upper()`, character by character. */
  function Upper(s: string): (r: string)
    ensures |r| == |s|
    ensures forall i :: 0 <= i < |s| ==> r[i] == UpperChar(s[i])
    ensures NoLowerAscii(r)
  {
    if s == [] then [] else [UpperChar(s[0])] + Upper(s[1..])
  }

  /** Upper-casing twice is upper-casing once. */
  lemma UpperIdempotent(s: string)
    ensures Upper(Upper(s)) == Upper(s)
  {
    var u := Upper(s);
    assert forall i :: 0 <= i < |u| ==> Upper(u)[i] == u[i];
  }

  /** A string already free of lower-case letters is left as it is. */
  lemma UpperFixesUpper(s: string)
    requires NoLowerAscii(s)
    ensures Upper(s) == s
  {
    assert forall i :: 0 <= i < |s| ==> Upper(s)[i] == s[i];
  }
}
