/**
  Character-level helpers that stand in for Foundation's `lowercased()`,
  `uppercased()` and the whitespace trimming of `uuTrimWhitespace()`.
  Case mapping is the ASCII one: locale-aware Unicode case mapping is not
  part of this model.
 */
module Strings {

  predicate IsAsciiUpper(c: char) { 'A' <= c <= 'Z' }

  predicate IsAsciiLower(c: char) { 'a' <= c <= 'z' }

  function ToLower(c: char): (d: char)
    ensures !IsAsciiUpper(d)
    ensures !IsAsciiUpper(c) ==> d == c
    ensures IsAsciiUpper(c) ==> IsAsciiLower(d) && d as int == c as int + 32
  {
    if IsAsciiUpper(c) then (c as int + 32) as char else c
  }

  function ToUpper(c: char): (d: char)
    ensures !IsAsciiLower(d)
    ensures !IsAsciiLower(c) ==> d == c
    ensures IsAsciiLower(c) ==> IsAsciiUpper(d) && d as int == c as int - 32
  {
    if IsAsciiLower(c) then (c as int - 32) as char else c
  }

  /** `String.lowercased()`: no upper-case letter is left, and each character
      either stays or is an upper-case letter turned into its lower-case
      partner, 32 code points further on. */
  function Lowercased(s: string): (r: string)
    ensures |r| == |s|
    ensures forall k :: 0 <= k < |r| ==> !IsAsciiUpper(r[k])
    ensures forall k :: 0 <= k < |s| ==>
              r[k] == s[k] || (IsAsciiUpper(s[k]) && IsAsciiLower(r[k]) && r[k] as int == s[k] as int + 32)
  {
    seq(|s|, k requires 0 <= k < |s| => ToLower(s[k]))
  }

  /** `String.uppercased()`: no lower-case letter is left, and each character
      either stays or is a lower-case letter turned into its upper-case
      partner, 32 code points back. */
  function Uppercased(s: string): (r: string)
    ensures |r| == |s|
    ensures forall k :: 0 <= k < |r| ==> !IsAsciiLower(r[k])
    ensures forall k :: 0 <= k < |s| ==>
              r[k] == s[k] || (IsAsciiLower(s[k]) && IsAsciiUpper(r[k]) && r[k] as int == s[k] as int - 32)
  {
    seq(|s|, k requires 0 <= k < |s| => ToUpper(s[k]))
  }

  /** Lower-casing twice is lower-casing once. */
  lemma LowercasedIdempotent(s: string)
    ensures Lowercased(Lowercased(s)) == Lowercased(s)
  {
  }

  /** Upper-casing twice is upper-casing once. */
  lemma UppercasedIdempotent(s: string)
    ensures Uppercased(Uppercased(s)) == Uppercased(s)
  {
  }

  /** Upper-casing does not change a string up to case, so the upper-cased
      text a field shows still equals what was typed ignoring case. */
  lemma UppercasedEqualsIgnoringCase(s: string)
    ensures EqualsIgnoringCase(Uppercased(s), s)
  {
  }

  /** `a.lowercased() == b.lowercased()` */
  predicate EqualsIgnoringCase(a: string, b: string)
  {
    Lowercased(a) == Lowercased(b)
  }

  /** Characters that `uuTrimWhitespace()` removes (whitespace and newlines). */
  predicate IsWhitespace(c: char)
  {
    || c == ' ' || c == '\t' || c == '\n' || c == '\r' || c == '\U{B}' || c == '\U{C}'
    || c == '\U{85}' || c == '\U{A0}' || c == '\U{1680}'
    || ('\U{2000}' <= c <= '\U{200A}')
    || c == '\U{2028}' || c == '\U{2029}' || c == '\U{202F}' || c == '\U{205F}' || c == '\U{3000}'
  }

  /** A string whose whitespace-trimmed form is empty. */
  predicate AllWhitespace(s: string)
  {
    forall k :: 0 <= k < |s| ==> IsWhitespace(s[k])
  }
}
