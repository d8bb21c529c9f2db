/** ASCII character classes and case mapping used by invite codes. */
module Text {

  predicate IsUpperLetter(c: char) { 'A' <= c <= 'Z' }

  predicate IsLowerLetter(c: char) { 'a' <= c <= 'z' }

  predicate IsDigit(c: char) { '0' <= c <= '9' }

  /** The class `[A-Za-z0-9]` of a JavaScript regular expression. */
  predicate IsAlphanumeric(c: char) { IsUpperLetter(c) || IsLowerLetter(c) || IsDigit(c) }

  /** Characters a cleaned invite code may hold: `A`-`Z` and `0`-`9`. */
  predicate IsCodeChar(c: char) { IsUpperLetter(c) || IsDigit(c) }

  /** `toUpperCase` on one character, for the ASCII range. */
  function UpperChar(c: char): (u: char)
    ensures !IsLowerLetter(u)
    ensures IsLowerLetter(c) ==> IsUpperLetter(u)
    ensures IsAlphanumeric(u) <==> IsAlphanumeric(c)
    ensures IsCodeChar(c) ==> u == c
  {
    if IsLowerLetter(c) then (c as int - 32) as char else c
  }

  /** `toUpperCase` on a string: no lower-case letter is left, and letters and digits stay letters and digits. */
  function ToUpper(s: string): (u: string)
    ensures |u| == |s|
    ensures forall i :: 0 <= i < |u| ==> !IsLowerLetter(u[i])
    ensures forall i :: 0 <= i < |s| ==> (IsAlphanumeric(u[i]) <==> IsAlphanumeric(s[i]))
  {
    seq(|s|, i requires 0 <= i < |s| => UpperChar(s[i]))
  }

  /** A lower-case letter and its upper-case letter are mapped to the same character. */
  lemma UpperCharCaseInsensitive(c: char)
    requires IsLowerLetter(c)
    ensures UpperChar(c) == UpperChar((c as int - 32) as char)
  {
  }

  /** Upper-casing twice is upper-casing once. */
  lemma ToUpperIdempotent(s: string)
    ensures ToUpper(ToUpper(s)) == ToUpper(s)
  {
  }

  lemma UpperCodeCharsUnchanged(s: string)
    requires forall i :: 0 <= i < |s| ==> IsCodeChar(s[i])
    ensures ToUpper(s) == s
  {
  }
}
