/** Upper-casing of text, as `String.toUpperCase` does it on ASCII input. */
module AsciiCase {

  predicate IsLower(c: char) { 'a' <= c <= 'z' }

  predicate IsUpper(c: char) { 'A' <= c <= 'Z' }

  /** The capital of an ASCII lower-case letter; any other character is kept. */
  function UpperChar(c: char): (u: char)
    ensures !IsLower(u)
    ensures IsLower(c) ==> IsUpper(u)
    ensures !IsLower(c) ==> u == c
  {
    if IsLower(c) then (c as int - 32) as char else c
  }

  /** The small letter of an ASCII capital; any other character is kept. */
  function LowerChar(c: char): (l: char)
    ensures !IsUpper(l)
    ensures IsUpper(c) ==> IsLower(l)
    ensures !IsUpper(c) ==> l == c
  {
    if IsUpper(c) then (c as int + 32) as char else c
  }

  /** Upper-cases every character of `s`, keeping its length and order. */
  function ToUpperCase(s: string): (r: string)
    ensures |r| == |s|
    ensures forall i :: 0 <= i < |s| ==> r[i] == UpperChar(s[i])
  {
    if s == [] then [] else [UpperChar(s[0])] + ToUpperCase(s[1..])
  }

  /** `s` spells the upper-case word `w` with each letter in either case. */
  ghost predicate CaseVariantOf(s: string, w: string)
  {
    && |s| == |w|
    && forall i :: 0 <= i < |s| ==> s[i] == w[i] || s[i] == LowerChar(w[i])
  }

  /** The texts that upper-case to an upper-case word `w` are exactly the
      spellings of `w` with each letter in either case. */
  lemma CaseVariantUpperCases(s: string, w: string)
    requires forall i :: 0 <= i < |w| ==> !IsLower(w[i])
    ensures ToUpperCase(s) == w <==> CaseVariantOf(s, w)
  {
  }
}
