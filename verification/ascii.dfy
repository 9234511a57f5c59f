/**
 * ASCII character classes and case mapping. The identifier pattern of the
 * generator is `[a-zA-Z\d]+`; this model reads `\d` as the ASCII digits.
 */
module Ascii {

  predicate IsDigit(c: char) { '0' <= c <= '9' }

  predicate IsUpper(c: char) { 'A' <= c <= 'Z' }

  predicate IsLower(c: char) { 'a' <= c <= 'z' }

  predicate IsLetter(c: char) { IsUpper(c) || IsLower(c) }

  /** One character of the class `[a-zA-Z0-9]`. */
  predicate IsAlnum(c: char) { IsLetter(c) || IsDigit(c) }

  /** A string made only of `[a-zA-Z0-9]` characters. */
  predicate IsWord(s: string) { forall i :: 0 <= i < |s| ==> IsAlnum(s[i]) }

  function ToUpper(c: char): (r: char)
    ensures IsLower(c) ==> IsUpper(r) && r as int + 32 == c as int
    ensures !IsLower(c) ==> r == c
  {
    if IsLower(c) then (c as int - 32) as char else c
  }

  function ToLower(c: char): (r: char)
    ensures IsUpper(c) ==> IsLower(r) && r as int == c as int + 32
    ensures !IsUpper(c) ==> r == c
  {
    if IsUpper(c) then (c as int + 32) as char else c
  }

  /**
   * The case mapping `str.title()` applies to one character: upper case when
   * `upper` holds, lower case otherwise. Characters without case are kept.
   */
  function Case(c: char, upper: bool): (r: char)
    ensures IsLetter(r) == IsLetter(c) && IsDigit(r) == IsDigit(c) && IsAlnum(r) == IsAlnum(c)
    ensures ToLower(r) == ToLower(c)
    ensures IsLetter(c) ==> (IsUpper(r) <==> upper)
    ensures !IsLetter(c) ==> r == c
  {
    if upper then ToUpper(c) else ToLower(c)
  }

  /** Re-applying the same case mapping changes nothing. */
  lemma CaseIdempotent(c: char, upper: bool)
    ensures Case(Case(c, upper), upper) == Case(c, upper)
  {
  }

  /** `s` begins with `p`. */
  predicate StartsWith(s: string, p: string)
  {
    |p| <= |s| && s[..|p|] == p
  }

  lemma StartsWithConcat(p: string, t: string)
    ensures StartsWith(p + t, p) && (p + t)[|p|..] == t
  {
    assert (p + t)[..|p|] == p;
  }
}
