/** Character and string helpers shared by the scanner and the light-field
    matcher. Paths and file names are Python 2 `unicode` values in the
    original: the registry yields the simulator folder as `unicode`, and
    `os.walk` of a `unicode` root yields `unicode` names. The case
    conversions here are the ASCII-only ones: `re.IGNORECASE` without
    `re.UNICODE` folds only A-Z, and the `upper()` of FSX.py line 90 is
    applied to a byte string. */
module Text {

  predicate IsUpper(c: char) { 'A' <= c <= 'Z' }

  predicate IsLower(c: char) { 'a' <= c <= 'z' }

  predicate IsDigit(c: char) { '0' <= c <= '9' }

  /** True for the two characters a Windows path splits on. */
  predicate IsSeparator(c: char) { c == '\\' || c == '/' }

  /** `str()` of a `unicode` value encodes it as ASCII; it succeeds exactly
      when every character is below U+0080. */
  predicate IsAscii(s: string)
  {
    forall i :: 0 <= i < |s| ==> s[i] as int < 128
  }

  function ToLower(c: char): char
  {
    if IsUpper(c) then (c as int + 32) as char else c
  }

  function ToUpper(c: char): char
  {
    if IsLower(c) then (c as int - 32) as char else c
  }

  function Lower(s: string): string
  {
    seq(|s|, i requires 0 <= i < |s| => ToLower(s[i]))
  }

  function Upper(s: string): string
  {
    seq(|s|, i requires 0 <= i < |s| => ToUpper(s[i]))
  }

  /** `p` occurs in `s` starting at index `i`. */
  predicate OccursAt(s: string, p: string, i: int)
  {
    0 <= i && i + |p| <= |s| && s[i..i + |p|] == p
  }

  /** A plain substring search, what `re.search` does for a pattern without
      metacharacters. */
  predicate Occurs(s: string, p: string)
  {
    exists i :: 0 <= i <= |s| - |p| && OccursAt(s, p, i)
  }

  /** A character lowered to an ASCII letter was an ASCII letter of either case. */
  lemma LowerLetter(c: char)
    requires IsLower(ToLower(c))
    ensures IsUpper(c) || IsLower(c)
    ensures IsUpper(ToUpper(c)) && ToUpper(c) == ToUpper(ToLower(c))
  {
  }

  /** Upper-casing ignores the case a character had. */
  lemma UpperOfLower(c: char)
    ensures ToUpper(ToLower(c)) == ToUpper(c)
  {
  }

  lemma LowerAppend(a: string, b: string)
    ensures Lower(a + b) == Lower(a) + Lower(b)
  {
    assert forall i :: 0 <= i < |a + b| ==> Lower(a + b)[i] == (Lower(a) + Lower(b))[i];
  }

  /** An occurrence survives appending text after it. */
  lemma OccursAppend(s: string, t: string, p: string)
    requires Occurs(s, p)
    ensures Occurs(s + t, p)
  {
    var i :| 0 <= i <= |s| - |p| && OccursAt(s, p, i);
    assert (s + t)[i..i + |p|] == s[i..i + |p|];
    assert OccursAt(s + t, p, i);
  }
}
