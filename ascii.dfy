/** ASCII character classes used by the applicant-name checks.

    Whitespace is modelled as the six ASCII characters space, tab, line
    feed, carriage return, form feed and vertical tab. Python's `str.strip()`
    and `\s` also count U+001C-U+001F and non-ASCII spaces (see README,
    Left out).
    Upper-casing maps `a`-`z` onto `A`-`Z` and leaves every other
    character alone. */
module Ascii {

  /** Tab, line feed, vertical tab, form feed and carriage return are the
      contiguous code points 9 to 13; the sixth whitespace character is the
      space, 32. */
  predicate IsSpace(c: char) {
    c == ' ' || '\t' <= c <= '\r'
  }

  predicate IsUpper(c: char) {
    'A' <= c <= 'Z'
  }

  predicate IsLower(c: char) {
    'a' <= c <= 'z'
  }

  predicate IsLetter(c: char) {
    IsUpper(c) || IsLower(c)
  }

  /** Python's `str.upper()` restricted to ASCII. */
  function ToUpper(c: char): (u: char)
    ensures !IsLower(u)
    ensures IsUpper(u) <==> IsLetter(c)
    ensures IsSpace(u) <==> IsSpace(c)
    ensures !IsLower(c) ==> u == c
    ensures IsLower(c) ==> u as int - 'A' as int == c as int - 'a' as int
  {
    if IsLower(c) then (c as int - 32) as char else c
  }

  /** Upper-cases every character of `s`, keeping its length and positions. */
  function Upper(s: string): (r: string)
    ensures |r| == |s|
    ensures forall i :: 0 <= i < |s| ==> r[i] == ToUpper(s[i])
  {
    seq(|s|, i requires 0 <= i < |s| => ToUpper(s[i]))
  }

  /** No character of `s` is a lower-case ASCII letter. */
  predicate NoLower(s: string) {
    forall i :: 0 <= i < |s| ==> !IsLower(s[i])
  }

  lemma UpperOfUpperCase(s: string)
    requires NoLower(s)
    ensures Upper(s) == s
  {
  }
}
