/** `validate_name` (main.py lines 31-32): `re.search(r'^[A-Z][A-Z\s]*$', name)`.

    The pattern is modelled piece by piece: `[A-Z\s]*` as `MatchStar`,
    `[A-Z][A-Z\s]*` as `MatchBody`, and the anchors as `ValidateName`.
    Without the MULTILINE flag `^` only matches at position 0, while `$`
    matches at the end of the string or just before a line feed that ends it. */
module NamePattern {
  import opened Ascii

  /** One character of the class `[A-Z\s]`. */
  predicate IsNameChar(c: char) {
    IsUpper(c) || IsSpace(c)
  }

  /** `t` is matched in full by `[A-Z\s]*`. */
  function MatchStar(t: string): (b: bool)
    ensures b <==> forall i :: 0 <= i < |t| ==> IsNameChar(t[i])
    decreases |t|
  {
    if t == [] then true else IsNameChar(t[0]) && MatchStar(t[1..])
  }

  /** `t` is matched in full by `[A-Z][A-Z\s]*`. */
  predicate MatchBody(t: string) {
    |t| > 0 && IsUpper(t[0]) && MatchStar(t[1..])
  }

  /** `validate_name`: the anchored pattern matches, with `$` either at the
      very end or in front of one final line feed. */
  function ValidateName(s: string): (b: bool)
    ensures b <==> |s| > 0 && IsUpper(s[0]) && forall i :: 1 <= i < |s| ==> IsNameChar(s[i])
  {
    if MatchBody(s) then true
    else if |s| > 0 && s[|s| - 1] == '\n' then
      // Kept to mirror `$` before a final line feed. Since `\n` is itself
      // in `[A-Z\s]`, this branch never changes the answer.
      assert IsNameChar(s[|s| - 1]);
      MatchBody(s[..|s| - 1])
    else false
  }
}
