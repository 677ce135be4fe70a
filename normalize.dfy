/** The name normalisation of the `/validate` handler (main.py line 41):
    strip surrounding whitespace, replace every run of whitespace by one
    space (`re.sub(r'\s+', ' ', ...)`), then upper-case. */
module NameNormalization {
  import opened Ascii

  /** `s` neither starts nor ends with whitespace. */
  ghost predicate Trimmed(s: string) {
    s == [] || (!IsSpace(s[0]) && !IsSpace(s[|s| - 1]))
  }

  /** No two whitespace characters are adjacent in `s`: `s[i]` and `s[i + 1]`
      are never both whitespace (`j` names `i + 1`). */
  ghost predicate NoSpaceRun(s: string) {
    forall i, j :: 0 <= i < j < |s| && j == i + 1 ==> !IsSpace(s[i]) || !IsSpace(s[j])
  }

  /** The only whitespace character in `s` is the plain space. */
  ghost predicate OnlyBlank(s: string) {
    forall i :: 0 <= i < |s| && IsSpace(s[i]) ==> s[i] == ' '
  }

  /** The shape every normalised name has. */
  ghost predicate Canonical(s: string) {
    Trimmed(s) && NoSpaceRun(s) && OnlyBlank(s) && NoLower(s)
  }

  ghost predicate AllSpace(s: string) {
    forall i :: 0 <= i < |s| ==> IsSpace(s[i])
  }

  /** The non-whitespace characters of `s`, in order. */
  function NonSpace(s: string): string {
    if s == [] then []
    else (if IsSpace(s[0]) then [] else [s[0]]) + NonSpace(s[1..])
  }

  /** Leading half of `str.strip()`: drops the whitespace prefix. */
  function TrimLeft(s: string): (r: string)
    ensures |r| <= |s| && r == s[|s| - |r|..]
    ensures r == [] || !IsSpace(r[0])
    ensures AllSpace(s[..|s| - |r|])
  {
    if s != [] && IsSpace(s[0]) then
      var r := TrimLeft(s[1..]);
      assert s[..|s| - |r|] == [s[0]] + s[1..][..|s| - 1 - |r|];
      r
    else s
  }

  /** Trailing half of `str.strip()`: drops the whitespace suffix. */
  function TrimRight(s: string): (r: string)
    ensures |r| <= |s| && r == s[..|r|]
    ensures r == [] || !IsSpace(r[|r| - 1])
    ensures AllSpace(s[|r|..])
  {
    if s != [] && IsSpace(s[|s| - 1]) then
      var r := TrimRight(s[..|s| - 1]);
      assert s[|r|..] == s[..|s| - 1][|r|..] + [s[|s| - 1]];
      r
    else s
  }

  /** `r` is the slice of `s` that starts at `i`, and everything of `s`
      before and after that slice is whitespace. */
  ghost predicate SpaceBounded(s: string, r: string, i: int) {
    0 <= i <= |s| - |r| && r == s[i..i + |r|]
    && AllSpace(s[..i]) && AllSpace(s[i + |r|..])
  }

  /** `str.strip()`: removes leading and trailing whitespace and nothing else
      (`StripIsInfix` states the "nothing else"). */
  function Strip(s: string): (r: string)
    ensures Trimmed(r)
    ensures NonSpace(r) == NonSpace(s)
  {
    NonSpaceTrimLeft(s);
    NonSpaceTrimRight(TrimLeft(s));
    TrimRight(TrimLeft(s))
  }

  /** The stripped name is the slice of the input that starts where the
      leading whitespace ends, and all of the input outside that slice is
      whitespace: interior whitespace is kept. */
  lemma StripIsInfix(s: string)
    ensures SpaceBounded(s, Strip(s), |s| - |TrimLeft(s)|)
  {
    var left := TrimLeft(s);
    SliceBetweenSpaces(s, left, TrimRight(left), |s| - |left|);
  }

  /** If `left` is `s` after dropping a whitespace prefix of length `i`, and
      `r` is `left` after dropping a whitespace suffix, then `r` is the slice
      of `s` at `i`, bounded by whitespace on both sides. */
  lemma SliceBetweenSpaces(s: string, left: string, r: string, i: nat)
    requires i <= |s| && left == s[i..] && AllSpace(s[..i])
    requires |r| <= |left| && r == left[..|r|] && AllSpace(left[|r|..])
    ensures SpaceBounded(s, r, i)
  {
    SliceOfSlice(s, i, |r|);
  }

  lemma SliceOfSlice(s: string, i: nat, k: nat)
    requires i + k <= |s|
    ensures s[i..][..k] == s[i..i + k] && s[i..][k..] == s[i + k..]
  {
  }

  /** `re.sub(r'\s+', ' ', s)`: each maximal run of whitespace becomes one space. */
  function Collapse(s: string): (r: string)
    decreases |s|
    ensures |r| == 0 <==> |s| == 0
    ensures |s| > 0 ==> (IsSpace(r[0]) <==> IsSpace(s[0]))
    ensures |s| > 0 ==> (IsSpace(r[|r| - 1]) <==> IsSpace(s[|s| - 1]))
  {
    if s == [] then []
    else if IsSpace(s[0]) then
      var rest := TrimLeft(s[1..]);
      assert rest != [] ==> rest[|rest| - 1] == s[|s| - 1];
      assert rest == [] && |s| > 1 ==> IsSpace(s[1..][|s| - 2]);
      [' '] + Collapse(rest)
    else
      [s[0]] + Collapse(s[1..])
  }

  /** After collapsing, whitespace never comes in runs and is always a plain space. */
  lemma CollapseShape(s: string)
    ensures NoSpaceRun(Collapse(s)) && OnlyBlank(Collapse(s))
  {
    CollapseNoSpaceRun(s);
    CollapseOnlyBlank(s);
  }

  lemma {:induction false} CollapseNoSpaceRun(s: string)
    ensures NoSpaceRun(Collapse(s))
    decreases |s|
  {
    if s != [] {
      var tail := if IsSpace(s[0]) then TrimLeft(s[1..]) else s[1..];
      CollapseNoSpaceRun(tail);
      var c := Collapse(tail);
      var h := if IsSpace(s[0]) then ' ' else s[0];
      assert Collapse(s) == [h] + c;
      assert IsSpace(h) ==> c == [] || !IsSpace(c[0]);
      ConsNoSpaceRun(h, c);
    }
  }

  lemma ConsNoSpaceRun(h: char, c: string)
    requires NoSpaceRun(c)
    requires IsSpace(h) ==> c == [] || !IsSpace(c[0])
    ensures NoSpaceRun([h] + c)
  {
    var r := [h] + c;
    forall i, j | 0 <= i < j < |r| && j == i + 1
      ensures !IsSpace(r[i]) || !IsSpace(r[j])
    {
      if i > 0 {
        assert r[i] == c[i - 1] && r[j] == c[j - 1];
      }
    }
  }

  lemma {:induction false} CollapseOnlyBlank(s: string)
    ensures OnlyBlank(Collapse(s))
    decreases |s|
  {
    if s != [] {
      var tail := if IsSpace(s[0]) then TrimLeft(s[1..]) else s[1..];
      CollapseOnlyBlank(tail);
      var c := Collapse(tail);
      var h := if IsSpace(s[0]) then ' ' else s[0];
      assert Collapse(s) == [h] + c;
      ConsOnlyBlank(h, c);
    }
  }

  lemma ConsOnlyBlank(h: char, c: string)
    requires OnlyBlank(c)
    requires IsSpace(h) ==> h == ' '
    ensures OnlyBlank([h] + c)
  {
    var r := [h] + c;
    forall i | 0 <= i < |r| && IsSpace(r[i])
      ensures r[i] == ' '
    {
      if i > 0 {
        assert r[i] == c[i - 1];
      }
    }
  }

  /** The whole normalisation expression of main.py line 41. */
  function Normalize(s: string): (r: string)
    ensures Canonical(r)
    ensures NonSpace(r) == Upper(NonSpace(s))
  {
    var c := Collapse(Strip(s));
    CollapseShape(Strip(s));
    NonSpaceCollapse(Strip(s));
    NonSpaceUpper(c);
    Upper(c)
  }

  /** Normalising a normalised name changes nothing. */
  lemma NormalizeIdempotent(s: string)
    ensures Normalize(Normalize(s)) == Normalize(s)
  {
    CanonicalIsFixed(Normalize(s));
  }

  /** A name already in canonical shape is its own normal form. */
  lemma CanonicalIsFixed(t: string)
    requires Canonical(t)
    ensures Normalize(t) == t
  {
    assert TrimLeft(t) == t;
    assert TrimRight(t) == t;
    CollapseFixed(t);
    UpperOfUpperCase(t);
  }

  lemma {:induction false} CollapseFixed(t: string)
    requires NoSpaceRun(t) && OnlyBlank(t)
    ensures Collapse(t) == t
    decreases |t|
  {
    if t != [] {
      TailKeepsShape(t);
      CollapseFixed(t[1..]);
      CollapseFixedStep(t);
    }
  }

  /** One step of `CollapseFixed`: a single leading space, or a leading
      non-whitespace character, is kept in front of a fixed tail. */
  lemma CollapseFixedStep(t: string)
    requires t != [] && Collapse(t[1..]) == t[1..]
    requires IsSpace(t[0]) ==> t[0] == ' ' && (|t| == 1 || !IsSpace(t[1]))
    ensures Collapse(t) == t
  {
    var tail := t[1..];
    if IsSpace(t[0]) {
      assert TrimLeft(tail) == tail;
      assert Collapse(t) == [' '] + tail;
    } else {
      assert Collapse(t) == [t[0]] + tail;
    }
    assert t == [t[0]] + tail;
  }

  /** Dropping the first character keeps both halves of the collapsed shape,
      and a leading space is never followed by whitespace. */
  lemma TailKeepsShape(t: string)
    requires t != [] && NoSpaceRun(t) && OnlyBlank(t)
    ensures NoSpaceRun(t[1..]) && OnlyBlank(t[1..])
    ensures IsSpace(t[0]) ==> t[0] == ' ' && (|t| == 1 || !IsSpace(t[1]))
  {
    var tail := t[1..];
    forall i | 0 <= i < |tail| ensures tail[i] == t[i + 1] { }
  }

  lemma {:induction false} NonSpaceAppend(a: string, b: string)
    ensures NonSpace(a + b) == NonSpace(a) + NonSpace(b)
    decreases |a|
  {
    if a == [] {
      assert a + b == b;
    } else {
      var head := if IsSpace(a[0]) then [] else [a[0]];
      assert (a + b)[0] == a[0];
      DropAppend(a, b, 1);
      NonSpaceAppend(a[1..], b);
      AppendAssoc(head, NonSpace(a[1..]), NonSpace(b));
    }
  }

  lemma {:induction false} NonSpaceOfSpaces(s: string)
    requires AllSpace(s)
    ensures NonSpace(s) == []
    decreases |s|
  {
    if s != [] {
      NonSpaceOfSpaces(s[1..]);
    }
  }

  lemma NonSpaceTrimLeft(s: string)
    ensures NonSpace(TrimLeft(s)) == NonSpace(s)
  {
    var left := TrimLeft(s);
    NonSpaceAppend(s[..|s| - |left|], left);
    NonSpaceOfSpaces(s[..|s| - |left|]);
    SplitAt(s, |s| - |left|);
  }

  lemma NonSpaceTrimRight(s: string)
    ensures NonSpace(TrimRight(s)) == NonSpace(s)
  {
    var right := TrimRight(s);
    NonSpaceAppend(right, s[|right|..]);
    NonSpaceOfSpaces(s[|right|..]);
    SplitAt(s, |right|);
  }

  lemma {:induction false} NonSpaceCollapse(s: string)
    ensures NonSpace(Collapse(s)) == NonSpace(s)
    decreases |s|
  {
    if s != [] {
      if IsSpace(s[0]) {
        var rest := TrimLeft(s[1..]);
        NonSpaceCollapse(rest);
        NonSpaceTrimLeft(s[1..]);
        assert Collapse(s) == [' '] + Collapse(rest);
        assert NonSpace(Collapse(s)) == NonSpace(Collapse(rest));
      } else {
        NonSpaceCollapse(s[1..]);
      }
    }
  }

  lemma {:induction false} NonSpaceUpper(s: string)
    ensures NonSpace(Upper(s)) == Upper(NonSpace(s))
    decreases |s|
  {
    if s != [] {
      NonSpaceUpper(s[1..]);
      assert Upper(s)[1..] == Upper(s[1..]);
    }
  }

  /** Membership in `NonSpace(s)`: exactly the non-whitespace characters of `s`. */
  lemma {:induction false} NonSpaceMembers(s: string)
    ensures forall c :: c in NonSpace(s) <==> c in s && !IsSpace(c)
    decreases |s|
  {
    if s != [] {
      NonSpaceMembers(s[1..]);
      assert s == [s[0]] + s[1..];
    }
  }

  lemma SplitAt(s: string, k: nat)
    requires k <= |s|
    ensures s == s[..k] + s[k..]
  {
  }

  lemma AppendAssoc(a: string, b: string, c: string)
    ensures (a + b) + c == a + (b + c)
  {
  }

  lemma DropAppend(a: string, b: string, k: nat)
    requires k <= |a|
    ensures (a + b)[k..] == a[k..] + b
  {
  }
}
