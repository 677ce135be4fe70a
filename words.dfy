/** A reference definition of the normalisation, independent of the
    strip / substitute / upper-case pipeline: split the name into its
    whitespace-separated words (Python's `str.split()` with no argument),
    join them with single spaces and upper-case the result. */
module NameWords {
  import opened Ascii
  import opened NameNormalization

  /** The longest whitespace-free prefix of `s`. */
  function Word(s: string): (w: string)
    ensures |w| <= |s| && w == s[..|w|]
    ensures forall i :: 0 <= i < |w| ==> !IsSpace(w[i])
    ensures |w| < |s| ==> IsSpace(s[|w|])
    decreases |s|
  {
    if s == [] || IsSpace(s[0]) then [] else [s[0]] + Word(s[1..])
  }

  /** `str.split()`: the maximal whitespace-free pieces of `s`, in order. */
  ghost function Words(s: string): seq<string>
    decreases |s|
  {
    var t := TrimLeft(s);
    if t == [] then []
    else
      var w := Word(t);
      [w] + Words(t[|w|..])
  }

  /** Every word is non-empty and holds no whitespace. */
  lemma {:induction false} WordsAreWords(s: string)
    ensures forall k :: 0 <= k < |Words(s)| ==> Words(s)[k] != [] && NonSpace(Words(s)[k]) == Words(s)[k]
    decreases |s|
  {
    var t := TrimLeft(s);
    if t != [] {
      var w := Word(t);
      WordHasNoSpace(w);
      WordsAreWords(t[|w|..]);
    }
  }

  /** `" ".join(ws)`. */
  ghost function JoinWords(ws: seq<string>): string
    decreases |ws|
  {
    if |ws| == 0 then []
    else if |ws| == 1 then ws[0]
    else ws[0] + [' '] + JoinWords(ws[1..])
  }

  lemma {:induction false} WordHasNoSpace(w: string)
    requires forall i :: 0 <= i < |w| ==> !IsSpace(w[i])
    ensures NonSpace(w) == w
    decreases |w|
  {
    if w != [] {
      WordHasNoSpace(w[1..]);
    }
  }

  /** The normalised name is the upper-cased, single-space join of the
      raw name's words. */
  lemma NormalizeIsJoinedWords(s: string)
    ensures Normalize(s) == Upper(JoinWords(Words(s)))
  {
    var stripped := Strip(s);
    WordsOfStrip(s);
    CollapseTrimmed(stripped);
    assert Normalize(s) == Upper(Collapse(stripped));
  }

  /** `strip()` does not change the word list. */
  lemma WordsOfStrip(s: string)
    ensures Words(Strip(s)) == Words(s)
  {
    var left := TrimLeft(s);
    var stripped := TrimRight(left);
    assert Strip(s) == stripped;
    var sp := left[|stripped|..];
    assert AllSpace(sp);
    SplitAt(left, |stripped|);
    WordsIgnoreTrailingSpace(stripped, sp);
    WordsOfTrimLeft(s);
    calc {
      Words(Strip(s));
      Words(stripped);
      Words(stripped + sp);
      Words(left);
      Words(s);
    }
  }

  lemma WordsOfTrimLeft(s: string)
    ensures Words(TrimLeft(s)) == Words(s)
  {
    var t := TrimLeft(s);
    assert TrimLeft(t) == t;
  }

  lemma {:induction false} CollapseWordPrefix(w: string, y: string)
    requires forall i :: 0 <= i < |w| ==> !IsSpace(w[i])
    ensures Collapse(w + y) == w + Collapse(y)
    decreases |w|
  {
    if w != [] {
      DropAppend(w, y, 1);
      CollapseWordPrefix(w[1..], y);
    } else {
      assert w + y == y;
    }
  }

  lemma {:induction false} CollapseTrimmed(x: string)
    requires Trimmed(x)
    ensures Collapse(x) == JoinWords(Words(x))
    decreases |x|, 1
  {
    if x != [] {
      if |Word(x)| == |x| {
        CollapseOneWord(x);
      } else {
        CollapseSeveralWords(x);
      }
    }
  }

  /** The induction step of `CollapseTrimmed`, for a name of two or more words. */
  lemma {:induction false} CollapseSeveralWords(x: string)
    requires Trimmed(x) && x != [] && |Word(x)| < |x|
    ensures Collapse(x) == JoinWords(Words(x))
    decreases |x|, 0
  {
    var y := TrimLeft(x[|Word(x)|..]);
    assert |y| < |x| && Collapse(y) == JoinWords(Words(y)) by {
      LastWordsKeepEnd(x);
      CollapseTrimmed(y);
    }
    CollapseNextWord(x, y);
  }

  /** A trimmed name that is one word collapses to itself, its only word. */
  lemma CollapseOneWord(x: string)
    requires x != [] && !IsSpace(x[0]) && |Word(x)| == |x|
    ensures Collapse(x) == JoinWords(Words(x))
  {
    var rest := x[|Word(x)|..];
    CollapseAtWord(x);
    WordsAtWord(x);
    assert Words(rest) == [];
    assert Collapse(rest) == [];
  }

  /** After the first word of a trimmed name, what follows is trimmed too. */
  lemma LastWordsKeepEnd(x: string)
    requires Trimmed(x) && x != [] && |Word(x)| < |x|
    ensures Trimmed(TrimLeft(x[|Word(x)|..])) && |TrimLeft(x[|Word(x)|..])| < |x|
  {
    var k := |Word(x)|;
    assert k > 0 by {
      assert x[0] == x[..k + 1][0];
    }
    var rest := x[k..];
    assert |rest| == |x| - k;
    assert rest[|rest| - 1] == x[|x| - 1];
    TrimLeftKeepsEnd(rest);
  }

  /** One induction step of `CollapseTrimmed`: the first word, one space,
      then the collapse of the remaining words. */
  lemma CollapseNextWord(x: string, y: string)
    requires x != [] && !IsSpace(x[0]) && |Word(x)| < |x|
    requires y == TrimLeft(x[|Word(x)|..]) && y != []
    requires Collapse(y) == JoinWords(Words(y))
    ensures Collapse(x) == JoinWords(Words(x))
  {
    CollapseAfterWord(x);
    WordsAfterWord(x);
    JoinAfterWord(Collapse(x), Collapse(y), Word(x), Words(x), Words(y));
  }

  lemma CollapseAfterWord(x: string)
    requires x != [] && !IsSpace(x[0]) && |Word(x)| < |x|
    ensures Collapse(x) == Word(x) + ([' '] + Collapse(TrimLeft(x[|Word(x)|..])))
  {
    var rest := x[|Word(x)|..];
    CollapseAtWord(x);
    CollapseAtSpace(rest);
  }

  lemma WordsAfterWord(x: string)
    requires x != [] && !IsSpace(x[0]) && |Word(x)| < |x|
    requires TrimLeft(x[|Word(x)|..]) != []
    ensures Words(x) == [Word(x)] + Words(TrimLeft(x[|Word(x)|..]))
    ensures Words(TrimLeft(x[|Word(x)|..])) != []
  {
    var rest := x[|Word(x)|..];
    WordsAtWord(x);
    WordsOfTrimLeft(rest);
    WordsAtWord(TrimLeft(rest));
  }

  /** Bookkeeping step of `CollapseTrimmed`: one word, one space, the rest. */
  lemma JoinAfterWord(cx: string, cy: string, w: string, wx: seq<string>, wy: seq<string>)
    requires cx == w + ([' '] + cy) && cy == JoinWords(wy)
    requires wx == [w] + wy && wy != []
    ensures cx == JoinWords(wx)
  {
    assert wx[1..] == wy;
    assert w + ([' '] + cy) == w + [' '] + cy;
  }

  /** Collapsing passes a leading word through unchanged. */
  lemma CollapseAtWord(x: string)
    requires x != [] && !IsSpace(x[0])
    ensures Collapse(x) == Word(x) + Collapse(x[|Word(x)|..])
  {
    SplitAt(x, |Word(x)|);
    CollapseWordPrefix(Word(x), x[|Word(x)|..]);
  }

  lemma CollapseAtSpace(s: string)
    requires s != [] && IsSpace(s[0])
    ensures Collapse(s) == [' '] + Collapse(TrimLeft(s))
  {
  }

  lemma {:induction false} TrimLeftKeepsEnd(s: string)
    requires s != [] && !IsSpace(s[|s| - 1])
    ensures TrimLeft(s) != [] && Trimmed(TrimLeft(s))
    decreases |s|
  {
    if IsSpace(s[0]) {
      assert |s| > 1;
      assert s[1..][|s| - 2] == s[|s| - 1];
      TrimLeftKeepsEnd(s[1..]);
    } else {
      assert TrimLeft(s) == s;
    }
  }

  lemma WordsAtWord(x: string)
    requires x != [] && !IsSpace(x[0])
    ensures Words(x) == [Word(x)] + Words(x[|Word(x)|..])
  {
    assert TrimLeft(x) == x;
  }

  lemma {:induction false} TrimLeftAppend(a: string, b: string)
    requires TrimLeft(a) != []
    ensures TrimLeft(a + b) == TrimLeft(a) + b
    decreases |a|
  {
    if IsSpace(a[0]) {
      DropAppend(a, b, 1);
      TrimLeftAppend(a[1..], b);
    }
  }

  lemma {:induction false} TrimLeftOfSpaces(s: string)
    requires AllSpace(s)
    ensures TrimLeft(s) == []
  {
    if s != [] {
      TrimLeftOfSpaces(s[1..]);
    }
  }

  lemma {:induction false} WordAppend(a: string, b: string)
    requires |Word(a)| < |a| || b == [] || IsSpace(b[0])
    ensures Word(a + b) == Word(a)
    decreases |a|
  {
    if a == [] {
      assert a + b == b;
    } else if !IsSpace(a[0]) {
      DropAppend(a, b, 1);
      WordAppend(a[1..], b);
    }
  }

  lemma {:induction false} WordsIgnoreTrailingSpace(x: string, sp: string)
    requires AllSpace(sp)
    ensures Words(x + sp) == Words(x)
    decreases |x|
  {
    var t := TrimLeft(x);
    if t == [] {
      assert AllSpace(x) by {
        assert x[..|x|] == x;
      }
      AllSpaceAppend(x, sp);
      TrimLeftOfSpaces(x + sp);
    } else {
      TrimLeftAppend(x, sp);
      var w := Word(t);
      WordAppend(t, sp);
      var u := t[|w|..];
      WordsUnfold(x);
      WordsUnfold(x + sp);
      DropAppend(t, sp, |w|);
      WordsIgnoreTrailingSpace(u, sp);
      calc {
        Words(x + sp);
        [Word(t + sp)] + Words((t + sp)[|Word(t + sp)|..]);
        [w] + Words(u + sp);
        [w] + Words(u);
        Words(x);
      }
    }
  }

  lemma AllSpaceAppend(a: string, b: string)
    requires AllSpace(a) && AllSpace(b)
    ensures AllSpace(a + b)
  {
    forall i | 0 <= i < |a + b|
      ensures IsSpace((a + b)[i])
    {
      if i >= |a| {
        assert (a + b)[i] == b[i - |a|];
      }
    }
  }

  /** One step of `Words`, for a string with a word still in it. */
  lemma WordsUnfold(s: string)
    requires TrimLeft(s) != []
    ensures Words(s) == [Word(TrimLeft(s))] + Words(TrimLeft(s)[|Word(TrimLeft(s))|..])
  {
  }
}
