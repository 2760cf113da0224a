/** Whitespace normalisation (services/utils.ts): the comparison fingerprint
    `normalizeForComparison` and the extraction cleaner `cleanText`, with the
    facts about collapsing white-space runs they rest on. */
module TextNormal {
  import opened Wrappers
  import opened JsString

  // ---------------------------------------------------------------------------
  // Facts about collapsing white-space runs

  lemma {:induction false} CollapseLast(s: string)
    ensures CollapseSpace(s) != [] ==> (IsSpace(CollapseSpace(s)[|CollapseSpace(s)| - 1]) <==> IsSpace(s[|s| - 1]))
    decreases |s|
  {
    if |s| > 0 {
      var r := CollapseSpace(s);
      if IsSpace(s[0]) {
        var t := TrimStart(s[1..]);
        TrimStartSuffix(s[1..]);
        CollapseLast(t);
        if CollapseSpace(t) != [] {
          assert t[|t| - 1] == s[|s| - 1];
        } else {
          TrimStartRemoved(s[1..]);
          assert s[1..] == s[1..][..|s[1..]| - |t|];
          assert |s| > 1 ==> IsSpace(s[1..][|s| - 2]);
        }
      } else {
        CollapseLast(s[1..]);
        if CollapseSpace(s[1..]) != [] {
          assert s[1..][|s| - 2] == s[|s| - 1];
        }
      }
    }
  }

  lemma CollapsedTail(s: string)
    requires Collapsed(s) && |s| > 0
    ensures Collapsed(s[1..])
  {
    forall i | 0 <= i < |s| - 1 ensures s[1..][i] == s[i + 1] { }
  }

  /** A string that is already collapsed is left as it is. */
  lemma {:induction false} CollapseFixed(s: string)
    requires Collapsed(s)
    ensures CollapseSpace(s) == s
    decreases |s|
  {
    if |s| > 0 {
      CollapsedTail(s);
      CollapseFixed(s[1..]);
      if IsSpace(s[0]) {
        assert s[0] == ' ';
        assert |s| > 1 ==> !IsSpace(s[1..][0]);
        assert TrimStart(s[1..]) == s[1..];
      }
      assert s == [s[0]] + s[1..];
    }
  }

  lemma CollapseIdempotent(s: string)
    ensures CollapseSpace(CollapseSpace(s)) == CollapseSpace(s)
  {
    CollapseFixed(CollapseSpace(s));
  }

  lemma {:induction false} TrimStartLower(s: string)
    ensures TrimStart(ToLower(s)) == ToLower(TrimStart(s))
    decreases |s|
  {
    if |s| > 0 {
      LowerCharFacts(s[0]);
      assert ToLower(s)[1..] == ToLower(s[1..]);
      TrimStartLower(s[1..]);
    }
  }

  lemma {:induction false} TrimEndLower(s: string)
    ensures TrimEnd(ToLower(s)) == ToLower(TrimEnd(s))
    decreases |s|
  {
    if |s| > 0 {
      LowerCharFacts(s[|s| - 1]);
      assert ToLower(s)[..|s| - 1] == ToLower(s[..|s| - 1]);
      TrimEndLower(s[..|s| - 1]);
    }
  }

  lemma TrimLower(s: string)
    ensures Trim(ToLower(s)) == ToLower(Trim(s))
  {
    TrimStartLower(s);
    TrimEndLower(TrimStart(s));
  }

  lemma ToLowerIdempotent(s: string)
    ensures ToLower(ToLower(s)) == ToLower(s)
  {
    forall i | 0 <= i < |s| ensures ToLower(ToLower(s))[i] == ToLower(s)[i] {
      LowerCharFacts(s[i]);
    }
  }

  lemma ToLowerAppend(a: string, b: string)
    ensures ToLower(a + b) == ToLower(a) + ToLower(b)
  {
  }

  lemma {:induction false} CollapseLower(s: string)
    ensures ToLower(CollapseSpace(s)) == CollapseSpace(ToLower(s))
    decreases |s|
  {
    if |s| > 0 {
      var ls := ToLower(s);
      LowerCharFacts(s[0]);
      assert ls[0] == LowerChar(s[0]);
      assert ls[1..] == ToLower(s[1..]);
      if IsSpace(s[0]) {
        var t := TrimStart(s[1..]);
        TrimStartLower(s[1..]);
        assert CollapseSpace(ls) == " " + CollapseSpace(TrimStart(ls[1..]));
        CollapseLower(t);
        ToLowerAppend(" ", CollapseSpace(t));
      } else {
        assert CollapseSpace(ls) == [ls[0]] + CollapseSpace(ls[1..]);
        CollapseLower(s[1..]);
        ToLowerAppend([s[0]], CollapseSpace(s[1..]));
      }
    }
  }

  lemma {:induction false} TrimStartAppend(x: string, y: string)
    requires !AllSpace(x)
    ensures TrimStart(x + y) == TrimStart(x) + y
    decreases |x|
  {
    assert |x| > 0;
    if IsSpace(x[0]) {
      assert (x + y)[1..] == x[1..] + y;
      assert !AllSpace(x[1..]) by {
        var k :| 0 <= k < |x| && !IsSpace(x[k]);
        assert x[1..][k - 1] == x[k];
      }
      TrimStartAppend(x[1..], y);
    }
  }

  lemma {:induction false} TrimStartAllSpace(s: string)
    requires AllSpace(s)
    ensures TrimStart(s) == []
    decreases |s|
  {
    if |s| > 0 {
      assert AllSpace(s[1..]) by {
        forall i | 0 <= i < |s| - 1 ensures IsSpace(s[1..][i]) { assert s[1..][i] == s[i + 1]; }
      }
      TrimStartAllSpace(s[1..]);
    }
  }

  lemma CollapseAllSpace(w: string)
    requires AllSpace(w)
    ensures CollapseSpace(w) == if w == [] then [] else " "
  {
    if w != [] {
      TrimStartAllSpace(w);
    }
  }

  lemma TrimStartNotAllSpace(s: string)
    requires !AllSpace(s)
    ensures TrimStart(s) != [] && TrimStart(s)[|TrimStart(s)| - 1] == s[|s| - 1]
  {
    TrimStartRemoved(s);
    TrimStartSuffix(s);
  }

  lemma {:induction false} CollapseAppend(x: string, y: string)
    requires x == [] || !IsSpace(x[|x| - 1])
    ensures CollapseSpace(x + y) == CollapseSpace(x) + CollapseSpace(y)
    decreases |x|
  {
    if x == [] {
      assert x + y == y;
    } else {
      var rest := x[1..];
      assert x == [x[0]] + rest;
      assert x + y == [x[0]] + (rest + y);
      if !IsSpace(x[0]) {
        assert rest == [] || rest[|rest| - 1] == x[|x| - 1];
        CollapseAppend(rest, y);
        CollapseAppendWord(x[0], rest, y);
      } else {
        assert !AllSpace(rest) by { assert rest[|x| - 2] == x[|x| - 1]; }
        TrimStartNotAllSpace(rest);
        var t := TrimStart(rest);
        CollapseAppend(t, y);
        CollapseAppendSpace(x[0], rest, y);
      }
    }
  }

  /** The step of `CollapseAppend` past a non-space first character. */
  lemma CollapseAppendWord(c: char, rest: string, y: string)
    requires !IsSpace(c)
    requires CollapseSpace(rest + y) == CollapseSpace(rest) + CollapseSpace(y)
    ensures CollapseSpace([c] + (rest + y)) == CollapseSpace([c] + rest) + CollapseSpace(y)
  {
    var a, d := CollapseSpace(rest), CollapseSpace(y);
    CollapseWordCons(c, rest + y);
    CollapseWordCons(c, rest);
    ConcatAssoc([c], a, d);
  }

  /** A non-space first character is kept as it is. */
  lemma CollapseWordCons(c: char, s: string)
    requires !IsSpace(c)
    ensures CollapseSpace([c] + s) == [c] + CollapseSpace(s)
  {
    assert ([c] + s)[1..] == s;
  }

  /** The step of `CollapseAppend` past a space first character. */
  lemma CollapseAppendSpace(c: char, rest: string, y: string)
    requires IsSpace(c) && !AllSpace(rest)
    requires CollapseSpace(TrimStart(rest) + y) == CollapseSpace(TrimStart(rest)) + CollapseSpace(y)
    ensures CollapseSpace([c] + (rest + y)) == CollapseSpace([c] + rest) + CollapseSpace(y)
  {
    var t := TrimStart(rest);
    var ct := CollapseSpace(t);
    var cy := CollapseSpace(y);
    TrimStartAppend(rest, y);
    CollapseSpaceCons(c, rest + y);
    CollapseSpaceCons(c, rest);
    ConcatAssoc(" ", ct, cy);
  }

  /** A white-space first character and the white space after it become one space. */
  lemma CollapseSpaceCons(c: char, s: string)
    requires IsSpace(c)
    ensures CollapseSpace([c] + s) == " " + CollapseSpace(TrimStart(s))
  {
    assert ([c] + s)[1..] == s;
  }

  lemma TrimStartCollapse(s: string)
    ensures TrimStart(CollapseSpace(s)) == CollapseSpace(TrimStart(s))
  {
    if |s| > 0 && IsSpace(s[0]) {
      var r := CollapseSpace(TrimStart(s[1..]));
      assert CollapseSpace(s) == " " + r;
      assert (" " + r)[1..] == r;
    }
  }

  lemma TrimEndSpace(x: string)
    requires x == [] || !IsSpace(x[|x| - 1])
    ensures TrimEnd(x + " ") == x
  {
    assert (x + " ")[..|x|] == x;
  }

  lemma TrimEndCollapse(t: string)
    ensures TrimEnd(CollapseSpace(t)) == CollapseSpace(TrimEnd(t))
  {
    var u := TrimEnd(t);
    var w := t[|u|..];
    TrimEndPrefix(t);
    assert t == u + w;
    TrimEndRemoved(t);
    var cu := CollapseSpace(u);
    var cw := CollapseSpace(w);
    assert cw == [] || cw == " " by { CollapseAllSpace(w); }
    assert CollapseSpace(t) == cu + cw by { CollapseAppend(u, w); }
    assert cu == [] || !IsSpace(cu[|cu| - 1]) by { CollapseLast(u); }
    if cw == [] {
      assert cu + cw == cu;
      assert TrimEnd(cu) == cu;
    } else {
      TrimEndSpace(cu);
    }
  }

  /** Trimming and collapsing commute. */
  lemma TrimCollapse(s: string)
    ensures Trim(CollapseSpace(s)) == CollapseSpace(Trim(s))
  {
    TrimStartCollapse(s);
    TrimEndCollapse(TrimStart(s));
  }

  // ---------------------------------------------------------------------------
  // The comparison fingerprint

  /** `normalizeForComparison`: trim, lower-case, collapse every white-space run to one space. */
  function Normalize(s: string): string {
    CollapseSpace(ToLower(Trim(s)))
  }

  /** A fingerprint has no white space at either end, no white space other than
      single spaces, and no upper-case ASCII letter. */
  lemma NormalizeShape(s: string)
    ensures Trimmed(Normalize(s)) && Collapsed(Normalize(s))
    ensures ToLower(Normalize(s)) == Normalize(s)
  {
    var m := Trim(s);
    var t := ToLower(m);
    if t != [] {
      LowerCharFacts(m[0]);
      LowerCharFacts(m[|m| - 1]);
      assert t[0] == LowerChar(m[0]) && t[|t| - 1] == LowerChar(m[|m| - 1]);
    }
    assert Trimmed(t);
    CollapseLast(t);
    CollapseLower(m);
    ToLowerIdempotent(m);
  }

  /** Fingerprinting a fingerprint gives it back. */
  lemma NormalizeIdempotent(s: string)
    ensures Normalize(Normalize(s)) == Normalize(s)
  {
    var n := Normalize(s);
    NormalizeShape(s);
    assert Trim(n) == n;
    CollapseFixed(n);
  }

  /** Strings that differ only in the case of ASCII letters share a fingerprint. */
  lemma NormalizeCaseInsensitive(s: string, t: string)
    requires ToLower(s) == ToLower(t)
    ensures Normalize(s) == Normalize(t)
  {
    TrimLower(s);
    TrimLower(t);
    ToLowerIdempotent(Trim(s));
    ToLowerIdempotent(Trim(t));
    assert ToLower(Trim(s)) == Trim(ToLower(s)) == Trim(ToLower(t)) == ToLower(Trim(t));
  }

  /** Replacing every white-space run by one space does not change the fingerprint. */
  lemma NormalizeIgnoresSpaceRuns(s: string)
    ensures Normalize(CollapseSpace(s)) == Normalize(s)
  {
    TrimCollapse(s);
    CollapseLower(Trim(s));
    CollapseIdempotent(ToLower(Trim(s)));
  }

  // ---------------------------------------------------------------------------
  // The extraction cleaner

  /** `cleanText`: a missing or empty text gives ""; otherwise white-space runs
      become single spaces and the ends are trimmed. */
  function CleanText(text: Option<string>): (r: string)
    ensures Trimmed(r) && Collapsed(r)
    ensures text.Some? ==> (r == "" <==> AllSpace(text.value))
    ensures text.None? ==> r == ""
  {
    match text
    case None => ""
    case Some(s) =>
      if s == "" then ""
      else
        TrimCollapse(s);
        TrimEmptyIff(s);
        CollapseAllSpaceIff(Trim(s));
        Trim(CollapseSpace(s))
  }

  lemma CollapseAllSpaceIff(s: string)
    ensures CollapseSpace(s) == [] <==> s == []
  {
  }

  /** Cleaning a cleaned text changes nothing. */
  lemma CleanTextIdempotent(text: Option<string>)
    ensures CleanText(Some(CleanText(text))) == CleanText(text)
  {
    var c := CleanText(text);
    if c != "" {
      CollapseFixed(c);
    }
  }
}
