/** The JavaScript string built-ins the application relies on, written out with the
    meaning ECMAScript gives them: the white-space set of `\s` and `trim()`, `split`
    on one character, `join`, `includes`, `indexOf`, and `replace` with a string
    pattern (including its `$` substitution patterns). Case mapping covers ASCII only. */
module JsString {
  import opened Wrappers

  // ---------------------------------------------------------------------------
  // White space

  /** The WhiteSpace and LineTerminator code points of ECMAScript: what `\s`
      matches and what `trim()` removes. */
  predicate IsSpace(c: char) {
    || c == '\t' || c == '\n' || c == '\U{B}' || c == '\U{C}' || c == '\r' || c == ' '
    || c == '\U{A0}' || c == '\U{1680}' || ('\U{2000}' <= c <= '\U{200A}')
    || c == '\U{2028}' || c == '\U{2029}' || c == '\U{202F}' || c == '\U{205F}'
    || c == '\U{3000}' || c == '\U{FEFF}'
  }

  predicate AllSpace(s: string) {
    forall i | 0 <= i < |s| :: IsSpace(s[i])
  }

  /** Neither the first nor the last character is white space. */
  predicate Trimmed(s: string) {
    s == [] || (!IsSpace(s[0]) && !IsSpace(s[|s| - 1]))
  }

  /** Every white-space character is a plain space and no two are adjacent:
      what `replace(/\s+/g, ' ')` leaves behind. */
  predicate Collapsed(s: string) {
    && (forall i | 0 <= i < |s| :: IsSpace(s[i]) ==> s[i] == ' ')
    && (forall i | 0 <= i < |s| - 1 :: !(IsSpace(s[i]) && IsSpace(s[i + 1])))
  }

  function TrimStart(s: string): (r: string)
    ensures |r| <= |s|
    ensures r == [] || !IsSpace(r[0])
  {
    if |s| > 0 && IsSpace(s[0]) then TrimStart(s[1..]) else s
  }

  /** `TrimStart` keeps a suffix. */
  lemma {:induction false} TrimStartSuffix(s: string)
    ensures TrimStart(s) == s[|s| - |TrimStart(s)|..]
    decreases |s|
  {
    if |s| > 0 && IsSpace(s[0]) {
      TrimStartSuffix(s[1..]);
      assert s[1..][|s| - 1 - |TrimStart(s)|..] == s[|s| - |TrimStart(s)|..];
    }
  }

  /** What `TrimStart` removes is white space. */
  lemma {:induction false} TrimStartRemoved(s: string)
    ensures AllSpace(s[..|s| - |TrimStart(s)|])
    decreases |s|
  {
    if |s| > 0 && IsSpace(s[0]) {
      TrimStartRemoved(s[1..]);
      var k := |s| - |TrimStart(s)|;
      forall i | 0 <= i < k ensures IsSpace(s[i]) {
        if i > 0 { assert s[i] == s[1..][..k - 1][i - 1]; }
      }
    }
  }

  function TrimEnd(s: string): (r: string)
    ensures |r| <= |s|
    ensures r == [] || !IsSpace(r[|r| - 1])
  {
    if |s| > 0 && IsSpace(s[|s| - 1]) then TrimEnd(s[..|s| - 1]) else s
  }

  /** `TrimEnd` keeps a prefix. */
  lemma {:induction false} TrimEndPrefix(s: string)
    ensures TrimEnd(s) == s[..|TrimEnd(s)|]
    decreases |s|
  {
    if |s| > 0 && IsSpace(s[|s| - 1]) {
      TrimEndPrefix(s[..|s| - 1]);
    }
  }

  /** What `TrimEnd` removes is white space. */
  lemma {:induction false} TrimEndRemoved(s: string)
    ensures AllSpace(s[|TrimEnd(s)|..])
    decreases |s|
  {
    if |s| > 0 && IsSpace(s[|s| - 1]) {
      TrimEndRemoved(s[..|s| - 1]);
      var k := |TrimEnd(s)|;
      forall i | k <= i < |s| ensures IsSpace(s[i]) {
        if i < |s| - 1 { assert s[i] == s[..|s| - 1][k..][i - k]; }
      }
    }
  }

  /** `String.prototype.trim`. */
  function Trim(s: string): (r: string)
    ensures Trimmed(r)
    ensures |r| <= |s|
    ensures Trimmed(s) ==> r == s
  {
    TrimEndPrefix(TrimStart(s));
    TrimEnd(TrimStart(s))
  }

  /** Trimming leaves nothing exactly when the text is all white space. */
  lemma TrimEmptyIff(s: string)
    ensures Trim(s) == [] <==> AllSpace(s)
  {
    var t := TrimStart(s);
    TrimStartSuffix(s);
    TrimEndPrefix(t);
    TrimStartRemoved(s);
    TrimEndRemoved(t);
    if Trim(s) == [] {
      assert s[..|s| - |t|] == s;
    }
  }

  /** Trim only removes white space from the two ends. */
  lemma TrimInfix(s: string) returns (i: nat)
    ensures i + |Trim(s)| <= |s| && Trim(s) == s[i..i + |Trim(s)|]
    ensures AllSpace(s[..i]) && AllSpace(s[i + |Trim(s)|..])
  {
    var t := TrimStart(s);
    i := |s| - |t|;
    var r := TrimEnd(t);
    assert Trim(s) == r;
    TrimStartSuffix(s);
    TrimEndPrefix(t);
    TrimStartRemoved(s);
    TrimEndRemoved(t);
    assert s[i..] == t && t[..|r|] == r;
    assert s[i..i + |r|] == s[i..][..|r|];
    assert s[i + |r|..] == s[i..][|r|..];
  }

  // ---------------------------------------------------------------------------
  // Case mapping (ASCII letters only)

  function LowerChar(c: char): char {
    if 'A' <= c <= 'Z' then (c as int + 32) as char else c
  }

  function UpperChar(c: char): char {
    if 'a' <= c <= 'z' then (c as int - 32) as char else c
  }

  /** `toLowerCase()`, for the ASCII letters. */
  function ToLower(s: string): (r: string)
    ensures |r| == |s| && forall i | 0 <= i < |s| :: r[i] == LowerChar(s[i])
  {
    seq(|s|, i requires 0 <= i < |s| => LowerChar(s[i]))
  }

  /** `toUpperCase()`, for the ASCII letters. */
  function ToUpper(s: string): (r: string)
    ensures |r| == |s| && forall i | 0 <= i < |s| :: r[i] == UpperChar(s[i])
  {
    seq(|s|, i requires 0 <= i < |s| => UpperChar(s[i]))
  }

  lemma LowerCharFacts(c: char)
    ensures LowerChar(LowerChar(c)) == LowerChar(c)
    ensures IsSpace(LowerChar(c)) == IsSpace(c)
    ensures LowerChar(c) == ' ' <==> c == ' '
  {}

  predicate IsDigit(c: char) { '0' <= c <= '9' }

  // ---------------------------------------------------------------------------
  // Searching

  predicate StartsWith(s: string, p: string) {
    |p| <= |s| && s[..|p|] == p
  }

  predicate EndsWith(s: string, p: string) {
    |p| <= |s| && s[|s| - |p|..] == p
  }

  predicate OccursAt(s: string, p: string, i: nat) {
    i + |p| <= |s| && s[i..i + |p|] == p
  }

  /** `String.prototype.includes`. */
  predicate Contains(s: string, p: string) {
    exists i: nat | i <= |s| :: OccursAt(s, p, i)
  }

  lemma ConcatAssoc(a: string, b: string, d: string)
    ensures a + (b + d) == (a + b) + d
  {
  }

  /** The first match is where a match is and no earlier one is. */
  lemma IndexOfIs(s: string, p: string, m: nat)
    requires OccursAt(s, p, m) && forall j: nat | j < m :: !OccursAt(s, p, j)
    ensures IndexOf(s, p) == Some(m)
  {
    assert Contains(s, p);
  }

  /** With no match anywhere there is no first match. */
  lemma IndexOfNone(s: string, p: string)
    requires forall j: nat :: !OccursAt(s, p, j)
    ensures IndexOf(s, p) == None
  {
  }

  /** A string occurs in any string built around it. */
  lemma ContainsMiddle(a: string, p: string, b: string)
    ensures OccursAt(a + p + b, p, |a|) && Contains(a + p + b, p)
  {
    var s := a + p + b;
    assert s[|a|..|a| + |p|] == p;
    assert OccursAt(s, p, |a|);
  }

  function IndexOfFrom(s: string, p: string, k: nat): (r: Option<nat>)
    ensures r.Some? ==> k <= r.value && OccursAt(s, p, r.value)
    ensures r.Some? ==> forall j: nat | k <= j < r.value :: !OccursAt(s, p, j)
    ensures r.None? ==> forall j: nat | k <= j :: !OccursAt(s, p, j)
    decreases |s| - k
  {
    if k + |p| > |s| then None
    else if OccursAt(s, p, k) then Some(k)
    else IndexOfFrom(s, p, k + 1)
  }

  /** `String.prototype.indexOf`: the first position where `p` occurs. */
  function IndexOf(s: string, p: string): (r: Option<nat>)
    ensures r.Some? ==> OccursAt(s, p, r.value) && forall j: nat | j < r.value :: !OccursAt(s, p, j)
    ensures r.None? <==> !Contains(s, p)
  {
    IndexOfFrom(s, p, 0)
  }

  // ---------------------------------------------------------------------------
  // Rewriting

  /** `replace(/\s+/g, ' ')`: every maximal run of white space becomes one space. */
  function CollapseSpace(s: string): (r: string)
    ensures Collapsed(r)
    ensures |r| <= |s|
    ensures r == [] ==> s == []
    ensures r != [] ==> (IsSpace(r[0]) <==> IsSpace(s[0]))
    decreases |s|
  {
    if |s| == 0 then ""
    else if IsSpace(s[0]) then
      var rest := CollapseSpace(TrimStart(s[1..]));
      assert rest != [] ==> !IsSpace(rest[0]);
      " " + rest
    else
      [s[0]] + CollapseSpace(s[1..])
  }

  /** The text a replacement string stands for (ECMAScript's GetSubstitution for a
      string pattern, which has no capture groups): `$$` is `$`, `$&` is the match,
      `` $` `` the text before it and `$'` the text after it; every other `$` is
      kept as written. */
  function Substitute(rep: string, matched: string, before: string, after: string): string
    decreases |rep|
  {
    if |rep| == 0 then ""
    else if rep[0] == '$' && |rep| >= 2 && rep[1] == '$' then "$" + Substitute(rep[2..], matched, before, after)
    else if rep[0] == '$' && |rep| >= 2 && rep[1] == '&' then matched + Substitute(rep[2..], matched, before, after)
    else if rep[0] == '$' && |rep| >= 2 && rep[1] == '`' then before + Substitute(rep[2..], matched, before, after)
    else if rep[0] == '$' && |rep| >= 2 && rep[1] == '\'' then after + Substitute(rep[2..], matched, before, after)
    else [rep[0]] + Substitute(rep[1..], matched, before, after)
  }

  /** A replacement string without `$` stands for itself. */
  lemma {:induction false} SubstitutePlain(rep: string, matched: string, before: string, after: string)
    requires '$' !in rep
    ensures Substitute(rep, matched, before, after) == rep
    decreases |rep|
  {
    if |rep| > 0 {
      assert rep[0] != '$';
      assert '$' !in rep[1..] by {
        forall i | 0 <= i < |rep[1..]| ensures rep[1..][i] != '$' { assert rep[1..][i] == rep[i + 1]; }
      }
      SubstitutePlain(rep[1..], matched, before, after);
    }
  }

  /** `s.replace(p, rep)` with a string pattern: only the first occurrence is replaced. */
  function ReplaceFirst(s: string, p: string, rep: string): string {
    match IndexOf(s, p)
    case None => s
    case Some(i) => s[..i] + Substitute(rep, p, s[..i], s[i + |p|..]) + s[i + |p|..]
  }

  /** Every slice of a string occurs in it. */
  lemma ContainsSlice(s: string, i: nat, j: nat)
    requires i <= j <= |s|
    ensures Contains(s, s[i..j])
  {
    assert OccursAt(s, s[i..j], i);
  }

  /** What occurs in a part of a string occurs in the string. */
  lemma ContainsTransitive(a: string, b: string, c: string)
    requires Contains(a, b) && Contains(b, c)
    ensures Contains(a, c)
  {
    var i: nat :| i <= |a| && OccursAt(a, b, i);
    var j: nat :| j <= |b| && OccursAt(b, c, j);
    assert a[i..i + |b|] == b;
    forall k | 0 <= k < |c| ensures a[i + j..i + j + |c|][k] == c[k] {
      assert a[i + j + k] == a[i..i + |b|][j + k];
      assert b[j..j + |c|][k] == b[j + k];
    }
    assert a[i + j..i + j + |c|] == c;
    assert OccursAt(a, c, i + j);
  }

  // ---------------------------------------------------------------------------
  // Splitting and joining

  /** `xs.join(sep)`. */
  function Join(xs: seq<string>, sep: string): string {
    if |xs| == 0 then ""
    else if |xs| == 1 then xs[0]
    else xs[0] + sep + Join(xs[1..], sep)
  }

  function IndexOfChar(s: string, c: char): (r: Option<nat>)
    ensures r.Some? ==> r.value < |s| && s[r.value] == c && c !in s[..r.value]
    ensures r.None? ==> c !in s
  {
    if |s| == 0 then None
    else if s[0] == c then Some(0)
    else match IndexOfChar(s[1..], c)
      case None => None
      case Some(i) => assert s[..i + 1] == [s[0]] + s[1..][..i]; Some(i + 1)
  }

  /** `s.split(sep)` for a one-character separator: never empty, and joining the
      pieces back gives `s`. */
  function Split(s: string, sep: char): (r: seq<string>)
    ensures |r| >= 1
    ensures forall k | 0 <= k < |r| :: sep !in r[k]
    ensures Join(r, [sep]) == s
    decreases |s|
  {
    match IndexOfChar(s, sep)
    case None => [s]
    case Some(i) =>
      var rest := Split(s[i + 1..], sep);
      assert s == s[..i] + [sep] + s[i + 1..];
      [s[..i]] + rest
  }

  /** Every piece of a split occurs in the string split. */
  lemma {:induction false} SplitPiecesOccur(s: string, sep: char)
    ensures forall k | 0 <= k < |Split(s, sep)| :: Contains(s, Split(s, sep)[k])
    decreases |s|
  {
    var i := IndexOfChar(s, sep);
    if i.None? {
      ContainsSlice(s, 0, |s|);
      assert s[0..|s|] == s;
    } else {
      var rest := s[i.value + 1..];
      SplitPiecesOccur(rest, sep);
      ContainsSlice(s, 0, i.value);
      ContainsSlice(s, i.value + 1, |s|);
      assert s[i.value + 1..|s|] == rest;
      SplitStep(s, sep, i.value);
      forall k | 0 <= k < |Split(s, sep)| ensures Contains(s, Split(s, sep)[k]) {
        if k > 0 {
          ContainsTransitive(s, rest, Split(rest, sep)[k - 1]);
        }
      }
    }
  }

  lemma SplitStep(s: string, sep: char, i: nat)
    requires IndexOfChar(s, sep) == Some(i)
    ensures Split(s, sep) == [s[0..i]] + Split(s[i + 1..], sep)
  {
    assert s[0..i] == s[..i];
  }

  // ---------------------------------------------------------------------------
  // Numbers

  function DigitChar(d: nat): char
    requires d < 10
  {
    ('0' as int + d) as char
  }

  /** `String(n)` for a non-negative integer. */
  function NatToString(n: nat): (r: string)
    ensures |r| >= 1 && forall i | 0 <= i < |r| :: IsDigit(r[i])
  {
    if n < 10 then [DigitChar(n)] else NatToString(n / 10) + [DigitChar(n % 10)]
  }

  // ---------------------------------------------------------------------------
  // Ordering: the comparison `Array.prototype.sort` uses by default

  predicate StrLess(a: string, b: string)
    decreases |a|
  {
    if |a| == 0 then |b| > 0
    else if |b| == 0 then false
    else if a[0] != b[0] then a[0] < b[0]
    else StrLess(a[1..], b[1..])
  }

  lemma {:induction false} StrLessIrreflexive(a: string)
    ensures !StrLess(a, a)
    decreases |a|
  {
    if |a| > 0 { StrLessIrreflexive(a[1..]); }
  }

  lemma {:induction false} StrLessTransitive(a: string, b: string, c: string)
    requires StrLess(a, b) && StrLess(b, c)
    ensures StrLess(a, c)
    decreases |a|
  {
    if |a| > 0 && |b| > 0 && |c| > 0 && a[0] == b[0] && b[0] == c[0] {
      StrLessTransitive(a[1..], b[1..], c[1..]);
    }
  }

  lemma {:induction false} StrLessTotal(a: string, b: string)
    ensures a == b || StrLess(a, b) || StrLess(b, a)
    decreases |a|
  {
    if |a| > 0 && |b| > 0 && a[0] == b[0] {
      StrLessTotal(a[1..], b[1..]);
      if a[1..] == b[1..] { assert a == [a[0]] + a[1..] && b == [b[0]] + b[1..]; }
    }
  }

  lemma StrLessAsymmetric(a: string, b: string)
    requires StrLess(a, b)
    ensures !StrLess(b, a) && a != b
  {
    if StrLess(b, a) { StrLessTransitive(a, b, a); StrLessIrreflexive(a); }
    if a == b { StrLessIrreflexive(a); }
  }

  predicate StrictlySorted(r: seq<string>) {
    forall i, j | 0 <= i < j < |r| :: StrLess(r[i], r[j])
  }

  /** `Array.from(set).sort()`: the elements of the set in increasing order of
      UTF-16 code units, each once. */
  method SortStrings(fs: set<string>) returns (r: seq<string>)
    ensures StrictlySorted(r)
    ensures forall x :: x in r <==> x in fs
    ensures |r| == |fs|
  {
    r := [];
    var rest := fs;
    while rest != {}
      invariant rest <= fs
      invariant forall x :: x in r <==> x in fs && x !in rest
      invariant |r| + |rest| == |fs|
      invariant StrictlySorted(r)
      invariant forall i, y | 0 <= i < |r| && y in rest :: StrLess(r[i], y)
      decreases |rest|
    {
      var m := LeastOf(rest);
      forall i | 0 <= i < |r| ensures StrLess(r[i], m) { }
      rest := rest - {m};
      r := r + [m];
    }
  }

  /** The least element of a non-empty set. */
  method LeastOf(s: set<string>) returns (m: string)
    requires s != {}
    ensures m in s && forall y | y in s && y != m :: StrLess(m, y)
  {
    m :| m in s;
    var scan := s - {m};
    while scan != {}
      invariant m in s && scan <= s && m !in scan
      invariant forall y | y in s && y !in scan && y != m :: StrLess(m, y)
      decreases |scan|
    {
      var y :| y in scan;
      StrLessTotal(m, y);
      if StrLess(y, m) {
        forall z | z in s && z !in scan && z != y ensures StrLess(y, z) {
          if z != m { StrLessTransitive(y, m, z); }
        }
        m := y;
      }
      scan := scan - {y};
    }
  }

  /** Adds `x` to a strictly increasing list at its place, unless it is there. */
  function InsertString(x: string, s: seq<string>): (r: seq<string>)
  {
    if |s| == 0 then [x]
    else if x == s[0] then s
    else if StrLess(x, s[0]) then [x] + s
    else [s[0]] + InsertString(x, s[1..])
  }

  lemma {:induction false} InsertStringSpec(x: string, s: seq<string>)
    requires StrictlySorted(s)
    ensures StrictlySorted(InsertString(x, s))
    ensures forall y :: y in InsertString(x, s) <==> y == x || y in s
  {
    if |s| > 0 && x != s[0] && !StrLess(x, s[0]) {
      InsertStringSpec(x, s[1..]);
      StrLessTotal(x, s[0]);
      var rest := InsertString(x, s[1..]);
      forall k | 0 <= k < |rest| ensures StrLess(s[0], rest[k]) {
        if rest[k] != x {
          assert rest[k] in s[1..];
          var m :| 0 <= m < |s[1..]| && s[1..][m] == rest[k];
          assert s[m + 1] == rest[k];
        }
      }
    } else if |s| > 0 && x != s[0] && StrLess(x, s[0]) {
      forall k | 1 <= k < |s| ensures StrLess(x, s[k]) {
        StrLessTransitive(x, s[0], s[k]);
      }
    }
  }

  /** `Array.from(new Set(xs)).sort()`: the distinct strings of `xs` in
      increasing order. */
  function SortedDistinct(xs: seq<string>): (r: seq<string>)
    ensures StrictlySorted(r)
    ensures forall y :: y in r <==> y in xs
  {
    if |xs| == 0 then []
    else
      var init := SortedDistinct(xs[..|xs| - 1]);
      InsertStringSpec(xs[|xs| - 1], init);
      assert xs == xs[..|xs| - 1] + [xs[|xs| - 1]];
      InsertString(xs[|xs| - 1], init)
  }
}
