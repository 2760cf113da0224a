/** `refineBlock` (services/geminiService.ts): the refine prompt is the user's
    template with its placeholders substituted by `String.prototype.replace`; the
    model's answer loses a Markdown code fence and falls back to the current
    translation when empty or when the client throws.

    Templates are reasoned about as a list of pieces, literal text and
    placeholders, whose literal text holds no brace. */
module Refine {
  import opened Wrappers
  import opened JsString
  import opened Types
  import opened Gemini

  // ---------------------------------------------------------------------------
  // Templates as pieces

  datatype Piece = Lit(text: string) | Hole(name: string)

  function PieceText(p: Piece): string {
    match p
    case Lit(t) => t
    case Hole(n) => Slot(n)
  }

  function Flatten(ps: seq<Piece>): string {
    if |ps| == 0 then "" else PieceText(ps[0]) + Flatten(ps[1..])
  }

  predicate BraceFree(s: string) { '{' !in s && '}' !in s }

  predicate PieceOk(p: Piece) {
    match p
    case Lit(t) => BraceFree(t)
    case Hole(n) => BraceFree(n)
  }

  /** Literal text has no brace and placeholder names have none either. */
  predicate WellFormed(ps: seq<Piece>) {
    forall k | 0 <= k < |ps| :: PieceOk(ps[k])
  }

  lemma {:induction false} FlattenAppend(a: seq<Piece>, b: seq<Piece>)
    ensures Flatten(a + b) == Flatten(a) + Flatten(b)
    decreases |a|
  {
    if |a| == 0 {
      assert a + b == b;
    } else {
      assert (a + b)[1..] == a[1..] + b;
      FlattenAppend(a[1..], b);
    }
  }

  /** In a slot, `{` is exactly the first two characters and `}` exactly the
      last two. */
  lemma SlotBraces(m: string, k: nat)
    requires BraceFree(m) && k < |m| + 4
    ensures Slot(m)[k] == '{' <==> k < 2
    ensures Slot(m)[k] == '}' <==> k >= 2 + |m|
  {
    var h := Slot(m);
    assert h == "{{" + m + "}}";
    if 2 <= k < 2 + |m| {
      assert h[k] == m[k - 2];
    }
  }

  /** A placeholder can start inside a piece's text only at the very start of
      a placeholder with the same name. */
  lemma HeadOccurrence(x: Piece, rest: string, n: string, i: nat)
    requires PieceOk(x) && BraceFree(n)
    requires i < |PieceText(x)| && OccursAt(PieceText(x) + rest, Slot(n), i)
    ensures x == Hole(n) && i == 0
  {
    var s := PieceText(x) + rest;
    var p := Slot(n);
    assert s[i..i + |p|] == p;
    assert s[i] == p[0] == '{';
    match x
    case Lit(t) =>
      assert false;
    case Hole(m) =>
      var h := Slot(m);
      assert s[i + 1] == p[1] == '{';
      SlotBraces(m, i + 1);
      assert i == 0;
      var q := 2 + if |m| < |n| then |m| else |n|;
      assert s[q] == p[q];
      SlotBraces(m, q);
      SlotBraces(n, q);
      assert |m| == |n|;
      assert m == h[2..|h| - 2] == s[2..2 + |m|] == p[2..|p| - 2] == n;
  }

  lemma OccursShift(a: string, r: string, p: string, i: nat)
    ensures OccursAt(a + r, p, |a| + i) <==> OccursAt(r, p, i)
  {
    if i + |p| <= |r| {
      assert (a + r)[|a| + i..|a| + i + |p|] == r[i..i + |p|];
    }
  }

  /** The text of a well-formed template holds a placeholder only where the
      template has it as a piece. */
  lemma {:induction false} OccursOnlyAtHoles(ps: seq<Piece>, n: string, i: nat)
    requires WellFormed(ps) && BraceFree(n)
    requires OccursAt(Flatten(ps), Slot(n), i)
    ensures exists k | 0 <= k < |ps| :: ps[k] == Hole(n) && i == |Flatten(ps[..k])|
    decreases |ps|
  {
    var head := PieceText(ps[0]);
    var rest := Flatten(ps[1..]);
    if i < |head| {
      HeadOccurrence(ps[0], rest, n, i);
      assert ps[..0] == [];
    } else {
      OccursShift(head, rest, Slot(n), i - |head|);
      WellFormedTail(ps);
      OccursOnlyAtHoles(ps[1..], n, i - |head|);
      var k :| 0 <= k < |ps[1..]| && ps[1..][k] == Hole(n) && i - |head| == |Flatten(ps[1..][..k])|;
      FlattenPrefixCons(ps, k);
      assert ps[k + 1] == ps[1..][k];
    }
  }

  lemma WellFormedTail(ps: seq<Piece>)
    requires WellFormed(ps) && |ps| > 0
    ensures WellFormed(ps[1..])
  {
    forall k | 0 <= k < |ps[1..]| ensures PieceOk(ps[1..][k]) { assert ps[1..][k] == ps[k + 1]; }
  }

  lemma FlattenPrefixCons(ps: seq<Piece>, k: nat)
    requires k < |ps| - 1
    ensures Flatten(ps[..k + 1]) == PieceText(ps[0]) + Flatten(ps[1..][..k])
  {
    assert ps[..k + 1][1..] == ps[1..][..k];
  }

  /** ...and it does hold it there. */
  lemma OccursAtHole(ps: seq<Piece>, k: nat)
    requires k < |ps| && ps[k].Hole?
    ensures OccursAt(Flatten(ps), Slot(ps[k].name), |Flatten(ps[..k])|)
  {
    var a, p, b := Flatten(ps[..k]), Slot(ps[k].name), Flatten(ps[k + 1..]);
    assert ps == ps[..k] + ([ps[k]] + ps[k + 1..]);
    FlattenAppend(ps[..k], [ps[k]] + ps[k + 1..]);
    assert Flatten([ps[k]] + ps[k + 1..]) == p + b by {
      assert ([ps[k]] + ps[k + 1..])[1..] == ps[k + 1..];
    }
    ConcatAssoc(a, p, b);
    ContainsMiddle(a, p, b);
  }

  // ---------------------------------------------------------------------------
  // `replace` on a template

  /** The template with its first placeholder named `n` made into literal `v`. */
  function FillFirst(ps: seq<Piece>, n: string, v: string): (r: seq<Piece>)
    ensures |r| == |ps|
  {
    if |ps| == 0 then []
    else if ps[0] == Hole(n) then [Lit(v)] + ps[1..]
    else [ps[0]] + FillFirst(ps[1..], n, v)
  }

  lemma FillFirstWellFormed(ps: seq<Piece>, n: string, v: string)
    requires WellFormed(ps) && BraceFree(v)
    ensures WellFormed(FillFirst(ps, n, v))
  {
    if |ps| > 0 && ps[0] != Hole(n) {
      WellFormedTail(ps);
      FillFirstWellFormed(ps[1..], n, v);
    }
  }

  /** `replace` with a replacement that holds no `$` pattern. */
  lemma ReplaceFirstPlain(s: string, p: string, v: string)
    requires '$' !in v
    ensures IndexOf(s, p).None? ==> ReplaceFirst(s, p, v) == s
    ensures IndexOf(s, p).Some? ==>
      ReplaceFirst(s, p, v) == s[..IndexOf(s, p).value] + v + s[IndexOf(s, p).value + |p|..]
  {
    if IndexOf(s, p).Some? {
      var m := IndexOf(s, p).value;
      SubstitutePlain(v, p, s[..m], s[m + |p|..]);
    }
  }

  /** When nothing in `a` starts a match, the first match in `a + r` is the
      first match in `r`, shifted. */
  lemma IndexOfShift(a: string, r: string, p: string)
    requires forall j: nat | j < |a| :: !OccursAt(a + r, p, j)
    ensures IndexOf(r, p).None? ==> IndexOf(a + r, p).None?
    ensures IndexOf(r, p).Some? ==> IndexOf(a + r, p) == Some(|a| + IndexOf(r, p).value)
  {
    var s := a + r;
    if IndexOf(r, p).Some? {
      var k := IndexOf(r, p).value;
      OccursShift(a, r, p, k);
      forall j: nat | j < |a| + k ensures !OccursAt(s, p, j) {
        if |a| <= j { OccursShift(a, r, p, j - |a|); }
      }
      IndexOfIs(s, p, |a| + k);
    } else {
      forall j: nat ensures !OccursAt(s, p, j) {
        if |a| <= j { OccursShift(a, r, p, j - |a|); }
      }
      IndexOfNone(s, p);
    }
  }

  /** When nothing in `a` starts a match, `replace` leaves `a` alone. */
  lemma ReplaceFirstShift(a: string, r: string, p: string, v: string)
    requires '$' !in v
    requires forall j: nat | j < |a| :: !OccursAt(a + r, p, j)
    ensures ReplaceFirst(a + r, p, v) == a + ReplaceFirst(r, p, v)
  {
    IndexOfShift(a, r, p);
    ReplaceFirstPlain(a + r, p, v);
    ReplaceFirstPlain(r, p, v);
    if IndexOf(r, p).Some? {
      var k := IndexOf(r, p).value;
      var s := a + r;
      assert s[..|a| + k] == a + r[..k];
      assert s[|a| + k + |p|..] == r[k + |p|..];
      calc {
        ReplaceFirst(s, p, v);
        s[..|a| + k] + v + s[|a| + k + |p|..];
        (a + r[..k]) + v + r[k + |p|..];
        { ConcatAssoc(a, r[..k], v); ConcatAssoc(a, r[..k] + v, r[k + |p|..]); }
        a + (r[..k] + v + r[k + |p|..]);
        a + ReplaceFirst(r, p, v);
      }
    }
  }

  /** `template.replace('{{n}}', v)` on a well-formed template replaces the first
      placeholder named `n`, when `v` holds no `$` pattern. */
  lemma {:induction false} ReplaceFirstFlatten(ps: seq<Piece>, n: string, v: string)
    requires WellFormed(ps) && BraceFree(n) && '$' !in v
    ensures ReplaceFirst(Flatten(ps), Slot(n), v) == Flatten(FillFirst(ps, n, v))
    decreases |ps|
  {
    var p := Slot(n);
    if |ps| == 0 {
      assert !OccursAt("", p, 0);
    } else {
      var head := PieceText(ps[0]);
      var rest := Flatten(ps[1..]);
      if ps[0] == Hole(n) {
        assert OccursAt(Flatten(ps), p, 0) by { assert (head + rest)[0..|p|] == head; }
        SubstitutePlain(v, p, "", rest);
        assert Flatten(ps)[|p|..] == rest;
        assert Flatten(FillFirst(ps, n, v)) == v + rest by {
          assert ([Lit(v)] + ps[1..])[1..] == ps[1..];
        }
      } else {
        forall j: nat | j < |head| ensures !OccursAt(head + rest, p, j) {
          if OccursAt(head + rest, p, j) { HeadOccurrence(ps[0], rest, n, j); }
        }
        ReplaceFirstShift(head, rest, p, v);
        WellFormedTail(ps);
        ReplaceFirstFlatten(ps[1..], n, v);
        assert Flatten(FillFirst(ps, n, v)) == head + Flatten(FillFirst(ps[1..], n, v)) by {
          assert ([ps[0]] + FillFirst(ps[1..], n, v))[1..] == FillFirst(ps[1..], n, v);
        }
      }
    }
  }

  // ---------------------------------------------------------------------------
  // Interpolation

  const ORIGINAL: string := "original"
  const TRANSLATED: string := "translated"
  const TARGET_LANG: string := "targetLang"
  const FANDOM: string := "fandom"
  const INSTRUCTION: string := "instruction"

  /** The source's chain of five `replace` calls, in its order. */
  function Interpolate(template: string, original: string, current: string, targetLang: string,
                       fandom: string, instruction: string): string
  {
    InterpolateRest(ReplaceFirst(template, Slot(ORIGINAL), original), current, targetLang, fandom, instruction)
  }

  /** The four `replace` calls after the first. */
  function InterpolateRest(s: string, current: string, targetLang: string, fandom: string, instruction: string): string {
    ReplaceFirst(
      ReplaceFirst(
        ReplaceFirst(
          ReplaceFirst(s, Slot(TRANSLATED), current),
          Slot(TARGET_LANG), targetLang),
        Slot(FANDOM), fandom),
      Slot(INSTRUCTION), instruction)
  }

  /** Each placeholder's first slot filled with its value, the values taken as
      plain text: what the interpolation is meant to produce. */
  function FillTemplate(ps: seq<Piece>, original: string, current: string, targetLang: string,
                        fandom: string, instruction: string): (r: seq<Piece>)
    ensures |r| == |ps|
  {
    FillRest(FillFirst(ps, ORIGINAL, original), current, targetLang, fandom, instruction)
  }

  function FillRest(ps: seq<Piece>, current: string, targetLang: string, fandom: string, instruction: string): (r: seq<Piece>)
    ensures |r| == |ps|
  {
    FillFirst(FillFirst(FillFirst(FillFirst(ps, TRANSLATED, current), TARGET_LANG, targetLang), FANDOM, fandom),
      INSTRUCTION, instruction)
  }

  lemma NamesBraceFree()
    ensures BraceFree(ORIGINAL) && BraceFree(TRANSLATED) && BraceFree(TARGET_LANG)
    ensures BraceFree(FANDOM) && BraceFree(INSTRUCTION)
  {
  }

  lemma NamesDistinct()
    ensures ORIGINAL != TRANSLATED && ORIGINAL != TARGET_LANG && ORIGINAL != FANDOM && ORIGINAL != INSTRUCTION
    ensures TRANSLATED != TARGET_LANG && TRANSLATED != FANDOM && TRANSLATED != INSTRUCTION
    ensures TARGET_LANG != FANDOM && TARGET_LANG != INSTRUCTION && FANDOM != INSTRUCTION
  {
    assert TRANSLATED[1] != TARGET_LANG[1];
  }

  /** Values with no brace and no `$`: the case in which `replace` behaves as
      plain substitution. */
  predicate PlainValue(v: string) { BraceFree(v) && '$' !in v }

  /** One `replace` call on a well-formed template with a plain value keeps the
      template well formed. */
  lemma ReplaceStep(ps: seq<Piece>, n: string, v: string)
    requires WellFormed(ps) && BraceFree(n) && PlainValue(v)
    ensures ReplaceFirst(Flatten(ps), Slot(n), v) == Flatten(FillFirst(ps, n, v))
    ensures WellFormed(FillFirst(ps, n, v))
  {
    ReplaceFirstFlatten(ps, n, v);
    FillFirstWellFormed(ps, n, v);
  }

  /** Two `replace` calls in a row. */
  lemma ReplaceTwice(ps: seq<Piece>, n1: string, v1: string, n2: string, v2: string)
    requires WellFormed(ps) && BraceFree(n1) && BraceFree(n2) && PlainValue(v1) && '$' !in v2
    ensures ReplaceFirst(ReplaceFirst(Flatten(ps), Slot(n1), v1), Slot(n2), v2)
         == Flatten(FillFirst(FillFirst(ps, n1, v1), n2, v2))
    ensures BraceFree(v2) ==> WellFormed(FillFirst(FillFirst(ps, n1, v1), n2, v2))
  {
    ReplaceStep(ps, n1, v1);
    ReplaceFirstFlatten(FillFirst(ps, n1, v1), n2, v2);
    if BraceFree(v2) {
      FillFirstWellFormed(FillFirst(ps, n1, v1), n2, v2);
    }
  }

  lemma InterpolateRestFills(ps: seq<Piece>, current: string, targetLang: string, fandom: string, instruction: string)
    requires WellFormed(ps)
    requires PlainValue(current) && PlainValue(targetLang) && PlainValue(fandom) && '$' !in instruction
    ensures InterpolateRest(Flatten(ps), current, targetLang, fandom, instruction)
         == Flatten(FillRest(ps, current, targetLang, fandom, instruction))
  {
    NamesBraceFree();
    ReplaceTwice(ps, TRANSLATED, current, TARGET_LANG, targetLang);
    ReplaceTwice(FillFirst(FillFirst(ps, TRANSLATED, current), TARGET_LANG, targetLang), FANDOM, fandom, INSTRUCTION, instruction);
  }

  /** For well-formed templates and plain values, the chain of `replace` calls
      fills the first slot of each placeholder with its value. */
  lemma InterpolateFills(ps: seq<Piece>, original: string, current: string, targetLang: string,
                         fandom: string, instruction: string)
    requires WellFormed(ps)
    requires PlainValue(original) && PlainValue(current) && PlainValue(targetLang)
    requires PlainValue(fandom) && '$' !in instruction
    ensures Interpolate(Flatten(ps), original, current, targetLang, fandom, instruction)
         == Flatten(FillTemplate(ps, original, current, targetLang, fandom, instruction))
  {
    NamesBraceFree();
    ReplaceStep(ps, ORIGINAL, original);
    InterpolateRestFills(FillFirst(ps, ORIGINAL, original), current, targetLang, fandom, instruction);
  }

  /** The first slot named `n` is the `k`-th piece. */
  predicate FirstHoleAt(ps: seq<Piece>, k: nat, n: string) {
    k < |ps| && ps[k] == Hole(n) && forall j | 0 <= j < k :: ps[j] != Hole(n)
  }

  /** Changing another piece to anything but that slot keeps the first slot
      where it was. */
  lemma FirstHoleAtUpdate(ps: seq<Piece>, k: nat, n: string, i: nat, x: Piece)
    requires FirstHoleAt(ps, k, n) && i < |ps| && i != k && x != Hole(n)
    ensures FirstHoleAt(ps[i := x], k, n)
  {
  }

  /** `FillFirst` changes the first slot with the given name and nothing else. */
  lemma {:induction false} FillFirstAt(ps: seq<Piece>, k: nat, n: string, v: string)
    requires FirstHoleAt(ps, k, n)
    ensures FillFirst(ps, n, v) == ps[k := Lit(v)]
    decreases k
  {
    if k > 0 {
      assert FirstHoleAt(ps[1..], k - 1, n) by {
        forall j | 0 <= j < k - 1 ensures ps[1..][j] != Hole(n) { assert ps[1..][j] == ps[j + 1]; }
      }
      FillFirstAt(ps[1..], k - 1, n, v);
      assert [ps[0]] + ps[1..][k - 1 := Lit(v)] == ps[k := Lit(v)];
    }
  }

  /** Where the four later slots sit, the last four fills put their values. */
  lemma FillRestAt(ps: seq<Piece>, kc: nat, kt: nat, kf: nat, ki: nat,
                   current: string, targetLang: string, fandom: string, instruction: string)
    requires FirstHoleAt(ps, kc, TRANSLATED) && FirstHoleAt(ps, kt, TARGET_LANG)
    requires FirstHoleAt(ps, kf, FANDOM) && FirstHoleAt(ps, ki, INSTRUCTION)
    ensures FillRest(ps, current, targetLang, fandom, instruction)
         == ps[kc := Lit(current)][kt := Lit(targetLang)][kf := Lit(fandom)][ki := Lit(instruction)]
  {
    NamesDistinct();
    FillFirstAt(ps, kc, TRANSLATED, current);
    var q1 := ps[kc := Lit(current)];
    FirstHoleAtUpdate(ps, kt, TARGET_LANG, kc, Lit(current));
    FirstHoleAtUpdate(ps, kf, FANDOM, kc, Lit(current));
    FirstHoleAtUpdate(ps, ki, INSTRUCTION, kc, Lit(current));
    FillFirstAt(q1, kt, TARGET_LANG, targetLang);
    var q2 := q1[kt := Lit(targetLang)];
    FirstHoleAtUpdate(q1, kf, FANDOM, kt, Lit(targetLang));
    FirstHoleAtUpdate(q1, ki, INSTRUCTION, kt, Lit(targetLang));
    FillFirstAt(q2, kf, FANDOM, fandom);
    var q3 := q2[kf := Lit(fandom)];
    FirstHoleAtUpdate(q2, ki, INSTRUCTION, kf, Lit(fandom));
    FillFirstAt(q3, ki, INSTRUCTION, instruction);
  }

  /** Replacing a piece by one with the same text leaves the text alone. */
  lemma {:induction false} FlattenSameText(ps: seq<Piece>, k: nat, x: Piece)
    requires k < |ps| && PieceText(x) == PieceText(ps[k])
    ensures Flatten(ps[k := x]) == Flatten(ps)
    decreases k
  {
    if k > 0 {
      FlattenSameText(ps[1..], k - 1, x);
      assert ps[k := x][1..] == ps[1..][k - 1 := x];
    } else {
      assert ps[k := x][1..] == ps[1..];
    }
  }

  lemma WellFormedUpdate(ps: seq<Piece>, k: nat, x: Piece)
    requires WellFormed(ps) && k < |ps| && PieceOk(x)
    ensures WellFormed(ps[k := x])
  {
  }

  // ---------------------------------------------------------------------------
  // The default refine template

  const DEFAULT_PIECES: seq<Piece> := [
    Lit(REFINE_0), Hole(FANDOM), Lit(REFINE_1), Hole(TARGET_LANG), Lit(REFINE_2), Hole(ORIGINAL),
    Lit(REFINE_3), Hole(TRANSLATED), Lit(REFINE_4), Hole(INSTRUCTION), Lit(REFINE_5)]

  lemma FlattenFrom(ps: seq<Piece>, k: nat)
    requires k < |ps|
    ensures Flatten(ps[k..]) == PieceText(ps[k]) + Flatten(ps[k + 1..])
  {
    assert ps[k..][1..] == ps[k + 1..];
  }

  /** The text of an eleven-piece template, piece by piece. */
  lemma FlattenEleven(ps: seq<Piece>)
    requires |ps| == 11
    ensures Flatten(ps) == PieceText(ps[0]) + (PieceText(ps[1]) + (PieceText(ps[2]) + (PieceText(ps[3])
      + (PieceText(ps[4]) + (PieceText(ps[5]) + (PieceText(ps[6]) + (PieceText(ps[7]) + (PieceText(ps[8])
      + (PieceText(ps[9]) + PieceText(ps[10]))))))))))
  {
    assert ps[11..] == [];
    FlattenFrom(ps, 10);
    FlattenFrom(ps, 9);
    FlattenFrom(ps, 8);
    FlattenFrom(ps, 7);
    FlattenFrom(ps, 6);
    FlattenFrom(ps, 5);
    FlattenFrom(ps, 4);
    FlattenFrom(ps, 3);
    FlattenFrom(ps, 2);
    FlattenFrom(ps, 1);
    FlattenFrom(ps, 0);
    assert ps[0..] == ps;
  }

  lemma ChunksBraceFree()
    ensures BraceFree(REFINE_0) && BraceFree(REFINE_1) && BraceFree(REFINE_2)
    ensures BraceFree(REFINE_3) && BraceFree(REFINE_4) && BraceFree(REFINE_5)
  {
    FirstChunkBraceFree();
    LastChunkBraceFree();
    assert BraceFree(REFINE_1) && BraceFree(REFINE_2);
    assert BraceFree(REFINE_3) && BraceFree(REFINE_4);
  }

  lemma BraceFreeConcat(a: string, b: string)
    requires BraceFree(a) && BraceFree(b)
    ensures BraceFree(a + b)
  {
  }

  lemma FirstChunkBraceFree()
    ensures BraceFree(REFINE_0)
  {
    var a, b, c, d := "You are a professional editor.\n", "Task: specific improvement of a ",
      "translation segment.\n\nContext:\n", "Fandom: ";
    PieceBraceFree(a);
    PieceBraceFree(b);
    PieceBraceFree(c);
    PieceBraceFree(d);
    BraceFreeConcat(a, b);
    BraceFreeConcat(a + b, c);
    BraceFreeConcat(a + b + c, d);
  }

  lemma LastChunkBraceFree()
    ensures BraceFree(REFINE_5)
  {
    var a, b, c := "\n\nRequirements:\n", "1. Output ONLY the result.\n", "2. Do not include \"Here is ";
    var d, e, f, g := "the translation\".\n", "3. If the instruction asks to ", "re-translate, ignore the ", "Current Draft.";
    PieceBraceFree(a);
    PieceBraceFree(b);
    PieceBraceFree(c);
    PieceBraceFree(d);
    PieceBraceFree(e);
    PieceBraceFree(f);
    PieceBraceFree(g);
    BraceFreeConcat(a, b);
    BraceFreeConcat(a + b, c);
    BraceFreeConcat(a + b + c, d);
    BraceFreeConcat(a + b + c + d, e);
    BraceFreeConcat(a + b + c + d + e, f);
    BraceFreeConcat(a + b + c + d + e + f, g);
  }

  /** A character of the template's fixed text is never a brace. */
  predicate NoBraceChar(ch: char) {
    ch != '{' && ch != '}'
  }

  lemma PieceBraceFree(s: string)
    requires forall i | 0 <= i < |s| :: NoBraceChar(s[i])
    ensures BraceFree(s)
  {
  }

  lemma WellFormedEleven(ps: seq<Piece>)
    requires |ps| == 11
    requires PieceOk(ps[0]) && PieceOk(ps[1]) && PieceOk(ps[2]) && PieceOk(ps[3]) && PieceOk(ps[4])
    requires PieceOk(ps[5]) && PieceOk(ps[6]) && PieceOk(ps[7]) && PieceOk(ps[8]) && PieceOk(ps[9])
    requires PieceOk(ps[10])
    ensures WellFormed(ps)
  {
  }

  lemma DefaultPiecesFlatten()
    ensures Flatten(DEFAULT_PIECES) == DEFAULT_REFINE_PROMPT
    ensures WellFormed(DEFAULT_PIECES)
  {
    var d := DEFAULT_PIECES;
    FlattenEleven(d);
    ChunksBraceFree();
    NamesBraceFree();
    WellFormedEleven(d);
  }

  /** No name fills two slots of the default template. */
  lemma DefaultHolesDistinct(k: nat, k': nat)
    requires k < |DEFAULT_PIECES| && k' < |DEFAULT_PIECES|
    requires DEFAULT_PIECES[k].Hole? && DEFAULT_PIECES[k] == DEFAULT_PIECES[k']
    ensures k == k'
  {
    NamesDistinct();
  }

  /** Where the first slot of each name sits in the default template. */
  lemma DefaultFirstHoles()
    ensures FirstHoleAt(DEFAULT_PIECES, 1, FANDOM) && FirstHoleAt(DEFAULT_PIECES, 3, TARGET_LANG)
    ensures FirstHoleAt(DEFAULT_PIECES, 5, ORIGINAL) && FirstHoleAt(DEFAULT_PIECES, 7, TRANSLATED)
    ensures FirstHoleAt(DEFAULT_PIECES, 9, INSTRUCTION)
  {
    NamesDistinct();
  }

  /** A placeholder holds no `$`. */
  lemma SlotNoDollar(n: string)
    requires '$' !in n
    ensures '$' !in Slot(n)
  {
    assert Slot(n) == "{{" + n + "}}";
  }

  /** The default template holds each of the five placeholders exactly once. */
  lemma DefaultPlaceholdersOnce(n: string)
    requires n in {ORIGINAL, TRANSLATED, TARGET_LANG, FANDOM, INSTRUCTION}
    ensures Contains(DEFAULT_REFINE_PROMPT, Slot(n))
    ensures forall i: nat, j: nat | OccursAt(DEFAULT_REFINE_PROMPT, Slot(n), i) && OccursAt(DEFAULT_REFINE_PROMPT, Slot(n), j) :: i == j
  {
    DefaultPiecesFlatten();
    var d := DEFAULT_PIECES;
    var k := if n == FANDOM then 1 else if n == TARGET_LANG then 3 else if n == ORIGINAL then 5
      else if n == TRANSLATED then 7 else 9;
    OccursAtHole(d, k);
    forall i: nat, j: nat | OccursAt(DEFAULT_REFINE_PROMPT, Slot(n), i) && OccursAt(DEFAULT_REFINE_PROMPT, Slot(n), j)
      ensures i == j
    {
      OccursOnlyAtHoles(d, n, i);
      OccursOnlyAtHoles(d, n, j);
      var ki :| 0 <= ki < |d| && d[ki] == Hole(n) && i == |Flatten(d[..ki])|;
      var kj :| 0 <= kj < |d| && d[kj] == Hole(n) && j == |Flatten(d[..kj])|;
      DefaultHolesDistinct(ki, kj);
    }
  }

  /** The default template's text with the five values in their slots. */
  function DefaultText(fandom: string, targetLang: string, source: string, draft: string, instruction: string): string {
    REFINE_0 + (fandom + (REFINE_1 + (targetLang + (REFINE_2 + (source
      + (REFINE_3 + (draft + (REFINE_4 + (instruction + REFINE_5)))))))))
  }

  /** The Source section starts at the same place whatever the later slots hold. */
  lemma DefaultTextSource(fandom: string, targetLang: string, source: string, draft: string, instruction: string)
    ensures var at := |REFINE_0| + |fandom| + |REFINE_1| + |targetLang| + |REFINE_2|;
      |DefaultText(fandom, targetLang, source, draft, instruction)|
        == at + |source| + |REFINE_3| + |draft| + |REFINE_4| + |instruction| + |REFINE_5|
      && (|source| > 0 ==> DefaultText(fandom, targetLang, source, draft, instruction)[at] == source[0])
      && (|source| == 0 ==> DefaultText(fandom, targetLang, source, draft, instruction)[at] == '\n')
  {
  }

  /** The default template with its five slots filled: fandom, language, source,
      draft and instruction, in this order, whatever the values hold. */
  lemma FillDefault(original: string, current: string, targetLang: string, fandom: string, instruction: string)
    ensures Flatten(FillTemplate(DEFAULT_PIECES, original, current, targetLang, fandom, instruction))
         == DefaultText(fandom, targetLang, original, current, instruction)
  {
    var filled := [Lit(REFINE_0), Lit(fandom), Lit(REFINE_1), Lit(targetLang), Lit(REFINE_2), Lit(original),
                   Lit(REFINE_3), Lit(current), Lit(REFINE_4), Lit(instruction), Lit(REFINE_5)];
    DefaultFilled(original, current, targetLang, fandom, instruction);
    FlattenEleven(filled);
  }

  lemma DefaultFilled(original: string, current: string, targetLang: string, fandom: string, instruction: string)
    ensures FillTemplate(DEFAULT_PIECES, original, current, targetLang, fandom, instruction)
         == [Lit(REFINE_0), Lit(fandom), Lit(REFINE_1), Lit(targetLang), Lit(REFINE_2), Lit(original),
             Lit(REFINE_3), Lit(current), Lit(REFINE_4), Lit(instruction), Lit(REFINE_5)]
  {
    var d := DEFAULT_PIECES;
    DefaultFirstHoles();
    FillFirstAt(d, 5, ORIGINAL, original);
    var x := Lit(original);
    FirstHoleAtUpdate(d, 7, TRANSLATED, 5, x);
    FirstHoleAtUpdate(d, 3, TARGET_LANG, 5, x);
    FirstHoleAtUpdate(d, 1, FANDOM, 5, x);
    FirstHoleAtUpdate(d, 9, INSTRUCTION, 5, x);
    FillRestAt(d[5 := x], 7, 3, 1, 9, current, targetLang, fandom, instruction);
  }

  /** With the default template and plain values, the source's chain gives
      exactly the filled template. */
  lemma InterpolateDefault(original: string, current: string, targetLang: string, fandom: string, instruction: string)
    requires PlainValue(original) && PlainValue(current) && PlainValue(targetLang)
    requires PlainValue(fandom) && '$' !in instruction
    ensures Interpolate(DEFAULT_REFINE_PROMPT, original, current, targetLang, fandom, instruction)
         == DefaultText(fandom, targetLang, original, current, instruction)
  {
    DefaultPiecesFlatten();
    InterpolateFills(DEFAULT_PIECES, original, current, targetLang, fandom, instruction);
    FillDefault(original, current, targetLang, fandom, instruction);
  }

  /** The chain on the default template when the source text reads `{{translated}}`. */
  lemma CapturedText(current: string, targetLang: string, fandom: string, instruction: string)
    requires PlainValue(current) && PlainValue(targetLang) && PlainValue(fandom) && '$' !in instruction
    ensures Interpolate(DEFAULT_REFINE_PROMPT, Slot(TRANSLATED), current, targetLang, fandom, instruction)
         == DefaultText(fandom, targetLang, current, Slot(TRANSLATED), instruction)
  {
    var v := Slot(TRANSLATED);
    var p1 := DEFAULT_PIECES[5 := Hole(TRANSLATED)];
    CapturedFirstStep();
    InterpolateRestFills(p1, current, targetLang, fandom, instruction);
    CapturedFilled(current, targetLang, fandom, instruction);
    FlattenEleven([Lit(REFINE_0), Lit(fandom), Lit(REFINE_1), Lit(targetLang), Lit(REFINE_2), Lit(current),
                   Lit(REFINE_3), Hole(TRANSLATED), Lit(REFINE_4), Lit(instruction), Lit(REFINE_5)]);
  }

  /** The first `replace` turns the source slot into a second draft slot. */
  lemma CapturedFirstStep()
    ensures ReplaceFirst(DEFAULT_REFINE_PROMPT, Slot(ORIGINAL), Slot(TRANSLATED))
         == Flatten(DEFAULT_PIECES[5 := Hole(TRANSLATED)])
    ensures WellFormed(DEFAULT_PIECES[5 := Hole(TRANSLATED)])
  {
    DefaultPiecesFlatten();
    NamesBraceFree();
    var d := DEFAULT_PIECES;
    var v := Slot(TRANSLATED);
    SlotNoDollar(TRANSLATED);
    ReplaceFirstFlatten(d, ORIGINAL, v);
    DefaultFirstHoles();
    FillFirstAt(d, 5, ORIGINAL, v);
    FlattenSameText(d[5 := Lit(v)], 5, Hole(TRANSLATED));
    assert d[5 := Lit(v)][5 := Hole(TRANSLATED)] == d[5 := Hole(TRANSLATED)];
    WellFormedUpdate(d, 5, Hole(TRANSLATED));
  }

  lemma CapturedFilled(current: string, targetLang: string, fandom: string, instruction: string)
    ensures FillRest(DEFAULT_PIECES[5 := Hole(TRANSLATED)], current, targetLang, fandom, instruction)
         == [Lit(REFINE_0), Lit(fandom), Lit(REFINE_1), Lit(targetLang), Lit(REFINE_2), Lit(current),
             Lit(REFINE_3), Hole(TRANSLATED), Lit(REFINE_4), Lit(instruction), Lit(REFINE_5)]
  {
    var d := DEFAULT_PIECES;
    var x := Hole(TRANSLATED);
    NamesDistinct();
    DefaultFirstHoles();
    FirstHoleAtUpdate(d, 3, TARGET_LANG, 5, x);
    FirstHoleAtUpdate(d, 1, FANDOM, 5, x);
    FirstHoleAtUpdate(d, 9, INSTRUCTION, 5, x);
    assert FirstHoleAt(d[5 := x], 5, TRANSLATED);
    FillRestAt(d[5 := x], 5, 3, 1, 9, current, targetLang, fandom, instruction);
  }

  /** A source text that itself reads `{{translated}}` captures the draft: the
      draft lands in the Source section and the Current Draft section shows the
      bare placeholder, unlike the filled template. */
  lemma InterpolateCapturedByOriginal(current: string, targetLang: string, fandom: string, instruction: string)
    requires PlainValue(current) && PlainValue(targetLang) && PlainValue(fandom) && '$' !in instruction
    ensures Interpolate(DEFAULT_REFINE_PROMPT, Slot(TRANSLATED), current, targetLang, fandom, instruction)
         == DefaultText(fandom, targetLang, current, Slot(TRANSLATED), instruction)
    ensures Interpolate(DEFAULT_REFINE_PROMPT, Slot(TRANSLATED), current, targetLang, fandom, instruction)
         != Flatten(FillTemplate(DEFAULT_PIECES, Slot(TRANSLATED), current, targetLang, fandom, instruction))
  {
    var v := Slot(TRANSLATED);
    CapturedText(current, targetLang, fandom, instruction);
    FillDefault(v, current, targetLang, fandom, instruction);
    var at := |REFINE_0| + |fandom| + |REFINE_1| + |targetLang| + |REFINE_2|;
    var got := DefaultText(fandom, targetLang, current, v, instruction);
    var meant := DefaultText(fandom, targetLang, v, current, instruction);
    DefaultTextSource(fandom, targetLang, current, v, instruction);
    DefaultTextSource(fandom, targetLang, v, current, instruction);
    assert meant[at] == '{';
    assert got[at] != '{';
  }

  /** A `$$` in a value comes out as a single `$`. */
  lemma ReplaceCollapsesDollars()
    ensures ReplaceFirst(Slot(TRANSLATED), Slot(TRANSLATED), "US$$5") == "US$5"
  {
    assert OccursAt(Slot(TRANSLATED), Slot(TRANSLATED), 0);
  }

  // ---------------------------------------------------------------------------
  // The answer

  /** The three fence labels, compared without regard to ASCII case. */
  predicate LabelAt(t: string, i: nat, word: string) {
    i + |word| <= |t| && ToLower(t[i..i + |word|]) == word
  }

  /** A label matches only where its first letter does. */
  lemma LabelAtHead(t: string, i: nat, word: string)
    requires i < |t| && |word| > 0
    ensures LabelAt(t, i, word) ==> word[0] == LowerChar(t[i])
  {
    if i + |word| <= |t| {
      assert t[i..i + |word|][0] == t[i];
    }
  }

  /** `replace(/^```(json|markdown|text)?\n/i, '')`: the alternatives are tried
      in order, then the empty one. */
  function StripOpenFence(t: string): (r: string)
    ensures EndsWith(t, r)
  {
    var n := if !StartsWith(t, "```") then 0
      else if LabelAt(t, 3, "json") && 7 < |t| && t[7] == '\n' then 8
      else if LabelAt(t, 3, "markdown") && 11 < |t| && t[11] == '\n' then 12
      else if LabelAt(t, 3, "text") && 7 < |t| && t[7] == '\n' then 8
      else if 3 < |t| && t[3] == '\n' then 4
      else 0;
    assert t[|t| - |t[n..]|..] == t[n..];
    t[n..]
  }

  /** `replace(/\n```$/, '')` */
  function StripCloseFence(t: string): (r: string)
    ensures StartsWith(t, r)
    ensures r == t || t == r + "\n```"
  {
    if EndsWith(t, "\n```") then
      assert t == t[..|t| - 4] + t[|t| - 4..];
      t[..|t| - 4]
    else t
  }

  /** A fenced answer loses exactly its fence. */
  lemma StripFencedAnswer(x: string)
    ensures StripCloseFence(StripOpenFence("```json\n" + x + "\n```")) == x
    ensures StripCloseFence(StripOpenFence("```\n" + x + "\n```")) == x
  {
    var a := "```json\n" + x + "\n```";
    assert a[..3] == "```" && a[7] == '\n' && a[3..7] == "json";
    assert ToLower("json") == "json";
    assert a[8..] == x + "\n```";
    var b := "```\n" + x + "\n```";
    assert b[..3] == "```" && b[3] == '\n';
    LabelAtHead(b, 3, "json");
    LabelAtHead(b, 3, "markdown");
    LabelAtHead(b, 3, "text");
    assert b[4..] == x + "\n```";
    assert (x + "\n```")[..|x|] == x;
  }

  /** What `refineBlock` resolves to: the trimmed, unfenced answer, or the
      current translation when that is empty or the client throws. */
  function RefineResult(reply: Reply, currentTranslation: string): (r: string)
    ensures reply.Threw? ==> r == currentTranslation
    ensures r == "" ==> currentTranslation == ""
    ensures reply.Answered? && StripCloseFence(StripOpenFence(Trim(reply.text.GetOr("")))) == "" ==>
      r == currentTranslation
    ensures reply.Answered? && r != currentTranslation ==>
      exists i, j | 0 <= i <= j <= |Trim(reply.text.GetOr(""))| :: r == Trim(reply.text.GetOr(""))[i..j]
  {
    match reply
    case Threw => currentTranslation
    case Answered(text) =>
      var t := Trim(text.GetOr(""));
      var unfenced := StripOpenFence(t);
      var closed := StripCloseFence(unfenced);
      assert closed == t[|t| - |unfenced|..][..|closed|];
      assert closed == t[|t| - |unfenced|..|t| - |unfenced| + |closed|];
      if closed != "" then closed else currentTranslation
  }

  /** A fenced answer resolves to what the fence holds, or to the current
      translation when the fence is empty. */
  lemma RefineFenced(x: string, currentTranslation: string)
    ensures RefineResult(Answered(Some("```json\n" + x + "\n```")), currentTranslation)
         == (if x != "" then x else currentTranslation)
    ensures RefineResult(Answered(Some("```\n" + x + "\n```")), currentTranslation)
         == (if x != "" then x else currentTranslation)
  {
    StripFencedAnswer(x);
    RefineTrimmedAnswer("```json\n" + x + "\n```", currentTranslation);
    RefineTrimmedAnswer("```\n" + x + "\n```", currentTranslation);
  }

  /** For an answer that needs no trimming only the fences are stripped. */
  lemma RefineTrimmedAnswer(t: string, currentTranslation: string)
    requires |t| > 0 && t[0] == '`' && t[|t| - 1] == '`'
    ensures var u := StripCloseFence(StripOpenFence(t));
      RefineResult(Answered(Some(t)), currentTranslation) == (if u != "" then u else currentTranslation)
  {
    assert Trimmed(t);
  }

  /** An answer with no fence and no surrounding white space is taken as it is. */
  lemma RefinePlain(x: string, currentTranslation: string)
    requires x != "" && Trimmed(x) && !StartsWith(x, "```") && !EndsWith(x, "\n```")
    ensures RefineResult(Answered(Some(x)), currentTranslation) == x
  {
    assert x[0..] == x;
  }

  /** No text, or only white space, leaves the current translation in place. */
  lemma RefineBlankAnswer(text: Option<string>, currentTranslation: string)
    requires text.None? || AllSpace(text.value)
    ensures RefineResult(Answered(text), currentTranslation) == currentTranslation
  {
    TrimEmptyIff(text.GetOr(""));
    assert StripOpenFence("") == "";
  }
}
