/** The two `Array.prototype` methods the library and favourites views rely on:
    `filter`, and `sort` with a numeric comparator `(a, b) => key(b) - key(a)`,
    which since ECMAScript 2019 is stable. Both are stated for any element type
    and any key. */
module JsArray {

  /** `xs.filter(keep)` */
  function Filter<T>(xs: seq<T>, keep: T -> bool): (r: seq<T>)
    ensures |r| <= |xs|
  {
    if |xs| == 0 then []
    else (if keep(xs[0]) then [xs[0]] else []) + Filter(xs[1..], keep)
  }

  /** A filter keeps exactly the elements that pass, each as often as it
      occurs. */
  lemma {:induction false} FilterSpec<T>(xs: seq<T>, keep: T -> bool)
    ensures forall i | 0 <= i < |Filter(xs, keep)| :: keep(Filter(xs, keep)[i])
    ensures forall x :: x in Filter(xs, keep) <==> x in xs && keep(x)
    ensures multiset(Filter(xs, keep)) <= multiset(xs)
    ensures forall x :: multiset(Filter(xs, keep))[x] == if keep(x) then multiset(xs)[x] else 0
  {
    if |xs| > 0 {
      FilterSpec(xs[1..], keep);
      assert xs == [xs[0]] + xs[1..];
      assert Filter(xs, keep) == (if keep(xs[0]) then [xs[0]] else []) + Filter(xs[1..], keep);
    }
  }

  /** Filtering works piecewise, so it keeps the order of what it keeps. */
  lemma {:induction false} FilterAppend<T>(a: seq<T>, b: seq<T>, keep: T -> bool)
    ensures Filter(a + b, keep) == Filter(a, keep) + Filter(b, keep)
  {
    if |a| > 0 {
      FilterAppend(a[1..], b, keep);
      assert (a + b)[1..] == a[1..] + b;
    } else {
      assert a + b == b;
    }
  }

  /** Filtering with a test that passes everything changes nothing. */
  lemma {:induction false} FilterAll<T>(xs: seq<T>, keep: T -> bool)
    requires forall x | x in xs :: keep(x)
    ensures Filter(xs, keep) == xs
  {
    if |xs| > 0 {
      assert xs[0] in xs;
      assert forall x | x in xs[1..] :: x in xs;
      FilterAll(xs[1..], keep);
    }
  }

  /** Two tests that split every element between them split the filter's
      length too. */
  lemma {:induction false} FilterSplits<T>(xs: seq<T>, keep: T -> bool, yes: T -> bool, no: T -> bool)
    requires forall x | x in xs :: (yes(x) <==> keep(x) && !no(x)) && (no(x) ==> keep(x))
    ensures |Filter(xs, yes)| + |Filter(xs, no)| == |Filter(xs, keep)|
  {
    if |xs| > 0 {
      assert xs[0] in xs;
      assert forall x | x in xs[1..] :: x in xs;
      FilterSplits(xs[1..], keep, yes, no);
    }
  }

  /** `xs.flatMap(f)` */
  function FlatMap<T, U>(xs: seq<T>, f: T -> seq<U>): seq<U> {
    if |xs| == 0 then [] else f(xs[0]) + FlatMap(xs[1..], f)
  }

  /** `flatMap` works piecewise: the order of the inputs is the order of their
      images. */
  lemma {:induction false} FlatMapAppend<T, U>(a: seq<T>, b: seq<T>, f: T -> seq<U>)
    ensures FlatMap(a + b, f) == FlatMap(a, f) + FlatMap(b, f)
  {
    if |a| == 0 {
      assert a + b == b;
    } else {
      FlatMapAppend(a[1..], b, f);
      assert (a + b)[1..] == a[1..] + b;
    }
  }

  /** Something is in a `flatMap` exactly when it is in the image of an input. */
  lemma {:induction false} FlatMapMembers<T, U>(xs: seq<T>, f: T -> seq<U>, y: U)
    ensures y in FlatMap(xs, f) <==> exists x | x in xs :: y in f(x)
  {
    if |xs| > 0 {
      FlatMapMembers(xs[1..], f, y);
      assert forall x | x in xs :: x == xs[0] || x in xs[1..];
      assert forall x | x in xs[1..] :: x in xs;
    }
  }

  predicate Descending<T>(s: seq<T>, key: T -> int) {
    forall i, j | 0 <= i < j < |s| :: key(s[i]) >= key(s[j])
  }

  /** Places `x` after every element with a key at least as large, before the
      first smaller one: where a stable descending sort puts a later element. */
  function InsertDescending<T>(x: T, s: seq<T>, key: T -> int): (r: seq<T>)
    ensures |r| == |s| + 1
  {
    if |s| == 0 || key(s[0]) < key(x) then [x] + s
    else [s[0]] + InsertDescending(x, s[1..], key)
  }

  lemma PrependDescending<T>(y: T, s: seq<T>, key: T -> int)
    requires Descending(s, key)
    requires forall k | 0 <= k < |s| :: key(s[k]) <= key(y)
    ensures Descending([y] + s, key)
  {
  }

  /** A list made of members of a bag whose keys are at most `bound` has keys
      at most `bound`. */
  lemma KeysBounded<T>(s: seq<T>, bag: multiset<T>, key: T -> int, bound: int)
    requires multiset(s) == bag
    requires forall x | x in bag :: key(x) <= bound
    ensures forall k | 0 <= k < |s| :: key(s[k]) <= bound
  {
    forall k | 0 <= k < |s| ensures key(s[k]) <= bound {
      assert s[k] in multiset(s);
    }
  }

  /** Inserting into a descending list keeps it descending and adds exactly `x`. */
  lemma {:induction false} InsertDescendingSorted<T>(x: T, s: seq<T>, key: T -> int)
    requires Descending(s, key)
    ensures Descending(InsertDescending(x, s, key), key)
    ensures multiset(InsertDescending(x, s, key)) == multiset(s) + multiset{x}
  {
    if |s| == 0 || key(s[0]) < key(x) {
      PrependDescending(x, s, key);
    } else {
      var rest := InsertDescending(x, s[1..], key);
      InsertDescendingSorted(x, s[1..], key);
      assert s == [s[0]] + s[1..];
      KeysBounded(rest, multiset(s[1..]) + multiset{x}, key, key(s[0]));
      PrependDescending(s[0], rest, key);
    }
  }

  /** `s.sort((a, b) => key(b) - key(a))`: insertion sort, which is stable. */
  function SortDescending<T>(s: seq<T>, key: T -> int): (r: seq<T>)
    ensures Descending(r, key)
    ensures multiset(r) == multiset(s)
    ensures |r| == |s|
  {
    if |s| == 0 then []
    else
      assert s == s[..|s| - 1] + [s[|s| - 1]];
      InsertDescendingSorted(s[|s| - 1], SortDescending(s[..|s| - 1], key), key);
      InsertDescending(s[|s| - 1], SortDescending(s[..|s| - 1], key), key)
  }

  lemma {:induction false} InsertAtEnd<T>(x: T, s: seq<T>, key: T -> int)
    requires forall k | 0 <= k < |s| :: key(s[k]) >= key(x)
    ensures InsertDescending(x, s, key) == s + [x]
  {
    if |s| > 0 {
      InsertAtEnd(x, s[1..], key);
      assert [s[0]] + (s[1..] + [x]) == s + [x];
    }
  }

  /** A list already in descending order is left exactly as it is, so equal
      keys keep their order when nothing else moves. */
  lemma {:induction false} SortDescendingKeepsSorted<T>(s: seq<T>, key: T -> int)
    requires Descending(s, key)
    ensures SortDescending(s, key) == s
  {
    if |s| > 0 {
      var init := s[..|s| - 1];
      SortDescendingKeepsSorted(init, key);
      InsertAtEnd(s[|s| - 1], init, key);
      assert init + [s[|s| - 1]] == s;
    }
  }

  /** Where the insertion lands: after the prefix whose keys are at least
      `key(x)`, before the rest, whose keys are smaller. */
  lemma {:induction false} InsertDescendingAt<T>(x: T, s: seq<T>, j: nat, key: T -> int)
    requires Descending(s, key) && j <= |s|
    requires j == 0 || key(s[j - 1]) >= key(x)
    requires forall k | j <= k < |s| :: key(s[k]) < key(x)
    ensures InsertDescending(x, s, key) == s[..j] + [x] + s[j..]
  {
    if j > 0 {
      assert key(s[0]) >= key(s[j - 1]);
      InsertDescendingAt(x, s[1..], j - 1, key);
      assert s[1..][..j - 1] == s[1..j];
      assert s[1..][j - 1..] == s[j..];
      assert [s[0]] + (s[1..j] + [x] + s[j..]) == s[..j] + [x] + s[j..];
    }
  }

  /** `a.sort((x, y) => key(y) - key(x))` on the array itself: a stable
      insertion sort, leaving exactly what `SortDescending` computes. */
  method SortInPlace<T>(a: array<T>, key: T -> int)
    modifies a
    ensures a[..] == SortDescending(old(a[..]), key)
  {
    ghost var s := a[..];
    var i := 0;
    while i < a.Length
      invariant 0 <= i <= a.Length
      invariant a[..i] == SortDescending(s[..i], key)
      invariant forall k | i <= k < a.Length :: a[k] == s[k]
    {
      InsertLast(a, i, key);
      SortDescendingSnoc(s, i, key);
      i := i + 1;
    }
    assert a[..] == a[..a.Length];
    assert s == s[..a.Length];
  }

  lemma SortDescendingSnoc<T>(s: seq<T>, i: nat, key: T -> int)
    requires i < |s|
    ensures SortDescending(s[..i + 1], key) == InsertDescending(s[i], SortDescending(s[..i], key), key)
  {
    assert s[..i + 1][..i] == s[..i];
  }

  /** One insertion step: moves `a[i]` left past the smaller keys of the sorted
      prefix `a[..i]`, shifting them one place right. */
  method InsertLast<T>(a: array<T>, i: nat, key: T -> int)
    requires i < a.Length && Descending(a[..i], key)
    modifies a
    ensures a[..i + 1] == InsertDescending(old(a[i]), old(a[..i]), key)
    ensures forall k | i < k < a.Length :: a[k] == old(a[k])
  {
    ghost var sorted := a[..i];
    var x := a[i];
    var j := i;
    while j > 0 && key(a[j - 1]) < key(x)
      invariant 0 <= j <= i
      invariant forall k | 0 <= k < j :: a[k] == sorted[k]
      invariant forall k | j < k <= i :: a[k] == sorted[k - 1]
      invariant forall k | i < k < a.Length :: a[k] == old(a[k])
      invariant forall k | j <= k < i :: key(sorted[k]) < key(x)
    {
      a[j] := a[j - 1];
      j := j - 1;
    }
    a[j] := x;
    InsertDescendingAt(x, sorted, j, key);
    ShiftedInsert(a[..i + 1], sorted, x, j);
  }

  /** A sequence that agrees with `s` before `j`, holds `x` at `j` and `s`
      shifted right by one after it is `s` with `x` inserted at `j`. */
  lemma ShiftedInsert<T>(r: seq<T>, s: seq<T>, x: T, j: nat)
    requires j <= |s| && |r| == |s| + 1
    requires forall k | 0 <= k < j :: r[k] == s[k]
    requires r[j] == x
    requires forall k | j < k < |r| :: r[k] == s[k - 1]
    ensures r == s[..j] + [x] + s[j..]
  {
  }
}
