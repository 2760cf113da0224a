/** Source reconciliation (services/utils.ts): how much of an old block list
    survives in a fresh parse (`calculateSimilarity`) and the content-keyed merge
    that carries user state from old blocks to new ones (`mergeProjectBlocks`).
    Blocks are matched on a key computed from the block; the application's key
    is `Fingerprint`, the normalised original text. Every definition and lemma
    below takes the key function as its first argument, so what is proved holds
    for that key in particular. */
module Reconcile {
  import opened Wrappers
  import opened Types
  import opened TextNormal
  import opened Percent

  /** The application's key: `normalizeForComparison(b.original)`. */
  function Fingerprint(b: Block): string {
    Normalize(b.original)
  }

  // ---------------------------------------------------------------------------
  // Similarity

  /** `blocks.filter(b => b.type === 'text')` */
  function TextBlocks(bs: seq<Block>): (r: seq<Block>)
    ensures |r| <= |bs|
    ensures forall b :: b in r <==> b in bs && b.kind == Text
  {
    if |bs| == 0 then []
    else (if bs[0].kind == Text then [bs[0]] else []) + TextBlocks(bs[1..])
  }

  function KeySet(key: Block -> string, bs: seq<Block>): set<string> {
    set b | b in bs :: key(b)
  }

  /** How many of `olds` have their key in `fps` (duplicates counted). */
  function PreservedCount(key: Block -> string, olds: seq<Block>, fps: set<string>): (r: nat)
    ensures r <= |olds|
  {
    if |olds| == 0 then 0
    else PreservedCount(key, olds[..|olds| - 1], fps) + (if key(olds[|olds| - 1]) in fps then 1 else 0)
  }

  /** `calculateSimilarity`: the rounded percentage of old text blocks whose
      key is among the new text blocks' keys. */
  function Similarity(key: Block -> string, olds: seq<Block>, news: seq<Block>): (r: nat)
    ensures r <= 100
  {
    if |olds| == 0 then 0
    else
      var ot := TextBlocks(olds);
      if |ot| == 0 then 0
      else
        var count := PreservedCount(key, ot, KeySet(key, TextBlocks(news)));
        RoundPercentBounds(count, |ot|);
        RoundPercent(count, |ot|)
  }

  /** The counting loop of the source. */
  method CalculateSimilarity(key: Block -> string, olds: seq<Block>, news: seq<Block>) returns (r: nat)
    ensures r == Similarity(key, olds, news)
  {
    if |olds| == 0 {
      return 0;
    }
    var oldText := TextBlocks(olds);
    var newText := TextBlocks(news);
    if |oldText| == 0 {
      return 0;
    }
    var newSet := KeySet(key, newText);
    var preserved := 0;
    var i := 0;
    while i < |oldText|
      invariant 0 <= i <= |oldText|
      invariant preserved == PreservedCount(key, oldText[..i], newSet)
    {
      PreservedSnoc(key, oldText, i, newSet);
      if key(oldText[i]) in newSet {
        preserved := preserved + 1;
      }
      i := i + 1;
    }
    assert oldText[..i] == oldText;
    r := RoundPercent(preserved, |oldText|);
  }

  /** Counting one block more. */
  lemma PreservedSnoc(key: Block -> string, xs: seq<Block>, i: nat, fps: set<string>)
    requires i < |xs|
    ensures PreservedCount(key, xs[..i + 1], fps) == PreservedCount(key, xs[..i], fps) + (if key(xs[i]) in fps then 1 else 0)
  {
    assert xs[..i + 1][..i] == xs[..i];
  }

  lemma {:induction false} PreservedAll(key: Block -> string, olds: seq<Block>, fps: set<string>)
    requires forall b | b in olds :: key(b) in fps
    ensures PreservedCount(key, olds, fps) == |olds|
    decreases |olds|
  {
    if |olds| > 0 {
      assert olds[|olds| - 1] in olds;
      PreservedAll(key, olds[..|olds| - 1], fps);
    }
  }

  lemma {:induction false} PreservedNone(key: Block -> string, olds: seq<Block>, fps: set<string>)
    requires forall b | b in olds :: key(b) !in fps
    ensures PreservedCount(key, olds, fps) == 0
    decreases |olds|
  {
    if |olds| > 0 {
      assert olds[|olds| - 1] in olds;
      PreservedNone(key, olds[..|olds| - 1], fps);
    }
  }

  /** A list with text blocks is 100% similar to itself. */
  lemma SimilaritySelf(key: Block -> string, x: seq<Block>)
    requires |TextBlocks(x)| > 0
    ensures Similarity(key, x, x) == 100
  {
    var ot := TextBlocks(x);
    PreservedAll(key, ot, KeySet(key, ot));
    RoundPercentBounds(|ot|, |ot|);
  }

  /** When every old text block's key is found among the new text
      blocks, whatever their order, the similarity is 100. */
  lemma SimilarityAllFound(key: Block -> string, olds: seq<Block>, news: seq<Block>)
    requires |TextBlocks(olds)| > 0
    requires forall b | b in olds && b.kind == Text :: exists c | c in news && c.kind == Text :: key(c) == key(b)
    ensures Similarity(key, olds, news) == 100
  {
    var ot := TextBlocks(olds);
    var fps := KeySet(key, TextBlocks(news));
    forall b | b in ot ensures key(b) in fps {
      var c :| c in news && c.kind == Text && key(c) == key(b);
      assert c in TextBlocks(news);
    }
    PreservedAll(key, ot, fps);
    RoundPercentBounds(|ot|, |ot|);
  }

  /** Similarity is 0 without old text blocks, and 0 when the new list has no
      text block (in particular when it is empty). */
  lemma SimilarityZero(key: Block -> string, olds: seq<Block>, news: seq<Block>)
    requires |TextBlocks(olds)| == 0 || |TextBlocks(news)| == 0
    ensures Similarity(key, olds, news) == 0
  {
    var ot := TextBlocks(olds);
    if |olds| > 0 && |ot| > 0 {
      assert KeySet(key, TextBlocks(news)) == {};
      PreservedNone(key, ot, {});
      RoundPercentBounds(0, |ot|);
    }
  }

  // ---------------------------------------------------------------------------
  // Merge

  /** An old block carries user state worth keeping: a translation, the favourite
      mark, a note, or the header role. */
  predicate Stateful(b: Block) {
    b.IsTranslated() || b.Favorite() || b.HasNote() || b.kind == Header
  }

  /** What the merge's lookup table holds for `k` once every old block is
      entered: the LAST stateful old block with that key. */
  function LastStateful(key: Block -> string, olds: seq<Block>, k: string): Option<Block> {
    if |olds| == 0 then None
    else if Stateful(olds[|olds| - 1]) && key(olds[|olds| - 1]) == k then Some(olds[|olds| - 1])
    else LastStateful(key, olds[..|olds| - 1], k)
  }

  /** Old block `j` carries state and has key `k`. */
  predicate Candidate(key: Block -> string, olds: seq<Block>, j: int, k: string) {
    0 <= j < |olds| && Stateful(olds[j]) && key(olds[j]) == k
  }

  /** The table holds an entry exactly when some stateful old block has the
      key, and then it is the one at the last such position. */
  lemma {:induction false} LastStatefulSpec(key: Block -> string, olds: seq<Block>, k: string)
    ensures LastStateful(key, olds, k).None? <==> forall j | 0 <= j < |olds| :: !Candidate(key, olds, j, k)
    ensures LastStateful(key, olds, k).Some? ==>
      exists j :: Candidate(key, olds, j, k) && olds[j] == LastStateful(key, olds, k).value
        && forall j' | j < j' < |olds| :: !Candidate(key, olds, j', k)
    decreases |olds|
  {
    if |olds| > 0 {
      var n := |olds| - 1;
      var init := olds[..n];
      LastStatefulSpec(key, init, k);
      forall j | 0 <= j < n ensures Candidate(key, init, j, k) == Candidate(key, olds, j, k) {
        assert init[j] == olds[j];
      }
      if !Candidate(key, olds, n, k) {
        if LastStateful(key, olds, k).Some? {
          var j :| Candidate(key, init, j, k) && init[j] == LastStateful(key, init, k).value
            && forall j' | j < j' < |init| :: !Candidate(key, init, j', k);
          assert Candidate(key, olds, j, k) && olds[j] == LastStateful(key, olds, k).value;
        }
      } else {
        assert Candidate(key, olds, n, k);
      }
    }
  }

  /** The state an old block lends to the new block it matches. */
  function Carry(nb: Block, m: Block): Block {
    nb.(translated := m.translated, isEdited := m.isEdited, isFavorite := m.isFavorite, note := m.note, kind := m.kind)
  }

  /** `mergeProjectBlocks`: one block per new block, in the new order; the new
      block's id, original text, chapter index and loading flag are kept. */
  function Merge(key: Block -> string, olds: seq<Block>, news: seq<Block>): (r: seq<Block>)
    ensures |r| == |news|
    ensures forall i | 0 <= i < |news| ::
      && r[i].id == news[i].id && r[i].original == news[i].original
      && r[i].chapterIndex == news[i].chapterIndex && r[i].isLoading == news[i].isLoading
  {
    seq(|news|, i requires 0 <= i < |news| =>
      match LastStateful(key, olds, key(news[i]))
      case None => news[i]
      case Some(m) => Carry(news[i], m))
  }

  /** The source's two loops: fill the lookup table from the old blocks, then
      look every new block up. */
  method MergeProjectBlocks(key: Block -> string, olds: seq<Block>, news: seq<Block>) returns (r: seq<Block>)
    ensures r == Merge(key, olds, news)
  {
    var history: map<string, Block> := map[];
    var i := 0;
    while i < |olds|
      invariant 0 <= i <= |olds|
      invariant forall k :: LastStateful(key, olds[..i], k) == if k in history then Some(history[k]) else None
    {
      assert olds[..i + 1][..i] == olds[..i];
      var b := olds[i];
      if b.IsTranslated() || b.Favorite() || b.HasNote() || b.kind == Header {
        history := history[key(b) := b];
      }
      i := i + 1;
    }
    assert olds[..i] == olds;
    r := [];
    var j := 0;
    while j < |news|
      invariant 0 <= j <= |news|
      invariant r == Merge(key, olds, news)[..j]
    {
      var k := key(news[j]);
      if k in history {
        r := r + [Carry(news[j], history[k])];
      } else {
        r := r + [news[j]];
      }
      j := j + 1;
    }
  }

  /** A new block whose key matches no stateful old block passes through unchanged. */
  lemma MergeUnmatched(key: Block -> string, olds: seq<Block>, news: seq<Block>, i: nat)
    requires i < |news|
    requires forall j | 0 <= j < |olds| :: !Candidate(key, olds, j, key(news[i]))
    ensures Merge(key, olds, news)[i] == news[i]
  {
    LastStatefulSpec(key, olds, key(news[i]));
  }

  /** A new block whose key matches a stateful old block takes its
      translation, edit flag, favourite mark, note and type from the last such
      old block. */
  lemma MergeMatched(key: Block -> string, olds: seq<Block>, news: seq<Block>, i: nat)
    requires i < |news|
    requires exists j :: Candidate(key, olds, j, key(news[i]))
    ensures exists j ::
      && Candidate(key, olds, j, key(news[i]))
      && (forall j' | j < j' < |olds| :: !Candidate(key, olds, j', key(news[i])))
      && Merge(key, olds, news)[i] == Carry(news[i], olds[j])
  {
    LastStatefulSpec(key, olds, key(news[i]));
  }

  /** Nothing to lend: merging into an empty history returns the new blocks;
      merging with an empty parse returns nothing. */
  lemma MergeEmpty(key: Block -> string, olds: seq<Block>, news: seq<Block>)
    ensures Merge(key, [], news) == news
    ensures Merge(key, olds, []) == []
  {
  }

  /** Every stateful block's key belongs to no other block of the list. */
  predicate StatefulKeysUnique(key: Block -> string, x: seq<Block>) {
    forall i, j | 0 <= i < |x| && 0 <= j < |x| && i != j && Stateful(x[j]) :: key(x[i]) != key(x[j])
  }

  /** Merging a list with itself gives it back, provided no stateful block shares
      its key with another block. */
  lemma MergeSelf(key: Block -> string, x: seq<Block>)
    requires StatefulKeysUnique(key, x)
    ensures Merge(key, x, x) == x
  {
    forall i | 0 <= i < |x| ensures Merge(key, x, x)[i] == x[i] {
      LastStatefulSpec(key, x, key(x[i]));
      if LastStateful(key, x, key(x[i])).Some? {
        var j :| Candidate(key, x, j, key(x[i])) && x[j] == LastStateful(key, x, key(x[i])).value;
        assert j == i;
      }
    }
  }

  /** Without that proviso merging a list with itself can change it: of two
      stateful blocks with the same key, the later one's state wins for both. */
  lemma MergeSelfLaterDuplicateWins(key: Block -> string, a: Block, b: Block)
    requires Stateful(b) && key(a) == key(b) && a.translated != b.translated
    ensures Merge(key, [a, b], [a, b])[0] == Carry(a, b)
    ensures Merge(key, [a, b], [a, b])[0].translated != a.translated
  {
    assert LastStateful(key, [a, b], key(a)) == Some(b);
  }

  /** A reordered parse: with old `[A, B]` (both carrying state, different
      keys) and new `[B', A']` matching them, the merge is
      `[B' with B's state, A' with A's state]`, and the similarity is 100 when both are text. */
  lemma MergeSwapped(key: Block -> string, a: Block, b: Block, a': Block, b': Block)
    requires Stateful(a) && Stateful(b) && key(a) != key(b)
    requires key(a') == key(a) && key(b') == key(b)
    ensures Merge(key, [a, b], [b', a']) == [Carry(b', b), Carry(a', a)]
    ensures a.kind == Text && b.kind == Text && a'.kind == Text && b'.kind == Text ==> Similarity(key, [a, b], [b', a']) == 100
  {
    assert LastStateful(key, [a, b], key(b')) == Some(b);
    assert [a, b][..1] == [a];
    assert LastStateful(key, [a, b], key(a')) == Some(a);
    if a.kind == Text && b.kind == Text && a'.kind == Text && b'.kind == Text {
      assert TextBlocks([a, b]) == [a, b];
      assert TextBlocks([b', a']) == [b', a'];
      SimilarityAllFound(key, [a, b], [b', a']);
    }
  }
}
