/** Chapter numbering (services/utils.ts, `recalculateChapterIndices`): a running
    counter that goes up by one at every header block except the one at position 0,
    which is taken to be the title of the work. */
module ChapterIndex {
  import opened Types

  /** The number of header blocks at positions 1..k. */
  function ChapterCount(blocks: seq<Block>, k: nat): (r: nat)
    requires k < |blocks|
    ensures r <= k
  {
    if k == 0 then 0
    else ChapterCount(blocks, k - 1) + (if blocks[k].kind == Header then 1 else 0)
  }

  /** The block list with every `chapterIndex` recomputed. */
  function Reindex(blocks: seq<Block>): seq<Block> {
    seq(|blocks|, i requires 0 <= i < |blocks| => blocks[i].(chapterIndex := ChapterCount(blocks, i)))
  }

  /** The running-counter loop of the source; it builds `Reindex(blocks)`. */
  method RecalculateChapterIndices(blocks: seq<Block>) returns (r: seq<Block>)
    ensures r == Reindex(blocks)
  {
    var current := 0;
    r := [];
    var index := 0;
    while index < |blocks|
      invariant 0 <= index <= |blocks|
      invariant r == Reindex(blocks)[..index]
      invariant current == if index == 0 then 0 else ChapterCount(blocks, index - 1)
    {
      if blocks[index].kind == Header && index > 0 {
        current := current + 1;
      }
      r := r + [blocks[index].(chapterIndex := current)];
      index := index + 1;
    }
  }

  /** Re-indexing keeps the length and every field but `chapterIndex`; the first
      block is in chapter 0, and each later block is in the chapter of its
      predecessor, plus one exactly when it is a header. */
  lemma ReindexSteps(blocks: seq<Block>)
    ensures |Reindex(blocks)| == |blocks|
    ensures forall i | 0 <= i < |blocks| :: Reindex(blocks)[i].(chapterIndex := blocks[i].chapterIndex) == blocks[i]
    ensures |blocks| > 0 ==> Reindex(blocks)[0].chapterIndex == 0
    ensures forall i | 0 < i < |blocks| ::
      Reindex(blocks)[i].chapterIndex == Reindex(blocks)[i - 1].chapterIndex + (if blocks[i].kind == Header then 1 else 0)
  {
  }

  lemma {:induction false} ChapterCountMonotone(blocks: seq<Block>, i: nat, j: nat)
    requires i <= j < |blocks|
    ensures ChapterCount(blocks, i) <= ChapterCount(blocks, j)
    ensures ChapterCount(blocks, j) - ChapterCount(blocks, i) <= j - i
    decreases j
  {
    if i < j { ChapterCountMonotone(blocks, i, j - 1); }
  }

  /** Chapter indices never go down along the list, and never rise faster than the position. */
  lemma ReindexNonDecreasing(blocks: seq<Block>, i: nat, j: nat)
    requires i <= j < |blocks|
    ensures Reindex(blocks)[i].chapterIndex <= Reindex(blocks)[j].chapterIndex
    ensures Reindex(blocks)[j].chapterIndex <= j
  {
    ChapterCountMonotone(blocks, i, j);
  }

  /** The count depends on the block kinds only. */
  lemma {:induction false} ChapterCountKinds(a: seq<Block>, b: seq<Block>, k: nat)
    requires |a| == |b| && k < |a|
    requires forall i | 0 <= i < |a| :: a[i].kind == b[i].kind
    ensures ChapterCount(a, k) == ChapterCount(b, k)
  {
    if k > 0 { ChapterCountKinds(a, b, k - 1); }
  }

  /** Re-indexing an already re-indexed list changes nothing. */
  lemma ReindexIdempotent(blocks: seq<Block>)
    ensures Reindex(Reindex(blocks)) == Reindex(blocks)
  {
    var r := Reindex(blocks);
    forall i | 0 <= i < |blocks| ensures Reindex(r)[i] == r[i] {
      ChapterCountKinds(r, blocks, i);
    }
  }

  /** Two lists with the same kinds get the same chapter numbering. */
  lemma ReindexSameKinds(a: seq<Block>, b: seq<Block>)
    requires |a| == |b|
    requires forall i | 0 <= i < |a| :: a[i].kind == b[i].kind
    ensures forall i | 0 <= i < |a| :: Reindex(a)[i].chapterIndex == Reindex(b)[i].chapterIndex
  {
    forall i | 0 <= i < |a| ensures Reindex(a)[i].chapterIndex == Reindex(b)[i].chapterIndex {
      ChapterCountKinds(a, b, i);
    }
  }

  /** A block's chapter index is the number of headers strictly after the title
      position and up to the block. */
  lemma {:induction false} ChapterCountIsHeaderCount(blocks: seq<Block>, k: nat)
    requires k < |blocks|
    ensures ChapterCount(blocks, k) == |set i | 1 <= i <= k && blocks[i].kind == Header|
  {
    if k > 0 {
      ChapterCountIsHeaderCount(blocks, k - 1);
      var prev := set i | 1 <= i <= k - 1 && blocks[i].kind == Header;
      var now := set i | 1 <= i <= k && blocks[i].kind == Header;
      if blocks[k].kind == Header {
        assert now == prev + {k};
      } else {
        assert now == prev;
      }
    }
  }
}
