/** The library page (components/HistoryPage.tsx): the fandom drop-down built
    from every project's comma-separated fandom, the search / fandom / status
    filter with its newest-first ordering, the card's progress badge, and the
    two-step delete confirmation. */
module Library {
  import opened Wrappers
  import opened JsString
  import opened Types
  import opened Percent
  import opened JsArray

  // ---------------------------------------------------------------------------
  // Progress

  /** `blocks.filter(b => b.translated).length` */
  function DoneCount(blocks: seq<Block>): (r: nat)
    ensures r <= |blocks|
    ensures r == |blocks| <==> forall i | 0 <= i < |blocks| :: blocks[i].IsTranslated()
  {
    if |blocks| == 0 then 0
    else
      var prefix := DoneCount(blocks[..|blocks| - 1]);
      assert forall i | 0 <= i < |blocks| - 1 :: blocks[..|blocks| - 1][i] == blocks[i];
      prefix + (if blocks[|blocks| - 1].IsTranslated() then 1 else 0)
  }

  /** The filter's notion of a finished project: it has blocks and all of them
      are translated. */
  predicate IsComplete(p: Project) {
    |p.blocks| > 0 && DoneCount(p.blocks) == |p.blocks|
  }

  /** The card's percentage: rounded share of translated blocks, 0 for a project
      without blocks. */
  function CardPercent(p: Project): (r: nat)
    ensures r <= 100
    ensures |p.blocks| == 0 || DoneCount(p.blocks) == 0 ==> r == 0
    ensures IsComplete(p) ==> r == 100
  {
    if |p.blocks| > 0 then
      RoundPercentBounds(DoneCount(p.blocks), |p.blocks|);
      RoundPercent(DoneCount(p.blocks), |p.blocks|)
    else 0
  }

  /** The card's completed badge, as written: the percentage reads 100. */
  predicate CardComplete(p: Project) {
    CardPercent(p) == 100
  }

  /** Every finished project shows the badge, and below 200 blocks the badge
      means finished; from 200 blocks on, one untranslated block still rounds to
      100 and shows the badge on an unfinished project. */
  lemma CardBadgeAgreement(p: Project)
    ensures IsComplete(p) ==> CardComplete(p)
    ensures |p.blocks| < 200 ==> (CardComplete(p) <==> IsComplete(p))
    ensures |p.blocks| >= 200 && DoneCount(p.blocks) == |p.blocks| - 1 ==> CardComplete(p) && !IsComplete(p)
  {
    var n, d := |p.blocks|, DoneCount(p.blocks);
    if 0 < n < 200 {
      RoundPercentHundredIffDone(d, n);
    }
    if n >= 200 && d == n - 1 {
      var r := RoundPercent(d, n);
      assert 2 * n * 99 < 200 * d + n;
      assert 2 * n * 99 < 2 * n * (r + 1);
      MulCancelLess(2 * n, 99, r + 1);
    }
  }

  /** The corrected badge: the same test the status filter applies. */
  predicate CardCompleteFixed(p: Project) {
    IsComplete(p)
  }

  /** The corrected badge agrees with the filter: a project shows it exactly
      when the COMPLETED filter lets it through. */
  lemma CardCompleteFixedAgrees(p: Project)
    ensures CardCompleteFixed(p) <==> MatchesStatus(STATUS_COMPLETED, p)
    ensures CardCompleteFixed(p) <==> !MatchesStatus(STATUS_IN_PROGRESS, p)
    ensures CardCompleteFixed(p) ==> CardPercent(p) == 100
  {
  }

  // ---------------------------------------------------------------------------
  // Filters

  const STATUS_ALL: string := "ALL"
  const STATUS_COMPLETED: string := "COMPLETED"
  const STATUS_IN_PROGRESS: string := "IN_PROGRESS"
  const FANDOM_ALL: string := "ALL"
  const UNKNOWN: string := "Unknown"

  /** The lowercased title or author contains the lowercased query. */
  predicate MatchesSearch(term: string, p: Project) {
    var q := ToLower(term);
    Contains(ToLower(p.metadata.title), q) || Contains(ToLower(p.metadata.author), q)
  }

  /** As written: 'ALL', or a non-empty fandom string containing the selection. */
  predicate MatchesFandom(selected: string, p: Project) {
    FandomSelects(selected, p.metadata.fandom)
  }

  /** `filter === 'ALL' || (fandom && fandom.includes(filter))` */
  predicate FandomSelects(selected: string, fandom: string) {
    selected == FANDOM_ALL || (fandom != "" && Contains(fandom, selected))
  }

  /** COMPLETED keeps finished projects, IN_PROGRESS the others, and any other
      value keeps everything. */
  predicate MatchesStatus(status: string, p: Project) {
    if status == STATUS_COMPLETED then IsComplete(p)
    else if status == STATUS_IN_PROGRESS then !IsComplete(p)
    else true
  }

  predicate Passes(term: string, fandom: string, status: string, p: Project) {
    MatchesSearch(term, p) && MatchesFandom(fandom, p) && MatchesStatus(status, p)
  }

  /** `history.filter(...)` with the page's three filters. */
  function Keep(history: seq<Project>, term: string, fandom: string, status: string): (r: seq<Project>)
  {
    Filter(history, p => Passes(term, fandom, status, p))
  }

  /** The empty query matches every project. */
  lemma SearchEmpty(p: Project)
    ensures MatchesSearch("", p)
  {
    assert OccursAt(ToLower(p.metadata.title), ToLower(""), 0);
  }

  /** The search ignores the case of the query. */
  lemma SearchIgnoresQueryCase(term: string, p: Project)
    ensures MatchesSearch(ToLower(term), p) == MatchesSearch(term, p)
  {
    forall i | 0 <= i < |term| ensures ToLower(ToLower(term))[i] == ToLower(term)[i] {
      LowerCharFacts(term[i]);
    }
    assert ToLower(ToLower(term)) == ToLower(term);
  }

  /** COMPLETED and IN_PROGRESS split the projects the other two filters let
      through: every one lands in exactly one of the two lists. */
  lemma StatusPartition(history: seq<Project>, term: string, fandom: string)
    ensures |Keep(history, term, fandom, STATUS_COMPLETED)| + |Keep(history, term, fandom, STATUS_IN_PROGRESS)|
         == |Keep(history, term, fandom, STATUS_ALL)|
    ensures forall p :: MatchesStatus(STATUS_COMPLETED, p) != MatchesStatus(STATUS_IN_PROGRESS, p)
  {
    FilterSplits(history, p => Passes(term, fandom, STATUS_ALL, p),
      p => Passes(term, fandom, STATUS_COMPLETED, p), p => Passes(term, fandom, STATUS_IN_PROGRESS, p));
  }

  // ---------------------------------------------------------------------------
  // Newest first

  function Recency(p: Project): int { p.lastModified }

  predicate NewestFirst(s: seq<Project>) {
    Descending(s, Recency)
  }

  /** `.sort((a, b) => b.lastModified - a.lastModified)` */
  function SortByRecent(s: seq<Project>): (r: seq<Project>)
  {
    SortDescending(s, Recency)
  }

  /** `filteredHistory`: the passing projects, newest first. */
  function FilteredHistory(history: seq<Project>, term: string, fandom: string, status: string): (r: seq<Project>)
  {
    SortByRecent(Keep(history, term, fandom, status))
  }

  /** The list shown is a permutation of the passing projects: each project
      that passes the three filters appears as often as in `history`, no other
      appears, and the list is newest first; on a library already newest first it
      is the plain filter. */
  lemma FilteredHistorySpec(history: seq<Project>, term: string, fandom: string, status: string)
    ensures NewestFirst(FilteredHistory(history, term, fandom, status))
    ensures multiset(FilteredHistory(history, term, fandom, status)) == multiset(Keep(history, term, fandom, status))
    ensures forall p :: multiset(FilteredHistory(history, term, fandom, status))[p]
                     == if Passes(term, fandom, status, p) then multiset(history)[p] else 0
    ensures forall p :: p in FilteredHistory(history, term, fandom, status)
                    <==> p in history && Passes(term, fandom, status, p)
    ensures NewestFirst(history) ==> FilteredHistory(history, term, fandom, status) == Keep(history, term, fandom, status)
  {
    var keep := p => Passes(term, fandom, status, p);
    var kept := Keep(history, term, fandom, status);
    var r := FilteredHistory(history, term, fandom, status);
    FilterSpec(history, keep);
    forall p ensures p in r <==> p in kept {
      assert p in r <==> p in multiset(r);
    }
    if NewestFirst(history) {
      FilterKeepsOrder(history, keep);
      SortDescendingKeepsSorted(kept, Recency);
    }
  }

  lemma {:induction false} FilterKeepsOrder(history: seq<Project>, keep: Project -> bool)
    requires NewestFirst(history)
    ensures NewestFirst(Filter(history, keep))
  {
    if |history| > 0 {
      FilterKeepsOrder(history[1..], keep);
      FilterSpec(history[1..], keep);
      var rest := Filter(history[1..], keep);
      forall k | 0 <= k < |rest| ensures Recency(rest[k]) <= Recency(history[0]) {
        assert rest[k] in history[1..];
      }
      if keep(history[0]) {
        PrependDescending(history[0], rest, Recency);
      }
    }
  }

  // ---------------------------------------------------------------------------
  // Fandom options

  /** `p.metadata.fandom || 'Unknown'` */
  function FandomOrUnknown(p: Project): (r: string)
    ensures r != ""
    ensures p.metadata.fandom != "" ==> r == p.metadata.fandom
  {
    if p.metadata.fandom == "" then UNKNOWN else p.metadata.fandom
  }

  /** `s.split(',').map(f => f.trim())` */
  function TrimmedCommaPieces(s: string): (r: seq<string>)
    ensures |r| == |Split(s, ',')| && forall k | 0 <= k < |r| :: r[k] == Trim(Split(s, ',')[k])
  {
    seq(|Split(s, ',')|, k requires 0 <= k < |Split(s, ',')| => Trim(Split(s, ',')[k]))
  }

  /** The trimmed comma-separated pieces of a project's fandom. */
  function TrimmedPieces(p: Project): seq<string> {
    TrimmedCommaPieces(FandomOrUnknown(p))
  }

  /** `x` is a trimmed comma-separated piece of the fandom of `history[j]`. */
  predicate IsPieceOf(history: seq<Project>, j: nat, x: string) {
    j < |history| && x in TrimmedPieces(history[j])
  }

  predicate IsOption(history: seq<Project>, x: string) {
    exists j: nat | j < |history| :: IsPieceOf(history, j, x)
  }

  /** `fandoms`: the distinct trimmed pieces of every project's fandom
      ('Unknown' when it has none), sorted. */
  method FandomOptions(history: seq<Project>) returns (r: seq<string>)
    ensures StrictlySorted(r)
    ensures forall x :: x in r <==> IsOption(history, x)
  {
    var fs: set<string> := {};
    var i := 0;
    while i < |history|
      invariant 0 <= i <= |history|
      invariant forall x :: x in fs <==> InFirst(history, i, x)
    {
      ghost var before := fs;
      fs := AddPieces(fs, TrimmedPieces(history[i]));
      forall x ensures x in fs <==> InFirst(history, i + 1, x) {
        InFirstStep(history, i, x);
      }
      i := i + 1;
    }
    r := SortStrings(fs);
    forall x ensures x in r <==> IsOption(history, x) {
      assert InFirst(history, |history|, x) <==> IsOption(history, x);
    }
  }

  /** `x` is a piece of one of the first `i` projects. */
  predicate InFirst(history: seq<Project>, i: nat, x: string) {
    exists j: nat | j < i :: IsPieceOf(history, j, x)
  }

  lemma InFirstStep(history: seq<Project>, i: nat, x: string)
    ensures InFirst(history, i + 1, x) <==> InFirst(history, i, x) || IsPieceOf(history, i, x)
  {
    if InFirst(history, i + 1, x) && !IsPieceOf(history, i, x) {
      var j: nat :| j < i + 1 && IsPieceOf(history, j, x);
      assert j < i;
    }
  }

  /** `rawFandom.split(',').forEach(f => fs.add(f.trim()))`, given the trimmed
      pieces. */
  method AddPieces(fs: set<string>, pieces: seq<string>) returns (r: set<string>)
    ensures forall x :: x in r <==> x in fs || x in pieces
  {
    r := fs;
    var k := 0;
    while k < |pieces|
      invariant 0 <= k <= |pieces|
      invariant forall x :: x in r <==> x in fs || x in pieces[..k]
    {
      assert pieces[..k + 1] == pieces[..k] + [pieces[k]];
      r := r + {pieces[k]};
      k := k + 1;
    }
    assert pieces[..k] == pieces;
  }

  /** As written, an option built from a non-empty fandom selects the project it
      came from. */
  lemma OptionSelectsItsProject(history: seq<Project>, j: nat, x: string)
    requires IsPieceOf(history, j, x)
    ensures Contains(FandomOrUnknown(history[j]), x)
    ensures history[j].metadata.fandom != "" ==> MatchesFandom(x, history[j])
  {
    TrimmedPieceOccurs(FandomOrUnknown(history[j]), x);
  }

  /** A trimmed comma-separated piece of a string occurs in it. */
  lemma TrimmedPieceOccurs(s: string, x: string)
    requires x in TrimmedCommaPieces(s)
    ensures Contains(s, x)
  {
    var k :| 0 <= k < |Split(s, ',')| && TrimmedCommaPieces(s)[k] == x;
    var piece := Split(s, ',')[k];
    SplitPiecesOccur(s, ',');
    var i := TrimInfix(piece);
    ContainsSlice(piece, i, i + |Trim(piece)|);
    ContainsTransitive(s, piece, Trim(piece));
  }

  /** As written, the 'Unknown' option offered for a project without a fandom
      does not select that project. */
  lemma UnknownOptionSelectsNothing(p: Project)
    requires p.metadata.fandom == ""
    ensures IsOption([p], UNKNOWN)
    ensures !MatchesFandom(UNKNOWN, p)
  {
    UnknownIsOnePiece();
    assert [p][0] == p;
    assert TrimmedPieces(p)[0] == UNKNOWN;
    assert IsPieceOf([p], 0, UNKNOWN);
  }

  lemma UnknownIsOnePiece()
    ensures Split(UNKNOWN, ',') == [UNKNOWN]
    ensures Trim(UNKNOWN) == UNKNOWN
  {
    assert ',' !in UNKNOWN;
    assert IndexOfChar(UNKNOWN, ',').None?;
    assert !IsSpace(UNKNOWN[0]) && !IsSpace(UNKNOWN[|UNKNOWN| - 1]);
  }

  /** Corrected fandom filter: the selection is looked for in the same
      defaulted string the options are built from. */
  predicate MatchesFandomFixed(selected: string, p: Project) {
    selected == FANDOM_ALL || Contains(FandomOrUnknown(p), selected)
  }

  /** With the corrected filter every option selects every project it was built
      from, and the filter agrees with the original one on projects with a fandom. */
  lemma OptionSelectsItsProjectFixed(history: seq<Project>, j: nat, x: string)
    requires IsPieceOf(history, j, x)
    ensures MatchesFandomFixed(x, history[j])
    ensures history[j].metadata.fandom != "" ==> (MatchesFandomFixed(x, history[j]) <==> MatchesFandom(x, history[j]))
  {
    OptionSelectsItsProject(history, j, x);
  }

  // ---------------------------------------------------------------------------
  // Two-step delete

  /** The delete confirmation: `pending` is `projectToDelete`, and `deleted`
      records the ids handed to `onDelete`, in order. */
  class DeleteDialog {
    var pending: Option<string>
    var deleted: seq<string>

    constructor()
      ensures pending == None && deleted == []
    {
      pending := None;
      deleted := [];
    }

    /** `requestDelete` only records the id; nothing is deleted yet. */
    method RequestDelete(projectId: string)
      modifies this
      ensures pending == Some(projectId) && deleted == old(deleted)
    {
      pending := Some(projectId);
    }

    /** `confirmDelete`: a non-empty pending id is deleted once and cleared;
        otherwise nothing happens. */
    method ConfirmDelete()
      modifies this
      ensures old(pending).Some? && old(pending).value != "" ==>
        deleted == old(deleted) + [old(pending).value] && pending == None
      ensures !(old(pending).Some? && old(pending).value != "") ==>
        deleted == old(deleted) && pending == old(pending)
    {
      if pending.Some? && pending.value != "" {
        deleted := deleted + [pending.value];
        pending := None;
      }
    }

    /** The cancel button clears the pending id without deleting. */
    method Cancel()
      modifies this
      ensures pending == None && deleted == old(deleted)
    {
      pending := None;
    }
  }
}
