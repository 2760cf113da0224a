/** The older library page (HistoryPage.tsx at the repository root): the same
    search, status filter, ordering and card percentage as the current page, but
    the fandom drop-down lists whole fandom strings and the fandom filter asks
    for an exact match. */
module LegacyLibrary {
  import opened JsString
  import opened JsArray
  import opened Types
  import opened Library

  /** `fandoms`: the distinct fandom strings ('Unknown' for none), sorted. */
  function LegacyFandomOptions(history: seq<Project>): (r: seq<string>)
  {
    SortedDistinct(seq(|history|, i requires 0 <= i < |history| => FandomOrUnknown(history[i])))
  }

  /** The options are sorted, each once, and are exactly the defaulted fandoms
      of the projects. */
  lemma LegacyFandomOptionsSpec(history: seq<Project>)
    ensures StrictlySorted(LegacyFandomOptions(history))
    ensures forall x :: x in LegacyFandomOptions(history) <==> exists p | p in history :: FandomOrUnknown(p) == x
  {
    var fs := seq(|history|, i requires 0 <= i < |history| => FandomOrUnknown(history[i]));
    forall x ensures x in fs <==> exists p | p in history :: FandomOrUnknown(p) == x {
      if x in fs {
        var i :| 0 <= i < |fs| && fs[i] == x;
        assert history[i] in history;
      }
      if exists p | p in history :: FandomOrUnknown(p) == x {
        var p :| p in history && FandomOrUnknown(p) == x;
        var i :| 0 <= i < |history| && history[i] == p;
        assert fs[i] == x;
      }
    }
  }

  /** 'ALL', or exactly the selected fandom. */
  predicate MatchesFandomExact(selected: string, p: Project) {
    selected == FANDOM_ALL || p.metadata.fandom == selected
  }

  predicate LegacyPasses(term: string, fandom: string, status: string, p: Project) {
    MatchesSearch(term, p) && MatchesFandomExact(fandom, p) && MatchesStatus(status, p)
  }

  /** `filteredHistory` of the older page. */
  function LegacyFilteredHistory(history: seq<Project>, term: string, fandom: string, status: string): (r: seq<Project>)
  {
    SortByRecent(Filter(history, p => LegacyPasses(term, fandom, status, p)))
  }

  /** The list shown is a permutation of the passing projects, each as often as
      in `history`, newest first. */
  lemma LegacyFilteredHistorySpec(history: seq<Project>, term: string, fandom: string, status: string)
    ensures NewestFirst(LegacyFilteredHistory(history, term, fandom, status))
    ensures multiset(LegacyFilteredHistory(history, term, fandom, status))
         == multiset(Filter(history, p => LegacyPasses(term, fandom, status, p)))
    ensures forall p :: multiset(LegacyFilteredHistory(history, term, fandom, status))[p]
                     == if LegacyPasses(term, fandom, status, p) then multiset(history)[p] else 0
    ensures forall p :: p in LegacyFilteredHistory(history, term, fandom, status)
                    <==> p in history && LegacyPasses(term, fandom, status, p)
  {
    var keep := p => LegacyPasses(term, fandom, status, p);
    var kept := Filter(history, keep);
    var r := LegacyFilteredHistory(history, term, fandom, status);
    FilterSpec(history, keep);
    forall p ensures p in r <==> p in kept {
      assert p in r <==> p in multiset(r);
    }
  }

  /** Every option selects some project, except an 'Unknown' that stands for
      projects without a fandom. */
  lemma LegacyOptionSelection(history: seq<Project>, x: string)
    requires x in LegacyFandomOptions(history)
    ensures (exists p | p in history :: MatchesFandomExact(x, p))
         || (x == UNKNOWN && exists p | p in history :: p.metadata.fandom == "")
  {
    LegacyFandomOptionsSpec(history);
    var p :| p in history && FandomOrUnknown(p) == x;
    if p.metadata.fandom != "" {
      assert MatchesFandomExact(x, p);
    }
  }

  /** The older page has the same gap: the 'Unknown' option offered for a
      project without a fandom selects nothing. */
  lemma LegacyUnknownOptionSelectsNothing(p: Project)
    requires p.metadata.fandom == ""
    ensures UNKNOWN in LegacyFandomOptions([p])
    ensures forall q | q in [p] :: !MatchesFandomExact(UNKNOWN, q)
  {
    LegacyFandomOptionsSpec([p]);
    assert p in [p] && FandomOrUnknown(p) == UNKNOWN;
  }
}
