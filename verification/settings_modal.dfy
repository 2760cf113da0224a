/** The project settings dialog (components/ProjectSettingsModal.tsx): its
    auto-glossary button, which refuses a missing or placeholder fandom and
    appends what it gets to the glossary already there, and its sliders. */
module SettingsModal {
  import opened Wrappers
  import opened JsString
  import opened InputForm

  const UNKNOWN_FANDOM: string := "Unknown Fandom"

  /** `!fandom || fandom === 'Unknown Fandom'` refuses the request. */
  predicate GlossaryAllowed(fandom: Option<string>) {
    fandom.Some? && fandom.value != "" && fandom.value != UNKNOWN_FANDOM
  }

  /** `settings.glossary ? settings.glossary + '\n\n' + result : result`, taken
      only for a non-empty result. */
  function MergedGlossary(existing: string, result: string): string {
    if result == "" then existing
    else if existing == "" then result
    else existing + "\n\n" + result
  }

  /** Merging never loses text: the old glossary stays in front, the new entries
      go at the end, a blank line separates the two, and an empty answer changes
      nothing. */
  lemma MergedGlossarySpec(existing: string, result: string)
    ensures StartsWith(MergedGlossary(existing, result), existing)
    ensures EndsWith(MergedGlossary(existing, result), result)
    ensures |MergedGlossary(existing, result)|
         == |existing| + |result| + (if existing != "" && result != "" then 2 else 0)
    ensures result == "" ==> MergedGlossary(existing, result) == existing
    ensures existing == "" ==> MergedGlossary(existing, result) == result
    ensures existing != "" && result != "" ==>
      OccursAt(MergedGlossary(existing, result), "\n\n", |existing|)
  {
    var m := MergedGlossary(existing, result);
    if existing != "" && result != "" {
      assert m[..|existing|] == existing;
      assert m[|m| - |result|..] == result;
      assert m[|existing|..|existing| + 2] == "\n\n";
    }
  }

  /** The placeholder the plain-text importer writes, 'Unknown', is not the one
      the dialog refuses, so a glossary is requested for a fandom called
      'Unknown'. */
  lemma PlainTextPlaceholderAllowed()
    ensures GlossaryAllowed(Some("Unknown"))
    ensures !GlossaryAllowed(Some(UNKNOWN_FANDOM)) && !GlossaryAllowed(Some("")) && !GlossaryAllowed(None)
  {
  }

  /** How a press of the dialog's auto-glossary button ended. */
  datatype ModalGlossaryOutcome = Refused | NothingGenerated | Appended

  /** The settings the dialog edits, held by the application. The application
      restores the batch size and context window from a project or a backup
      without bounds, so they may lie outside the sliders' ranges until a slider
      is moved. */
  class ProjectSettings {
    var glossary: string
    var batchSize: int
    var contextWindow: int
    var generating: bool

    /** The batch size and context window lie within their sliders' ranges. */
    predicate Valid()
      reads this
    {
      BATCH_MIN <= batchSize <= BATCH_MAX && CONTEXT_MIN <= contextWindow <= CONTEXT_MAX
    }

    /** Where the two range inputs draw their thumbs: the held values, clamped.
        The labels beside them show the held values as they are. */
    function SliderPositions(): (r: (int, int))
      reads this
      ensures BATCH_MIN <= r.0 <= BATCH_MAX && CONTEXT_MIN <= r.1 <= CONTEXT_MAX
      ensures Valid() ==> r == (batchSize, contextWindow)
    {
      (BatchSizeSlider(batchSize), ContextWindowSlider(contextWindow))
    }

    /** The dialog opened on the application's values, whatever they are. */
    constructor(glossary: string, batchSize: int, contextWindow: int)
      ensures this.glossary == glossary && !generating
      ensures this.batchSize == batchSize && this.contextWindow == contextWindow
    {
      this.glossary := glossary;
      this.batchSize := batchSize;
      this.contextWindow := contextWindow;
      generating := false;
    }

    /** The batch-size slider moved to `requested`. */
    method SetBatchSize(requested: int)
      modifies this
      ensures batchSize == BatchSizeSlider(requested) && BATCH_MIN <= batchSize <= BATCH_MAX
      ensures old(CONTEXT_MIN <= contextWindow <= CONTEXT_MAX) ==> Valid()
      ensures glossary == old(glossary) && contextWindow == old(contextWindow) && generating == old(generating)
    {
      batchSize := BatchSizeSlider(requested);
    }

    /** The context-window slider moved to `requested`. */
    method SetContextWindow(requested: int)
      modifies this
      ensures contextWindow == ContextWindowSlider(requested) && CONTEXT_MIN <= contextWindow <= CONTEXT_MAX
      ensures old(BATCH_MIN <= batchSize <= BATCH_MAX) ==> Valid()
      ensures glossary == old(glossary) && batchSize == old(batchSize) && generating == old(generating)
    {
      contextWindow := ContextWindowSlider(requested);
    }

    /** `handleAutoGlossary`, with `result` the service's answer (the trimmed
        reply, or "" on any failure). */
    method AutoGlossary(fandom: Option<string>, result: string) returns (outcome: ModalGlossaryOutcome)
      modifies this
      ensures !GlossaryAllowed(fandom) ==> outcome == Refused && glossary == old(glossary)
      ensures GlossaryAllowed(fandom) && result == "" ==> outcome == NothingGenerated && glossary == old(glossary)
      ensures GlossaryAllowed(fandom) && result != "" ==>
        outcome == Appended && glossary == MergedGlossary(old(glossary), result)
      ensures outcome == Refused ==> generating == old(generating)
      ensures outcome != Refused ==> !generating
      ensures batchSize == old(batchSize) && contextWindow == old(contextWindow)
    {
      if fandom.None? || fandom.value == "" || fandom.value == UNKNOWN_FANDOM {
        return Refused;
      }
      generating := true;
      if result != "" {
        var newGlossary := if glossary != "" then glossary + "\n\n" + result else result;
        glossary := newGlossary;
        outcome := Appended;
      } else {
        outcome := NothingGenerated;
      }
      generating := false;
    }
  }

  /** Pressing the button twice with answers `r1` then `r2` keeps both, in
      order. */
  lemma MergedGlossaryTwice(existing: string, r1: string, r2: string)
    requires r1 != "" && r2 != ""
    ensures MergedGlossary(MergedGlossary(existing, r1), r2)
         == (if existing == "" then r1 else existing + "\n\n" + r1) + "\n\n" + r2
  {
  }
}
