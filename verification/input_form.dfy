/** The new-translation form (components/TranslationInput.tsx): the switch
    between translating and showing the original, which remembers the last
    target language; the auto-glossary button, whose result replaces the
    glossary; and the bounded sliders and the language list. */
module InputForm {
  import opened Wrappers
  import opened JsArray
  import opened Types

  const DEFAULT_TARGET: string := "zh-CN"

  // ---------------------------------------------------------------------------
  // Range sliders

  /** What an `<input type="range" min=lo max=hi>` reports after the browser's
      value sanitisation: the requested whole number, clamped into the range. */
  function RangeValue(requested: int, lo: int, hi: int): (r: int)
    requires lo <= hi
    ensures lo <= r <= hi
    ensures lo <= requested <= hi ==> r == requested
    ensures requested < lo ==> r == lo
    ensures requested > hi ==> r == hi
  {
    if requested < lo then lo else if requested > hi then hi else requested
  }

  const BATCH_MIN: int := 1
  const BATCH_MAX: int := 20
  const CONTEXT_MIN: int := 0
  const CONTEXT_MAX: int := 10

  function BatchSizeSlider(requested: int): (r: int)
    ensures BATCH_MIN <= r <= BATCH_MAX
    ensures BATCH_MIN <= requested <= BATCH_MAX ==> r == requested
  {
    RangeValue(requested, BATCH_MIN, BATCH_MAX)
  }

  function ContextWindowSlider(requested: int): (r: int)
    ensures CONTEXT_MIN <= r <= CONTEXT_MAX
    ensures CONTEXT_MIN <= requested <= CONTEXT_MAX ==> r == requested
  {
    RangeValue(requested, CONTEXT_MIN, CONTEXT_MAX)
  }

  /** A slider value is a fixed point: reading back what it shows changes
      nothing, and a batch is never empty. */
  lemma SlidersSettle(requested: int)
    ensures BatchSizeSlider(BatchSizeSlider(requested)) == BatchSizeSlider(requested)
    ensures ContextWindowSlider(ContextWindowSlider(requested)) == ContextWindowSlider(requested)
    ensures BatchSizeSlider(requested) > 0
  {
  }

  // ---------------------------------------------------------------------------
  // Language list

  /** `SUPPORTED_LANGUAGES.filter(l => l.code !== 'original')` */
  function TargetLanguageOptions(): seq<Language> {
    Filter(SUPPORTED_LANGUAGES, (l: Language) => l.code != ORIGINAL_CODE)
  }

  /** The filter has nothing to remove: every supported language is offered,
      in the same order, and none of them is the pseudo-language. */
  lemma TargetLanguageOptionsAll()
    ensures TargetLanguageOptions() == SUPPORTED_LANGUAGES
    ensures forall l | l in TargetLanguageOptions() :: l.code != ORIGINAL_CODE
  {
    SupportedCodesDistinct();
    FilterAll(SUPPORTED_LANGUAGES, (l: Language) => l.code != ORIGINAL_CODE);
  }

  predicate Offered(code: string) {
    exists l | l in TargetLanguageOptions() :: l.code == code
  }

  // ---------------------------------------------------------------------------
  // Translate / show original switch

  /** The switch and the language it remembers, with the parent's target. */
  datatype LangSwitch = LangSwitch(enabled: bool, remembered: string, target: string)

  /** `handleToggleTranslation(enabled)` on values. */
  function Switched(s: LangSwitch, enabled: bool): LangSwitch {
    if enabled then
      LangSwitch(true, s.remembered, if s.remembered == ORIGINAL_CODE then DEFAULT_TARGET else s.remembered)
    else
      LangSwitch(false, s.target, ORIGINAL_CODE)
  }

  /** The switch is on exactly when a real language is the target. */
  predicate Consistent(s: LangSwitch) {
    s.enabled <==> s.target != ORIGINAL_CODE
  }

  /** The form as mounted: on unless the target is 'original', remembering
      'zh-CN'. */
  function Mounted(target: string): (s: LangSwitch)
    ensures Consistent(s) && s.remembered == DEFAULT_TARGET
  {
    LangSwitch(target != ORIGINAL_CODE, DEFAULT_TARGET, target)
  }

  /** Flipping the switch either way, and picking a language from the list,
      keep the switch and the target in agreement. */
  lemma SwitchKeepsConsistent(s: LangSwitch, enabled: bool, code: string)
    ensures Consistent(Switched(s, enabled))
    ensures Consistent(s) && s.enabled && Offered(code) ==> Consistent(s.(target := code))
  {
    if Offered(code) {
      TargetLanguageOptionsAll();
      var l :| l in TargetLanguageOptions() && l.code == code;
      assert code != ORIGINAL_CODE;
    }
  }

  /** Turning translation off and on again brings back the language that was
      the target, or 'zh-CN' if none was. */
  lemma SwitchRoundTrip(s: LangSwitch)
    ensures Switched(Switched(s, false), true).target
         == (if s.target == ORIGINAL_CODE then DEFAULT_TARGET else s.target)
    ensures Switched(Switched(s, false), true).enabled
  {
  }

  // ---------------------------------------------------------------------------
  // The component

  /** How a press of the auto-glossary button ended. */
  datatype GlossaryOutcome = NoFandom | Failed | Replaced

  class TranslationInput {
    var enableTranslation: bool
    var lastSelectedLang: string
    /** The parent's target language, set through `setTargetLang`. */
    var targetLang: string
    /** The parent's glossary, set through `setGlossary`. */
    var glossary: string
    var generating: bool

    function Switch(): LangSwitch
      reads this
    {
      LangSwitch(enableTranslation, lastSelectedLang, targetLang)
    }

    constructor(targetLang: string, glossary: string)
      ensures Switch() == Mounted(targetLang) && this.glossary == glossary && !generating
    {
      enableTranslation := targetLang != ORIGINAL_CODE;
      lastSelectedLang := DEFAULT_TARGET;
      this.targetLang := targetLang;
      this.glossary := glossary;
      generating := false;
    }

    /** `handleToggleTranslation` */
    method ToggleTranslation(enabled: bool)
      modifies this
      ensures Switch() == Switched(old(Switch()), enabled)
      ensures Consistent(Switch())
      ensures glossary == old(glossary) && generating == old(generating)
    {
      enableTranslation := enabled;
      if enabled {
        targetLang := if lastSelectedLang == ORIGINAL_CODE then DEFAULT_TARGET else lastSelectedLang;
      } else {
        lastSelectedLang := targetLang;
        targetLang := ORIGINAL_CODE;
      }
    }

    /** `handleAutoGlossary`, with `result` the service's answer, which is the
        trimmed reply or "" on any failure. Without a detected fandom nothing
        happens; an empty answer leaves the glossary as it was; any other
        replaces it. The busy flag is down again at the end. */
    method AutoGlossary(detectedFandom: Option<string>, result: string) returns (outcome: GlossaryOutcome)
      modifies this
      ensures detectedFandom.None? || detectedFandom.value == "" ==> outcome == NoFandom && glossary == old(glossary)
      ensures detectedFandom.Some? && detectedFandom.value != "" && result == "" ==>
        outcome == Failed && glossary == old(glossary)
      ensures detectedFandom.Some? && detectedFandom.value != "" && result != "" ==>
        outcome == Replaced && glossary == result
      ensures outcome == NoFandom ==> generating == old(generating)
      ensures outcome != NoFandom ==> !generating
      ensures Switch() == old(Switch())
    {
      if detectedFandom.None? || detectedFandom.value == "" {
        return NoFandom;
      }
      generating := true;
      if result != "" {
        glossary := result;
        outcome := Replaced;
      } else {
        outcome := Failed;
      }
      generating := false;
    }
  }
}
