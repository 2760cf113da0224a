/** The translation service (services/geminiService.ts) apart from the model
    client itself: how `translateBatch` assembles its prompt and which answers it
    accepts, and the fallbacks of `identifyFandom`. The client is an oracle: what
    it answered for one request is a parameter, and so is what `JSON.parse` made
    of the answer. */
module Gemini {
  import opened Wrappers
  import opened JsString

  /** What one request to the model client came back with: an exception, or a
      response whose `text` may be missing. */
  datatype Reply = Threw | Answered(text: Option<string>)

  /** What `JSON.parse` made of a non-empty answer. */
  datatype Parsed = ParsedArray(items: seq<string>) | ParsedOther | ParseError

  // ---------------------------------------------------------------------------
  // `JSON.stringify` of the input blocks

  function HexDigit(n: nat): char
    requires n < 16
  {
    "0123456789abcdef"[n]
  }

  /** The escape JSON uses for one character of a string. */
  function EscapeChar(c: char): (r: string)
    ensures |r| >= 1
    ensures forall i | 0 <= i < |r| :: r[i] >= ' ' && r[i] != '\n'
    ensures c >= ' ' && c != '"' && c != '\\' ==> r == [c]
  {
    if c == '"' then "\\\""
    else if c == '\\' then "\\\\"
    else if c == '\U{8}' then "\\b"
    else if c == '\t' then "\\t"
    else if c == '\n' then "\\n"
    else if c == '\U{C}' then "\\f"
    else if c == '\r' then "\\r"
    else if c < ' ' then "\\u00" + [HexDigit(c as nat / 16), HexDigit(c as nat % 16)]
    else [c]
  }

  function Escape(s: string): (r: string)
    ensures forall i | 0 <= i < |r| :: r[i] >= ' ' && r[i] != '\n'
  {
    if |s| == 0 then "" else EscapeChar(s[0]) + Escape(s[1..])
  }

  function Quote(s: string): (r: string)
    ensures forall i | 0 <= i < |r| :: r[i] >= ' ' && r[i] != '\n'
  {
    "\"" + Escape(s) + "\""
  }

  /** `JSON.stringify(blocks)` for an array of strings: the whole array lands on
      one line of the prompt, whatever line breaks the blocks hold. */
  function StringifyArray(xs: seq<string>): (r: string)
    ensures forall i | 0 <= i < |r| :: r[i] >= ' ' && r[i] != '\n'
  {
    "[" + QuotedList(xs) + "]"
  }

  function QuotedList(xs: seq<string>): (r: string)
    ensures forall i | 0 <= i < |r| :: r[i] >= ' ' && r[i] != '\n'
  {
    if |xs| == 0 then ""
    else if |xs| == 1 then Quote(xs[0])
    else Quote(xs[0]) + "," + QuotedList(xs[1..])
  }

  // ---------------------------------------------------------------------------
  // The prompt

  const DEFAULT_SYSTEM: string := "You are a professional literary " + "translator specializing in Fanfiction."

  /** `customPrompt || <default line>` */
  function SystemInstruction(customPrompt: string): (r: string)
    ensures customPrompt != "" ==> r == customPrompt
    ensures customPrompt == "" ==> r == DEFAULT_SYSTEM
  {
    if customPrompt != "" then customPrompt else DEFAULT_SYSTEM
  }

  function PromptHead(system: string, targetLang: string, fandom: string): string {
    "\n    " + system + "\n    \n    Target Language: " + targetLang + "\n    Fandom Context: " + fandom + "\n  "
  }

  const TAGS_LABEL: string := "\n    Work Tags/Keywords: "
  const TAG_INSTRUCTION_LABEL: string := "\n    Instruction for Tags: "

  predicate NonEmpty(x: Option<string>) { x.Some? && x.value != "" }

  /** The tag lines: present only for a non-empty tag list; the tag instruction
      only ever appears inside them. */
  function TagSection(tags: Option<seq<string>>, tagInstruction: Option<string>): (r: string)
    ensures r == "" <==> tags.None? || |tags.value| == 0
    ensures r != "" ==> StartsWith(r, TAGS_LABEL + Join(tags.value, ", "))
  {
    if tags.Some? && |tags.value| > 0 then
      var r := TAGS_LABEL + Join(tags.value, ", ") + (if NonEmpty(tagInstruction) then TAG_INSTRUCTION_LABEL + tagInstruction.value else "");
      assert r[..|TAGS_LABEL + Join(tags.value, ", ")|] == TAGS_LABEL + Join(tags.value, ", ");
      r
    else ""
  }

  const GLOSSARY_LABEL: string := "\n    Glossary / Style Guide:\n"

  /** The glossary lines: present only for a non-empty glossary, which is copied verbatim. */
  function GlossarySection(glossary: Option<string>): (r: string)
    ensures r == "" <==> !NonEmpty(glossary)
    ensures r != "" ==> r == GLOSSARY_LABEL + glossary.value
  {
    if NonEmpty(glossary) then GLOSSARY_LABEL + glossary.value else ""
  }

  const CONTEXT_LABEL: string :=
    "\n\n    CONTEXT FROM PREVIOUS SECTION " + "(For continuity only, " + "DO NOT TRANSLATE THIS):\n    \""

  /** The previous-context lines: present only for a non-empty context, which is quoted. */
  function ContextSection(previousContext: string): (r: string)
    ensures r == "" <==> previousContext == ""
    ensures r != "" ==> r == CONTEXT_LABEL + previousContext + "\""
  {
    if previousContext != "" then CONTEXT_LABEL + previousContext + "\"" else ""
  }

  const TASK_TEXT: string :=
    "\n    \n    Task: Translate the following " + "array of text blocks.\n    \n    Guidelines:\n"
    + "    1. Output MUST be a JSON array " + "of strings, with exactly corresponding "
    + "indices to the input.\n" + "    2. Ensure narrative flow connects "
    + "smoothly with the context provided.\n" + "    \n    Input Blocks:\n    "

  function PromptTail(blocks: seq<string>): string {
    TASK_TEXT + StringifyArray(blocks) + "\n  "
  }

  /** The prompt as the concatenation of its sections. */
  function Prompt(blocks: seq<string>, targetLang: string, fandom: string, customPrompt: string,
                  previousContext: string, tags: Option<seq<string>>, tagInstruction: Option<string>,
                  glossary: Option<string>): string
  {
    PromptHead(SystemInstruction(customPrompt), targetLang, fandom)
      + TagSection(tags, tagInstruction) + GlossarySection(glossary)
      + ContextSection(previousContext) + PromptTail(blocks)
  }

  /** The source's `let prompt` with its conditional `+=` steps. */
  method BuildPrompt(blocks: seq<string>, targetLang: string, fandom: string, customPrompt: string,
                     previousContext: string, tags: Option<seq<string>>, tagInstruction: Option<string>,
                     glossary: Option<string>) returns (prompt: string)
    ensures prompt == Prompt(blocks, targetLang, fandom, customPrompt, previousContext, tags, tagInstruction, glossary)
  {
    var systemInstruction := if customPrompt != "" then customPrompt else DEFAULT_SYSTEM;
    prompt := PromptHead(systemInstruction, targetLang, fandom);
    var afterHead := prompt;
    if tags.Some? && |tags.value| > 0 {
      prompt := prompt + (TAGS_LABEL + Join(tags.value, ", "));
      if tagInstruction.Some? && tagInstruction.value != "" {
        prompt := prompt + (TAG_INSTRUCTION_LABEL + tagInstruction.value);
      }
    }
    assert prompt == afterHead + TagSection(tags, tagInstruction);
    var afterTags := prompt;
    if glossary.Some? && glossary.value != "" {
      prompt := prompt + (GLOSSARY_LABEL + glossary.value);
    }
    assert prompt == afterTags + GlossarySection(glossary);
    var afterGlossary := prompt;
    if previousContext != "" {
      prompt := prompt + (CONTEXT_LABEL + previousContext + "\"");
    }
    assert prompt == afterGlossary + ContextSection(previousContext);
    prompt := prompt + PromptTail(blocks);
  }

  /** With no tags, no glossary and no context the prompt is the head and the
      task alone, with the default system line when no custom prompt is set. */
  lemma PromptMinimal(blocks: seq<string>, targetLang: string, fandom: string, tagInstruction: Option<string>)
    ensures Prompt(blocks, targetLang, fandom, "", "", None, tagInstruction, None)
         == PromptHead(DEFAULT_SYSTEM, targetLang, fandom) + PromptTail(blocks)
    ensures Prompt(blocks, targetLang, fandom, "", "", Some([]), tagInstruction, Some(""))
         == PromptHead(DEFAULT_SYSTEM, targetLang, fandom) + PromptTail(blocks)
  {
    var head, tail := PromptHead(DEFAULT_SYSTEM, targetLang, fandom), PromptTail(blocks);
    assert TagSection(None, tagInstruction) == "" && TagSection(Some([]), tagInstruction) == "";
    assert GlossarySection(None) == "" && GlossarySection(Some("")) == "";
    assert ContextSection("") == "";
    EmptySections(head, tail);
  }

  lemma EmptySections(head: string, tail: string)
    ensures head + "" + "" + "" + tail == head + tail
  {
  }

  /** A non-empty context is in the prompt, quoted, right after the label that
      tells the model not to translate it. */
  lemma PromptQuotesContext(blocks: seq<string>, targetLang: string, fandom: string, customPrompt: string,
                            previousContext: string, tags: Option<seq<string>>, tagInstruction: Option<string>,
                            glossary: Option<string>)
    requires previousContext != ""
    ensures Contains(Prompt(blocks, targetLang, fandom, customPrompt, previousContext, tags, tagInstruction, glossary),
                     CONTEXT_LABEL + previousContext + "\"")
  {
    var before := PromptHead(SystemInstruction(customPrompt), targetLang, fandom) + TagSection(tags, tagInstruction) + GlossarySection(glossary);
    var section := ContextSection(previousContext);
    var p := Prompt(blocks, targetLang, fandom, customPrompt, previousContext, tags, tagInstruction, glossary);
    assert p == before + section + PromptTail(blocks);
    assert p[|before|..|before| + |section|] == section;
    assert OccursAt(p, section, |before|);
  }

  // ---------------------------------------------------------------------------
  // Accepting the answer

  const LENGTH_MISMATCH: string := "Translation Error: " + "Length mismatch"

  /** What `translateBatch` resolves to, or `None` when it throws. */
  function AcceptBatch(blocks: seq<string>, reply: Reply, parse: string -> Parsed): (r: Option<seq<string>>)
    ensures r.Some? ==> |r.value| == |blocks|
    ensures reply.Threw? ==> r.None?
  {
    match reply
    case Threw => None
    case Answered(text) =>
      var jsonStr := Trim(text.GetOr(""));
      if jsonStr == "" then Some(blocks)
      else match parse(jsonStr)
        case ParseError => None
        case ParsedArray(items) =>
          if |items| == |blocks| then Some(items)
          else Some(seq(|blocks|, _ => LENGTH_MISMATCH))
        case ParsedOther => Some(seq(|blocks|, _ => LENGTH_MISMATCH))
  }

  /** An empty or blank answer gives back the input texts themselves. */
  lemma AcceptBatchBlankEchoes(blocks: seq<string>, text: Option<string>, parse: string -> Parsed)
    requires text.None? || AllSpace(text.value)
    ensures AcceptBatch(blocks, Answered(text), parse) == Some(blocks)
  {
    if text.Some? { TrimEmptyIff(text.value); }
  }

  /** A parsed array of the right length is taken as it is; anything else that
      parses makes every entry the length-mismatch error text. */
  lemma AcceptBatchParsed(blocks: seq<string>, text: string, parse: string -> Parsed)
    requires !AllSpace(text)
    ensures var p := parse(Trim(text));
      && (p.ParsedArray? && |p.items| == |blocks| ==> AcceptBatch(blocks, Answered(Some(text)), parse) == Some(p.items))
      && (p.ParsedOther? || (p.ParsedArray? && |p.items| != |blocks|) ==>
            AcceptBatch(blocks, Answered(Some(text)), parse).Some?
            && forall i | 0 <= i < |blocks| :: AcceptBatch(blocks, Answered(Some(text)), parse).value[i] == LENGTH_MISMATCH)
      && (p.ParseError? ==> AcceptBatch(blocks, Answered(Some(text)), parse).None?)
  {
    TrimEmptyIff(text);
  }

  /** `translateBatch` throws only when the client throws or the answer is not JSON. */
  lemma AcceptBatchThrowsOnly(blocks: seq<string>, reply: Reply, parse: string -> Parsed)
    ensures AcceptBatch(blocks, reply, parse).None? <==>
      reply.Threw? || (var t := Trim(reply.text.GetOr("")); t != "" && parse(t).ParseError?)
  {
  }

  // ---------------------------------------------------------------------------
  // `identifyFandom`

  const FANDOM_QUESTION: string :=
    "Analyze the following text sample " + "from a fanfiction. Identify the "
    + "\"Fandom\" (the original work, show, " + "book, or game it is based on). "
    + "Return ONLY the name of the fandom. " + "If unknown, return \"General\".\n\nText: \""

  /** The request: the question and at most the first 1000 characters of the sample. */
  function FandomPrompt(sample: string): (r: string)
    ensures var n := if |sample| < 1000 then |sample| else 1000;
      r == FANDOM_QUESTION + sample[..n] + "...\""
  {
    FANDOM_QUESTION + (if |sample| < 1000 then sample else sample[..1000]) + "...\""
  }

  const FANDOM_UNKNOWN: string := "Unknown"
  const FANDOM_GENERAL: string := "General"

  /** The answer trimmed; "Unknown" for a blank answer and "General" when the
      client throws. Never empty. */
  function IdentifyFandom(reply: Reply): (r: string)
    ensures r != "" && Trimmed(r)
    ensures reply.Threw? ==> r == FANDOM_GENERAL
    ensures reply.Answered? && AllSpace(reply.text.GetOr("")) ==> r == FANDOM_UNKNOWN
    ensures reply.Answered? && !AllSpace(reply.text.GetOr("")) ==> r == Trim(reply.text.value)
  {
    match reply
    case Threw => FANDOM_GENERAL
    case Answered(text) =>
      TrimEmptyIff(text.GetOr(""));
      var t := Trim(text.GetOr(""));
      if t != "" then t else FANDOM_UNKNOWN
  }
}
