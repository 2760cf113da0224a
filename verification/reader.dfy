/** The reader (components/TranslationReader.tsx): the table of contents built
    from heading-like blocks, the selection of the block being edited, refined
    or annotated, the refine request with its loading bracket, and the equality
    that decides whether a block is drawn again. */
module Reader {
  import opened Wrappers
  import opened JsString
  import opened JsArray
  import opened Types
  import opened Gemini
  import opened Refine

  // ---------------------------------------------------------------------------
  // Table of contents

  const CHAPTER_WORDS: seq<string> := ["chapter", "epilogue", "prologue"]

  /** White space, then (after the whole run of it) a digit: `\s+\d`. */
  predicate SpacesThenDigit(s: string) {
    |s| > 0 && IsSpace(s[0]) && |TrimStart(s)| > 0 && IsDigit(TrimStart(s)[0])
  }

  /** `/^(Chapter|Epilogue|Prologue)\s+\d+/i`, letters compared without case. */
  predicate ChapterLine(text: string) {
    exists w | w in CHAPTER_WORDS :: |w| < |text| && ToLower(text[..|w|]) == w && SpacesThenDigit(text[|w|..])
  }

  /** A short line in capitals: more than 3 and fewer than 40 characters, equal
      to its upper case, and not holding a `---` rule. */
  predicate CapsLine(text: string) {
    3 < |text| < 40 && text == ToUpper(text) && !Contains(text, "---")
  }

  /** The TOC test on the trimmed original. */
  predicate IsTocHeading(text: string) {
    StartsWith(text, "##") || ChapterLine(text) || CapsLine(text)
  }

  /** `b.original.replace(/^##\s*\/, '').trim()` */
  function TocTitle(original: string): string {
    Trim(if StartsWith(original, "##") then TrimStart(original[2..]) else original)
  }

  datatype TocItem = TocItem(id: string, title: string)

  /** What one block contributes to the table of contents. */
  function TocEntry(b: Block): seq<TocItem> {
    if IsTocHeading(Trim(b.original)) then [TocItem(b.id, TocTitle(b.original))] else []
  }

  function Toc(blocks: seq<Block>): seq<TocItem> {
    FlatMap(blocks, TocEntry)
  }

  /** The TOC effect: one `items.push` per heading-like block, in block order. */
  method BuildToc(blocks: seq<Block>) returns (items: seq<TocItem>)
    ensures items == Toc(blocks)
  {
    items := [];
    var i := 0;
    while i < |blocks|
      invariant 0 <= i <= |blocks|
      invariant items == Toc(blocks[..i])
    {
      var b := blocks[i];
      var text := Trim(b.original);
      if IsTocHeading(text) {
        items := items + [TocItem(b.id, TocTitle(b.original))];
      }
      assert blocks[..i + 1] == blocks[..i] + [b];
      FlatMapAppend(blocks[..i], [b], TocEntry);
      assert FlatMap([b], TocEntry) == TocEntry(b) + FlatMap([b][1..], TocEntry);
      i := i + 1;
    }
    assert blocks[..i] == blocks;
  }

  /** The TOC lists exactly the heading-like blocks, each under its own id, in
      block order. */
  lemma TocSpec(blocks: seq<Block>, item: TocItem)
    ensures item in Toc(blocks) <==>
      exists b | b in blocks :: IsTocHeading(Trim(b.original)) && item == TocItem(b.id, TocTitle(b.original))
    ensures forall a, c | a + c == blocks :: Toc(blocks) == Toc(a) + Toc(c)
  {
    FlatMapMembers(blocks, TocEntry, item);
    forall a, c | a + c == blocks ensures Toc(blocks) == Toc(a) + Toc(c) {
      FlatMapAppend(a, c, TocEntry);
    }
  }

  /** Trimming a line that starts with `##` keeps the hashes in front. */
  lemma TrimKeepsHashes(s: string)
    requires StartsWith(s, "##")
    ensures StartsWith(Trim(s), "##")
  {
    var i := TrimInfix(s);
    var t := Trim(s);
    assert forall k | 0 <= k < i :: s[..i][k] == s[k];
    assert i == 0;
    forall k | |t| <= k < |s| ensures IsSpace(s[k]) {
      assert s[|t|..][k - |t|] == s[k];
    }
    assert !IsSpace(s[1]);
    assert t[..2] == s[..2];
  }

  /** A separator's rule never enters the TOC. */
  lemma SeparatorNotInToc()
    ensures !IsTocHeading("---")
  {
    var t := "---";
    assert t[..2][0] == '-';
    assert !ChapterLine(t) by {
      forall w | w in CHAPTER_WORDS ensures |w| >= |t| { }
    }
    assert !CapsLine(t);
  }

  /** A Markdown heading always enters the TOC, titled by its text without the
      hashes and the spaces after them. */
  lemma HashHeadingInToc(x: string)
    ensures IsTocHeading(Trim("## " + x))
    ensures Trimmed(x) && x != "" ==> TocTitle("## " + x) == x
  {
    var s := "## " + x;
    assert s[..2] == "##";
    TrimKeepsHashes(s);
    if Trimmed(x) && x != "" {
      assert s[2..] == " " + x;
      assert TrimStart(" " + x) == TrimStart(x);
    }
  }

  /** "Chapter" and a number make a heading. */
  lemma ChapterHeading(n: string)
    requires |n| > 0 && IsDigit(n[0])
    ensures IsTocHeading("Chapter " + n)
  {
    var t := "Chapter " + n;
    var w := "chapter";
    assert t[..7] == "Chapter";
    assert ToLower("Chapter") == w by {
      forall i | 0 <= i < 7 ensures ToLower("Chapter")[i] == w[i] { }
    }
    assert t[7..] == " " + n;
    assert TrimStart(" " + n) == n;
    assert w in CHAPTER_WORDS;
  }

  // ---------------------------------------------------------------------------
  // Selection and refine

  /** `prev === id ? null : id` */
  function Toggle(prev: Option<string>, id: string): (r: Option<string>)
    ensures r == None <==> prev == Some(id)
    ensures r != None ==> r == Some(id)
  {
    if prev == Some(id) then None else Some(id)
  }

  /** Toggling the same id twice leaves it selected exactly when it was. */
  lemma ToggleTwice(prev: Option<string>, id: string)
    ensures Toggle(Toggle(prev, id), id) == (if prev == Some(id) then Some(id) else None)
  {
  }

  /** What the reader asks of the application, in order. */
  datatype ReaderEvent =
    | BlockUpdated(id: string, text: string)
    | NoteUpdated(id: string, note: string)
    | LoadingChanged(id: string, loading: bool)
    | RefineRequested(id: string, prompt: string)

  /** Whether block `id` is loading after `events`, starting from `initial`. */
  function LoadingAfter(events: seq<ReaderEvent>, id: string, initial: bool): bool {
    if |events| == 0 then initial
    else
      var e := events[|events| - 1];
      if e.LoadingChanged? && e.id == id then e.loading else LoadingAfter(events[..|events| - 1], id, initial)
  }

  /** `blocks.find(b => b.id === id)` */
  function FindBlock(blocks: seq<Block>, id: string): (r: Option<Block>)
    ensures r.None? <==> !HasBlockId(blocks, id)
    ensures r.Some? ==> exists i | 0 <= i < |blocks| :: blocks[i] == r.value && r.value.id == id
  {
    if |blocks| == 0 then None
    else if blocks[0].id == id then Some(blocks[0])
    else
      var r := FindBlock(blocks[1..], id);
      assert forall i | 1 <= i < |blocks| :: blocks[i] == blocks[1..][i - 1];
      assert HasBlockId(blocks[1..], id) ==> HasBlockId(blocks, id);
      r
  }

  const READER_REFINE_TEMPLATE: string :=
    "Refine this translation: {{original}} -> {{translated}} using instruction: {{instruction}}"

  /** `refinePromptTemplate || "Refine this translation: ..."` */
  function ReaderTemplate(custom: Option<string>): (r: string)
    ensures custom.Some? && custom.value != "" ==> r == custom.value
    ensures !(custom.Some? && custom.value != "") ==> r == READER_REFINE_TEMPLATE
  {
    if custom.Some? && custom.value != "" then custom.value else READER_REFINE_TEMPLATE
  }

  /** The events of one refine of block `id`: loading on, the request, the
      answer written back, loading off. */
  function RefineEvents(id: string, prompt: string, refined: string): seq<ReaderEvent> {
    [LoadingChanged(id, true), RefineRequested(id, prompt), BlockUpdated(id, refined), LoadingChanged(id, false)]
  }

  lemma LoadingAfterSnoc(e: seq<ReaderEvent>, x: ReaderEvent, id: string, initial: bool)
    ensures LoadingAfter(e + [x], id, initial)
         == if x.LoadingChanged? && x.id == id then x.loading else LoadingAfter(e, id, initial)
  {
    assert (e + [x])[..|e|] == e;
  }

  /** The answer is written while the block is loading; afterwards the block is
      not loading, whatever it was before, and no other block's loading changed. */
  lemma RefineBracket(before: seq<ReaderEvent>, id: string, prompt: string, refined: string,
                      other: string, initial: bool)
    requires other != id
    ensures LoadingAfter(before + RefineEvents(id, prompt, refined)[..3], id, initial)
    ensures !LoadingAfter(before + RefineEvents(id, prompt, refined), id, initial)
    ensures LoadingAfter(before + RefineEvents(id, prompt, refined), other, initial)
         == LoadingAfter(before, other, initial)
  {
    var r := RefineEvents(id, prompt, refined);
    assert before + r[..1] == before + [r[0]];
    assert before + r[..2] == (before + r[..1]) + [r[1]];
    assert before + r[..3] == (before + r[..2]) + [r[2]];
    assert before + r == (before + r[..3]) + [r[3]];
    forall k: nat | k < 4 ensures LoadingAfter(before + r[..k] + [r[k]], id, initial)
                               == if r[k].LoadingChanged? then r[k].loading else LoadingAfter(before + r[..k], id, initial)
    {
      LoadingAfterSnoc(before + r[..k], r[k], id, initial);
    }
    forall k: nat | k < 4 ensures LoadingAfter(before + r[..k] + [r[k]], other, initial)
                               == LoadingAfter(before + r[..k], other, initial)
    {
      LoadingAfterSnoc(before + r[..k], r[k], other, initial);
    }
    assert before + r[..0] == before;
  }

  /** The reader's selection state and the calls it has made. */
  class ReaderState {
    var editing: Option<string>
    var refining: Option<string>
    var noteEditing: Option<string>
    var events: seq<ReaderEvent>

    constructor()
      ensures editing == None && refining == None && noteEditing == None && events == []
    {
      editing := None;
      refining := None;
      noteEditing := None;
      events := [];
    }

    /** `handleStartEdit`: select for editing and drop any refine selection. */
    method StartEdit(id: string)
      modifies this
      ensures editing == Some(id) && refining == None
      ensures noteEditing == old(noteEditing) && events == old(events)
    {
      editing := Some(id);
      refining := None;
    }

    /** `handleCancelEdit` */
    method CancelEdit()
      modifies this
      ensures editing == None
      ensures refining == old(refining) && noteEditing == old(noteEditing) && events == old(events)
    {
      editing := None;
    }

    /** `handleSaveEdit`: hand the text to `onUpdateBlock`, then leave editing. */
    method SaveEdit(id: string, text: string)
      modifies this
      ensures events == old(events) + [BlockUpdated(id, text)] && editing == None
      ensures refining == old(refining) && noteEditing == old(noteEditing)
    {
      events := events + [BlockUpdated(id, text)];
      editing := None;
    }

    /** `handleToggleRefine` */
    method ToggleRefine(id: string)
      modifies this
      ensures refining == Toggle(old(refining), id)
      ensures editing == old(editing) && noteEditing == old(noteEditing) && events == old(events)
    {
      refining := if refining == Some(id) then None else Some(id);
    }

    /** `handleToggleNote` */
    method ToggleNote(id: string)
      modifies this
      ensures noteEditing == Toggle(old(noteEditing), id)
      ensures editing == old(editing) && refining == old(refining) && events == old(events)
    {
      noteEditing := if noteEditing == Some(id) then None else Some(id);
    }

    /** `handleUpdateNoteLocal`: hand the note to `onUpdateNote`, then close it. */
    method UpdateNoteLocal(id: string, note: string)
      modifies this
      ensures events == old(events) + [NoteUpdated(id, note)] && noteEditing == None
      ensures editing == old(editing) && refining == old(refining)
    {
      events := events + [NoteUpdated(id, note)];
      noteEditing := None;
    }

    /** `handleRefine`: nothing for an unknown block or a blank instruction;
        otherwise loading on, refine selection cleared, the refined text written
        back, loading off. `refineBlock` catches every failure itself, so the
        handler's own `catch` is never reached. */
    method Refine(blocks: seq<Block>, id: string, instruction: string, customTemplate: Option<string>,
                  targetLang: string, fandom: string, reply: Reply)
      modifies this
      ensures FindBlock(blocks, id).None? || Trim(instruction) == "" ==>
        events == old(events) && refining == old(refining)
      ensures FindBlock(blocks, id).Some? && Trim(instruction) != "" ==>
        var b := FindBlock(blocks, id).value;
        && events == old(events) + RefineEvents(id, Interpolate(ReaderTemplate(customTemplate), b.original,
                                                b.translated, targetLang, fandom, instruction),
                                                RefineResult(reply, b.translated))
        && refining == None
      ensures editing == old(editing) && noteEditing == old(noteEditing)
    {
      var found := FindBlock(blocks, id);
      if found.None? || Trim(instruction) == "" {
        return;
      }
      var block := found.value;
      var template := ReaderTemplate(customTemplate);
      var prompt := Interpolate(template, block.original, block.translated, targetLang, fandom, instruction);
      var refined := RefineResult(reply, block.translated);
      events := events + RefineEvents(id, prompt, refined);
      refining := None;
    }
  }

  // ---------------------------------------------------------------------------
  // Memo equality

  /** What a block item receives that can change between renders. */
  datatype ItemProps = ItemProps(
    block: Block,
    displayMode: DisplayMode,
    isBookmarked: bool,
    isEditing: bool,
    isRefining: bool,
    isEditingNote: bool)

  /** The `React.memo` test, as written: equal props mean no redraw. */
  predicate MemoEqual(prev: ItemProps, next: ItemProps) {
    && prev.block.id == next.block.id
    && prev.block.translated == next.block.translated
    && prev.block.note == next.block.note
    && prev.block.isFavorite == next.block.isFavorite
    && prev.block.isLoading == next.block.isLoading
    && prev.displayMode == next.displayMode
    && prev.isBookmarked == next.isBookmarked
    && prev.isEditing == next.isEditing
    && prev.isRefining == next.isRefining
    && prev.isEditingNote == next.isEditingNote
  }

  /** Everything the item draws from its props: it also shows the original and
      underlines an edited translation. */
  datatype View = View(
    id: string, original: string, translated: string, note: Option<string>, isFavorite: Option<bool>,
    isLoading: bool, isEdited: bool, displayMode: DisplayMode,
    isBookmarked: bool, isEditing: bool, isRefining: bool, isEditingNote: bool)

  function ViewOf(p: ItemProps): View {
    View(p.block.id, p.block.original, p.block.translated, p.block.note, p.block.isFavorite,
         p.block.isLoading, p.block.isEdited, p.displayMode,
         p.isBookmarked, p.isEditing, p.isRefining, p.isEditingNote)
  }

  /** As written, saving an unchanged translation marks the block edited, yet
      the memo test calls the props equal and the underline is not drawn. */
  lemma MemoMissesEditedMark(p: ItemProps)
    requires !p.block.isEdited
    ensures var q := p.(block := p.block.(isEdited := true, isLoading := p.block.isLoading));
      MemoEqual(p, q) && ViewOf(p) != ViewOf(q)
  {
  }

  /** The corrected test: the memo fields plus the original and the edited mark. */
  predicate MemoEqualFixed(prev: ItemProps, next: ItemProps) {
    MemoEqual(prev, next) && prev.block.original == next.block.original && prev.block.isEdited == next.block.isEdited
  }

  /** The corrected test skips a redraw exactly when nothing drawn changed, and
      it is an equivalence. */
  lemma MemoEqualFixedExact(p: ItemProps, q: ItemProps, r: ItemProps)
    ensures MemoEqualFixed(p, q) <==> ViewOf(p) == ViewOf(q)
    ensures MemoEqualFixed(p, p)
    ensures MemoEqualFixed(p, q) ==> MemoEqualFixed(q, p)
    ensures MemoEqualFixed(p, q) && MemoEqualFixed(q, r) ==> MemoEqualFixed(p, r)
  {
  }
}
