# AO3 Fanfic Translator Pro, modelled in Dafny

AO3 Fanfic Translator Pro is a browser application, with a small helper
server, for translating fan fiction from Archive of Our Own. A work
arrives as a URL, an uploaded HTML or text file, or pasted text. It is cut
into translation blocks: paragraphs, headers and separators. The blocks are
numbered by chapter and sent to a Gemini model in batches. Each batch comes
with the few preceding source paragraphs as context, plus the fandom, tags
and glossary. The user can then read the work side by side or interlinear,
fix a block by hand, ask the model to refine it, bookmark it, mark favourite
paragraphs, write notes, export the work, and keep every project in a
library. That library is stored in the browser and can be backed up. When a
work is re-imported, the new parse is reconciled with the saved project by
matching normalised paragraph text, so that translations, favourites, notes
and header roles survive.

This project models the core of that application:
- block splitting and chapter numbering;
- defaulting of stored projects;
- similarity and merge on re-import;
- the batch translation scheduler and its prompt;
- the refine template;
- the export formats;
- the library, favourites, sidebar and reader views;
- the input form and settings dialog;
- the application's state handlers;
- the helper server's translation relay and backup naming.

Pure code is modelled as datatypes, functions and lemmas. Step-by-step
loops are modelled as methods with loop invariants, each proved against a
function. Components that update their own state are modelled as classes.

Modules (one per concern; `JsString`, `JsArray` and `Wrappers` model the
JavaScript built-ins the code relies on):

| file | module | source |
|---|---|---|
| types.dfy | Types | types.ts |
| chapter_index.dfy | ChapterIndex | services/utils.ts `recalculateChapterIndices` |
| sanitize.dfy | Sanitize | services/utils.ts `sanitizeProjectData` |
| percent.dfy | Percent | `Math.round(a / b * 100)`, used throughout |
| reconcile.dfy | Reconcile | services/utils.ts `calculateSimilarity`, `mergeProjectBlocks` |
| text_normal.dfy | TextNormal | services/utils.ts `normalizeForComparison`, `cleanText` |
| text_import.dfy | TextImport | services/utils.ts `splitTextIntoBlocks`, `fallbackParse`, URL rewrite |
| export.dfy | Export | services/utils.ts `exportTranslation` |
| gemini.dfy | Gemini | services/geminiService.ts batch prompt, answer check, fandom detection |
| refine.dfy | Refine | services/geminiService.ts `refineBlock` |
| scheduler.dfy, scheduler_facts.dfy | Scheduler, SchedulerFacts | App.tsx `handleStart` |
| app_handlers.dfy | AppHandlers | App.tsx state handlers |
| library.dfy | Library | components/HistoryPage.tsx |
| legacy_library.dfy | LegacyLibrary | HistoryPage.tsx (the older copy at the top level) |
| favorites.dfy | Favorites | components/FavoritesPage.tsx |
| reader.dfy | Reader | components/TranslationReader.tsx |
| sidebar.dfy | Sidebar | components/HistorySidebar.tsx |
| input_form.dfy | InputForm | components/TranslationInput.tsx |
| settings_modal.dfy | SettingsModal | components/ProjectSettingsModal.tsx |
| server.dfy | Server | server.js |

## Model

| member | source | states |
|---|---|---|
| Types.BookmarkKeptByIds | types.ts:32-38 | a rebuild of the block list that keeps the ids in place keeps a resolving `bookmarkBlockId` resolving |
| Types.DisplayMode.Value | types.ts:40-44 | every display mode has a non-empty string value |
| Types.DisplayModeValuesDistinct | types.ts:40-44 | two display modes have the same value exactly when they are the same mode |
| Types.SupportedCodesDistinct | types.ts:46-56 | the nine supported language codes are pairwise distinct and none is the pseudo-code 'original' |
| ChapterIndex.ChapterCount | services/utils.ts:36-45 | the count of headers at positions 1..k never exceeds k |
| ChapterIndex.RecalculateChapterIndices | services/utils.ts:36-45 | the running-counter loop computes exactly `Reindex(blocks)` |
| ChapterIndex.ReindexSteps | services/utils.ts:38-44 | re-indexing keeps the length and all fields except `chapterIndex`; block 0 is in chapter 0; each later block is in its predecessor's chapter, plus one exactly when it is a header |
| ChapterIndex.ChapterCountMonotone | services/utils.ts:40-42 | the header count grows with the position, by at most one per position |
| ChapterIndex.ReindexNonDecreasing | services/utils.ts:36-45 | chapter indices never decrease along the list and the index at position j is at most j |
| ChapterIndex.ChapterCountKinds | services/utils.ts:40 | the count depends only on the block kinds |
| ChapterIndex.ReindexIdempotent | services/utils.ts:32-35 | re-indexing a re-indexed list changes nothing |
| ChapterIndex.ReindexSameKinds | services/utils.ts:36-45 | two lists with the same kinds get the same chapter numbering |
| ChapterIndex.ChapterCountIsHeaderCount | services/utils.ts:39-42 | a block's chapter index is the number of headers after the title position and up to the block |
| Sanitize.OrEmpty | services/utils.ts:53-57 | `x \|\| ''` gives the string when present, "" when missing |
| Sanitize.SanitizeBlock | services/utils.ts:48-58 | each missing block field gets its default: type text, chapter 0, note "", not a favourite, empty texts; the id and flags are kept |
| Sanitize.SanitizeProject | services/utils.ts:47-71 | blocks are defaulted and renumbered, every block is complete and already numbered, tags and URL are present, and id, timestamp and bookmark are kept |
| Sanitize.Store | services/utils.ts:47-58 | storing a block keeps its id |
| Sanitize.StoreProject | services/utils.ts:47-71 | storing a project keeps its block count |
| Sanitize.SanitizeStoredComplete | services/utils.ts:48-58 | defaulting a block that has every field changes nothing |
| Sanitize.SanitizeIdempotent | services/utils.ts:47-71 | sanitising a sanitised project after a storage round trip gives it back unchanged |
| Sanitize.SanitizeKeepsBookmark | services/utils.ts:47-71 | a bookmark that named a stored block still resolves after the pass |
| Percent.RoundPercent | services/utils.ts:95 | the result is 100a/b rounded half up: `2b·r ≤ 200a + b < 2b·(r+1)` |
| Percent.RoundPercentBounds | services/utils.ts:95 | a share of a whole lies in [0,100], with 0 for nothing and 100 for everything |
| Percent.RoundPercentReachesHundredEarly | components/HistoryPage.tsx:194-196 | 399 of 400 rounds to 100 |
| Percent.RoundPercentHundredIffDone | components/HistoryPage.tsx:194-197 | below 200 items, 100 means done and done means 100 |
| Reconcile.TextBlocks | services/utils.ts:81-82 | the text-type filter keeps exactly the text blocks |
| Reconcile.PreservedCount | services/utils.ts:86-93 | the preserved count never exceeds the number of old blocks |
| Reconcile.Similarity | services/utils.ts:79-96 | the similarity percentage is at most 100 |
| Reconcile.CalculateSimilarity | services/utils.ts:79-96 | the counting loop computes exactly `Similarity` |
| Reconcile.PreservedSnoc | services/utils.ts:89-93 | one more old block adds one exactly when its key is among the new keys |
| Reconcile.PreservedAll | services/utils.ts:89-93 | when every old key is found, the count is the number of old blocks |
| Reconcile.PreservedNone | services/utils.ts:89-93 | when no old key is found, the count is 0 |
| Reconcile.SimilaritySelf | services/utils.ts:79-96 | a list with text blocks is 100% similar to itself |
| Reconcile.SimilarityAllFound | services/utils.ts:85-95 | when every old text block's key occurs among the new text blocks, in any order, the similarity is 100 |
| Reconcile.SimilarityZero | services/utils.ts:80-83 | with no old text blocks, or no new text blocks, the similarity is 0 |
| Reconcile.LastStatefulSpec | services/utils.ts:104-108 | the lookup table has an entry for a key exactly when some stateful old block has it, and the entry is the last such block |
| Reconcile.Merge | services/utils.ts:98-126 | one block per new block, in the new order, keeping the new block's id, original, chapter index and loading flag |
| Reconcile.MergeProjectBlocks | services/utils.ts:98-126 | the two loops (fill the table, then look every new block up) compute exactly `Merge` |
| Reconcile.MergeUnmatched | services/utils.ts:124 | a new block whose key matches no stateful old block passes through unchanged |
| Reconcile.MergeMatched | services/utils.ts:110-123 | a matched new block takes translation, edit flag, favourite, note and type from the last stateful old block with its key |
| Reconcile.MergeEmpty | services/utils.ts:98-126 | merging into an empty history returns the new blocks; merging with an empty parse returns nothing |
| Reconcile.MergeSelf | services/utils.ts:98-126 | merging a list with itself gives it back when no stateful block shares its key with another |
| Reconcile.MergeSelfLaterDuplicateWins | services/utils.ts:106 | without that proviso, the later of two stateful blocks with the same key lends its state to both |
| Reconcile.MergeSwapped | services/utils.ts:98-126 | a reordered parse gets each block's state from its own old block, and its similarity is 100 |
| TextNormal.NormalizeShape | services/utils.ts:75-77 | a fingerprint is trimmed, has only single spaces as white space, and has no upper-case ASCII letter |
| TextNormal.NormalizeIdempotent | services/utils.ts:75-77 | fingerprinting a fingerprint gives it back |
| TextNormal.NormalizeCaseInsensitive | services/utils.ts:76 | strings that differ only in ASCII letter case share a fingerprint |
| TextNormal.NormalizeIgnoresSpaceRuns | services/utils.ts:76 | collapsing white-space runs first does not change the fingerprint |
| TextNormal.TrimCollapse | services/utils.ts:130 | trimming and collapsing white-space runs commute, so the collapse-then-trim here equals the trim-then-collapse of `normalizeForComparison` at line 76 |
| TextNormal.CollapseIdempotent | services/utils.ts:130 | collapsing white-space runs twice is collapsing once |
| TextNormal.CleanText | services/utils.ts:128-131 | the cleaned text is trimmed and collapsed; it is "" exactly for a missing or all-white-space text |
| TextNormal.CleanTextIdempotent | services/utils.ts:128-131 | cleaning a cleaned text changes nothing |
| TextImport.ReplaceCrlf | services/utils.ts:10 | the CRLF rewrite never lengthens the text |
| TextImport.ReplaceCrlfOnlyDropsCr | services/utils.ts:10 | the rewrite removes carriage returns and nothing else, and leaves a text without them unchanged |
| TextImport.BlankMatch | services/utils.ts:11 | where `\n\s*\n` matches, it spans a line break, white space only, and a line break |
| TextImport.BlankMatchComplete | services/utils.ts:11 | the pattern matches wherever a blank line starts |
| TextImport.SplitFrom | services/utils.ts:11 | the split loop always yields at least one piece, one more than the separators it matches |
| TextImport.SplitFromRebuild | services/utils.ts:11 | the split loses nothing: its pieces with the matched separators put back between them rebuild the text, and every separator is a line break, white space and a line break |
| TextImport.SplitOnBlankLinesSpec | services/utils.ts:11 | no piece contains a blank line; the pieces with the matched blank-line separators between them rebuild the text; the text falls into more than one piece exactly when it contains one; otherwise it is a single piece |
| TextImport.LeadingHashes | services/utils.ts:18 | the greedy run of `#` at the start of a chunk |
| TextImport.IsMarkdownHeader | services/utils.ts:18 | `/^#+\s/` holds exactly when one or more `#` are followed by white space |
| TextImport.HashRunDecides | services/utils.ts:18 | the test is decided by the character after the whole run of `#` |
| TextImport.TrimKeepsNoBlank | services/utils.ts:14 | trimming a piece without a blank line leaves none |
| TextImport.Chunks | services/utils.ts:13-15 | every kept chunk is non-empty, trimmed and the trim of some piece |
| TextImport.TrimAll | services/utils.ts:13 | one trimmed piece per piece, in order |
| TextImport.ChunksFilter | services/utils.ts:13-14 | the chunks are exactly the trimmed pieces that are not empty, in the order of the pieces |
| TextImport.TextChunks | services/utils.ts:9-14 | a text's chunks are the non-empty trims of its pieces between blank lines, after the line-ending rewrite |
| TextImport.SplitTextIntoBlocks | services/utils.ts:8-30 | there is one block per chunk of the text, in order, and block k holds the k-th chunk as its original; block k has the k-th generated id and a non-empty trimmed original without a blank line; it is untranslated, unedited and not loading, in chapter 0, and is a header exactly when it passes the Markdown header test, never a separator |
| TextImport.SplitSingleParagraph | services/utils.ts:8-30 | a text without a blank line gives no block when it is all white space, and otherwise one block with the whole trimmed text |
| TextImport.LastIndexOfChar | services/utils.ts:305 | the position of the last occurrence of a character, or none when it does not occur |
| TextImport.StripExtension | services/utils.ts:305 | the result is a prefix of the name; the name is kept exactly when it has no final extension, and otherwise the final extension starts where the result ends |
| TextImport.StripExtensionTwice | services/utils.ts:305 | one extension goes per call: "a.tar.gz" becomes "a.tar" and then "a" |
| TextImport.FallbackParse | services/utils.ts:300-312 | the blocks are the renumbered plain-text split; the title is the file name without its final extension; author and fandom are "Unknown"; there are no tags and the URL is "" |
| TextImport.FallbackParseBlocks | services/utils.ts:301-302 | the plain-text parse keeps every field of the split except the chapter number |
| TextImport.AddFullWorkParam | services/utils.ts:320-323 | the URL is extended, never cut; a work URL gets `view_full_work=true` after `&` or `?`; anything else is unchanged |
| TextImport.AddFullWorkParamIdempotent | services/utils.ts:320-323 | rewriting a rewritten URL changes nothing |
| Export.Shown | services/utils.ts:377 | the translation when there is one, else the original |
| Export.Clean | services/utils.ts:372 | the result is no longer than the input and starts with neither `#` nor white space |
| Export.CleanRemovesPrefix | services/utils.ts:372 | what is removed is a prefix made only of `#` and white space |
| Export.CleanIdempotent | services/utils.ts:372 | cleaning twice is cleaning once |
| Export.ExportFilename | services/utils.ts:371 | the name is title (or "fanfic"), underscore, target language, then the format's extension |
| Export.MarkdownBlock | services/utils.ts:377-380 | a text block becomes its shown text followed by a blank line |
| Export.RenderAppend | services/utils.ts:376-381 | the export of a concatenation of blocks is the concatenation of their exports |
| Export.RenderSnoc | services/utils.ts:376-381 | one more block appends its piece |
| Export.RenderKeepsBlock | services/utils.ts:376-381 | every block's piece occurs in the export |
| Export.MarkdownKeepsText | services/utils.ts:376-381 | the Markdown export contains every text block's shown text, followed by a blank line |
| Export.TxtBlock | services/utils.ts:392-395 | a non-header block becomes its cleaned shown text followed by a blank line |
| Export.NewlinesToBr | services/utils.ts:388 | no line break is left, and a text without one is unchanged |
| Export.HtmlDropsUntranslated | services/utils.ts:388 | as written, an untranslated single-line text block becomes an empty paragraph in HTML, while the Markdown export keeps its original |
| Export.HtmlBlockShown | services/utils.ts:385-388 | the corrected paragraph holds the shown text, with line breaks as `<br/>` |
| Export.HtmlBlockShownKeepsText | services/utils.ts:385-388 | with the corrected paragraph, a single-line text block keeps its shown text, and a translated block renders as before |
| Export.ExportContent | services/utils.ts:369-397 | the per-format accumulation computes exactly the file text of `ExportText` |
| Export.AppendBlocks | services/utils.ts:376-396 | the `forEach` of `content +=` yields the head followed by every block's piece in order |
| Export.BlockPiece | services/utils.ts:377-395 | the loop body gives the Markdown piece or the plain-text piece, by format |
| Gemini.EscapeChar | services/geminiService.ts:100 | the JSON escape of one character is non-empty, printable, free of line breaks, and a plain character unchanged |
| Gemini.StringifyArray | services/geminiService.ts:100 | `JSON.stringify(blocks)` has no control character and no line break: the whole array sits on one line of the prompt |
| Gemini.SystemInstruction | services/geminiService.ts:66 | the custom prompt when set, otherwise the default translator line |
| Gemini.TagSection | services/geminiService.ts:76-81 | the tag lines are present exactly for a non-empty tag list and start with the joined tags; the tag instruction appears only inside them |
| Gemini.GlossarySection | services/geminiService.ts:83-85 | the glossary lines are present exactly for a non-empty glossary, which is copied verbatim after its label |
| Gemini.ContextSection | services/geminiService.ts:87-89 | the context lines are present exactly for a non-empty context, quoted after the do-not-translate label |
| Gemini.BuildPrompt | services/geminiService.ts:66-101 | the conditional `+=` steps compute exactly the prompt as head, tag, glossary and context sections, then the task |
| Gemini.PromptMinimal | services/geminiService.ts:66-101 | with no tags, glossary or context, the prompt is the head and the task alone, with the default system line |
| Gemini.PromptQuotesContext | services/geminiService.ts:87-89 | a non-empty context occurs in the prompt, quoted, right after its label |
| Gemini.AcceptBatch | services/geminiService.ts:116-127 | an accepted batch has exactly one entry per input block; a client exception gives no batch |
| Gemini.AcceptBatchBlankEchoes | services/geminiService.ts:116-117 | a missing or blank answer gives back the input texts themselves |
| Gemini.AcceptBatchParsed | services/geminiService.ts:119-123 | an array of the right length is taken as is; any other JSON makes every entry the length-mismatch text; unparsable text throws |
| Gemini.AcceptBatchThrowsOnly | services/geminiService.ts:116-127 | the batch fails exactly when the client throws or a non-blank answer is not JSON |
| Gemini.FandomPrompt | services/geminiService.ts:12 | the question followed by at most the first 1000 characters of the sample |
| Gemini.IdentifyFandom | services/geminiService.ts:8-19 | the trimmed answer, "Unknown" for a blank one, "General" when the client throws; never empty and always trimmed |
| Refine.OccursOnlyAtHoles | services/geminiService.ts:147-152 | in a well-formed template a placeholder occurs only where the template has it as a piece |
| Refine.OccursAtHole | services/geminiService.ts:147-152 | and it does occur at each such piece |
| Refine.FillFirst | services/geminiService.ts:147-152 | filling the first slot of a name keeps the number of pieces |
| Refine.FillFirstWellFormed | services/geminiService.ts:147-152 | filling with a brace-free value keeps the template well formed |
| Refine.ReplaceFirstPlain | services/geminiService.ts:148-152 | `replace(pattern, v)` for a `$`-free `v` replaces the first occurrence, or nothing when there is none |
| Refine.ReplaceFirstFlatten | services/geminiService.ts:148-152 | one `replace` on a well-formed template fills the first slot of that name |
| Refine.ReplaceStep | services/geminiService.ts:148-152 | one `replace` with a plain value fills the first slot and keeps the template well formed |
| Refine.ReplaceTwice | services/geminiService.ts:148-149 | two `replace` calls in a row fill two first slots in order |
| Refine.FillTemplate | services/geminiService.ts:147-152 | the intended interpolation fills one slot per placeholder and keeps the number of pieces |
| Refine.InterpolateRestFills | services/geminiService.ts:149-152 | the last four `replace` calls fill the first slot of their four names |
| Refine.InterpolateFills | services/geminiService.ts:147-152 | for well-formed templates and plain values, the chain of five `replace` calls gives exactly the filled template |
| Refine.FillFirstAt | services/geminiService.ts:147-152 | filling changes the first slot with the name into its value and nothing else |
| Refine.FillRestAt | services/geminiService.ts:149-152 | the last four fills put their values where the four slots sit |
| Refine.DefaultPiecesFlatten | types.ts:69-88 | the default refine template is the text of eleven pieces (six literal chunks and five slots) and is well formed |
| Refine.DefaultHolesDistinct | types.ts:69-88 | no placeholder name appears twice in the default template |
| Refine.DefaultFirstHoles | types.ts:69-88 | the slots sit in the order fandom, target language, original, translated, instruction |
| Refine.DefaultPlaceholdersOnce | types.ts:69-88 | the default template contains each of the five placeholders exactly once |
| Refine.DefaultTextSource | types.ts:76-77 | the Source section starts at a position fixed by the first two values, whatever the later values are |
| Refine.FillDefault | types.ts:69-88 | the filled default template reads fandom, language, source, draft and instruction in their sections, whatever the values hold |
| Refine.DefaultFilled | types.ts:69-88 | the filled default template, piece by piece |
| Refine.InterpolateDefault | services/geminiService.ts:147-152 | with the default template and plain values, the source's chain yields exactly the filled template |
| Refine.CapturedText | services/geminiService.ts:148-149 | when the source text is `{{translated}}`, the chain puts the draft in the Source section and leaves the placeholder in the Current Draft section |
| Refine.CapturedFirstStep | services/geminiService.ts:148 | the first `replace` turns the source slot into a second draft slot |
| Refine.CapturedFilled | services/geminiService.ts:149-152 | the later calls then fill that new slot and leave the real draft slot unfilled |
| Refine.InterpolateCapturedByOriginal | services/geminiService.ts:147-152 | as written, a source text reading `{{translated}}` captures the draft: the prompt differs from the filled template |
| Refine.ReplaceCollapsesDollars | services/geminiService.ts:149 | a `$$` in a replacement value comes out as one `$`: values are not inserted verbatim |
| Refine.StripOpenFence | services/geminiService.ts:166 | removing the opening fence leaves a suffix of the answer |
| Refine.StripCloseFence | services/geminiService.ts:166 | removing the closing fence leaves the answer or the answer minus a final newline-fence |
| Refine.StripFencedAnswer | services/geminiService.ts:166 | an answer fenced as ```` ```json ```` or ```` ``` ```` loses exactly its fence |
| Refine.RefineResult | services/geminiService.ts:164-178 | the result is the current translation when the client throws or when the trimmed answer is empty once its fences are stripped; it is empty only when the translation was empty; otherwise it is a piece of the trimmed answer |
| Refine.RefineFenced | services/geminiService.ts:164-173 | an answer fenced as ```` ```json ```` or ```` ``` ```` resolves to what the fence holds, or to the current translation when the fence is empty |
| Refine.RefinePlain | services/geminiService.ts:164-173 | an answer without fences or surrounding white space is taken as it is |
| Refine.RefineBlankAnswer | services/geminiService.ts:164-173 | a missing or all-white-space answer leaves the current translation |
| Scheduler.LastN | App.tsx:316 | the last n elements, all of them when there are fewer, none for a non-positive n |
| Scheduler.LastNSuffix | App.tsx:316 | what is kept is a suffix |
| Scheduler.PushLastN | App.tsx:315-316 | pushing then shifting once over the limit keeps exactly the last `contextWindow` originals seen |
| Scheduler.LastNIdempotent | App.tsx:316 | a buffer cut to the window is its own last `contextWindow` elements |
| Scheduler.Originals | App.tsx:345 | the originals of a range, in order, one per block |
| Scheduler.PendingInSound | App.tsx:324 | the pending positions lie in the window, are untranslated and ascend |
| Scheduler.PendingInComplete | App.tsx:324 | every untranslated block of the window is pending |
| Scheduler.PendingInFacts | App.tsx:324 | the pending positions are exactly the untranslated blocks of the window, ascending |
| Scheduler.Request | App.tsx:336 | one original per requested position, in order |
| Scheduler.Marked | App.tsx:331-347 | setting the loading flag of the listed blocks keeps the block count |
| Scheduler.Answer | App.tsx:342 | the q-th answer, or the empty string past the end of the array |
| Scheduler.Written | App.tsx:341-344 | writing answers keeps the block count |
| Scheduler.AppConfig | App.tsx:308-340 | the loop runs with batch `max(1, batchSize)`, the user's context window and stop flag, and `translateBatch` on the n-th reply |
| Scheduler.WindowEnd | App.tsx:323 | the window end never passes the last block and moves past its start |
| Scheduler.Window | App.tsx:321-358 | one window leaves the next start at its own start and keeps the block count |
| Scheduler.Send | App.tsx:331-352 | the request of a window keeps the block count |
| Scheduler.Loop | App.tsx:321-358 | the loop over windows keeps the block count |
| Scheduler.AppWindow | App.tsx:321-358 | the app's window step keeps the block count |
| Scheduler.Run | App.tsx:321-358 | the run from a window start on keeps the block count |
| Scheduler.RunStep | App.tsx:321-352 | a failed window ends the run where it is; any other window hands over to the window `batch` blocks further on |
| Scheduler.BatchSize | App.tsx:308 | the batch is at least one, and is the setting when that is positive |
| Scheduler.MarkLoading | App.tsx:331-347 | the in-place loop produces exactly `Marked` of the old blocks |
| Scheduler.WriteResults | App.tsx:341-344 | the in-place loop produces exactly `Written` of the old blocks |
| Scheduler.Prefill | App.tsx:310-318 | the context buffer after the prefill is exactly the last `contextWindow` originals of the translated blocks |
| Scheduler.PushWindow | App.tsx:327-345 | pushing a window's translated originals, or all of them, onto a cut buffer gives the last `contextWindow` of buffer plus pushed originals |
| Scheduler.HandleStart | App.tsx:307-358 | the whole run in place leaves the blocks, the context, the requests, the stop position and the failure flag exactly as `Run` from the prefilled context |
| Scheduler.RunWindow | App.tsx:321-358 | one iteration of the loop in place computes exactly `Window` |
| Scheduler.SendWindow | App.tsx:331-352 | mark, send, then clear or write and push, in place, compute exactly `Send` |
| Scheduler.MarkedAt | App.tsx:331 | marking sets the flag of the listed blocks and changes nothing else |
| Scheduler.WrittenAt | App.tsx:341-344 | writing sets each listed block's translation to its answer and clears its loading mark, and changes nothing else |
| Scheduler.MarkedWrittenOriginals | App.tsx:331-344 | marks and answers never change an original |
| Scheduler.MarkedTwice | App.tsx:331-347 | setting the marks and clearing them again is just clearing them |
| Scheduler.WrittenAfterMarked | App.tsx:331-344 | writing the answers overrides the loading marks set before |
| Scheduler.RequestSameOriginals | App.tsx:336 | the request depends only on the originals |
| SchedulerFacts.EvolvesTransitive | App.tsx:321-358 | "only translations and marks changed, translated blocks kept" composes |
| SchedulerFacts.ChangedWithinTransitive | App.tsx:321-358 | changes confined to a range compose |
| SchedulerFacts.MarkedWithin | App.tsx:347 | clearing the marks of pending positions changes nothing but marks |
| SchedulerFacts.WrittenWithin | App.tsx:341-344 | writing answers to pending positions only fills in untranslated blocks of the window |
| SchedulerFacts.WindowBlocks | App.tsx:321-352 | a window changes only its own untranslated blocks, only their translation and mark; a failed window changes no translation and leaves no block marked |
| SchedulerFacts.AllTranslatedOriginals | App.tsx:327 | when a window is all translated, pushing its translated originals pushes all of them |
| SchedulerFacts.NonePending | App.tsx:324-326 | nothing is pending exactly when every block of the window is translated |
| SchedulerFacts.WindowSkip | App.tsx:326-329 | a window with nothing to translate sends nothing, changes no block and moves the context on by its originals |
| SchedulerFacts.WindowContext | App.tsx:327-345 | after a window that did not fail, the context is the last `contextWindow` of the context before followed by all the window's originals |
| SchedulerFacts.WindowFacts | App.tsx:321-358 | the app's window satisfies the four window properties at every start |
| SchedulerFacts.AppWindowObeys | App.tsx:321-358 | the app's window step does what the loop lemmas assume |
| SchedulerFacts.LoopChanged | App.tsx:321-358 | the loop changes only blocks from its start on, only translations and marks, never a block translated before, and leaves no new loading mark |
| SchedulerFacts.LoopNextAtLeast | App.tsx:321 | the loop ends at or after where it starts |
| SchedulerFacts.LoopFrameAfter | App.tsx:321-358 | from where the loop ended on, no translation changed, and without a failure those blocks are untouched |
| SchedulerFacts.LoopNothingToDo | App.tsx:321-329 | over blocks that are all translated, the loop sends nothing and changes nothing |
| SchedulerFacts.WindowStartMultiple | App.tsx:321 | the window starts are exactly the positions a whole number of batches after the first |
| SchedulerFacts.LoopStops | App.tsx:322-351 | the loop ends at a window start; ending inside the blocks without failure means the stop flag was set there; a failure happens at a start the flag let through |
| SchedulerFacts.PendingInSame | App.tsx:324 | pending positions depend only on the window's own blocks |
| SchedulerFacts.LoopCallsPrefix | App.tsx:335 | requests are only ever appended |
| SchedulerFacts.SentForEarlier | App.tsx:323-336 | a later window reads blocks the earlier windows did not change |
| SchedulerFacts.LoopCallWindows | App.tsx:322-336 | each request was sent from a window start the stop flag let through, for exactly that window's untranslated blocks as they were at the start, with their originals |
| SchedulerFacts.LoopCallAnswers | App.tsx:335-351 | the n-th request got the n-th answer; only the last can have failed, and it did exactly when the loop ended on a failure |
| SchedulerFacts.LastNAppend | App.tsx:316 | cutting to the last n before appending more does not change the last n afterwards |
| SchedulerFacts.OriginalsAppend | App.tsx:345 | originals of adjacent ranges concatenate |
| SchedulerFacts.OriginalsEvolve | App.tsx:321-358 | the loop never changes an original |
| SchedulerFacts.LoopContext | App.tsx:327-345 | the context is always the last `contextWindow` of what was seen before the loop followed by every original the loop got past |
| SchedulerFacts.LoopCallContexts | App.tsx:339 | each request carries as context the last `contextWindow` of what was seen before the loop followed by the originals before its window |
| SchedulerFacts.FirstCallContext | App.tsx:339 | the request a window sends carries the context held before it |
| SchedulerFacts.LoopWrites | App.tsx:341-344 | every answered request left its p-th answer in the block at its p-th position, no longer loading and otherwise as before the loop |
| SchedulerFacts.LaterWritesKept | App.tsx:341-344 | answers written over evolved blocks read the same over the original blocks |
| SchedulerFacts.WindowWritesKept | App.tsx:341-358 | a window's answers survive the later windows |
| SchedulerFacts.LoopCovers | App.tsx:321-336 | every untranslated block the loop got past was sent in some request |
| SchedulerFacts.LoopCompletes | App.tsx:321-358 | with no stop and every request answered, the loop neither fails nor stops early |
| SchedulerFacts.RunFillsAll | App.tsx:307-358 | with no stop and every request answered, every untranslated block holds the answer to the request that sent it, and every translated block is unchanged |
| SchedulerFacts.AppAnswersFit | App.tsx:335-344 | every request is for at least one block and an accepted answer has one text per requested block, so no block receives a missing entry |
| SchedulerFacts.StartContexts | App.tsx:310-339 | as written, each request's context is the last `contextWindow` of the originals of all blocks translated before the start, wherever they are, followed by the originals before its window |
| SchedulerFacts.LeakExample | App.tsx:310-318 | a work of two blocks, the first untranslated and the second translated |
| SchedulerFacts.PrefillLeaksLaterText | App.tsx:310-318 | as written, with batches of one and a window of two, the request for the first block carries the second block's text as its preceding context |
| SchedulerFacts.FirstCall | App.tsx:321-339 | when the first block is untranslated and not stopped at, the first request is for the first window and carries the starting context |
| SchedulerFacts.FreshStart | App.tsx:310-339 | corrected: starting with an empty context, every request carries exactly the last `contextWindow` originals before its window |
| SchedulerFacts.FreshContexts | App.tsx:310-339 | corrected run: each request's context is the last `contextWindow` originals of the blocks before its window |
| Library.DoneCount | components/HistoryPage.tsx:68 | the number of translated blocks is at most the number of blocks, and equals it exactly when every block is translated |
| Library.CardPercent | components/HistoryPage.tsx:194-196 | the card's percentage is at most 100; it is 0 without blocks or without translated blocks, and 100 for a finished project |
| Library.CardBadgeAgreement | components/HistoryPage.tsx:194-197 | as written, every finished project shows the completed badge, and below 200 blocks only finished ones do; from 200 blocks on, a project one block short shows it too |
| Library.CardCompleteFixedAgrees | components/HistoryPage.tsx:67-72 | corrected: the badge shows exactly when the COMPLETED filter keeps the project and the IN_PROGRESS filter does not |
| Library.SearchEmpty | components/HistoryPage.tsx:58-61 | the empty query matches every project |
| Library.SearchIgnoresQueryCase | components/HistoryPage.tsx:58-61 | lower-casing the query first changes nothing |
| Library.StatusPartition | components/HistoryPage.tsx:67-72 | COMPLETED and IN_PROGRESS split the projects that pass the other filters: each lands in exactly one list |
| Library.FilteredHistorySpec | components/HistoryPage.tsx:55-76 | the list shown is newest first and a permutation of the filter: every passing project appears exactly as often as in the history, and no other project appears; on a history already newest first it is the plain filter |
| Library.FilterKeepsOrder | components/HistoryPage.tsx:56-75 | filtering a newest-first list keeps it newest first |
| Library.FandomOrUnknown | components/HistoryPage.tsx:49 | the fandom, or 'Unknown' when it is empty; never empty |
| Library.TrimmedCommaPieces | components/HistoryPage.tsx:50 | one trimmed piece per comma-separated piece |
| Library.FandomOptions | components/HistoryPage.tsx:46-53 | the options are strictly sorted, so each appears once, and are exactly the trimmed comma pieces of every project's defaulted fandom |
| Library.InFirstStep | components/HistoryPage.tsx:48-51 | after one more project, a string is a piece seen so far exactly when it was before or is a piece of that project |
| Library.AddPieces | components/HistoryPage.tsx:50 | adding the pieces to the set gives exactly the old members and the pieces |
| Library.OptionSelectsItsProject | components/HistoryPage.tsx:49-64 | an option always occurs in the defaulted fandom it came from, and selects its project when that fandom is non-empty |
| Library.TrimmedPieceOccurs | components/HistoryPage.tsx:50-64 | a trimmed comma piece occurs in the string |
| Library.UnknownOptionSelectsNothing | components/HistoryPage.tsx:49-64 | as written, a project without a fandom produces the 'Unknown' option, which does not select that project |
| Library.UnknownIsOnePiece | components/HistoryPage.tsx:50 | 'Unknown' splits and trims to itself |
| Library.OptionSelectsItsProjectFixed | components/HistoryPage.tsx:49-64 | corrected: every option selects every project it was built from, and the corrected filter agrees with the original one on projects that have a fandom |
| Library.DeleteDialog.constructor | components/HistoryPage.tsx:43 | the dialog starts with no pending deletion and nothing deleted |
| Library.DeleteDialog.RequestDelete | components/HistoryPage.tsx:78-82 | requesting only records the id; nothing is deleted yet |
| Library.DeleteDialog.ConfirmDelete | components/HistoryPage.tsx:84-89 | a non-empty pending id is deleted once and cleared; otherwise nothing happens |
| Library.DeleteDialog.Cancel | components/HistoryPage.tsx:300 | cancelling clears the pending id and deletes nothing |
| LegacyLibrary.LegacyFandomOptionsSpec | HistoryPage.tsx:40-43 | the older page's options are strictly sorted and are exactly the defaulted fandoms of the projects |
| LegacyLibrary.LegacyFilteredHistorySpec | HistoryPage.tsx:45-66 | the older page's list is newest first and a permutation of its filter: every passing project appears exactly as often as in the history, and no other project appears |
| LegacyLibrary.LegacyOptionSelection | HistoryPage.tsx:41-54 | every option selects some project, except an 'Unknown' that stands for projects without a fandom |
| LegacyLibrary.LegacyUnknownOptionSelectsNothing | HistoryPage.tsx:41-54 | as written, the older page has the same gap: the 'Unknown' option of a project without a fandom selects nothing |
| Favorites.ProjectFavorites | components/FavoritesPage.tsx:38-44 | one clipping per favourite block of the project |
| Favorites.ProjectFavoritesMembers | components/FavoritesPage.tsx:38-44 | an item is among a project's clippings exactly when it tags one of its favourite blocks with it |
| Favorites.AllFavoritesSpec | components/FavoritesPage.tsx:37-45 | the aggregation holds exactly the favourite blocks of the library, each tagged with its own project, in project order; a project contributes nothing exactly when it has no favourite |
| Favorites.FavoriteFandomOptions | components/FavoritesPage.tsx:48-55 | the options are strictly sorted and are exactly the trimmed comma pieces of each clipping's fandom, or of the unknown label |
| Favorites.FilteredFavoritesSpec | components/FavoritesPage.tsx:58-73 | the filter keeps exactly the passing clippings, in order and piecewise; an empty query with 'ALL' keeps them all |
| Favorites.ClippingNote | components/FavoritesPage.tsx:100 | the note line appears exactly for a clipping with a non-empty note |
| Favorites.ExportFavoritesMarkdown | components/FavoritesPage.tsx:94-102 | the `forEach` builds exactly the head followed by one section per clipping shown |
| Favorites.ClippingPiece | components/FavoritesPage.tsx:97-101 | the loop body appends exactly one clipping's section |
| Favorites.ExportKeepsClipping | components/FavoritesPage.tsx:96-102 | every clipping shown has its section in the file |
| Reader.BuildToc | components/TranslationReader.tsx:207-216 | the TOC effect's loop of `items.push` computes exactly `Toc` of the blocks |
| Reader.TocSpec | components/TranslationReader.tsx:209-212 | an item is in the TOC exactly when it is the id and cleaned title of a heading-like block; the TOC of a concatenation is the concatenation of the TOCs, so block order is kept |
| Reader.TrimKeepsHashes | components/TranslationReader.tsx:210-211 | trimming a line that starts with `##` keeps the hashes in front |
| Reader.SeparatorNotInToc | components/TranslationReader.tsx:211 | a `---` rule is not heading-like |
| Reader.HashHeadingInToc | components/TranslationReader.tsx:211-212 | a `## ` heading is always heading-like, titled by its text without the hashes and the spaces after them |
| Reader.ChapterHeading | components/TranslationReader.tsx:211 | "Chapter " followed by a digit is heading-like |
| Reader.Toggle | components/TranslationReader.tsx:252-253 | toggling clears the selection exactly when the id was selected, and otherwise selects the id |
| Reader.ToggleTwice | components/TranslationReader.tsx:252-253 | toggling the same id twice leaves it selected exactly when it was before |
| Reader.FindBlock | components/TranslationReader.tsx:257 | no block exactly when no block has the id; otherwise a block of the list with that id |
| Reader.ReaderTemplate | components/TranslationReader.tsx:262 | the project's template when non-empty, otherwise the reader's short default |
| Reader.LoadingAfterSnoc | components/TranslationReader.tsx:259-266 | one more loading event for a block decides its loading state; events for other blocks do not |
| Reader.RefineBracket | components/TranslationReader.tsx:259-266 | the answer is written while the block is loading; afterwards it is not loading, whatever it was before, and no other block's loading state changed |
| Reader.ReaderState.constructor | components/TranslationReader.tsx:198-200 | the reader starts with nothing being edited, refined or annotated and no events |
| Reader.ReaderState.StartEdit | components/TranslationReader.tsx:249 | starting an edit selects the block for editing and drops any refine selection |
| Reader.ReaderState.CancelEdit | components/TranslationReader.tsx:250 | cancelling leaves editing and changes nothing else |
| Reader.ReaderState.SaveEdit | components/TranslationReader.tsx:251 | saving hands the text to the block update and then leaves editing |
| Reader.ReaderState.ToggleRefine | components/TranslationReader.tsx:252 | the refine selection toggles and nothing else changes |
| Reader.ReaderState.ToggleNote | components/TranslationReader.tsx:253 | the note selection toggles and nothing else changes |
| Reader.ReaderState.UpdateNoteLocal | components/TranslationReader.tsx:254 | the note is handed on and the note editor closes |
| Reader.ReaderState.Refine | components/TranslationReader.tsx:256-267 | an unknown block or a blank instruction does nothing; otherwise loading goes on, the refine selection is cleared, the refined text is written back and loading goes off |
| Reader.MemoMissesEditedMark | components/TranslationReader.tsx:176-190 | as written, marking a block edited without changing its text changes what is drawn, yet the memo test calls the props equal and skips the redraw |
| Reader.MemoEqualFixedExact | components/TranslationReader.tsx:176-190 | corrected: the test skips a redraw exactly when nothing drawn changed, and it is an equivalence relation |
| Sidebar.FavoritesCountSpec | components/HistorySidebar.tsx:72-108 | the favourites count is at most the block count, equals the project's number of clippings, and is positive exactly when some block is a favourite |
| Sidebar.CardOfSpec | components/HistorySidebar.tsx:68-108 | the badge shows exactly when there is a favourite; every finished project shows the green bar; below 200 blocks the bar means finished; from 200 blocks on, one short still shows it |
| Sidebar.Cards | components/HistorySidebar.tsx:67 | one card per project |
| Sidebar.Render | components/HistorySidebar.tsx:25-72 | closed, the drawer draws nothing and leaves the history alone; open, it sorts the application's own history array newest first in place and draws one card per project in that order |
| Sidebar.RenderedOrder | components/HistorySidebar.tsx:67 | the sorted history is newest first, a permutation of the history, and unchanged when it was already newest first; card i is drawn from project i |
| InputForm.RangeValue | components/TranslationInput.tsx:221-228 | a range input reports the requested value clamped into its range |
| InputForm.BatchSizeSlider | components/TranslationInput.tsx:221 | the batch size lies between 1 and 20 and is the requested value when in range |
| InputForm.ContextWindowSlider | components/TranslationInput.tsx:228 | the context window lies between 0 and 10 and is the requested value when in range |
| InputForm.SlidersSettle | components/TranslationInput.tsx:221-228 | a slider value read back is unchanged, and a batch is never empty |
| InputForm.TargetLanguageOptionsAll | components/TranslationInput.tsx:184 | removing 'original' from the supported languages removes nothing: every language is offered, in order |
| InputForm.Mounted | components/TranslationInput.tsx:45-47 | the form mounts with the switch on exactly when the target is a real language, remembering 'zh-CN' |
| InputForm.SwitchKeepsConsistent | components/TranslationInput.tsx:50-58 | flipping the switch either way, and choosing an offered language, keep the switch on exactly when a real language is the target (the list offered at line 184 holds no 'original') |
| InputForm.SwitchRoundTrip | components/TranslationInput.tsx:50-58 | turning translation off and on restores the target language, or 'zh-CN' if there was none |
| InputForm.TranslationInput.constructor | components/TranslationInput.tsx:45-47 | the component mounts as `Mounted` with the parent's glossary and not busy |
| InputForm.TranslationInput.ToggleTranslation | components/TranslationInput.tsx:50-58 | the switch moves as `Switched` and stays consistent; glossary and busy flag are unchanged |
| InputForm.TranslationInput.AutoGlossary | components/TranslationInput.tsx:60-75 | without a detected fandom nothing happens; an empty answer keeps the glossary; any other answer replaces it; the busy flag is down at the end |
| SettingsModal.MergedGlossarySpec | components/ProjectSettingsModal.tsx:51-53 | the merge keeps the old glossary in front and the new text at the end, separated by a blank line; an empty answer changes nothing |
| SettingsModal.PlainTextPlaceholderAllowed | components/ProjectSettingsModal.tsx:44 | the placeholder 'Unknown' written by the plain-text importer passes the guard, while 'Unknown Fandom', "" and a missing fandom do not |
| SettingsModal.ProjectSettings.constructor | App.tsx:145-146 | the dialog holds the application's glossary, batch size and context window as given, even out of the sliders' ranges |
| SettingsModal.ProjectSettings.SliderPositions | components/ProjectSettingsModal.tsx:121-130 | the range inputs draw the held values clamped into 1..20 and 0..10, which are the held values themselves when these are in range |
| SettingsModal.ProjectSettings.SetBatchSize | components/ProjectSettingsModal.tsx:121 | the batch size becomes the slider value, within 1..20; the settings are all in range if the context window was; nothing else changes |
| SettingsModal.ProjectSettings.SetContextWindow | components/ProjectSettingsModal.tsx:130 | the context window becomes the slider value, within 0..10; the settings are all in range if the batch size was; nothing else changes |
| SettingsModal.ProjectSettings.AutoGlossary | components/ProjectSettingsModal.tsx:43-62 | a missing or placeholder fandom is refused; an empty answer keeps the glossary; any other answer is appended; the busy flag is down at the end |
| SettingsModal.MergedGlossaryTwice | components/ProjectSettingsModal.tsx:51-53 | two presses with non-empty answers keep both, in order |
| Server.TranslateString | server.js:27-53 | "" for a blank text; the joined pieces of a well-formed answer; the text itself on any failure |
| Server.TranslateStringFallsBack | server.js:28-52 | a text is never lost: the answer is the text, "" for a blank text, or what the service put together; every failure hands the text back |
| Server.Texts | server.js:85 | a single string becomes a one-element list; an array is taken as it is |
| Server.TranslateRoute | server.js:81-94 | a missing text or target gives the 400 "Missing data" and nothing else does; otherwise one translation per text, in order |
| Server.SanitizeFilename | server.js:102 | same length, only safe characters, each unsafe character replaced by `_` |
| Server.SanitizeFilenameSpec | server.js:102 | sanitising is idempotent, keeps a safe name, leaves no path separator, and lets `..` through |
| Server.BackupFilename | server.js:97-102 | no data gives the 400; otherwise a name made of safe characters, the sanitised given name when there is one |
| Server.DefaultBackupNameSafe | server.js:102 | the timestamped default name is already safe and is used for a missing or empty name |
| AppHandlers.MapBlock | App.tsx:205-207 | exactly the blocks with the id are transformed; the others and the length are kept |
| AppHandlers.ReplaceById | App.tsx:211 | exactly the projects with the id are replaced by the updated project; the others and the length are kept |
| AppHandlers.FindProject | App.tsx:516-530 | nothing exactly when no project has the id; otherwise a project of the history with that id |
| AppHandlers.Commit | App.tsx:210-211 | the updated project becomes the open one and the history keeps its length |
| AppHandlers.ToggleKind | App.tsx:206 | the kind always changes: it becomes a header exactly when it was not one |
| AppHandlers.ToggleKindTwice | App.tsx:206 | toggling twice restores the kind exactly when it was not a separator |
| AppHandlers.ToggleBlockType | App.tsx:203-212 | without an open project nothing happens; otherwise the blocks with the id switch kind, the list is renumbered, nothing else changes in the blocks, the timestamp moves, and the history copy is replaced |
| AppHandlers.ToggleTwice | App.tsx:203-212 | toggling the same block twice restores a renumbered project, apart from the timestamp, when no block with the id is a separator |
| AppHandlers.UpdateBlock | App.tsx:368-375 | without an open project nothing happens; otherwise exactly the blocks with the id take the new text, are marked edited and stop loading, and the history copy is replaced |
| AppHandlers.UpdateBlockTwice | App.tsx:368-375 | saving the same text twice is saving it once, and an edit never breaks a resolving bookmark |
| AppHandlers.BlockLoading | App.tsx:376-381 | only the open project changes, and only the loading flag of the blocks with the id; the history is untouched |
| AppHandlers.RefineThroughApp | App.tsx:368-381 | loading on, the refined text saved, loading off gives the same state as saving the text alone |
| AppHandlers.ShowOriginal | App.tsx:296-305 | every block's translation becomes its original and it stops loading; the project is opened, stamped and put first in the history with its older copies removed |
| AppHandlers.ShowOriginalSpec | App.tsx:296-305 | the project heads the history and no other entry has its id; every other project stays; a project whose originals are all non-empty is complete at 100%; the bookmark still resolves |
| AppHandlers.SetBookmark | App.tsx:396-403 | without an open project nothing happens; otherwise the bookmark is set and the timestamp moves, and the history copy is replaced |
| AppHandlers.SetBookmarkResolves | App.tsx:396-403 | bookmarking a block of the open project leaves a bookmark that resolves |
| AppHandlers.UpdateInLibrary | App.tsx:383-393 | exactly the projects with the id are transformed; the open project follows when it has that id |
| AppHandlers.Flip | App.tsx:384 | the favourite mark is negated and set |
| AppHandlers.ToggleFavoriteFlips | App.tsx:382-388 | toggling flips exactly the blocks with that id in the projects with that id, and toggling twice restores every mark |
| AppHandlers.UpdateNoteOpen | App.tsx:389-395 | a note written on the open project shows in the open project, which is stamped, with the note on every block with that id |
| AppHandlers.DeleteHistoryItem | App.tsx:404 | the history keeps exactly the projects without the id, and the open project is closed when it had that id |
| AppHandlers.Without | App.tsx:404 | the filter keeps exactly the projects without the id (the same filter removes older copies at line 301) |
| AppHandlers.WithoutAbsent | App.tsx:404 | removing an id that no project has changes nothing |
| AppHandlers.NewItems | App.tsx:433-434 | no new item has an id already in the library |
| AppHandlers.ImportHistory | App.tsx:431-438 | an empty import is refused; otherwise the open project is kept and new items go in front of the unchanged library |
| AppHandlers.NewItemsExact | App.tsx:433-434 | an imported project goes in, sanitised, exactly when its id is new |
| AppHandlers.NewItemsIds | App.tsx:434 | every new item is the sanitised form of an imported project |
| AppHandlers.ImportTwice | App.tsx:431-438 | importing the same file twice is importing it once |
| AppHandlers.NoNewItems | App.tsx:433-434 | importing only known ids adds nothing |
| AppHandlers.UpdateGate | App.tsx:516-525 | no decision without a saved project; otherwise the update applies at once exactly when the similarity is at least 20, and asks first below that |
| AppHandlers.UpdateGateExtremes | App.tsx:518-525 | re-uploading the same text applies at once; uploading over a project with no text blocks always asks, at similarity 0 |
| AppHandlers.UpdateMetadata | App.tsx:537-545 | every field except title, author, fandom, tags and URL is kept; each of those takes the parsed value when present and keeps the old one otherwise; the fandom also keeps the old one for a placeholder |
| AppHandlers.ProcessProjectUpdate | App.tsx:529-553 | as written: no saved project changes nothing; otherwise the merged blocks and updated metadata replace the saved project, and the open project follows |
| AppHandlers.RenumberedUpdate | App.tsx:533-547 | corrected: merged blocks renumbered, both parser placeholders treated as no fandom, id, timestamp and bookmark as in the update |
| AppHandlers.ProcessProjectUpdateFixed | App.tsx:529-553 | corrected update: the renumbered project replaces the saved one, and the open project follows |
| AppHandlers.PlainTextUpdateFandom | App.tsx:541 | as written, a plain-text upload replaces the saved fandom by the plain-text parser's "Unknown" |
| AppHandlers.PlainTextUpdateFandomFixed | App.tsx:541 | corrected: the saved fandom survives a plain-text upload |
| AppHandlers.UpdateSkipsRenumbering | App.tsx:533 | as written, a merge that hands the header role to a second block leaves its chapter number at 0, so the blocks are not numbered as `recalculateChapterIndices` would number them |
| AppHandlers.ProgressOf | App.tsx:357 | progress counts the translated blocks out of all blocks |
| AppHandlers.PercentCompleteAgrees | App.tsx:585 | the reader's percentage equals the library card's percentage: at most 100, 0 with nothing done, 100 when finished, and below 200 blocks 100 only when finished |
| JsArray.SortDescending | components/HistorySidebar.tsx:67 | `sort((a, b) => b.lastModified - a.lastModified)` gives a descending permutation of the same length |
| JsArray.SortInPlace | components/HistorySidebar.tsx:67 | the in-place sort leaves the array holding exactly `SortDescending` of its old contents |
| JsString.Split | components/HistoryPage.tsx:50 | `split(',')` gives at least one piece, no piece holds a comma, and joining the pieces with commas gives back the string |
| JsString.SortStrings | components/HistoryPage.tsx:52 | `Array.from(fs).sort()` lists every member of the set once, in strictly increasing order |
| JsString.TrimEmptyIff | services/utils.ts:14-15 | a string trims to nothing exactly when it is all white space |

## Left out

- Case mapping: `toLowerCase`/`toUpperCase` are modelled on ASCII letters only; other characters are left as they are.
- Strings are sequences of Dafny characters, not UTF-16 code units, so lengths and slices of text outside the Basic Multilingual Plane differ from JavaScript's.
- RoundPercent: `Math.round((done / total) * 100)` is modelled by exact rational rounding (halves up); floating-point error in the division is not modelled.
- Server.TranslateRoute: only string and string-array `text` fields are modelled; other JSON values, Express itself, the CORS and proxy set-up, the file system write, `exec` and the 50 ms pause between requests are not part of this model.
- HTML parsing (`DOMParser`), `FileReader`, `fetch`, the CORS proxies with their Cloudflare check, and Blob downloads are outside the model: a parsed page enters as a `ParsedWork` value and a download as the file text.
- `generateId` (`Math.random`) is an id supplier parameter, and `Date.now()` a `now` parameter of every handler that stamps a project.
- `localStorage` persistence and the periodic auto-backup are not modelled; the history is the application's in-memory list.
- Rendering is not modelled beyond what each view computes: themes, icons, the closed settings dialog, the table-of-contents fallback text and the scroll observer that moves the active chapter.
- The network calls to Gemini and Google Translate are parameters: the reply to each request is supplied by the caller, so retries do not arise; the code has no retry or back-off, whatever its documentation suggests.
- The Gemini glossary request (`generateFandomGlossary`) is represented by its result string; only the prompt and the way the two components use the answer are modelled.
- The stop button is an oracle `stop: nat -> bool` read before each window; the React state updates made inside the loop of `handleStart` (App.tsx:302, 319, 332, 348, 354-357) are folded into the final state, and the project creation and fandom detection before it (App.tsx:256-293) are left out.
- Reconcile.Merge is generic over the key it matches blocks by; the application instantiates it with `Fingerprint`. Merging a list with itself gives it back only when its keys are unique.
- Gemini.AcceptBatch: the parsed reply is taken to be an array of strings; `translateBatch` (services/geminiService.ts:119-121) accepts any JSON array of the right length, and App.tsx:342 then writes non-string elements such as numbers or objects into `translated`, which the model does not represent.
- Scheduler.HandleStart: `[...projectToUse.blocks]` (App.tsx:309) is a shallow copy, so the writes at App.tsx:331 and 341-343 change block objects shared with the saved project and the history before any state update; the model works on values and does not capture that aliasing.
- Gemini.AcceptBatch: when the reply has a different number of entries from the batch, the source logs an error and writes error strings into the blocks; the model returns that outcome as a value.
- Refine: the reply's quote-stripping branch never changes a trimmed reply that was already stripped of fences, so it is not modelled separately.
- The unreachable alert in `handleRefine` (components/TranslationReader.tsx:265) is not modelled.
- Restoring the settings part of an imported backup (App.tsx:418-429) is not modelled; only the project list is.
- googleTranslateService.ts is not part of this model; only the server side of that path is.
- The favourites page's label for a missing fandom (`t.unknownFandom`, components/FavoritesPage.tsx:51) is the translation-table entry and enters as the `unknownLabel` parameter; its filter at line 69 has the same gap as the library's, which is stated only for the library.

## Findings

| source | as written | input that shows it | evidently intended | confidence | as-written member | corrected member |
|---|---|---|---|---|---|---|
| App.tsx:310-318 | the context buffer is prefilled with every translated block's original, wherever it stands in the work | two blocks, the first untranslated and the second translated, window 2: the first request carries the second block's text as preceding context | a request's context is only text that comes before its window | not executed | SchedulerFacts.PrefillLeaksLaterText | SchedulerFacts.FreshContexts |
| services/geminiService.ts:147-152 | the template slots are replaced one after the other, each in the output of the previous | a source text that reads `{{translated}}` | each slot takes its own value, whatever the values hold | not executed | Refine.InterpolateCapturedByOriginal | Refine.FillDefault |
| components/HistoryPage.tsx:196-197 | the completed badge is shown when the rounded percentage reads 100 | 200 blocks with 199 translated | the badge agrees with the COMPLETED filter | not executed | Library.CardBadgeAgreement | Library.CardCompleteFixedAgrees |
| App.tsx:533 | the merged blocks are saved without renumbering chapters | a merge in which a new header takes over from a removed one | chapters numbered as `recalculateChapterIndices` numbers them | not executed | AppHandlers.UpdateSkipsRenumbering | AppHandlers.ProcessProjectUpdateFixed |
| App.tsx:541 | only 'Unknown Fandom' is treated as no fandom | updating a saved project from a plain-text file, whose parser writes 'Unknown' | the saved fandom survives an upload that found none | not executed | AppHandlers.PlainTextUpdateFandom | AppHandlers.PlainTextUpdateFandomFixed |
| components/HistoryPage.tsx:49-64 | the options default an empty fandom to 'Unknown' but the filter tests the raw fandom | a project with an empty fandom and the 'Unknown' option selected | every offered option selects the projects it came from | not executed | Library.UnknownOptionSelectsNothing | Library.OptionSelectsItsProjectFixed |
| components/TranslationReader.tsx:177-190 | the memo comparison ignores `isEdited` | saving a translation unchanged, which marks the block edited | the edited underline appears once the block is edited | not executed | Reader.MemoMissesEditedMark | Reader.MemoEqualFixedExact |
| services/utils.ts:388 | the HTML paragraph holds `translated`, not the shown text | an untranslated text block | the paragraph shows the original when there is no translation, as the other formats do | not executed | Export.HtmlDropsUntranslated | Export.HtmlBlockShownKeepsText |
