/** The records the application stores and passes around: translation blocks,
    work metadata and projects, the reader's display modes, and the constant
    tables and default prompts (types.ts). */
module Types {
  import opened Wrappers

  /** The `type` a block carries. The interface in types.ts omits it, but every
      producer of blocks sets it and every consumer reads it. */
  datatype BlockType = Text | Header | Separator {
    function Name(): string {
      match this
      case Text => "text"
      case Header => "header"
      case Separator => "separator"
    }
  }

  /** A paragraph-sized unit of the work. `isFavorite` and `note` are optional:
      `None` is JavaScript's `undefined`. `kind` and `chapterIndex` are the two
      fields the interface leaves out. */
  datatype Block = Block(
    id: string,
    original: string,
    translated: string,
    isEdited: bool,
    isLoading: bool,
    isFavorite: Option<bool>,
    note: Option<string>,
    kind: BlockType,
    chapterIndex: int)
  {
    /** `!!b.isFavorite` */
    predicate Favorite() { isFavorite == Some(true) }
    /** `!!b.note` */
    predicate HasNote() { note.Some? && note.value != "" }
    /** `!!b.translated` */
    predicate IsTranslated() { translated != "" }
  }

  datatype Metadata = Metadata(
    title: string,
    author: string,
    fandom: string,
    tags: Option<seq<string>>,
    originalLanguage: string,
    targetLanguage: string,
    model: string,
    customPrompt: Option<string>,
    refinePromptTemplate: Option<string>,
    contextWindow: Option<int>,
    batchSize: Option<int>,
    includeTags: Option<bool>,
    tagInstruction: Option<string>,
    glossary: Option<string>,
    url: Option<string>,
    date: string)

  /** A saved translation. `bookmarkBlockId`, when present, names a block by id. */
  datatype Project = Project(
    id: string,
    metadata: Metadata,
    blocks: seq<Block>,
    lastModified: int,
    bookmarkBlockId: Option<string>)

  predicate HasBlockId(blocks: seq<Block>, id: string) {
    exists i | 0 <= i < |blocks| :: blocks[i].id == id
  }

  /** The bookmark, when set, refers to a block of the project. */
  predicate BookmarkResolves(p: Project) {
    p.bookmarkBlockId.None? || HasBlockId(p.blocks, p.bookmarkBlockId.value)
  }

  function Ids(blocks: seq<Block>): (r: seq<string>)
    ensures |r| == |blocks| && forall i | 0 <= i < |blocks| :: r[i] == blocks[i].id
  {
    seq(|blocks|, i requires 0 <= i < |blocks| => blocks[i].id)
  }

  /** Any rebuild of the block list that keeps the ids in place keeps a
      resolving bookmark resolving. */
  lemma BookmarkKeptByIds(p: Project, blocks': seq<Block>)
    requires BookmarkResolves(p)
    requires Ids(blocks') == Ids(p.blocks)
    ensures BookmarkResolves(p.(blocks := blocks'))
  {
    if p.bookmarkBlockId.Some? {
      var i :| 0 <= i < |p.blocks| && p.blocks[i].id == p.bookmarkBlockId.value;
      assert Ids(blocks')[i] == Ids(p.blocks)[i];
    }
  }

  datatype DisplayMode = SideBySide | Interlinear | TranslatedOnly {
    function Value(): (r: string)
      ensures |r| > 0
    {
      match this
      case SideBySide => "SIDE_BY_SIDE"
      case Interlinear => "INTERLINEAR"
      case TranslatedOnly => "TRANSLATED_ONLY"
    }
  }

  /** The three display modes carry three different values. */
  lemma DisplayModeValuesDistinct(m: DisplayMode, n: DisplayMode)
    ensures m.Value() == n.Value() <==> m == n
  {
    if m != n {
      assert m.Value()[0] != n.Value()[0] || |m.Value()| != |n.Value()|;
    }
  }

  datatype Language = Language(code: string, name: string)

  const SUPPORTED_LANGUAGES: seq<Language> := [
    Language("zh-CN", "Chinese (Simplified)"),
    Language("zh-TW", "Chinese (Traditional)"),
    Language("en", "English"),
    Language("ja", "Japanese"),
    Language("ko", "Korean"),
    Language("es", "Spanish"),
    Language("fr", "French"),
    Language("de", "German"),
    Language("ru", "Russian")
  ]

  /** The pseudo-language meaning "show the original, translate nothing". */
  const ORIGINAL_CODE: string := "original"

  /** Language codes are pairwise distinct and none of them is the pseudo-code. */
  lemma SupportedCodesDistinct()
    ensures forall i, j | 0 <= i < j < |SUPPORTED_LANGUAGES| :: SUPPORTED_LANGUAGES[i].code != SUPPORTED_LANGUAGES[j].code
    ensures forall i | 0 <= i < |SUPPORTED_LANGUAGES| :: SUPPORTED_LANGUAGES[i].code != ORIGINAL_CODE
  {
  }

  datatype ModelOption = ModelOption(id: string, name: string)

  const AVAILABLE_MODELS: seq<ModelOption> := [
    ModelOption("gemini-3-flash-preview", "Gemini 3 Flash (Recommended)"),
    ModelOption("gemini-3-pro-preview", "Gemini 3 Pro (Best Quality)"),
    ModelOption("gemini-2.0-flash-exp", "Gemini 2.0 Flash")
  ]

  const DEFAULT_PROMPT: string :=
    "You are a professional literary translator specializing in Fanfiction.\n"
    + "Maintain the character's voice, tone, and narrative style. \n"
    + "Use fandom-specific terminology correctly.\n"
    + "Optimize typography for reading comfort."

  /** The fixed text between the placeholders of the default refine template. */
  const REFINE_0: string := "You are a professional editor.\n" + "Task: specific improvement of a "
    + "translation segment.\n\nContext:\n" + "Fandom: "
  const REFINE_1: string := "\nTarget Language: "
  const REFINE_2: string := "\n\nSource:\n"
  const REFINE_3: string := "\n\nCurrent Draft:\n"
  const REFINE_4: string := "\n\nInstruction:\n"
  const REFINE_5: string := "\n\nRequirements:\n" + "1. Output ONLY the result.\n" + "2. Do not include \"Here is "
    + "the translation\".\n" + "3. If the instruction asks to " + "re-translate, ignore the " + "Current Draft."

  /** How a template names a value: `{{name}}`. */
  function Slot(name: string): (r: string)
    ensures |r| == |name| + 4 && r[0] == '{' && r[1] == '{'
    ensures r[..2] == "{{" && r[2..|r| - 2] == name && r[|r| - 2..] == "}}"
  {
    "{{" + name + "}}"
  }

  const DEFAULT_REFINE_PROMPT: string :=
    REFINE_0 + (Slot("fandom") + (REFINE_1 + (Slot("targetLang") + (REFINE_2 + (Slot("original")
    + (REFINE_3 + (Slot("translated") + (REFINE_4 + (Slot("instruction") + REFINE_5)))))))))
}
