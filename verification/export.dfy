/** The text `exportTranslation` (services/utils.ts) puts in the downloaded file,
    in its three formats, and the file's name. */
module Export {
  import opened Wrappers
  import opened JsString
  import opened Types

  datatype ExportFormat = Markdown | Html | Txt {
    function Extension(): string {
      match this
      case Markdown => "markdown"
      case Html => "html"
      case Txt => "txt"
    }
  }

  /** `block.translated || block.original`: what the reader shows for a block. */
  function Shown(b: Block): (r: string)
    ensures b.translated != "" ==> r == b.translated
    ensures b.translated == "" ==> r == b.original
  {
    if b.translated != "" then b.translated else b.original
  }

  /** `clean`: `t.replace(/^[#\s]+/, '')` drops the leading run of `#` and white space. */
  function Clean(t: string): (r: string)
    ensures |r| <= |t|
    ensures r == [] || (r[0] != '#' && !IsSpace(r[0]))
  {
    if |t| > 0 && (t[0] == '#' || IsSpace(t[0])) then Clean(t[1..]) else t
  }

  /** What `Clean` removes is a prefix made of `#` and white space only. */
  lemma {:induction false} CleanRemovesPrefix(t: string)
    ensures EndsWith(t, Clean(t))
    ensures forall i | 0 <= i < |t| - |Clean(t)| :: t[i] == '#' || IsSpace(t[i])
    decreases |t|
  {
    var r := Clean(t);
    if |t| > 0 && (t[0] == '#' || IsSpace(t[0])) {
      CleanRemovesPrefix(t[1..]);
      assert t[1..][|t| - 1 - |r|..] == t[|t| - |r|..];
      assert forall i | 1 <= i < |t| - |r| :: t[i] == t[1..][i - 1];
    } else {
      assert t[|t| - |t|..] == t;
    }
  }

  /** Cleaning twice is cleaning once. */
  lemma CleanIdempotent(t: string)
    ensures Clean(Clean(t)) == Clean(t)
  {
  }

  /** The name of the download: the title (or "fanfic"), the target language and
      the format. */
  function ExportFilename(m: Metadata, f: ExportFormat): (r: string)
    ensures EndsWith(r, "." + f.Extension())
    ensures m.title != "" ==> StartsWith(r, m.title + "_" + m.targetLanguage)
    ensures m.title == "" ==> StartsWith(r, "fanfic_" + m.targetLanguage)
  {
    var r := (if m.title != "" then m.title else "fanfic") + "_" + m.targetLanguage + "." + f.Extension();
    assert r[|r| - |"." + f.Extension()|..] == "." + f.Extension();
    assert r[..|(if m.title != "" then m.title else "fanfic") + "_" + m.targetLanguage|] == (if m.title != "" then m.title else "fanfic") + "_" + m.targetLanguage;
    r
  }

  // ---------------------------------------------------------------------------
  // Markdown

  function MarkdownHead(m: Metadata): string {
    "# " + m.title + "\n**Author:** " + m.author + "\n**Source:** "
      + (if m.url.Some? && m.url.value != "" then m.url.value else "N/A") + "\n---\n\n"
  }

  /** One block in Markdown: a header as a level-2 heading, a separator as a
      rule, anything else as its text; each followed by a blank line. */
  function MarkdownBlock(b: Block): (r: string)
    ensures b.kind == Text ==> r == Shown(b) + "\n\n"
  {
    match b.kind
    case Header => "## " + Clean(Shown(b)) + "\n\n"
    case Separator => "---\n\n"
    case Text => Shown(b) + "\n\n"
  }

  /** The items in order, each rendered on its own by `render`: the text a
      `forEach` of `content +=` builds. */
  function Render<T>(bs: seq<T>, render: T -> string): string {
    if |bs| == 0 then "" else Render(bs[..|bs| - 1], render) + render(bs[|bs| - 1])
  }

  /** Rendering is piecewise: the export of a concatenation is the concatenation
      of the exports. */
  lemma {:induction false} RenderAppend<T>(a: seq<T>, b: seq<T>, render: T -> string)
    ensures Render(a + b, render) == Render(a, render) + Render(b, render)
    decreases |b|
  {
    if |b| == 0 {
      assert a + b == a;
    } else {
      var ab := a + b;
      var init := b[..|b| - 1];
      assert ab[..|ab| - 1] == a + init;
      assert ab[|ab| - 1] == b[|b| - 1];
      RenderAppend(a, init, render);
    }
  }

  /** Rendering one block more appends its rendering. */
  lemma RenderSnoc<T>(bs: seq<T>, i: nat, render: T -> string)
    requires i < |bs|
    ensures Render(bs[..i + 1], render) == Render(bs[..i], render) + render(bs[i])
  {
    assert bs[..i + 1][..i] == bs[..i];
  }

  /** No block is lost: each block's rendering appears in the whole. */
  lemma RenderKeepsBlock<T>(bs: seq<T>, i: nat, render: T -> string)
    requires i < |bs|
    ensures Contains(Render(bs, render), render(bs[i]))
  {
    assert bs == bs[..i + 1] + bs[i + 1..];
    RenderAppend(bs[..i + 1], bs[i + 1..], render);
    RenderSnoc(bs, i, render);
    ContainsMiddle(Render(bs[..i], render), render(bs[i]), Render(bs[i + 1..], render));
  }

  /** In particular the Markdown export keeps the shown text of every text block,
      followed by a blank line. */
  lemma MarkdownKeepsText(bs: seq<Block>, i: nat)
    requires i < |bs| && bs[i].kind == Text
    ensures Contains(Render(bs, MarkdownBlock), Shown(bs[i]) + "\n\n")
  {
    RenderKeepsBlock(bs, i, MarkdownBlock);
  }

  // ---------------------------------------------------------------------------
  // Plain text

  /** One block in plain text: a header bracketed on a line of its own, anything
      else (a separator too) as its cleaned text. */
  function TxtBlock(b: Block): (r: string)
    ensures b.kind != Header ==> r == Clean(Shown(b)) + "\n\n"
  {
    if b.kind == Header then "\n[ " + Clean(Shown(b)) + " ]\n\n" else Clean(Shown(b)) + "\n\n"
  }

  // ---------------------------------------------------------------------------
  // HTML

  /** `s.replace(/\n/g, '<br/>')` */
  function NewlinesToBr(s: string): (r: string)
    ensures '\n' !in r
    ensures '\n' !in s ==> r == s
  {
    if |s| == 0 then ""
    else (if s[0] == '\n' then "<br/>" else [s[0]]) + NewlinesToBr(s[1..])
  }

  /** One block in HTML as the source writes it: the paragraph of a text block
      holds `translated`, not the shown text. */
  function HtmlBlock(b: Block): string {
    match b.kind
    case Header => "<h2>" + Clean(Shown(b)) + "</h2>"
    case Separator => "<hr/>"
    case Text => "<p>" + NewlinesToBr(b.translated) + "</p>"
  }

  /** An untranslated text block leaves an empty paragraph, so the HTML export
      loses text that the Markdown export keeps. */
  lemma HtmlDropsUntranslated(b: Block)
    requires b.kind == Text && b.translated == "" && b.original != ""
    ensures HtmlBlock(b) == "<p></p>"
    ensures MarkdownBlock(b) == b.original + "\n\n"
  {
  }

  /** The paragraph written with the shown text, as the other two formats do. */
  function HtmlBlockShown(b: Block): (r: string)
    ensures b.kind == Text ==> r == "<p>" + NewlinesToBr(Shown(b)) + "</p>"
  {
    match b.kind
    case Header => "<h2>" + Clean(Shown(b)) + "</h2>"
    case Separator => "<hr/>"
    case Text => "<p>" + NewlinesToBr(Shown(b)) + "</p>"
  }

  /** With the shown text, a single-line text block keeps its text whether it is
      translated or not, and translated blocks render as before. */
  lemma HtmlBlockShownKeepsText(b: Block)
    requires b.kind == Text && '\n' !in Shown(b)
    ensures HtmlBlockShown(b) == "<p>" + Shown(b) + "</p>"
    ensures b.translated != "" ==> HtmlBlockShown(b) == HtmlBlock(b)
  {
  }

  function HtmlDocument(title: string, body: string): string {
    "<html><body><h1>" + title + "</h1>\n        " + body + "</body></html>"
  }

  // ---------------------------------------------------------------------------
  // The whole file

  /** What the file holds for each format, as one expression. */
  function ExportText(p: Project, f: ExportFormat): string {
    match f
    case Markdown => MarkdownHead(p.metadata) + Render(p.blocks, MarkdownBlock)
    case Html => HtmlDocument(p.metadata.title, Render(p.blocks, HtmlBlock))
    case Txt => p.metadata.title + "\n\n" + Render(p.blocks, TxtBlock)
  }

  /** The source's accumulation: `content +=` once per block for Markdown and
      plain text, the mapped and joined blocks for HTML. */
  method ExportContent(p: Project, f: ExportFormat) returns (content: string)
    ensures content == ExportText(p, f)
  {
    match f
    case Html => content := HtmlDocument(p.metadata.title, Render(p.blocks, HtmlBlock));
    case Markdown => content := AppendBlocks(MarkdownHead(p.metadata), p.blocks, Markdown);
    case Txt => content := AppendBlocks(p.metadata.title + "\n\n", p.blocks, Txt);
  }

  /** The `forEach` loop that appends one piece per block to `head`. */
  method AppendBlocks(head: string, blocks: seq<Block>, f: ExportFormat) returns (content: string)
    requires f != Html
    ensures content == head + Render(blocks, if f == Markdown then MarkdownBlock else TxtBlock)
  {
    ghost var render := if f == Markdown then MarkdownBlock else TxtBlock;
    content := head;
    var i := 0;
    while i < |blocks|
      invariant 0 <= i <= |blocks|
      invariant content == head + Render(blocks[..i], render)
    {
      RenderSnoc(blocks, i, render);
      var piece := BlockPiece(blocks[i], f);
      ConcatAssoc(head, Render(blocks[..i], render), piece);
      content := content + piece;
      i := i + 1;
    }
    assert blocks[..i] == blocks;
  }

  /** The body of the loop: one block's piece in the chosen format. */
  method BlockPiece(block: Block, f: ExportFormat) returns (piece: string)
    requires f != Html
    ensures f == Markdown ==> piece == MarkdownBlock(block)
    ensures f != Markdown ==> piece == TxtBlock(block)
  {
    var text := Shown(block);
    if f == Markdown {
      if block.kind == Header {
        piece := "## " + Clean(text) + "\n\n";
      } else if block.kind == Separator {
        piece := "---\n\n";
      } else {
        piece := text + "\n\n";
      }
    } else {
      text := Clean(text);
      if block.kind == Header {
        piece := "\n[ " + text + " ]\n\n";
      } else {
        piece := text + "\n\n";
      }
    }
  }
}
