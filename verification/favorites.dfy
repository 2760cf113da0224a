/** The favourites page (components/FavoritesPage.tsx): every block marked as a
    favourite across the library, tagged with its project, the fandom drop-down,
    the search and fandom filter, and the Markdown clippings file. */
module Favorites {
  import opened JsString
  import opened JsArray
  import opened Types
  import opened Library
  import opened Export

  /** One clipping: the block and the project it comes from. */
  datatype FavoriteItem = FavoriteItem(block: Block, projectMeta: Metadata, projectId: string)

  /** The favourite blocks of one project, in block order, tagged with it. */
  function ProjectFavorites(p: Project): (r: seq<FavoriteItem>)
    ensures |r| == |Filter(p.blocks, (b: Block) => b.Favorite())|
  {
    var favs := Filter(p.blocks, (b: Block) => b.Favorite());
    seq(|favs|, i requires 0 <= i < |favs| => FavoriteItem(favs[i], p.metadata, p.id))
  }

  /** `allFavorites`: `history.flatMap(...)`. */
  function AllFavorites(history: seq<Project>): seq<FavoriteItem>
  {
    FlatMap(history, ProjectFavorites)
  }

  /** An item tags a favourite block of `p` with `p`. */
  predicate FavoriteOf(it: FavoriteItem, p: Project) {
    it.block in p.blocks && it.block.Favorite() && it.projectMeta == p.metadata && it.projectId == p.id
  }

  lemma ProjectFavoritesMembers(p: Project, it: FavoriteItem)
    ensures it in ProjectFavorites(p) <==> FavoriteOf(it, p)
  {
    var keep := (b: Block) => b.Favorite();
    var favs := Filter(p.blocks, keep);
    FilterSpec(p.blocks, keep);
    if FavoriteOf(it, p) {
      var i :| 0 <= i < |favs| && favs[i] == it.block;
      assert ProjectFavorites(p)[i] == it;
    }
  }

  /** The aggregation holds exactly the favourite blocks of the library, each
      tagged with its own project, in project order and then block order. */
  lemma AllFavoritesSpec(history: seq<Project>, it: FavoriteItem)
    ensures it in AllFavorites(history) <==> exists p | p in history :: FavoriteOf(it, p)
    ensures forall a, b | a + b == history :: AllFavorites(history) == AllFavorites(a) + AllFavorites(b)
    ensures forall p | p in history :: ProjectFavorites(p) == [] <==> !exists b | b in p.blocks :: b.Favorite()
  {
    FlatMapMembers(history, ProjectFavorites, it);
    forall p | p in history ensures it in ProjectFavorites(p) <==> FavoriteOf(it, p) {
      ProjectFavoritesMembers(p, it);
    }
    forall a, b | a + b == history ensures AllFavorites(history) == AllFavorites(a) + AllFavorites(b) {
      FlatMapAppend(a, b, ProjectFavorites);
    }
    forall p | p in history ensures ProjectFavorites(p) == [] <==> !exists b | b in p.blocks :: b.Favorite() {
      FilterSpec(p.blocks, (b: Block) => b.Favorite());
    }
  }

  // ---------------------------------------------------------------------------
  // Fandom options

  /** `item.projectMeta.fandom || t.unknownFandom` */
  function ItemFandom(it: FavoriteItem, unknownLabel: string): string {
    if it.projectMeta.fandom == "" then unknownLabel else it.projectMeta.fandom
  }

  predicate IsFavoriteOption(items: seq<FavoriteItem>, unknownLabel: string, x: string) {
    exists i | 0 <= i < |items| :: x in TrimmedCommaPieces(ItemFandom(items[i], unknownLabel))
  }

  /** `fandoms`: the distinct trimmed comma-separated pieces of each clipping's
      fandom (the localised 'unknown' label when it has none), sorted. */
  method FavoriteFandomOptions(items: seq<FavoriteItem>, unknownLabel: string) returns (r: seq<string>)
    ensures StrictlySorted(r)
    ensures forall x :: x in r <==> IsFavoriteOption(items, unknownLabel, x)
  {
    var fs: set<string> := {};
    var i := 0;
    while i < |items|
      invariant 0 <= i <= |items|
      invariant forall x :: x in fs <==> exists j | 0 <= j < i :: x in TrimmedCommaPieces(ItemFandom(items[j], unknownLabel))
    {
      fs := AddPieces(fs, TrimmedCommaPieces(ItemFandom(items[i], unknownLabel)));
      i := i + 1;
    }
    r := SortStrings(fs);
  }

  // ---------------------------------------------------------------------------
  // Filter

  function HasNoteLower(b: Block, q: string): bool {
    b.HasNote() && Contains(ToLower(b.note.value), q)
  }

  /** The lowercased project title, original, translation or note contains the
      lowercased query. */
  predicate MatchesFavoriteSearch(term: string, it: FavoriteItem) {
    var q := ToLower(term);
    Contains(ToLower(it.projectMeta.title), q)
      || Contains(ToLower(it.block.original), q)
      || Contains(ToLower(it.block.translated), q)
      || HasNoteLower(it.block, q)
  }

  predicate FavoritePasses(term: string, selected: string, it: FavoriteItem) {
    MatchesFavoriteSearch(term, it) && FandomSelects(selected, it.projectMeta.fandom)
  }

  /** `filteredFavorites` */
  function FilteredFavorites(items: seq<FavoriteItem>, term: string, selected: string): (r: seq<FavoriteItem>)
  {
    Filter(items, it => FavoritePasses(term, selected, it))
  }

  /** The filtered list keeps exactly the passing clippings, in their order,
      and with an empty query and 'ALL' it keeps them all. */
  lemma FilteredFavoritesSpec(items: seq<FavoriteItem>, term: string, selected: string)
    ensures forall it :: it in FilteredFavorites(items, term, selected) <==> it in items && FavoritePasses(term, selected, it)
    ensures multiset(FilteredFavorites(items, term, selected)) <= multiset(items)
    ensures forall a, b | a + b == items ::
      FilteredFavorites(items, term, selected) == FilteredFavorites(a, term, selected) + FilteredFavorites(b, term, selected)
    ensures FilteredFavorites(items, "", FANDOM_ALL) == items
  {
    var keep := it => FavoritePasses(term, selected, it);
    FilterSpec(items, keep);
    forall a, b | a + b == items
      ensures FilteredFavorites(items, term, selected) == FilteredFavorites(a, term, selected) + FilteredFavorites(b, term, selected)
    {
      FilterAppend(a, b, keep);
    }
    forall it | it in items ensures FavoritePasses("", FANDOM_ALL, it) {
      assert OccursAt(ToLower(it.projectMeta.title), ToLower(""), 0);
    }
    FilterAll(items, it => FavoritePasses("", FANDOM_ALL, it));
  }

  // ---------------------------------------------------------------------------
  // Markdown clippings

  function ClippingsHead(favoritesTitle: string, generatedBy: string): string {
    "# " + favoritesTitle + "\n\n" + generatedBy + "\n\n---\n\n"
  }

  function NoteLine(b: Block): string {
    if b.HasNote() then "*Note: " + b.note.value + "*\n\n" else ""
  }

  /** One clipping: title and fandom, the quoted original, the translation, the
      note when there is one, and a rule. */
  function ClippingSection(it: FavoriteItem): string {
    "### " + it.projectMeta.title + " (" + it.projectMeta.fandom + ")\n"
      + "> " + it.block.original + "\n\n"
      + it.block.translated + "\n\n"
      + NoteLine(it.block)
      + "---\n\n"
  }

  /** The note line appears exactly for a clipping with a non-empty note. */
  lemma ClippingNote(it: FavoriteItem)
    ensures it.block.HasNote() ==> Contains(ClippingSection(it), "*Note: " + it.block.note.value + "*\n\n")
    ensures !it.block.HasNote() ==>
      ClippingSection(it) == "### " + it.projectMeta.title + " (" + it.projectMeta.fandom + ")\n> "
                             + it.block.original + "\n\n" + it.block.translated + "\n\n---\n\n"
  {
    var head := "### " + it.projectMeta.title + " (" + it.projectMeta.fandom + ")\n"
      + "> " + it.block.original + "\n\n" + it.block.translated + "\n\n";
    if it.block.HasNote() {
      ContainsMiddle(head, NoteLine(it.block), "---\n\n");
    }
  }

  /** The text of `exportFavoritesToMarkdown`: the head, then one section per
      clipping shown, appended in a `forEach`. */
  method ExportFavoritesMarkdown(shown: seq<FavoriteItem>, favoritesTitle: string, generatedBy: string)
    returns (content: string)
    ensures content == ClippingsHead(favoritesTitle, generatedBy) + Render(shown, ClippingSection)
  {
    var head := ClippingsHead(favoritesTitle, generatedBy);
    content := head;
    var i := 0;
    while i < |shown|
      invariant 0 <= i <= |shown|
      invariant content == head + Render(shown[..i], ClippingSection)
    {
      var piece := ClippingPiece(shown[i]);
      RenderSnoc(shown, i, ClippingSection);
      ConcatAssoc(head, Render(shown[..i], ClippingSection), piece);
      content := content + piece;
      i := i + 1;
    }
    assert shown[..i] == shown;
  }

  /** The body of the loop: one clipping's lines, appended one by one. */
  method ClippingPiece(it: FavoriteItem) returns (piece: string)
    ensures piece == ClippingSection(it)
  {
    var block := it.block;
    var meta := it.projectMeta;
    piece := "### " + meta.title + " (" + meta.fandom + ")\n";
    piece := piece + ("> " + block.original + "\n\n");
    piece := piece + (block.translated + "\n\n");
    if block.note.Some? && block.note.value != "" {
      piece := piece + ("*Note: " + block.note.value + "*\n\n");
    }
    piece := piece + "---\n\n";
  }

  /** Every clipping shown has its section in the file. */
  lemma ExportKeepsClipping(shown: seq<FavoriteItem>, i: nat)
    requires i < |shown|
    ensures Contains(Render(shown, ClippingSection), ClippingSection(shown[i]))
  {
    RenderKeepsBlock(shown, i, ClippingSection);
  }
}
