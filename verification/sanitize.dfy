/** `sanitizeProjectData` (services/utils.ts): a project read back from storage
    or from a backup may come from an older version and lack fields; every
    missing field gets its default and the chapter numbers are recomputed. */
module Sanitize {
  import opened Wrappers
  import opened Types
  import opened ChapterIndex

  /** A block as stored: any of the fields the defaulting pass looks at may be missing. */
  datatype StoredBlock = StoredBlock(
    id: string,
    original: Option<string>,
    translated: Option<string>,
    isEdited: bool,
    isLoading: bool,
    isFavorite: Option<bool>,
    note: Option<string>,
    kind: Option<BlockType>,
    chapterIndex: Option<int>)

  datatype StoredProject = StoredProject(
    id: string,
    metadata: Metadata,
    blocks: seq<StoredBlock>,
    lastModified: int,
    bookmarkBlockId: Option<string>)

  /** `x || ''` for an optional string: the empty string stands in for a missing one. */
  function OrEmpty(x: Option<string>): (r: string)
    ensures x.Some? ==> r == x.value
    ensures x.None? ==> r == ""
  {
    x.GetOr("")
  }

  /** The per-block defaults: type `text`, chapter 0, note "", not a favourite,
      empty original and translation. */
  function SanitizeBlock(b: StoredBlock): (r: Block)
    ensures r.id == b.id && r.isEdited == b.isEdited && r.isLoading == b.isLoading
    ensures r.original == OrEmpty(b.original) && r.translated == OrEmpty(b.translated)
    ensures r.kind == b.kind.GetOr(Text)
    ensures r.isFavorite == Some(b.isFavorite == Some(true))
    ensures r.note == Some(OrEmpty(b.note))
    ensures r.chapterIndex == b.chapterIndex.GetOr(0)
  {
    Block(
      b.id,
      OrEmpty(b.original),
      OrEmpty(b.translated),
      b.isEdited,
      b.isLoading,
      Some(if b.isFavorite == Some(true) then true else false),
      Some(if b.note.Some? && b.note.value != "" then b.note.value else ""),
      match b.kind case Some(k) => k case None => Text,
      match b.chapterIndex case Some(c) => c case None => 0)
  }

  /** A block that went through the pass has every field set. */
  predicate Complete(b: Block) {
    b.isFavorite.Some? && b.note.Some?
  }

  /** The whole pass: blocks defaulted and renumbered, tags and URL present. */
  function SanitizeProject(p: StoredProject): (r: Project)
    ensures r.id == p.id && r.lastModified == p.lastModified && r.bookmarkBlockId == p.bookmarkBlockId
    ensures |r.blocks| == |p.blocks|
    ensures forall i | 0 <= i < |p.blocks| :: r.blocks[i].(chapterIndex := 0) == SanitizeBlock(p.blocks[i]).(chapterIndex := 0)
    ensures forall i | 0 <= i < |p.blocks| :: Complete(r.blocks[i])
    ensures r.blocks == Reindex(r.blocks)
    ensures r.metadata == p.metadata.(tags := Some(p.metadata.tags.GetOr([])), url := Some(OrEmpty(p.metadata.url)))
  {
    var clean := seq(|p.blocks|, i requires 0 <= i < |p.blocks| => SanitizeBlock(p.blocks[i]));
    ReindexSteps(clean);
    ReindexIdempotent(clean);
    Project(
      p.id,
      p.metadata.(tags := Some(p.metadata.tags.GetOr([])), url := Some(if p.metadata.url.Some? && p.metadata.url.value != "" then p.metadata.url.value else "")),
      Reindex(clean),
      p.lastModified,
      p.bookmarkBlockId)
  }

  /** How a block is written back to storage: every field present. */
  function Store(b: Block): (r: StoredBlock)
    ensures r.id == b.id
  {
    StoredBlock(b.id, Some(b.original), Some(b.translated), b.isEdited, b.isLoading, b.isFavorite, b.note, Some(b.kind), Some(b.chapterIndex))
  }

  function StoreProject(p: Project): (r: StoredProject)
    ensures |r.blocks| == |p.blocks|
  {
    StoredProject(p.id, p.metadata, seq(|p.blocks|, i requires 0 <= i < |p.blocks| => Store(p.blocks[i])), p.lastModified, p.bookmarkBlockId)
  }

  /** Defaulting a block that already has all its fields changes nothing. */
  lemma SanitizeStoredComplete(b: Block)
    requires Complete(b)
    ensures SanitizeBlock(Store(b)) == b
  {
    var r := SanitizeBlock(Store(b));
    assert b.isFavorite == Some(b.isFavorite.value);
    if b.isFavorite.value { assert r.isFavorite == Some(true); } else { assert r.isFavorite == Some(false); }
    assert r.note == b.note;
  }

  /** Sanitising a sanitised project, after a round trip through storage, gives
      it back unchanged. */
  lemma SanitizeIdempotent(p: StoredProject)
    ensures SanitizeProject(StoreProject(SanitizeProject(p))) == SanitizeProject(p)
  {
    var r := SanitizeProject(p);
    var again := SanitizeProject(StoreProject(r));
    var clean := seq(|r.blocks|, i requires 0 <= i < |r.blocks| => SanitizeBlock(StoreProject(r).blocks[i]));
    forall i | 0 <= i < |r.blocks| ensures clean[i] == r.blocks[i] {
      SanitizeStoredComplete(r.blocks[i]);
    }
    assert clean == r.blocks;
  }

  /** The pass keeps every block id in place, so a bookmark that resolved before
      still resolves. */
  lemma SanitizeKeepsBookmark(p: StoredProject)
    requires p.bookmarkBlockId.Some? ==> exists i | 0 <= i < |p.blocks| :: p.blocks[i].id == p.bookmarkBlockId.value
    ensures BookmarkResolves(SanitizeProject(p))
  {
    var r := SanitizeProject(p);
    if p.bookmarkBlockId.Some? {
      var i :| 0 <= i < |p.blocks| && p.blocks[i].id == p.bookmarkBlockId.value;
      assert r.blocks[i].(chapterIndex := 0).id == r.blocks[i].id;
    }
  }
}
