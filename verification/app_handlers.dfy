/** The handlers of App.tsx that rebuild the open project and the library:
    block edits, favourites, notes, the bookmark, deleting and importing
    projects, and applying an updated parse of a work to a saved project.

    The two pieces of React state they touch are `currentProject` and
    `history`; `AppState` holds both, and each handler is a function from the
    old state to the new one. `Date.now()` is the parameter `now`. */
module AppHandlers {
  import opened Wrappers
  import opened Types
  import opened ChapterIndex
  import opened Sanitize
  import opened Reconcile
  import opened TextImport
  import opened Percent
  import opened Library

  datatype AppState = AppState(current: Option<Project>, history: seq<Project>)

  // ---------------------------------------------------------------------------
  // Rebuilding lists by id

  /** `blocks.map(b => b.id === id ? f(b) : b)` */
  function MapBlock(bs: seq<Block>, id: string, f: Block -> Block): (r: seq<Block>)
    ensures |r| == |bs|
    ensures forall i | 0 <= i < |bs| :: r[i] == if bs[i].id == id then f(bs[i]) else bs[i]
  {
    seq(|bs|, i requires 0 <= i < |bs| => if bs[i].id == id then f(bs[i]) else bs[i])
  }

  /** `prev.map(p => p.id === updated.id ? updated : p)` */
  function ReplaceById(history: seq<Project>, updated: Project): (r: seq<Project>)
    ensures |r| == |history|
    ensures forall i | 0 <= i < |history| :: r[i] == if history[i].id == updated.id then updated else history[i]
  {
    seq(|history|, i requires 0 <= i < |history| => if history[i].id == updated.id then updated else history[i])
  }

  /** `history.find(p => p.id === id)`: the first project with that id. */
  function FindProject(history: seq<Project>, id: string): (r: Option<Project>)
    ensures r.None? <==> forall i | 0 <= i < |history| :: history[i].id != id
    ensures r.Some? ==> exists i | 0 <= i < |history| ::
      && history[i] == r.value && r.value.id == id
      && forall j | 0 <= j < i :: history[j].id != id
  {
    if |history| == 0 then None
    else if history[0].id == id then Some(history[0])
    else
      var r := FindProject(history[1..], id);
      assert forall i | 1 <= i < |history| :: history[i] == history[1..][i - 1];
      if r.Some? then
        var k :| 0 <= k < |history[1..]| && history[1..][k] == r.value && r.value.id == id
          && forall j | 0 <= j < k :: history[1..][j].id != id;
        assert history[k + 1] == r.value;
        r
      else r
  }

  /** Commit `updated` as the open project and put it in the library in place
      of the projects with its id. */
  function Commit(s: AppState, updated: Project): (r: AppState)
    ensures r.current == Some(updated)
    ensures |r.history| == |s.history|
  {
    AppState(Some(updated), ReplaceById(s.history, updated))
  }

  // ---------------------------------------------------------------------------
  // handleToggleBlockType

  /** A header becomes text; anything else, a separator too, becomes a header. */
  function ToggleKind(k: BlockType): (r: BlockType)
    ensures r != k
    ensures r == Header <==> k != Header
  {
    if k == Header then Text else Header
  }

  /** Toggling twice restores the type exactly when it was not a separator. */
  lemma ToggleKindTwice(k: BlockType)
    ensures ToggleKind(ToggleKind(k)) == k <==> k != Separator
  {
  }

  /** `handleToggleBlockType`: with a project open, toggle the type of the
      blocks with that id and renumber the chapters. */
  function ToggleBlockType(s: AppState, blockId: string, now: int): (r: AppState)
    ensures s.current.None? ==> r == s
    ensures s.current.Some? ==>
      var p := s.current.value;
      && r.current.Some?
      && var q := r.current.value;
      && q == p.(blocks := q.blocks, lastModified := now)
      && |q.blocks| == |p.blocks|
      && q.blocks == Reindex(q.blocks)
      && (forall i | 0 <= i < |p.blocks| ::
            && q.blocks[i].(chapterIndex := p.blocks[i].chapterIndex, kind := p.blocks[i].kind) == p.blocks[i]
            && q.blocks[i].kind == if p.blocks[i].id == blockId then ToggleKind(p.blocks[i].kind) else p.blocks[i].kind)
      && r.history == ReplaceById(s.history, q)
  {
    match s.current
    case None => s
    case Some(p) =>
      var toggled := MapBlock(p.blocks, blockId, (b: Block) => b.(kind := ToggleKind(b.kind)));
      ReindexSteps(toggled);
      ReindexIdempotent(toggled);
      Commit(s, p.(blocks := Reindex(toggled), lastModified := now))
  }

  /** Toggling the same block twice gives back a renumbered list exactly when
      none of the blocks with that id was a separator. */
  lemma ToggleTwice(s: AppState, blockId: string, now: int, later: int)
    requires s.current.Some? && s.current.value.blocks == Reindex(s.current.value.blocks)
    requires forall i | 0 <= i < |s.current.value.blocks| && s.current.value.blocks[i].id == blockId ::
      s.current.value.blocks[i].kind != Separator
    ensures ToggleBlockType(ToggleBlockType(s, blockId, now), blockId, later).current
         == Some(s.current.value.(lastModified := later))
  {
    var p := s.current.value;
    var q := ToggleBlockType(s, blockId, now).current.value;
    var t := ToggleBlockType(ToggleBlockType(s, blockId, now), blockId, later).current.value;
    forall i | 0 <= i < |p.blocks| ensures t.blocks[i].kind == p.blocks[i].kind {
      if p.blocks[i].id == blockId {
        ToggleKindTwice(p.blocks[i].kind);
      }
    }
    ReindexSameKinds(t.blocks, p.blocks);
    forall i | 0 <= i < |p.blocks| ensures t.blocks[i] == p.blocks[i] {
      assert t.blocks[i].chapterIndex == Reindex(t.blocks)[i].chapterIndex;
      assert p.blocks[i].chapterIndex == Reindex(p.blocks)[i].chapterIndex;
    }
    assert t.blocks == p.blocks;
    assert q == p.(blocks := q.blocks, lastModified := now);
    assert t == q.(blocks := t.blocks, lastModified := later);
  }

  // ---------------------------------------------------------------------------
  // Block edits on the open project

  /** `handleUpdateBlock`: the blocks with that id take the new text, are
      marked edited and stop loading. */
  function UpdateBlock(s: AppState, blockId: string, newText: string, now: int): (r: AppState)
    ensures s.current.None? ==> r == s
    ensures s.current.Some? ==>
      var p := s.current.value;
      && r.current.Some?
      && var q := r.current.value;
      && q == p.(blocks := q.blocks, lastModified := now)
      && |q.blocks| == |p.blocks|
      && (forall i | 0 <= i < |p.blocks| ::
            q.blocks[i] == if p.blocks[i].id == blockId
                           then p.blocks[i].(translated := newText, isEdited := true, isLoading := false)
                           else p.blocks[i])
      && r.history == ReplaceById(s.history, q)
  {
    match s.current
    case None => s
    case Some(p) =>
      var blocks := MapBlock(p.blocks, blockId, (b: Block) => b.(translated := newText, isEdited := true, isLoading := false));
      Commit(s, p.(blocks := blocks, lastModified := now))
  }

  /** Saving the same text twice is saving it once; no edit moves a bookmark
      off its block. */
  lemma UpdateBlockTwice(s: AppState, blockId: string, text: string, now: int, later: int)
    requires s.current.Some? && BookmarkResolves(s.current.value)
    ensures UpdateBlock(UpdateBlock(s, blockId, text, now), blockId, text, later).current
         == UpdateBlock(s, blockId, text, later).current
    ensures BookmarkResolves(UpdateBlock(s, blockId, text, now).current.value)
  {
    var p := s.current.value;
    var q := UpdateBlock(s, blockId, text, now).current.value;
    assert Ids(q.blocks) == Ids(p.blocks);
    BookmarkKeptByIds(p, q.blocks);
    assert q == p.(blocks := q.blocks, lastModified := now);
    var t := UpdateBlock(UpdateBlock(s, blockId, text, now), blockId, text, later).current.value;
    var u := UpdateBlock(s, blockId, text, later).current.value;
    assert t.blocks == u.blocks;
    assert t == q.(blocks := t.blocks, lastModified := later);
    assert u == p.(blocks := u.blocks, lastModified := later);
  }

  /** `handleBlockLoading`: the open project's blocks with that id take the
      flag; neither the library nor the modification time changes. */
  function BlockLoading(s: AppState, blockId: string, loading: bool): (r: AppState)
    ensures r.history == s.history
    ensures s.current.None? <==> r.current.None?
    ensures s.current.Some? ==>
      && r.current.value == s.current.value.(blocks := r.current.value.blocks)
      && |r.current.value.blocks| == |s.current.value.blocks|
      && forall i | 0 <= i < |s.current.value.blocks| ::
           r.current.value.blocks[i] == if s.current.value.blocks[i].id == blockId
                                        then s.current.value.blocks[i].(isLoading := loading)
                                        else s.current.value.blocks[i]
  {
    match s.current
    case None => s
    case Some(p) => AppState(Some(p.(blocks := MapBlock(p.blocks, blockId, (b: Block) => b.(isLoading := loading)))), s.history)
  }

  /** A refine from the reader, as the application receives it: loading on,
      the refined text saved, loading off. It ends exactly where saving the
      text alone ends, in the open project and in the library. */
  lemma RefineThroughApp(s: AppState, blockId: string, text: string, now: int)
    ensures BlockLoading(UpdateBlock(BlockLoading(s, blockId, true), blockId, text, now), blockId, false)
         == UpdateBlock(s, blockId, text, now)
  {
    if s.current.Some? {
      var p := s.current.value;
      var a := BlockLoading(s, blockId, true);
      var b := UpdateBlock(a, blockId, text, now);
      var c := BlockLoading(b, blockId, false);
      var u := UpdateBlock(s, blockId, text, now);
      assert b.current.value.blocks == u.current.value.blocks;
      assert b.current.value == u.current.value;
      assert c.current.value.blocks == b.current.value.blocks;
    }
  }

  // ---------------------------------------------------------------------------
  // handleStart with the target 'original'

  /** The target 'original': every block shows its own text as its translation
      and stops loading, and the project goes to the front of the library in
      place of any copy with its id. */
  function ShowOriginal(s: AppState, p: Project, now: int): (r: AppState)
    ensures r.current.Some? && r.history == [r.current.value] + Without(s.history, p.id)
    ensures var q := r.current.value;
      && q == p.(blocks := q.blocks, lastModified := now)
      && |q.blocks| == |p.blocks|
      && forall i | 0 <= i < |p.blocks| :: q.blocks[i] == p.blocks[i].(translated := p.blocks[i].original, isLoading := false)
  {
    var blocks := seq(|p.blocks|, i requires 0 <= i < |p.blocks| => p.blocks[i].(translated := p.blocks[i].original, isLoading := false));
    var q := p.(blocks := blocks, lastModified := now);
    AppState(Some(q), [q] + Without(s.history, p.id))
  }

  /** Afterwards the library holds the project once, first, and keeps every
      other project; a project whose blocks all have text counts as complete
      at 100%; a bookmark that resolved still does. */
  lemma ShowOriginalSpec(s: AppState, p: Project, now: int)
    ensures var r := ShowOriginal(s, p, now);
      && r.history[0] == r.current.value
      && (forall i | 1 <= i < |r.history| :: r.history[i].id != p.id)
      && (forall q | q in s.history && q.id != p.id :: q in r.history)
    ensures (|p.blocks| > 0 && forall i | 0 <= i < |p.blocks| :: p.blocks[i].original != "") ==>
      IsComplete(ShowOriginal(s, p, now).current.value) && CardPercent(ShowOriginal(s, p, now).current.value) == 100
    ensures BookmarkResolves(p) ==> BookmarkResolves(ShowOriginal(s, p, now).current.value)
  {
    var r := ShowOriginal(s, p, now);
    var q := r.current.value;
    forall i | 1 <= i < |r.history| ensures r.history[i].id != p.id {
      assert r.history[i] in Without(s.history, p.id);
    }
    if |p.blocks| > 0 && forall i | 0 <= i < |p.blocks| :: p.blocks[i].original != "" {
      assert forall i | 0 <= i < |q.blocks| :: q.blocks[i].IsTranslated();
    }
    if BookmarkResolves(p) {
      assert Ids(q.blocks) == Ids(p.blocks);
      BookmarkKeptByIds(p, q.blocks);
    }
  }

  /** `handleSetBookmark`: the open project remembers the block id. */
  function SetBookmark(s: AppState, blockId: string, now: int): (r: AppState)
    ensures s.current.None? ==> r == s
    ensures s.current.Some? ==>
      && r.current == Some(s.current.value.(bookmarkBlockId := Some(blockId), lastModified := now))
      && r.history == ReplaceById(s.history, r.current.value)
  {
    match s.current
    case None => s
    case Some(p) => Commit(s, p.(bookmarkBlockId := Some(blockId), lastModified := now))
  }

  /** A bookmark set on a block of the open project resolves. */
  lemma SetBookmarkResolves(s: AppState, i: nat, now: int)
    requires s.current.Some? && i < |s.current.value.blocks|
    ensures BookmarkResolves(SetBookmark(s, s.current.value.blocks[i].id, now).current.value)
  {
    var q := SetBookmark(s, s.current.value.blocks[i].id, now).current.value;
    assert q.blocks[i].id == q.bookmarkBlockId.value;
  }

  // ---------------------------------------------------------------------------
  // Favourites and notes, by project id

  /** Update the projects with id `projectId` in the library, then reopen the
      first of them if the open project has that id; `find(...)!` on a missing
      project yields `undefined`, which the app treats as no open project. */
  function UpdateInLibrary(s: AppState, projectId: string, f: Project -> Project): (r: AppState)
    ensures |r.history| == |s.history|
    ensures forall i | 0 <= i < |s.history| ::
      r.history[i] == if s.history[i].id == projectId then f(s.history[i]) else s.history[i]
    ensures r.current == if s.current.Some? && s.current.value.id == projectId
                         then FindProject(r.history, projectId) else s.current
  {
    var next := seq(|s.history|, i requires 0 <= i < |s.history| =>
      if s.history[i].id == projectId then f(s.history[i]) else s.history[i]);
    AppState(if s.current.Some? && s.current.value.id == projectId then FindProject(next, projectId) else s.current, next)
  }

  /** `!b.isFavorite` on an optional flag. */
  function Flip(b: Block): (r: Block)
    ensures r.Favorite() <==> !b.Favorite()
    ensures r.isFavorite.Some?
  {
    b.(isFavorite := Some(!b.Favorite()))
  }

  /** `handleToggleFavorite` */
  function ToggleFavorite(s: AppState, projectId: string, blockId: string, now: int): AppState
  {
    UpdateInLibrary(s, projectId, (p: Project) => p.(blocks := MapBlock(p.blocks, blockId, Flip), lastModified := now))
  }

  /** Toggling a favourite flips exactly the blocks with that id in the
      projects with that id, and toggling twice restores every mark. */
  lemma ToggleFavoriteFlips(s: AppState, projectId: string, blockId: string, now: int, later: int, i: nat, k: nat)
    requires i < |s.history| && k < |s.history[i].blocks|
    ensures var r := ToggleFavorite(s, projectId, blockId, now);
      && |r.history[i].blocks| == |s.history[i].blocks|
      && (r.history[i].blocks[k].Favorite() <==>
            if s.history[i].id == projectId && s.history[i].blocks[k].id == blockId
            then !s.history[i].blocks[k].Favorite() else s.history[i].blocks[k].Favorite())
    ensures var t := ToggleFavorite(ToggleFavorite(s, projectId, blockId, now), projectId, blockId, later);
      && |t.history[i].blocks| == |s.history[i].blocks|
      && (t.history[i].blocks[k].Favorite() <==> s.history[i].blocks[k].Favorite())
  {
  }

  /** `handleUpdateNote` */
  function UpdateNote(s: AppState, projectId: string, blockId: string, note: string, now: int): AppState
  {
    UpdateInLibrary(s, projectId, (p: Project) => p.(blocks := MapBlock(p.blocks, blockId, (b: Block) => b.(note := Some(note))), lastModified := now))
  }

  /** A note written on an open project shows in the open project, and
      nothing but the note of that block changes. */
  lemma UpdateNoteOpen(s: AppState, blockId: string, note: string, now: int)
    requires s.current.Some? && s.current.value in s.history
    ensures var r := UpdateNote(s, s.current.value.id, blockId, note, now);
      && r.current.Some?
      && r.current.value.id == s.current.value.id
      && r.current.value.lastModified == now
      && forall k | 0 <= k < |r.current.value.blocks| && r.current.value.blocks[k].id == blockId ::
           r.current.value.blocks[k].note == Some(note)
  {
    var id := s.current.value.id;
    var r := UpdateNote(s, id, blockId, note, now);
    var i :| 0 <= i < |s.history| && s.history[i] == s.current.value;
    assert r.history[i].id == id;
    var j :| 0 <= j < |r.history| && r.history[j] == r.current.value && r.current.value.id == id
      && forall j' | 0 <= j' < j :: r.history[j'].id != id;
  }

  // ---------------------------------------------------------------------------
  // Deleting and importing projects

  /** `deleteHistoryItem`: drop every project with that id, and close the open
      project if it is one of them. */
  function DeleteHistoryItem(s: AppState, id: string): (r: AppState)
    ensures forall p :: p in r.history <==> p in s.history && p.id != id
    ensures |r.history| <= |s.history|
    ensures r.current == if s.current.Some? && s.current.value.id == id then None else s.current
  {
    AppState(if s.current.Some? && s.current.value.id == id then None else s.current, Without(s.history, id))
  }

  /** `history.filter(p => p.id !== id)` */
  function Without(history: seq<Project>, id: string): (r: seq<Project>)
    ensures forall p :: p in r <==> p in history && p.id != id
    ensures |r| <= |history|
  {
    if |history| == 0 then []
    else (if history[0].id != id then [history[0]] else []) + Without(history[1..], id)
  }

  /** Deleting keeps the other projects in their order: it removes nothing
      when no project has the id. */
  lemma {:induction false} WithoutAbsent(history: seq<Project>, id: string)
    requires forall i | 0 <= i < |history| :: history[i].id != id
    ensures Without(history, id) == history
    decreases |history|
  {
    if |history| > 0 {
      WithoutAbsent(history[1..], id);
      assert [history[0]] + history[1..] == history;
    }
  }

  /** `existingIds.has(p.id)` */
  predicate HasId(history: seq<Project>, id: string) {
    exists i | 0 <= i < |history| :: history[i].id == id
  }

  /** The projects of `imported` whose id is not in `prev`, sanitised. */
  function NewItems(prev: seq<Project>, imported: seq<StoredProject>): (r: seq<Project>)
    ensures |r| <= |imported|
    ensures forall i | 0 <= i < |r| :: !HasId(prev, r[i].id)
  {
    if |imported| == 0 then []
    else (if !HasId(prev, imported[0].id) then [SanitizeProject(imported[0])] else []) + NewItems(prev, imported[1..])
  }

  /** `handleImportHistory` once the file is parsed: an empty list is refused;
      otherwise the sanitised projects with new ids go in front of the
      library. */
  function ImportHistory(s: AppState, imported: seq<StoredProject>): (r: Result<AppState, string>)
    ensures |imported| == 0 <==> r.Failure?
    ensures r.Success? ==> r.value.current == s.current
    ensures r.Success? ==>
      && |s.history| <= |r.value.history| <= |s.history| + |imported|
      && r.value.history[|r.value.history| - |s.history|..] == s.history
  {
    if |imported| == 0 then Failure("errorImport")
    else
      var items := NewItems(s.history, imported);
      assert (items + s.history)[|items|..] == s.history;
      Success(AppState(s.current, items + s.history))
  }

  /** An imported project is added exactly when no project of the library has
      its id, and then it is added sanitised. */
  lemma {:induction false} NewItemsExact(prev: seq<Project>, imported: seq<StoredProject>, q: StoredProject)
    requires q in imported
    ensures SanitizeProject(q) in NewItems(prev, imported) <== !HasId(prev, q.id)
    ensures HasId(prev, q.id) ==> forall p | p in NewItems(prev, imported) :: p.id != q.id
    decreases |imported|
  {
    if imported[0] != q {
      NewItemsExact(prev, imported[1..], q);
    }
    NewItemsIds(prev, imported);
  }

  /** Every added project comes from the imported list. */
  lemma {:induction false} NewItemsIds(prev: seq<Project>, imported: seq<StoredProject>)
    ensures forall p | p in NewItems(prev, imported) :: exists q | q in imported :: p == SanitizeProject(q)
    decreases |imported|
  {
    if |imported| > 0 {
      NewItemsIds(prev, imported[1..]);
      forall p | p in NewItems(prev, imported) ensures exists q | q in imported :: p == SanitizeProject(q) {
        if p !in NewItems(prev, imported[1..]) {
          assert p == SanitizeProject(imported[0]);
        } else {
          var q :| q in imported[1..] && p == SanitizeProject(q);
          assert q in imported;
        }
      }
    }
  }

  /** Importing the same file again adds nothing. */
  lemma ImportTwice(s: AppState, imported: seq<StoredProject>)
    requires |imported| > 0
    ensures ImportHistory(ImportHistory(s, imported).value, imported) == ImportHistory(s, imported)
  {
    var once := ImportHistory(s, imported).value;
    forall q | q in imported ensures HasId(once.history, q.id) {
      if !HasId(s.history, q.id) {
        NewItemsExact(s.history, imported, q);
        var i :| 0 <= i < |NewItems(s.history, imported)| && NewItems(s.history, imported)[i] == SanitizeProject(q);
        assert once.history[i].id == q.id;
      } else {
        var i :| 0 <= i < |s.history| && s.history[i].id == q.id;
        var n := |once.history| - |s.history|;
        assert once.history[n + i] == once.history[n..][i];
      }
    }
    NoNewItems(once.history, imported);
  }

  lemma {:induction false} NoNewItems(prev: seq<Project>, imported: seq<StoredProject>)
    requires forall q | q in imported :: HasId(prev, q.id)
    ensures NewItems(prev, imported) == []
    decreases |imported|
  {
    if |imported| > 0 {
      assert imported[0] in imported;
      NoNewItems(prev, imported[1..]);
    }
  }

  // ---------------------------------------------------------------------------
  // Updating a saved project from a new parse of its work

  /** What a file upload does with a new parse: below 20% of the old text still
      present, ask first; otherwise apply it. */
  datatype UpdateDecision = NoProject | AskFirst(similarity: nat) | Apply

  function UpdateGate(history: seq<Project>, projectId: string, parsed: seq<Block>): (r: UpdateDecision)
    ensures FindProject(history, projectId).None? <==> r.NoProject?
    ensures r.AskFirst? ==> r.similarity < 20
    ensures FindProject(history, projectId).Some? ==>
      (r.Apply? <==> Similarity(Fingerprint, FindProject(history, projectId).value.blocks, parsed) >= 20)
  {
    match FindProject(history, projectId)
    case None => NoProject
    case Some(prior) =>
      var similarity := Similarity(Fingerprint, prior.blocks, parsed);
      if similarity < 20 then AskFirst(similarity) else Apply
  }

  /** Re-uploading the same text applies at once; uploading over a project
      with no text blocks always asks. */
  lemma UpdateGateExtremes(history: seq<Project>, projectId: string, parsed: seq<Block>)
    requires FindProject(history, projectId).Some?
    ensures var prior := FindProject(history, projectId).value;
      && (parsed == prior.blocks && |TextBlocks(parsed)| > 0 ==> UpdateGate(history, projectId, parsed) == Apply)
      && (|TextBlocks(prior.blocks)| == 0 ==> UpdateGate(history, projectId, parsed) == AskFirst(0))
  {
    var prior := FindProject(history, projectId).value;
    if parsed == prior.blocks && |TextBlocks(parsed)| > 0 {
      SimilaritySelf(Fingerprint, parsed);
    }
    if |TextBlocks(prior.blocks)| == 0 {
      SimilarityZero(Fingerprint, prior.blocks, parsed);
    }
  }

  /** `newParsed.fandom !== 'Unknown Fandom'`: the placeholder the HTML parser
      writes. */
  const HTML_UNKNOWN_FANDOM: string := "Unknown Fandom"

  /** The metadata `processProjectUpdate` writes: each field from the new
      parse when it is set, otherwise the old one. `fandomPlaceholder` says
      which fandom values count as not set besides the empty string. */
  function UpdateMetadata(prior: Metadata, parsed: ParsedWork, fandomPlaceholder: string -> bool): (r: Metadata)
    ensures r == prior.(title := r.title, author := r.author, fandom := r.fandom, tags := r.tags, url := r.url)
    ensures r.title == if parsed.title != "" then parsed.title else prior.title
    ensures r.author == if parsed.author != "" then parsed.author else prior.author
    ensures parsed.fandom == "" || fandomPlaceholder(parsed.fandom) ==> r.fandom == prior.fandom
    ensures parsed.fandom != "" && !fandomPlaceholder(parsed.fandom) ==> r.fandom == parsed.fandom
    ensures r.tags == if |parsed.tags| > 0 then Some(parsed.tags) else prior.tags
    ensures parsed.url.Some? && parsed.url.value != "" ==> r.url == parsed.url
    ensures parsed.url.None? || parsed.url.value == "" ==> r.url == prior.url
  {
    prior.(
      title := if parsed.title != "" then parsed.title else prior.title,
      author := if parsed.author != "" then parsed.author else prior.author,
      fandom := if parsed.fandom != "" && !fandomPlaceholder(parsed.fandom) then parsed.fandom else prior.fandom,
      tags := if |parsed.tags| > 0 then Some(parsed.tags) else prior.tags,
      url := if parsed.url.Some? && parsed.url.value != "" then parsed.url else prior.url)
  }

  /** As written: only the HTML parser's placeholder keeps the old fandom,
      and the merged blocks keep the chapter numbers of the new parse. */
  function ProcessProjectUpdate(s: AppState, parsed: ParsedWork, projectId: string, now: int): (r: AppState)
    ensures FindProject(s.history, projectId).None? ==> r == s
    ensures FindProject(s.history, projectId).Some? ==>
      var prior := FindProject(s.history, projectId).value;
      var updated := prior.(blocks := Merge(Fingerprint, prior.blocks, parsed.blocks),
                          metadata := UpdateMetadata(prior.metadata, parsed, f => f == HTML_UNKNOWN_FANDOM),
                          lastModified := now);
      && r.history == ReplaceById(s.history, updated)
      && r.current == if s.current.Some? && s.current.value.id == projectId then Some(updated) else s.current
  {
    match FindProject(s.history, projectId)
    case None => s
    case Some(prior) =>
      var updated := prior.(blocks := Merge(Fingerprint, prior.blocks, parsed.blocks),
                          metadata := UpdateMetadata(prior.metadata, parsed, f => f == HTML_UNKNOWN_FANDOM),
                          lastModified := now);
      AppState(if s.current.Some? && s.current.value.id == projectId then Some(updated) else s.current,
               ReplaceById(s.history, updated))
  }

  /** A fandom value that says the parser found none: the HTML parser's
      "Unknown Fandom" and the plain-text parser's "Unknown". */
  predicate FandomPlaceholder(f: string) {
    f == HTML_UNKNOWN_FANDOM || f == FALLBACK_UNKNOWN
  }

  /** The corrected updated project: the merge renumbered, and neither
      parser's placeholder taken for a fandom. */
  function RenumberedUpdate(prior: Project, parsed: ParsedWork, now: int): (r: Project)
    ensures r.id == prior.id && r.lastModified == now && r.bookmarkBlockId == prior.bookmarkBlockId
    ensures r.metadata == UpdateMetadata(prior.metadata, parsed, FandomPlaceholder)
    ensures |r.blocks| == |parsed.blocks|
    ensures r.blocks == Reindex(r.blocks)
    ensures forall i | 0 <= i < |parsed.blocks| ::
      r.blocks[i].(chapterIndex := 0) == Merge(Fingerprint, prior.blocks, parsed.blocks)[i].(chapterIndex := 0)
  {
    var merged := Merge(Fingerprint, prior.blocks, parsed.blocks);
    ReindexSteps(merged);
    ReindexIdempotent(merged);
    prior.(blocks := Reindex(merged),
           metadata := UpdateMetadata(prior.metadata, parsed, FandomPlaceholder),
           lastModified := now)
  }

  /** Corrected: neither parser's placeholder replaces a known fandom, and the
      merged blocks are renumbered, as every other change of block types is. */
  function ProcessProjectUpdateFixed(s: AppState, parsed: ParsedWork, projectId: string, now: int): (r: AppState)
    ensures FindProject(s.history, projectId).None? ==> r == s
    ensures FindProject(s.history, projectId).Some? ==>
      var updated := RenumberedUpdate(FindProject(s.history, projectId).value, parsed, now);
      && updated.id == projectId
      && r.history == ReplaceById(s.history, updated)
      && r.current == if s.current.Some? && s.current.value.id == projectId then Some(updated) else s.current
  {
    match FindProject(s.history, projectId)
    case None => s
    case Some(prior) =>
      var updated := RenumberedUpdate(prior, parsed, now);
      AppState(if s.current.Some? && s.current.value.id == projectId then Some(updated) else s.current,
               ReplaceById(s.history, updated))
  }

  // ---------------------------------------------------------------------------
  // What the as-written update loses

  /** As written, applying a plain-text upload to a saved project replaces its
      fandom by the placeholder "Unknown" of the plain-text parser. */
  lemma PlainTextUpdateFandom(s: AppState, filename: string, content: string, ids: nat -> string, projectId: string, now: int)
    ensures var r := ProcessProjectUpdate(s, FallbackParse(filename, content, ids), projectId, now);
      forall i | 0 <= i < |s.history| && s.history[i].id == projectId :: r.history[i].metadata.fandom == FALLBACK_UNKNOWN
  {
    assert FALLBACK_UNKNOWN != HTML_UNKNOWN_FANDOM by { assert |FALLBACK_UNKNOWN| != |HTML_UNKNOWN_FANDOM|; }
    var r := ProcessProjectUpdate(s, FallbackParse(filename, content, ids), projectId, now);
    forall i | 0 <= i < |s.history| && s.history[i].id == projectId
      ensures r.history[i].metadata.fandom == FALLBACK_UNKNOWN
    {
      assert FindProject(s.history, projectId).Some?;
    }
  }

  /** Corrected: the saved fandom survives a plain-text upload. */
  lemma PlainTextUpdateFandomFixed(s: AppState, filename: string, content: string, ids: nat -> string, projectId: string, now: int)
    ensures var r := ProcessProjectUpdateFixed(s, FallbackParse(filename, content, ids), projectId, now);
      forall i | 0 <= i < |s.history| && s.history[i].id == projectId ::
        r.history[i].metadata.fandom == FindProject(s.history, projectId).value.metadata.fandom
  {
    var r := ProcessProjectUpdateFixed(s, FallbackParse(filename, content, ids), projectId, now);
    forall i | 0 <= i < |s.history| && s.history[i].id == projectId
      ensures r.history[i].metadata.fandom == FindProject(s.history, projectId).value.metadata.fandom
    {
      assert FindProject(s.history, projectId).Some?;
    }
  }

  const SAMPLE_METADATA: Metadata :=
    Metadata("Work", "Author", "Fandom", Some([]), "en", "zh-CN", "model", None, None, None, None, None, None, None, Some(""), "")

  /** A saved project whose one block, "X", was marked a header and
      translated; the new parse has the paragraph "X" twice, as text. */
  function SamplePrior(): Project {
    Project("p", SAMPLE_METADATA, [Block("h", "X", "T", false, false, None, None, Header, 0)], 0, None)
  }

  function SampleParse(): ParsedWork {
    ParsedWork("Work", "Author", "Fandom", [], None, [
      Block("n0", "X", "", false, false, None, None, Text, 0),
      Block("n1", "X", "", false, false, None, None, Text, 0)])
  }

  /** As written: both new blocks take the header role from the old block, but
      keep chapter number 0, so the second header does not open chapter 1. */
  lemma UpdateSkipsRenumbering(now: int)
    ensures var r := ProcessProjectUpdate(AppState(None, [SamplePrior()]), SampleParse(), "p", now);
      && |r.history| == 1 && |r.history[0].blocks| == 2
      && r.history[0].blocks[1].kind == Header
      && r.history[0].blocks != Reindex(r.history[0].blocks)
  {
    var prior := SamplePrior();
    var parsed := SampleParse();
    var olds := prior.blocks;
    var news := parsed.blocks;
    assert FindProject([prior], "p") == Some(prior);
    assert Stateful(olds[0]);
    forall i | 0 <= i < 2 ensures Merge(Fingerprint, olds, news)[i] == Carry(news[i], olds[0]) {
      assert Candidate(Fingerprint, olds, 0, Fingerprint(news[i]));
      MergeMatched(Fingerprint, olds, news, i);
    }
    var r := ProcessProjectUpdate(AppState(None, [prior]), parsed, "p", now);
    var merged := r.history[0].blocks;
    assert merged == Merge(Fingerprint, olds, news);
    assert merged[1].chapterIndex == 0;
    ReindexSteps(merged);
    assert Reindex(merged)[1].chapterIndex == 1;
  }

  // ---------------------------------------------------------------------------
  // Progress

  /** The `progress` state: translated blocks out of all blocks. */
  datatype Progress = Progress(current: nat, total: nat)

  /** What the sync effect and the end of a run store: `blocks.filter(b =>
      b.translated).length` out of `blocks.length`. */
  function ProgressOf(blocks: seq<Block>): (r: Progress)
    ensures r.current <= r.total == |blocks|
  {
    Progress(DoneCount(blocks), |blocks|)
  }

  /** The reader's `percentComplete`: rounded share, 0 with nothing to count. */
  function PercentComplete(pr: Progress): nat {
    if pr.total > 0 then RoundPercent(pr.current, pr.total) else 0
  }

  /** The reader's percentage for a project is the one its library card shows:
      at most 100, 0 when nothing is translated, 100 when everything is, and
      100 only when everything is as long as the project has fewer than 200
      blocks. */
  lemma PercentCompleteAgrees(p: Project)
    ensures PercentComplete(ProgressOf(p.blocks)) == CardPercent(p)
    ensures PercentComplete(ProgressOf(p.blocks)) <= 100
    ensures DoneCount(p.blocks) == 0 ==> PercentComplete(ProgressOf(p.blocks)) == 0
    ensures IsComplete(p) ==> PercentComplete(ProgressOf(p.blocks)) == 100
    ensures |p.blocks| < 200 ==> (PercentComplete(ProgressOf(p.blocks)) == 100 <==> IsComplete(p))
  {
    CardBadgeAgreement(p);
  }
}
