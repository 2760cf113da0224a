/** The history drawer (components/HistorySidebar.tsx): nothing when closed;
    otherwise the projects, sorted newest first in the very array the
    application holds, each drawn as a card with its progress bar, completion
    colour and favourites count. */
module Sidebar {
  import opened Wrappers
  import opened JsArray
  import opened Types
  import opened Library
  import opened Favorites

  /** `project.blocks.filter(b => b.isFavorite).length` */
  function FavoritesCount(p: Project): nat {
    |Filter(p.blocks, (b: Block) => b.Favorite())|
  }

  /** The count is the number of favourite blocks: the clippings the project
      contributes to the favourites page, positive exactly when it has one. */
  lemma FavoritesCountSpec(p: Project)
    ensures FavoritesCount(p) <= |p.blocks|
    ensures FavoritesCount(p) == |ProjectFavorites(p)|
    ensures FavoritesCount(p) > 0 <==> exists b | b in p.blocks :: b.Favorite()
  {
    FilterSpec(p.blocks, (b: Block) => b.Favorite());
    var favs := Filter(p.blocks, (b: Block) => b.Favorite());
    if FavoritesCount(p) > 0 {
      assert favs[0] in favs;
    }
  }

  /** What one card shows. */
  datatype SidebarCard = SidebarCard(
    id: string,
    title: string,
    fandom: string,
    targetLanguage: string,
    percent: nat,
    isComplete: bool,
    favoritesCount: nat)

  /** The title and fandom lines with their fallbacks, the percentage, the
      green bar when it reads 100, and the count of favourites. */
  function CardOf(p: Project): SidebarCard {
    var percent := CardPercent(p);
    SidebarCard(
      p.id,
      if p.metadata.title == "" then "Untitled" else p.metadata.title,
      if p.metadata.fandom == "" then "Unknown Fandom" else p.metadata.fandom,
      p.metadata.targetLanguage,
      percent,
      percent == 100,
      FavoritesCount(p))
  }

  /** The badge for favourites appears exactly when the project has one.
      Every finished project shows the green bar; below 200 blocks the green bar
      means finished, but from 200 blocks on a project one block short shows it
      too. */
  lemma CardOfSpec(p: Project)
    ensures CardOf(p).percent <= 100
    ensures CardOf(p).favoritesCount > 0 <==> exists b | b in p.blocks :: b.Favorite()
    ensures IsComplete(p) ==> CardOf(p).isComplete
    ensures |p.blocks| < 200 ==> (CardOf(p).isComplete <==> IsComplete(p))
    ensures |p.blocks| >= 200 && DoneCount(p.blocks) == |p.blocks| - 1 ==> CardOf(p).isComplete && !IsComplete(p)
  {
    FavoritesCountSpec(p);
    CardBadgeAgreement(p);
  }

  /** `history.map(project => ...)` after the sort. */
  function Cards(history: seq<Project>): (r: seq<SidebarCard>)
    ensures |r| == |history|
  {
    seq(|history|, i requires 0 <= i < |history| => CardOf(history[i]))
  }

  /** The drawer's render. Closed, it draws nothing and leaves the history
      alone; open, it sorts the application's own history array newest first
      (stable, so projects edited at the same moment keep their order) and draws
      one card per project in that order. */
  method Render(isOpen: bool, history: array<Project>) returns (view: Option<seq<SidebarCard>>)
    modifies history
    ensures !isOpen ==> view == None && history[..] == old(history[..])
    ensures isOpen ==> history[..] == SortByRecent(old(history[..])) && view == Some(Cards(history[..]))
  {
    if !isOpen {
      return None;
    }
    if history.Length == 0 {
      return Some([]);
    }
    SortInPlace(history, Recency);
    view := Some(Cards(history[..]));
  }

  /** After an open render the application's history is newest first and holds
      the same projects as before, so the cards follow `lastModified` downwards
      and each project has exactly as many cards as copies in the history. */
  lemma RenderedOrder(before: seq<Project>)
    ensures NewestFirst(SortByRecent(before))
    ensures multiset(SortByRecent(before)) == multiset(before)
    ensures forall i, j | 0 <= i < j < |before| ::
      SortByRecent(before)[i].lastModified >= SortByRecent(before)[j].lastModified
    ensures forall i | 0 <= i < |before| :: Cards(SortByRecent(before))[i] == CardOf(SortByRecent(before)[i])
    ensures NewestFirst(before) ==> SortByRecent(before) == before
  {
    var r := SortByRecent(before);
    forall i, j | 0 <= i < j < |before| ensures r[i].lastModified >= r[j].lastModified {
      assert Recency(r[i]) >= Recency(r[j]);
    }
    if NewestFirst(before) {
      SortDescendingKeepsSorted(before, Recency);
    }
  }
}
