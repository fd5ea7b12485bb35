/** The whole script: build the entries from the game folders, turn them into
    records, render them and splice them into the host page. The directory
    listings and the page text are parameters; writing the page back and the
    console summary are not modelled. */
module Menu {
  import opened Basics
  import opened Text
  import opened Entries
  import opened Images
  import opened Games
  import opened Render
  import opened Splice

  /** The menu's records for the given folders and image listing. */
  function MenuGames(folders: seq<GameFolder>, imageListing: seq<string>): seq<Game> {
    Games.Games(Entries.Entries(folders), ImagePool(imageListing))
  }

  /** The page rewritten with the rendered records, or the error raised when
      a marker is missing. */
  method BuildMenu(folders: seq<GameFolder>, imageListing: seq<string>, html: string)
    returns (result: Result<string, SpliceError>)
    ensures result == Splice.Splice(html, RenderGames(MenuGames(folders, imageListing)))
    ensures result.Err? <==> !Contains(html, StartMarker) || !Contains(html, EndMarker)
  {
    var gameEntries := BuildEntries(folders);
    var games := Games.Games(gameEntries, ImagePool(imageListing));
    var gamesJs := RenderGames(games);
    result := ReplaceBlock(html, gamesJs);
  }

  /** The rewrite of the page text, reassigning it in place of the old block. */
  method ReplaceBlock(html: string, gamesJs: string) returns (result: Result<string, SpliceError>)
    ensures result == Splice.Splice(html, gamesJs)
    ensures result.Ok? ==> StartsWith(result.value, html[..IndexOf(html, StartMarker)])
    ensures result.Ok? ==> EndsWith(result.value, html[IndexOf(html, EndMarker) + |EndMarker|..])
  {
    var page := html;
    var start := IndexOf(page, StartMarker);
    var end := IndexOf(page, EndMarker);
    if start == -1 || end == -1 {
      return Err(MarkersNotFound);
    }
    var newBlock := NewBlock(gamesJs);
    page := page[..start] + newBlock + page[end + |EndMarker|..];
    SpliceKeepsOutside(html, gamesJs, start, end);
    result := Ok(page);
  }

  /** Every record shown comes from one game folder that holds a page, every
      such folder's record is shown, and there are never more records than
      folders. */
  lemma MenuGamesFromFolders(folders: seq<GameFolder>, imageListing: seq<string>)
    ensures |MenuGames(folders, imageListing)| <= |folders|
    ensures forall g :: g in MenuGames(folders, imageListing) ==>
      exists d :: d in folders && EntryOf(d).Some? && g == GameOf(EntryOf(d).value, ImagePool(imageListing))
    ensures forall d :: d in folders && EntryOf(d).Some? ==>
      GameOf(EntryOf(d).value, ImagePool(imageListing)) in MenuGames(folders, imageListing)
  {
    var es, pool := Entries.Entries(folders), ImagePool(imageListing);
    EntriesFromFolders(folders);
    GamesHoldEntries(es, pool);
    GamesFromEntries(es, pool);
    forall g | g in Games.Games(es, pool)
      ensures exists d :: d in folders && EntryOf(d).Some? && g == GameOf(EntryOf(d).value, pool)
    {
      var e :| e in es && g == GameOf(e, pool);
      var d :| d in folders && EntryOf(d) == Some(e);
    }
  }
}
