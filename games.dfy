/** The `games` mapping: from an entry to the record the menu shows, with its
    file, its display name and its thumbnail. */
module Games {
  import opened Basics
  import opened Text
  import opened Paths
  import opened Slugs
  import opened DisplayNames
  import opened Images
  import opened Icons
  import opened Entries

  /** `{ file, name, image }`. */
  datatype Game = Game(file: string, name: string, image: Option<string>)

  /** The image field as the script writes it: the folder icon with "games/"
      put in front, else the pool image under "images/", else nothing. */
  function ImageFieldAsWritten(icon: Option<string>, globalImage: Option<string>): (r: Option<string>)
    ensures icon.Some? ==> r == Some("games/" + icon.value)
    ensures icon.None? ==> r == if globalImage.Some? then Some("images/" + globalImage.value) else None
  {
    match icon
    case Some(p) => Some("games/" + p)
    case None =>
      match globalImage
      case Some(g) => Some("images/" + g)
      case None => None
  }

  /** The image field with the folder icon used as found: its path is already
      relative to the project root, which is where the host page lives. */
  function ImageField(icon: Option<string>, globalImage: Option<string>): (r: Option<string>)
    ensures icon.Some? ==> r == icon
    ensures icon.None? ==> r == if globalImage.Some? then Some("images/" + globalImage.value) else None
  {
    match icon
    case Some(p) => Some(p)
    case None =>
      match globalImage
      case Some(g) => Some("images/" + g)
      case None => None
  }

  /** Whether the entry's page is the folder's default page. */
  predicate IsIndexPage(e: GameEntry) { Lower(LastSegment(e.path)) == "index.html" }

  /** The pool query of an entry: the folder for a default page, the page's
      own file name otherwise. */
  function PoolQuery(e: GameEntry): string {
    if IsIndexPage(e) then e.folder else LastSegment(e.path)
  }

  /** The record the script builds for an entry, with the image field as
      written. */
  function GameOf(e: GameEntry, pool: seq<string>): Game {
    var nameSource := if IsIndexPage(e) then e.folder else e.path;
    Game(e.path, DisplayName(nameSource), ImageFieldAsWritten(e.icon, FindImage(PoolQuery(e), pool)))
  }

  /** The record with the folder icon used as found. */
  function IntendedGameOf(e: GameEntry, pool: seq<string>): Game {
    var nameSource := if IsIndexPage(e) then e.folder else e.path;
    Game(e.path, DisplayName(nameSource), ImageField(e.icon, FindImage(PoolQuery(e), pool)))
  }

  function Games(es: seq<GameEntry>, pool: seq<string>): (gs: seq<Game>)
    ensures |gs| == |es|
  {
    seq(|es|, i requires 0 <= i < |es| => GameOf(es[i], pool))
  }

  /** The list holds the record of every entry... */
  lemma GamesHoldEntries(es: seq<GameEntry>, pool: seq<string>)
    ensures forall e :: e in es ==> GameOf(e, pool) in Games(es, pool)
  {
    var gs := Games(es, pool);
    forall e | e in es ensures GameOf(e, pool) in gs {
      var i :| 0 <= i < |es| && es[i] == e;
      assert gs[i] == GameOf(e, pool);
    }
  }

  /** ... and nothing else. */
  lemma GamesFromEntries(es: seq<GameEntry>, pool: seq<string>)
    ensures forall g :: g in Games(es, pool) ==> exists e :: e in es && g == GameOf(e, pool)
  {
    var gs := Games(es, pool);
    forall g | g in gs ensures exists e :: e in es && g == GameOf(e, pool) {
      var i :| 0 <= i < |gs| && gs[i] == g;
      assert es[i] in es;
    }
  }

  /** The records with the folder icon used as found. */
  function IntendedGames(es: seq<GameEntry>, pool: seq<string>): (gs: seq<Game>)
    ensures |gs| == |es|
  {
    seq(|es|, i requires 0 <= i < |es| => IntendedGameOf(es[i], pool))
  }

  // ---------------------------------------------------------------------------
  // What a game record holds

  /** For an entry built by the loop: the record's file is the entry's path;
      a default page takes its name and its pool query from the folder, any
      other page takes its name from its path and its query from its own file
      name; the folder icon, when there is one, is the image. */
  lemma GameOfEntry(e: GameEntry, pool: seq<string>)
    requires '/' !in e.file && e.path == e.folder + "/" + e.file
    ensures var g := GameOf(e, pool);
      && g.file == e.path
      && (Lower(e.file) == "index.html" ==>
            g.name == DisplayName(e.folder) && g.image == ImageFieldAsWritten(e.icon, FindImage(e.folder, pool)))
      && (Lower(e.file) != "index.html" ==>
            g.name == DisplayName(e.path) && g.image == ImageFieldAsWritten(e.icon, FindImage(e.file, pool)))
      && (e.icon.Some? ==> g.image == Some("games/" + e.icon.value))
      && (e.icon.None? && FindImage(PoolQuery(e), pool).Some? ==>
            g.image == Some("images/" + FindImage(PoolQuery(e), pool).value))
      && (e.icon.None? && FindImage(PoolQuery(e), pool).None? ==> g.image == None)
  {
    LastSegmentAfterSlash(e.folder, e.file);
  }

  /** The intended record differs from the script's only in the image of an
      entry with a folder icon, which lacks the script's leading "games/". */
  lemma IntendedGameOfDiffers(e: GameEntry, pool: seq<string>)
    ensures var g, h := GameOf(e, pool), IntendedGameOf(e, pool);
      && h.file == g.file && h.name == g.name
      && (e.icon.None? ==> h.image == g.image)
      && (e.icon.Some? ==> h.image == e.icon && g.image == Some("games/" + h.image.value))
  {
  }

  /** The shown name keeps the letters and digits, in order and up to case,
      of the folder (default page) or of the page's base name (other pages). */
  lemma GameNameKey(e: GameEntry, pool: seq<string>)
    requires '/' !in e.file && '/' !in e.folder && e.path == e.folder + "/" + e.file
    ensures Slug(GameOf(e, pool).name) ==
      Slug(if Lower(e.file) == "index.html" then e.folder else BaseName(e.file))
  {
    GameOfEntry(e, pool);
    if Lower(e.file) == "index.html" {
      DisplayNameKeepsSlug(e.folder);
    } else {
      DisplayNameKeepsSlug(e.path);
      assert e.path[|e.folder|] == '/';
      LastSegmentAfterSlash(e.folder, e.file);
      assert LastSegment(e.file) == e.file;
      BaseNameOfSegment(e.path);
    }
  }

  /** Record by record, the intended list differs from the script's only in
      the images taken from folder icons. */
  lemma IntendedGamesDiffer(es: seq<GameEntry>, pool: seq<string>)
    ensures |IntendedGames(es, pool)| == |Games(es, pool)|
    ensures forall i | 0 <= i < |es| ::
      var g, h := Games(es, pool)[i], IntendedGames(es, pool)[i];
      && h.file == g.file && h.name == g.name
      && (es[i].icon.None? ==> h.image == g.image)
      && (es[i].icon.Some? ==> h.image == es[i].icon && g.image == Some("games/" + h.image.value))
  {
    forall i | 0 <= i < |es| ensures
      var g, h := Games(es, pool)[i], IntendedGames(es, pool)[i];
      && h.file == g.file && h.name == g.name
      && (es[i].icon.None? ==> h.image == g.image)
      && (es[i].icon.Some? ==> h.image == es[i].icon && g.image == Some("games/" + h.image.value))
    {
      IntendedGameOfDiffers(es[i], pool);
    }
  }

  // ---------------------------------------------------------------------------
  // Where an icon path leads

  /** `q` leads from a listing, through directories, to a file. */
  predicate FileAt(entries: seq<Node>, q: seq<string>)
    decreases |q|
  {
    && |q| >= 1
    && exists i | 0 <= i < |entries| ::
      if |q| == 1 then entries[i].File? && entries[i].name == q[0]
      else entries[i].Folder? && entries[i].name == q[0] && FileAt(entries[i].children, q[1..])
  }

  /** No name anywhere in the tree holds a '/', as in every real listing. */
  predicate PlainTree(entries: seq<Node>)
    decreases entries
  {
    forall i | 0 <= i < |entries| ::
      '/' !in entries[i].name && (entries[i].Folder? ==> PlainTree(entries[i].children))
  }

  /** The project root as far as icons are concerned: the games directory,
      holding one directory per game folder. */
  function ProjectTree(folders: seq<GameFolder>): seq<Node> {
    [Folder("games", seq(|folders|, i requires 0 <= i < |folders| => Folder(folders[i].name, folders[i].entries)))]
  }

  lemma {:induction false} IconPathIsFile(isIcon: string -> bool, entries: seq<Node>, q: seq<string>)
    requires IconPathIn(isIcon, entries, q) && PlainTree(entries)
    ensures FileAt(entries, q)
    ensures forall k | 0 <= k < |q| :: '/' !in q[k]
    decreases |q|
  {
    var i :| 0 <= i < |entries| &&
      if |q| == 1 then IsIconFile(isIcon, entries[i]) && entries[i].name == q[0]
      else IsVisibleFolder(entries[i]) && entries[i].name == q[0] && IconPathIn(isIcon, entries[i].children, q[1..]);
    if |q| > 1 {
      IconPathIsFile(isIcon, entries[i].children, q[1..]);
      forall k | 0 <= k < |q| ensures '/' !in q[k] {
        if k > 0 { assert q[k] == q[1..][k - 1]; }
      }
    }
  }

  /** The path of an icon found in folder `k`. */
  lemma FolderIconResolves(isIcon: string -> bool, folders: seq<GameFolder>, k: nat, q: seq<string>)
    requires k < |folders| && '/' !in folders[k].name && PlainTree(folders[k].entries)
    requires IconPathIn(isIcon, folders[k].entries, q)
    ensures FileAt(ProjectTree(folders), SplitOn(Join(["games", folders[k].name] + q, "/"), '/'))
  {
    var d := folders[k];
    IconPathIsFile(isIcon, d.entries, q);
    var segs := ["games", d.name] + q;
    forall j | 0 <= j < |segs| ensures '/' !in segs[j] {
      if j >= 2 { assert segs[j] == q[j - 2]; }
    }
    SplitJoin(segs, '/');
    var root := ProjectTree(folders);
    var games := root[0].children;
    assert games[k] == Folder(d.name, d.entries);
    assert segs[1..][1..] == q;
    assert FileAt(games, segs[1..]);
    assert FileAt(root, segs);
  }

  /** The same path with a second "games" in front. */
  lemma FolderIconDoubledMisses(isIcon: string -> bool, folders: seq<GameFolder>, k: nat, q: seq<string>)
    requires k < |folders| && '/' !in folders[k].name && PlainTree(folders[k].entries)
    requires IconPathIn(isIcon, folders[k].entries, q)
    requires forall j | 0 <= j < |folders| :: folders[j].name != "games"
    ensures !FileAt(ProjectTree(folders), SplitOn("games/" + Join(["games", folders[k].name] + q, "/"), '/'))
  {
    var d := folders[k];
    IconPathIsFile(isIcon, d.entries, q);
    var segs := ["games", "games", d.name] + q;
    assert Join(segs, "/") == "games/" + Join(["games", d.name] + q, "/") by {
      assert segs[1..] == ["games", d.name] + q;
    }
    forall j | 0 <= j < |segs| ensures '/' !in segs[j] {
      if j >= 3 { assert segs[j] == q[j - 3]; }
    }
    SplitJoin(segs, '/');
    var root := ProjectTree(folders);
    var games := root[0].children;
    assert forall i | 0 <= i < |games| :: games[i].name == folders[i].name;
    assert !FileAt(games, segs[1..]);
  }

  /** The icon of an entry, read as a path from the project root, leads to a
      file of the folder's tree. */
  lemma IconResolves(folders: seq<GameFolder>, k: nat, pool: seq<string>)
    requires k < |folders| && '/' !in folders[k].name && PlainTree(folders[k].entries)
    requires EntryOf(folders[k]).Some? && EntryOf(folders[k]).value.icon.Some?
    ensures EntryOf(folders[k]).value.icon == IntendedGameOf(EntryOf(folders[k]).value, pool).image
    ensures FileAt(ProjectTree(folders), SplitOn(IntendedGameOf(EntryOf(folders[k]).value, pool).image.value, '/'))
  {
    var d := folders[k];
    EntryOfIcon(d);
    var e := EntryOf(d).value;
    var q :| IconPathIn(IsIconName, d.entries, q) && e.icon.value == Join(["games", d.name] + q, "/");
    IntendedGameOfDiffers(e, pool);
    FolderIconResolves(IsIconName, folders, k, q);
  }

  /** The same icon with "games/" in front, as the script writes it, leads
      nowhere unless some game folder is itself called "games". */
  lemma IconAsWrittenMisses(folders: seq<GameFolder>, k: nat, pool: seq<string>)
    requires k < |folders| && '/' !in folders[k].name && PlainTree(folders[k].entries)
    requires EntryOf(folders[k]).Some? && EntryOf(folders[k]).value.icon.Some?
    requires forall j | 0 <= j < |folders| :: folders[j].name != "games"
    ensures var image := GameOf(EntryOf(folders[k]).value, pool).image;
      image.Some? && !FileAt(ProjectTree(folders), SplitOn(image.value, '/'))
  {
    var d := folders[k];
    EntryOfIcon(d);
    var e := EntryOf(d).value;
    var q :| IconPathIn(IsIconName, d.entries, q) && e.icon.value == Join(["games", d.name] + q, "/");
    IntendedGameOfDiffers(e, pool);
    FolderIconDoubledMisses(IsIconName, folders, k, q);
  }
}
