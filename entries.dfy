/** The loop that turns the sorted game folders into entries: each folder with
    at least one `.html` name yields its chosen page, the page's path and the
    folder's icon, if any. */
module Entries {
  import opened Basics
  import opened Text
  import opened Icons

  /** A folder of the games directory with its listing. */
  datatype GameFolder = GameFolder(name: string, entries: seq<Node>)

  /** `{ folder, file, path, icon }`; the icon is a path relative to the
      project root. */
  datatype GameEntry = GameEntry(folder: string, file: string, path: string, icon: Option<string>)

  predicate IsHtmlName(f: string) { EndsWith(f, ".html") }

  /** The names of the listing that end in ".html", files and directories
      alike, in listing order. */
  function HtmlFiles(entries: seq<Node>): (r: seq<string>)
    ensures forall f :: f in r <==> exists i | 0 <= i < |entries| :: entries[i].name == f && IsHtmlName(f)
  {
    if entries == [] then []
    else
      var rest := HtmlFiles(entries[1..]);
      assert forall i | 1 <= i < |entries| :: entries[i] == entries[1..][i - 1];
      if IsHtmlName(entries[0].name) then [entries[0].name] + rest else rest
  }

  /** The names keep the listing's order: the names of two listings one after
      the other are the first one's followed by the second one's, and a single
      entry contributes its name exactly when it ends in ".html". */
  lemma {:induction false} HtmlFilesConcat(a: seq<Node>, b: seq<Node>)
    ensures HtmlFiles(a + b) == HtmlFiles(a) + HtmlFiles(b)
    decreases |a|
  {
    if a == [] {
      assert a + b == b;
    } else {
      assert (a + b)[0] == a[0] && (a + b)[1..] == a[1..] + b;
      HtmlFilesConcat(a[1..], b);
      var h := if IsHtmlName(a[0].name) then [a[0].name] else [];
      assert h + (HtmlFiles(a[1..]) + HtmlFiles(b)) == (h + HtmlFiles(a[1..])) + HtmlFiles(b);
    }
  }

  lemma HtmlFilesOne(n: Node)
    ensures HtmlFiles([n]) == if IsHtmlName(n.name) then [n.name] else []
  {
    assert [n][1..] == [];
  }

  /** There is no ".html" name exactly when no name of the listing ends in
      ".html", and the first one is the name of the first entry that does. */
  lemma {:induction false} HtmlFilesFirst(entries: seq<Node>)
    ensures var r := HtmlFiles(entries);
      && (r == [] <==> forall i | 0 <= i < |entries| :: !IsHtmlName(entries[i].name))
      && (r != [] ==> exists i | 0 <= i < |entries| ::
            && entries[i].name == r[0] && IsHtmlName(r[0])
            && forall j | 0 <= j < i :: !IsHtmlName(entries[j].name))
  {
    if entries != [] && !IsHtmlName(entries[0].name) {
      var tail := entries[1..];
      HtmlFilesFirst(tail);
      var r := HtmlFiles(entries);
      assert r == HtmlFiles(tail);
      assert forall i | 1 <= i < |entries| :: entries[i] == tail[i - 1];
      if r != [] {
        var i :| 0 <= i < |tail| && tail[i].name == r[0] && IsHtmlName(r[0])
          && forall j | 0 <= j < i :: !IsHtmlName(tail[j].name);
        assert entries[i + 1] == tail[i];
        assert forall j | 0 <= j < i + 1 :: !IsHtmlName(entries[j].name) by {
          forall j | 0 <= j < i + 1 ensures !IsHtmlName(entries[j].name) {
            if j > 0 { assert entries[j] == tail[j - 1]; }
          }
        }
      }
    }
  }

  predicate LowerIs(target: string, f: string) { Lower(f) == target }

  /** `files.find(f => f.toLowerCase() === 'index.html') || files[0]`. The loop
      calls it only with at least one name. */
  function ChooseHtml(files: seq<string>): (f: string)
    requires files != []
    ensures f in files
    ensures (exists i | 0 <= i < |files| :: Lower(files[i]) == "index.html") ==>
      exists i | 0 <= i < |files| ::
        && files[i] == f && Lower(f) == "index.html"
        && forall j | 0 <= j < i :: Lower(files[j]) != "index.html"
    ensures (forall i | 0 <= i < |files| :: Lower(files[i]) != "index.html") ==> f == files[0]
  {
    match FirstWhere(files, "index.html", LowerIs)
    case Some(i) => files[i]
    case None => files[0]
  }

  /** The segments leading from the project root to a game folder. */
  function FolderSegments(folder: string): seq<string> {
    ["games", folder]
  }

  /** A found icon as a path string: its segments joined by '/'. */
  function IconPath(found: Option<seq<string>>): Option<string> {
    match found
    case None => None
    case Some(segs) => Some(Join(segs, "/"))
  }

  /** The entry of one folder, or none when it has no `.html` name. */
  function EntryOf(d: GameFolder): Option<GameEntry> {
    var files := HtmlFiles(d.entries);
    if files == [] then None
    else
      var f := ChooseHtml(files);
      Some(GameEntry(d.name, f, d.name + "/" + f, IconPath(IconSearch(d.entries, FolderSegments(d.name)))))
  }

  function EntriesOf(o: Option<GameEntry>): seq<GameEntry> {
    match o
    case None => []
    case Some(e) => [e]
  }

  /** The entries of a sequence of folders, in order. */
  function Entries(ds: seq<GameFolder>): (es: seq<GameEntry>)
    ensures |es| <= |ds|
  {
    if ds == [] then [] else Entries(ds[..|ds| - 1]) + EntriesOf(EntryOf(ds[|ds| - 1]))
  }

  /** The loop of the script, pushing one entry per folder that has a page. */
  method BuildEntries(folders: seq<GameFolder>) returns (gameEntries: seq<GameEntry>)
    ensures gameEntries == Entries(folders)
  {
    gameEntries := [];
    for k := 0 to |folders|
      invariant gameEntries == Entries(folders[..k])
    {
      assert folders[..k + 1][..k] == folders[..k];
      var dir := folders[k];
      var files := HtmlFiles(dir.entries);
      if |files| == 0 {
        continue;
      }
      var htmlFile := ChooseHtml(files);
      var found := FindIconInDir(dir.entries, FolderSegments(dir.name));
      var iconPath := IconPath(found);
      gameEntries := gameEntries + [GameEntry(dir.name, htmlFile, dir.name + "/" + htmlFile, iconPath)];
    }
    assert folders[..|folders|] == folders;
  }

  // ---------------------------------------------------------------------------
  // What the entries are

  /** Folders contribute independently, in their order. */
  lemma {:induction false} EntriesConcat(a: seq<GameFolder>, b: seq<GameFolder>)
    ensures Entries(a + b) == Entries(a) + Entries(b)
    decreases |b|
  {
    if b == [] {
      assert a + b == a;
    } else {
      var b' := b[..|b| - 1];
      assert (a + b)[..|a + b| - 1] == a + b';
      assert (a + b)[|a + b| - 1] == b[|b| - 1];
      EntriesConcat(a, b');
    }
  }

  /** Every entry comes from one of the folders, so there are never more
      entries than folders; and every folder that has a page contributes
      its entry. */
  lemma {:induction false} EntriesFromFolders(ds: seq<GameFolder>)
    ensures |Entries(ds)| <= |ds|
    ensures forall e :: e in Entries(ds) ==> exists d :: d in ds && EntryOf(d) == Some(e)
    ensures forall d :: d in ds && EntryOf(d).Some? ==> EntryOf(d).value in Entries(ds)
  {
    if ds != [] {
      var init, last := ds[..|ds| - 1], ds[|ds| - 1];
      EntriesFromFolders(init);
      assert Entries(ds) == Entries(init) + EntriesOf(EntryOf(last));
      forall e | e in Entries(ds) ensures exists d :: d in ds && EntryOf(d) == Some(e) {
        if e in Entries(init) {
          var d :| d in init && EntryOf(d) == Some(e);
          assert d in ds;
        } else {
          assert e in EntriesOf(EntryOf(last));
          assert last in ds;
        }
      }
      FolderEntryListed(init, last);
    }
  }

  /** The step of the converse: a folder of `init + [last]` with a page has
      its entry listed, given that every such folder of `init` has. */
  lemma FolderEntryListed(init: seq<GameFolder>, last: GameFolder)
    requires forall d :: d in init && EntryOf(d).Some? ==> EntryOf(d).value in Entries(init)
    ensures forall d :: d in init + [last] && EntryOf(d).Some? ==> EntryOf(d).value in Entries(init + [last])
  {
    var ds := init + [last];
    assert ds[..|ds| - 1] == init;
    assert Entries(ds) == Entries(init) + EntriesOf(EntryOf(last));
  }

  /** A single folder gives its own entry, if any. */
  lemma EntriesOne(d: GameFolder)
    ensures Entries([d]) == EntriesOf(EntryOf(d))
  {
    assert [d][..0] == [];
  }

  /** One folder's entry: none exactly when no name of its listing ends in
      ".html"; otherwise the page is one of its ".html" names (the first name
      equal to "index.html" up to case, else the first ".html" name, as
      `ChooseHtml` states) and its path is the folder, '/', and the page. */
  lemma EntryOfPage(d: GameFolder)
    ensures var r := EntryOf(d);
      && (r.None? <==> forall i | 0 <= i < |d.entries| :: !IsHtmlName(d.entries[i].name))
      && (r.Some? ==>
            && r.value.folder == d.name
            && r.value.file in HtmlFiles(d.entries) && IsHtmlName(r.value.file)
            && r.value.path == d.name + "/" + r.value.file)
  {
    var files := HtmlFiles(d.entries);
    HtmlFilesFirst(d.entries);
    if files != [] {
      var f := ChooseHtml(files);
      assert EntryOf(d).value.file == f;
      var i :| 0 <= i < |d.entries| && d.entries[i].name == f && IsHtmlName(f);
    }
  }

  /** The icon of a folder's entry exists exactly when the folder's visible
      tree holds an icon, and is then a path under "games/<folder>/". */
  lemma EntryOfIcon(d: GameFolder)
    requires EntryOf(d).Some?
    ensures var icon := EntryOf(d).value.icon;
      && (icon.Some? <==> HasIcon(IsIconName, d.entries))
      && (icon.Some? ==>
            exists q :: IconPathIn(IsIconName, d.entries, q) && icon.value == Join(["games", d.name] + q, "/"))
  {
    var at := FolderSegments(d.name);
    EntryIconIsSearch(d);
    IconPathMeaning(IsIconName, d.entries, at);
  }

  lemma EntryIconIsSearch(d: GameFolder)
    requires EntryOf(d).Some?
    ensures EntryOf(d).value.icon == IconPath(Search(IsIconName, d.entries, FolderSegments(d.name)))
  {
  }

  /** A found icon, as a path string, is the start segments followed by the
      segments of an icon path of the tree. */
  lemma IconPathMeaning(isIcon: string -> bool, entries: seq<Node>, at: seq<string>)
    ensures var icon := IconPath(Search(isIcon, entries, at));
      && (icon.Some? <==> HasIcon(isIcon, entries))
      && (icon.Some? ==> exists q :: IconPathIn(isIcon, entries, q) && icon.value == Join(at + q, "/"))
  {
    var s := Search(isIcon, entries, at);
    SearchCorrect(isIcon, entries, at);
    if s.Some? {
      var p := s.value;
      var q := p[|at|..];
      assert p == at + q;
      assert IconPathIn(isIcon, entries, q);
    }
  }
}
