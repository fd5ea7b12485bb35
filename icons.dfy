/** `findIconInDir(dirPath, baseDir)`: the per-game icon, looked for first among
    the files of a directory and then, depth first and in listing order, inside
    its subdirectories whose names do not start with '.'. */
module Icons {
  import opened Basics
  import opened Text
  import opened Paths

  /** An entry of a directory listing: a file, or a directory with its own
      listing. Listings keep the order in which the directory is read. */
  datatype Node = File(name: string) | Folder(name: string, children: seq<Node>)

  const IconExts: seq<string> := [".png", ".jpg", ".jpeg", ".gif", ".webp", ".avif", ".ico"]

  /** The test applied to a file name: its extension, lower-cased, is one of
      `IconExts`, and the name with that lower-cased extension removed is
      "icon" up to case. */
  predicate IsIconName(n: string) {
    var ext := Lower(ExtName(n));
    Lower(BaseNameWith(n, ext)) == "icon" && ext in IconExts
  }

  predicate IsIconFile(isIcon: string -> bool, e: Node) { e.File? && isIcon(e.name) }

  /** A subdirectory the search descends into. */
  predicate IsVisibleFolder(e: Node) { e.Folder? && !StartsWith(e.name, ".") }

  // ---------------------------------------------------------------------------
  // The search, as functions. A found icon is the sequence of path segments
  // from the directory the search is relative to down to the file; `at` holds
  // the segments leading to the directory being listed.

  /** The search with a given file test. */
  function Search(isIcon: string -> bool, entries: seq<Node>, at: seq<string>): Option<seq<string>>
    decreases entries, 2
  {
    FilesFrom(isIcon, entries, at, 0)
  }

  /** The search with the icon test. */
  function IconSearch(entries: seq<Node>, at: seq<string>): Option<seq<string>> {
    Search(IsIconName, entries, at)
  }

  /** The first loop, from position `i`: the first icon file answers; past the
      end, the second loop begins. */
  function FilesFrom(isIcon: string -> bool, entries: seq<Node>, at: seq<string>, i: nat): Option<seq<string>>
    requires i <= |entries|
    decreases entries, 1, |entries| - i
  {
    if i == |entries| then DirsFrom(isIcon, entries, at, 0)
    else if IsIconFile(isIcon, entries[i]) then Some(at + [entries[i].name])
    else FilesFrom(isIcon, entries, at, i + 1)
  }

  /** The second loop, from position `i`: the first visible subdirectory whose
      search finds something answers. */
  function DirsFrom(isIcon: string -> bool, entries: seq<Node>, at: seq<string>, i: nat): Option<seq<string>>
    requires i <= |entries|
    decreases entries, 0, |entries| - i
  {
    if i == |entries| then None
    else if IsVisibleFolder(entries[i]) then
      match Search(isIcon, entries[i].children, at + [entries[i].name])
      case Some(p) => Some(p)
      case None => DirsFrom(isIcon, entries, at, i + 1)
    else DirsFrom(isIcon, entries, at, i + 1)
  }

  method FindIconInDir(entries: seq<Node>, at: seq<string>) returns (found: Option<seq<string>>)
    ensures found == IconSearch(entries, at)
    decreases entries
  {
    for i := 0 to |entries|
      invariant FilesFrom(IsIconName, entries, at, i) == IconSearch(entries, at)
    {
      var e := entries[i];
      if e.File? {
        var ext := Lower(ExtName(e.name));
        var base := Lower(BaseNameWith(e.name, ext));
        if base == "icon" && ext in IconExts {
          return Some(at + [e.name]);
        }
      }
    }
    for i := 0 to |entries|
      invariant DirsFrom(IsIconName, entries, at, i) == IconSearch(entries, at)
    {
      var e := entries[i];
      if e.Folder? && !StartsWith(e.name, ".") {
        var sub := FindIconInDir(e.children, at + [e.name]);
        if sub.Some? {
          return sub;
        }
      }
    }
    return None;
  }

  // ---------------------------------------------------------------------------
  // What the search means

  /** Some icon file lies in the listing or, at any depth, below one of its
      visible subdirectories. Hidden subdirectories do not count. */
  predicate HasIcon(isIcon: string -> bool, entries: seq<Node>)
    decreases entries
  {
    exists i | 0 <= i < |entries| ::
      IsIconFile(isIcon, entries[i]) || (IsVisibleFolder(entries[i]) && HasIcon(isIcon, entries[i].children))
  }

  /** `q` names an icon file reachable from the listing through visible
      subdirectories only. */
  predicate IconPathIn(isIcon: string -> bool, entries: seq<Node>, q: seq<string>)
    decreases |q|
  {
    && |q| >= 1
    && exists i | 0 <= i < |entries| ::
      if |q| == 1 then IsIconFile(isIcon, entries[i]) && entries[i].name == q[0]
      else IsVisibleFolder(entries[i]) && entries[i].name == q[0] && IconPathIn(isIcon, entries[i].children, q[1..])
  }

  /** `p` extends `at` by a path to an icon file of the listing. */
  predicate FoundIn(isIcon: string -> bool, entries: seq<Node>, at: seq<string>, p: seq<string>) {
    |at| < |p| && p[..|at|] == at && IconPathIn(isIcon, entries, p[|at|..])
  }

  /** The search answers with a real icon reached through visible directories,
      and it answers nothing exactly when the visible tree holds no icon. */
  lemma {:induction false} SearchCorrect(isIcon: string -> bool, entries: seq<Node>, at: seq<string>)
    ensures var r := Search(isIcon, entries, at);
      && (r.Some? ==> FoundIn(isIcon, entries, at, r.value))
      && (r.None? <==> !HasIcon(isIcon, entries))
    decreases entries, 2
  {
    FilesFromCorrect(isIcon, entries, at, 0);
  }

  lemma {:induction false} FilesFromCorrect(isIcon: string -> bool, entries: seq<Node>, at: seq<string>, i: nat)
    requires i <= |entries|
    requires forall j :: 0 <= j < i ==> !IsIconFile(isIcon, entries[j])
    ensures var r := FilesFrom(isIcon, entries, at, i);
      && (r.Some? ==> FoundIn(isIcon, entries, at, r.value))
      && (r.None? <==> !HasIcon(isIcon, entries))
    decreases entries, 1, |entries| - i
  {
    if i == |entries| {
      DirsFromCorrect(isIcon, entries, at, 0);
    } else if IsIconFile(isIcon, entries[i]) {
      var p := at + [entries[i].name];
      assert p[..|at|] == at && p[|at|..] == [entries[i].name];
      assert IconPathIn(isIcon, entries, [entries[i].name]);
    } else {
      FilesFromCorrect(isIcon, entries, at, i + 1);
    }
  }

  lemma {:induction false} DirsFromCorrect(isIcon: string -> bool, entries: seq<Node>, at: seq<string>, i: nat)
    requires i <= |entries|
    requires forall j :: 0 <= j < |entries| ==> !IsIconFile(isIcon, entries[j])
    requires forall j :: 0 <= j < i ==> !(IsVisibleFolder(entries[j]) && HasIcon(isIcon, entries[j].children))
    ensures var r := DirsFrom(isIcon, entries, at, i);
      && (r.Some? ==> FoundIn(isIcon, entries, at, r.value))
      && (r.None? <==> !HasIcon(isIcon, entries))
    decreases entries, 0, |entries| - i
  {
    if i < |entries| {
      if IsVisibleFolder(entries[i]) {
        var e := entries[i];
        var at' := at + [e.name];
        SearchCorrect(isIcon, e.children, at');
        match Search(isIcon, e.children, at')
        case Some(p) =>
          DescendFound(isIcon, entries, at, i, p);
          assert HasIcon(isIcon, entries);
        case None =>
          DirsFromCorrect(isIcon, entries, at, i + 1);
      } else {
        DirsFromCorrect(isIcon, entries, at, i + 1);
      }
    }
  }

  /** A path found below subdirectory `i` is a path of the listing. */
  lemma DescendFound(isIcon: string -> bool, entries: seq<Node>, at: seq<string>, i: nat, p: seq<string>)
    requires i < |entries| && IsVisibleFolder(entries[i])
    requires FoundIn(isIcon, entries[i].children, at + [entries[i].name], p)
    ensures FoundIn(isIcon, entries, at, p)
  {
    var e := entries[i];
    var q := p[|at|..];
    assert p[..|at| + 1] == at + [e.name];
    assert p[..|at|] == (at + [e.name])[..|at|] == at;
    assert q[0] == p[|at|] == e.name;
    assert q[1..] == p[|at| + 1..];
    assert IsVisibleFolder(entries[i]) && entries[i].name == q[0] && IconPathIn(isIcon, entries[i].children, q[1..]);
  }

  /** A matching file directly in the listing wins: the first one in listing
      order is the answer, and no subdirectory is looked at. */
  lemma {:induction false} SearchTopLevelFirst(isIcon: string -> bool, entries: seq<Node>, at: seq<string>, i: nat)
    requires i < |entries| && IsIconFile(isIcon, entries[i])
    requires forall j :: 0 <= j < i ==> !IsIconFile(isIcon, entries[j])
    ensures Search(isIcon, entries, at) == Some(at + [entries[i].name])
  {
    FilesFromSkip(isIcon, entries, at, 0, i);
  }

  lemma {:induction false} FilesFromSkip(isIcon: string -> bool, entries: seq<Node>, at: seq<string>, k: nat, i: nat)
    requires k <= i <= |entries|
    requires forall j :: k <= j < i ==> !IsIconFile(isIcon, entries[j])
    ensures FilesFrom(isIcon, entries, at, k) == FilesFrom(isIcon, entries, at, i)
    decreases i - k
  {
    if k < i {
      FilesFromSkip(isIcon, entries, at, k + 1, i);
    }
  }

  lemma {:induction false} DirsFromSkip(isIcon: string -> bool, entries: seq<Node>, at: seq<string>, k: nat, i: nat)
    requires k <= i <= |entries|
    requires forall j :: k <= j < i ==> !(IsVisibleFolder(entries[j]) && HasIcon(isIcon, entries[j].children))
    ensures DirsFrom(isIcon, entries, at, k) == DirsFrom(isIcon, entries, at, i)
    decreases i - k
  {
    if k < i {
      if IsVisibleFolder(entries[k]) {
        SearchCorrect(isIcon, entries[k].children, at + [entries[k].name]);
      }
      DirsFromSkip(isIcon, entries, at, k + 1, i);
    }
  }

  /** Without a matching file in the listing, the answer is that of the first
      visible subdirectory, in listing order, whose tree holds an icon. */
  lemma SearchDescends(isIcon: string -> bool, entries: seq<Node>, at: seq<string>, i: nat)
    requires forall j :: 0 <= j < |entries| ==> !IsIconFile(isIcon, entries[j])
    requires i < |entries| && IsVisibleFolder(entries[i]) && HasIcon(isIcon, entries[i].children)
    requires forall j :: 0 <= j < i ==> !(IsVisibleFolder(entries[j]) && HasIcon(isIcon, entries[j].children))
    ensures Search(isIcon, entries, at) == Search(isIcon, entries[i].children, at + [entries[i].name])
  {
    FilesFromSkip(isIcon, entries, at, 0, |entries|);
    DirsFromSkip(isIcon, entries, at, 0, i);
    SearchCorrect(isIcon, entries[i].children, at + [entries[i].name]);
  }

  /** Every segment before the last of a found path names a visible directory,
      so nothing below a directory whose name starts with '.' is ever returned;
      the last segment passes the icon test. */
  lemma {:induction false} IconPathShape(isIcon: string -> bool, entries: seq<Node>, q: seq<string>)
    requires IconPathIn(isIcon, entries, q)
    ensures forall k :: 0 <= k < |q| - 1 ==> !StartsWith(q[k], ".")
    ensures isIcon(q[|q| - 1])
    decreases |q|
  {
    var i :| 0 <= i < |entries| &&
      if |q| == 1 then IsIconFile(isIcon, entries[i]) && entries[i].name == q[0]
      else IsVisibleFolder(entries[i]) && entries[i].name == q[0] && IconPathIn(isIcon, entries[i].children, q[1..]);
    if |q| > 1 {
      IconPathShape(isIcon, entries[i].children, q[1..]);
      forall k | 0 <= k < |q| - 1 ensures !StartsWith(q[k], ".") {
        if k > 0 {
          assert q[k] == q[1..][k - 1];
        }
      }
      assert q[|q| - 1] == q[1..][|q| - 2];
    }
  }

  // ---------------------------------------------------------------------------
  // The icon test

  lemma IconExtsAreLower(e: string)
    requires e in IconExts
    ensures Lower(e) == e && |e| >= 4 && e[0] == '.'
  {
  }

  /** Only an extension already in lower case can pass: a lower-cased
      extension that differs from the name's own is not a suffix of the name,
      so nothing is removed and the '.' keeps the name from being "icon". */
  lemma IconNameExtIsExact(n: string)
    requires IsIconName(n)
    ensures ExtName(n) in IconExts
  {
    var ext := ExtName(n);
    if ext !in IconExts {
      IconExtsAreLower(Lower(ext));
      assert false;
    }
  }

  /** A name passes the icon test exactly when its extension is one of
      `IconExts` as written, in lower case, and its base name is "icon" in any
      case. The extension is not matched up to case: the lower-cased extension
      is removed from the name as a case-sensitive suffix. */
  lemma IsIconNameExactly(n: string)
    ensures IsIconName(n) <==> ExtName(n) in IconExts && Lower(BaseName(n)) == "icon"
  {
    var ext := ExtName(n);
    if IsIconName(n) {
      IconNameExtIsExact(n);
    }
    if ext in IconExts {
      IconExtsAreLower(ext);
      assert BaseName(n) == BaseNameWith(n, ext) by {
        assert |ext| <= |n|;
      }
    }
  }

  // ---------------------------------------------------------------------------
  // The search with the icon test. A found icon path starts with the segments
  // `at`, passes only through directories whose names do not start with '.',
  // and ends with a name whose extension is one of `IconExts` and whose base
  // name is "icon" up to case.

  /** A found path, read from `at` on. */
  lemma FoundShape(isIcon: string -> bool, entries: seq<Node>, at: seq<string>, p: seq<string>)
    requires FoundIn(isIcon, entries, at, p)
    ensures forall k :: |at| <= k < |p| - 1 ==> !StartsWith(p[k], ".")
    ensures isIcon(p[|p| - 1])
  {
    var q := p[|at|..];
    IconPathShape(isIcon, entries, q);
    forall k | |at| <= k < |p| - 1 ensures !StartsWith(p[k], ".") {
      assert p[k] == q[k - |at|];
    }
    assert p[|p| - 1] == q[|q| - 1];
  }

  /** For a plain name `stem + ext`: the stem is compared up to case, so
      "ICON.png" or "Icon.gif" is an icon. */
  lemma IconStemAnyCase(stem: string, ext: string)
    requires stem != [] && '.' !in stem && '/' !in stem
    requires ext in IconExts
    requires Lower(stem) == "icon"
    ensures IsIconName(stem + ext)
  {
    IconExtsAreLower(ext);
    assert '.' !in ext[1..] && '/' !in ext by {
      assert ext == ".png" || ext == ".jpg" || ext == ".jpeg" || ext == ".gif" || ext == ".webp" || ext == ".avif" || ext == ".ico";
    }
    NameParts(stem, ext);
    IsIconNameExactly(stem + ext);
  }

  /** For a plain name `stem + ext`: an extension that is not entirely lower
      case never passes, so "icon.PNG" is not an icon. */
  lemma NonLowerExtensionMisses(stem: string, ext: string)
    requires stem != [] && '.' !in stem && '/' !in stem
    requires ext != [] && ext[0] == '.' && '.' !in ext[1..] && '/' !in ext
    requires Lower(ext) != ext
    ensures !IsIconName(stem + ext)
  {
    NameParts(stem, ext);
    if IsIconName(stem + ext) {
      IconNameExtIsExact(stem + ext);
      IconExtsAreLower(ext);
    }
  }

  lemma UpperCaseStemMatches()
    ensures IsIconName("ICON.png")
  {
    assert "ICON.png" == "ICON" + ".png";
    assert Lower("ICON") == "icon";
    IconStemAnyCase("ICON", ".png");
  }

  lemma UpperCaseExtensionMisses()
    ensures !IsIconName("icon.PNG")
  {
    assert "icon.PNG" == "icon" + ".PNG";
    assert Lower(".PNG")[1] == 'p';
    NonLowerExtensionMisses("icon", ".PNG");
  }

  // ---------------------------------------------------------------------------
  // The icon test as line 19's lower-casing of the extension means it

  /** The extension matches up to case and is removed as it stands, so the
      name is an icon when its base name is "icon" and its extension is one of
      `IconExts`, both up to case. */
  predicate IntendedIsIconName(n: string) {
    var ext := ExtName(n);
    Lower(BaseNameWith(n, ext)) == "icon" && Lower(ext) in IconExts
  }

  /** The search with the intended icon test. */
  function IntendedIconSearch(entries: seq<Node>, at: seq<string>): Option<seq<string>> {
    Search(IntendedIsIconName, entries, at)
  }

  /** The intended test asks for the base name and the extension up to case. */
  lemma IntendedIsIconNameAnyCase(n: string)
    ensures IntendedIsIconName(n) <==> Lower(ExtName(n)) in IconExts && Lower(BaseName(n)) == "icon"
  {
    var ext := ExtName(n);
    if ext != [] {
      assert |ext| <= |n|;
    }
    assert BaseName(n) == BaseNameWith(n, ext);
  }

  /** The two tests differ exactly on a name whose extension is listed up to
      case but is not in lower case: the script's test is the intended one
      restricted to lower-case extensions. */
  lemma IntendedIconNameDiffers(n: string)
    ensures IsIconName(n) <==> IntendedIsIconName(n) && Lower(ExtName(n)) == ExtName(n)
  {
    if IsIconName(n) {
      IconNameExtIsExact(n);
      IconExtsAreLower(ExtName(n));
    }
  }

  /** A directory whose only file is "icon.PNG": the script finds no icon, the
      intended test finds that file. */
  lemma UpperCaseIconFileMissed(at: seq<string>)
    ensures IconSearch([File("icon.PNG")], at) == None
    ensures IntendedIconSearch([File("icon.PNG")], at) == Some(at + ["icon.PNG"])
  {
    var es, n := [File("icon.PNG")], "icon.PNG";
    IntendedUpperCaseExtensionMatches();
    UpperCaseExtensionMisses();
    assert DirsFrom(IsIconName, es, at, 0) == None by {
      assert !IsVisibleFolder(es[0]);
      assert DirsFrom(IsIconName, es, at, 1) == None;
    }
    assert FilesFrom(IsIconName, es, at, 0) == FilesFrom(IsIconName, es, at, 1);
    assert FilesFrom(IntendedIsIconName, es, at, 0) == Some(at + [n]);
  }

  /** For a plain name `stem + ext`: the intended test takes both parts up to
      case. */
  lemma IntendedAnyCase(stem: string, ext: string)
    requires stem != [] && '.' !in stem && '/' !in stem
    requires ext != [] && ext[0] == '.' && '.' !in ext[1..] && '/' !in ext
    requires Lower(ext) in IconExts && Lower(stem) == "icon"
    ensures IntendedIsIconName(stem + ext)
  {
    NameParts(stem, ext);
    IntendedIsIconNameAnyCase(stem + ext);
  }

  lemma IntendedUpperCaseExtensionMatches()
    ensures IntendedIsIconName("icon.PNG")
  {
    assert "icon.PNG" == "icon" + ".PNG";
    assert Lower(".PNG") == IconExts[0];
    assert Lower("icon") == "icon";
    IntendedAnyCase("icon", ".PNG");
  }
}
