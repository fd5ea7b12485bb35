# build-menu: a verified model of the game-menu builder

`build-menu.js` rebuilds the game menu of a static web site. It reads the sorted list of game folders under `games/`. For each folder:

- It picks the folder's page: `index.html` if there is one, else the first `.html` name.
- It looks for a per-game icon, recursively, through the folder's visible sub-folders.
- It derives a display name from the folder or the page.
- It guesses a thumbnail from the shared `images/` pool.

It then renders the records as lines of a JavaScript object literal. Last, it splices them into the host page `index.html`, between the markers `    const GAMES = [` and `    ];`.

This project models that pipeline in Dafny and proves what each step promises.

The directory listings and the page text are inputs:

- A game folder is a name plus a tree of `File`/`Folder` nodes, kept in listing order.
- The image directory is a sequence of names.
- The page is a string.

The model is organised by step:

| file | module | models |
|---|---|---|
| text.dfy | `Basics`, `Text` | `Option`/`Result`, `Array.prototype.find` (`FirstWhere`), ASCII `toLowerCase`, `\s`, `startsWith`/`endsWith`/`includes`/`indexOf`, `join`; `SplitOn` is no part of the script and only splits a found icon path back into its segments |
| paths.dfy | `Paths` | posix `path.basename` and `path.extname` |
| slugs.dfy | `Slugs` | `slug` |
| display_names.dfy | `DisplayNames` | `displayName`, its substitution chain step by step |
| images.dfy | `Images` | the image pool and `findImage` with its three tiers |
| icons.dfy | `Icons` | `ICON_EXTS` and `findIconInDir`, as a loop-and-recursion method proved against a search function |
| entries.dfy | `Entries` | the loop that pushes one entry per game folder |
| games.dfy | `Games` | the `games` mapping and where its icon paths lead |
| render.dfy | `Render` | the `gamesJs` rendering and reading a rendered line back |
| splice.dfy | `Splice` | the marker splice |
| menu.dfy | `Menu` | the whole script from listings to rewritten page |

The imperative parts of the script are methods:

- `Icons.FindIconInDir`: two `for` loops with early returns, and a recursive call.
- `Entries.BuildEntries`: the loop with `continue` and `push`.
- `Menu.ReplaceBlock`: the reassignment of `html`.

Each is proved equal to a specification function, and the properties are proved about those functions.

Where the code departs from what it evidently intends, the model follows the code:

1. The icon stem is compared case-insensitively, but the extension only matches in lower case. Line 19 lower-cases the extension before `path.basename(e.name, ext)` strips it, and `basename` strips a suffix only on an exact match. So `icon.PNG` keeps its extension, and its stem is not `icon` (`Icons.IsIconNameExactly`, `Icons.UpperCaseExtensionMisses`). The test with the extension matched up to case is `Icons.IntendedIsIconName`. This is listed under Findings.
2. The image field of a game with a folder icon is written with `games/` in front of a path that already starts with `games/`. The records are modelled as written (`Games.GameOf`, and through it `Games.Games`, `Menu.MenuGames` and `Menu.BuildMenu`). The record with the icon path as found is `Games.IntendedGameOf`, as the comment on line 114 describes. This is listed under Findings.

## Model

| member | source | states |
|---|---|---|
| Basics.FirstWhere | build-menu.js:90 | `find`: the index of the first element passing the test; none exactly when no element passes |
| Text.IndexOf | build-menu.js:128-129 | `indexOf`: -1 exactly when the marker does not occur, else an occurrence with none before it |
| Paths.LastSegment | build-menu.js:110 | `path.basename(p)` holds no '/', and is the whole name when there is none |
| Paths.SegmentExt | build-menu.js:19 | `path.extname` of a segment: empty, or a suffix shorter than the segment that starts with its only '.'; non-empty exactly when the segment is not ".." and has a '.' after its first character |
| Paths.BaseNameWith | build-menu.js:20 | `path.basename(p, suffix)`: the suffix is removed from the last segment exactly when it is non-empty, is neither the whole path nor the whole segment, and ends the segment; the path equal to the suffix gives ""; otherwise the last segment |
| Paths.BaseName | build-menu.js:54-56 | `baseName`: the last segment is the base name followed by its extension; no '/' |
| Paths.NameParts | build-menu.js:54-56 | for a dot-free stem and a one-dot extension, the base name is the stem and the extension is the extension |
| Paths.BaseNameOfSegment | build-menu.js:110-113 | taking the base name of the last segment equals taking it of the path |
| Slugs.DropSpaces | build-menu.js:60 | `.replace(/\s+/g, '')` leaves no whitespace and never lengthens |
| Slugs.KeepSlugChars | build-menu.js:61 | `.replace(/[^a-z0-9]/g, '')` leaves only `a-z0-9` and never lengthens |
| Slugs.Slug | build-menu.js:57-62 | `slug` output holds only `a-z0-9` |
| Slugs.SlugConcat | build-menu.js:57-62 | the slug of a concatenation is the concatenation of the slugs |
| Slugs.SlugOfChar | build-menu.js:57-62 | one character's slug is its lower case when that is in `a-z0-9`, else empty |
| Slugs.SlugOfSlugChars | build-menu.js:57-62 | a string of `a-z0-9` is its own slug |
| Slugs.SlugIdempotent | build-menu.js:57-62 | `slug(slug(s)) == slug(s)` |
| Slugs.SlugIgnoresCase | build-menu.js:58-59 | lower-casing first does not change the slug |
| Slugs.SlugOfSeparators | build-menu.js:57-62 | a string with no character that lower-cases into `a-z0-9` has an empty slug |
| DisplayNames.RunLength | build-menu.js:69 | the length of the leading run of characters passing a test: all of them pass, the next one fails |
| DisplayNames.RunLengthAt | build-menu.js:69 | the leading run ends at the first position whose character fails the test, and nowhere else |
| DisplayNames.ReplaceRuns | build-menu.js:69 | `.replace(/[-_]+/g, ' ')` and `.replace(/\s+/g, ' ')`: every matched character left is a lone space, no character other than a space is new, a non-matching first character stays first; the result is fixed by `ReplaceRunsConcat`, `ReplaceRunsOne` and `ReplaceRunsRun` |
| DisplayNames.ReplaceRunsConcat | build-menu.js:69 | the replacement works piece by piece when the cut does not fall inside a run |
| DisplayNames.ReplaceRunsOne | build-menu.js:69 | a single matched character becomes a space; any other is kept |
| DisplayNames.ReplaceRunsRun | build-menu.js:69 | a whole run of matched characters, however long, becomes one space |
| DisplayNames.ReplaceRunsNone | build-menu.js:69 | a text with no matched character is unchanged |
| DisplayNames.DotsToSpaces | build-menu.js:66 | `.replace(/\./g, ' ')`: same length, every '.' is a space and every other character is kept in its place |
| DisplayNames.SplitCamel | build-menu.js:67 | `.replace(/([a-z])([A-Z])/g, '$1 $2')` leaves no lower-case letter followed by an upper-case one and keeps the first character; where the spaces go is fixed by `SplitCamelConcat` and `SplitCamelOne` |
| DisplayNames.SplitCamelConcat | build-menu.js:67 | two texts split on their own and joined with one space exactly when a lower-case letter meets an upper-case one at the cut, and with nothing otherwise |
| DisplayNames.SplitCamelOne | build-menu.js:67 | a single character is left as it is |
| DisplayNames.SplitCamelNoPair | build-menu.js:67 | a text with no lower-case letter followed by an upper-case one is unchanged |
| DisplayNames.PadNumbers | build-menu.js:68 | `.replace(/\b(\d+)\b/g, ' $1 ')` adds only spaces; the result is fixed by `PadNumbersLeadingRun`, `PadNumbersConcat` and `PadNumbersRun` |
| DisplayNames.PadNumbersNoDigits | build-menu.js:68 | a text without digits is unchanged |
| DisplayNames.PadNumbersLeadingRun | build-menu.js:68 | a maximal digit run at the front gets a space on each side exactly when no word character precedes it and none follows it; the rest is padded after a word character |
| DisplayNames.PadNumbersConcat | build-menu.js:68 | a text that does not end in a digit is padded on its own, and what follows it is padded as if its last character came before it |
| DisplayNames.PadNumbersRun | build-menu.js:68 | a maximal digit run anywhere in the text is padded exactly when no character of `[A-Za-z0-9_]` touches it on either side, and is left unchanged otherwise |
| DisplayNames.PadNumbersGlued | build-menu.js:68 | `Game2` stays `Game2`: a number glued to a word is not split off |
| DisplayNames.PadNumbersAfterDash | build-menu.js:68 | `a-2` becomes `a- 2 `: a number after a dash is a whole word |
| DisplayNames.TrimEnd | build-menu.js:70 | the trailing half of `trim`: a prefix, ending in a non-space, followed only by whitespace |
| DisplayNames.Trim | build-menu.js:70 | `trim` output starts and ends with a non-space and holds no new character |
| DisplayNames.SplitFrom | build-menu.js:71 | `.split(/\s+/)`, continued from a partly read word, gives at least one piece; where it breaks is fixed by `JoinSplitFrom` with `SplitFromWords`, and by `SplitSpacesAtRuns` |
| DisplayNames.JoinSplitFrom | build-menu.js:71 | the pieces joined by single spaces are the partly read word followed by the text with every whitespace run replaced by one space |
| DisplayNames.SplitFromWord | build-menu.js:71 | a word without whitespace is read into the current piece whole |
| DisplayNames.SplitFromSpace | build-menu.js:71 | a single space closes the current piece |
| DisplayNames.SplitFromJoin | build-menu.js:71 | splitting non-empty words joined by single spaces continues the current piece with the first word and gives the others back |
| DisplayNames.SplitJoinWords | build-menu.js:71-73 | `split(/\s+/)` undoes `join(' ')` on non-empty words without whitespace |
| DisplayNames.SplitSpacesAtRuns | build-menu.js:71 | a text without whitespace at its ends is split exactly at its whitespace runs: the pieces are the words that, joined by single spaces, give the text with each run replaced by one space |
| DisplayNames.SplitFromWords | build-menu.js:71 | `.split(/\s+/)` of a trimmed string gives non-empty words without whitespace, made of the input's characters |
| DisplayNames.TitleWords | build-menu.js:72 | one title-cased word per word |
| DisplayNames.TitleWordShape | build-menu.js:72 | a title-cased word starts with no lower-case letter and has no later upper-case letter |
| DisplayNames.JoinTitleWords | build-menu.js:73 | title words joined by spaces are well spaced, title-cased and free of `.`, `-` and `_` |
| DisplayNames.ReplaceRunsKeepsSingleSpaced | build-menu.js:74 | the closing `.replace(/\s+/g, ' ')` changes nothing on single-spaced text |
| DisplayNames.DisplayName | build-menu.js:63-75 | `displayName` as the chain of its steps, each fixed by the lemmas of its row; the whole is stated by `DisplayNameShape`, `DisplayNameEmpty` and `DisplayNameKeepsSlug`, and worked through by `DisplayNameOfDotted`, `DisplayNameOfCamel` and `DisplayNameOfNumber` |
| DisplayNames.DisplayNameShape | build-menu.js:63-75 | `displayName` output has no leading, trailing or doubled whitespace, only plain spaces, no `.`, `-` or `_`, and title-cased words |
| DisplayNames.DisplayNameEmpty | build-menu.js:63-75 | the empty name displays as empty |
| DisplayNames.DisplayNameOfDotted | build-menu.js:63-75 | `a.b` displays as `A B`: a dot breaks words |
| DisplayNames.DisplayNameOfCamel | build-menu.js:63-75 | `aB_2` displays as `A B 2`: a lower-case letter before an upper-case one, and an underscore, break words; a number after `_` is not padded |
| DisplayNames.DisplayNameOfNumber | build-menu.js:63-75 | `a-2` displays as `A 2`: the number is padded, and the double space this leaves is one break |
| DisplayNames.SlugDotsToSpaces | build-menu.js:66 | replacing dots keeps the slug |
| DisplayNames.SlugSplitCamel | build-menu.js:67 | splitting camel case keeps the slug |
| DisplayNames.SlugPadNumbers | build-menu.js:68 | padding numbers keeps the slug |
| DisplayNames.SlugReplaceRuns | build-menu.js:69 | replacing separator runs by spaces keeps the slug |
| DisplayNames.SlugTrim | build-menu.js:70 | trimming keeps the slug |
| DisplayNames.SlugSplitFrom | build-menu.js:71-73 | splitting on whitespace and rejoining with spaces keeps the slug |
| DisplayNames.SlugTitleWords | build-menu.js:72 | title-casing the words keeps the slug |
| DisplayNames.DisplayNameKeepsSlug | build-menu.js:63-75 | the display name has the slug of the base name when the argument holds '/', and of the whole argument, extension included, when it does not |
| Images.ImagePool | build-menu.js:45-51 | the pool holds exactly the listed names with a `.png/.jpg/.jpeg/.gif/.webp` extension in any case that are not hidden, in listing order |
| Images.ImagePoolConcat | build-menu.js:45-51 | the pool keeps listing order: the pool of two listings in sequence is the first pool followed by the second |
| Images.ImagePoolOne | build-menu.js:47-50 | a single name is kept exactly when it passes the extension and hidden-name filter |
| Images.Candidates | build-menu.js:83-87 | one candidate per pool image |
| Images.FnafImage | build-menu.js:97-106 | the franchise rule answers exactly when the base name holds "fnaf" in any case, always with one of the five fixed names |
| Images.FindImage | build-menu.js:78-107 | `findImage` as its three tiers; what it answers is stated by `FindImageExact`, `FindImageRelated`, `FindImageFallback`, `FindImageFnafOrder` and `FindImageResult` |
| Images.FindImageExact | build-menu.js:89-91 | the first image with the query's slug, or the same base name up to case, is the answer, whatever related images come before it |
| Images.FindImageRelated | build-menu.js:93-95 | containment is consulted only with no exact image; then the first related image in pool order is the answer |
| Images.FindImageFallback | build-menu.js:97-106 | with no exact and no related image, the franchise rule on the base name decides |
| Images.FindImageFnafOrder | build-menu.js:97-106 | the franchise rule in full: "sl"/"sister" first, then digits 4, 3, 2, else `fnaf1.jpeg` even when it is not in the pool; none when "fnaf" is absent; each case both ways |
| Images.FindImageResult | build-menu.js:78-107 | an answer outside the pool is a franchise name for a "fnaf" base; no answer exactly when nothing matches and there is no "fnaf" |
| Images.FindImageEmptySlug | build-menu.js:89-95 | an empty query slug is related to every image, so a non-empty pool with no exact image answers with its first image |
| Icons.FindIconInDir | build-menu.js:15-33 | the two loops with early returns and the recursion compute the icon search |
| Icons.Search | build-menu.js:15-33 | the search of one directory, the first loop then the second; what it finds is stated by `SearchCorrect`, `SearchTopLevelFirst` and `SearchDescends` |
| Icons.FilesFrom | build-menu.js:17-25 | the first loop from a position: the first icon file answers, and past the end the second loop runs |
| Icons.DirsFrom | build-menu.js:26-32 | the second loop from a position: the first visible sub-folder whose search finds something answers, else nothing |
| Icons.IsIconName | build-menu.js:19-21 | the icon test; its meaning is stated by `IsIconNameExactly` |
| Icons.SearchCorrect | build-menu.js:15-33 | a found icon is an icon file reached through visible folders under the start path; nothing is found exactly when the visible tree holds no icon |
| Icons.SearchTopLevelFirst | build-menu.js:17-25 | an icon directly in the folder wins, the first one in listing order, before any sub-folder is searched |
| Icons.SearchDescends | build-menu.js:26-31 | otherwise the first visible sub-folder, in listing order, whose tree holds an icon answers |
| Icons.IconPathShape | build-menu.js:26-27 | no folder on an icon path is hidden, and its last segment is an icon name |
| Icons.FoundShape | build-menu.js:15-33 | the same for a found path under its start segments |
| Icons.IconExtsAreLower | build-menu.js:13 | every allowed extension is lower case and starts with '.' |
| Icons.IconNameExtIsExact | build-menu.js:19-21 | an icon name's actual extension is in the list as written |
| Icons.IsIconNameExactly | build-menu.js:19-21 | a name is an icon exactly when its extension is in the list as written and its base name is "icon" up to case |
| Icons.IconStemAnyCase | build-menu.js:19-21 | any casing of the stem "icon" with an allowed extension is an icon |
| Icons.NonLowerExtensionMisses | build-menu.js:19-21 | an extension that is not all lower case never matches |
| Icons.UpperCaseStemMatches | build-menu.js:19-21 | `ICON.png` is an icon |
| Icons.UpperCaseExtensionMisses | build-menu.js:19-21 | `icon.PNG` is not an icon |
| Icons.IntendedIsIconNameAnyCase | build-menu.js:19-21 | the intended test: the base name is "icon" and the extension is listed, both up to case |
| Icons.IntendedIconNameDiffers | build-menu.js:19-21 | the script's test is the intended one restricted to lower-case extensions, so they differ exactly on a listed extension that is not in lower case |
| Icons.IntendedAnyCase | build-menu.js:19-21 | under the intended test, `stem + ext` is an icon when both parts match up to case |
| Icons.IntendedUpperCaseExtensionMatches | build-menu.js:19-21 | under the intended test, `icon.PNG` is an icon |
| Icons.UpperCaseIconFileMissed | build-menu.js:15-24 | a directory whose only file is `icon.PNG`: the script finds no icon, the intended search finds that file |
| Text.Lower | build-menu.js:59 | ASCII `toLowerCase`; it distributes over concatenation (`LowerConcat`) and is idempotent (`LowerIdempotent`) |
| Text.LowerConcat | build-menu.js:59 | lower-casing distributes over concatenation |
| Text.LowerIdempotent | build-menu.js:59 | lower-casing twice is lower-casing once |
| Text.SplitJoin | build-menu.js:22 | splitting a '/'-joined path of '/'-free segments gives back the segments |
| Entries.HtmlFiles | build-menu.js:38 | exactly the names of the listing, files and folders alike, that end in ".html" |
| Entries.HtmlFilesFirst | build-menu.js:38-40 | no ".html" name exactly when none ends in ".html"; the first is the first such name of the listing |
| Entries.HtmlFilesConcat | build-menu.js:38 | the ".html" names keep listing order: those of two listings in sequence are the first's followed by the second's |
| Entries.HtmlFilesOne | build-menu.js:38 | a single entry contributes its name exactly when the name ends in ".html" |
| Entries.ChooseHtml | build-menu.js:40 | the first name equal to "index.html" up to case when there is one, else the first name |
| Entries.EntryOf | build-menu.js:37-42 | the entry of one folder; stated by `EntryOfPage` and `EntryOfIcon` |
| Entries.Entries | build-menu.js:36-43 | the entries of the folders, never more than the folders; stated further by `EntriesConcat`, `EntriesOne` and `EntriesFromFolders` |
| Entries.EntriesOne | build-menu.js:36-43 | a single folder gives exactly its own entry, or nothing when it has no page |
| Entries.BuildEntries | build-menu.js:35-43 | the loop pushes exactly the entries of the folders, in order |
| Entries.EntriesConcat | build-menu.js:36-43 | folders contribute independently and in order |
| Entries.EntriesFromFolders | build-menu.js:36-43 | each entry is the entry of one folder, and the entry of every folder that has a page is listed; never more entries than folders |
| Entries.EntryOfPage | build-menu.js:38-42 | a folder with no ".html" name gives no entry; otherwise the page is one of its ".html" names and the path is folder, '/', page |
| Entries.EntryOfIcon | build-menu.js:41-42 | the entry's icon exists exactly when the visible tree holds one, and is `games/<folder>/` followed by an icon path of the tree |
| Entries.IconPathMeaning | build-menu.js:22 | a found icon, joined by '/', is the start segments followed by an icon path |
| Games.ImageFieldAsWritten | build-menu.js:115-116 | the image field as written: an icon gives `games/` followed by the icon path; otherwise a pool image gives `images/` followed by its name; otherwise none |
| Games.ImageField | build-menu.js:114-116 | the image field with the icon path used as found, as the comment on line 114 describes; otherwise as written |
| Games.GameOf | build-menu.js:109-117 | the record the script builds for an entry; stated by `GameOfEntry` and `GameNameKey` |
| Games.IntendedGameOf | build-menu.js:109-117 | the record with the corrected image field; related to the script's by `IntendedGameOfDiffers` |
| Games.Games | build-menu.js:109-117 | one record per entry, as written |
| Games.GamesHoldEntries | build-menu.js:109-117 | the record of every entry is in the list |
| Games.GamesFromEntries | build-menu.js:109-117 | every record of the list is the record of one of the entries |
| Games.IntendedGames | build-menu.js:109-117 | one corrected record per entry |
| Games.GameOfEntry | build-menu.js:109-116 | the record's file is the entry's path; a default page takes its name and its pool query from the folder, any other page takes its name from its path and its query from its own file name; an icon gives `games/` followed by the icon path, else a pool image gives `images/` followed by its name, else none |
| Games.IntendedGameOfDiffers | build-menu.js:114-115 | the corrected record has the script's file and name; only the image of an entry with an icon differs, by the script's leading `games/` |
| Games.IntendedGamesDiffer | build-menu.js:109-117 | the same, record by record, for the whole list |
| Games.GameNameKey | build-menu.js:111-113 | the record's name has the slug of the folder for a default page, else of the page's base name |
| Games.IconPathIsFile | build-menu.js:22 | an icon path of a tree names a file of that tree |
| Games.IconResolves | build-menu.js:41 | the corrected record's image is the folder's icon path, and read from the project root it leads to a file |
| Games.IconAsWrittenMisses | build-menu.js:115 | the image of the script's record, with `games/` in front, leads nowhere unless a game folder is named "games" |
| Render.EscapeQuotes | build-menu.js:120 | every `'` of the output is preceded by a backslash; the output never shrinks; text without `'` is unchanged (backslashes included) |
| Render.EscapeQuotesConcat | build-menu.js:120 | escaping works piece by piece: the escape of `a + b` is the escape of `a` followed by that of `b` |
| Render.EscapeQuotesOne | build-menu.js:120 | one character: `'` becomes `\'`, any other character (a backslash too) stays as it is |
| Render.RenderGame | build-menu.js:120 | one rendered record; what it holds is stated by `ReadRenderedGame`, which reads it back |
| Render.RenderGames | build-menu.js:119-121 | the rendered lines joined by `,\n`; one line per record (`RenderLines`) |
| Render.RenderLines | build-menu.js:119-121 | one line per record |
| Render.ReadEscaped | build-menu.js:120 | an escaped field without backslashes reads back as itself, stopping at its closing quote |
| Render.TrailingBackslashSwallowsQuote | build-menu.js:120 | a field ending in a backslash swallows its closing quote, so lines cannot be read back in general |
| Render.ReadImageRendered | build-menu.js:120 | a rendered image field reads back |
| Render.ReadRenderedGame | build-menu.js:120 | a record whose fields hold no backslash and whose image is not "" reads back from its line |
| Splice.NewBlock | build-menu.js:131 | the new block opens with the start marker and a line break, holds the games text right after, and closes with a line break and the end marker |
| Splice.Splice | build-menu.js:126-132 | the splice fails exactly when one of the markers is absent |
| Splice.IndexOfFirst | build-menu.js:128-129 | `indexOf` answers with the first occurrence |
| Splice.SpliceAt | build-menu.js:128-132 | with the first start marker at `start` and the first end marker at `end`, the page becomes `html[..start]` + new block + `html[end + 6..]` |
| Splice.SpliceKeepsOutside | build-menu.js:132 | the text before the start marker and after the end marker is unchanged, and the new block sits at `start` |
| Splice.SpliceEndFirst | build-menu.js:128-132 | the markers' order is not checked: with the end marker first, the text between the two markers is kept and then repeated after the block |
| Splice.SplicedStartFirst | build-menu.js:128 | after a splice the first start marker is the new one |
| Splice.SplicedEndFirst | build-menu.js:129 | after a splice with no end marker in the games text, the first end marker is the new one |
| Splice.SpliceIdempotent | build-menu.js:126-132 | with the markers in order and no end marker in the games text, splicing again with the same text changes nothing |
| Menu.ReplaceBlock | build-menu.js:124-132 | the reassignment of the page computes the splice, keeping the text outside the markers |
| Menu.MenuGames | build-menu.js:35-117 | the records of the folders' entries, as written |
| Menu.BuildMenu | build-menu.js:35-132 | the script's result is the splice of the rendered records, as written, of the folders' entries; an error exactly when a marker is missing |
| Menu.MenuGamesFromFolders | build-menu.js:109-117 | every record comes from one folder that holds a page, and every folder that holds a page has its record shown; never more records than folders |

## Left out

- Filesystem I/O is not modelled: `readdirSync`, `readFileSync`, `writeFileSync` and the `withFileTypes` type tests. The listings and the page are inputs, and the rewritten page is the result.
- The folder filter and the `localeCompare` sort (lines 8-11) are not modelled. The sort depends on locale and ICU, so the folders arrive already filtered and sorted.
- Writing the page back and the console summary (lines 134-137) are not modelled.
- `move-games-into-folders.js` is not part of this model. It is file moving with no logic beyond `path.basename`.
- Case mapping is ASCII-only. JavaScript's `toLowerCase`/`toUpperCase` also map non-ASCII letters.
- `\s` is modelled as its exact set of code points, and `\b` by ASCII word characters.
- Paths are modelled as posix names without a trailing '/'. Windows separators and trailing slashes are not handled.
- `path.join`, `path.relative` and the backslash replacement at line 22 are not modelled as path arithmetic. Every directory is named by its segments. A found icon is those segments from the project root, joined by '/'.
- The image pool is a `Set`. Directory names are unique, so it is modelled as the listing's sequence in listing order.
- Games.IconResolves: resolution is stated against a tree made of the `games` folder and its game folders. The `images/` directory and other top-level entries are not part of that tree.
- The fixed franchise names need not be in the pool, and the model does not say whether those files exist.
- The whole `,\n`-joined list is not read back; only one line is (`Render.ReadRenderedGame`). A folder or file name holding `,\n` would make the list ambiguous.
- An empty image path renders as `null`, as in the script, since "" is falsy. `Render.ReadRenderedGame` therefore excludes it.
- The string coercion `String(x)` in the template literal is not modelled, because every field is already a string.

## Findings

| source | as written | input that shows it | evidently intended | confidence | as-written member | corrected member |
|---|---|---|---|---|---|---|
| build-menu.js:115 | the image of a game with a folder icon is `'games/' + folderIcon`. Here `folderIcon` comes from `path.relative(__dirname, …)` at line 22 (called with `__dirname` at line 41), so it is already relative to the project root and starts with `games/` | folder `B` holding `index.html` and `icon.gif`: the icon is `games/B/icon.gif`, and the image becomes `games/games/B/icon.gif`, which does not exist | the image is the icon path as found, `games/B/icon.gif`, as the comment on line 114 says ("path relative to project") | not executed | Games.IconAsWrittenMisses (about Games.GameOf, which uses Games.ImageFieldAsWritten) | Games.IconResolves (about Games.IntendedGameOf, which uses Games.ImageField; Games.IntendedGamesDiffer relates the two record lists) |
| build-menu.js:19-21 | the extension is lower-cased (line 19) and then stripped by `path.basename(e.name, ext)` (line 20), which removes a suffix only on an exact match; the stem is then compared with `icon` | a folder whose only file is `icon.PNG`: `ext` is `.png`, `basename('icon.PNG', '.png')` is `icon.PNG`, so the stem is not `icon` and no icon is found | the lower-casing on line 19 means an extension in any case is accepted, so `icon.PNG` is the folder's icon | not executed | Icons.UpperCaseExtensionMisses (with Icons.IsIconNameExactly; Icons.UpperCaseIconFileMissed for the search) | Icons.IntendedIsIconNameAnyCase (about Icons.IntendedIsIconName; Icons.IntendedIconNameDiffers relates the two tests, Icons.UpperCaseIconFileMissed the two searches) |
