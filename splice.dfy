/** The rewrite of the host page: the text from the first start marker to the
    end of the first end marker is replaced by a fresh block holding the
    rendered games. */
module Splice {
  import opened Basics
  import opened Text

  const StartMarker: string := "    const GAMES = ["
  const EndMarker: string := "    ];"

  /** `new Error('Could not find GAMES array in index.html')`. */
  datatype SpliceError = MarkersNotFound

  /** The new block opens with the start marker, holds the games text on lines
      of its own and closes with the end marker. */
  function NewBlock(gamesJs: string): (r: string)
    ensures StartsWith(r, StartMarker + "\n") && EndsWith(r, "\n" + EndMarker)
    ensures OccursAt(r, gamesJs, |StartMarker| + 1)
    ensures |r| == |StartMarker| + |gamesJs| + |EndMarker| + 2
  {
    StartMarker + "\n" + gamesJs + "\n" + EndMarker
  }

  /** Fails exactly when one of the markers does not occur in the page. */
  function Splice(html: string, gamesJs: string): (r: Result<string, SpliceError>)
    ensures r.Err? <==> !Contains(html, StartMarker) || !Contains(html, EndMarker)
  {
    var start := IndexOf(html, StartMarker);
    var end := IndexOf(html, EndMarker);
    if start == -1 || end == -1 then Err(MarkersNotFound)
    else Ok(html[..start] + NewBlock(gamesJs) + html[end + |EndMarker|..])
  }

  /** `sub` occurs first at `i`. */
  predicate FirstAt(s: string, sub: string, i: nat) {
    OccursAt(s, sub, i) && forall j: nat :: j < i ==> !OccursAt(s, sub, j)
  }

  lemma IndexOfFirst(s: string, sub: string, i: nat)
    requires FirstAt(s, sub, i)
    ensures IndexOf(s, sub) == i
  {
    assert Contains(s, sub);
  }

  /** With the first start marker at `start` and the first end marker at
      `end`, the page becomes the text before `start`, the new block and the
      text after the end marker. */
  lemma SpliceAt(html: string, gamesJs: string, start: nat, end: nat)
    requires FirstAt(html, StartMarker, start) && FirstAt(html, EndMarker, end)
    ensures Splice(html, gamesJs) == Ok(html[..start] + NewBlock(gamesJs) + html[end + |EndMarker|..])
  {
    IndexOfFirst(html, StartMarker, start);
    IndexOfFirst(html, EndMarker, end);
  }

  /** Nothing before the start marker and nothing after the end marker
      changes. */
  lemma SpliceKeepsOutside(html: string, gamesJs: string, start: nat, end: nat)
    requires FirstAt(html, StartMarker, start) && FirstAt(html, EndMarker, end)
    ensures var r := Splice(html, gamesJs).value;
      && StartsWith(r, html[..start])
      && EndsWith(r, html[end + |EndMarker|..])
      && OccursAt(r, NewBlock(gamesJs), start)
  {
    SpliceAt(html, gamesJs, start, end);
    var a, b, c := html[..start], NewBlock(gamesJs), html[end + |EndMarker|..];
    var r := a + b + c;
    assert r[..|a|] == a;
    assert r[|r| - |c|..] == c;
    assert r[start..start + |b|] == b;
  }

  /** Nothing checks that the end marker comes after the start marker. When
      it comes first, the text between the two is kept before the block and
      repeated after it, followed by the old start marker and everything
      after it. */
  lemma SpliceEndFirst(html: string, gamesJs: string, start: nat, end: nat)
    requires FirstAt(html, StartMarker, start) && FirstAt(html, EndMarker, end)
    requires end + |EndMarker| <= start
    ensures Splice(html, gamesJs) ==
      Ok(html[..start] + NewBlock(gamesJs) + html[end + |EndMarker|..start] + html[start..])
  {
    SpliceAt(html, gamesJs, start, end);
    var k := end + |EndMarker|;
    var a, b := html[..start], NewBlock(gamesJs);
    assert html[k..] == html[k..start] + html[start..];
    assert a + b + html[k..] == a + b + html[k..start] + html[start..];
  }

  // ---------------------------------------------------------------------------
  // Splicing twice

  /** An occurrence that fits in a common prefix is an occurrence in both. */
  lemma OccursInPrefix(s: string, t: string, k: nat, sub: string, j: nat)
    requires k <= |s| && k <= |t| && s[..k] == t[..k] && j + |sub| <= k
    ensures OccursAt(s, sub, j) <==> OccursAt(t, sub, j)
  {
    assert s[j..j + |sub|] == s[..k][j..j + |sub|];
    assert t[j..j + |sub|] == t[..k][j..j + |sub|];
  }

  /** A window over a line break is not a marker. */
  lemma MarkerAvoidsNewline(s: string, j: nat, p: nat)
    requires j <= p < j + |EndMarker| && p < |s| && s[p] == '\n'
    ensures !OccursAt(s, EndMarker, j)
  {
  }

  /** A window inside the games text is not a marker when the text holds none. */
  lemma MarkerInside(s: string, js: string, o: nat, j: nat)
    requires o + |js| <= |s| && s[o..o + |js|] == js && !Contains(js, EndMarker)
    requires o <= j && j + |EndMarker| <= o + |js|
    ensures !OccursAt(s, EndMarker, j)
  {
    var d := j - o;
    assert s[j..j + |EndMarker|] == js[d..d + |EndMarker|] by {
      forall i | o <= i < o + |js| ensures s[i] == js[i - o] {
        assert js[i - o] == s[o..o + |js|][i - o];
      }
    }
    assert !OccursAt(js, EndMarker, d);
  }

  /** The page after one splice, with the markers where they are. */
  function Spliced(html: string, gamesJs: string, start: nat, end: nat): string
    requires start <= |html| && end + |EndMarker| <= |html|
  {
    html[..start] + NewBlock(gamesJs) + html[end + |EndMarker|..]
  }

  /** Up to the end of the new start marker, the spliced page is the old one. */
  lemma SplicedPrefix(html: string, gamesJs: string, start: nat, end: nat)
    requires OccursAt(html, StartMarker, start) && end + |EndMarker| <= |html|
    ensures var k := start + |StartMarker|;
      k <= |Spliced(html, gamesJs, start, end)| && Spliced(html, gamesJs, start, end)[..k] == html[..k]
  {
    var r := Spliced(html, gamesJs, start, end);
    var k := start + |StartMarker|;
    assert r[..k] == html[..start] + StartMarker;
    assert html[..k] == html[..start] + html[start..k];
  }

  /** The first start marker of the spliced page is the new one. */
  lemma SplicedStartFirst(html: string, gamesJs: string, start: nat, end: nat)
    requires FirstAt(html, StartMarker, start) && end + |EndMarker| <= |html|
    ensures FirstAt(Spliced(html, gamesJs, start, end), StartMarker, start)
  {
    var r := Spliced(html, gamesJs, start, end);
    var k := start + |StartMarker|;
    SplicedPrefix(html, gamesJs, start, end);
    forall j: nat | j < start ensures !OccursAt(r, StartMarker, j) {
      OccursInPrefix(r, html, k, StartMarker, j);
    }
    assert r[start..k] == StartMarker;
  }

  /** The first end marker of the spliced page is the new one, when the games
      text holds none and the old end marker came after the start marker. */
  lemma SplicedEndFirst(html: string, gamesJs: string, start: nat, end: nat)
    requires OccursAt(html, StartMarker, start) && FirstAt(html, EndMarker, end)
    requires start + |StartMarker| <= end
    requires !Contains(gamesJs, EndMarker)
    ensures FirstAt(Spliced(html, gamesJs, start, end), EndMarker, start + |StartMarker| + |gamesJs| + 2)
  {
    var r := Spliced(html, gamesJs, start, end);
    var k := start + |StartMarker|;
    SplicedPrefix(html, gamesJs, start, end);
    var o := k + 1;
    var nl2 := o + |gamesJs|;
    var e := nl2 + 1;
    assert r[k] == '\n' && r[nl2] == '\n';
    assert r[o..o + |gamesJs|] == gamesJs;
    assert r[e..e + |EndMarker|] == EndMarker;
    forall j: nat | j < e ensures !OccursAt(r, EndMarker, j) {
      if j + |EndMarker| <= k {
        OccursInPrefix(r, html, k, EndMarker, j);
      } else if j <= k {
        MarkerAvoidsNewline(r, j, k);
      } else if j + |EndMarker| <= nl2 {
        MarkerInside(r, gamesJs, o, j);
      } else {
        MarkerAvoidsNewline(r, j, nl2);
      }
    }
  }

  /** With the markers in order and no end marker inside the games text, a
      second splice with the same text changes nothing. */
  lemma SpliceIdempotent(html: string, gamesJs: string, start: nat, end: nat)
    requires FirstAt(html, StartMarker, start) && FirstAt(html, EndMarker, end)
    requires start + |StartMarker| <= end
    requires !Contains(gamesJs, EndMarker)
    ensures Splice(html, gamesJs).Ok?
    ensures Splice(Splice(html, gamesJs).value, gamesJs) == Splice(html, gamesJs)
  {
    SpliceAt(html, gamesJs, start, end);
    var r := Spliced(html, gamesJs, start, end);
    var e := start + |StartMarker| + |gamesJs| + 2;
    SplicedStartFirst(html, gamesJs, start, end);
    SplicedEndFirst(html, gamesJs, start, end);
    SpliceAt(r, gamesJs, start, e);
    assert r[..start] == html[..start];
    assert r[e + |EndMarker|..] == html[end + |EndMarker|..];
  }
}
