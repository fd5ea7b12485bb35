/** `displayName(fileOrFolder)`: a title for a game folder or file name, built
    by a chain of substitutions, a split on whitespace, title-casing of every
    word and a join with single spaces. */
module DisplayNames {
  import opened Text
  import opened Paths
  import opened Slugs

  /** The number of leading characters of `s` that satisfy `p`. */
  function RunLength(s: string, p: char -> bool): (k: nat)
    ensures k <= |s|
    ensures forall i :: 0 <= i < k ==> p(s[i])
    ensures k < |s| ==> !p(s[k])
  {
    if s != [] && p(s[0]) then 1 + RunLength(s[1..], p) else 0
  }

  predicate IsDash(c: char) { c == '-' || c == '_' }

  /** A global replacement of the runs `p+` by one space: `[-_]+` at step 4 of
      the chain and `\s+` at its end. Afterwards every character satisfying
      `p` is a lone space. */
  function ReplaceRuns(s: string, p: char -> bool): (r: string)
    ensures forall i :: 0 <= i < |r| && p(r[i]) ==> r[i] == ' '
    ensures forall i :: 0 <= i < |r| - 1 && p(r[i]) ==> !p(r[i + 1])
    ensures forall c :: c in r ==> c in s || c == ' '
    ensures s != [] && !p(s[0]) ==> r != [] && r[0] == s[0]
    decreases |s|
  {
    if s == [] then []
    else if p(s[0]) then [' '] + ReplaceRuns(s[RunLength(s, p)..], p)
    else [s[0]] + ReplaceRuns(s[1..], p)
  }

  /** The leading run is the first position whose character fails the test. */
  lemma RunLengthAt(s: string, p: char -> bool, k: nat)
    requires k <= |s|
    requires forall i :: 0 <= i < k ==> p(s[i])
    requires k < |s| ==> !p(s[k])
    ensures RunLength(s, p) == k
  {
  }

  /** Replacing runs works piece by piece, as long as the cut does not fall
      inside a run. */
  lemma {:induction false} ReplaceRunsConcat(a: string, b: string, p: char -> bool)
    requires a == [] || b == [] || !p(a[|a| - 1]) || !p(b[0])
    ensures ReplaceRuns(a + b, p) == ReplaceRuns(a, p) + ReplaceRuns(b, p)
    decreases |a|
  {
    if a == [] {
      assert a + b == b;
    } else if !p(a[0]) {
      ConsSplit(a, b);
      ReplaceRunsConcat(a[1..], b, p);
      ConsAssoc(a[0], ReplaceRuns(a[1..], p), ReplaceRuns(b, p));
    } else {
      var k := RunLength(a, p);
      if k < |a| {
        RunLengthAt(a + b, p, k);
        assert (a + b)[k..] == a[k..] + b;
        ReplaceRunsConcat(a[k..], b, p);
        ConsAssoc(' ', ReplaceRuns(a[k..], p), ReplaceRuns(b, p));
      } else {
        assert b != [] ==> (a + b)[|a|] == b[0];
        RunLengthAt(a + b, p, |a|);
        assert (a + b)[|a|..] == b;
        assert a[k..] == [];
      }
    }
  }

  /** A single character: one that passes the test becomes a space, any
      other is kept. */
  lemma ReplaceRunsOne(c: char, p: char -> bool)
    ensures ReplaceRuns([c], p) == if p(c) then " " else [c]
  {
    if p(c) {
      assert RunLength([c], p) == 1;
    }
    assert [c][1..] == [];
  }

  /** A whole run, however long, becomes one space. */
  lemma ReplaceRunsRun(d: string, p: char -> bool)
    requires d != [] && forall i :: 0 <= i < |d| ==> p(d[i])
    ensures ReplaceRuns(d, p) == " "
  {
    RunLengthAt(d, p, |d|);
    assert d[|d|..] == [];
  }

  /** The part of the argument that is turned into a title: a path is cut to its
      base name, anything else is used whole. */
  function NameBase(x: string): string {
    if '/' in x then BaseName(x) else x
  }

  /** `.replace(/\./g, ' ')`. */
  function DotsToSpaces(s: string): (r: string)
    ensures '.' !in r
    ensures forall c :: c in r ==> c in s || c == ' '
    ensures |r| == |s|
    ensures forall i :: 0 <= i < |s| && s[i] != '.' ==> r[i] == s[i]
    ensures forall i :: 0 <= i < |s| && s[i] == '.' ==> r[i] == ' '
  {
    seq(|s|, i requires 0 <= i < |s| => if s[i] == '.' then ' ' else s[i])
  }

  /** `.replace(/([a-z])([A-Z])/g, '$1 $2')`: a space between every lower-case
      letter and an upper-case letter that follows it. Two such pairs cannot
      overlap, so scanning one character at a time matches the regular
      expression's left-to-right replacement. */
  function SplitCamel(s: string): (r: string)
    ensures forall i :: 0 <= i < |r| - 1 ==> !(IsLowerAscii(r[i]) && IsUpperAscii(r[i + 1]))
    ensures forall c :: c in r ==> c in s || c == ' '
    ensures s != [] ==> r != [] && r[0] == s[0]
    decreases |s|
  {
    if |s| < 2 then s
    else if IsLowerAscii(s[0]) && IsUpperAscii(s[1]) then [s[0], ' '] + SplitCamel(s[1..])
    else [s[0]] + SplitCamel(s[1..])
  }

  /** The space a pair of neighbours gets between them: one between a
      lower-case and an upper-case letter, none otherwise. */
  function CamelGap(c: char, d: char): string {
    if IsLowerAscii(c) && IsUpperAscii(d) then " " else ""
  }

  /** One character is left as it is. */
  lemma SplitCamelOne(c: char)
    ensures SplitCamel([c]) == [c]
  {
  }

  /** Two texts split separately and joined with the gap their meeting
      characters call for. */
  lemma {:induction false} SplitCamelConcat(a: string, b: string)
    requires a != [] && b != []
    ensures SplitCamel(a + b) == SplitCamel(a) + CamelGap(a[|a| - 1], b[0]) + SplitCamel(b)
    decreases |a|
  {
    var g := CamelGap(a[|a| - 1], b[0]);
    if |a| == 1 {
      assert a + b == [a[0]] + b;
      assert (a + b)[1..] == b && (a + b)[1] == b[0];
      assert [a[0], ' '] == [a[0]] + " ";
      assert SplitCamel(a + b) == [a[0]] + g + SplitCamel(b);
    } else {
      var t := a[1..];
      var h := CamelGap(a[0], a[1]);
      ConsSplit(a, b);
      assert (a + b)[1] == a[1];
      assert [a[0], ' '] == [a[0]] + " ";
      assert SplitCamel(a + b) == [a[0]] + h + SplitCamel(t + b);
      assert SplitCamel(a) == [a[0]] + h + SplitCamel(t);
      SplitCamelConcat(t, b);
      assert t[|t| - 1] == a[|a| - 1];
      Assoc([a[0]] + h, SplitCamel(t) + g, SplitCamel(b));
      Assoc([a[0]] + h, SplitCamel(t), g);
    }
  }

  /** `.replace(/\b(\d+)\b/g, ' $1 ')`: a run of digits that is a whole word
      (no word character `[A-Za-z0-9_]` on either side) gets a space on each
      side. `afterWord` says whether the character before `s` is a word
      character. */
  function PadNumbers(s: string, afterWord: bool): (r: string)
    ensures forall c :: c in r ==> c in s || c == ' '
    decreases |s|
  {
    if s == [] then []
    else if IsDigit(s[0]) && !afterWord then
      var k := RunLength(s, IsDigit);
      if k == |s| || !IsWordChar(s[k]) then [' '] + s[..k] + [' '] + PadNumbers(s[k..], true)
      else s[..k] + PadNumbers(s[k..], true)
    else [s[0]] + PadNumbers(s[1..], IsWordChar(s[0]))
  }

  predicate AllDigits(d: string) { forall i :: 0 <= i < |d| ==> IsDigit(d[i]) }

  /** Digits read after a word character are copied as they are. */
  lemma {:induction false} PadNumbersAfterWord(d: string, v: string)
    requires AllDigits(d)
    ensures PadNumbers(d + v, true) == d + PadNumbers(v, true)
    decreases |d|
  {
    if d == [] {
      assert d + v == v;
    } else {
      assert IsWordChar(d[0]);
      ConsSplit(d, v);
      PadNumbersCons(d[0], d[1..] + v, true);
      PadNumbersAfterWord(d[1..], v);
      ConsAssoc(d[0], d[1..], PadNumbers(v, true));
    }
  }

  /** A maximal digit run at the front is padded exactly when it is a whole
      word: nothing that is a word character before it, and nothing that is one
      after it. */
  lemma PadNumbersLeadingRun(d: string, v: string, afterWord: bool)
    requires d != [] && AllDigits(d)
    requires v == [] || !IsDigit(v[0])
    ensures PadNumbers(d + v, afterWord) ==
      (if !afterWord && (v == [] || !IsWordChar(v[0])) then [' '] + d + [' '] else d) + PadNumbers(v, true)
  {
    var s := d + v;
    if afterWord {
      PadNumbersAfterWord(d, v);
    } else {
      var k := RunLength(s, IsDigit);
      assert k == |d| by {
        assert forall i :: 0 <= i < |d| ==> IsDigit(s[i]);
        if |d| < |s| { assert s[|d|] == v[0]; }
      }
      assert s[..k] == d && s[k..] == v;
    }
  }

  /** The leading run of `k` digits of `s` as the padding writes it. */
  function PaddedRun(s: string, k: nat): string
    requires k < |s|
  {
    if !IsWordChar(s[k]) then [' '] + s[..k] + [' '] else s[..k]
  }

  /** A leading digit run read without a word character before it, in a text
      that does not end in a digit: the run ends inside the text, whatever
      follows it. */
  lemma PadNumbersDigitStep(u: string, v: string)
    requires u != [] && IsDigit(u[0]) && !IsDigit(u[|u| - 1])
    ensures var k := RunLength(u, IsDigit);
      && 0 < k < |u|
      && PadNumbers(u, false) == PaddedRun(u, k) + PadNumbers(u[k..], true)
      && PadNumbers(u + v, false) == PaddedRun(u, k) + PadNumbers(u[k..] + v, true)
  {
    var s := u + v;
    var k := RunLength(s, IsDigit);
    var k' := RunLength(u, IsDigit);
    assert k == k' by {
      assert forall i :: 0 <= i < k' ==> IsDigit(s[i]);
      assert s[k'] == u[k'];
    }
    SplitAt(u, v, k);
  }

  /** A text that does not end in a digit is padded on its own; what follows is
      padded as if it came first, after the text's last character. */
  lemma {:induction false} PadNumbersConcat(u: string, v: string, afterWord: bool)
    requires u == [] || !IsDigit(u[|u| - 1])
    ensures PadNumbers(u + v, afterWord) ==
      PadNumbers(u, afterWord) + PadNumbers(v, if u == [] then afterWord else IsWordChar(u[|u| - 1]))
    decreases |u|, 1
  {
    if u == [] {
      assert u + v == v;
    } else if IsDigit(u[0]) && !afterWord {
      PadNumbersConcatRun(u, v);
    } else {
      PadNumbersConcatChar(u, v, afterWord);
    }
  }

  lemma {:induction false} PadNumbersConcatRun(u: string, v: string)
    requires u != [] && IsDigit(u[0]) && !IsDigit(u[|u| - 1])
    ensures PadNumbers(u + v, false) == PadNumbers(u, false) + PadNumbers(v, IsWordChar(u[|u| - 1]))
    decreases |u|, 0
  {
    PadNumbersDigitStep(u, v);
    var k := RunLength(u, IsDigit);
    assert u[k..][|u[k..]| - 1] == u[|u| - 1];
    PadNumbersConcat(u[k..], v, true);
    Assoc(PaddedRun(u, k), PadNumbers(u[k..], true), PadNumbers(v, IsWordChar(u[|u| - 1])));
  }

  lemma {:induction false} PadNumbersConcatChar(u: string, v: string, afterWord: bool)
    requires u != [] && !(IsDigit(u[0]) && !afterWord) && !IsDigit(u[|u| - 1])
    ensures PadNumbers(u + v, afterWord) == PadNumbers(u, afterWord) + PadNumbers(v, IsWordChar(u[|u| - 1]))
    decreases |u|, 0
  {
    var c, t := u[0], u[1..];
    var w := IsWordChar(c);
    var x := IsWordChar(u[|u| - 1]);
    assert (if t == [] then w else IsWordChar(t[|t| - 1])) == x by {
      if t != [] { assert t[|t| - 1] == u[|u| - 1]; }
    }
    PadNumbersConcat(t, v, w);
    ConsSplit(u, v);
    PadNumbersCons(c, t + v, afterWord);
    PadNumbersCons(c, t, afterWord);
    ConsAssoc(c, PadNumbers(t, w), PadNumbers(v, x));
  }

  /** A character that does not start a whole-word digit run is copied. */
  lemma PadNumbersCons(c: char, t: string, afterWord: bool)
    requires !(IsDigit(c) && !afterWord)
    ensures PadNumbers([c] + t, afterWord) == [c] + PadNumbers(t, IsWordChar(c))
  {
    assert ([c] + t)[1..] == t;
  }


  /** `\b(\d+)\b` on one digit run: everything before the run is padded on
      its own, the run is padded exactly when no word character touches it on
      either side, and what follows is padded on its own. */
  lemma PadNumbersRun(u: string, d: string, v: string)
    requires u == [] || !IsDigit(u[|u| - 1])
    requires d != [] && AllDigits(d)
    requires v == [] || !IsDigit(v[0])
    ensures var padded := (u == [] || !IsWordChar(u[|u| - 1])) && (v == [] || !IsWordChar(v[0]));
      PadNumbers(u + d + v, false) ==
      PadNumbers(u, false) + (if padded then [' '] + d + [' '] else d) + PadNumbers(v, true)
  {
    var afterWord := if u == [] then false else IsWordChar(u[|u| - 1]);
    PadNumbersConcat(u, d + v, false);
    PadNumbersLeadingRun(d, v, afterWord);
    Assoc(u, d, v);
    Assoc(PadNumbers(u, false),
      if !afterWord && (v == [] || !IsWordChar(v[0])) then [' '] + d + [' '] else d,
      PadNumbers(v, true));
  }

  /** A number glued to a word stays glued. */
  lemma PadNumbersGlued()
    ensures PadNumbers("Game2", false) == "Game2"
  {
    PadNumbersRun("Game", "2", "");
    assert "Game" + "2" + "" == "Game2";
  }

  /** A number after a dash becomes a word of its own. */
  lemma PadNumbersAfterDash()
    ensures PadNumbers("a-2", false) == "a- 2 "
  {
    PadNumbersRun("a-", "2", "");
    assert "a-" + "2" + "" == "a-2";
  }

  function TrimEnd(s: string): (r: string)
    ensures r == [] || !IsSpace(r[|r| - 1])
    ensures |r| <= |s| && r == s[..|r|]
    ensures forall i :: |r| <= i < |s| ==> IsSpace(s[i])
  {
    if s != [] && IsSpace(s[|s| - 1]) then TrimEnd(s[..|s| - 1]) else s
  }

  /** `.trim()`: no whitespace at either end. */
  function Trim(s: string): (r: string)
    ensures r == [] || (!IsSpace(r[0]) && !IsSpace(r[|r| - 1]))
    ensures forall c :: c in r ==> c in s
  {
    var k := RunLength(s, IsSpace);
    var t := TrimEnd(s[k..]);
    assert t != [] ==> t[0] == s[k..][0];
    t
  }

  /** `split(/\s+/)` continued from a partly read word `cur`. A leading or a
      trailing run of whitespace yields an empty piece, as in JavaScript. */
  function SplitFrom(s: string, cur: string): (r: seq<string>)
    ensures |r| >= 1
    decreases |s|
  {
    if s == [] then [cur]
    else if IsSpace(s[0]) then [cur] + SplitFrom(s[RunLength(s, IsSpace)..], [])
    else SplitFrom(s[1..], cur + [s[0]])
  }

  /** The pieces of a split hold only characters of the text, none of them
      whitespace, and none is empty when the text has no whitespace at its ends. */
  lemma {:induction false} SplitFromWords(s: string, cur: string)
    ensures forall i, c :: 0 <= i < |SplitFrom(s, cur)| && c in SplitFrom(s, cur)[i] ==> c in cur || c in s
    ensures NoSpace(cur) ==> forall i :: 0 <= i < |SplitFrom(s, cur)| ==> NoSpace(SplitFrom(s, cur)[i])
    ensures (s == [] || IsSpace(s[0]) ==> cur != []) && (s != [] ==> !IsSpace(s[|s| - 1])) ==>
      forall i :: 0 <= i < |SplitFrom(s, cur)| ==> SplitFrom(s, cur)[i] != []
    decreases |s|
  {
    if s != [] {
      if IsSpace(s[0]) {
        var k := RunLength(s, IsSpace);
        SplitFromWords(s[k..], []);
        assert forall c :: c in s[k..] ==> c in s;
        assert SplitFrom(s, cur) == [cur] + SplitFrom(s[k..], []);
        assert s[k..] != [] ==> s[k..][|s[k..]| - 1] == s[|s| - 1];
      } else {
        SplitFromWords(s[1..], cur + [s[0]]);
        assert forall c :: c in cur + [s[0]] || c in s[1..] ==> c in cur || c in s;
        assert SplitFrom(s, cur) == SplitFrom(s[1..], cur + [s[0]]);
        assert s[1..] != [] ==> s[1..][|s[1..]| - 1] == s[|s| - 1];
      }
    }
  }

  /** Joining the pieces with single spaces gives the word read so far
      followed by the text with every whitespace run replaced by one space.
      Together with `SplitFromWords` (no piece holds whitespace) this fixes
      where the pieces break. */
  lemma {:induction false} JoinSplitFrom(s: string, cur: string)
    ensures Join(SplitFrom(s, cur), " ") == cur + ReplaceRuns(s, IsSpace)
    decreases |s|
  {
    if s == [] {
      assert cur + [] == cur;
    } else if IsSpace(s[0]) {
      var k := RunLength(s, IsSpace);
      JoinSplitFrom(s[k..], []);
      JoinSplitAtSpace(s, cur, k);
      assert [] + ReplaceRuns(s[k..], IsSpace) == ReplaceRuns(s[k..], IsSpace);
      ConsAssoc(' ', [], ReplaceRuns(s[k..], IsSpace));
      Assoc(cur, " ", ReplaceRuns(s[k..], IsSpace));
    } else {
      JoinSplitFrom(s[1..], cur + [s[0]]);
      SplitFromAtWordChar(s, cur);
      Assoc(cur, [s[0]], ReplaceRuns(s[1..], IsSpace));
    }
  }

  function SplitSpaces(s: string): seq<string> {
    SplitFrom(s, [])
  }

  /** `w.charAt(0).toUpperCase() + w.slice(1).toLowerCase()`. */
  function TitleWord(w: string): string {
    if w == [] then [] else [UpperChar(w[0])] + Lower(w[1..])
  }

  function TitleWords(ws: seq<string>): (r: seq<string>)
    ensures |r| == |ws|
  {
    seq(|ws|, i requires 0 <= i < |ws| => TitleWord(ws[i]))
  }

  function DisplayName(x: string): string {
    var s1 := DotsToSpaces(NameBase(x));
    var s2 := SplitCamel(s1);
    var s3 := PadNumbers(s2, false);
    var s4 := ReplaceRuns(s3, IsDash);
    var s5 := Trim(s4);
    ReplaceRuns(Join(TitleWords(SplitSpaces(s5)), " "), IsSpace)
  }

  // ---------------------------------------------------------------------------
  // Shape of a display name

  predicate NoSpace(w: string) { forall j :: 0 <= j < |w| ==> !IsSpace(w[j]) }

  /** None of the separators the chain turns into spaces survives. */
  predicate Clean(s: string) { '.' !in s && '-' !in s && '_' !in s }

  /** No whitespace at either end, and every whitespace character is a space
      standing alone. */
  predicate WellSpaced(s: string) {
    && (s == [] || (!IsSpace(s[0]) && !IsSpace(s[|s| - 1])))
    && (forall i :: 0 <= i < |s| && IsSpace(s[i]) ==> s[i] == ' ')
    && (forall i :: 0 <= i < |s| - 1 && IsSpace(s[i]) ==> !IsSpace(s[i + 1]))
  }

  /** A word never starts with a lower-case letter and never has an upper-case
      letter after its first character. */
  predicate TitleCased(s: string) {
    && (forall i :: 0 <= i < |s| && (i == 0 || s[i - 1] == ' ') ==> !IsLowerAscii(s[i]))
    && (forall i :: 0 < i < |s| && s[i - 1] != ' ' ==> !IsUpperAscii(s[i]))
  }

  predicate IsTitleWord(w: string) {
    && w != [] && NoSpace(w) && Clean(w)
    && !IsLowerAscii(w[0])
    && (forall j :: 1 <= j < |w| ==> !IsUpperAscii(w[j]))
  }

  lemma TitleWordShape(w: string)
    requires w != [] && NoSpace(w) && Clean(w)
    ensures IsTitleWord(TitleWord(w))
  {
    var t := TitleWord(w);
    forall j | 0 <= j < |t| ensures !IsSpace(t[j]) && t[j] != '.' && t[j] != '-' && t[j] != '_' {
      assert t[j] == if j == 0 then UpperChar(w[0]) else LowerChar(w[j]);
    }
  }

  lemma {:induction false} JoinTitleWords(ws: seq<string>)
    requires forall i :: 0 <= i < |ws| ==> IsTitleWord(ws[i])
    ensures WellSpaced(Join(ws, " ")) && TitleCased(Join(ws, " ")) && Clean(Join(ws, " "))
    ensures |ws| > 0 ==> Join(ws, " ") != [] && Join(ws, " ")[0] == ws[0][0]
    decreases |ws|
  {
    if |ws| >= 2 {
      JoinTitleWords(ws[1..]);
      var a, b := ws[0], Join(ws[1..], " ");
      var j := a + " " + b;
      assert j == Join(ws, " ");
      assert b[0] == ws[1][0];
      forall i | 0 <= i < |j|
        ensures IsSpace(j[i]) ==> j[i] == ' '
        ensures i < |j| - 1 && IsSpace(j[i]) ==> !IsSpace(j[i + 1])
        ensures (i == 0 || j[i - 1] == ' ') ==> !IsLowerAscii(j[i])
        ensures 0 < i && j[i - 1] != ' ' ==> !IsUpperAscii(j[i])
      {
        if i < |a| {
          assert j[i] == a[i];
          if i + 1 < |a| { assert j[i + 1] == a[i + 1]; }
          if 0 < i { assert j[i - 1] == a[i - 1]; }
        } else if i == |a| {
          assert j[i + 1] == b[0];
        } else {
          assert j[i] == b[i - |a| - 1];
          if i + 1 < |j| { assert j[i + 1] == b[i - |a|]; }
          if i > |a| + 1 { assert j[i - 1] == b[i - |a| - 2]; }
        }
      }
    }
  }

  /** Every whitespace character is a space standing alone. */
  predicate SingleSpaced(s: string) {
    && (forall i :: 0 <= i < |s| && IsSpace(s[i]) ==> s[i] == ' ')
    && (forall i :: 0 <= i < |s| - 1 && IsSpace(s[i]) ==> !IsSpace(s[i + 1]))
  }

  lemma {:induction false} ReplaceRunsKeepsSingleSpaced(s: string)
    requires SingleSpaced(s)
    ensures ReplaceRuns(s, IsSpace) == s
    decreases |s|
  {
    if s != [] {
      var t := s[1..];
      assert SingleSpaced(t) by {
        forall i | 0 <= i < |t| ensures t[i] == s[i + 1] { }
      }
      ReplaceRunsKeepsSingleSpaced(t);
      if IsSpace(s[0]) {
        assert RunLength(s, IsSpace) == 1;
      }
    }
  }

  /** A display name has no whitespace at its ends, no doubled or non-space
      whitespace, none of '.', '-', '_', and every word is title-cased. */
  lemma DisplayNameShape(x: string)
    ensures WellSpaced(DisplayName(x)) && Clean(DisplayName(x)) && TitleCased(DisplayName(x))
  {
    var s1 := DotsToSpaces(NameBase(x));
    var s2 := SplitCamel(s1);
    var s3 := PadNumbers(s2, false);
    var s4 := ReplaceRuns(s3, IsDash);
    var s5 := Trim(s4);
    assert Clean(s5);
    var ws := SplitSpaces(s5);
    var ts := TitleWords(ws);
    SplitFromWords(s5, []);
    if s5 == [] {
      assert ws == [[]];
      assert ts == [[]];
      assert Join(ts, " ") == [];
    } else {
      forall i | 0 <= i < |ws| ensures IsTitleWord(ts[i]) {
        assert Clean(ws[i]);
        TitleWordShape(ws[i]);
      }
      JoinTitleWords(ts);
      ReplaceRunsKeepsSingleSpaced(Join(ts, " "));
    }
  }

  /** Empty input gives empty output. */
  lemma DisplayNameEmpty()
    ensures DisplayName("") == ""
  {
    var s5 := Trim(ReplaceRuns(PadNumbers(SplitCamel(DotsToSpaces(NameBase(""))), false), IsDash));
    assert s5 == [];
    assert SplitSpaces(s5) == [[]];
    assert TitleWords([[]]) == [[]];
  }

  // ---------------------------------------------------------------------------
  // A display name keeps the letters and digits of its source, in order

  lemma SlugOfSpace()
    ensures Slug([' ']) == []
  {
    SlugOfChar(' ');
  }

  lemma {:induction false} SlugDotsToSpaces(s: string)
    ensures Slug(DotsToSpaces(s)) == Slug(s)
  {
    if s != [] {
      var c := if s[0] == '.' then ' ' else s[0];
      assert DotsToSpaces(s) == [c] + DotsToSpaces(s[1..]);
      assert s == [s[0]] + s[1..];
      SlugConcat([c], DotsToSpaces(s[1..]));
      SlugConcat([s[0]], s[1..]);
      SlugOfChar(c);
      SlugOfChar(s[0]);
      SlugDotsToSpaces(s[1..]);
    }
  }

  lemma {:induction false} SlugSplitCamel(s: string)
    ensures Slug(SplitCamel(s)) == Slug(s)
    decreases |s|
  {
    if |s| >= 2 {
      assert s == [s[0]] + s[1..];
      SlugConcat([s[0]], s[1..]);
      SlugSplitCamel(s[1..]);
      if IsLowerAscii(s[0]) && IsUpperAscii(s[1]) {
        assert [s[0], ' '] + SplitCamel(s[1..]) == [s[0]] + " " + SplitCamel(s[1..]);
        SlugSpaced([s[0]], SplitCamel(s[1..]));
      } else {
        SlugConcat([s[0]], SplitCamel(s[1..]));
      }
    }
  }

  /** Surrounding text with spaces does not change its key. */
  lemma SlugSpaced(a: string, b: string)
    ensures Slug(a + " " + b) == Slug(a) + Slug(b)
  {
    SlugConcat(a + " ", b);
    SlugConcat(a, " ");
    SlugOfSpace();
  }

  lemma SlugPadded(d: string, rest: string)
    ensures Slug([' '] + d + [' '] + rest) == Slug(d) + Slug(rest)
  {
    SlugOfSpace();
    SlugConcat([' '], d);
    SlugConcat([' '] + d, [' ']);
    SlugConcat([' '] + d + [' '], rest);
  }

  lemma {:induction false} SlugPadNumbers(s: string, afterWord: bool)
    ensures Slug(PadNumbers(s, afterWord)) == Slug(s)
    decreases |s|
  {
    if s != [] {
      if IsDigit(s[0]) && !afterWord {
        var k := RunLength(s, IsDigit);
        var rest := PadNumbers(s[k..], true);
        assert Slug(s) == Slug(s[..k]) + Slug(s[k..]) by {
          assert s == s[..k] + s[k..];
          SlugConcat(s[..k], s[k..]);
        }
        SlugPadNumbers(s[k..], true);
        if k == |s| || !IsWordChar(s[k]) {
          assert PadNumbers(s, afterWord) == [' '] + s[..k] + [' '] + rest;
          SlugPadded(s[..k], rest);
        } else {
          assert PadNumbers(s, afterWord) == s[..k] + rest;
          SlugConcat(s[..k], rest);
        }
      } else {
        var rest := PadNumbers(s[1..], IsWordChar(s[0]));
        assert PadNumbers(s, afterWord) == [s[0]] + rest;
        assert s == [s[0]] + s[1..];
        SlugConcat([s[0]], s[1..]);
        SlugConcat([s[0]], rest);
        SlugPadNumbers(s[1..], IsWordChar(s[0]));
      }
    }
  }

  /** Replacing runs of characters that are not letters or digits by a space
      leaves the key unchanged. */
  lemma {:induction false} SlugReplaceRuns(s: string, p: char -> bool)
    requires forall c :: p(c) ==> !IsSlugChar(LowerChar(c))
    ensures Slug(ReplaceRuns(s, p)) == Slug(s)
    decreases |s|
  {
    if s != [] {
      if p(s[0]) {
        var k := RunLength(s, p);
        assert s == s[..k] + s[k..];
        SlugConcat(s[..k], s[k..]);
        SlugOfSeparators(s[..k]);
        SlugOfSpace();
        SlugConcat([' '], ReplaceRuns(s[k..], p));
        SlugReplaceRuns(s[k..], p);
      } else {
        assert s == [s[0]] + s[1..];
        SlugConcat([s[0]], s[1..]);
        SlugConcat([s[0]], ReplaceRuns(s[1..], p));
        SlugReplaceRuns(s[1..], p);
      }
    }
  }

  lemma {:induction false} SlugTrimEnd(s: string)
    ensures Slug(TrimEnd(s)) == Slug(s)
    decreases |s|
  {
    if s != [] && IsSpace(s[|s| - 1]) {
      assert s == s[..|s| - 1] + [s[|s| - 1]];
      SlugConcat(s[..|s| - 1], [s[|s| - 1]]);
      SlugOfChar(s[|s| - 1]);
      SlugTrimEnd(s[..|s| - 1]);
    }
  }

  lemma SlugTrim(s: string)
    ensures Slug(Trim(s)) == Slug(s)
  {
    var k := RunLength(s, IsSpace);
    SlugSkipSpaces(s, k);
    SlugTrimEnd(s[k..]);
  }

  lemma {:induction false} SlugSplitFrom(s: string, cur: string)
    ensures Slug(Join(SplitFrom(s, cur), " ")) == Slug(cur) + Slug(s)
    decreases |s|
  {
    if s == [] {
      assert Slug(s) == [];
    } else if IsSpace(s[0]) {
      var k := RunLength(s, IsSpace);
      SlugSplitFrom(s[k..], []);
      SlugSplitAtSpace(s, cur, k);
    } else {
      SlugSplitFrom(s[1..], cur + [s[0]]);
      SlugSplitAtWordChar(s, cur);
    }
  }

  /** The step of `SlugSplitFrom` at a character that is not whitespace. */
  lemma SlugSplitAtWordChar(s: string, cur: string)
    requires s != [] && !IsSpace(s[0])
    requires Slug(Join(SplitFrom(s[1..], cur + [s[0]]), " ")) == Slug(cur + [s[0]]) + Slug(s[1..])
    ensures Slug(Join(SplitFrom(s, cur), " ")) == Slug(cur) + Slug(s)
  {
    SplitFromAtWordChar(s, cur);
    SlugMoveChar(s, cur);
  }

  lemma SplitFromAtWordChar(s: string, cur: string)
    requires s != [] && !IsSpace(s[0])
    ensures SplitFrom(s, cur) == SplitFrom(s[1..], cur + [s[0]])
  {
  }

  /** Moving a character from the text to the word read so far keeps the key. */
  lemma SlugMoveChar(s: string, cur: string)
    requires s != []
    ensures Slug(cur + [s[0]]) + Slug(s[1..]) == Slug(cur) + Slug(s)
  {
    var a, b, c := Slug(cur), Slug([s[0]]), Slug(s[1..]);
    SlugConcat(cur, [s[0]]);
    assert s == [s[0]] + s[1..];
    SlugConcat([s[0]], s[1..]);
    assert (a + b) + c == a + (b + c);
  }

  /** The step of `SlugSplitFrom` at a run of whitespace. */
  lemma SlugSplitAtSpace(s: string, cur: string, k: nat)
    requires s != [] && IsSpace(s[0]) && k == RunLength(s, IsSpace)
    requires Slug(Join(SplitFrom(s[k..], []), " ")) == Slug(s[k..])
    ensures Slug(Join(SplitFrom(s, cur), " ")) == Slug(cur) + Slug(s)
  {
    JoinSplitAtSpace(s, cur, k);
    SlugSpaced(cur, Join(SplitFrom(s[k..], []), " "));
    SlugSkipSpaces(s, k);
  }

  lemma JoinSplitAtSpace(s: string, cur: string, k: nat)
    requires s != [] && IsSpace(s[0]) && k == RunLength(s, IsSpace)
    ensures Join(SplitFrom(s, cur), " ") == cur + " " + Join(SplitFrom(s[k..], []), " ")
  {
    var rest := SplitFrom(s[k..], []);
    assert SplitFrom(s, cur) == [cur] + rest;
    assert ([cur] + rest)[1..] == rest;
  }

  lemma SlugSkipSpaces(s: string, k: nat)
    requires k == RunLength(s, IsSpace)
    ensures Slug(s) == Slug(s[k..])
  {
    var w := s[..k];
    assert s == w + s[k..];
    SlugConcat(w, s[k..]);
    forall i | 0 <= i < |w| ensures !IsSlugChar(LowerChar(w[i])) {
      SpaceIsNotSlugChar(w[i]);
    }
    SlugOfSeparators(w);
  }

  lemma SpaceIsNotSlugChar(c: char)
    requires IsSpace(c)
    ensures !IsSlugChar(LowerChar(c))
  {
  }

  lemma SlugTitleWord(w: string)
    ensures Slug(TitleWord(w)) == Slug(w)
  {
    if w != [] {
      assert w == [w[0]] + w[1..];
      SlugConcat([w[0]], w[1..]);
      SlugConcat([UpperChar(w[0])], Lower(w[1..]));
      SlugOfChar(w[0]);
      SlugOfChar(UpperChar(w[0]));
      SlugIgnoresCase(w[1..]);
    }
  }

  lemma {:induction false} SlugTitleWords(ws: seq<string>)
    ensures Slug(Join(TitleWords(ws), " ")) == Slug(Join(ws, " "))
    decreases |ws|
  {
    var ts := TitleWords(ws);
    if |ws| == 1 {
      SlugTitleWord(ws[0]);
    } else if |ws| >= 2 {
      assert ts[1..] == TitleWords(ws[1..]);
      SlugTitleWords(ws[1..]);
      SlugTitleWord(ws[0]);
      SlugSpaced(ts[0], Join(ts[1..], " "));
      SlugSpaced(ws[0], Join(ws[1..], " "));
    }
  }

  /** The title keeps exactly the letters and digits of its source, in order and
      up to case: the source is the whole argument when it holds no '/', and the
      base name (extension stripped) of a path otherwise. */
  lemma DisplayNameKeepsSlug(x: string)
    ensures Slug(DisplayName(x)) == Slug(if '/' in x then BaseName(x) else x)
  {
    var s1 := DotsToSpaces(NameBase(x));
    var s2 := SplitCamel(s1);
    var s3 := PadNumbers(s2, false);
    var s4 := ReplaceRuns(s3, IsDash);
    var s5 := Trim(s4);
    var j := Join(TitleWords(SplitSpaces(s5)), " ");
    calc {
      Slug(DisplayName(x));
      Slug(ReplaceRuns(j, IsSpace));
      { forall c | IsSpace(c) ensures !IsSlugChar(LowerChar(c)) { }
        SlugReplaceRuns(j, IsSpace); }
      Slug(j);
      { SlugTitleWords(SplitSpaces(s5)); }
      Slug(Join(SplitFrom(s5, []), " "));
      { SlugSplitFrom(s5, []); assert Slug([]) == []; }
      Slug(s5);
      { SlugTrim(s4); }
      Slug(s4);
      { SlugReplaceRuns(s3, IsDash); }
      Slug(s3);
      { SlugPadNumbers(s2, false); }
      Slug(s2);
      { SlugSplitCamel(s1); }
      Slug(s1);
      { SlugDotsToSpaces(NameBase(x)); }
      Slug(NameBase(x));
    }
  }

  // ---------------------------------------------------------------------------
  // Whole names worked through the chain

  /** A text without digits is not padded. */
  lemma {:induction false} PadNumbersNoDigits(s: string, afterWord: bool)
    requires forall i :: 0 <= i < |s| ==> !IsDigit(s[i])
    ensures PadNumbers(s, afterWord) == s
    decreases |s|
  {
    if s != [] {
      PadNumbersNoDigits(s[1..], IsWordChar(s[0]));
      assert s == [s[0]] + s[1..];
    }
  }

  /** A text without a character of the run class is left as it is. */
  lemma {:induction false} ReplaceRunsNone(s: string, p: char -> bool)
    requires forall i :: 0 <= i < |s| ==> !p(s[i])
    ensures ReplaceRuns(s, p) == s
    decreases |s|
  {
    if s != [] {
      ReplaceRunsNone(s[1..], p);
      assert s == [s[0]] + s[1..];
    }
  }

  /** A text without a lower-case letter followed by an upper-case one is
      not split. */
  lemma {:induction false} SplitCamelNoPair(s: string)
    requires forall i :: 0 <= i < |s| - 1 ==> !(IsLowerAscii(s[i]) && IsUpperAscii(s[i + 1]))
    ensures SplitCamel(s) == s
    decreases |s|
  {
    if |s| >= 2 {
      SplitCamelNoPair(s[1..]);
      assert s == [s[0]] + s[1..];
    }
  }

  /** A word without whitespace is read into the current piece whole. */
  lemma {:induction false} SplitFromWord(w: string, rest: string, cur: string)
    requires NoSpace(w)
    ensures SplitFrom(w + rest, cur) == SplitFrom(rest, cur + w)
    decreases |w|
  {
    if w == [] {
      assert w + rest == rest && cur + w == cur;
    } else {
      ConsSplit(w, rest);
      SplitFromAtWordChar(w + rest, cur);
      SplitFromWord(w[1..], rest, cur + [w[0]]);
      Assoc(cur, [w[0]], w[1..]);
    }
  }

  /** A single space ends the current piece. */
  lemma SplitFromSpace(rest: string, cur: string)
    requires rest == [] || !IsSpace(rest[0])
    ensures SplitFrom(" " + rest, cur) == [cur] + SplitFrom(rest, [])
  {
    var s := " " + rest;
    RunLengthAt(s, IsSpace, 1);
    assert s[1..] == rest;
  }

  /** Splitting words joined by single spaces continues the current piece with
      the first word and gives the other words back. */
  lemma {:induction false} SplitFromJoin(ws: seq<string>, cur: string)
    requires |ws| >= 1
    requires forall i :: 0 <= i < |ws| ==> NoSpace(ws[i])
    requires forall i :: 1 <= i < |ws| ==> ws[i] != []
    ensures SplitFrom(Join(ws, " "), cur) == [cur + ws[0]] + ws[1..]
    decreases |ws|
  {
    if |ws| == 1 {
      SplitFromWord(ws[0], [], cur);
      assert ws[0] + [] == ws[0];
    } else {
      var rest := Join(ws[1..], " ");
      assert Join(ws, " ") == ws[0] + (" " + rest);
      JoinFirst(ws[1..]);
      SplitFromWord(ws[0], " " + rest, cur);
      SplitFromSpace(rest, cur + ws[0]);
      SplitFromJoin(ws[1..], []);
      assert [] + ws[1] == ws[1];
      assert [ws[1]] + ws[2..] == ws[1..];
    }
  }

  /** The words of a text whose words are separated by single spaces are
      those words: `split(/\s+/)` undoes `join(' ')`. */
  lemma SplitJoinWords(ws: seq<string>)
    requires |ws| >= 1
    requires forall i :: 0 <= i < |ws| ==> ws[i] != [] && NoSpace(ws[i])
    ensures SplitSpaces(Join(ws, " ")) == ws
  {
    SplitFromJoin(ws, []);
    assert [] + ws[0] == ws[0];
    assert [ws[0]] + ws[1..] == ws;
  }

  /** A text with no whitespace at its ends is split exactly at its runs of
      whitespace: its pieces are the words that, joined by single spaces,
      give the text with every run replaced by one space. */
  lemma SplitSpacesAtRuns(s: string, ws: seq<string>)
    requires s != [] && !IsSpace(s[0]) && !IsSpace(s[|s| - 1])
    requires |ws| >= 1 && forall i :: 0 <= i < |ws| ==> ws[i] != [] && NoSpace(ws[i])
    requires ReplaceRuns(s, IsSpace) == Join(ws, " ")
    ensures SplitSpaces(s) == ws
  {
    var ps := SplitSpaces(s);
    SplitFromWords(s, []);
    JoinSplitFrom(s, []);
    assert [] + ReplaceRuns(s, IsSpace) == ReplaceRuns(s, IsSpace);
    SplitJoinWords(ps);
    SplitJoinWords(ws);
  }

  /** A join of several words starts with the first character of the first. */
  lemma JoinFirst(ws: seq<string>)
    requires |ws| >= 1 && ws[0] != []
    ensures Join(ws, " ") != [] && Join(ws, " ")[0] == ws[0][0]
  {
  }

  /** Two words joined by a dot become two title-cased words: "a.b" is shown
      as "A B". */
  lemma DisplayNameOfDotted()
    ensures DisplayName("a.b") == "A B"
  {
    DottedSpaced();
    DottedCamel();
    DottedPad();
    DottedDash();
    DottedTrim();
    DottedSplit();
    DottedTitle();
    DottedJoin();
    DottedSingleSpaced();
  }

  lemma DottedSpaced()
    ensures DotsToSpaces(NameBase("a.b")) == "a b"
  {
    assert '/' !in "a.b";
    var s1 := DotsToSpaces("a.b");
    assert s1[0] == 'a' && s1[1] == ' ' && s1[2] == 'b';
  }

  lemma DottedCamel() ensures SplitCamel("a b") == "a b" { SplitCamelNoPair("a b"); }

  lemma DottedPad() ensures PadNumbers("a b", false) == "a b" { PadNumbersNoDigits("a b", false); }

  lemma DottedDash() ensures ReplaceRuns("a b", IsDash) == "a b" { ReplaceRunsNone("a b", IsDash); }

  lemma DottedTrim()
    ensures Trim("a b") == "a b"
  {
    RunLengthAt("a b", IsSpace, 0);
    assert "a b"[0..] == "a b";
  }

  lemma DottedSplit()
    ensures SplitSpaces("a b") == ["a", "b"]
  {
    var ws := ["a", "b"];
    assert ws[1..] == ["b"];
    assert Join(ws, " ") == "a b";
    SplitJoinWords(ws);
  }

  lemma DottedTitle()
    ensures TitleWords(["a", "b"]) == ["A", "B"]
  {
    var ws := ["a", "b"];
    var ts := TitleWords(ws);
    assert ts[0] == [UpperChar('a')] + Lower([]) by { assert ws[0][1..] == []; }
    assert ts[1] == [UpperChar('b')] + Lower([]) by { assert ws[1][1..] == []; }
    assert UpperChar('a') == 'A' && UpperChar('b') == 'B' && Lower([]) == [];
    assert ts[0] == "A" && ts[1] == "B";
  }

  lemma DottedJoin()
    ensures Join(["A", "B"], " ") == "A B"
  {
    assert ["A", "B"][1..] == ["B"];
  }

  lemma DottedSingleSpaced() ensures ReplaceRuns("A B", IsSpace) == "A B" { ReplaceRunsKeepsSingleSpaced("A B"); }

  /** A lower-case letter followed by an upper-case one, and an underscore:
      "aB_2" is shown as "A B 2". The number follows a word character, so it
      is not padded, and the underscore becomes the space before it. */
  lemma DisplayNameOfCamel()
    ensures DisplayName("aB_2") == "A B 2"
  {
    CamelNoDots();
    CamelSplit();
    CamelPad();
    CamelDash();
    CamelTrim();
    CamelWords();
    CamelTitle();
    CamelJoin();
    CamelSingleSpaced();
  }

  lemma CamelNoDots()
    ensures DotsToSpaces(NameBase("aB_2")) == "aB_2"
  {
    var x := "aB_2";
    assert '/' !in x && '.' !in x;
    var r := DotsToSpaces(x);
    assert forall i | 0 <= i < |x| :: r[i] == x[i];
  }

  lemma CamelSplit() ensures SplitCamel("aB_2") == "a B_2" { }

  lemma CamelPad() ensures PadNumbers("a B_2", false) == "a B_2" { }

  lemma CamelDash()
    ensures ReplaceRuns("a B_2", IsDash) == "a B 2"
  {
    var a, t := "a B", "_2";
    assert a + t == "a B_2";
    RunLengthAt(t, IsDash, 1);
    assert t[1..] == "2";
    ReplaceRunsNone("2", IsDash);
    ReplaceRunsNone(a, IsDash);
    ReplaceRunsConcat(a, t, IsDash);
  }

  lemma CamelTrim() ensures Trim("a B 2") == "a B 2" { }

  lemma CamelWords()
    ensures SplitSpaces("a B 2") == ["a", "B", "2"]
  {
    var ws := ["a", "B", "2"];
    assert ws[1..] == ["B", "2"] && ws[1..][1..] == ["2"];
    assert Join(ws, " ") == "a B 2";
    SplitJoinWords(ws);
  }

  lemma CamelTitle()
    ensures TitleWords(["a", "B", "2"]) == ["A", "B", "2"]
  {
    var ws := ["a", "B", "2"];
    var ts := TitleWords(ws);
    assert forall i | 0 <= i < 3 :: ws[i][1..] == [];
    assert Lower([]) == [];
    assert ts[0] == "A" && ts[1] == "B" && ts[2] == "2";
  }

  lemma CamelJoin()
    ensures Join(["A", "B", "2"], " ") == "A B 2"
  {
    var ts := ["A", "B", "2"];
    assert ts[1..] == ["B", "2"] && ts[1..][1..] == ["2"];
  }

  lemma CamelSingleSpaced()
    ensures ReplaceRuns("A B 2", IsSpace) == "A B 2"
  {
    ReplaceRunsKeepsSingleSpaced("A B 2");
  }

  /** A number after a dash: "a-2" is shown as "A 2". The number is padded
      with a space on each side, and the double space this leaves is read as
      one break. */
  lemma DisplayNameOfNumber()
    ensures DisplayName("a-2") == "A 2"
  {
    NumberNoDots();
    NumberSplit();
    PadNumbersAfterDash();
    NumberDash();
    NumberTrim();
    NumberWords();
    NumberTitle();
    NumberJoin();
    NumberSingleSpaced();
  }

  lemma NumberNoDots()
    ensures DotsToSpaces(NameBase("a-2")) == "a-2"
  {
    var x := "a-2";
    assert '/' !in x && '.' !in x;
    var r := DotsToSpaces(x);
    assert forall i | 0 <= i < |x| :: r[i] == x[i];
  }

  lemma NumberSplit() ensures SplitCamel("a-2") == "a-2" { }

  lemma NumberDash()
    ensures ReplaceRuns("a- 2 ", IsDash) == "a  2 "
  {
    var s, t, u := "a- 2 ", "- 2 ", " 2 ";
    assert s[1..] == t && t[1..] == u;
    RunLengthAt(t, IsDash, 1);
    ReplaceRunsNone(u, IsDash);
    assert ReplaceRuns(s, IsDash) == "a" + (" " + u);
  }

  lemma NumberTrim() ensures Trim("a  2 ") == "a  2" { }

  lemma NumberWords()
    ensures SplitSpaces("a  2") == ["a", "2"]
  {
    var ws := ["a", "2"];
    assert ws[1..] == ["2"];
    assert ReplaceRuns("a  2", IsSpace) == "a 2";
    assert Join(ws, " ") == "a 2";
    SplitSpacesAtRuns("a  2", ws);
  }

  lemma NumberTitle()
    ensures TitleWords(["a", "2"]) == ["A", "2"]
  {
    var ws := ["a", "2"];
    var ts := TitleWords(ws);
    assert ws[0][1..] == [] && ws[1][1..] == [];
    assert Lower([]) == [];
    assert ts[0] == "A" && ts[1] == "2";
  }

  lemma NumberJoin()
    ensures Join(["A", "2"], " ") == "A 2"
  {
    assert ["A", "2"][1..] == ["2"];
  }

  lemma NumberSingleSpaced()
    ensures ReplaceRuns("A 2", IsSpace) == "A 2"
  {
    ReplaceRunsKeepsSingleSpaced("A 2");
  }
}
