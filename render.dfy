/** `gamesJs`: every game as one line of an object literal, the lines joined by
    ",\n". Text fields are put between single quotes, with a backslash added
    before each single quote they contain and nothing else escaped. */
module Render {
  import opened Basics
  import opened Text
  import opened Games

  /** `String(x).replace(/'/g, "\\'")`. */
  function EscapeQuotes(s: string): (r: string)
    ensures |r| >= |s|
    ensures forall i | 0 <= i < |r| :: r[i] == '\'' ==> i > 0 && r[i - 1] == '\\'
    ensures '\'' !in s ==> r == s
  {
    if s == [] then []
    else
      var head := if s[0] == '\'' then "\\'" else [s[0]];
      var rest := EscapeQuotes(s[1..]);
      assert forall i | |head| <= i < |head + rest| :: (head + rest)[i] == rest[i - |head|];
      head + rest
  }

  /** Escaping works character by character: that of a concatenation is the
      concatenation of the escaped parts. */
  lemma {:induction false} EscapeQuotesConcat(a: string, b: string)
    ensures EscapeQuotes(a + b) == EscapeQuotes(a) + EscapeQuotes(b)
    decreases |a|
  {
    if a == [] {
      assert a + b == b;
    } else {
      ConsSplit(a, b);
      EscapeQuotesConcat(a[1..], b);
      var head := if a[0] == '\'' then "\\'" else [a[0]];
      Assoc(head, EscapeQuotes(a[1..]), EscapeQuotes(b));
    }
  }

  /** A quote becomes backslash and quote; every other character, a backslash
      included, is kept. */
  lemma EscapeQuotesOne(c: char)
    ensures EscapeQuotes([c]) == if c == '\'' then "\\'" else [c]
  {
    assert [c][1..] == [];
  }

  /** The image part of a line: a quoted path, or `null` when there is none
      (an empty path counts as none, as it is falsy). */
  function ImageLiteral(image: Option<string>): string {
    match image
    case Some(p) => if p == [] then "null" else "'" + EscapeQuotes(p) + "'"
    case None => "null"
  }

  function RenderGame(g: Game): string {
    "      { file: '" + EscapeQuotes(g.file) + "', name: '" + EscapeQuotes(g.name)
      + "', image: " + ImageLiteral(g.image) + " }"
  }

  function RenderLines(gs: seq<Game>): (lines: seq<string>)
    ensures |lines| == |gs|
  {
    seq(|gs|, i requires 0 <= i < |gs| => RenderGame(gs[i]))
  }

  function RenderGames(gs: seq<Game>): string {
    Join(RenderLines(gs), ",\n")
  }

  // ---------------------------------------------------------------------------
  // Reading a line back

  /** Reads the text of a quoted field whose opening quote is already consumed:
      `\'` stands for a quote and an unescaped quote closes the field. Gives
      the text and what follows the closing quote. This is not JavaScript's
      reading of a string literal: a backslash followed by any other character
      is kept as a backslash. It is only used on fields without backslashes,
      where the two readings agree. */
  function ReadQuoted(s: string): Option<(string, string)> {
    if s == [] then None
    else if s[0] == '\'' then Some(([], s[1..]))
    else if s[0] == '\\' && |s| >= 2 && s[1] == '\'' then
      match ReadQuoted(s[2..])
      case None => None
      case Some(tr) => Some((['\''] + tr.0, tr.1))
    else
      match ReadQuoted(s[1..])
      case None => None
      case Some(tr) => Some(([s[0]] + tr.0, tr.1))
  }

  /** A field without backslashes reads back as itself, and the reading stops
      at the quote that closes it. */
  lemma {:induction false} ReadEscaped(s: string, rest: string)
    requires '\\' !in s
    ensures ReadQuoted(EscapeQuotes(s) + "'" + rest) == Some((s, rest))
  {
    if s == [] {
      assert EscapeQuotes(s) + "'" + rest == ['\''] + rest;
    } else {
      var c := s[0];
      var head := if c == '\'' then "\\'" else [c];
      var tail := EscapeQuotes(s[1..]) + "'" + rest;
      ReadEscaped(s[1..], rest);
      assert EscapeQuotes(s) == head + EscapeQuotes(s[1..]);
      calc {
        ReadQuoted(EscapeQuotes(s) + "'" + rest);
        { assert EscapeQuotes(s) + "'" + rest == head + tail; }
        ReadQuoted(head + tail);
        { ReadStep(c, tail); }
        Some(([c] + s[1..], rest));
        { assert [c] + s[1..] == s; }
        Some((s, rest));
      }
    }
  }

  /** One step of reading: an escaped quote or another character. */
  lemma ReadStep(c: char, tail: string)
    requires c != '\\'
    ensures var head := if c == '\'' then "\\'" else [c];
      ReadQuoted(tail).Some? ==>
        ReadQuoted(head + tail) == Some(([c] + ReadQuoted(tail).value.0, ReadQuoted(tail).value.1))
  {
    if c == '\'' {
      assert ("\\'" + tail)[2..] == tail;
    } else {
      assert ([c] + tail)[1..] == tail;
    }
  }

  /** Backslashes are not escaped, so a field that ends in one swallows its
      closing quote: the rendering of such a field cannot be read back. */
  lemma TrailingBackslashSwallowsQuote()
    ensures EscapeQuotes("\\") + "'" == "\\'"
    ensures ReadQuoted(EscapeQuotes("\\") + "'") == None
  {
    assert EscapeQuotes("\\") == "\\";
    assert ReadQuoted("\\'") == ReadQuoted([]);
  }

  function ReadImage(s: string): Option<Option<string>> {
    if s == "null }" then Some(None)
    else if s != [] && s[0] == '\'' then
      match ReadQuoted(s[1..])
      case None => None
      case Some(tr) => if tr.1 == " }" then Some(Some(tr.0)) else None
    else None
  }

  /** Reads one rendered line back into a game. */
  function ReadGame(line: string): Option<Game> {
    var p0 := "      { file: '";
    if !StartsWith(line, p0) then None
    else
      match ReadQuoted(line[|p0|..])
      case None => None
      case Some(f) =>
        var p1 := ", name: '";
        if !StartsWith(f.1, p1) then None
        else
          match ReadQuoted(f.1[|p1|..])
          case None => None
          case Some(n) =>
            var p2 := ", image: ";
            if !StartsWith(n.1, p2) then None
            else
              match ReadImage(n.1[|p2|..])
              case None => None
              case Some(img) => Some(Game(f.0, n.0, img))
  }

  /** The text after a known prefix. */
  lemma DropPrefix(p: string, s: string)
    ensures StartsWith(p + s, p) && (p + s)[|p|..] == s
  {
    assert (p + s)[..|p|] == p;
  }

  lemma ReadImageRendered(image: Option<string>)
    requires image != Some([])
    requires image.Some? ==> '\\' !in image.value
    ensures ReadImage(ImageLiteral(image) + " }") == Some(image)
  {
    var line := ImageLiteral(image) + " }";
    if image.Some? {
      var e := EscapeQuotes(image.value);
      ReadEscaped(image.value, " }");
      assert ImageLiteral(image) == "'" + e + "'";
      assert line == "'" + (e + "'" + " }");
      assert line[0] == '\'' && line[1..] == e + "'" + " }";
      assert ReadQuoted(line[1..]) == Some((image.value, " }"));
    } else {
      assert line == "null }";
    }
  }

  lemma Regroup(p0: string, a: string, q: string, p1: string, b: string, p2: string, l: string, e: string)
    ensures p0 + a + (q + p1) + b + (q + p2) + l + e == p0 + (a + q + (p1 + (b + q + (p2 + (l + e)))))
  {
  }

  /** A line is the file prefix followed by the file field, its closing quote
      and what comes after. */
  lemma RenderGameShape(g: Game)
    ensures RenderGame(g) ==
      "      { file: '" + (EscapeQuotes(g.file) + "'" + (", name: '" +
        (EscapeQuotes(g.name) + "'" + (", image: " + (ImageLiteral(g.image) + " }")))))
  {
    var a, b, l := EscapeQuotes(g.file), EscapeQuotes(g.name), ImageLiteral(g.image);
    calc {
      RenderGame(g);
      "      { file: '" + a + "', name: '" + b + "', image: " + l + " }";
      { assert "', name: '" == "'" + ", name: '" && "', image: " == "'" + ", image: "; }
      "      { file: '" + a + ("'" + ", name: '") + b + ("'" + ", image: ") + l + " }";
      { Regroup("      { file: '", a, "'", ", name: '", b, ", image: ", l, " }"); }
      "      { file: '" + (a + "'" + (", name: '" + (b + "'" + (", image: " + (l + " }")))));
    }
  }

  /** After a prefix, a quoted field without backslashes reads back. */
  lemma ReadFieldAfter(p: string, s: string, rest: string)
    requires '\\' !in s
    ensures StartsWith(p + (EscapeQuotes(s) + "'" + rest), p)
    ensures ReadQuoted((p + (EscapeQuotes(s) + "'" + rest))[|p|..]) == Some((s, rest))
  {
    DropPrefix(p, EscapeQuotes(s) + "'" + rest);
    ReadEscaped(s, rest);
  }

  /** A game whose fields hold no backslash reads back from its line. */
  lemma ReadRenderedGame(g: Game)
    requires '\\' !in g.file && '\\' !in g.name
    requires g.image != Some([]) && (g.image.Some? ==> '\\' !in g.image.value)
    ensures ReadGame(RenderGame(g)) == Some(g)
  {
    var p2 := ", image: ";
    var r2 := ImageLiteral(g.image) + " }";
    var r1 := EscapeQuotes(g.name) + "'" + (p2 + r2);
    RenderGameShape(g);
    ReadFieldAfter("      { file: '", g.file, ", name: '" + r1);
    ReadFieldAfter(", name: '", g.name, p2 + r2);
    DropPrefix(p2, r2);
    ReadImageRendered(g.image);
  }
}
