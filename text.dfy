/** Values that may be absent, and outcomes that may fail: the script's `null`
    results and its thrown errors. */
module Basics {
  datatype Option<+T> = None | Some(value: T)

  datatype Result<+T, +E> = Ok(value: T) | Err(error: E)

  /** JavaScript's `Array.prototype.find` as an index: the first position whose
      element satisfies `p` (a predicate that also sees the fixed argument
      `arg`), or `None` when there is none. */
  function FirstWhere<A, T>(s: seq<T>, arg: A, p: (A, T) -> bool): (r: Option<nat>)
    ensures r.Some? ==> r.value < |s| && p(arg, s[r.value])
    ensures r.Some? ==> forall j :: 0 <= j < r.value ==> !p(arg, s[j])
    ensures r.None? <==> forall j :: 0 <= j < |s| ==> !p(arg, s[j])
  {
    if |s| == 0 then None
    else if p(arg, s[0]) then Some(0)
    else match FirstWhere(s[1..], arg, p)
      case None => None
      case Some(k) => Some(k + 1)
  }

  /** The position `FirstWhere` reports is the one that satisfies `p` with none
      before it. */
  lemma FirstWhereAt<A, T>(s: seq<T>, arg: A, p: (A, T) -> bool, i: nat)
    requires i < |s| && p(arg, s[i])
    requires forall j :: 0 <= j < i ==> !p(arg, s[j])
    ensures FirstWhere(s, arg, p) == Some(i)
  {
  }
}

/** Character classes and string searches of JavaScript, restricted to what the
    menu builder uses. Case mapping is ASCII only. */
module Text {
  import opened Basics

  predicate IsLowerAscii(c: char) { 'a' <= c <= 'z' }
  predicate IsUpperAscii(c: char) { 'A' <= c <= 'Z' }
  predicate IsDigit(c: char) { '0' <= c <= '9' }

  /** A character of the regular-expression class `\w`, the one `\b` looks at. */
  predicate IsWordChar(c: char) { IsLowerAscii(c) || IsUpperAscii(c) || IsDigit(c) || c == '_' }

  /** The regular-expression class `\s` (JavaScript WhiteSpace and LineTerminator),
      which is also the set that `String.prototype.trim` removes. */
  predicate IsSpace(c: char) {
    c == '\t' || c == '\n' || c == '\U{000B}' || c == '\U{000C}' || c == '\r' || c == ' '
    || c == '\U{00A0}' || c == '\U{1680}' || ('\U{2000}' <= c <= '\U{200A}')
    || c == '\U{2028}' || c == '\U{2029}' || c == '\U{202F}' || c == '\U{205F}'
    || c == '\U{3000}' || c == '\U{FEFF}'
  }

  function LowerChar(c: char): char {
    if IsUpperAscii(c) then (c as int + 32) as char else c
  }

  function UpperChar(c: char): char {
    if IsLowerAscii(c) then (c as int - 32) as char else c
  }

  /** `toLowerCase`. */
  function Lower(s: string): string {
    seq(|s|, i requires 0 <= i < |s| => LowerChar(s[i]))
  }

  lemma LowerConcat(a: string, b: string)
    ensures Lower(a + b) == Lower(a) + Lower(b)
  {
  }

  lemma LowerIdempotent(s: string)
    ensures Lower(Lower(s)) == Lower(s)
  {
  }

  /** `Array.prototype.join(sep)` on strings. */
  function Join(ws: seq<string>, sep: string): string {
    if |ws| == 0 then []
    else if |ws| == 1 then ws[0]
    else ws[0] + sep + Join(ws[1..], sep)
  }

  /** `String.prototype.split(c)` for a one-character separator: the pieces
      between separators, one more than there are separators. */
  function SplitOn(s: string, c: char): (r: seq<string>)
    ensures |r| >= 1
  {
    if s == [] then [[]]
    else
      var rest := SplitOn(s[1..], c);
      if s[0] == c then [[]] + rest else [[s[0]] + rest[0]] + rest[1..]
  }

  lemma {:induction false} SplitOnPlainPrefix(w: string, t: string, c: char)
    requires c !in w
    ensures SplitOn(w + t, c) == [w + SplitOn(t, c)[0]] + SplitOn(t, c)[1..]
  {
    var r := SplitOn(t, c);
    if w == [] {
      assert w + t == t && w + r[0] == r[0];
      assert r == [r[0]] + r[1..];
    } else {
      assert (w + t)[1..] == w[1..] + t;
      SplitOnPlainPrefix(w[1..], t, c);
      assert [w[0]] + (w[1..] + SplitOn(t, c)[0]) == w + SplitOn(t, c)[0];
    }
  }

  /** Splitting undoes joining when no piece holds the separator. */
  lemma {:induction false} SplitJoin(ws: seq<string>, c: char)
    requires |ws| >= 1
    requires forall i | 0 <= i < |ws| :: c !in ws[i]
    ensures SplitOn(Join(ws, [c]), c) == ws
  {
    if |ws| == 1 {
      SplitOnPlainPrefix(ws[0], [], c);
      assert ws[0] + [] == ws[0];
    } else {
      var rest := Join(ws[1..], [c]);
      SplitJoin(ws[1..], c);
      assert Join(ws, [c]) == ws[0] + ([c] + rest);
      SplitOnPlainPrefix(ws[0], [c] + rest, c);
      assert ([c] + rest)[1..] == rest;
      assert SplitOn([c] + rest, c) == [[]] + ws[1..];
      assert ws[0] + [] == ws[0];
    }
  }

  predicate StartsWith(s: string, prefix: string) {
    |prefix| <= |s| && s[..|prefix|] == prefix
  }

  predicate EndsWith(s: string, suffix: string) {
    |suffix| <= |s| && s[|s| - |suffix|..] == suffix
  }

  /** `sub` occurs in `s` starting at position `i`. */
  predicate OccursAt(s: string, sub: string, i: nat) {
    i + |sub| <= |s| && s[i..i + |sub|] == sub
  }

  /** `String.prototype.includes`. */
  predicate Contains(s: string, sub: string) {
    exists i: nat | i <= |s| :: OccursAt(s, sub, i)
  }

  function IndexFrom(s: string, sub: string, from: nat): (r: int)
    requires from <= |s|
    requires forall j: nat :: j < from ==> !OccursAt(s, sub, j)
    ensures r >= -1
    ensures r == -1 <==> !Contains(s, sub)
    ensures r >= 0 ==> OccursAt(s, sub, r) && forall j: nat :: j < r ==> !OccursAt(s, sub, j)
    decreases |s| - from
  {
    if OccursAt(s, sub, from) then from
    else if from + |sub| >= |s| then
      assert forall j: nat :: from <= j ==> !OccursAt(s, sub, j);
      -1
    else IndexFrom(s, sub, from + 1)
  }

  /** `String.prototype.indexOf`: the first occurrence of `sub` in `s`, or -1. */
  function IndexOf(s: string, sub: string): (r: int)
    ensures r >= -1
    ensures r == -1 <==> !Contains(s, sub)
    ensures r >= 0 ==> OccursAt(s, sub, r) && forall j: nat :: j < r ==> !OccursAt(s, sub, j)
  {
    IndexFrom(s, sub, 0)
  }

  /** The position of the last `c` in `s`, or -1 when `c` does not occur. */
  function LastIndexOfChar(s: string, c: char): (r: int)
    ensures -1 <= r < |s|
    ensures r == -1 <==> c !in s
    ensures r >= 0 ==> r < |s| && s[r] == c && forall j :: r < j < |s| ==> s[j] != c
  {
    if |s| == 0 then -1
    else if s[|s| - 1] == c then |s| - 1
    else LastIndexOfChar(s[..|s| - 1], c)
  }

  // ---------------------------------------------------------------------------
  // Sequence steps, stated once so that proofs over long texts need not redo them

  lemma ConsSplit<T>(u: seq<T>, v: seq<T>)
    requires u != []
    ensures u == [u[0]] + u[1..] && u + v == [u[0]] + (u[1..] + v)
  {
  }

  lemma ConsAssoc<T>(c: T, a: seq<T>, b: seq<T>)
    ensures [c] + (a + b) == ([c] + a) + b
  {
  }

  lemma Assoc<T>(h: seq<T>, a: seq<T>, b: seq<T>)
    ensures h + (a + b) == (h + a) + b
  {
  }

  lemma SplitAt<T>(u: seq<T>, v: seq<T>, k: nat)
    requires k < |u|
    ensures (u + v)[..k] == u[..k] && (u + v)[k] == u[k] && (u + v)[k..] == u[k..] + v
  {
  }
}
