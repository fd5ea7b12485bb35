/** The parts of Node's POSIX `path` module the menu builder relies on:
    `basename` (with and without a suffix) and `extname`, for paths that do not
    end in '/'. */
module Paths {
  import opened Text

  /** The text after the last '/', that is `path.basename(p)`. */
  function LastSegment(p: string): (r: string)
    ensures '/' !in r
    ensures '/' !in p ==> r == p
  {
    var k := LastIndexOfChar(p, '/');
    p[k + 1..]
  }

  /** The extension of a single segment: from its last '.' to its end, except
      that a segment without a '.', one whose only '.' is its first character,
      and ".." have none. */
  function SegmentExt(seg: string): (r: string)
    ensures r == [] || (r[0] == '.' && forall j :: 1 <= j < |r| ==> r[j] != '.')
    ensures r != [] ==> EndsWith(seg, r) && |r| < |seg|
    ensures '.' !in seg ==> r == []
    ensures r != [] <==> seg != ".." && exists i :: 0 < i < |seg| && seg[i] == '.'
  {
    var d := LastIndexOfChar(seg, '.');
    if d <= 0 || seg == ".." then
      assert seg != ".." ==> forall i :: 0 < i < |seg| ==> seg[i] != '.';
      ""
    else
      var r := seg[d..];
      assert forall j :: 1 <= j < |r| ==> r[j] == seg[d + j];
      r
  }

  /** `path.extname(p)`. */
  function ExtName(p: string): string {
    SegmentExt(LastSegment(p))
  }

  /** Whether `path.basename(p, suffix)` strips `suffix` from the last segment. */
  predicate StripsSuffix(p: string, suffix: string) {
    suffix != [] && p != suffix && LastSegment(p) != suffix && EndsWith(LastSegment(p), suffix)
  }

  /** `path.basename(p, suffix)`: the last segment, with `suffix` removed when it
      ends with it and is not all of it; the whole path equal to `suffix` gives "". */
  function BaseNameWith(p: string, suffix: string): (r: string)
    ensures StripsSuffix(p, suffix) ==> LastSegment(p) == r + suffix
    ensures p == suffix ==> r == []
    ensures !StripsSuffix(p, suffix) && p != suffix ==> r == LastSegment(p)
  {
    var seg := LastSegment(p);
    if |suffix| == 0 || |suffix| > |p| then seg
    else if p == suffix then ""
    else if seg != suffix && EndsWith(seg, suffix) then
      var r := seg[..|seg| - |suffix|];
      assert seg == r + seg[|seg| - |suffix|..];
      r
    else seg
  }

  /** `baseName(file)`: the last segment without its extension. The segment is
      exactly the base name followed by the extension. */
  function BaseName(p: string): (r: string)
    ensures LastSegment(p) == r + ExtName(p)
    ensures '/' !in r
  {
    var seg := LastSegment(p);
    var ext := SegmentExt(seg);
    if ext == [] then
      assert BaseNameWith(p, ext) == seg;
      seg
    else
      assert |ext| < |seg| <= |p|;
      assert seg == seg[..|seg| - |ext|] + ext;
      assert BaseNameWith(p, ext) == seg[..|seg| - |ext|];
      BaseNameWith(p, ext)
  }

  /** A plain file name: a stem without '.' followed by an extension, one '.'
      and then no other. */
  lemma NameParts(stem: string, ext: string)
    requires stem != [] && '.' !in stem && '/' !in stem
    requires ext != [] && ext[0] == '.' && '.' !in ext[1..] && '/' !in ext
    ensures LastSegment(stem + ext) == stem + ext
    ensures ExtName(stem + ext) == ext && BaseName(stem + ext) == stem
  {
    var n := stem + ext;
    assert '/' !in n by {
      forall i | 0 <= i < |n| ensures n[i] != '/' {
        if i < |stem| { assert n[i] == stem[i]; } else { assert n[i] == ext[i - |stem|]; }
      }
    }
    var d := LastIndexOfChar(n, '.');
    assert n[|stem|] == '.';
    assert d == |stem|;
    assert n[d..] == ext;
    assert n != ".." by { assert n[0] == stem[0]; }
    assert n == BaseName(n) + ext;
    assert BaseName(n) == n[..|stem|];
  }

  /** The base name depends only on the last segment. */
  lemma BaseNameOfSegment(p: string)
    ensures BaseName(LastSegment(p)) == BaseName(p)
  {
    var seg := LastSegment(p);
    assert LastSegment(seg) == seg;
    assert ExtName(seg) == ExtName(p);
    assert seg == BaseName(seg) + ExtName(p) == BaseName(p) + ExtName(p);
    assert BaseName(seg) == seg[..|seg| - |ExtName(p)|] == BaseName(p);
  }

  /** The last segment of `a/b` is `b` when `b` holds no '/'. */
  lemma LastSegmentAfterSlash(a: string, b: string)
    requires '/' !in b
    ensures LastSegment(a + "/" + b) == b
  {
    var p := a + "/" + b;
    assert p[|a|] == '/';
    forall j | |a| < j < |p| ensures p[j] != '/' {
      assert p[j] == b[j - |a| - 1];
    }
    assert LastIndexOfChar(p, '/') == |a|;
    assert p[|a| + 1..] == b;
  }
}
