/** The comparison key `slug(s)`: lower-case the text, remove whitespace, then
    remove everything outside `[a-z0-9]`. */
module Slugs {
  import opened Text

  predicate IsSlugChar(c: char) { IsLowerAscii(c) || IsDigit(c) }

  predicate AllSlugChars(s: string) {
    forall i :: 0 <= i < |s| ==> IsSlugChar(s[i])
  }

  /** `.replace(/\s+/g, '')`. */
  function DropSpaces(s: string): (r: string)
    ensures forall i :: 0 <= i < |r| ==> !IsSpace(r[i])
    ensures |r| <= |s|
  {
    if s == [] then []
    else (if IsSpace(s[0]) then [] else [s[0]]) + DropSpaces(s[1..])
  }

  /** `.replace(/[^a-z0-9]/g, '')`. */
  function KeepSlugChars(s: string): (r: string)
    ensures AllSlugChars(r)
    ensures |r| <= |s|
  {
    if s == [] then []
    else (if IsSlugChar(s[0]) then [s[0]] else []) + KeepSlugChars(s[1..])
  }

  function Slug(s: string): (r: string)
    ensures AllSlugChars(r)
  {
    KeepSlugChars(DropSpaces(Lower(s)))
  }

  lemma {:induction false} DropSpacesConcat(a: string, b: string)
    ensures DropSpaces(a + b) == DropSpaces(a) + DropSpaces(b)
  {
    if a != [] {
      assert (a + b)[1..] == a[1..] + b;
      DropSpacesConcat(a[1..], b);
    } else {
      assert a + b == b;
    }
  }

  lemma {:induction false} KeepSlugCharsConcat(a: string, b: string)
    ensures KeepSlugChars(a + b) == KeepSlugChars(a) + KeepSlugChars(b)
  {
    if a != [] {
      assert (a + b)[1..] == a[1..] + b;
      KeepSlugCharsConcat(a[1..], b);
    } else {
      assert a + b == b;
    }
  }

  /** The slug of a concatenation is the concatenation of the slugs: every
      character contributes to the key on its own. */
  lemma SlugConcat(a: string, b: string)
    ensures Slug(a + b) == Slug(a) + Slug(b)
  {
    LowerConcat(a, b);
    DropSpacesConcat(Lower(a), Lower(b));
    KeepSlugCharsConcat(DropSpaces(Lower(a)), DropSpaces(Lower(b)));
  }

  /** What one character contributes to a slug: its lower-case form when that is
      a letter or a digit, nothing otherwise. */
  lemma SlugOfChar(c: char)
    ensures Slug([c]) == if IsSlugChar(LowerChar(c)) then [LowerChar(c)] else []
  {
    assert Lower([c]) == [LowerChar(c)];
    assert IsSlugChar(LowerChar(c)) ==> !IsSpace(LowerChar(c));
  }

  lemma {:induction false} SlugOfSlugChars(s: string)
    requires AllSlugChars(s)
    ensures Slug(s) == s
  {
    if s != [] {
      assert s == [s[0]] + s[1..];
      SlugConcat([s[0]], s[1..]);
      SlugOfChar(s[0]);
      SlugOfSlugChars(s[1..]);
    }
  }

  /** Slugging is idempotent. */
  lemma SlugIdempotent(s: string)
    ensures Slug(Slug(s)) == Slug(s)
  {
    SlugOfSlugChars(Slug(s));
  }

  /** The key ignores letter case. */
  lemma {:induction false} SlugIgnoresCase(s: string)
    ensures Slug(Lower(s)) == Slug(s)
  {
    LowerIdempotent(s);
  }

  /** The key of a text made only of characters outside `[A-Za-z0-9]` is empty. */
  lemma {:induction false} SlugOfSeparators(s: string)
    requires forall i :: 0 <= i < |s| ==> !IsSlugChar(LowerChar(s[i]))
    ensures Slug(s) == []
  {
    if s != [] {
      assert s == [s[0]] + s[1..];
      SlugConcat([s[0]], s[1..]);
      SlugOfChar(s[0]);
      SlugOfSeparators(s[1..]);
    }
  }
}
