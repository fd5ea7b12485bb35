/** `findImage(gameFile)`: a guess at a thumbnail in the shared image pool, by
    three tiers tried in order — same name, related name, and a fixed rule for
    one franchise. */
module Images {
  import opened Basics
  import opened Text
  import opened Paths
  import opened Slugs

  /** The extensions a pool image may have, compared after lower-casing. */
  const PoolExts: seq<string> := [".png", ".jpg", ".jpeg", ".gif", ".webp"]

  predicate IsPoolImage(f: string) {
    Lower(ExtName(f)) in PoolExts && !StartsWith(f, ".")
  }

  /** The pool: the listing of the image directory, keeping the names with a
      recognised extension that are not hidden, in listing order. */
  function ImagePool(listing: seq<string>): (pool: seq<string>)
    ensures forall f :: f in pool <==> f in listing && IsPoolImage(f)
    ensures |pool| <= |listing|
  {
    if listing == [] then []
    else (if IsPoolImage(listing[0]) then [listing[0]] else []) + ImagePool(listing[1..])
  }

  /** The pool keeps the listing's order: the pool of two listings one after
      the other is the first one's pool followed by the second one's, and a
      single name is kept exactly when it is a pool image. */
  lemma {:induction false} ImagePoolConcat(a: seq<string>, b: seq<string>)
    ensures ImagePool(a + b) == ImagePool(a) + ImagePool(b)
    decreases |a|
  {
    if a == [] {
      assert a + b == b;
    } else {
      assert (a + b)[0] == a[0] && (a + b)[1..] == a[1..] + b;
      ImagePoolConcat(a[1..], b);
      var h := if IsPoolImage(a[0]) then [a[0]] else [];
      assert h + (ImagePool(a[1..]) + ImagePool(b)) == (h + ImagePool(a[1..])) + ImagePool(b);
    }
  }

  lemma ImagePoolOne(f: string)
    ensures ImagePool([f]) == if IsPoolImage(f) then [f] else []
  {
    assert [f][1..] == [];
  }

  /** An image with its base name and the base name's slug. */
  datatype Candidate = Candidate(file: string, name: string, slug: string)

  function CandidateOf(img: string): Candidate {
    Candidate(img, BaseName(img), Slug(BaseName(img)))
  }

  function Candidates(pool: seq<string>): (cs: seq<Candidate>)
    ensures |cs| == |pool|
  {
    seq(|pool|, i requires 0 <= i < |pool| => CandidateOf(pool[i]))
  }

  /** The names that the franchise rule may return. */
  const FnafFiles: set<string> := {"fnafsl.jpeg", "fnaf4.jpeg", "fnaf3.jpeg", "fnaf2.jpeg", "fnaf1.jpeg"}

  /** Tier three, for base names that mention "fnaf" in any case: "sl" or
      "sister" first, then the digits 4, 3 and 2, else the first game. The
      chosen name need not be in the pool. */
  function FnafImage(base: string): (r: Option<string>)
    ensures r.Some? <==> Contains(Lower(base), "fnaf")
    ensures r.Some? ==> r.value in FnafFiles
  {
    var low := Lower(base);
    if !Contains(low, "fnaf") then None
    else if Contains(low, "sl") || Contains(low, "sister") then Some("fnafsl.jpeg")
    else if Contains(base, "4") then Some("fnaf4.jpeg")
    else if Contains(base, "3") then Some("fnaf3.jpeg")
    else if Contains(base, "2") then Some("fnaf2.jpeg")
    else Some("fnaf1.jpeg")
  }

  /** The query: a game's base name and its slug. */
  datatype Query = Query(base: string, slug: string)

  function QueryOf(gameFile: string): Query {
    Query(BaseName(gameFile), Slug(BaseName(gameFile)))
  }

  /** The test of the first `find`: the image has the query's slug, or its base
      name equals the query's base name up to case. */
  predicate MatchesExactly(q: Query, c: Candidate) {
    c.slug == q.slug || Lower(c.name) == Lower(q.base)
  }

  /** The test of the second `find`: one slug contains the other. */
  predicate MatchesLoosely(q: Query, c: Candidate) {
    Contains(q.slug, c.slug) || Contains(c.slug, q.slug)
  }

  /** Tier one for an image of the pool. */
  predicate IsExact(img: string, gameFile: string) {
    MatchesExactly(QueryOf(gameFile), CandidateOf(img))
  }

  /** Tier two for an image of the pool. */
  predicate IsRelated(img: string, gameFile: string) {
    MatchesLoosely(QueryOf(gameFile), CandidateOf(img))
  }

  function FindImage(gameFile: string, pool: seq<string>): Option<string> {
    var q := QueryOf(gameFile);
    var cs := Candidates(pool);
    match FirstWhere(cs, q, MatchesExactly)
    case Some(i) => Some(cs[i].file)
    case None =>
      match FirstWhere(cs, q, MatchesLoosely)
      case Some(i) => Some(cs[i].file)
      case None => FnafImage(q.base)
  }

  // ---------------------------------------------------------------------------
  // Precedence of the tiers

  /** When some image matches exactly, the first such image in pool order is
      the answer, whatever related images come before it. */
  lemma FindImageExact(gameFile: string, pool: seq<string>, i: nat)
    requires i < |pool| && IsExact(pool[i], gameFile)
    requires forall j :: 0 <= j < i ==> !IsExact(pool[j], gameFile)
    ensures FindImage(gameFile, pool) == Some(pool[i])
  {
    var q, cs := QueryOf(gameFile), Candidates(pool);
    assert MatchesExactly(q, cs[i]);
    forall j | 0 <= j < i ensures !MatchesExactly(q, cs[j]) {
      assert cs[j] == CandidateOf(pool[j]) && !IsExact(pool[j], gameFile);
    }
    FirstWhereAt(cs, q, MatchesExactly, i);
  }

  /** Containment is consulted only when no image matches exactly; then the
      first related image in pool order is the answer. */
  lemma FindImageRelated(gameFile: string, pool: seq<string>, i: nat)
    requires forall j :: 0 <= j < |pool| ==> !IsExact(pool[j], gameFile)
    requires i < |pool| && IsRelated(pool[i], gameFile)
    requires forall j :: 0 <= j < i ==> !IsRelated(pool[j], gameFile)
    ensures FindImage(gameFile, pool) == Some(pool[i])
  {
    var q, cs := QueryOf(gameFile), Candidates(pool);
    forall j | 0 <= j < |cs| ensures !MatchesExactly(q, cs[j]) {
      assert cs[j] == CandidateOf(pool[j]) && !IsExact(pool[j], gameFile);
    }
    assert FirstWhere(cs, q, MatchesExactly) == None;
    assert MatchesLoosely(q, cs[i]);
    forall j | 0 <= j < i ensures !MatchesLoosely(q, cs[j]) {
      assert cs[j] == CandidateOf(pool[j]) && !IsRelated(pool[j], gameFile);
    }
    FirstWhereAt(cs, q, MatchesLoosely, i);
  }

  /** With neither an exact nor a related image, the franchise rule decides. */
  lemma FindImageFallback(gameFile: string, pool: seq<string>)
    requires forall j :: 0 <= j < |pool| ==> !IsExact(pool[j], gameFile) && !IsRelated(pool[j], gameFile)
    ensures FindImage(gameFile, pool) == FnafImage(BaseName(gameFile))
  {
    var q, cs := QueryOf(gameFile), Candidates(pool);
    forall j | 0 <= j < |cs| ensures !MatchesExactly(q, cs[j]) && !MatchesLoosely(q, cs[j]) {
      assert cs[j] == CandidateOf(pool[j]) && !IsExact(pool[j], gameFile) && !IsRelated(pool[j], gameFile);
    }
    assert FirstWhere(cs, q, MatchesExactly) == None;
    assert FirstWhere(cs, q, MatchesLoosely) == None;
  }

  /** Any answer is an image of the pool, except a franchise name chosen
      because no image matched; there is no answer exactly when nothing
      matched and the base name does not mention "fnaf". */
  lemma FindImageResult(gameFile: string, pool: seq<string>)
    ensures var r := FindImage(gameFile, pool);
      && (r.Some? && r.value !in pool ==>
            r.value in FnafFiles && Contains(Lower(BaseName(gameFile)), "fnaf"))
      && (r.None? <==>
            (forall j :: 0 <= j < |pool| ==> !IsExact(pool[j], gameFile) && !IsRelated(pool[j], gameFile))
            && !Contains(Lower(BaseName(gameFile)), "fnaf"))
  {
    var q, cs := QueryOf(gameFile), Candidates(pool);
    var fp, fq := FirstWhere(cs, q, MatchesExactly), FirstWhere(cs, q, MatchesLoosely);
    if fp.Some? {
      assert FindImage(gameFile, pool) == Some(pool[fp.value]);
      assert IsExact(pool[fp.value], gameFile);
    } else if fq.Some? {
      assert FindImage(gameFile, pool) == Some(pool[fq.value]);
      assert IsRelated(pool[fq.value], gameFile);
    } else {
      forall j | 0 <= j < |pool| ensures !IsExact(pool[j], gameFile) && !IsRelated(pool[j], gameFile) {
        assert cs[j] == CandidateOf(pool[j]) && !MatchesExactly(q, cs[j]) && !MatchesLoosely(q, cs[j]);
      }
    }
  }

  /** A query whose slug is empty is related to every image, so a non-empty pool
      always answers: the first exact image if there is one, else the first
      image of the pool. */
  lemma FindImageEmptySlug(gameFile: string, pool: seq<string>)
    requires Slug(BaseName(gameFile)) == [] && pool != []
    requires forall j :: 0 <= j < |pool| ==> !IsExact(pool[j], gameFile)
    ensures FindImage(gameFile, pool) == Some(pool[0])
  {
    assert OccursAt(Slug(BaseName(pool[0])), [], 0);
    FindImageRelated(gameFile, pool, 0);
  }

  /** Tier three in full: with no exact and no related image, a base name that
      mentions "fnaf" in any case gets the "sl"/"sister" image, else the one of
      the first of the digits 4, 3, 2 it contains, else the first game's image,
      whether or not that file is in the pool; any other base name gets none. */
  lemma FindImageFnafOrder(gameFile: string, pool: seq<string>)
    requires forall j :: 0 <= j < |pool| ==> !IsExact(pool[j], gameFile) && !IsRelated(pool[j], gameFile)
    ensures var b := BaseName(gameFile);
      var low := Lower(b);
      var fnaf := Contains(low, "fnaf");
      var sister := Contains(low, "sl") || Contains(low, "sister");
      var r := FindImage(gameFile, pool);
      && (r == None <==> !fnaf)
      && (r == Some("fnafsl.jpeg") <==> fnaf && sister)
      && (r == Some("fnaf4.jpeg") <==> fnaf && !sister && Contains(b, "4"))
      && (r == Some("fnaf3.jpeg") <==> fnaf && !sister && !Contains(b, "4") && Contains(b, "3"))
      && (r == Some("fnaf2.jpeg") <==>
            fnaf && !sister && !Contains(b, "4") && !Contains(b, "3") && Contains(b, "2"))
      && (r == Some("fnaf1.jpeg") <==>
            fnaf && !sister && !Contains(b, "4") && !Contains(b, "3") && !Contains(b, "2"))
  {
    FindImageFallback(gameFile, pool);
  }
}
