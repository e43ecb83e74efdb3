/** Which image resolve_image_for_site (compute/onecloud.py) chooses, case by case, in terms of the
    listed images and their positions. */
module ImageChoice {
  import opened Basics
  import opened Options
  import opened Images

  // ----- the candidates, in the order of the list --------------------------

  /** The positions of the images that pass, in order. */
  function PositionsOf(s: seq<Image>, keep: Image -> bool): (at: seq<nat>)
    ensures AscendingBelow(at, |s|)
    ensures forall i :: 0 <= i < |s| ==> (i in at <==> keep(s[i]))
  {
    if s == [] then []
    else
      var n := |s| - 1;
      PositionsOf(s[..n], keep) + if keep(s[n]) then [n] else []
  }

  lemma {:induction false} FilterOfTwo(a: seq<Image>, b: seq<Image>, keep: Image -> bool)
    ensures Filter(a + b, keep) == Filter(a, keep) + Filter(b, keep)
  {
    if a == [] {
      assert a + b == b;
    } else {
      assert (a + b)[1..] == a[1..] + b;
      FilterOfTwo(a[1..], b, keep);
    }
  }

  lemma {:induction false} FilterPicks(s: seq<Image>, keep: Image -> bool)
    ensures Picks(s, PositionsOf(s, keep), Filter(s, keep))
  {
    if s != [] {
      var n := |s| - 1;
      assert s == s[..n] + [s[n]];
      FilterOfTwo(s[..n], [s[n]], keep);
      FilterPicks(s[..n], keep);
      PicksMore(s[..n], PositionsOf(s[..n], keep), Filter(s[..n], keep), s[n]);
      assert Filter([s[n]], keep) == if keep(s[n]) then [s[n]] else [];
    }
  }

  lemma {:induction false} FilterTwice(s: seq<Image>, p: Image -> bool, q: Image -> bool, both: Image -> bool)
    requires forall x <- s :: both(x) <==> p(x) && q(x)
    ensures Filter(Filter(s, p), q) == Filter(s, both)
  {
    if s != [] {
      FilterTwice(s[1..], p, q, both);
      FilterOfTwo(if p(s[0]) then [s[0]] else [], Filter(s[1..], p), q);
    }
  }

  lemma {:induction false} FilterSame(s: seq<Image>, p: Image -> bool, q: Image -> bool)
    requires forall x <- s :: p(x) <==> q(x)
    ensures Filter(s, p) == Filter(s, q)
  {
    if s != [] { FilterSame(s[1..], p, q); }
  }

  lemma PreferIs(s: seq<Image>, p: Image -> bool, q: Image -> bool, all: seq<Image>, both: Image -> bool)
    requires s == Filter(all, p) && forall x <- all :: both(x) <==> p(x) && ((exists y <- s :: q(y)) ==> q(x))
    ensures Prefer(s, q) == Filter(all, both)
  {
    var kept := Filter(s, q);
    if kept == [] {
      forall y | y in s ensures !q(y) { assert y !in kept; }
      FilterSame(all, p, both);
    } else {
      assert kept[0] in kept;
      FilterTwice(all, p, q, both);
    }
  }

  predicate Fits(i: Image, images: seq<Image>, req: Request) {
    && PassesArch(i, images, req)
    && ((exists j <- images :: PassesArch(j, images, req) && j.siteOk) ==> i.siteOk)
    && (req.platform ==> i.platformOk)
  }

  /** The candidates are the images that fit, in the order of the list. */
  lemma CandidatesInOrder(images: seq<Image>, req: Request)
    ensures var fits := (i: Image) => Fits(i, images, req);
            Picks(images, PositionsOf(images, fits), Candidates(images, req))
  {
    var arch := (i: Image) => PassesArch(i, images, req);
    var site := (i: Image) => arch(i) && ((exists j <- images :: PassesArch(j, images, req) && j.siteOk) ==> i.siteOk);
    var fits := (i: Image) => Fits(i, images, req);
    if req.arch {
      PreferIs(Linux(images), NotWindows, MatchesArch, images, arch);
    } else {
      FilterSame(images, NotWindows, arch);
    }
    PreferIs(Filter(images, arch), arch, MatchesSite, images, site);
    if req.platform {
      FilterTwice(images, site, MatchesPlatform, fits);
    } else {
      FilterSame(images, site, fits);
    }
    FilterPicks(images, fits);
  }

  // ----- the choice --------------------------------------------------------

  /** The image has an id, and not an excluded one. */
  predicate Free(i: Image, exclude: set<int>) { i.id.Some? && !(i.id.value in exclude) }

  ghost predicate FirstFree(c: seq<Image>, exclude: set<int>, k: nat) {
    k < |c| && Free(c[k], exclude) && forall j :: 0 <= j < k ==> !Free(c[j], exclude)
  }

  ghost predicate FirstFreeOfVersion(c: seq<Image>, exclude: set<int>, k: nat) {
    && k < |c| && c[k].versionOk && Free(c[k], exclude)
    && forall j :: 0 <= j < k ==> !(c[j].versionOk && Free(c[j], exclude))
  }

  ghost predicate FirstOfId(images: seq<Image>, id: int, k: nat) {
    k < |images| && images[k].id == Some(id) && forall j :: 0 <= j < k ==> images[j].id != Some(id)
  }

  /** How far from the wanted version; an image without one counts as far away. */
  function Gap(i: Image, target: real): real {
    match i.version case None => 999.0 case Some(v) => if v <= target then target - v else v - target
  }

  /** No free candidate is nearer, and none before it is as near. */
  ghost predicate NearestOf(c: seq<Image>, exclude: set<int>, target: real, k: nat) {
    && k < |c| && Free(c[k], exclude)
    && (forall j :: 0 <= j < |c| && Free(c[j], exclude) ==> Gap(c[k], target) <= Gap(c[j], target))
    && (forall j :: 0 <= j < k && Free(c[j], exclude) ==> Gap(c[k], target) < Gap(c[j], target))
  }

  /** The candidate to take: the first free one of the wanted version; if there is none, but some
      excluded one of that version, the nearest free one, when the wanted version is a number; and
      else the first free one. */
  ghost predicate Chosen(c: seq<Image>, req: Request, exclude: set<int>, k: nat) {
    if req.version && exists x <- c :: x.versionOk && Free(x, exclude) then
      FirstFreeOfVersion(c, exclude, k)
    else if req.version && req.target.Some? && exists x <- c :: x.versionOk then
      NearestOf(c, exclude, req.target.value, k)
    else FirstFree(c, exclude, k)
  }

  lemma {:induction false} FirstPosition(s: seq<Image>, exclude: set<int>) returns (k: nat)
    requires exists x <- s :: Free(x, exclude)
    ensures FirstFree(s, exclude, k) && First(s, exclude) == Some(s[k])
  {
    if Free(s[0], exclude) {
      k := 0;
    } else {
      var x :| x in s && Free(x, exclude);
      assert x in s[1..];
      k := FirstPosition(s[1..], exclude);
      k := k + 1;
    }
  }

  lemma GapIsDistance(i: Image, target: real)
    ensures Gap(i, target) == Distance(i, target)
  {
  }

  lemma NearestIs(c: seq<Image>, exclude: set<int>, target: real, k: nat)
    requires Nearest(c, exclude, target, k)
    ensures NearestOf(c, exclude, target, k)
  {
    forall j | 0 <= j < |c| ensures Gap(c[j], target) == Distance(c[j], target) { GapIsDistance(c[j], target); }
  }

  lemma FallbackChosen(c: seq<Image>, req: Request, exclude: set<int>) returns (k: nat)
    requires req.version && (exists x <- c :: Free(x, exclude)) && exists x <- c :: x.versionOk
    requires forall x <- c :: x.versionOk ==> !Free(x, exclude)
    ensures Chosen(c, req, exclude, k) && Pick(c, req, exclude) == Some(c[k])
  {
    VersionMatches(c, req);
    FirstIsMember(ByVersion(c, req), exclude);
    PickFindsOne(c, req, exclude);
    if req.target.Some? {
      k := FirstOfSorted(c, req.target.value, exclude);
      NearestIs(c, exclude, req.target.value, k);
    } else {
      k := FirstPosition(c, exclude);
    }
  }

  lemma PickChosen(c: seq<Image>, req: Request, exclude: set<int>) returns (k: nat)
    requires exists x <- c :: Free(x, exclude)
    ensures Chosen(c, req, exclude, k) && Pick(c, req, exclude) == Some(c[k])
  {
    if req.version && exists x <- c :: x.versionOk && Free(x, exclude) {
      var x :| x in c && x.versionOk && Free(x, exclude);
      VersionMatches(c, req);
      assert x in Filter(c, MatchesVersion);
      FirstIsMember(Filter(c, MatchesVersion), exclude);
      k := FirstOfFilter(c, MatchesVersion, exclude);
    } else if req.version && exists x <- c :: x.versionOk {
      k := FallbackChosen(c, req, exclude);
    } else {
      if req.version { VersionMatches(c, req); }
      k := FirstPosition(c, exclude);
    }
  }

  /** The first image listed under the id is a Windows image. */
  ghost predicate IsListedWindows(images: seq<Image>, id: int) {
    exists k: nat :: FirstOfId(images, id, k) && images[k].windows
  }

  lemma {:induction false} ListedWindowsExactly(images: seq<Image>, id: int)
    ensures FirstListedIsWindows(images, id) <==> IsListedWindows(images, id)
  {
    if images != [] && images[0].id == Some(id) {
      assert FirstOfId(images, id, 0);
    } else if images != [] {
      ListedWindowsExactly(images[1..], id);
      if k: nat :| FirstOfId(images, id, k) && images[k].windows {
        assert k > 0 && FirstOfId(images[1..], id, k - 1);
      }
      if k: nat :| FirstOfId(images[1..], id, k) && images[1..][k].windows {
        assert FirstOfId(images, id, k + 1) && images[k + 1].windows;
      }
    }
  }

  ghost predicate PreferredFree(req: Request, exclude: set<int>) {
    req.preferred.Some? && !(req.preferred.value in exclude)
  }

  /** With a list: the preferred image, if it is not excluded and a candidate; else the candidate
      to take, if one is free; and else the preferred image after all, if it is not excluded and
      not listed as Windows. */
  lemma ResolvedExactly(listing: Listing, req: Request, exclude: set<int>) returns (k: nat)
    requires listing.Listed? && listing.images != []
    ensures var c, r := Candidates(listing.images, req), Resolved(listing, req, exclude);
            if c == [] then r == None
            else if PreferredFree(req, exclude) && exists x <- c :: x.id == req.preferred then r == req.preferred
            else if exists x <- c :: Free(x, exclude) then k < |c| && Chosen(c, req, exclude, k) && r == c[k].id
            else if PreferredFree(req, exclude) && !IsListedWindows(listing.images, req.preferred.value)
            then r == req.preferred
            else r == None
  {
    var c := Candidates(listing.images, req);
    k := 0;
    if exists x <- c :: Free(x, exclude) { k := PickChosen(c, req, exclude); }
    PickFindsOne(c, req, exclude);
    if req.preferred.Some? { ListedWindowsExactly(listing.images, req.preferred.value); }
  }

  /** Without a list it is the preferred image, whatever is excluded. */
  lemma WithoutList(listing: Listing, req: Request, exclude: set<int>)
    requires listing.Listed? ==> listing.images == []
    ensures Resolved(listing, req, exclude) == req.preferred
  {
  }
}
