/** Choosing an image for a OneCloud site, and the deploy loop that tries up to five
    (compute/onecloud.py, ceph/utils.py). */
module Images {
  import opened Basics
  import opened Options

  /** An image as one request sees it: the answers of the image predicates of onecloud.py. */
  datatype Image = Image(id: Option<int>, windows: bool, archOk: bool, siteOk: bool,
                         platformOk: bool, versionOk: bool, version: Option<real>)

  /** Which filters the caller set; `target` is the preferred version read as a number. */
  datatype Request = Request(preferred: Option<int>, arch: bool, platform: bool, version: bool, target: Option<real>)

  /** The two GET attempts together: no usable answer, or the listed images. */
  datatype Listing = Failed | Listed(images: seq<Image>)

  predicate NotWindows(i: Image) { !i.windows }
  predicate MatchesArch(i: Image) { i.archOk }
  predicate MatchesSite(i: Image) { i.siteOk }
  predicate MatchesPlatform(i: Image) { i.platformOk }
  predicate MatchesVersion(i: Image) { i.versionOk }

  // ----- the narrowing -----------------------------------------------------

  function Filter(s: seq<Image>, keep: Image -> bool): (r: seq<Image>)
    ensures forall x :: x in r <==> x in s && keep(x)
    ensures |r| <= |s| && (|r| == |s| ==> r == s)
  {
    if s == [] then []
    else (if keep(s[0]) then [s[0]] else []) + Filter(s[1..], keep)
  }

  /** A filter that is dropped when nothing passes it. */
  function Prefer(s: seq<Image>, keep: Image -> bool): seq<Image> {
    var kept := Filter(s, keep);
    if kept == [] then s else kept
  }

  function Linux(images: seq<Image>): seq<Image> { Filter(images, NotWindows) }
  function AtSite(images: seq<Image>, req: Request): seq<Image> {
    var forArch := if req.arch then Prefer(Linux(images), MatchesArch) else Linux(images);
    Prefer(forArch, MatchesSite)
  }

  /** The images to choose from; none: an error. */
  function Candidates(images: seq<Image>, req: Request): seq<Image> {
    if req.platform then Filter(AtSite(images, req), MatchesPlatform) else AtSite(images, req)
  }

  predicate Valid(i: Image, exclude: set<int>) { i.id.Some? && i.id.value !in exclude }

  function First(s: seq<Image>, exclude: set<int>): Option<Image> {
    if s == [] then None
    else if Valid(s[0], exclude) then Some(s[0])
    else First(s[1..], exclude)
  }

  method PickFirstValid(s: seq<Image>, exclude: set<int>) returns (picked: Option<Image>)
    ensures picked == First(s, exclude)
  {
    for i := 0 to |s|
      invariant First(s, exclude) == First(s[i..], exclude)
    {
      if s[i].id.Some? && s[i].id.value !in exclude { return Some(s[i]); }
      assert s[i..][1..] == s[i + 1..];
    }
    return None;
  }

  // ----- sorting by version distance ---------------------------------------

  function Abs(x: real): real { if x < 0.0 then -x else x }

  function Distance(i: Image, target: real): real {
    if i.version.Some? then Abs(i.version.value - target) else 999.0
  }

  /** Insertion behind everything at most as far: what a stable sort does. */
  function Insert(sorted: seq<Image>, x: Image, target: real): seq<Image> {
    if sorted == [] then [x]
    else if Distance(x, target) < Distance(sorted[|sorted| - 1], target) then
      Insert(sorted[..|sorted| - 1], x, target) + [sorted[|sorted| - 1]]
    else sorted + [x]
  }

  function Sorted(s: seq<Image>, target: real): seq<Image> {
    if s == [] then [] else Insert(Sorted(s[..|s| - 1], target), s[|s| - 1], target)
  }

  predicate Ordered(s: seq<Image>, target: real) {
    forall i, j :: 0 <= i < j < |s| ==> Distance(s[i], target) <= Distance(s[j], target)
  }

  lemma {:induction false} InsertMembers(sorted: seq<Image>, x: Image, target: real)
    ensures multiset(Insert(sorted, x, target)) == multiset(sorted) + multiset{x}
  {
    if sorted != [] && Distance(x, target) < Distance(sorted[|sorted| - 1], target) {
      assert sorted == sorted[..|sorted| - 1] + [sorted[|sorted| - 1]];
      InsertMembers(sorted[..|sorted| - 1], x, target);
    }
  }

  lemma {:induction false} InsertOrdered(sorted: seq<Image>, x: Image, target: real)
    requires Ordered(sorted, target)
    ensures Ordered(Insert(sorted, x, target), target)
  {
    if sorted != [] && Distance(x, target) < Distance(sorted[|sorted| - 1], target) {
      var init := sorted[..|sorted| - 1];
      InsertOrdered(init, x, target);
      forall i | 0 <= i < |Insert(init, x, target)|
        ensures Distance(Insert(init, x, target)[i], target) <= Distance(sorted[|sorted| - 1], target)
      {
        InsertMembers(init, x, target);
        assert Insert(init, x, target)[i] in multiset(Insert(init, x, target));
      }
    }
  }

  lemma {:induction false} SortedOrdered(s: seq<Image>, target: real)
    ensures Ordered(Sorted(s, target), target) && multiset(Sorted(s, target)) == multiset(s)
  {
    if s != [] {
      assert s == s[..|s| - 1] + [s[|s| - 1]];
      SortedOrdered(s[..|s| - 1], target);
      InsertMembers(Sorted(s[..|s| - 1], target), s[|s| - 1], target);
      InsertOrdered(Sorted(s[..|s| - 1], target), s[|s| - 1], target);
    }
  }

  lemma InsertSplit(sorted: seq<Image>, x: Image, target: real, k: nat)
    requires k <= |sorted|
    ensures k == 0 || Distance(x, target) >= Distance(sorted[k - 1], target) ==>
              Insert(sorted[..k], x, target) == sorted[..k] + [x]
    ensures k > 0 && Distance(x, target) < Distance(sorted[k - 1], target) ==>
              Insert(sorted[..k], x, target) + sorted[k..] == Insert(sorted[..k - 1], x, target) + sorted[k - 1..]
  {
    if k > 0 {
      assert sorted[..k][..k - 1] == sorted[..k - 1];
      assert [sorted[k - 1]] + sorted[k..] == sorted[k - 1..];
    }
  }

  method InsertByDistance(sorted: seq<Image>, x: Image, target: real) returns (r: seq<Image>)
    ensures r == Insert(sorted, x, target)
  {
    var k := |sorted|;
    assert sorted[..k] == sorted && sorted[k..] == [];
    while k > 0 && Distance(x, target) < Distance(sorted[k - 1], target)
      invariant 0 <= k <= |sorted|
      invariant Insert(sorted, x, target) == Insert(sorted[..k], x, target) + sorted[k..]
    {
      InsertSplit(sorted, x, target, k);
      k := k - 1;
    }
    InsertSplit(sorted, x, target, k);
    return sorted[..k] + [x] + sorted[k..];
  }

  method SortByProximity(images: seq<Image>, target: Option<real>) returns (sorted: seq<Image>)
    ensures sorted == if target.None? then images else Sorted(images, target.value)
  {
    if target.None? { return images; }
    sorted := [];
    for i := 0 to |images|
      invariant sorted == Sorted(images[..i], target.value)
    {
      sorted := InsertByDistance(sorted, images[i], target.value);
      assert images[..i + 1][..i] == images[..i];
    }
    assert images[..|images|] == images;
  }

  /** The k-th is the closest of the valid ones, and the earliest of the closest. */
  ghost predicate Nearest(s: seq<Image>, exclude: set<int>, target: real, k: nat) {
    && k < |s| && Valid(s[k], exclude)
    && forall j :: 0 <= j < |s| && Valid(s[j], exclude) ==>
         Distance(s[k], target) < Distance(s[j], target) || (Distance(s[k], target) == Distance(s[j], target) && k <= j)
  }

  lemma {:induction false} FirstOfTwo(a: seq<Image>, b: seq<Image>, exclude: set<int>)
    ensures First(a + b, exclude) == if First(a, exclude).Some? then First(a, exclude) else First(b, exclude)
  {
    if a == [] {
      assert a + b == b;
    } else {
      assert (a + b)[1..] == a[1..] + b;
      FirstOfTwo(a[1..], b, exclude);
    }
  }

  lemma {:induction false} FirstIsMember(s: seq<Image>, exclude: set<int>)
    ensures match First(s, exclude)
            case Some(x) => x in s && Valid(x, exclude)
            case None => forall x <- s :: !Valid(x, exclude)
  {
    if s != [] { FirstIsMember(s[1..], exclude); }
  }

  /** Insertion only takes over when the new image is strictly closer. */
  lemma {:induction false} InsertFirst(sorted: seq<Image>, x: Image, target: real, exclude: set<int>)
    requires Ordered(sorted, target)
    ensures var was, now := First(sorted, exclude), First(Insert(sorted, x, target), exclude);
            now == if Valid(x, exclude) && (was.None? || Distance(x, target) < Distance(was.value, target))
                   then Some(x) else was
  {
    if sorted != [] && Distance(x, target) < Distance(sorted[|sorted| - 1], target) {
      var init, last := sorted[..|sorted| - 1], sorted[|sorted| - 1];
      assert sorted == init + [last];
      InsertFirst(init, x, target, exclude);
      FirstOfTwo(init, [last], exclude);
      FirstOfTwo(Insert(init, x, target), [last], exclude);
    } else {
      FirstOfTwo(sorted, [x], exclude);
      FirstIsBefore(sorted, x, target, exclude);
    }
  }

  lemma FirstIsBefore(sorted: seq<Image>, x: Image, target: real, exclude: set<int>)
    requires Ordered(sorted, target)
    requires sorted == [] || Distance(x, target) >= Distance(sorted[|sorted| - 1], target)
    ensures var was := First(sorted, exclude); was.Some? ==> Distance(x, target) >= Distance(was.value, target)
  {
    FirstIsMember(sorted, exclude);
  }

  lemma NearestMore(init: seq<Image>, last: Image, exclude: set<int>, target: real, k: nat)
    requires Nearest(init, exclude, target, k)
    ensures if Valid(last, exclude) && Distance(last, target) < Distance(init[k], target)
            then Nearest(init + [last], exclude, target, |init|)
            else Nearest(init + [last], exclude, target, k)
  {
  }

  /** Picking from the sorted list picks the nearest of the list. */
  lemma {:induction false} FirstOfSorted(s: seq<Image>, target: real, exclude: set<int>) returns (k: nat)
    ensures match First(Sorted(s, target), exclude)
            case Some(x) => Nearest(s, exclude, target, k) && s[k] == x
            case None => forall x <- s :: !Valid(x, exclude)
  {
    k := 0;
    if s != [] {
      var init, last := s[..|s| - 1], s[|s| - 1];
      assert s == init + [last];
      k := FirstOfSorted(init, target, exclude);
      SortedOrdered(init, target);
      InsertFirst(Sorted(init, target), last, target, exclude);
      if First(Sorted(init, target), exclude).Some? {
        NearestMore(init, last, exclude, target, k);
        k := if Nearest(s, exclude, target, k) then k else |init|;
      } else {
        k := |init|;
      }
    }
  }

  // ----- resolve_image_for_site --------------------------------------------

  predicate Usable(preferred: Option<int>, exclude: set<int>) { preferred.Some? && preferred.value !in exclude }

  predicate ListsId(s: seq<Image>, id: int) { exists i <- s :: i.id == Some(id) }

  function ByVersion(c: seq<Image>, req: Request): seq<Image> {
    if req.version then Prefer(c, MatchesVersion) else c
  }

  function ByProximity(c: seq<Image>, req: Request): seq<Image> {
    if req.target.None? then c else Sorted(c, req.target.value)
  }

  /** The first version match, or else the first by proximity. */
  function Pick(c: seq<Image>, req: Request, exclude: set<int>): Option<Image> {
    var picked := First(ByVersion(c, req), exclude);
    if picked.None? && req.version && ByVersion(c, req) != c then First(ByProximity(c, req), exclude) else picked
  }

  predicate FirstListedIsWindows(images: seq<Image>, id: int) {
    images != [] && if images[0].id == Some(id) then images[0].windows else FirstListedIsWindows(images[1..], id)
  }

  /** The chosen id; none: a NodeError. */
  function Resolved(listing: Listing, req: Request, exclude: set<int>): Option<int> {
    if listing.Failed? || listing.images == [] then req.preferred
    else
      var c := Candidates(listing.images, req);
      if c == [] then None
      else if Usable(req.preferred, exclude) && ListsId(c, req.preferred.value) then req.preferred
      else
        var picked := Pick(c, req, exclude);
        if picked.Some? then picked.value.id
        else if Usable(req.preferred, exclude) && !FirstListedIsWindows(listing.images, req.preferred.value)
             then req.preferred
        else None
  }

  method HasId(s: seq<Image>, id: int) returns (found: bool)
    ensures found <==> ListsId(s, id)
  {
    for i := 0 to |s|
      invariant forall j :: 0 <= j < i ==> s[j].id != Some(id)
    {
      if s[i].id == Some(id) { return true; }
    }
    return false;
  }

  method LastResort(images: seq<Image>, id: int) returns (chosen: Option<int>)
    ensures chosen == if FirstListedIsWindows(images, id) then None else Some(id)
  {
    for i := 0 to |images|
      invariant FirstListedIsWindows(images, id) == FirstListedIsWindows(images[i..], id)
    {
      if images[i].id == Some(id) {
        if images[i].windows { return None; }
        break;
      }
      assert images[i..][1..] == images[i + 1..];
    }
    return Some(id);
  }

  method Narrow(images: seq<Image>, req: Request) returns (forSite: seq<Image>)
    ensures forSite == Candidates(images, req)
  {
    forSite := Filter(images, NotWindows);
    if forSite == [] { return; }
    if req.arch {
      var forArch := Filter(forSite, MatchesArch);
      if forArch != [] { forSite := forArch; }
    }
    var filtered := Filter(forSite, MatchesSite);
    if filtered != [] { forSite := filtered; }
    if req.platform { forSite := Filter(forSite, MatchesPlatform); }
  }

  method PickImage(beforeVersion: seq<Image>, req: Request, exclude: set<int>) returns (picked: Option<Image>)
    ensures picked == Pick(beforeVersion, req, exclude)
  {
    var forSite := beforeVersion;
    if req.version {
      var matching := Filter(forSite, MatchesVersion);
      if matching != [] { forSite := matching; }
    }
    picked := PickFirstValid(forSite, exclude);
    if picked.None? && req.version && beforeVersion != [] && forSite != beforeVersion {
      var byProximity := SortByProximity(beforeVersion, req.target);
      picked := PickFirstValid(byProximity, exclude);
    }
  }

  method Resolve(listing: Listing, req: Request, exclude: set<int>) returns (chosen: Option<int>)
    ensures chosen == Resolved(listing, req, exclude)
  {
    if listing.Failed? || listing.images == [] { return req.preferred; }
    var forSite := Narrow(listing.images, req);
    if forSite == [] { return None; }
    if Usable(req.preferred, exclude) {
      var found := HasId(forSite, req.preferred.value);
      if found { return req.preferred; }
    }
    var picked := PickImage(forSite, req, exclude);
    if picked.Some? { return picked.value.id; }
    if Usable(req.preferred, exclude) {
      chosen := LastResort(listing.images, req.preferred.value);
      return;
    }
    return None;
  }

  // ----- what the choice promises ------------------------------------------

  predicate Empty(listing: Listing) { listing.Failed? || listing.images == [] }

  /** Some non-Windows image passes the architecture filter. */
  predicate ArchKnown(images: seq<Image>, req: Request) { req.arch && exists j <- images :: !j.windows && j.archOk }

  predicate PassesArch(i: Image, images: seq<Image>, req: Request) {
    !i.windows && (ArchKnown(images, req) ==> i.archOk)
  }

  /** A candidate is a listed non-Windows image. The architecture and the site only count if
      some image left so far matches them; the platform always counts. */
  lemma CandidatesExactly(images: seq<Image>, req: Request)
    ensures var siteKnown := exists j <- images :: PassesArch(j, images, req) && j.siteOk;
            forall i :: i in Candidates(images, req) <==>
                        i in images && PassesArch(i, images, req) && (siteKnown ==> i.siteOk) &&
                            (req.platform ==> i.platformOk)
  {
    var forArch := if req.arch then Prefer(Linux(images), MatchesArch) else Linux(images);
    PreferExactly(Linux(images), MatchesArch);
    PreferExactly(forArch, MatchesSite);
    assert forall i :: i in forArch <==> i in images && PassesArch(i, images, req);
  }

  lemma PreferExactly(s: seq<Image>, keep: Image -> bool)
    ensures forall i :: i in Prefer(s, keep) <==> i in s && ((exists j <- s :: keep(j)) ==> keep(i))
  {
    var kept := Filter(s, keep);
    if kept != [] { assert kept[0] in kept; }
  }

  /** Pick finds an image exactly when some candidate is valid. */
  lemma PickFindsOne(c: seq<Image>, req: Request, exclude: set<int>)
    ensures match Pick(c, req, exclude)
            case Some(x) => x in c && Valid(x, exclude)
            case None => forall x <- c :: !Valid(x, exclude)
  {
    FirstIsMember(ByVersion(c, req), exclude);
    if req.target.Some? {
      SortedOrdered(c, req.target.value);
      forall x ensures x in c <==> x in Sorted(c, req.target.value) {
        assert x in c <==> x in multiset(c);
        assert x in Sorted(c, req.target.value) <==> x in multiset(Sorted(c, req.target.value));
      }
    }
    FirstIsMember(ByProximity(c, req), exclude);
  }

  /** With a non-empty list the choice is never an excluded id, and it fails exactly when no
      candidate is valid and the preferred image is no way out. */
  lemma NeverExcluded(listing: Listing, req: Request, exclude: set<int>)
    requires !Empty(listing)
    ensures var r, c := Resolved(listing, req, exclude), Candidates(listing.images, req);
            && (r.Some? ==> r.value !in exclude && (ListsId(c, r.value) || r == req.preferred))
            && (r.None? <==> || c == []
                             || ((forall x <- c :: !Valid(x, exclude))
                                 && (Usable(req.preferred, exclude) ==>
                                      FirstListedIsWindows(listing.images, req.preferred.value))))
  {
    var c := Candidates(listing.images, req);
    PickFindsOne(c, req, exclude);
    if Usable(req.preferred, exclude) && ListsId(c, req.preferred.value) {
      var i :| i in c && i.id == req.preferred;
      assert Valid(i, exclude);
    }
  }

  /** Without a list, exclusion is not looked at: exactly then an excluded id comes back. */
  lemma ExcludedExactly(listing: Listing, req: Request, exclude: set<int>)
    ensures var r := Resolved(listing, req, exclude);
            r.Some? && r.value in exclude <==> Empty(listing) && req.preferred.Some? && req.preferred.value in exclude
  {
    if !Empty(listing) { NeverExcluded(listing, req, exclude); }
  }

  predicate UniqueIds(images: seq<Image>) {
    forall i, j :: 0 <= i < j < |images| && images[i].id.Some? ==> images[i].id != images[j].id
  }

  /** If ids are unique, the choice is never a listed Windows image. */
  lemma NeverWindows(listing: Listing, req: Request, exclude: set<int>, w: Image)
    requires !Empty(listing) && UniqueIds(listing.images)
    requires w in listing.images && w.windows && w.id.Some?
    ensures Resolved(listing, req, exclude) != w.id
  {
    var c := Candidates(listing.images, req);
    PickFindsOne(c, req, exclude);
    FirstListed(listing.images, w);
    CandidatesExactly(listing.images, req);
    forall i | i in c ensures i.id != w.id {
      if i.id == w.id { OnlyOne(listing.images, i, w); }
    }
  }

  lemma OnlyOne(images: seq<Image>, i: Image, w: Image)
    requires UniqueIds(images) && i in images && w in images && i.id == w.id && w.id.Some?
    ensures i == w
  {
  }

  lemma {:induction false} FirstListed(images: seq<Image>, w: Image)
    requires w in images && w.windows && w.id.Some? && UniqueIds(images)
    ensures FirstListedIsWindows(images, w.id.value)
  {
    if images[0] != w { FirstListed(images[1..], w); }
  }

  lemma {:induction false} FirstOfFilter(s: seq<Image>, keep: Image -> bool, exclude: set<int>) returns (k: nat)
    requires First(Filter(s, keep), exclude).Some?
    ensures k < |s| && keep(s[k]) && First(Filter(s, keep), exclude) == Some(s[k])
    ensures forall j :: 0 <= j < k ==> !(keep(s[j]) && Valid(s[j], exclude))
  {
    FirstOfTwo(if keep(s[0]) then [s[0]] else [], Filter(s[1..], keep), exclude);
    if keep(s[0]) && Valid(s[0], exclude) {
      k := 0;
    } else {
      k := FirstOfFilter(s[1..], keep, exclude);
      k := k + 1;
    }
  }

  /** A usable version match is preferred to everything but the preferred image: the first
      one of the list is taken. */
  lemma FirstVersionMatch(listing: Listing, req: Request, exclude: set<int>) returns (k: nat)
    requires !Empty(listing) && req.version
    requires var c := Candidates(listing.images, req);
             && (exists x <- c :: x.versionOk && Valid(x, exclude))
             && !(Usable(req.preferred, exclude) && ListsId(c, req.preferred.value))
    ensures var c := Candidates(listing.images, req);
            && k < |c| && c[k].versionOk && Valid(c[k], exclude) && Resolved(listing, req, exclude) == c[k].id
            && forall j :: 0 <= j < k ==> !(c[j].versionOk && Valid(c[j], exclude))
  {
    var c := Candidates(listing.images, req);
    FirstIsMember(Filter(c, MatchesVersion), exclude);
    var x :| x in c && x.versionOk && Valid(x, exclude);
    assert x in Filter(c, MatchesVersion);
    k := FirstOfFilter(c, MatchesVersion, exclude);
  }

  ghost predicate FirstUsable(s: seq<Image>, exclude: set<int>, k: nat) {
    k < |s| && Valid(s[k], exclude) && forall j :: 0 <= j < k ==> !Valid(s[j], exclude)
  }

  predicate HasVersion(s: seq<Image>) { exists x <- s :: x.versionOk }

  /** The position of the first usable image; the length if there is none. */
  function FirstAt(s: seq<Image>, exclude: set<int>): (k: nat)
    ensures k <= |s| && (k < |s| ==> FirstUsable(s, exclude, k) && First(s, exclude) == Some(s[k]))
    ensures k == |s| ==> First(s, exclude).None?
  {
    if s == [] || Valid(s[0], exclude) then 0 else 1 + FirstAt(s[1..], exclude)
  }

  ghost predicate NoneNearerBehind(s: seq<Image>, exclude: set<int>, target: real, k: nat) {
    forall j :: k < j < |s| && Valid(s[j], exclude) ==> Distance(s[j], target) >= Distance(s[k], target)
  }

  lemma FirstIsNearestExactly(s: seq<Image>, exclude: set<int>, target: real, k: nat)
    requires FirstUsable(s, exclude, k)
    ensures Nearest(s, exclude, target, k) <==> NoneNearerBehind(s, exclude, target, k)
  {
    if NoneNearerBehind(s, exclude, target, k) {
      forall j | 0 <= j < |s| && Valid(s[j], exclude)
        ensures Distance(s[k], target) < Distance(s[j], target)
                || (Distance(s[k], target) == Distance(s[j], target) && k <= j)
      {
        assert j >= k;
      }
    }
  }

  lemma {:induction false} NothingPasses(s: seq<Image>, keep: Image -> bool)
    requires forall x <- s :: !keep(x)
    ensures Filter(s, keep) == []
  {
    if s != [] { NothingPasses(s[1..], keep); }
  }

  lemma VersionMatches(c: seq<Image>, req: Request)
    requires req.version
    ensures ByVersion(c, req) == if HasVersion(c) then Filter(c, MatchesVersion) else c
  {
    if HasVersion(c) {
      var x :| x in c && x.versionOk;
      assert x in Filter(c, MatchesVersion);
    } else {
      NothingPasses(c, MatchesVersion);
    }
  }

  /** Some candidate is usable, but none that has the wanted version. */
  ghost predicate VersionGone(c: seq<Image>, exclude: set<int>) {
    (exists x <- c :: Valid(x, exclude)) && forall x <- c :: x.versionOk ==> !Valid(x, exclude)
  }

  lemma PickWithoutVersion(c: seq<Image>, req: Request, exclude: set<int>) returns (k: nat)
    requires VersionGone(c, exclude) && req.version && req.target.Some?
    ensures k < |c| && Pick(c, req, exclude) == Some(c[k])
    ensures if HasVersion(c) then Nearest(c, exclude, req.target.value, k) else k == FirstAt(c, exclude)
  {
    FirstIsMember(ByVersion(c, req), exclude);
    VersionMatches(c, req);
    PickFindsOne(c, req, exclude);
    if HasVersion(c) {
      var x :| x in c && Valid(x, exclude);
      assert x !in ByVersion(c, req);
      k := FirstOfSorted(c, req.target.value, exclude);
    } else {
      k := FirstAt(c, exclude);
    }
  }

  /** No usable candidate has the wanted version, and the preferred image is not a candidate. */
  ghost predicate FallsBack(listing: Listing, req: Request, exclude: set<int>) {
    && !Empty(listing) && req.version && req.target.Some?
    && var c := Candidates(listing.images, req);
       VersionGone(c, exclude) && !(Usable(req.preferred, exclude) && ListsId(c, req.preferred.value))
  }

  /** When no usable candidate has the wanted version, the nearest usable one is taken if some
      candidate has that version, all of them being excluded, and else the first of the list. */
  lemma Fallback(listing: Listing, req: Request, exclude: set<int>) returns (k: nat)
    requires FallsBack(listing, req, exclude)
    ensures var c := Candidates(listing.images, req);
            && k < |c| && Resolved(listing, req, exclude) == c[k].id
            && if HasVersion(c) then Nearest(c, exclude, req.target.value, k)
               else FirstUsable(c, exclude, k) && k == FirstAt(c, exclude)
  {
    k := PickWithoutVersion(Candidates(listing.images, req), req, exclude);
  }

  /** So the choice is the nearest usable candidate if and only if some candidate has the wanted
      version, or none behind the first usable one is strictly nearer than that. */
  lemma FallbackNearestExactly(listing: Listing, req: Request, exclude: set<int>) returns (k: nat)
    requires FallsBack(listing, req, exclude)
    ensures var c, target := Candidates(listing.images, req), req.target.value;
            && k < |c| && Resolved(listing, req, exclude) == c[k].id
            && (Nearest(c, exclude, target, k) <==>
                HasVersion(c) || NoneNearerBehind(c, exclude, target, FirstAt(c, exclude)))
  {
    k := Fallback(listing, req, exclude);
    var c := Candidates(listing.images, req);
    if !HasVersion(c) { FirstIsNearestExactly(c, exclude, req.target.value, k); }
  }

  /** Wanted 9.7, listed 8.4 and 9.6: the first is taken, though the second is nearer. */
  lemma FirstInsteadOfNearest(req: Request)
    requires req == Request(None, false, false, true, Some(9.7))
    ensures var images := [Image(Some(1), false, true, true, true, false, Some(8.4)),
                           Image(Some(2), false, true, true, true, false, Some(9.6))];
            && Candidates(images, req) == images && FallsBack(Listed(images), req, {})
            && Resolved(Listed(images), req, {}) == Some(1) && Nearest(images, {}, 9.7, 1)
  {
    var a := Image(Some(1), false, true, true, true, false, Some(8.4));
    var b := Image(Some(2), false, true, true, true, false, Some(9.6));
    var images := [a, b];
    assert images[1..] == [b] && [b][1..] == [];
    assert Filter([b], NotWindows) == [b] + [] && Filter(images, NotWindows) == [a] + [b];
    assert Filter([b], MatchesSite) == [b] + [] && Filter(images, MatchesSite) == [a] + [b];
    assert images[0] in images && images[1] in images;
    var k := Fallback(Listed(images), req, {});
  }

  // ----- the deploy loop ---------------------------------------------------

  /** The answer to POST /clusters. */
  datatype Answer = Created | ImageRejected | OtherError

  /** What the service answers at the k-th attempt. */
  datatype Service = Service(listings: nat -> Listing, projects: nat -> bool, answers: nat -> Answer)

  function Ids(s: seq<int>): set<int> { set id | id in s }

  /** The posts made so far: each the choice given the ones before it, all rejected. */
  ghost predicate Attempts(service: Service, req: Request, posted: seq<int>) {
    && (forall k :: 0 <= k < |posted| ==> service.projects(k))
    && (forall k :: 0 <= k < |posted| ==> Resolved(service.listings(k), req, Ids(posted[..k])) == Some(posted[k]))
  }

  lemma AttemptsMore(service: Service, req: Request, posted: seq<int>, id: int)
    requires Attempts(service, req, posted) && service.projects(|posted|)
    requires Resolved(service.listings(|posted|), req, Ids(posted)) == Some(id)
    ensures Attempts(service, req, posted + [id])
  {
    var more := posted + [id];
    assert posted[..|posted|] == posted;
    forall k | 0 <= k < |more| ensures more[..k] == posted[..k] {}
  }

  lemma DistinctMore(posted: seq<int>, id: int)
    ensures (posted + [id])[..|posted|] == posted
    ensures Distinct(posted + [id]) <==> Distinct(posted) && id !in posted
  {
    var more := posted + [id];
    forall i | 0 <= i < |posted| ensures more[i] == posted[i] {}
    assert more[|posted|] == id;
  }

  /** How the loop ends: created, out of attempts, or one of the three errors. */
  ghost predicate Ended(service: Service, req: Request, posted: seq<int>, created: bool) {
    var n := |posted|;
    if created then n > 0 && service.answers(n - 1) == Created
    else
      && (n > 0 ==> service.answers(n - 1) != Created)
      && (|| n == 5
          || Resolved(service.listings(n), req, Ids(posted)).None? || !service.projects(n)
          || (n > 0 && service.answers(n - 1) == OtherError)
          || !Distinct(posted))
  }

  /** Every post so far was rejected, for an image of its own. */
  ghost predicate AllRejected(service: Service, req: Request, posted: seq<int>) {
    && Distinct(posted) && Attempts(service, req, posted)
    && forall k :: 0 <= k < |posted| ==> service.answers(k) == ImageRejected
  }

  ghost predicate Over(service: Service, req: Request, posted: seq<int>, created: bool) {
    && Attempts(service, req, posted) && Ended(service, req, posted, created)
    && (posted != [] ==> Distinct(posted[..|posted| - 1]))
    && forall k :: 0 <= k < |posted| - 1 ==> service.answers(k) == ImageRejected
  }

  /** One turn of the loop over images; it ends the loop unless the image was rejected. */
  method Attempt(service: Service, req: Request, was: seq<int>, excluded: seq<int>)
    returns (posted: seq<int>, over: bool, created: bool)
    requires excluded == was && |was| < 5 && AllRejected(service, req, was)
    ensures if over then |posted| <= 5 && Over(service, req, posted, created)
            else |posted| == |was| + 1 && AllRejected(service, req, posted) && !created
  {
    var n := |was|;
    var imageId := Resolve(service.listings(n), req, Ids(excluded));
    if imageId.None? || !service.projects(n) {
      NoPost(service, req, was);
      return was, true, false;
    }
    posted := was + [imageId.value];
    AttemptsMore(service, req, was, imageId.value);
    DistinctMore(was, imageId.value);
    LastPost(service, req, posted);
    match service.answers(n) {
      case Created => return posted, true, true;
      case OtherError => return posted, true, false;
      case ImageRejected => return posted, imageId.value in excluded, false;
    }
  }

  /** The loop over images in create_onecloud_ceph_nodes. */
  method Deploy(service: Service, req: Request) returns (posted: seq<int>, created: bool)
    ensures |posted| <= 5 && Over(service, req, posted, created)
  {
    posted, created := [], false;
    var excluded := [];
    for attempt := 0 to 5
      invariant |posted| == attempt && excluded == posted && AllRejected(service, req, posted) && !created
    {
      var over;
      posted, over, created := Attempt(service, req, posted, excluded);
      if over { return; }
      excluded := posted;
    }
    OutOfAttempts(service, req, posted);
  }

  lemma OutOfAttempts(service: Service, req: Request, posted: seq<int>)
    requires |posted| == 5 && AllRejected(service, req, posted)
    ensures Over(service, req, posted, false)
  {
  }

  lemma NoPost(service: Service, req: Request, posted: seq<int>)
    requires Resolved(service.listings(|posted|), req, Ids(posted)).None? || !service.projects(|posted|)
    requires Distinct(posted) && forall k :: 0 <= k < |posted| ==> service.answers(k) == ImageRejected
    ensures Ended(service, req, posted, false) && (posted != [] ==> Distinct(posted[..|posted| - 1]))
  {
  }

  lemma LastPost(service: Service, req: Request, posted: seq<int>)
    requires posted != []
    ensures service.answers(|posted| - 1).Created? ==> Ended(service, req, posted, true)
    ensures service.answers(|posted| - 1).OtherError? ==> Ended(service, req, posted, false)
    ensures service.answers(|posted| - 1).ImageRejected? && (!Distinct(posted) || |posted| == 5) ==>
              Ended(service, req, posted, false)
  {
  }

  /** If no listing is empty, all posts are of different images. */
  lemma PostsDiffer(service: Service, req: Request, posted: seq<int>)
    requires Attempts(service, req, posted)
    requires forall k :: 0 <= k < |posted| ==> !Empty(service.listings(k))
    ensures Distinct(posted)
  {
    forall i, j | 0 <= i < j < |posted| ensures posted[i] != posted[j] {
      NeverExcluded(service.listings(j), req, Ids(posted[..j]));
      assert posted[..j][i] == posted[i];
    }
  }

  /** Otherwise only the last post can repeat one, and it does exactly when its listing was
      empty and the preferred image had been rejected. */
  lemma RepeatsExactly(service: Service, req: Request, posted: seq<int>)
    requires Attempts(service, req, posted) && posted != [] && Distinct(posted[..|posted| - 1])
    ensures var n := |posted| - 1;
            !Distinct(posted) <==>
            Empty(service.listings(n)) && req.preferred.Some? && req.preferred.value in posted[..n]
  {
    var n := |posted| - 1;
    assert posted == posted[..n] + [posted[n]];
    DistinctMore(posted[..n], posted[n]);
    ExcludedExactly(service.listings(n), req, Ids(posted[..n]));
  }

  /** A run that repeats a post: both listings fail, and the preferred image is rejected twice. */
  lemma FailedListingsRepeat(id: int)
    ensures var service := Service(k => Failed, k => true, k => ImageRejected);
            var req := Request(Some(id), false, false, false, None);
            Attempts(service, req, [id, id]) && Ended(service, req, [id, id], false) && !Distinct([id, id])
  {
    var service := Service(k => Failed, k => true, k => ImageRejected);
    var req := Request(Some(id), false, false, false, None);
    assert [] + [id] == [id] && [id] + [id] == [id, id];
    AttemptsMore(service, req, [], id);
    AttemptsMore(service, req, [id], id);
    assert [id, id][0] == [id, id][1];
  }
}
