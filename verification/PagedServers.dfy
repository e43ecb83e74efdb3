/** What draining the record iterator yields, for every server of two kinds: one that pages a
    list evenly, and one with pages of any size (compute/ibm_vpc.py). */
module PagedServers {
  import opened Basics
  import opened Options
  import opened RecordIterator

  // ----- a well-formed paged server ----------------------------------------

  /** Serves `all` in pages of `limit` and claims `total` records, 0 if it names no total. Its
      `next` links carry an offset iff `linked`; fetch number `failAt`, if there is one, fails. */
  datatype Zone<+R> = Zone(all: seq<R>, limit: nat, linked: bool, total: nat, failAt: Option<nat>)

  function Serve<R>(z: Zone<R>): Fetcher<R> {
    (n, o: Option<nat>) =>
      if z.failAt == Some(n) then Failed else
      var from := Min(if o.Some? then o.value else 0, |z.all|);
      var to := Min(from + z.limit, |z.all|);
      Page(z.all[from..to],
           if to == |z.all| then NoLink else if z.linked then LinkTo(to) else LinkWithoutOffset,
           z.total)
  }

  /** What the iterator yields if no fetch fails and the total does not end it: the list, except
      that without offsets in the links the first of several pages comes twice. */
  function Unfailing<R>(z: Zone<R>): seq<R> {
    if z.linked || |z.all| <= z.limit then z.all else z.all[..z.limit] + z.all
  }

  /** The number of records in n full pages. */
  function Full(n: nat, limit: nat): nat { if n == 0 then 0 else Full(n - 1, limit) + limit }

  lemma {:induction false} FullMonotone(m: nat, n: nat, limit: nat)
    requires m < n
    ensures Full(m, limit) + limit <= Full(n, limit)
  {
    if m < n - 1 { FullMonotone(m, n - 1, limit); }
  }

  /** The number of full pages that hold `total` records. */
  function PagesFor(total: nat, limit: nat): nat {
    if total == 0 || limit == 0 then 0 else if total <= limit then 1 else 1 + PagesFor(total - limit, limit)
  }

  lemma {:induction false} PagesForExactly(k: nat, total: nat, limit: nat)
    requires limit > 0
    ensures Full(k, limit) >= total <==> k >= PagesFor(total, limit)
    decreases total
  {
    if total > limit && k > 0 { PagesForExactly(k - 1, total - limit, limit); }
  }

  /** Links without offsets are only followed until the claimed total is reached. */
  function ByTotal<R>(z: Zone<R>): nat {
    if z.linked || |z.all| <= z.limit then |Unfailing(z)|
    else Min(Full(PagesFor(z.total, z.limit) + 1, z.limit), |Unfailing(z)|)
  }

  /** A failing fetch silently ends the stream at its page boundary. */
  function Stream<R>(z: Zone<R>): seq<R> {
    var cut := if z.failAt.None? then ByTotal(z) else Min(Full(z.failAt.value, z.limit), ByTotal(z));
    Unfailing(z)[..cut]
  }

  /** Without offsets the whole list comes exactly if the claimed total, rounded up to whole
      pages, reaches its end; a reply without a total ends the stream after page one. */
  lemma StreamCompleteExactly<R>(z: Zone<R>)
    requires z.limit > 0 && z.failAt.None?
    ensures Stream(z) == Unfailing(z) <==>
            z.linked || |z.all| <= z.limit || Full(PagesFor(z.total, z.limit), z.limit) >= |z.all|
    ensures !z.linked && z.total == 0 ==> Stream(z) == z.all[..Min(z.limit, |z.all|)]
  {
    if Stream(z) == Unfailing(z) {
      assert |Stream(z)| == ByTotal(z);
    }
    assert Unfailing(z)[..|Unfailing(z)|] == Unfailing(z);
    assert Full(0, z.limit) == 0 && Full(1, z.limit) == z.limit;
  }

  /** What the cursor holds back is the next part of `s`. */
  ghost predicate Window<R>(s: seq<R>, c: Cursor<R>) {
    && c.index <= |c.page|
    && c.yielded + |c.page| - c.index <= |s|
    && c.page[c.index..] == s[c.yielded..c.yielded + |c.page| - c.index]
  }

  /** Where the cursor stands in its walk over the zone, `end` being the end of its page. */
  ghost predicate Position<R>(z: Zone<R>, c: Cursor<R>, end: int) {
    if c.hasMore then
      && (z.failAt.Some? ==> c.fetches <= z.failAt.value)
      && end == Full(c.fetches, z.limit)
      && (c.fetches == 0 || end < ByTotal(z))
      && c.offset == (if c.fetches == 0 then None else Some(Origin(z, c.fetches)))
    else end == |Stream(z)|
  }

  ghost predicate Inv<R>(z: Zone<R>, c: Cursor<R>) {
    Window(Stream(z), c) && Position(z, c, c.yielded + |c.page| - c.index)
  }

  /** Where fetch number k reads from. */
  ghost function Origin<R>(z: Zone<R>, k: nat): nat {
    Full(if z.linked || k == 0 then k else k - 1, z.limit)
  }

  lemma SliceOfConcat<R>(a: seq<R>, b: seq<R>, from: nat, to: nat)
    requires |a| <= from <= to <= |a| + |b|
    ensures (a + b)[from..to] == b[from - |a|..to - |a|]
  {
  }

  lemma SliceOfPrefix<R>(s: seq<R>, n: nat, from: nat, to: nat)
    requires from <= to <= n <= |s|
    ensures s[..n][from..to] == s[from..to]
  {
  }

  ghost predicate SameSlice<R>(s: seq<R>, from: nat, t: seq<R>, at: nat, limit: nat) {
    && from <= |s| && at <= |t|
    && s[from..Min(from + limit, |s|)] == t[at..Min(at + limit, |t|)]
    && (from + limit >= |s| <==> at + limit >= |t|)
  }

  lemma RepeatedSlice<R>(all: seq<R>, limit: nat, at: nat)
    requires limit < |all| && at < |all| + limit && (at == 0 || limit <= at)
    ensures SameSlice(all, if at == 0 then 0 else at - limit, all[..limit] + all, at, limit)
  {
    var full := all[..limit] + all;
    if at == 0 {
      assert full[0..limit] == all[0..limit];
    } else {
      SliceOfConcat(all[..limit], all, at, Min(at + limit, |full|));
    }
  }

  lemma FullFromFirst(k: nat, limit: nat)
    requires k > 0
    ensures Full(k, limit) >= limit && Full(k - 1, limit) == Full(k, limit) - limit
  {
  }

  /** The page that fetch number k asks for is the k-th slice of the stream, and it is
      the last one exactly when the server links no further. */
  lemma PageIsSlice<R>(z: Zone<R>, k: nat)
    requires z.limit > 0 && (k == 0 || Full(k, z.limit) < |Unfailing(z)|)
    ensures SameSlice(z.all, Origin(z, k), Unfailing(z), Full(k, z.limit), z.limit)
  {
    var at := Full(k, z.limit);
    if k > 0 { FullFromFirst(k, z.limit); }
    if z.linked || |z.all| <= z.limit {
      assert Origin(z, k) == at;
    } else {
      assert Origin(z, k) == if at == 0 then 0 else at - z.limit;
      RepeatedSlice(z.all, z.limit, at);
    }
  }

  /** The cursor after a successful fetch. */
  ghost function Fetched<R>(z: Zone<R>, c: Cursor<R>): Cursor<R> {
    var k, from := c.fetches, Origin(z, c.fetches);
    var to := Min(from + z.limit, |z.all|);
    var goesOn := to < |z.all| && (z.linked || c.yielded < z.total);
    Cursor(if goesOn then Some(Origin(z, k + 1)) else c.offset,
           c.yielded, if from <= to then z.all[from..to] else [], 0, goesOn, k + 1)
  }

  lemma Served<R>(z: Zone<R>, n: nat, o: Option<nat>)
    requires z.failAt != Some(n) && (o.Some? ==> o.value <= |z.all|)
    ensures var from := if o.Some? then o.value else 0;
            var to := Min(from + z.limit, |z.all|);
            Serve(z)(n, o) == Page(z.all[from..to],
                                   if to == |z.all| then NoLink else if z.linked then LinkTo(to) else LinkWithoutOffset,
                                   z.total)
  {
  }

  lemma FetchIsFetched<R>(z: Zone<R>, c: Cursor<R>)
    requires z.limit > 0 && Position(z, c, c.yielded) && c.hasMore && z.failAt != Some(c.fetches)
    ensures Fetch(Serve(z), c) == Fetched(z, c)
  {
    OriginInList(z, c);
    Served(z, c.fetches, c.offset);
  }

  lemma OriginInList<R>(z: Zone<R>, c: Cursor<R>)
    requires z.limit > 0 && Position(z, c, c.yielded) && c.hasMore
    ensures Origin(z, c.fetches) <= |z.all| && (c.fetches == 0 ==> Origin(z, 0) == 0)
    ensures z.linked ==> Origin(z, c.fetches + 1) == Origin(z, c.fetches) + z.limit
    ensures !z.linked ==> Origin(z, c.fetches + 1) == c.yielded
  {
    PageIsSlice(z, c.fetches);
  }

  /** How far the total lets the walk go after the next page. */
  lemma TotalAhead<R>(z: Zone<R>, c: Cursor<R>)
    requires z.limit > 0 && Position(z, c, c.yielded) && c.hasMore
    requires !z.linked && |z.all| > z.limit
    ensures var last := Full(PagesFor(z.total, z.limit) + 1, z.limit);
            if c.yielded < z.total then c.yielded + z.limit < last else c.yielded + z.limit == last
  {
    var k, last := c.fetches, PagesFor(z.total, z.limit);
    PagesForExactly(k, z.total, z.limit);
    if k < last { FullMonotone(k, last, z.limit); }
    if k > last { FullMonotone(last, k, z.limit); }
  }

  /** A fetch brings the next slice of the stream. */
  lemma FetchInv<R>(z: Zone<R>, c: Cursor<R>)
    requires z.limit > 0 && Position(z, c, c.yielded) && c.hasMore
    ensures Inv(z, Fetch(Serve(z), c))
    ensures Fetch(Serve(z), c).page == [] ==> c.yielded == |Stream(z)|
  {
    if z.failAt != Some(c.fetches) {
      FetchIsFetched(z, c);
      FetchedPosition(z, c);
      FetchedWindow(z, c);
    }
  }

  /** The page of a successful fetch, and whether it is the last. */
  ghost predicate BringsNext<R>(z: Zone<R>, c: Cursor<R>) {
    var page, next := Fetched(z, c).page, c.yielded + z.limit;
    && c.yielded <= |Unfailing(z)| && page == Unfailing(z)[c.yielded..Min(next, |Unfailing(z)|)]
    && (Fetched(z, c).hasMore ==> |page| == z.limit && next < ByTotal(z))
    && (!Fetched(z, c).hasMore ==> c.yielded + |page| == ByTotal(z))
    && (page == [] ==> c.yielded == ByTotal(z))
  }

  lemma FetchedPage<R>(z: Zone<R>, c: Cursor<R>)
    requires z.limit > 0 && Position(z, c, c.yielded) && c.hasMore && z.failAt != Some(c.fetches)
    ensures BringsNext(z, c)
  {
    if z.linked || |z.all| <= z.limit { PageOnce(z, c); } else { PageRepeated(z, c); }
  }

  lemma PageOnce<R>(z: Zone<R>, c: Cursor<R>)
    requires z.limit > 0 && Position(z, c, c.yielded) && c.hasMore && (z.linked || |z.all| <= z.limit)
    ensures BringsNext(z, c)
  {
    PageIsSlice(z, c.fetches);
  }

  lemma PageRepeated<R>(z: Zone<R>, c: Cursor<R>)
    requires z.limit > 0 && Position(z, c, c.yielded) && c.hasMore && !z.linked && |z.all| > z.limit
    ensures BringsNext(z, c)
  {
    RepeatedPage(z, c);
    TotalAhead(z, c);
  }

  lemma RepeatedPage<R>(z: Zone<R>, c: Cursor<R>)
    requires z.limit > 0 && Position(z, c, c.yielded) && c.hasMore && !z.linked && |z.all| > z.limit
    ensures var page, next := Fetched(z, c).page, c.yielded + z.limit;
            && c.yielded < |Unfailing(z)| && page == Unfailing(z)[c.yielded..Min(next, |Unfailing(z)|)]
            && (Fetched(z, c).hasMore <==> next < |Unfailing(z)| && c.yielded < z.total)
  {
    assert c.yielded == Full(c.fetches, z.limit) < |Unfailing(z)|;
    PageIsSlice(z, c.fetches);
    RepeatedFetch(z, c);
  }

  lemma RepeatedFetch<R>(z: Zone<R>, c: Cursor<R>)
    requires !z.linked && SameSlice(z.all, Origin(z, c.fetches), Unfailing(z), c.yielded, z.limit)
    ensures var page, next := Fetched(z, c).page, c.yielded + z.limit;
            && page == Unfailing(z)[c.yielded..Min(next, |Unfailing(z)|)]
            && (Fetched(z, c).hasMore <==> next < |Unfailing(z)| && c.yielded < z.total)
  {
  }

  lemma FetchedWindow<R>(z: Zone<R>, c: Cursor<R>)
    requires z.limit > 0 && Position(z, c, c.yielded) && c.hasMore && z.failAt != Some(c.fetches)
    ensures Window(Stream(z), Fetched(z, c))
    ensures Fetched(z, c).page == [] ==> c.yielded == |Stream(z)|
  {
    var c' := Fetched(z, c);
    FetchedPage(z, c);
    FailAhead(z, c);
    assert c'.page[0..] == c'.page;
    SliceOfPrefix(Unfailing(z), |Stream(z)|, c.yielded, c.yielded + |c'.page|);
  }

  /** A failing fetch that is still to come lies behind the next page. */
  lemma FailAhead<R>(z: Zone<R>, c: Cursor<R>)
    requires z.limit > 0 && Position(z, c, c.yielded) && c.hasMore && z.failAt != Some(c.fetches)
    ensures z.failAt.Some? ==> c.yielded + z.limit <= Full(z.failAt.value, z.limit)
  {
    if z.failAt.Some? { FullMonotone(c.fetches, z.failAt.value, z.limit); }
  }

  lemma FetchedPosition<R>(z: Zone<R>, c: Cursor<R>)
    requires z.limit > 0 && Position(z, c, c.yielded) && c.hasMore && z.failAt != Some(c.fetches)
    ensures var c' := Fetched(z, c); Position(z, c', c.yielded + |c'.page|)
  {
    FetchedPage(z, c);
    FailAhead(z, c);
  }

  lemma WindowStep<R>(s: seq<R>, c: Cursor<R>)
    requires Window(s, c) && c.index < |c.page|
    ensures c.page[c.index] == s[c.yielded]
    ensures Window(s, c.(index := c.index + 1, yielded := c.yielded + 1))
  {
    var end := c.yielded + |c.page| - c.index;
    assert c.page[c.index] == c.page[c.index..][0] == s[c.yielded..end][0];
    assert c.page[c.index + 1..] == c.page[c.index..][1..];
    assert s[c.yielded + 1..end] == s[c.yielded..end][1..];
  }

  /** The step takes what the stream has next, or finds it used up. */
  ghost predicate Takes<R>(s: seq<R>, c: Cursor<R>, c': Cursor<R>, r: Option<R>) {
    if c.yielded < |s| then r == Some(s[c.yielded]) && c'.yielded == c.yielded + 1
    else r == None && c'.yielded == c.yielded
  }

  lemma StepInPage<R>(z: Zone<R>, c: Cursor<R>)
    requires Inv(z, c) && c.index < |c.page|
    ensures var c' := c.(index := c.index + 1, yielded := c.yielded + 1);
            Inv(z, c') && Takes(Stream(z), c, c', Some(c.page[c.index]))
  {
    WindowStep(Stream(z), c);
  }

  /** Every step yields the next element of the stream, and nothing once it is used up. */
  lemma StepYields<R>(z: Zone<R>, c: Cursor<R>)
    requires z.limit > 0 && Inv(z, c)
    ensures var (c', r) := Step(Serve(z), c); Inv(z, c') && Takes(Stream(z), c, c', r)
  {
    if c.index < |c.page| {
      StepInPage(z, c);
    } else if c.hasMore {
      StepFetches(z, c);
    }
  }

  lemma StepFetches<R>(z: Zone<R>, c: Cursor<R>)
    requires z.limit > 0 && Inv(z, c) && c.index == |c.page| && c.hasMore
    ensures var (c', r) := Step(Serve(z), c); Inv(z, c') && Takes(Stream(z), c, c', r)
  {
    var c1 := Fetch(Serve(z), c);
    FetchInv(z, c);
    FetchKeepsCount(Serve(z), c);
    if c1.page != [] { StepInPage(z, c1); }
  }

  lemma FetchKeepsCount<R>(fetch: Fetcher<R>, c: Cursor<R>)
    ensures Fetch(fetch, c).yielded == c.yielded && Fetch(fetch, c).index == 0
  {
  }

  method GetAllRecords<R>(z: Zone<R>) returns (all: seq<R>)
    requires z.limit > 0
    ensures all == Stream(z)
  {
    ZoneYields(z);
    all := Drain(Serve(z), Stream(z));
  }

  lemma ZoneYields<R>(z: Zone<R>)
    requires z.limit > 0
    ensures Yields(Serve(z), Stream(z))
  {
    forall n: nat | n <= |Stream(z)|
      ensures Inv(z, Walk(Serve(z), n)) && Walk(Serve(z), n).yielded == n
    {
      ZoneWalk(z, n);
    }
    forall n: nat | n < |Stream(z)| ensures Step(Serve(z), Walk(Serve(z), n)).1 == Some(Stream(z)[n]) {
      StepYields(z, Walk(Serve(z), n));
    }
    StepYields(z, Walk(Serve(z), |Stream(z)|));
  }

  lemma {:induction false} ZoneWalk<R>(z: Zone<R>, n: nat)
    requires z.limit > 0 && n <= |Stream(z)|
    ensures Inv(z, Walk(Serve(z), n)) && Walk(Serve(z), n).yielded == n
  {
    if n > 0 {
      ZoneWalk(z, n - 1);
      StepYields(z, Walk(Serve(z), n - 1));
    }
  }

  // ----- pages of any size -------------------------------------------------

  /** A server of given pages, some of them possibly empty. The link of page k carries the
      offset `links(k)`, under which the server finds the page `at` says. */
  datatype Pages<!R> = Pages(pages: seq<seq<R>>, links: nat -> nat, at: nat -> nat, total: nat)

  /** Each link leads to the next page. */
  ghost predicate Chained<R>(s: Pages<R>) {
    forall k: nat :: k + 1 < |s.pages| ==> s.at(s.links(k)) == k + 1
  }

  function ServePages<R>(s: Pages<R>): Fetcher<R> {
    (n, o: Option<nat>) =>
      var k := if o.Some? then s.at(o.value) else 0;
      if k >= |s.pages| then Page([], NoLink, s.total)
      else Page(s.pages[k], if k + 1 < |s.pages| then LinkTo(s.links(k)) else NoLink, s.total)
  }

  function Concat<R>(pages: seq<seq<R>>): seq<R> {
    if pages == [] then [] else Concat(pages[..|pages| - 1]) + pages[|pages| - 1]
  }

  /** The number of pages before the first empty one. */
  function Filled<R(==)>(pages: seq<seq<R>>): (n: nat)
    ensures n <= |pages| && (n < |pages| ==> pages[n] == [])
    ensures forall k :: 0 <= k < n ==> pages[k] != []
  {
    if pages == [] || pages[0] == [] then 0 else 1 + Filled(pages[1..])
  }

  /** After n records: inside page number fetches - 1, all pages before it being used up. */
  ghost predicate InPages<R>(s: Pages<R>, c: Cursor<R>, n: nat) {
    var j := c.fetches;
    if j == 0 then c == Start() && n == 0
    else
      && j <= Filled(s.pages) && c.page == s.pages[j - 1] && c.index <= |c.page|
      && n == c.yielded == |Concat(s.pages[..j - 1])| + c.index
      && (c.hasMore <==> j < |s.pages|)
      && (c.hasMore ==> c.offset == Some(s.links(j - 1)))
  }

  lemma {:induction false} ConcatSplit<R>(pages: seq<seq<R>>, j: nat)
    requires j <= |pages|
    ensures Concat(pages) == Concat(pages[..j]) + Concat(pages[j..])
    decreases |pages|
  {
    var n := |pages| - 1;
    if j == |pages| {
      assert pages[..j] == pages && pages[j..] == [];
    } else {
      ConcatSplit(pages[..n], j);
      assert pages[..n][..j] == pages[..j] && pages[j..][..n - j] == pages[..n][j..];
    }
  }

  /** Record i of page k, in the concatenation of the first m pages. */
  lemma ConcatAt<R>(pages: seq<seq<R>>, m: nat, k: nat, i: nat)
    requires k < m <= |pages| && i < |pages[k]|
    ensures |Concat(pages[..k])| + i < |Concat(pages[..m])|
    ensures Concat(pages[..m])[|Concat(pages[..k])| + i] == pages[k][i]
  {
    var first := pages[..m];
    ConcatSplit(first, k + 1);
    assert first[..k] == pages[..k] && first[..k + 1] == pages[..k + 1];
    assert pages[..k + 1][..k] == pages[..k] && pages[..k + 1][k] == pages[k];
  }

  ghost predicate Serves<R>(s: Pages<R>, c: Cursor<R>, n: nat) {
    var stream := Concat(s.pages[..Filled(s.pages)]);
    var (c', r) := Step(ServePages(s), c);
    n <= |stream| && if n < |stream| then r == Some(stream[n]) && InPages(s, c', n + 1) else r == None
  }

  lemma PagesStep<R>(s: Pages<R>, c: Cursor<R>, n: nat)
    requires Chained(s) && InPages(s, c, n)
    ensures Serves(s, c, n)
  {
    if c.index < |c.page| { StepInside(s, c, n); }
    else if c.fetches < Filled(s.pages) { StepToNext(s, c, n); }
    else { StepToEnd(s, c, n); }
  }

  lemma StepInside<R>(s: Pages<R>, c: Cursor<R>, n: nat)
    requires Chained(s) && InPages(s, c, n) && c.index < |c.page|
    ensures Serves(s, c, n)
  {
    ConcatAt(s.pages, Filled(s.pages), c.fetches - 1, c.index);
  }

  /** What a fetch of a walk brings. */
  lemma NextPage<R>(s: Pages<R>, c: Cursor<R>, n: nat)
    requires Chained(s) && InPages(s, c, n) && c.hasMore
    ensures var j, c' := c.fetches, Fetch(ServePages(s), c);
            && c'.yielded == c.yielded && c'.index == 0 && c'.fetches == j + 1
            && c'.page == (if j < |s.pages| then s.pages[j] else [])
            && (j < |s.pages| && s.pages[j] != [] ==>
                  (c'.hasMore <==> j + 1 < |s.pages|) && (c'.hasMore ==> c'.offset == Some(s.links(j))))
  {
    if c.fetches > 0 { assert s.at(s.links(c.fetches - 1)) == c.fetches; }
  }

  lemma StepToNext<R>(s: Pages<R>, c: Cursor<R>, n: nat)
    requires Chained(s) && InPages(s, c, n) && c.index >= |c.page| && c.fetches < Filled(s.pages)
    ensures Serves(s, c, n)
  {
    var j := c.fetches;
    NextPage(s, c, n);
    if j > 0 { PageEnds(s.pages, j, Filled(s.pages)); }
    ConcatAt(s.pages, Filled(s.pages), j, 0);
  }

  lemma StepToEnd<R>(s: Pages<R>, c: Cursor<R>, n: nat)
    requires Chained(s) && InPages(s, c, n) && c.index >= |c.page| && c.fetches >= Filled(s.pages)
    ensures Serves(s, c, n)
  {
    if c.hasMore { NextPage(s, c, n); }
    if c.fetches > 0 { PageEnds(s.pages, c.fetches, Filled(s.pages)); }
  }

  lemma PageEnds<R>(pages: seq<seq<R>>, j: nat, m: nat)
    requires 0 < j <= m <= |pages|
    ensures |Concat(pages[..j - 1])| + |pages[j - 1]| == |Concat(pages[..j])| <= |Concat(pages[..m])|
  {
    assert pages[..j][..j - 1] == pages[..j - 1];
    ConcatSplit(pages[..m], j);
    assert pages[..m][..j] == pages[..j];
  }

  /** What draining such a server yields: the pages before the first empty one. */
  method GetAllPages<R>(s: Pages<R>) returns (all: seq<R>)
    requires Chained(s)
    ensures all == Concat(s.pages[..Filled(s.pages)])
  {
    PagesYield(s);
    all := Drain(ServePages(s), Concat(s.pages[..Filled(s.pages)]));
  }

  lemma PagesYield<R>(s: Pages<R>)
    requires Chained(s)
    ensures Yields(ServePages(s), Concat(s.pages[..Filled(s.pages)]))
  {
    var fetch, stream := ServePages(s), Concat(s.pages[..Filled(s.pages)]);
    forall n: nat | n < |stream| ensures Step(fetch, Walk(fetch, n)).1 == Some(stream[n]) {
      PagesWalk(s, n);
      PagesStep(s, Walk(fetch, n), n);
    }
    PagesWalk(s, |stream|);
    PagesStep(s, Walk(fetch, |stream|), |stream|);
  }

  lemma {:induction false} PagesWalk<R>(s: Pages<R>, n: nat)
    requires Chained(s) && n <= |Concat(s.pages[..Filled(s.pages)])|
    ensures InPages(s, Walk(ServePages(s), n), n)
  {
    if n > 0 {
      PagesWalk(s, n - 1);
      PagesStep(s, Walk(ServePages(s), n - 1), n - 1);
    }
  }

  ghost predicate NoneAfterEmpty<R>(pages: seq<seq<R>>) {
    forall i, k :: 0 <= i < k < |pages| && pages[i] == [] ==> pages[k] == []
  }

  /** That is the whole list exactly if no empty page precedes one with records. */
  lemma PagesCompleteExactly<R>(pages: seq<seq<R>>)
    ensures Concat(pages[..Filled(pages)]) == Concat(pages) <==> NoneAfterEmpty(pages)
  {
    var m := Filled(pages);
    ConcatSplit(pages, m);
    NothingIn(pages, m);
    EmptyTail(pages);
    if Concat(pages[m..]) == [] {
      assert Concat(pages[..m]) + [] == Concat(pages[..m]);
    } else {
      assert |Concat(pages)| > |Concat(pages[..m])|;
    }
  }

  ghost predicate EmptyFrom<R>(pages: seq<seq<R>>, m: nat) { forall k :: m <= k < |pages| ==> pages[k] == [] }

  lemma EmptyTail<R>(pages: seq<seq<R>>)
    ensures NoneAfterEmpty(pages) <==> EmptyFrom(pages, Filled(pages))
  {
    var m := Filled(pages);
    if EmptyFrom(pages, m) {
      forall i, k | 0 <= i < k < |pages| && pages[i] == [] ensures pages[k] == [] { assert i >= m; }
    }
  }

  lemma {:induction false} NothingIn<R>(pages: seq<seq<R>>, m: nat)
    requires m <= |pages|
    ensures Concat(pages[m..]) == [] <==> EmptyFrom(pages, m)
    decreases |pages|
  {
    if m < |pages| {
      var n := |pages| - 1;
      NothingIn(pages[..n], m);
      assert pages[m..][..n - m] == pages[..n][m..];
      assert Concat(pages[m..]) == Concat(pages[..n][m..]) + pages[n];
      assert EmptyFrom(pages, m) <==> EmptyFrom(pages[..n], m) && pages[n] == [] by {
        assert forall k :: m <= k < n ==> pages[..n][k] == pages[k];
      }
      assert |Concat(pages[m..])| == |Concat(pages[..n][m..])| + |pages[n]|;
    }
  }

  /** The smallest case of it: an empty page with a next link makes __next__ stop, though not for
      good, another call would yield the record of the next page. */
  lemma EmptyLinkedPageStopsEarly(record: int)
    ensures var fetch: Fetcher<int> :=
              (n, o) => if n == 0 then Page([], LinkTo(7), 1) else Page([record], NoLink, 1);
            && Step(fetch, Start()).1 == None
            && Step(fetch, Step(fetch, Start()).0).1 == Some(record)
  {
  }
}
