/** The paginated record iterator (compute/ibm_vpc.py), as a cursor state machine. */
module RecordIterator {
  import opened Options

  /** The `next` field of a reply: absent, carrying a usable offset, or without one. */
  datatype Link = NoLink | LinkTo(offset: nat) | LinkWithoutOffset

  /** A reply of the page fetcher. `Failed` stands for a DNS error that survived its retries. */
  datatype Reply<+R> = Failed | Page(records: seq<R>, next: Link, total: nat)

  /** Fetch number and requested offset to reply. */
  type Fetcher<!R> = (nat, Option<nat>) -> Reply<R>

  datatype Cursor<R> = Cursor(offset: Option<nat>, yielded: nat, page: seq<R>, index: nat, hasMore: bool, fetches: nat)

  function Start<R>(): Cursor<R> { Cursor(None, 0, [], 0, true, 0) }

  /** _fetch_next_page */
  function Fetch<R>(fetch: Fetcher<R>, c: Cursor<R>): Cursor<R> {
    var next := c.(page := [], index := 0, fetches := c.fetches + 1);
    match fetch(c.fetches, c.offset)
    case Failed => next.(hasMore := false)
    case Page(records, link, total) =>
      var got := next.(page := records);
      match link
      case NoLink => got.(hasMore := false)
      case LinkTo(o) => got.(offset := Some(o), hasMore := c.hasMore || records == [])
      case LinkWithoutOffset =>
        if records == [] || c.yielded >= total then got.(hasMore := false)
        else got.(offset := Some(c.yielded))
  }

  /** __next__; None is StopIteration. */
  function Step<R>(fetch: Fetcher<R>, c: Cursor<R>): (Cursor<R>, Option<R>) {
    if c.index < |c.page| then
      (c.(index := c.index + 1, yielded := c.yielded + 1), Some(c.page[c.index]))
    else if !c.hasMore then
      (c, None)
    else
      var c' := Fetch(fetch, c);
      if c'.page != [] then (c'.(index := 1, yielded := c'.yielded + 1), Some(c'.page[0])) else (c', None)
  }

  class ResourceRecordIterator<R> {
    const fetchPage: Fetcher<R>
    var offset: Option<nat>
    var recordsYielded: nat
    var currentPage: seq<R>
    var currentIndex: nat
    var hasMore: bool
    var fetches: nat

    ghost function State(): Cursor<R>
      reads this
    {
      Cursor(offset, recordsYielded, currentPage, currentIndex, hasMore, fetches)
    }

    constructor (fetchPage: Fetcher<R>)
      ensures State() == Start() && this.fetchPage == fetchPage
    {
      this.fetchPage := fetchPage;
      offset, recordsYielded, currentPage, currentIndex, hasMore, fetches := None, 0, [], 0, true, 0;
    }

    method Next() returns (r: Option<R>)
      modifies this
      ensures (State(), r) == Step(fetchPage, old(State()))
    {
      if currentIndex < |currentPage| {
        r := Some(currentPage[currentIndex]);
        currentIndex := currentIndex + 1;
        recordsYielded := recordsYielded + 1;
        return;
      }
      if !hasMore { return None; }
      FetchNextPage();
      if currentPage != [] {
        r := Some(currentPage[0]);
        currentIndex := 1;
        recordsYielded := recordsYielded + 1;
        return;
      }
      return None;
    }

    method FetchNextPage()
      modifies this
      ensures State() == Fetch(fetchPage, old(State()))
    {
      var reply := fetchPage(fetches, offset);
      fetches := fetches + 1;
      currentPage, currentIndex := [], 0;
      if reply.Failed? {
        hasMore := false;
        return;
      }
      if reply.records == [] {
        if reply.next.LinkTo? {
          offset, hasMore := Some(reply.next.offset), true;
          return;
        }
        hasMore := false;
        return;
      }
      currentPage := reply.records;
      if reply.next.NoLink? {
        hasMore := false;
        return;
      }
      if reply.next.LinkTo? {
        offset := Some(reply.next.offset);
      } else if recordsYielded >= reply.total {
        hasMore := false;
      } else {
        offset := Some(recordsYielded);
      }
    }
  }

  // ----- draining the iterator ---------------------------------------------

  /** The cursor after n steps. */
  function Walk<R>(fetch: Fetcher<R>, n: nat): Cursor<R> {
    if n == 0 then Start() else Step(fetch, Walk(fetch, n - 1)).0
  }

  /** The steps yield the records of the stream, one by one, and then StopIteration. */
  ghost predicate Yields<R>(fetch: Fetcher<R>, stream: seq<R>) {
    && (forall n: nat :: n < |stream| ==> Step(fetch, Walk(fetch, n)).1 == Some(stream[n]))
    && Step(fetch, Walk(fetch, |stream|)).1 == None
  }

  lemma YieldsNext<R>(fetch: Fetcher<R>, stream: seq<R>, n: nat)
    requires Yields(fetch, stream) && n <= |stream|
    ensures var r := Step(fetch, Walk(fetch, n)).1;
            if n < |stream| then r == Some(stream[n]) && stream[..n] + [stream[n]] == stream[..n + 1]
            else r == None && stream[..n] == stream
    ensures Walk(fetch, n + 1) == Step(fetch, Walk(fetch, n)).0
  {
  }

  /** get_all_dns_records (utility/ibm_dns_report.py): loop until StopIteration. */
  method Drain<R>(fetch: Fetcher<R>, ghost stream: seq<R>) returns (all: seq<R>)
    requires Yields(fetch, stream)
    ensures all == stream
  {
    var it := new ResourceRecordIterator(fetch);
    all := [];
    while true
      invariant it.fetchPage == fetch && it.State() == Walk(fetch, |all|)
      invariant |all| <= |stream| && all == stream[..|all|]
      decreases |stream| - |all|
    {
      YieldsNext(fetch, stream, |all|);
      var r := it.Next();
      if r.None? { break; }
      all := all + [r.value];
    }
  }
}
