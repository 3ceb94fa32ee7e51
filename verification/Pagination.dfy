/**
 Three ways to walk a paginated listing: the lazy stream of `Page::into_stream`, the
 collector of the blocking facade, and the walk of `Session::peers`. The server is a
 function from the number of the request and the page asked for, so it may answer
 anything at any time.
 */
module Pagination {
  import opened Basics

  const U64_MAX: nat := 0xFFFF_FFFF_FFFF_FFFF
  const MAX_COLLECT_PAGES: nat := 1000

  type u64 = n: nat | n <= 0xFFFF_FFFF_FFFF_FFFF

  datatype Error = Server(code: int) | CapExceeded | BadItem

  datatype Result<+T> = Ok(value: T) | Err(error: Error)

  datatype PageResponse<+R> = PageResponse(items: seq<R>, page: u64, pages: u64)

  type Server<R> = (nat, nat) -> Result<PageResponse<R>>

  /** A page with its transform; `fetches` says whether a fetcher is attached. */
  datatype Page<!R, +T> = Page(response: PageResponse<R>, fetches: bool, transform: R -> T) {
    predicate HasNext() { response.page < response.pages }

    function Items(): seq<T> { Mapped(transform, response.items) }

    /** The same page, with `f` after the transform it has. */
    function Map<U>(f: T -> U): Page<R, U> { Page(response, fetches, Compose(transform, f)) }

    /** The page of a later response: fetcher and transform are handed on. */
    function Successor(next: PageResponse<R>): Page<R, T> { Page(next, fetches, transform) }

    /** `next_page`, where `server(k, p)` is the answer to a request for page `p`; None: nothing is asked for. */
    function NextPage(server: Server<R>, k: nat): Result<Option<Page<R, T>>> {
      if !HasNext() || !fetches || response.page + 1 > U64_MAX then Ok(None)
      else
        match server(k, response.page + 1)
        case Err(e) => Err(e)
        case Ok(next) => Ok(Some(Successor(next)))
    }
  }

  function Compose<A, B, C>(f: A -> B, g: B -> C): A -> C { a => g(f(a)) }

  function Mapped<A, B>(f: A -> B, s: seq<A>): (r: seq<B>)
    ensures |r| == |s| && forall i :: 0 <= i < |s| ==> r[i] == f(s[i])
  {
    if s == [] then [] else [f(s[0])] + Mapped(f, s[1..])
  }

  // ---------------------------------------------------------------------
  // Page::into_stream
  // ---------------------------------------------------------------------

  /** Items in the order they are yielded, how the walk ended, and the pages it asked for. */
  datatype Walk<+T> = Walk(items: seq<T>, end: Result<()>, requests: seq<nat>)

  function After<T>(items: seq<T>, requests: seq<nat>, rest: Walk<T>): Walk<T> {
    Walk(items + rest.items, rest.end, requests + rest.requests)
  }

  /** The stream after the first page: request number `k` asks for page `current`. */
  function StreamFrom<R, T>(server: Server<R>, transform: R -> T, k: nat, current: u64): Walk<T>
    decreases U64_MAX - current
  {
    match server(k, current)
    case Err(e) => Walk([], Err(e), [current])
    case Ok(resp) =>
      var items := Mapped(transform, resp.items);
      if resp.page >= resp.pages || resp.page + 1 <= current then Walk(items, Ok(()), [current])
      else After(items, [current], StreamFrom(server, transform, k + 1, resp.page + 1))
  }

  function Stream<R, T>(first: Page<R, T>, server: Server<R>): Walk<T> {
    if first.fetches && first.HasNext() then
      After(first.Items(), [], StreamFrom(server, first.transform, 0, first.response.page + 1))
    else Walk(first.Items(), Ok(()), [])
  }

  /** The generator of `into_stream`, run to its end. `checked_add` is spelled out. */
  method IntoStream<R, T>(first: Page<R, T>, server: Server<R>) returns (walk: Walk<T>)
    ensures walk == Stream(first, server)
  {
    var items, requests: seq<nat> := first.Items(), [];
    if first.fetches && first.HasNext() && first.response.page + 1 <= U64_MAX {
      var current: u64, k := first.response.page + 1, 0;
      while true
        invariant Stream(first, server) == After(items, requests, StreamFrom(server, first.transform, k, current))
        decreases U64_MAX - current
      {
        var reply := server(k, current);
        ghost var before, asked := items, requests;
        requests := requests + [current];
        if reply.Err? {
          return Walk(items, Err(reply.error), requests);
        }
        var resp := reply.value;
        items := items + Mapped(first.transform, resp.items);
        if resp.page >= resp.pages || resp.page + 1 > U64_MAX || resp.page + 1 <= current {
          return Walk(items, Ok(()), requests);
        }
        AfterTwice(before, asked, Mapped(first.transform, resp.items), [current],
                   StreamFrom(server, first.transform, k + 1, resp.page + 1));
        k, current := k + 1, resp.page + 1;
      }
    }
    walk := Walk(items, Ok(()), requests);
  }

  predicate StrictlyIncreasing(s: seq<nat>) { forall i, j :: 0 <= i < j < |s| ==> s[i] < s[j] }

  lemma {:induction false} StreamFromAsksUpwards<R, T>(server: Server<R>, transform: R -> T, k: nat, current: u64)
    ensures var asked := StreamFrom(server, transform, k, current).requests;
            && asked != [] && asked[0] == current && StrictlyIncreasing(asked)
            && forall i :: 0 <= i < |asked| ==> current <= asked[i] <= U64_MAX
    decreases U64_MAX - current
  {
    var reply := server(k, current);
    if reply.Ok? && reply.value.page < reply.value.pages && reply.value.page + 1 > current {
      StreamFromAsksUpwards(server, transform, k + 1, reply.value.page + 1);
    }
  }

  /** Against any server: no page is asked for twice, none before the first, and none out of range. */
  lemma StreamAsksUpwards<R, T>(first: Page<R, T>, server: Server<R>)
    ensures var asked := Stream(first, server).requests;
            StrictlyIncreasing(asked) && forall i :: 0 <= i < |asked| ==> first.response.page < asked[i] <= U64_MAX
  {
    if first.fetches && first.HasNext() {
      var rest := StreamFrom(server, first.transform, 0, first.response.page + 1);
      StreamFromAsksUpwards(server, first.transform, 0, first.response.page + 1);
      assert [] + rest.requests == rest.requests;
    }
  }

  lemma AfterTwice<T>(a: seq<T>, p: seq<nat>, b: seq<T>, q: seq<nat>, rest: Walk<T>)
    ensures After(a, p, After(b, q, rest)) == After(a + b, p + q, rest)
  {
  }

  // ---------------------------------------------------------------------
  // collect_all_pages
  // ---------------------------------------------------------------------

  function Prefixed<T>(items: seq<T>, rest: Result<seq<T>>): Result<seq<T>> {
    match rest case Ok(more) => Ok(items + more) case Err(e) => Err(e)
  }

  /** The collector from `page` on, which is page number `count` it has read. */
  function CollectFrom<R, T>(page: Page<R, T>, server: Server<R>, count: nat): Result<seq<T>>
    requires 1 <= count <= MAX_COLLECT_PAGES
    decreases MAX_COLLECT_PAGES - count
  {
    if !page.HasNext() then Ok(page.Items())
    else if count >= MAX_COLLECT_PAGES then Err(CapExceeded)
    else if !page.fetches then Ok(page.Items())
    else
      match server(count - 1, page.response.page + 1)
      case Err(e) => Err(e)
      case Ok(next) => Prefixed(page.Items(), CollectFrom(page.Successor(next), server, count + 1))
  }

  /** The responses the collector reads, from `page` on. */
  function PagesRead<R, T>(page: Page<R, T>, server: Server<R>, count: nat): (read: seq<PageResponse<R>>)
    requires 1 <= count <= MAX_COLLECT_PAGES
    ensures read != [] && read[0] == page.response
    decreases MAX_COLLECT_PAGES - count
  {
    [page.response] +
    if !page.HasNext() || count >= MAX_COLLECT_PAGES || !page.fetches then []
    else
      match server(count - 1, page.response.page + 1)
      case Err(_) => []
      case Ok(next) => PagesRead(page.Successor(next), server, count + 1)
  }

  /** Each response after the first was fetched because the one before it has a successor. */
  ghost predicate Chain<R>(server: Server<R>, count: nat, read: seq<PageResponse<R>>)
    requires count >= 1
    decreases |read|
  {
    |read| > 1 ==>
      && read[0].page < read[0].pages && server(count - 1, read[0].page + 1) == Ok(read[1])
      && Chain(server, count + 1, read[1..])
  }

  lemma {:induction false} ChainGrows<R>(server: Server<R>, count: nat, read: seq<PageResponse<R>>, next: PageResponse<R>)
    requires 1 <= count && read != [] && Chain(server, count, read)
    requires var last := read[|read| - 1];
             last.page < last.pages && server(count + |read| - 2, last.page + 1) == Ok(next)
    ensures Chain(server, count, read + [next])
    decreases |read|
  {
    if |read| > 1 {
      ChainGrows(server, count + 1, read[1..], next);
      assert (read + [next])[1..] == read[1..] + [next];
    } else {
      assert Chain(server, count + 1, (read + [next])[1..]);
    }
  }

  /** Nothing is fetched after `last`, which is response number `count`. */
  ghost predicate LastRead<R>(server: Server<R>, count: nat, fetches: bool, last: PageResponse<R>)
    requires count >= 1
  {
    || last.page >= last.pages || count == MAX_COLLECT_PAGES || !fetches
    || server(count - 1, last.page + 1).Err?
  }

  function ItemsOf<R>(read: seq<PageResponse<R>>): seq<R> {
    if read == [] then [] else read[0].items + ItemsOf(read[1..])
  }

  /** The collector's result once `read` is all it reads: the items of those pages, or why it could not go on. */
  ghost function Outcome<R, T>(page: Page<R, T>, server: Server<R>, count: nat, read: seq<PageResponse<R>>)
      : Result<seq<T>>
    requires count >= 1 && read != []
    requires LastRead(server, count + |read| - 1, page.fetches, read[|read| - 1])
  {
    var n, last := count + |read| - 1, read[|read| - 1];
    if last.page < last.pages && n == MAX_COLLECT_PAGES then Err(CapExceeded)
    else if last.page < last.pages && page.fetches then Err(server(n - 1, last.page + 1).error)
    else Ok(Mapped(page.transform, ItemsOf(read)))
  }

  lemma OutcomeStep<R, T>(page: Page<R, T>, next: Page<R, T>, server: Server<R>, count: nat, read: seq<PageResponse<R>>)
    requires count >= 1 && |read| > 1 && read[0] == page.response && next == page.Successor(read[1])
    requires LastRead(server, count + |read| - 1, page.fetches, read[|read| - 1])
    ensures Outcome(page, server, count, read) == Prefixed(page.Items(), Outcome(next, server, count + 1, read[1..]))
  {
    assert read[1..][|read[1..]| - 1] == read[|read| - 1];
    MappedFlatten(page.transform, read[0].items, ItemsOf(read[1..]));
  }

  /** A chain that has come to its end is what the collector reads, and decides what it returns. */
  lemma {:induction false} ChainDecides<R, T>(
      page: Page<R, T>, server: Server<R>, count: nat, read: seq<PageResponse<R>>)
    requires 1 <= count && read != [] && count + |read| - 1 <= MAX_COLLECT_PAGES && read[0] == page.response
    requires Chain(server, count, read) && (|read| > 1 ==> page.fetches)
    requires LastRead(server, count + |read| - 1, page.fetches, read[|read| - 1])
    ensures read == PagesRead(page, server, count)
    ensures CollectFrom(page, server, count) == Outcome(page, server, count, read)
    decreases |read|
  {
    if |read| > 1 {
      var next := page.Successor(read[1]);
      assert read == [read[0]] + read[1..] && Fetches(page, server, count, next);
      ReadStep(page, server, count, next);
      OutcomeStep(page, next, server, count, read);
      ChainDecides(next, server, count + 1, read[1..]);
    } else {
      assert read == [page.response];
      ReadStops(page, server, count);
    }
  }

  lemma {:induction false} ItemsOfAppend<R>(read: seq<PageResponse<R>>, next: PageResponse<R>)
    ensures ItemsOf(read + [next]) == ItemsOf(read) + next.items
  {
    if read == [] {
      assert [next][1..] == [] && next.items + [] == next.items && [] + [next] == [next];
    } else {
      assert (read + [next])[1..] == read[1..] + [next];
      ItemsOfAppend(read[1..], next);
      Associate(read[0].items, ItemsOf(read[1..]), next.items);
    }
  }

  /** `read` records the responses received, the first page's included. */
  method CollectAllPages<R, T>(first: Page<R, T>, server: Server<R>)
      returns (result: Result<seq<T>>, ghost read: seq<PageResponse<R>>)
    ensures result == CollectFrom(first, server, 1)
    ensures read == PagesRead(first, server, 1) && |read| <= MAX_COLLECT_PAGES
  {
    var all := first.Items();
    var current, pages := first, 1;
    read := [first.response];
    assert ItemsOf(read) == first.response.items + [] == first.response.items;
    while true
      invariant 1 <= pages <= MAX_COLLECT_PAGES && Reading(first, server, read, current, pages)
      invariant all == Mapped(first.transform, ItemsOf(read))
      decreases MAX_COLLECT_PAGES - pages
    {
      if pages >= MAX_COLLECT_PAGES && current.HasNext() {
        ReadingCapped(first, server, read, current, pages);
        return Err(CapExceeded), read;
      }
      ReadingNext(first, server, read, current, pages);
      match current.NextPage(server, pages - 1) {
        case Err(e) => return Err(e), read;
        case Ok(None) => return Ok(all), read;
        case Ok(Some(next)) =>
          read := read + [next.response];
          pages := pages + 1;
          all := all + next.Items();
          current := next;
      }
    }
  }

  lemma ReadingCapped<R, T>(first: Page<R, T>, server: Server<R>, read: seq<PageResponse<R>>,
                            current: Page<R, T>, pages: nat)
    requires Reading(first, server, read, current, pages) && pages == MAX_COLLECT_PAGES && current.HasNext()
    ensures read == PagesRead(first, server, 1) && CollectFrom(first, server, 1) == Err(CapExceeded)
  {
    ChainDecides(first, server, 1, read);
  }

  lemma ReadingNext<R, T>(first: Page<R, T>, server: Server<R>, read: seq<PageResponse<R>>,
                          current: Page<R, T>, pages: nat)
    requires Reading(first, server, read, current, pages)
    requires pages < MAX_COLLECT_PAGES || (pages == MAX_COLLECT_PAGES && !current.HasNext())
    ensures var reply := current.NextPage(server, pages - 1);
            if reply.Err? then read == PagesRead(first, server, 1) && CollectFrom(first, server, 1) == Err(reply.error)
            else if reply.value.None? then
              read == PagesRead(first, server, 1)
              && CollectFrom(first, server, 1) == Ok(Mapped(first.transform, ItemsOf(read)))
            else pages < MAX_COLLECT_PAGES && ReadingMore(first, server, read, reply.value.value, pages)
  {
    var reply := current.NextPage(server, pages - 1);
    if reply.Ok? && reply.value.Some? {
      ReadingGoesOn(first, server, read, current, pages, reply.value.value);
    } else {
      ReadingStops(first, server, read, current, pages, reply);
    }
  }

  lemma ReadingStops<R, T>(first: Page<R, T>, server: Server<R>, read: seq<PageResponse<R>>,
                           current: Page<R, T>, pages: nat, reply: Result<Option<Page<R, T>>>)
    requires Reading(first, server, read, current, pages)
    requires pages < MAX_COLLECT_PAGES || (pages == MAX_COLLECT_PAGES && !current.HasNext())
    requires reply == current.NextPage(server, pages - 1) && (reply.Err? || reply.value.None?)
    ensures read == PagesRead(first, server, 1)
    ensures CollectFrom(first, server, 1) ==
            if reply.Err? then Err(reply.error) else Ok(Mapped(first.transform, ItemsOf(read)))
  {
    var last := current.response;
    assert LastRead(server, pages, first.fetches, last);
    assert Outcome(first, server, 1, read) ==
           if reply.Err? then Err(reply.error) else Ok(Mapped(first.transform, ItemsOf(read)));
    ChainDecides(first, server, 1, read);
  }

  ghost predicate ReadingMore<R, T>(first: Page<R, T>, server: Server<R>, read: seq<PageResponse<R>>,
                                    next: Page<R, T>, pages: nat)
  {
    && Reading(first, server, read + [next.response], next, pages + 1)
    && Mapped(first.transform, ItemsOf(read + [next.response])) ==
       Mapped(first.transform, ItemsOf(read)) + next.Items()
  }

  ghost predicate Reading<R, T>(first: Page<R, T>, server: Server<R>, read: seq<PageResponse<R>>,
                                current: Page<R, T>, pages: nat)
  {
    && 1 <= pages == |read| && read[0] == first.response
    && current == first.Successor(read[pages - 1])
    && (pages > 1 ==> first.fetches) && Chain(server, 1, read)
  }

  lemma ReadingGoesOn<R, T>(first: Page<R, T>, server: Server<R>, read: seq<PageResponse<R>>,
                            current: Page<R, T>, pages: nat, next: Page<R, T>)
    requires Reading(first, server, read, current, pages)
    requires current.NextPage(server, pages - 1) == Ok(Some(next))
    ensures Reading(first, server, read + [next.response], next, pages + 1)
    ensures Mapped(first.transform, ItemsOf(read + [next.response])) ==
            Mapped(first.transform, ItemsOf(read)) + next.Items()
  {
    ChainGrows(server, 1, read, next.response);
    ItemsOfAppend(read, next.response);
    MappedFlatten(first.transform, ItemsOf(read), next.response.items);
  }

  /** The page fetched after `page`, if the collector fetches one. */
  ghost predicate Fetches<R, T>(page: Page<R, T>, server: Server<R>, count: nat, next: Page<R, T>) {
    && page.HasNext() && 1 <= count < MAX_COLLECT_PAGES && page.fetches
    && server(count - 1, page.response.page + 1) == Ok(next.response) && next == page.Successor(next.response)
  }

  lemma ReadStep<R, T>(page: Page<R, T>, server: Server<R>, count: nat, next: Page<R, T>)
    requires Fetches(page, server, count, next)
    ensures PagesRead(page, server, count) == [page.response] + PagesRead(next, server, count + 1)
    ensures CollectFrom(page, server, count) == Prefixed(page.Items(), CollectFrom(next, server, count + 1))
    ensures var read, rest := PagesRead(page, server, count), PagesRead(next, server, count + 1);
            read[1..] == rest && |read| == |rest| + 1 && read[|read| - 1] == rest[|rest| - 1]
  {
  }

  /** Against any server, one that echoes the same page forever included. */
  lemma {:induction false} CollectIsBounded<R, T>(page: Page<R, T>, server: Server<R>, count: nat)
    requires 1 <= count <= MAX_COLLECT_PAGES
    ensures |PagesRead(page, server, count)| + count <= MAX_COLLECT_PAGES + 1
    decreases MAX_COLLECT_PAGES - count
  {
    if page.HasNext() && count < MAX_COLLECT_PAGES && page.fetches {
      var reply := server(count - 1, page.response.page + 1);
      if reply.Ok? {
        CollectIsBounded(page.Successor(reply.value), server, count + 1);
      }
    }
  }

  /**
   When the collector succeeds, its items are those of every page read, and nothing was cut
   off: the last page has no successor, or there was no way to fetch one.
   */
  lemma {:induction false} CollectIsComplete<R, T>(page: Page<R, T>, server: Server<R>, count: nat)
    requires 1 <= count <= MAX_COLLECT_PAGES && CollectFrom(page, server, count).Ok?
    ensures CollectFrom(page, server, count).value == Mapped(page.transform, ItemsOf(PagesRead(page, server, count)))
    ensures var read := PagesRead(page, server, count);
            read[|read| - 1].page >= read[|read| - 1].pages || !page.fetches
    decreases MAX_COLLECT_PAGES - count
  {
    if next: Page<R, T> :| Fetches(page, server, count, next) {
      ReadStep(page, server, count, next);
      CollectIsComplete(next, server, count + 1);
      MappedFlatten(page.transform, page.response.items, ItemsOf(PagesRead(next, server, count + 1)));
    } else {
      ReadStops(page, server, count);
    }
  }

  lemma ReadStops<R, T>(page: Page<R, T>, server: Server<R>, count: nat)
    requires 1 <= count <= MAX_COLLECT_PAGES && !exists next: Page<R, T> :: Fetches(page, server, count, next)
    ensures PagesRead(page, server, count) == [page.response]
    ensures ItemsOf([page.response]) == page.response.items
    ensures CollectFrom(page, server, count) ==
            if page.HasNext() && count == MAX_COLLECT_PAGES then Err(CapExceeded)
            else if page.HasNext() && page.fetches then Err(server(count - 1, page.response.page + 1).error)
            else Ok(page.Items())
  {
    assert page.response.items + [] == page.response.items;
    if page.HasNext() && count < MAX_COLLECT_PAGES && page.fetches {
      var reply := server(count - 1, page.response.page + 1);
      if reply.Ok? {
        assert Fetches(page, server, count, page.Successor(reply.value));
      }
    }
  }

  /** When it fails, pages were left: the cap was reached, or the request for the next page failed. */
  lemma {:induction false} CollectFailsFor<R, T>(
      page: Page<R, T>, server: Server<R>, count: nat, read: seq<PageResponse<R>>)
    requires 1 <= count <= MAX_COLLECT_PAGES
    requires CollectFrom(page, server, count).Err? && read == PagesRead(page, server, count)
    ensures FailsFor(CollectFrom(page, server, count).error, server, |read| + count - 1, read[|read| - 1])
    decreases MAX_COLLECT_PAGES - count
  {
    if next: Page<R, T> :| Fetches(page, server, count, next) {
      ReadStep(page, server, count, next);
      CollectFailsFor(next, server, count + 1, read[1..]);
    } else {
      ReadStops(page, server, count);
    }
  }

  /** With `read` pages read and `last` the last of them, the collector could not go on because of `e`. */
  ghost predicate FailsFor<R>(e: Error, server: Server<R>, read: nat, last: PageResponse<R>) {
    && last.page < last.pages
    && if read == MAX_COLLECT_PAGES then e == CapExceeded else read > 0 && server(read - 1, last.page + 1) == Err(e)
  }

  lemma PrefixedTwice<T>(a: seq<T>, b: seq<T>, rest: Result<seq<T>>)
    ensures Prefixed(a, Prefixed(b, rest)) == Prefixed(a + b, rest)
  {
    if rest.Ok? {
      Associate(a, b, rest.value);
    }
  }

  lemma PrefixedNone<T>(rest: Result<seq<T>>)
    ensures Prefixed([], rest) == rest
  {
    if rest.Ok? {
      assert [] + rest.value == rest.value;
    }
  }

  // ---------------------------------------------------------------------
  // What the stream yields, against any server
  // ---------------------------------------------------------------------

  /**
   Each response after the first was fetched as the successor of the one before, beyond the
   page last asked for. `asked` is the page for which the first one was the answer.
   */
  ghost predicate Followed<R>(server: Server<R>, k: nat, asked: nat, read: seq<PageResponse<R>>)
    decreases |read|
  {
    |read| > 1 ==>
      && asked < read[0].page + 1 && read[0].page < read[0].pages
      && server(k, read[0].page + 1) == Ok(read[1]) && Followed(server, k + 1, read[0].page + 1, read[1..])
  }

  /** The pages asked for to get the responses after the first. */
  function AskedFor<R>(read: seq<PageResponse<R>>): seq<nat> {
    if |read| <= 1 then [] else [read[0].page + 1] + AskedFor(read[1..])
  }

  function LastAsked<R>(asked: nat, read: seq<PageResponse<R>>): nat {
    if |read| <= 1 then asked else read[|read| - 2].page + 1
  }

  /** `last` has a successor, and it is beyond the page last asked for. */
  predicate GoesOn<R>(asked: nat, last: PageResponse<R>) { last.page < last.pages && asked < last.page + 1 }

  /** What the responses come to: all items, the pages asked for, the last response and the request it answered. */
  datatype Trail<R> = Trail(items: seq<R>, pages: seq<nat>, asked: nat, last: PageResponse<R>)

  function TrailOf<R>(asked: nat, read: seq<PageResponse<R>>): Trail<R>
    requires read != []
    decreases |read|
  {
    if |read| == 1 then Trail(read[0].items, [], asked, read[0])
    else TrailBefore(read[0], TrailOf(read[0].page + 1, read[1..]))
  }

  function TrailBefore<R>(resp: PageResponse<R>, t: Trail<R>): Trail<R> {
    Trail(resp.items + t.items, [resp.page + 1] + t.pages, t.asked, t.last)
  }

  lemma {:induction false} TrailMeaning<R>(asked: nat, read: seq<PageResponse<R>>)
    requires read != []
    ensures TrailOf(asked, read) == Trail(ItemsOf(read), AskedFor(read), LastAsked(asked, read), read[|read| - 1])
    decreases |read|
  {
    if |read| > 1 {
      TrailMeaning(read[0].page + 1, read[1..]);
      assert read[1..][|read[1..]| - 1] == read[|read| - 1];
      assert |read| > 2 ==> read[1..][|read[1..]| - 2] == read[|read| - 2];
    } else {
      assert read[0].items + [] == read[0].items;
    }
  }

  /**
   The walk has yielded the items of the trail and asked for `pages`, and then ended: with
   the error of request number `n` if the last response goes on, and cleanly otherwise.
   */
  ghost predicate Decided<R, T>(walk: Walk<T>, server: Server<R>, transform: R -> T, n: nat, t: Trail<R>, pages: seq<nat>) {
    && walk.items == Mapped(transform, t.items)
    && if GoesOn(t.asked, t.last) then
         server(n, t.last.page + 1).Err? && walk.end == Err(server(n, t.last.page + 1).error)
         && walk.requests == pages + [t.last.page + 1]
       else walk.end == Ok(()) && walk.requests == pages
  }

  lemma DecidedAfter<R, T>(walk: Walk<T>, server: Server<R>, transform: R -> T, n: nat, t: Trail<R>, pages: seq<nat>,
                           resp: PageResponse<R>, earlier: seq<nat>)
    requires Decided(walk, server, transform, n, t, pages)
    ensures Decided(After(Mapped(transform, resp.items), earlier, walk), server, transform, n, TrailBefore(resp, t),
                    earlier + pages)
  {
    Associate(earlier, pages, [t.last.page + 1]);
    MappedFlatten(transform, resp.items, t.items);
  }

  lemma LastResponse<R, T>(server: Server<R>, transform: R -> T, k: nat, asked: u64, last: PageResponse<R>)
    requires server(k, asked) == Ok(last) && (GoesOn(asked, last) ==> server(k + 1, last.page + 1).Err?)
    ensures Decided(StreamFrom(server, transform, k, asked), server, transform, k + 1,
                    Trail(last.items, [], asked, last), [asked])
  {
    var items := Mapped(transform, last.items);
    assert items + [] == items;
  }

  lemma StreamStep<R, T>(server: Server<R>, transform: R -> T, k: nat, current: u64, resp: PageResponse<R>)
    requires server(k, current) == Ok(resp) && GoesOn(current, resp)
    ensures StreamFrom(server, transform, k, current) ==
            After(Mapped(transform, resp.items), [current], StreamFrom(server, transform, k + 1, resp.page + 1))
  {
  }

  /** The rest of the stream, once the responses `read` have come to its requests from number `k` on. */
  lemma {:induction false} StreamFromDecides<R, T>(
      server: Server<R>, transform: R -> T, k: nat, asked: u64, read: seq<PageResponse<R>>, t: Trail<R>)
    requires read != [] && server(k, asked) == Ok(read[0]) && Followed(server, k + 1, asked, read)
    requires t == TrailOf(asked, read) && (GoesOn(t.asked, t.last) ==> server(k + |read|, t.last.page + 1).Err?)
    ensures Decided(StreamFrom(server, transform, k, asked), server, transform, k + |read|, t, [asked] + t.pages)
    decreases |read|
  {
    if |read| > 1 {
      var next := read[0].page + 1;
      var rest := TrailOf(next, read[1..]);
      StreamFromDecides(server, transform, k + 1, next, read[1..], rest);
      StreamStep(server, transform, k, asked, read[0]);
      DecidedAfter(StreamFrom(server, transform, k + 1, next), server, transform, k + |read|, rest, [next] + rest.pages,
                   read[0], [asked]);
    } else {
      LastResponse(server, transform, k, asked, read[0]);
      assert [asked] + [] == [asked];
    }
  }

  lemma {:induction false} StreamTrail<R, T>(
      first: Page<R, T>, server: Server<R>, read: seq<PageResponse<R>>, t: Trail<R>)
    requires read != [] && read[0] == first.response && Followed(server, 0, 0, read) && first.fetches
    requires t == TrailOf(0, read) && (GoesOn(t.asked, t.last) ==> server(|read| - 1, t.last.page + 1).Err?)
    ensures Decided(Stream(first, server), server, first.transform, |read| - 1, t, t.pages)
  {
    if |read| > 1 {
      var next := read[0].page + 1;
      var rest := TrailOf(next, read[1..]);
      StreamFromDecides(server, first.transform, 0, next, read[1..], rest);
      DecidedAfter(StreamFrom(server, first.transform, 0, next), server, first.transform, |read| - 1, rest,
                   [next] + rest.pages, read[0], []);
      assert [] + t.pages == t.pages;
    } else {
      assert first.Items() + [] == first.Items();
    }
  }

  /**
   Against any server: once the responses `read`, from the first page on, have been followed
   as far as they go, the stream has yielded their items in order and asked for each of them
   once. It ends with the error of the next request if there is one to make, and cleanly if
   the last response has no successor or does not advance.
   */
  lemma StreamDecides<R, T>(first: Page<R, T>, server: Server<R>, read: seq<PageResponse<R>>, t: Trail<R>)
    requires read != [] && read[0] == first.response && Followed(server, 0, 0, read) && first.fetches
    requires t == Trail(ItemsOf(read), AskedFor(read), LastAsked(0, read), read[|read| - 1])
    requires GoesOn(t.asked, t.last) ==> server(|read| - 1, t.last.page + 1).Err?
    ensures Decided(Stream(first, server), server, first.transform, |read| - 1, t, t.pages)
  {
    TrailMeaning(0, read);
    StreamTrail(first, server, read, t);
  }

  /** Without a fetcher the stream is the first page. */
  lemma StreamWithoutFetcher<R, T>(first: Page<R, T>, server: Server<R>)
    requires !first.fetches
    ensures Stream(first, server) == Walk(first.Items(), Ok(()), [])
  {
  }

  /** And there always are such responses: the stream ends against every server. */
  lemma {:induction false} ResponsesFrom<R>(server: Server<R>, k: nat, asked: u64, head: PageResponse<R>)
      returns (read: seq<PageResponse<R>>)
    ensures read != [] && read[0] == head && Followed(server, k, asked, read)
    ensures var last := read[|read| - 1];
            GoesOn(LastAsked(asked, read), last) ==> server(k + |read| - 1, last.page + 1).Err?
    decreases U64_MAX - asked
  {
    read := [head];
    if GoesOn(asked, head) && server(k, head.page + 1).Ok? {
      var rest := ResponsesFrom(server, k + 1, head.page + 1, server(k, head.page + 1).value);
      read := [head] + rest;
      assert read[1..] == rest && read[|read| - 1] == rest[|rest| - 1];
    }
  }

  // ---------------------------------------------------------------------
  // Session::peers
  // ---------------------------------------------------------------------

  /** Converting the items of one response stops at the first that is rejected. */
  function Converted<R, T>(convert: R -> Result<T>, items: seq<R>): Result<seq<T>> {
    if items == [] then Ok([])
    else
      match convert(items[0])
      case Err(e) => Err(e)
      case Ok(x) => Prefixed([x], Converted(convert, items[1..]))
  }

  function PeersFrom<R, T>(server: Server<R>, convert: R -> Result<T>, page: u64): Result<seq<T>>
    requires 1 <= page
    decreases U64_MAX - page
  {
    match server(page - 1, page)
    case Err(e) => Err(e)
    case Ok(resp) =>
      match Converted(convert, resp.items)
      case Err(e) => Err(e)
      case Ok(items) =>
        if resp.items == [] || page >= resp.pages then Ok(items)
        else Prefixed(items, PeersFrom(server, convert, page + 1))
  }

  method Peers<R, T>(server: Server<R>, convert: R -> Result<T>) returns (result: Result<seq<T>>)
    ensures result == PeersFrom(server, convert, 1)
  {
    var all: seq<T>, page: u64 := [], 1;
    PrefixedNone(PeersFrom(server, convert, 1));
    while true
      invariant 1 <= page
      invariant PeersFrom(server, convert, 1) == Prefixed(all, PeersFrom(server, convert, page))
      decreases U64_MAX - page
    {
      var reply := server(page - 1, page);
      if reply.Err? {
        return Err(reply.error);
      }
      var resp := reply.value;
      ghost var before := all;
      var i := 0;
      while i < |resp.items|
        invariant i <= |resp.items|
        invariant Prefixed(before, Converted(convert, resp.items)) == Prefixed(all, Converted(convert, resp.items[i..]))
      {
        var item := convert(resp.items[i]);
        assert resp.items[i..][1..] == resp.items[i + 1..];
        if item.Err? {
          return Err(item.error);
        }
        PrefixedTwice(all, [item.value], Converted(convert, resp.items[i + 1..]));
        all := all + [item.value];
        i := i + 1;
      }
      assert all + [] == all;
      if resp.items == [] || page >= resp.pages {
        return Ok(all);
      }
      PrefixedTwice(before, Converted(convert, resp.items).value, PeersFrom(server, convert, page + 1));
      page := page + 1;
    }
  }

  /** Converting succeeds exactly if every item is accepted, and fails with the error of the first rejected one. */
  lemma {:induction false} ConvertedMeaning<R, T>(convert: R -> Result<T>, items: seq<R>)
    ensures var r := Converted(convert, items);
            if r.Ok? then |r.value| == |items| && forall i :: 0 <= i < |items| ==> convert(items[i]) == Ok(r.value[i])
            else FirstRejected(convert, items, r.error)
  {
    if items != [] && convert(items[0]).Ok? {
      ConvertedMeaning(convert, items[1..]);
      var r := Converted(convert, items[1..]);
      if r.Err? {
        var i :| 0 <= i < |items[1..]| && RejectedAt(convert, items[1..], i, r.error);
        assert RejectedAt(convert, items, i + 1, r.error);
      }
    } else if items != [] {
      assert RejectedAt(convert, items, 0, convert(items[0]).error);
    }
  }

  ghost predicate RejectedAt<R, T>(convert: R -> Result<T>, items: seq<R>, i: nat, e: Error) {
    i < |items| && convert(items[i]) == Err(e) && forall j :: 0 <= j < i ==> convert(items[j]).Ok?
  }

  ghost predicate FirstRejected<R, T>(convert: R -> Result<T>, items: seq<R>, e: Error) {
    exists i :: 0 <= i < |items| && RejectedAt(convert, items, i, e)
  }

  /** `b` is only converted if all of `a` is. */
  function Then<T>(a: Result<seq<T>>, b: Result<seq<T>>): Result<seq<T>> {
    match a case Ok(items) => Prefixed(items, b) case Err(e) => Err(e)
  }

  lemma {:induction false} ConvertedConcat<R, T>(convert: R -> Result<T>, a: seq<R>, b: seq<R>)
    ensures Converted(convert, a + b) == Then(Converted(convert, a), Converted(convert, b))
  {
    if a == [] {
      assert a + b == b;
      PrefixedNone(Converted(convert, b));
    } else {
      assert (a + b)[1..] == a[1..] + b;
      ConvertedConcat(convert, a[1..], b);
      var head := convert(a[0]);
      if head.Ok? && Converted(convert, a[1..]).Ok? {
        PrefixedTwice([head.value], Converted(convert, a[1..]).value, Converted(convert, b));
      }
    }
  }

  /** The responses to the requests for `page` and the pages after it, each but the last with items and pages left. */
  ghost predicate PagesFrom<R>(server: Server<R>, page: nat, read: seq<PageResponse<R>>)
    requires 1 <= page
    decreases |read|
  {
    read != [] ==>
      && server(page - 1, page) == Ok(read[0])
      && (|read| > 1 ==> !PeersStop(read[0], page) && PagesFrom(server, page + 1, read[1..]))
  }

  predicate PeersStop<R>(resp: PageResponse<R>, page: nat) { resp.items == [] || page >= resp.pages }

  /** After the pages `read` there is a request for another one. */
  predicate AsksOn<R>(page: nat, read: seq<PageResponse<R>>)
    requires 1 <= page
  {
    read == [] || !PeersStop(read[|read| - 1], page + |read| - 1)
  }

  /**
   Against any server: once the pages `read` have been read as far as they go, the result is
   the error of the first item that is rejected, or else the error of the next request if
   there is one to make, or else all items of those pages, converted, in order.
   */
  lemma {:induction false} PeersDecides<R, T>(
      server: Server<R>, convert: R -> Result<T>, page: u64, read: seq<PageResponse<R>>)
    requires 1 <= page && PagesFrom(server, page, read)
    requires AsksOn(page, read) ==> server(page + |read| - 1, page + |read|).Err?
    ensures PeersFrom(server, convert, page) ==
            Then(Converted(convert, ItemsOf(read)),
                 if AsksOn(page, read) then Err(server(page + |read| - 1, page + |read|).error) else Ok([]))
    decreases |read|
  {
    if read != [] {
      var resp, rest := read[0], read[1..];
      var end: Result<seq<T>> :=
        if AsksOn(page, read) then Err(server(page + |read| - 1, page + |read|).error) else Ok([]);
      ConvertedConcat(convert, resp.items, ItemsOf(rest));
      assert rest != [] ==> rest[|rest| - 1] == read[|read| - 1];
      if PeersStop(resp, page) {
        assert rest == [] && resp.items + [] == resp.items;
        PeersLast(server, convert, page, resp);
      } else {
        PeersDecides(server, convert, page + 1, rest);
        ThenTwice(Converted(convert, resp.items), Converted(convert, ItemsOf(rest)), end);
        PeersStep(server, convert, page, resp);
      }
    }
  }

  lemma PeersStep<R, T>(server: Server<R>, convert: R -> Result<T>, page: u64, resp: PageResponse<R>)
    requires 1 <= page && server(page - 1, page) == Ok(resp) && !PeersStop(resp, page)
    ensures page < U64_MAX
    ensures PeersFrom(server, convert, page) ==
            Then(Converted(convert, resp.items), PeersFrom(server, convert, page + 1))
  {
  }

  lemma PeersLast<R, T>(server: Server<R>, convert: R -> Result<T>, page: u64, resp: PageResponse<R>)
    requires 1 <= page && server(page - 1, page) == Ok(resp) && PeersStop(resp, page)
    ensures PeersFrom(server, convert, page) == Then(Converted(convert, resp.items), Ok([]))
  {
    var all := Converted(convert, resp.items);
    assert all.Ok? ==> all.value + [] == all.value;
  }

  lemma ThenTwice<T>(a: Result<seq<T>>, b: Result<seq<T>>, c: Result<seq<T>>)
    ensures Then(a, Then(b, c)) == Then(Then(a, b), c)
  {
    if a.Ok? && b.Ok? {
      PrefixedTwice(a.value, b.value, c);
    }
  }

  // ---------------------------------------------------------------------
  // An honest server: the three walks agree
  // ---------------------------------------------------------------------

  /** Page `p` of the listing; a listing without pages still has an empty first one. */
  function PageAt<R>(listing: seq<seq<R>>, p: nat): seq<R>
    requires 1 <= p <= |listing| || p == 1
  {
    if listing == [] then [] else listing[p - 1]
  }

  /** Every request is answered with the page asked for and the number of pages. */
  ghost predicate Honest<R(!new)>(server: Server<R>, listing: seq<seq<R>>) {
    |listing| <= U64_MAX &&
    forall k: nat, p: nat :: 1 <= p <= |listing| || p == 1 ==>
      server(k, p) == Ok(PageResponse(PageAt(listing, p), p, |listing|))
  }

  lemma {:induction false} MappedFlatten<A, B>(f: A -> B, a: seq<A>, b: seq<A>)
    ensures Mapped(f, a + b) == Mapped(f, a) + Mapped(f, b)
  {
  }

  /** The pages from `p` to the last one, `n`. */
  function PageNumbers(p: nat, n: nat): seq<nat>
    decreases n + 1 - p
  {
    if p > n then [] else [p] + PageNumbers(p + 1, n)
  }

  /** The items of page `p` and all pages after it. */
  function ItemsFrom<R>(listing: seq<seq<R>>, p: nat): seq<R>
    requires 1 <= p
    decreases |listing| - p
  {
    if p > |listing| then [] else listing[p - 1] + ItemsFrom(listing, p + 1)
  }

  lemma {:induction false} ItemsFromIsFlatten<R>(listing: seq<seq<R>>, p: nat)
    requires 1 <= p <= |listing| + 1
    ensures ItemsFrom(listing, p) == Flatten(listing[p - 1..])
    decreases |listing| - p
  {
    if p <= |listing| {
      ItemsFromIsFlatten(listing, p + 1);
      assert listing[p - 1..][1..] == listing[p..];
    }
  }

  /** An honest walk from page `p` on. */
  function HonestWalk<R, T>(transform: R -> T, listing: seq<seq<R>>, p: nat): Walk<T>
    requires 1 <= p <= |listing|
    decreases |listing| - p
  {
    var items := Mapped(transform, listing[p - 1]);
    if p == |listing| then Walk(items, Ok(()), [p]) else After(items, [p], HonestWalk(transform, listing, p + 1))
  }

  lemma {:induction false} HonestWalkItems<R, T>(transform: R -> T, listing: seq<seq<R>>, p: nat)
    requires 1 <= p <= |listing|
    ensures HonestWalk(transform, listing, p).items == Mapped(transform, ItemsFrom(listing, p))
    decreases |listing| - p
  {
    if p == |listing| {
      LastPage(listing);
    } else {
      MappedFlatten(transform, listing[p - 1], ItemsFrom(listing, p + 1));
      HonestWalkItems(transform, listing, p + 1);
    }
  }

  lemma {:induction false} HonestWalkRequests<R, T>(transform: R -> T, listing: seq<seq<R>>, p: nat)
    requires 1 <= p <= |listing|
    ensures HonestWalk(transform, listing, p).end == Ok(())
    ensures HonestWalk(transform, listing, p).requests == PageNumbers(p, |listing|)
    decreases |listing| - p
  {
    if p == |listing| {
      LastPage(listing);
    } else {
      HonestWalkRequests(transform, listing, p + 1);
    }
  }

  lemma {:induction false} StreamHonest<R(!new), T>(
      server: Server<R>, transform: R -> T, listing: seq<seq<R>>, k: nat, p: u64)
    requires Honest(server, listing) && 1 <= p <= |listing|
    ensures StreamFrom(server, transform, k, p) == HonestWalk(transform, listing, p)
    decreases |listing| - p
  {
    assert server(k, p) == Ok(PageResponse(listing[p - 1], p, |listing|));
    if p < |listing| {
      StreamHonest(server, transform, listing, k + 1, p + 1);
    }
  }

  lemma LastPage<R>(listing: seq<seq<R>>)
    requires listing != []
    ensures ItemsFrom(listing, |listing|) == listing[|listing| - 1]
    ensures PageNumbers(|listing|, |listing|) == [|listing|]
  {
  }

  lemma {:induction false} CollectHonest<R(!new), T>(
      page: Page<R, T>, server: Server<R>, listing: seq<seq<R>>, count: nat)
    requires Honest(server, listing) && page.fetches && 1 <= count <= MAX_COLLECT_PAGES
    requires var p := page.response.page;
             1 <= p <= |listing| && page.response == PageResponse(listing[p - 1], p, |listing|)
    ensures CollectFrom(page, server, count) ==
            if |listing| - page.response.page + count > MAX_COLLECT_PAGES then Err(CapExceeded)
            else Ok(Mapped(page.transform, ItemsFrom(listing, page.response.page)))
    decreases |listing| - page.response.page
  {
    var p: nat := page.response.page;
    MappedFlatten(page.transform, listing[p - 1], ItemsFrom(listing, p + 1));
    if p == |listing| {
      LastPage(listing);
    } else if count < MAX_COLLECT_PAGES {
      assert server(count - 1, p + 1) == Ok(PageResponse(listing[p], p + 1, |listing|));
      CollectHonest(page.Successor(PageResponse(listing[p], p + 1, |listing|)), server, listing, count + 1);
    }
  }

  /** The items before the first empty page. */
  function UpToEmpty<R>(listing: seq<seq<R>>): seq<R> {
    if listing == [] || listing[0] == [] then [] else listing[0] + UpToEmpty(listing[1..])
  }

  lemma {:induction false} ConvertedAll<R, T>(convert: R -> Result<T>, f: R -> T, items: seq<R>)
    requires forall r :: r in items ==> convert(r) == Ok(f(r))
    ensures Converted(convert, items) == Ok(Mapped(f, items))
  {
    if items != [] {
      ConvertedAll(convert, f, items[1..]);
    }
  }

  lemma {:induction false} PeersHonest<R(!new), T>(
      server: Server<R>, convert: R -> Result<T>, f: R -> T, listing: seq<seq<R>>, p: u64)
    requires Honest(server, listing) && 1 <= p <= |listing|
    requires forall r :: convert(r) == Ok(f(r))
    ensures PeersFrom(server, convert, p) == Ok(Mapped(f, UpToEmpty(listing[p - 1..])))
    decreases |listing| - p
  {
    assert server(p - 1, p) == Ok(PageResponse(listing[p - 1], p, |listing|));
    ConvertedAll(convert, f, listing[p - 1]);
    assert listing[p - 1..][1..] == listing[p..];
    if listing[p - 1] != [] {
      MappedFlatten(f, listing[p - 1], UpToEmpty(listing[p..]));
      if p < |listing| {
        PeersHonest(server, convert, f, listing, p + 1);
      } else {
        assert Mapped(f, listing[p - 1]) + [] == Mapped(f, listing[p - 1]);
      }
    }
  }

  /** No page with items comes after an empty one. */
  predicate NoGap<R>(listing: seq<seq<R>>) {
    forall i, j :: 0 <= i < j < |listing| && listing[i] == [] ==> listing[j] == []
  }

  lemma {:induction false} UpToEmptyIsAll<R>(listing: seq<seq<R>>)
    ensures UpToEmpty(listing) == Flatten(listing) <==> NoGap(listing)
  {
    if listing != [] {
      var rest := listing[1..];
      UpToEmptyIsAll(rest);
      assert NoGap(listing) <==> NoGap(rest) && (listing[0] == [] ==> forall j :: 0 <= j < |rest| ==> rest[j] == []) by {
        assert forall j :: 0 <= j < |rest| ==> rest[j] == listing[j + 1];
      }
      if listing[0] == [] {
        EmptyPages(rest);
      } else {
        assert UpToEmpty(listing)[|listing[0]|..] == UpToEmpty(rest);
        assert Flatten(listing)[|listing[0]|..] == Flatten(rest);
      }
    }
  }

  lemma {:induction false} EmptyPages<R>(listing: seq<seq<R>>)
    ensures Flatten(listing) == [] <==> forall j :: 0 <= j < |listing| ==> listing[j] == []
  {
    if listing != [] {
      EmptyPages(listing[1..]);
      assert forall j :: 0 < j < |listing| ==> listing[j] == listing[1..][j - 1];
    }
  }

  /** The stream yields every item of an honest listing once, in order, asking for each later page once. */
  lemma {:induction false} HonestStream<R(!new), T>(server: Server<R>, listing: seq<seq<R>>, f: R -> T)
    requires Honest(server, listing)
    ensures Stream(Page(server(0, 1).value, true, f), server) ==
            Walk(Mapped(f, Flatten(listing)), Ok(()), PageNumbers(2, |listing|))
  {
    FirstPage(server, listing);
    if |listing| > 1 {
      StreamHonest(server, f, listing, 0, 2);
      HonestWalkItems(f, listing, 2);
      HonestWalkRequests(f, listing, 2);
      JoinFirst(f, listing);
    }
  }

  lemma {:induction false} JoinFirst<R, T>(f: R -> T, listing: seq<seq<R>>)
    requires listing != []
    ensures After(Mapped(f, listing[0]), [], Walk(Mapped(f, ItemsFrom(listing, 2)), Ok(()), PageNumbers(2, |listing|))) ==
            Walk(Mapped(f, ItemsFrom(listing, 1)), Ok(()), PageNumbers(2, |listing|))
  {
    MappedFlatten(f, listing[0], ItemsFrom(listing, 2));
    assert [] + PageNumbers(2, |listing|) == PageNumbers(2, |listing|);
  }

  lemma {:induction false} FirstPage<R(!new)>(server: Server<R>, listing: seq<seq<R>>)
    requires Honest(server, listing)
    ensures server(0, 1) == Ok(PageResponse(PageAt(listing, 1), 1, |listing|))
    ensures ItemsFrom(listing, 1) == Flatten(listing)
    ensures |listing| <= 1 ==> Flatten(listing) == PageAt(listing, 1) && PageNumbers(2, |listing|) == []
  {
    ItemsFromIsFlatten(listing, 1);
    assert listing[0..] == listing;
    if |listing| == 1 {
      LastPage(listing);
    }
  }

  /** The collector does so if and only if there are at most 1000 pages, and fails otherwise. */
  lemma {:induction false} HonestCollect<R(!new), T>(server: Server<R>, listing: seq<seq<R>>, f: R -> T)
    requires Honest(server, listing)
    ensures CollectFrom(Page(server(0, 1).value, true, f), server, 1) ==
            if |listing| <= MAX_COLLECT_PAGES then Ok(Mapped(f, Flatten(listing))) else Err(CapExceeded)
  {
    FirstPage(server, listing);
    if listing != [] {
      CollectHonest(Page(server(0, 1).value, true, f), server, listing, 1);
    }
  }

  /** The walk of `peers` stops at the first empty page: it sees all if and only if there is no gap. */
  lemma HonestPeers<R(!new), T>(server: Server<R>, listing: seq<seq<R>>, f: R -> T, convert: R -> Result<T>)
    requires Honest(server, listing) && forall r :: convert(r) == Ok(f(r))
    ensures PeersFrom(server, convert, 1) == Ok(Mapped(f, UpToEmpty(listing)))
    ensures PeersFrom(server, convert, 1) == Ok(Mapped(f, Flatten(listing))) <==> NoGap(listing)
  {
    assert server(0, 1) == Ok(PageResponse(PageAt(listing, 1), 1, |listing|));
    UpToEmptyIsAll(listing);
    UpToEmptyShorter(listing);
    if listing != [] {
      assert listing[0..] == listing;
      PeersHonest(server, convert, f, listing, 1);
    }
  }

  /** The three walks side by side, with the exact conditions under which they agree. */
  lemma {:induction false} WalksAgree<R(!new), T>(
      server: Server<R>, listing: seq<seq<R>>, f: R -> T, convert: R -> Result<T>)
    requires Honest(server, listing) && forall r :: convert(r) == Ok(f(r))
    ensures var first := Page(server(0, 1).value, true, f);
            var streamed := Stream(first, server).items;
            && (CollectFrom(first, server, 1) == Ok(streamed) <==> |listing| <= MAX_COLLECT_PAGES)
            && (PeersFrom(server, convert, 1) == Ok(streamed) <==> NoGap(listing))
  {
    HonestStream(server, listing, f);
    HonestCollect(server, listing, f);
    HonestPeers(server, listing, f, convert);
  }

  lemma {:induction false} UpToEmptyShorter<R>(listing: seq<seq<R>>)
    ensures |UpToEmpty(listing)| == |Flatten(listing)| ==> UpToEmpty(listing) == Flatten(listing)
    ensures |UpToEmpty(listing)| <= |Flatten(listing)|
  {
    if listing != [] {
      UpToEmptyShorter(listing[1..]);
    }
  }

  // ---------------------------------------------------------------------
  // `map` commutes with every walk, against any server
  // ---------------------------------------------------------------------

  lemma {:induction false} MappedTwice<A, B, C>(f: A -> B, g: B -> C, s: seq<A>)
    ensures Mapped(Compose(f, g), s) == Mapped(g, Mapped(f, s))
  {
  }

  function MapWalk<T, U>(g: T -> U, walk: Walk<T>): Walk<U> { Walk(Mapped(g, walk.items), walk.end, walk.requests) }

  function MapResult<T, U>(g: T -> U, r: Result<seq<T>>): Result<seq<U>> {
    match r case Ok(items) => Ok(Mapped(g, items)) case Err(e) => Err(e)
  }

  lemma MapAfter<R, T, U>(f: R -> T, g: T -> U, items: seq<R>, requests: seq<nat>, rest: Walk<T>)
    ensures MapWalk(g, After(Mapped(f, items), requests, rest)) ==
            After(Mapped(Compose(f, g), items), requests, MapWalk(g, rest))
  {
  }

  lemma {:induction false} MapStreamFrom<R, T, U>(server: Server<R>, f: R -> T, g: T -> U, k: nat, current: u64)
    ensures StreamFrom(server, Compose(f, g), k, current) == MapWalk(g, StreamFrom(server, f, k, current))
    decreases U64_MAX - current
  {
    if server(k, current).Ok? {
      var resp := server(k, current).value;
      if resp.page >= resp.pages || resp.page + 1 <= current {
        MappedTwice(f, g, resp.items);
      } else {
        MapStreamFrom(server, f, g, k + 1, resp.page + 1);
        MapAfter(f, g, resp.items, [current], StreamFrom(server, f, k + 1, resp.page + 1));
      }
    }
  }

  lemma {:induction false} MapCollect<R, T, U>(page: Page<R, T>, server: Server<R>, g: T -> U, count: nat)
    requires 1 <= count <= MAX_COLLECT_PAGES
    ensures CollectFrom(page.Map(g), server, count) == MapResult(g, CollectFrom(page, server, count))
    decreases MAX_COLLECT_PAGES - count
  {
    MappedTwice(page.transform, g, page.response.items);
    if page.HasNext() && count < MAX_COLLECT_PAGES && page.fetches {
      var reply := server(count - 1, page.response.page + 1);
      if reply.Ok? {
        var next := page.Successor(reply.value);
        MapCollect(next, server, g, count + 1);
        MapPrefixed(g, page.Items(), CollectFrom(next, server, count + 1));
      }
    }
  }

  lemma MapPrefixed<T, U>(g: T -> U, items: seq<T>, rest: Result<seq<T>>)
    ensures MapResult(g, Prefixed(items, rest)) == Prefixed(Mapped(g, items), MapResult(g, rest))
  {
    if rest.Ok? {
      MappedFlatten(g, items, rest.value);
    }
  }

  /** Mapping a page and then walking gives the mapped walk, requests and errors included. */
  lemma MapCommutes<R, T, U>(page: Page<R, T>, server: Server<R>, g: T -> U)
    ensures page.Map(g).Items() == Mapped(g, page.Items())
    ensures Stream(page.Map(g), server) == MapWalk(g, Stream(page, server))
    ensures CollectFrom(page.Map(g), server, 1) == MapResult(g, CollectFrom(page, server, 1))
  {
    MapCollect(page, server, g, 1);
    MappedTwice(page.transform, g, page.response.items);
    if page.fetches && page.HasNext() {
      MapStreamFrom(server, page.transform, g, 0, page.response.page + 1);
      MapAfter(page.transform, g, page.response.items, [], StreamFrom(server, page.transform, 0, page.response.page + 1));
    }
  }
}
