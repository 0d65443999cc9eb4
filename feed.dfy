/**
 * The poll, pagination and pacing engine of the event feed: one poll cycle
 * walks the page cursors of the public event list, the pacing decision turns
 * each answer into a delay, a throttle or an error, and `Serve` publishes one
 * batch per cycle on the output channel until an error or a cancellation.
 *
 * Durations are integers in nanoseconds, like `time.Duration`. The remote
 * list call is an oracle `reply(i, page)`: the answer to the i-th request of
 * the cycle, which asks for `page`. `clock(i)` is the time at which that
 * answer arrives.
 */
module Feed {
  import opened Wrappers
  import opened Github
  import Int64
  import Strconv

  const XPollIntervalHeader: string := "X-Poll-Interval"
  /** The header the caching transport adds to a response served from its cache. */
  const XFromCache: string := "X-From-Cache"
  const DefaultPollSeconds: int := 60
  const DefaultFeedCapacity: nat := 16
  const MaximumEventsPages: nat := 10
  const MaximumEventsPerPage: nat := 30
  const MaximumEventsPerPoll: nat := MaximumEventsPerPage * MaximumEventsPages

  /** `time.Second`. */
  const Second: int := 1_000_000_000
  const DefaultPollInterval: int := DefaultPollSeconds * Second
  /** The largest number of seconds whose duration fits in an int64. */
  const MaxHintSeconds: int := Int64.MaxInt64 / Second

  // ---------------------------------------------------------------------
  // Pacing
  // ---------------------------------------------------------------------

  /**
   * The delay hinted by the `X-Poll-Interval` header: its value read as
   * seconds, or the default when it is missing or not an integer. Zero and
   * negative hints are taken as they are; the product with `time.Second`
   * wraps around like Go's int64 multiplication.
   */
  function PollIntervalFromResponse(header: Header): (d: int)
    ensures Int64.InRange(d)
  {
    var hint := HeaderGet(header, XPollIntervalHeader);
    if hint == "" then DefaultPollInterval
    else
      match Strconv.Atoi(hint)
      case None => DefaultPollInterval
      // `time.Second` written out, which keeps the product linear for the solver
      case Some(seconds) => Int64.Wrap(seconds * 1_000_000_000)
  }

  /**
   * The interval of a header: the default when `X-Poll-Interval` is missing
   * or is not an integer that fits in an int64, and otherwise the hint in
   * seconds times one second, wrapped to int64.
   */
  lemma IntervalFromHint(header: Header)
    ensures var d := PollIntervalFromResponse(header);
      var hint := Strconv.Atoi(HeaderGet(header, XPollIntervalHeader));
      && (XPollIntervalHeader !in header ==> d == DefaultPollInterval)
      && (hint.None? ==> d == DefaultPollInterval)
      && (hint.Some? ==> d == Int64.Wrap(hint.value * Second))
  {
  }

  /** A hint of n seconds, written as Go prints n, gives exactly n seconds, whatever its sign. */
  lemma HintedIntervalExact(header: Header, n: int)
    requires HeaderGet(header, XPollIntervalHeader) == Strconv.Itoa(n)
    requires -MaxHintSeconds <= n <= MaxHintSeconds
    ensures PollIntervalFromResponse(header) == n * Second
  {
    Strconv.AtoiItoa(n);
  }

  /** A hint holding a character that is neither a digit nor a leading sign falls back to the default. */
  lemma MalformedHintFallsBack(header: Header, k: nat)
    requires k < |HeaderGet(header, XPollIntervalHeader)|
    requires !Strconv.IsDigit(HeaderGet(header, XPollIntervalHeader)[k])
    requires k > 0 || (HeaderGet(header, XPollIntervalHeader)[0] != '+' && HeaderGet(header, XPollIntervalHeader)[0] != '-')
    ensures PollIntervalFromResponse(header) == DefaultPollInterval
  {
    Strconv.AtoiRejectsNonDigit(HeaderGet(header, XPollIntervalHeader), k);
  }

  /** The outcome of one page for the pacing of the cycle. */
  datatype Decision = Decision(interval: int, throttled: bool, err: Option<Error>)

  /**
   * A rate-limit error is not an error: the cycle is throttled until the
   * reset time, which may already be past (the interval is not clamped).
   * Any other error is passed on unchanged with interval -1. A page that
   * arrived gives the interval of its header.
   */
  function PollIntervalOrPropagateError(res: FetchResult, now: int): (d: Decision)
    ensures d.throttled <==> res.RateLimited?
    ensures d.err.Some? <==> res.Failed?
    ensures d.throttled ==> d.err.None? && d.interval == res.reset - now
    ensures d.err.Some? ==> d.err.value == res.err && d.interval == -1
    ensures res.Fetched? ==> d.interval == PollIntervalFromResponse(res.response.header)
  {
    match res
    case RateLimited(reset) => Decision(reset - now, true, None)
    case Failed(e) => Decision(-1, false, Some(e))
    case Fetched(_, response) => Decision(PollIntervalFromResponse(response.header), false, None)
  }

  /** `isCachedResponse`: the caching transport marked the response with `X-From-Cache`. */
  predicate IsCachedResponse(header: Header) {
    XFromCache in header
  }

  /** A page whose batch the cycle keeps: it arrived and was not served from the cache. */
  predicate Accepted(res: FetchResult) {
    res.Fetched? && !IsCachedResponse(res.response.header)
  }

  /** A page after which the cycle asks for another one. */
  predicate Continues(res: FetchResult) {
    Accepted(res) && res.response.nextPage != 0
  }

  // ---------------------------------------------------------------------
  // One poll cycle
  // ---------------------------------------------------------------------

  /** The pages a cycle requested, in order, and the events it kept. */
  datatype Trace = Trace(events: seq<Event>, pages: seq<int>)

  /** The rest of a cycle from its i-th request, which asks for `page`. */
  function PollFrom(reply: (nat, int) -> FetchResult, i: nat, page: int): (t: Trace)
    requires i < MaximumEventsPages
    ensures 1 <= |t.pages| <= MaximumEventsPages - i
    decreases MaximumEventsPages - i
  {
    var res := reply(i, page);
    if !Accepted(res) then
      Trace([], [page])
    else if !Continues(res) || i + 1 == MaximumEventsPages then
      Trace(res.events, [page])
    else
      var rest := PollFrom(reply, i + 1, res.response.nextPage);
      Trace(res.events + rest.events, [page] + rest.pages)
  }

  /** The events, the interval and the error `poll` returns, and the pages it requested. */
  datatype PollResult = PollResult(events: seq<Event>, interval: int, err: Option<Error>, pages: seq<int>)

  /**
   * A whole cycle: the trace from page 1, with the interval and the error
   * decided for the last page requested.
   */
  function Polled(reply: (nat, int) -> FetchResult, clock: nat -> int): PollResult {
    var t := PollFrom(reply, 0, 1);
    var k := |t.pages| - 1;
    var d := PollIntervalOrPropagateError(reply(k, t.pages[k]), clock(k));
    PollResult(t.events, d.interval, d.err, t.pages)
  }

  /** The answers received for the requested pages, starting with request i. */
  function Received(reply: (nat, int) -> FetchResult, i: nat, pages: seq<int>): (rs: seq<FetchResult>)
    ensures |rs| == |pages|
  {
    seq(|pages|, j requires 0 <= j < |pages| => reply(i + j, pages[j]))
  }

  lemma ReceivedFirst(reply: (nat, int) -> FetchResult, i: nat, page: int, pages: seq<int>)
    ensures Received(reply, i, [page] + pages) == [reply(i, page)] + Received(reply, i + 1, pages)
  {
    var rs, rest := Received(reply, i, [page] + pages), Received(reply, i + 1, pages);
    forall j | 1 <= j < |rs|
      ensures rs[j] == rest[j - 1]
    {
      assert ([page] + pages)[j] == pages[j - 1];
      assert i + j == (i + 1) + (j - 1);
    }
  }

  /** The batches of the accepted answers, concatenated in order. */
  function Collected(rs: seq<FetchResult>): seq<Event> {
    if rs == [] then [] else (if Accepted(rs[0]) then rs[0].events else []) + Collected(rs[1..])
  }

  /** A request that does not lead to another one: the last of its cycle. */
  lemma PollFromStops(reply: (nat, int) -> FetchResult, i: nat, page: int)
    requires i < MaximumEventsPages
    requires !Continues(reply(i, page)) || i + 1 == MaximumEventsPages
    ensures var res := reply(i, page);
      PollFrom(reply, i, page) == Trace(if Accepted(res) then res.events else [], [page])
  {
  }

  /** A request that leads to the next one, for the page its answer names. */
  lemma PollFromContinues(reply: (nat, int) -> FetchResult, i: nat, page: int)
    requires i + 1 < MaximumEventsPages
    requires Continues(reply(i, page))
    ensures var res := reply(i, page);
      var rest := PollFrom(reply, i + 1, res.response.nextPage);
      PollFrom(reply, i, page) == Trace(res.events + rest.events, [page] + rest.pages)
  {
  }

  /** The trace of a cycle that has already kept `events` and requested `pages`, then goes on as `t`. */
  function After(events: seq<Event>, pages: seq<int>, t: Trace): Trace {
    Trace(events + t.events, pages + t.pages)
  }

  lemma AfterNext(events: seq<Event>, pages: seq<int>, batch: seq<Event>, page: int, t: Trace)
    ensures After(events, pages, Trace(batch + t.events, [page] + t.pages)) == After(events + batch, pages + [page], t)
  {
    assert events + (batch + t.events) == (events + batch) + t.events;
    assert pages + ([page] + t.pages) == (pages + [page]) + t.pages;
  }

  /**
   * `poll`: fetch at most `MaximumEventsPages` pages, starting at page 1 and
   * following `NextPage`; stop on an error, a throttle, a cached page or the
   * last page.
   */
  method Poll(reply: (nat, int) -> FetchResult, clock: nat -> int)
    returns (events: seq<Event>, interval: int, err: Option<Error>, requested: seq<int>)
    ensures PollResult(events, interval, err, requested) == Polled(reply, clock)
  {
    ghost var trace := PollFrom(reply, 0, 1);
    err := None;
    interval := -1;
    events := [];
    requested := [];
    var page := 1;
    var i := 0;
    while i < MaximumEventsPages
      invariant 0 <= i <= MaximumEventsPages && |requested| == i
      invariant i < MaximumEventsPages ==> trace == After(events, requested, PollFrom(reply, i, page))
      invariant i == MaximumEventsPages ==> PollResult(events, interval, err, requested) == Polled(reply, clock)
    {
      ghost var before, kept, asked := requested, events, page;
      requested := requested + [page];
      var res := reply(i, page);
      var throttled;
      var d := PollIntervalOrPropagateError(res, clock(i));
      interval, throttled, err := d.interval, d.throttled, d.err;
      PollStep(reply, clock, kept, before, asked, i);
      if err.Some? || throttled {
        break;
      }
      if IsCachedResponse(res.response.header) {
        break;
      }
      events := events + res.events;
      page := res.response.nextPage;
      if page == 0 {
        break;
      }
      i := i + 1;
    }
  }

  /**
   * The i-th request of a cycle, for `page`, after `kept` events and the
   * requests `before`: an answer the cycle does not keep settles the cycle
   * without its batch, a last kept answer settles it with its batch, and any
   * other answer leaves the rest of the cycle to the next request.
   */
  lemma PollStep(reply: (nat, int) -> FetchResult, clock: nat -> int, kept: seq<Event>, before: seq<int>, page: int, i: nat)
    requires i < MaximumEventsPages && |before| == i
    requires PollFrom(reply, 0, 1) == After(kept, before, PollFrom(reply, i, page))
    ensures var res := reply(i, page);
      var d := PollIntervalOrPropagateError(res, clock(i));
      if !Accepted(res) then
        Polled(reply, clock) == PollResult(kept, d.interval, d.err, before + [page])
      else if !Continues(res) || i + 1 == MaximumEventsPages then
        Polled(reply, clock) == PollResult(kept + res.events, d.interval, d.err, before + [page])
      else
        PollFrom(reply, 0, 1) == After(kept + res.events, before + [page], PollFrom(reply, i + 1, res.response.nextPage))
  {
    var res := reply(i, page);
    if !Accepted(res) {
      PolledAtRejected(reply, clock, kept, before, page, i);
    } else if !Continues(res) || i + 1 == MaximumEventsPages {
      PolledAtAccepted(reply, clock, kept, before, page, i);
    } else {
      PollFromContinues(reply, i, page);
      AfterNext(kept, before, res.events, page, PollFrom(reply, i + 1, res.response.nextPage));
    }
  }

  /**
   * The last request of a cycle, the i-th, for `page`, after `kept` events
   * and the requests `before`, answered with a page the cycle does not keep:
   * the cycle's result is settled by that answer.
   */
  lemma PolledAtRejected(reply: (nat, int) -> FetchResult, clock: nat -> int, kept: seq<Event>, before: seq<int>, page: int, i: nat)
    requires i < MaximumEventsPages && |before| == i
    requires PollFrom(reply, 0, 1) == After(kept, before, PollFrom(reply, i, page))
    requires !Accepted(reply(i, page))
    ensures var d := PollIntervalOrPropagateError(reply(i, page), clock(i));
      Polled(reply, clock) == PollResult(kept, d.interval, d.err, before + [page])
  {
    PollFromStops(reply, i, page);
    var pages := before + [page];
    assert pages[|pages| - 1] == page;
    assert kept + [] == kept;
  }

  /** As `PolledAtRejected`, for a last page the cycle keeps: its batch ends the cycle's events. */
  lemma PolledAtAccepted(reply: (nat, int) -> FetchResult, clock: nat -> int, kept: seq<Event>, before: seq<int>, page: int, i: nat)
    requires i < MaximumEventsPages && |before| == i
    requires PollFrom(reply, 0, 1) == After(kept, before, PollFrom(reply, i, page))
    requires Accepted(reply(i, page))
    requires !Continues(reply(i, page)) || i + 1 == MaximumEventsPages
    ensures var res := reply(i, page);
      var d := PollIntervalOrPropagateError(res, clock(i));
      Polled(reply, clock) == PollResult(kept + res.events, d.interval, d.err, before + [page])
  {
    PollFromStops(reply, i, page);
    var pages := before + [page];
    assert pages[|pages| - 1] == page;
  }


  // ---------------------------------------------------------------------
  // What a poll cycle does
  // ---------------------------------------------------------------------

  /** The j-th request of a trace that goes on was answered with a page that continues, naming the next one. */
  lemma {:induction false} PollFromLink(reply: (nat, int) -> FetchResult, i: nat, page: int, j: nat)
    requires i < MaximumEventsPages
    requires j + 1 < |PollFrom(reply, i, page).pages|
    decreases j
    ensures var t := PollFrom(reply, i, page);
      Continues(reply(i + j, t.pages[j])) && t.pages[j + 1] == reply(i + j, t.pages[j]).response.nextPage
  {
    var res := reply(i, page);
    PollFromContinues(reply, i, page);
    var next := res.response.nextPage;
    if j > 0 {
      PollFromLink(reply, i + 1, next, j - 1);
      assert (i + 1) + (j - 1) == i + j;
    }
  }

  lemma {:induction false} PollFromEnd(reply: (nat, int) -> FetchResult, i: nat, page: int)
    requires i < MaximumEventsPages
    decreases MaximumEventsPages - i
    ensures EndsCycle(reply, i, PollFrom(reply, i, page))
  {
    var res := reply(i, page);
    if !Continues(res) || i + 1 == MaximumEventsPages {
      PollFromStops(reply, i, page);
    } else {
      var next := res.response.nextPage;
      PollFromEnd(reply, i + 1, next);
      PollFromContinues(reply, i, page);
      EndsCycleCons(reply, i, page, PollFrom(reply, i + 1, next), PollFrom(reply, i, page));
    }
  }

  /** A trace started at request `i` whose last page did not ask for another, unless the cap was reached. */
  predicate EndsCycle(reply: (nat, int) -> FetchResult, i: nat, t: Trace)
    requires 1 <= |t.pages|
  {
    i + |t.pages| < MaximumEventsPages ==> !Continues(reply(i + |t.pages| - 1, t.pages[|t.pages| - 1]))
  }

  /** A trace whose pages are one page followed by those of a trace that ends its cycle one request later also ends its cycle. */
  lemma EndsCycleCons(reply: (nat, int) -> FetchResult, i: nat, page: int, rest: Trace, t: Trace)
    requires 1 <= |rest.pages| && t.pages == [page] + rest.pages
    requires EndsCycle(reply, i + 1, rest)
    ensures EndsCycle(reply, i, t)
  {
    var n, m := |t.pages|, |rest.pages|;
    assert n == m + 1 && t.pages[n - 1] == rest.pages[m - 1];
  }

  /**
   * The cursor chain of `poll`: between 1 and `MaximumEventsPages` requests,
   * the first for page 1, each later one for the `NextPage` of the page
   * before, which arrived, was not cached and did not end the feed; a cycle
   * of fewer than `MaximumEventsPages` requests ends on a page that stops it.
   */
  lemma PollFollowsCursorChain(reply: (nat, int) -> FetchResult, clock: nat -> int)
    ensures var r := Polled(reply, clock);
      && 1 <= |r.pages| <= MaximumEventsPages
      && r.pages[0] == 1
      && (forall j :: 0 <= j < |r.pages| - 1 ==>
            Continues(reply(j, r.pages[j])) && r.pages[j + 1] == reply(j, r.pages[j]).response.nextPage)
      && (|r.pages| < MaximumEventsPages ==> !Continues(reply(|r.pages| - 1, r.pages[|r.pages| - 1])))
  {
    PollFromEnd(reply, 0, 1);
    var r := Polled(reply, clock);
    forall j | 0 <= j < |r.pages| - 1
      ensures Continues(reply(j, r.pages[j])) && r.pages[j + 1] == reply(j, r.pages[j]).response.nextPage
    {
      PollFromLink(reply, 0, 1, j);
    }
  }

  lemma {:induction false} PollFromCollects(reply: (nat, int) -> FetchResult, i: nat, page: int)
    requires i < MaximumEventsPages
    decreases MaximumEventsPages - i
    ensures var t := PollFrom(reply, i, page); t.events == Collected(Received(reply, i, t.pages))
  {
    var res := reply(i, page);
    var t := PollFrom(reply, i, page);
    if Continues(res) && i + 1 < MaximumEventsPages {
      PollFromContinues(reply, i, page);
      var rest := PollFrom(reply, i + 1, res.response.nextPage);
      PollFromCollects(reply, i + 1, res.response.nextPage);
      ReceivedFirst(reply, i, page, rest.pages);
    } else {
      PollFromStops(reply, i, page);
      assert Received(reply, i, t.pages) == [res];
      assert Collected([res]) == (if Accepted(res) then res.events else []) + Collected([]);
    }
  }

  /**
   * The events of a cycle are the batches of its accepted pages, in page
   * order and in order within each page; the page that errs, is throttled or
   * is served from the cache adds nothing.
   */
  lemma PollCollectsAcceptedPages(reply: (nat, int) -> FetchResult, clock: nat -> int)
    ensures var r := Polled(reply, clock); r.events == Collected(Received(reply, 0, r.pages))
  {
    PollFromCollects(reply, 0, 1);
  }

  lemma {:induction false} PollFromBounded(reply: (nat, int) -> FetchResult, i: nat, page: int)
    requires i < MaximumEventsPages
    requires forall j, p :: reply(j, p).Fetched? ==> |reply(j, p).events| <= MaximumEventsPerPage
    decreases MaximumEventsPages - i
    ensures var t := PollFrom(reply, i, page); |t.events| <= MaximumEventsPerPage * |t.pages|
  {
    var res := reply(i, page);
    if !Continues(res) || i + 1 == MaximumEventsPages {
      PollFromStops(reply, i, page);
    } else {
      PollFromContinues(reply, i, page);
      PollFromBounded(reply, i + 1, res.response.nextPage);
    }
  }

  /** When no page holds more than `MaximumEventsPerPage` events, a cycle yields at most `MaximumEventsPerPoll`. */
  lemma PollEventsBounded(reply: (nat, int) -> FetchResult, clock: nat -> int)
    requires forall j, p :: reply(j, p).Fetched? ==> |reply(j, p).events| <= MaximumEventsPerPage
    ensures |Polled(reply, clock).events| <= MaximumEventsPerPoll
  {
    PollFromBounded(reply, 0, 1);
  }

  /**
   * The page the j-th request of a cycle asks for when it follows the
   * `NextPage` cursors from page 1 (0, the end of the list, after an answer
   * that did not arrive).
   */
  function ChainPage(reply: (nat, int) -> FetchResult, j: nat): int
    decreases j
  {
    if j == 0 then 1
    else
      var res := reply(j - 1, ChainPage(reply, j - 1));
      if res.Fetched? then res.response.nextPage else 0
  }

  /** Pages that start at 1 and follow the cursors of continuing answers are the cursor chain. */
  lemma {:induction false} FollowsChain(reply: (nat, int) -> FetchResult, pages: seq<int>, j: nat)
    requires 0 < |pages| && pages[0] == 1
    requires forall m :: 0 <= m < |pages| - 1 ==>
      Continues(reply(m, pages[m])) && pages[m + 1] == reply(m, pages[m]).response.nextPage
    requires j < |pages|
    decreases j
    ensures pages[j] == ChainPage(reply, j)
  {
    if j > 0 {
      FollowsChain(reply, pages, j - 1);
    }
  }

  /**
   * A feed whose cursor chain from page 1 never reaches its last page within
   * the ceiling is cut after exactly `MaximumEventsPages` requests, without
   * an error and keeping every batch.
   */
  lemma PollStopsAtPageCeiling(reply: (nat, int) -> FetchResult, clock: nat -> int)
    requires forall j :: 0 <= j < MaximumEventsPages ==> Continues(reply(j, ChainPage(reply, j)))
    ensures var r := Polled(reply, clock);
      |r.pages| == MaximumEventsPages && r.err.None?
    ensures var r := Polled(reply, clock);
      && (forall j :: 0 <= j < |r.pages| ==> Accepted(reply(j, r.pages[j])))
      && r.events == Collected(Received(reply, 0, r.pages))
  {
    PollFollowsCursorChain(reply, clock);
    PolledSettledByLastPage(reply, clock);
    PollCollectsAcceptedPages(reply, clock);
    var r := Polled(reply, clock);
    forall j | 0 <= j < |r.pages|
      ensures r.pages[j] == ChainPage(reply, j)
    {
      FollowsChain(reply, r.pages, j);
    }
  }

  /** A first page served from the cache ends the cycle at once, with no events and no error. */
  lemma CacheHitStopsPoll(reply: (nat, int) -> FetchResult, clock: nat -> int)
    requires reply(0, 1).Fetched? && IsCachedResponse(reply(0, 1).response.header)
    ensures Polled(reply, clock) ==
      PollResult([], PollIntervalFromResponse(reply(0, 1).response.header), None, [1])
  {
    PollFromStops(reply, 0, 1);
  }

  /**
   * Whether a page counts as cached is decided by the presence of the
   * `X-From-Cache` key alone, whatever its values: a cached page ends its
   * cycle and adds nothing, while the same page without the key, naming no
   * next page, ends the cycle with its batch.
   */
  lemma {:induction false} CachedPageEndsCycle(reply: (nat, int) -> FetchResult, i: nat, page: int)
    requires i < MaximumEventsPages && reply(i, page).Fetched?
    ensures var res := reply(i, page);
      XFromCache in res.response.header ==> PollFrom(reply, i, page) == Trace([], [page])
    ensures var res := reply(i, page);
      XFromCache !in res.response.header && res.response.nextPage == 0 ==> PollFrom(reply, i, page) == Trace(res.events, [page])
  {
    var res := reply(i, page);
    if XFromCache in res.response.header || res.response.nextPage == 0 {
      PollFromStops(reply, i, page);
    }
  }

  /**
   * The interval and the error of a cycle are those decided for its last
   * page: an error is returned exactly when that page failed, and then with
   * interval -1; no earlier page of the cycle failed.
   */
  lemma PolledSettledByLastPage(reply: (nat, int) -> FetchResult, clock: nat -> int)
    ensures var r := Polled(reply, clock);
      var k := |r.pages| - 1;
      var last := reply(k, r.pages[k]);
      && (r.err.Some? <==> last.Failed?)
      && (r.err.Some? ==> r.err.value == last.err && r.interval == -1)
      && (last.RateLimited? ==> r.interval == last.reset - clock(k))
      && (last.Fetched? ==> r.interval == PollIntervalFromResponse(last.response.header))
      && (forall j :: 0 <= j < k ==> reply(j, r.pages[j]).Fetched?)
  {
    PollFollowsCursorChain(reply, clock);
  }

  // ---------------------------------------------------------------------
  // Serving cycles
  // ---------------------------------------------------------------------

  /** The answers and the clock of cycle c, out of oracles for the whole run. */
  function CycleReply(reply: (nat, nat, int) -> FetchResult, c: nat): (nat, int) -> FetchResult {
    (i: nat, page: int) => reply(c, i, page)
  }

  function CycleClock(clock: (nat, nat) -> int, c: nat): nat -> int {
    (i: nat) => clock(c, i)
  }

  function CyclePoll(reply: (nat, nat, int) -> FetchResult, clock: (nat, nat) -> int, c: nat): PollResult {
    Polled(CycleReply(reply, c), CycleClock(clock, c))
  }

  /** The batches published, the delays waited after them, and the error `Serve` returns. */
  datatype ServeRun = ServeRun(published: seq<seq<Event>>, waits: seq<int>, result: Error)

  /**
   * The run from cycle c, given the result `polls(c)` of each cycle's poll,
   * when the context is cancelled during the wait that follows cycle `cancelAt`.
   */
  function ServeFrom(polls: nat -> PollResult, cancelAt: nat, c: nat): ServeRun
    requires c <= cancelAt
    decreases cancelAt - c
  {
    var p := polls(c);
    if p.err.Some? then ServeRun([], [], p.err.value)
    else if c == cancelAt then ServeRun([p.events], [p.interval], ContextDone)
    else
      var rest := ServeFrom(polls, cancelAt, c + 1);
      ServeRun([p.events] + rest.published, [p.interval] + rest.waits, rest.result)
  }

  function CyclePolls(reply: (nat, nat, int) -> FetchResult, clock: (nat, nat) -> int): nat -> PollResult {
    (c: nat) => CyclePoll(reply, clock, c)
  }

  function Served(reply: (nat, nat, int) -> FetchResult, clock: (nat, nat) -> int, cancelAt: nat): ServeRun {
    ServeFrom(CyclePolls(reply, clock), cancelAt, 0)
  }

  /** Poll results of every cycle that `PollsOf` relates to `CyclePoll`. */
  lemma PollsFor(reply: (nat, nat, int) -> FetchResult, clock: (nat, nat) -> int) returns (polls: nat -> PollResult)
    ensures PollsOf(polls, reply, clock)
  {
    polls := CyclePolls(reply, clock);
  }

  /** The poll results of every cycle, as `Polled` gives them on that cycle's answers and clock. */
  ghost predicate PollsOf(polls: nat -> PollResult, reply: (nat, nat, int) -> FetchResult, clock: (nat, nat) -> int) {
    forall c {:trigger CyclePoll(reply, clock, c)} :: polls(c) == CyclePoll(reply, clock, c)
  }

  /** One cycle's poll, on that cycle's answers and clock. */
  method PollCycle(reply: (nat, nat, int) -> FetchResult, clock: (nat, nat) -> int, c: nat, ghost polls: nat -> PollResult)
    returns (events: seq<Event>, interval: int, err: Option<Error>)
    requires PollsOf(polls, reply, clock)
    ensures events == polls(c).events && interval == polls(c).interval && err == polls(c).err
  {
    var requested;
    events, interval, err, requested := Poll(CycleReply(reply, c), CycleClock(clock, c));
    assert CyclePoll(reply, clock, c) == PollResult(events, interval, err, requested);
  }

  /** Any such poll results give the run `Served` describes. */
  lemma {:induction false} ServedFrom(polls: nat -> PollResult, reply: (nat, nat, int) -> FetchResult, clock: (nat, nat) -> int, cancelAt: nat)
    requires PollsOf(polls, reply, clock)
    ensures ServeFrom(polls, cancelAt, 0) == Served(reply, clock, cancelAt)
  {
    var others := CyclePolls(reply, clock);
    forall k: nat
      ensures polls(k) == others(k)
    {
      assert others(k) == CyclePoll(reply, clock, k);
    }
    ServeFromAgrees(polls, others, cancelAt, 0);
  }

  lemma AppendLast<T>(a: seq<T>, b: seq<T>, x: T)
    ensures (a + b) + [x] == a + (b + [x])
  {
  }

  /** A run that has already published `published` after waits `waits`, then goes on as `run`. */
  function Resumed(published: seq<seq<Event>>, waits: seq<int>, run: ServeRun): ServeRun {
    ServeRun(published + run.published, waits + run.waits, run.result)
  }

  lemma ResumedEnd(published: seq<seq<Event>>, waits: seq<int>, result: Error)
    ensures Resumed(published, waits, ServeRun([], [], result)) == ServeRun(published, waits, result)
  {
    assert published + [] == published && waits + [] == waits;
  }

  lemma ResumedLast(published: seq<seq<Event>>, waits: seq<int>, batch: seq<Event>, interval: int)
    ensures Resumed(published, waits, ServeRun([batch], [interval], ContextDone))
         == ServeRun(published + [batch], waits + [interval], ContextDone)
  {
  }

  lemma ResumedNext(published: seq<seq<Event>>, waits: seq<int>, batch: seq<Event>, interval: int, run: ServeRun)
    ensures Resumed(published, waits, ServeRun([batch] + run.published, [interval] + run.waits, run.result))
         == Resumed(published + [batch], waits + [interval], run)
  {
    assert published + ([batch] + run.published) == (published + [batch]) + run.published;
    assert waits + ([interval] + run.waits) == (waits + [interval]) + run.waits;
  }

  /**
   * The output channel: what was sent, in order, and whether it is closed.
   * Sending on or closing a closed channel makes Go panic, hence the
   * preconditions. Blocking on a full buffer is not modelled.
   */
  class Channel {
    const capacity: nat
    var sent: seq<seq<Event>>
    var closed: bool

    constructor (capacity: nat)
      ensures this.capacity == capacity && sent == [] && !closed
    {
      this.capacity := capacity;
      sent := [];
      closed := false;
    }

    method Send(batch: seq<Event>)
      requires !closed
      modifies this
      ensures sent == old(sent) + [batch] && !closed
    {
      sent := sent + [batch];
    }

    method Close()
      requires !closed
      modifies this
      ensures closed && sent == old(sent)
    {
      closed := true;
    }
  }

  /** `EventFeed`: the output channel, and the delays of the timers it armed between cycles. */
  class EventFeed {
    const events: Channel
    var timers: seq<int>

    /** The part of `NewEventFeed` that is not client wiring: a fresh, open channel of capacity 16. */
    constructor ()
      ensures fresh(events) && events.capacity == DefaultFeedCapacity
      ensures events.sent == [] && !events.closed && timers == []
    {
      events := new Channel(DefaultFeedCapacity);
      timers := [];
    }

    /**
     * `Serve`: poll; on an error return it; otherwise publish the cycle's
     * batch, arm a timer for the cycle's interval, and either resume or,
     * when the context is done during that wait, return `ContextDone`. The
     * channel is closed once, on the way out.
     */
    method Serve(reply: (nat, nat, int) -> FetchResult, clock: (nat, nat) -> int, cancelAt: nat) returns (err: Error)
      requires !events.closed
      modifies this, events
      ensures events.closed
      ensures var run := Served(reply, clock, cancelAt);
        events.sent == old(events.sent) + run.published && timers == old(timers) + run.waits && err == run.result
    {
      ghost var polls := PollsFor(reply, clock);
      ghost var published: seq<seq<Event>> := [];
      ghost var waits: seq<int> := [];
      var c := 0;
      while true
        invariant c <= cancelAt && !events.closed
        invariant events.sent == old(events.sent) + published && timers == old(timers) + waits
        invariant ServeFrom(polls, cancelAt, 0) == Resumed(published, waits, ServeFrom(polls, cancelAt, c))
        decreases cancelAt - c
      {
        var batch, interval, pollErr := PollCycle(reply, clock, c, polls);
        if pollErr.Some? {
          err := pollErr.value;
          ResumedEnd(published, waits, err);
          break;
        }
        AppendLast(old(events.sent), published, batch);
        AppendLast(old(timers), waits, interval);
        events.Send(batch);
        timers := timers + [interval];
        if c == cancelAt {
          ResumedLast(published, waits, batch, interval);
          err := ContextDone;
          published, waits := published + [batch], waits + [interval];
          break;
        }
        ResumedNext(published, waits, batch, interval, ServeFrom(polls, cancelAt, c + 1));
        published, waits := published + [batch], waits + [interval];
        c := c + 1;
      }
      events.Close();
      ServedFrom(polls, reply, clock, cancelAt);
    }
  }

  /** Runs over poll results that agree cycle by cycle are the same run. */
  lemma {:induction false} ServeFromAgrees(polls: nat -> PollResult, others: nat -> PollResult, cancelAt: nat, c: nat)
    requires c <= cancelAt
    requires forall k :: polls(k) == others(k)
    decreases cancelAt - c
    ensures ServeFrom(polls, cancelAt, c) == ServeFrom(others, cancelAt, c)
  {
    if c < cancelAt {
      ServeFromAgrees(polls, others, cancelAt, c + 1);
    }
  }

  /** One wait follows each published batch, and no batch follows the cancelled wait. */
  lemma {:induction false} ServeFromLength(polls: nat -> PollResult, cancelAt: nat, c: nat)
    requires c <= cancelAt
    decreases cancelAt - c
    ensures var run := ServeFrom(polls, cancelAt, c);
      |run.waits| == |run.published| && c + |run.published| <= cancelAt + 1
  {
    if polls(c).err.None? && c < cancelAt {
      ServeFromLength(polls, cancelAt, c + 1);
    }
  }

  /** The k-th batch and wait are those of cycle c + k, whose poll succeeded. */
  lemma {:induction false} ServeFromBatch(polls: nat -> PollResult, cancelAt: nat, c: nat, k: nat)
    requires c <= cancelAt
    requires k < |ServeFrom(polls, cancelAt, c).published|
    requires k < |ServeFrom(polls, cancelAt, c).waits|
    decreases cancelAt - c
    ensures var run := ServeFrom(polls, cancelAt, c);
      polls(c + k).err.None? && run.published[k] == polls(c + k).events && run.waits[k] == polls(c + k).interval
  {
    if k > 0 {
      ServeFromBatch(polls, cancelAt, c + 1, k - 1);
      assert (c + 1) + (k - 1) == c + k;
    }
  }

  /** The run ends with `ContextDone` after cycle `cancelAt`, or else with the first failed cycle's error. */
  lemma {:induction false} ServeFromResult(polls: nat -> PollResult, cancelAt: nat, c: nat)
    requires c <= cancelAt
    decreases cancelAt - c
    ensures var run := ServeFrom(polls, cancelAt, c);
      var n := |run.published|;
      if c + n == cancelAt + 1 then run.result == ContextDone else polls(c + n).err == Some(run.result)
  {
    if polls(c).err.None? && c < cancelAt {
      ServeFromResult(polls, cancelAt, c + 1);
      assert (c + 1) + |ServeFrom(polls, cancelAt, c + 1).published| == c + |ServeFrom(polls, cancelAt, c).published|;
    }
  }

  /**
   * What `Serve` publishes: one batch per cycle whose poll succeeded, that
   * cycle's events, followed by a wait of that cycle's interval. It returns
   * `ContextDone` after the cancelled wait, or else the error of the first
   * cycle whose poll failed, whose events it does not publish.
   */
  lemma ServePublishesEachCycle(reply: (nat, nat, int) -> FetchResult, clock: (nat, nat) -> int, cancelAt: nat,
                                polls: nat -> PollResult)
    requires PollsOf(polls, reply, clock)
    ensures var run := Served(reply, clock, cancelAt);
      var n := |run.published|;
      && |run.waits| == n && n <= cancelAt + 1
      && (forall k: nat :: k < n ==>
            polls(k).err.None? && run.published[k] == polls(k).events && run.waits[k] == polls(k).interval)
      && (if n == cancelAt + 1 then run.result == ContextDone else polls(n).err == Some(run.result))
  {
    ServedFrom(polls, reply, clock, cancelAt);
    ServeFromLength(polls, cancelAt, 0);
    ServeFromResult(polls, cancelAt, 0);
    var run := ServeFrom(polls, cancelAt, 0);
    forall k: nat | k < |run.published|
      ensures polls(k).err.None? && run.published[k] == polls(k).events && run.waits[k] == polls(k).interval
    {
      ServeFromBatch(polls, cancelAt, 0, k);
    }
  }
}
