# github-feed: the event feed and the load generator, in Dafny

This project models the two pieces of github-feed that carry its logic.

**The event feed** (`pkg/lib/feed.go`) polls GitHub's public events. A cycle asks for up to 10 pages. It starts at page 1 and follows each response's `NextPage` cursor. It stops early on:
- an error;
- a rate-limit error;
- a page served from the HTTP cache;
- the last page.

The cycle also picks how long to wait before the next one. That is the `X-Poll-Interval` hint of the last response, or 60 seconds when the hint is missing or malformed. After a rate-limit error it is the time left until the limit resets. `Serve` repeats cycles. It publishes each cycle's events on a buffered channel and waits the cycle's interval. It returns the first poll error, or the context's error when the context is done during a wait. It closes the channel on the way out.

**The load generator** (`pkg/cmd/github-loadgen/main.go`) handles each published batch:
- it spreads the batch's events evenly over one minute;
- it drops events whose actor looks like a bot;
- it posts, for each remaining event, the user's id and one hashed id per distinct public commit author email.

## Structure

- `wrappers.dfy`: `Option`.
- `ascii.dfy`: ASCII lower-casing, as `strings.ToLower` does on ASCII text.
- `int64.dfy`: Go's `int64` range and its wrap-around.
- `strconv.dfy`: `strconv.Atoi` and `strconv.Itoa` on 64-bit integers.
- `hex.dfy`: `hex.EncodeToString` and `hex.DecodeString`.
- `regexp.dfy`: the fragment of Go's regular expressions that the filters use. That fragment is:
  - alternations of fixed-length branches, anchored by `$` and searched unanchored;
  - unescaped `.`;
  - the `(?i)` flag.
- `github.dfy`: the go-github and net/http values the core reads:
  - headers;
  - responses with their `NextPage` cursor;
  - events, commits and errors;
  - the outcome of one `ListEvents` call.
- `feed.dfy`: `pkg/lib/feed.go`.
  - The pure helpers are functions.
  - `poll` is a method with its bounded loop. It is proved equal to the reference function `Polled`, and lemmas about `Polled` state the cycle's guarantees.
  - The feed is a class `EventFeed` that holds a `Channel` object (what was sent and whether it is closed). `Serve` is a method proved equal to the reference run `Served`, and lemmas about `Served` describe it cycle by cycle.
- `loadgen.dfy`: `pkg/cmd/github-loadgen/main.go`.
  - The filters are functions, proved equal to the regular-expression semantics.
  - `gatherIdsFromCommits` is a method with its loop and its `seen` map, proved equal to a reference list of authors.
  - The pacing arithmetic of `rateLimit` is modelled as written, with its divide-by-zero, and corrected.

Nothing runs in the model. The network, the clock and the cancellation are inputs:
- `reply(c, i, page)` is the answer to the i-th request of cycle c, for the given page.
- `clock(c, i)` is the time in nanoseconds when that answer arrives.
- `cancelAt` is the wait during which the context is cancelled. An endless run is the limit of these runs: each of its finite prefixes is a prefix of the run for some `cancelAt`.
- SHA-256 is an input `sha256: string -> Digest`.

Durations are nanoseconds, as `time.Duration` counts them. `time.Duration(n) * time.Second` wraps around like Go's `int64` multiplication.

Two behaviours are kept exactly as the code has them, though one might expect otherwise:
- After a rate-limit error the wait is `reset - now` even when that is negative. It is not clamped at zero.
- An empty batch is published like any other.

## Model

| member | source | states |
|---|---|---|
| `Int64.Wrap` | pkg/lib/feed.go:102 | the product of a hint and `time.Second` is an int64, and is the exact product whenever that fits |
| `Strconv.AtoiItoa` | pkg/lib/feed.go:97-100 | `Atoi` reads back every int64 that Go prints in decimal |
| `Strconv.AtoiRejectsNonDigit` | pkg/lib/feed.go:97-100 | `Atoi` fails on a text holding a character other than a digit after its optional sign |
| `Hex.HexEncode` | pkg/cmd/github-loadgen/main.go:52 | two lower-case hexadecimal characters per byte, high nibble first |
| `Hex.DecodeEncode` | pkg/cmd/github-loadgen/main.go:52 | decoding the encoding gives back the bytes |
| `Hex.EncodeInjective` | pkg/cmd/github-loadgen/main.go:52 | distinct byte strings have distinct encodings |
| `Regexp.MatchesAtEndIff` | pkg/cmd/github-loadgen/main.go:44 | an unanchored search for branches anchored at `$` succeeds exactly when the text ends with one of the branches |
| `Regexp.EndsWithTail` | pkg/cmd/github-loadgen/main.go:123 | a text that ends with a branch also ends with every tail of that branch |
| `Feed.PollIntervalFromResponse` | pkg/lib/feed.go:88-103 | the interval always fits in an int64, as a `time.Duration` does |
| `Feed.IntervalFromHint` | pkg/lib/feed.go:88-103 | the interval is the default 60 s when `X-Poll-Interval` is absent, empty or not a decimal integer that fits in an int64, and otherwise the hint times one second, wrapped to int64 |
| `Feed.HintedIntervalExact` | pkg/lib/feed.go:92-102 | a hint of n seconds written in decimal gives exactly n seconds, for every n whose product fits |
| `Feed.MalformedHintFallsBack` | pkg/lib/feed.go:97-100 | a hint with a character other than a digit after the sign gives the default interval |
| `Feed.PollIntervalOrPropagateError` | pkg/lib/feed.go:105-123 | it throttles exactly on a rate-limit error, waiting until the reset; it propagates exactly the other errors, with interval -1; otherwise it takes the response's interval |
| `Feed.CachedPageEndsCycle` | pkg/lib/feed.go:125-128 | a page counts as cached exactly when its header map holds the key `X-From-Cache`, looked up as written: with the key, the page ends the cycle and adds nothing; without it, a last page ends the cycle with its batch |
| `Feed.PolledSettledByLastPage` | pkg/lib/feed.go:140-165 | a cycle's interval and error are those decided for the last page it requested: an error exactly when that page failed, then with interval -1, the reset minus the arrival time when it was throttled, the header's interval when it arrived; every earlier page arrived |
| `Feed.PollFrom` | pkg/lib/feed.go:136-163 | from the i-th request on, a cycle makes at least one and at most `10 - i` requests |
| `Feed.Poll` | pkg/lib/feed.go:130-166 | the loop returns the events, the interval, the error and the requested pages of the reference cycle `Polled` |
| `Feed.PollStep` | pkg/lib/feed.go:146-162 | the answer to one request settles the cycle without its batch when the cycle does not keep it, settles it with its batch when it is the last kept page, and otherwise leaves the rest of the cycle to the request for the page it names |
| `Feed.PollFromLink` | pkg/lib/feed.go:151-162 | every request but the last of a cycle got a page that arrived, was not cached and named a next page, and the following request asks for that page |
| `Feed.PollFromEnd` | pkg/lib/feed.go:146-162 | a cycle that stops before the page limit stops on a page that does not continue |
| `Feed.PollFollowsCursorChain` | pkg/lib/feed.go:135-163 | a cycle requests 1 to 10 pages: page 1 first, then each page the previous one named; it stops early only on a page that errs, is throttled, is cached or is the last |
| `Feed.PollFromCollects` | pkg/lib/feed.go:146-157 | the events from the i-th request on are the batches of the accepted answers, in order |
| `Feed.PollCollectsAcceptedPages` | pkg/lib/feed.go:146-157 | a cycle's events are the batches of its accepted pages, in page order; the page that errs, is throttled or is cached adds nothing |
| `Feed.PollFromBounded` | pkg/lib/feed.go:146-157 | with at most 30 events per page, the events from the i-th request on number at most 30 per requested page |
| `Feed.PollEventsBounded` | pkg/lib/feed.go:22-24 | with at most 30 events per page, a cycle yields at most `maximumEventsPerPoll` = 300 events |
| `Feed.PollStopsAtPageCeiling` | pkg/lib/feed.go:136-163 | when every page of the cursor chain from page 1 continues, the cycle stops after exactly 10 pages, without an error, every page accepted and every batch kept in page order |
| `Feed.CacheHitStopsPoll` | pkg/lib/feed.go:151-154 | a cached first page ends the cycle at once, with no events, no error and that page's interval |
| `Feed.Channel.constructor` | pkg/lib/feed.go:40 | a new channel has the given capacity, holds nothing and is open |
| `Feed.Channel.Send` | pkg/lib/feed.go:73 | sending appends the batch; sending on a closed channel is excluded because Go panics |
| `Feed.Channel.Close` | pkg/lib/feed.go:62 | closing marks the channel closed and keeps what was sent; closing twice is excluded because Go panics |
| `Feed.EventFeed.constructor` | pkg/lib/feed.go:37-40 | a new feed owns a fresh, open, empty channel of capacity 16 |
| `Feed.PollCycle` | pkg/lib/feed.go:65 | one cycle's poll returns that cycle's reference result |
| `Feed.EventFeed.Serve` | pkg/lib/feed.go:61-83 | the channel ends up closed; the batches it received, the timers armed and the error returned are those of the reference run `Served` |
| `Feed.ServeFromLength` | pkg/lib/feed.go:72-81 | one wait follows each published batch, and nothing is published after the cancelled wait |
| `Feed.ServeFromBatch` | pkg/lib/feed.go:65-76 | the k-th published batch and wait are the events and the interval of the k-th cycle, whose poll succeeded |
| `Feed.ServeFromResult` | pkg/lib/feed.go:65-80 | the run returns `ContextDone` after the cancelled wait, or else the error of the first cycle whose poll failed |
| `Feed.ServePublishesEachCycle` | pkg/lib/feed.go:61-83 | `Serve` publishes one batch per successful cycle, in cycle order, waits that cycle's interval after it, and returns the first poll error, whose cycle publishes nothing, or `ContextDone` |
| `Loadgen.HashEmail` | pkg/cmd/github-loadgen/main.go:50-53 | the hash is 64 lower-case hexadecimal characters that decode to the SHA-256 digest of the address |
| `Loadgen.HashEmailSameIff` | pkg/cmd/github-loadgen/main.go:50-53 | two addresses get the same hash exactly when their digests are equal |
| `Loadgen.MatchEmail` | pkg/cmd/github-loadgen/main.go:44-48 | an address is kept exactly when it is not empty and the private-address pattern finds no match |
| `Loadgen.PrivateEmailBranches` | pkg/cmd/github-loadgen/main.go:44 | the private-address pattern matches exactly the addresses that end with `noreply?github?com` or with `.local` |
| `Loadgen.NoreplyDropped` | pkg/cmd/github-loadgen/main.go:44 | GitHub's no-reply addresses are dropped, and so is any address that differs from one only at the two unescaped dots, by any character but a newline |
| `Loadgen.LocalDropped` | pkg/cmd/github-loadgen/main.go:44 | addresses ending in `.local` are dropped |
| `Loadgen.OtherEmailKept` | pkg/cmd/github-loadgen/main.go:46-48 | a non-empty address whose last character is neither `m` nor `l` is kept |
| `Loadgen.MatchEvent` | pkg/cmd/github-loadgen/main.go:121-127 | an event is kept exactly when the bot pattern finds no match in its actor's login |
| `Loadgen.BotBranches` | pkg/cmd/github-loadgen/main.go:123 | the bot pattern matches exactly the logins that end with `bot` or `bot]`, in any case |
| `Loadgen.BracketedImpliesBare` | pkg/cmd/github-loadgen/main.go:123 | a login ending with `[bot]` or `[bot` also ends with `bot]` or `bot` |
| `Loadgen.BotLoginDropped` | pkg/cmd/github-loadgen/main.go:121-127 | logins ending in `bot`, in any case, are dropped, which includes false positives that the comment accepts |
| `Loadgen.BracketedBotLoginDropped` | pkg/cmd/github-loadgen/main.go:121-127 | logins ending in `bot]`, in any case, are dropped |
| `Loadgen.OtherLoginKept` | pkg/cmd/github-loadgen/main.go:121-127 | a login that is empty or whose last character is not `t`, `T` or `]` is kept |
| `Loadgen.AuthorsMembership` | pkg/cmd/github-loadgen/main.go:67-80 | an address is listed exactly when some commit's lower-cased author address is that address and `matchEmail` keeps it |
| `Loadgen.AuthorsDistinct` | pkg/cmd/github-loadgen/main.go:73-79 | no address is listed twice, and there are no more addresses than commits |
| `Loadgen.AuthorsPrefix` | pkg/cmd/github-loadgen/main.go:67-80 | the authors of the first commits come first: each address sits where its first commit puts it |
| `Loadgen.EmailIdsDistinct` | pkg/cmd/github-loadgen/main.go:73-79 | distinct authors get distinct email ids as long as their digests differ |
| `Loadgen.GatherIdsFromCommits` | pkg/cmd/github-loadgen/main.go:55-83 | the ids start with `c:` and the user; an event that is not a push or whose payload does not parse has no other id; otherwise each listed author follows, in order, as `e:` and the hash of the address |
| `Loadgen.SendEvent` | pkg/cmd/github-loadgen/main.go:85-90 | every event is posted, because the `len(ids) < 1` guard never holds; the ids are those gathered for the lower-cased login |
| `Loadgen.ProcessEvent` | pkg/cmd/github-loadgen/main.go:129-135 | an event is posted exactly when `matchEvent` keeps it, and then with the ids gathered for its lower-cased login |
| `Loadgen.RateLimitTick` | pkg/cmd/github-loadgen/main.go:142-143 | as written: an empty batch divides by zero, a batch of more than 60·10⁹ events gets a zero tick that `NewTicker` refuses, and otherwise the tick is the longest one for which n ticks fit in a minute (⌊60 s / n⌋ nanoseconds) |
| `Loadgen.ReleasedWithinMinute` | pkg/cmd/github-loadgen/main.go:141-149 | taking as given that the ticker releases the k-th event at (k+1) ticks (the ticker goroutine is not modelled), a ticking batch is released one tick apart, in order, the last within the minute |
| `Loadgen.ThrottledFirstPagePanics` | pkg/cmd/github-loadgen/main.go:142 | when the very first request of the feed is rate-limited, the feed publishes an empty batch first, and `rateLimit` divides by zero on it |
| `Loadgen.RateLimitTickGuarded` | pkg/cmd/github-loadgen/main.go:142-143 | corrected: no ticker for an empty batch, a tick of at least one nanosecond otherwise, and the tick as written wherever that one works |
| `Loadgen.GuardedTickWithinMinute` | pkg/cmd/github-loadgen/main.go:142-143 | corrected: every batch the feed can produce is paced without a panic, within the minute, at least 200 ms apart |

## Left out

- NewEventFeed's client wiring: the OAuth2 token source, the 10-second timeout and the in-memory HTTP cache. The model keeps only the channel it creates. The cache shows up only as the `X-From-Cache` header of a response.
- HTTP itself:
  - `ListEvents` is the `reply` input;
  - go-github's own page parsing is taken as given through `NextPage`;
  - `Header.Get` key canonicalisation is not modelled, because keys are taken as already canonical.
- Time:
  - `time.Until` is `reset - clock`, unbounded rather than saturating at the int64 limits;
  - `time.After` is not modelled: the wait is recorded as a timer delay and the `select` is the `cancelAt` input.
- Channel blocking: a send on the full 16-batch buffer blocks in Go. The model records sends in order and does not model the consumer's pace.
- Logging (`log.Printf`) and `processBatch`'s goroutines. Goroutines only change the order in which independent POSTs happen.
- Unicode: `strings.ToLower` and the `(?i)` flag are modelled on ASCII. The login pattern, the only one with `(?i)`, folds only `b`, `o` and `t`, which have no non-ASCII folds; the email pattern folds nothing. Lower-casing of non-ASCII addresses is not modelled: Go maps U+0130 to `i` and U+212A to `k`, so `noreply@gİthub.com` is dropped by the program but kept by the model.
- SHA-256 is an input function, because the digest's internals play no part in what the code promises.
- `clientFor`'s cookie jars, the JSON marshalling of the ids, the POST request and its status handling: I/O with no effect on which ids are sent.
- A nil `Actor` or `Login` (a nil-pointer panic in `matchEvent`) is not modelled. Logins are strings.
- `main` of the load generator and `cmd/github-feed` are wiring only.
- The ticker dropping ticks for a slow reader: the model assumes each event is taken as soon as it is released.
- Loadgen.ReleasedWithinMinute: the ticker goroutine of `rateLimit` is not modelled; the release of the k-th event at (k+1) ticks is taken as given, so the lemma speaks about the tick alone.
- `ctx.Err()`: `ContextDone` stands for both `context.Canceled` and `context.DeadlineExceeded`; the model does not tell a cancellation from a deadline.

## Findings

| source | as written | input that shows it | evidently intended | confidence | as-written member | corrected member |
|---|---|---|---|---|---|---|
| pkg/cmd/github-loadgen/main.go:142 | `tick := int(60*time.Second) / n` with `n := len(events)`; `Serve` publishes a batch even when it holds no events | the first request of the feed is rate-limited (also: the first page of a later cycle is served from the cache, or is empty): `Serve` sends `[]`, `processBatch([])` calls `rateLimit`, whose goroutine divides by zero and the process panics | an empty batch is skipped, and the tick is at least one nanosecond | high for the division, not executed | `Loadgen.ThrottledFirstPagePanics` | `Loadgen.RateLimitTickGuarded` |
