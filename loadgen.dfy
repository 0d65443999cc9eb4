/**
 * The event handling of the load generator: which events and which commit
 * authors it keeps, the ids it posts for an event, and the pacing of a
 * batch over a minute.
 */
module Loadgen {
  import opened Wrappers
  import opened Github
  import opened Regexp
  import opened Hex
  import Ascii
  import Feed

  // ---------------------------------------------------------------------
  // Hashing
  // ---------------------------------------------------------------------

  /** A SHA-256 digest: 32 bytes. */
  type Digest = d: seq<byte> | |d| == 32 witness seq(32, _ => 0)

  /** `hashEmail`: the lower-case hexadecimal form of the digest of the address. */
  function HashEmail(sha256: string -> Digest, email: string): (h: string)
    ensures |h| == 64
    ensures forall k :: 0 <= k < |h| ==> IsLowerHex(h[k])
    ensures HexDecode(h) == Some(sha256(email))
  {
    DecodeEncode(sha256(email));
    HexEncode(sha256(email))
  }

  /** Two addresses get the same hash exactly when their digests are equal. */
  lemma HashEmailSameIff(sha256: string -> Digest, a: string, b: string)
    ensures HashEmail(sha256, a) == HashEmail(sha256, b) <==> sha256(a) == sha256(b)
  {
    if HashEmail(sha256, a) == HashEmail(sha256, b) {
      EncodeInjective(sha256(a), sha256(b));
    }
  }

  // ---------------------------------------------------------------------
  // Filters
  // ---------------------------------------------------------------------

  /** A run of literal characters. */
  function Literal(s: string): (p: seq<Atom>)
    ensures |p| == |s| && forall k :: 0 <= k < |s| ==> p[k] == Lit(s[k])
  {
    seq(|s|, k requires 0 <= k < |s| => Lit(s[k]))
  }

  /** A run of characters under `(?i)`. */
  function Folded(s: string): (p: seq<Atom>)
    ensures |p| == |s| && forall k :: 0 <= k < |s| ==> p[k] == FoldLit(s[k])
  {
    seq(|s|, k requires 0 <= k < |s| => FoldLit(s[k]))
  }

  /** `noreply.github.com$`: both dots are unescaped and match any character but a newline. */
  const NoreplyBranch: seq<Atom> := Literal("noreply") + [AnyButNewline] + Literal("github") + [AnyButNewline] + Literal("com")

  /** `\.local$`. */
  const LocalBranch: seq<Atom> := Literal(".local")

  /** `privateEmailMatcher`. */
  const PrivateEmailPattern: seq<seq<Atom>> := [NoreplyBranch, LocalBranch]

  /** `botMatcher`, `(?i)\[?bot\]?$`, with its optional brackets spelled out as four branches. */
  const BotPattern: seq<seq<Atom>> := [Folded("[bot]"), Folded("[bot"), Folded("bot]"), Folded("bot")]

  /** `matchEmail`: keep an address that is not empty and is not a private or local one. */
  function MatchEmail(email: string): (r: bool)
    ensures r <==> email != "" && !MatchesAtEnd(PrivateEmailPattern, email)
  {
    PrivateEmailBranches(email);
    email != "" && !EndsWith(email, NoreplyBranch) && !EndsWith(email, LocalBranch)
  }

  lemma PrivateEmailBranches(email: string)
    ensures MatchesAtEnd(PrivateEmailPattern, email) <==> EndsWith(email, NoreplyBranch) || EndsWith(email, LocalBranch)
  {
    MatchesAtEndIff(PrivateEmailPattern, email);
    assert PrivateEmailPattern[0] == NoreplyBranch && PrivateEmailPattern[1] == LocalBranch;
    if exists j :: 0 <= j < |PrivateEmailPattern| && EndsWith(email, PrivateEmailPattern[j]) {
      var j :| 0 <= j < |PrivateEmailPattern| && EndsWith(email, PrivateEmailPattern[j]);
      assert j == 0 || j == 1;
    }
  }

  /**
   * GitHub's private addresses are dropped, and so is any address that
   * differs from one only where the pattern has a dot, by any character but
   * a newline.
   */
  lemma NoreplyDropped(prefix: string, x: char, y: char)
    requires x != '\n' && y != '\n'
    ensures !MatchEmail(prefix + "noreply" + [x] + "github" + [y] + "com")
  {
    var email := prefix + "noreply" + [x] + "github" + [y] + "com";
    var tail := "noreply" + [x] + "github" + [y] + "com";
    assert email[|email| - |NoreplyBranch|..] == tail;
    assert MatchesExactly(NoreplyBranch, tail);
  }

  /** Addresses of `.local` domains are dropped. */
  lemma LocalDropped(prefix: string)
    ensures !MatchEmail(prefix + ".local")
  {
    var email := prefix + ".local";
    assert email[|email| - |LocalBranch|..] == ".local";
  }

  /** A non-empty address that ends in neither `m` nor `l` is kept. */
  lemma OtherEmailKept(email: string)
    requires email != "" && email[|email| - 1] != 'm' && email[|email| - 1] != 'l'
    ensures MatchEmail(email)
  {
    assert NoreplyBranch[|NoreplyBranch| - 1] == Lit('m');
    assert LocalBranch[|LocalBranch| - 1] == Lit('l');
  }

  /** `matchEvent`: keep an event unless its actor's login looks like a bot's. */
  function MatchEvent(e: Event): (r: bool)
    ensures r <==> !MatchesAtEnd(BotPattern, e.actorLogin)
  {
    var login := e.actorLogin;
    BotBranches(login);
    !EndsWith(login, Folded("bot]")) && !EndsWith(login, Folded("bot"))
  }

  lemma BotBranches(login: string)
    ensures MatchesAtEnd(BotPattern, login) <==> EndsWith(login, Folded("bot]")) || EndsWith(login, Folded("bot"))
  {
    BracketedImpliesBare(login);
    MatchesAtEndIff(BotPattern, login);
    assert BotPattern[2] == Folded("bot]") && BotPattern[3] == Folded("bot");
    if exists j :: 0 <= j < |BotPattern| && EndsWith(login, BotPattern[j]) {
      var j :| 0 <= j < |BotPattern| && EndsWith(login, BotPattern[j]);
      assert j == 0 || j == 1 || j == 2 || j == 3;
      assert BotPattern[0] == Folded("[bot]") && BotPattern[1] == Folded("[bot");
    }
  }

  /** The branches with an opening bracket only ever match where the branches without it do. */
  lemma BracketedImpliesBare(login: string)
    ensures EndsWith(login, Folded("[bot]")) ==> EndsWith(login, Folded("bot]"))
    ensures EndsWith(login, Folded("[bot")) ==> EndsWith(login, Folded("bot"))
  {
    assert Folded("[bot]") == Folded("[") + Folded("bot]");
    assert Folded("[bot") == Folded("[") + Folded("bot");
    if EndsWith(login, Folded("[bot]")) {
      EndsWithTail(login, Folded("["), Folded("bot]"));
    }
    if EndsWith(login, Folded("[bot")) {
      EndsWithTail(login, Folded("["), Folded("bot"));
    }
  }

  /** `bot` in any case matches the folded branch. */
  lemma FoldedBot(b: char, o: char, t: char)
    requires Ascii.Lower(b) == 'b' && Ascii.Lower(o) == 'o' && Ascii.Lower(t) == 't'
    ensures MatchesExactly(Folded("bot"), [b, o, t])
    ensures MatchesExactly(Folded("bot]"), [b, o, t, ']'])
  {
    var bot, closed := Folded("bot"), Folded("bot]");
    assert bot[0] == FoldLit('b') && bot[1] == FoldLit('o') && bot[2] == FoldLit('t');
    assert closed[0] == FoldLit('b') && closed[1] == FoldLit('o') && closed[2] == FoldLit('t') && closed[3] == FoldLit(']');
  }

  /** Logins ending in `bot`, in any case, are dropped. */
  lemma BotLoginDropped(e: Event, prefix: string, b: char, o: char, t: char)
    requires Ascii.Lower(b) == 'b' && Ascii.Lower(o) == 'o' && Ascii.Lower(t) == 't'
    requires e.actorLogin == prefix + [b, o, t]
    ensures !MatchEvent(e)
  {
    FoldedBot(b, o, t);
    var login := e.actorLogin;
    assert login[|login| - 3..] == [b, o, t];
  }

  /** Logins ending in `bot]`, in any case, are dropped. */
  lemma BracketedBotLoginDropped(e: Event, prefix: string, b: char, o: char, t: char)
    requires Ascii.Lower(b) == 'b' && Ascii.Lower(o) == 'o' && Ascii.Lower(t) == 't'
    requires e.actorLogin == prefix + [b, o, t, ']']
    ensures !MatchEvent(e)
  {
    FoldedBot(b, o, t);
    var login := e.actorLogin;
    assert login[|login| - 4..] == [b, o, t, ']'];
  }

  /** A login whose last character is not `t`, `T` or `]` is kept. */
  lemma OtherLoginKept(e: Event)
    requires e.actorLogin == "" || e.actorLogin[|e.actorLogin| - 1] !in {'t', 'T', ']'}
    ensures MatchEvent(e)
  {
    var login := e.actorLogin;
    if login != "" {
      var c := login[|login| - 1];
      var bot, closed := Folded("bot"), Folded("bot]");
      if EndsWith(login, bot) {
        EndsWithLast(login, bot);
        assert AtomMatches(FoldLit('t'), c);
      }
      if EndsWith(login, closed) {
        EndsWithLast(login, closed);
        assert AtomMatches(FoldLit(']'), c);
      }
    }
  }

  // ---------------------------------------------------------------------
  // Ids of an event
  // ---------------------------------------------------------------------

  /**
   * The commit authors an event contributes, in order of first appearance:
   * each address lower-cased, kept when `MatchEmail` keeps it, and listed
   * once.
   */
  function Authors(commits: seq<Commit>): seq<string>
    decreases |commits|
  {
    if commits == [] then []
    else
      var earlier := Authors(commits[..|commits| - 1]);
      var author := Ascii.ToLower(commits[|commits| - 1].authorEmail);
      if MatchEmail(author) && author !in earlier then earlier + [author] else earlier
  }

  /** The email ids posted for those authors. */
  function EmailIds(sha256: string -> Digest, authors: seq<string>): (ids: seq<string>)
    ensures |ids| == |authors|
  {
    seq(|authors|, k requires 0 <= k < |authors| => "e:" + HashEmail(sha256, authors[k]))
  }

  /** An address is an author exactly when some commit has it, lower-cased, and `MatchEmail` keeps it. */
  lemma {:induction false} AuthorsMembership(commits: seq<Commit>, a: string)
    decreases |commits|
    ensures a in Authors(commits) <==>
      MatchEmail(a) && exists k :: 0 <= k < |commits| && Ascii.ToLower(commits[k].authorEmail) == a
  {
    if commits != [] {
      var init := commits[..|commits| - 1];
      AuthorsMembership(init, a);
      if exists k :: 0 <= k < |commits| && Ascii.ToLower(commits[k].authorEmail) == a {
        var k :| 0 <= k < |commits| && Ascii.ToLower(commits[k].authorEmail) == a;
        if k < |init| {
          assert init[k] == commits[k];
        }
      }
      if exists k :: 0 <= k < |init| && Ascii.ToLower(init[k].authorEmail) == a {
        var k :| 0 <= k < |init| && Ascii.ToLower(init[k].authorEmail) == a;
        assert commits[k] == init[k];
      }
    }
  }

  /** No author is listed twice, and there are no more authors than commits. */
  lemma {:induction false} AuthorsDistinct(commits: seq<Commit>)
    decreases |commits|
    ensures |Authors(commits)| <= |commits|
    ensures forall i, j :: 0 <= i < j < |Authors(commits)| ==> Authors(commits)[i] != Authors(commits)[j]
  {
    if commits != [] {
      AuthorsDistinct(commits[..|commits| - 1]);
    }
  }

  /** The authors of the first commits come first: an author's place is fixed by their first commit. */
  lemma {:induction false} AuthorsPrefix(commits: seq<Commit>, n: nat)
    requires n <= |commits|
    decreases |commits|
    ensures Authors(commits[..n]) <= Authors(commits)
  {
    if n < |commits| {
      var init := commits[..|commits| - 1];
      AuthorsPrefix(init, n);
      assert init[..n] == commits[..n];
    } else {
      assert commits[..n] == commits;
    }
  }

  /** Different authors get different ids as long as their digests differ. */
  lemma EmailIdsDistinct(sha256: string -> Digest, authors: seq<string>)
    requires forall i, j :: 0 <= i < j < |authors| ==> authors[i] != authors[j]
    requires forall a, b :: a in authors && b in authors && sha256(a) == sha256(b) ==> a == b
    ensures var ids := EmailIds(sha256, authors);
      forall i, j :: 0 <= i < j < |ids| ==> ids[i] != ids[j]
  {
    var ids := EmailIds(sha256, authors);
    forall i, j | 0 <= i < j < |ids|
      ensures ids[i] != ids[j]
    {
      HashEmailSameIff(sha256, authors[i], authors[j]);
      assert ids[i][2..] == HashEmail(sha256, authors[i]);
      assert ids[j][2..] == HashEmail(sha256, authors[j]);
    }
  }

  /** The id every post starts with: the actor's login. */
  function UserId(user: string): string {
    "c:" + user
  }

  /** The ids `gatherIdsFromCommits` gathers for `user` from `event`. */
  function EventIds(user: string, event: Event, sha256: string -> Digest): seq<string> {
    if event.payloadParses && event.eventType == "PushEvent"
    then [UserId(user)] + EmailIds(sha256, Authors(event.commits))
    else [UserId(user)]
  }

  /**
   * `gatherIdsFromCommits`: the user's id, then, for a push event whose
   * payload parses, one email id per author in order of first appearance.
   */
  method GatherIdsFromCommits(user: string, event: Event, sha256: string -> Digest) returns (ids: seq<string>)
    ensures |ids| >= 1 && ids[0] == UserId(user)
    ensures ids == EventIds(user, event, sha256)
  {
    ids := [UserId(user)];
    if !event.payloadParses || event.eventType != "PushEvent" {
      return;
    }
    var commits := event.commits;
    var seen: map<string, bool> := map[];
    for i := 0 to |commits|
      invariant ids == [UserId(user)] + EmailIds(sha256, Authors(commits[..i]))
      invariant forall a :: a in seen <==> a in Authors(commits[..i])
    {
      assert commits[..i + 1][..i] == commits[..i];
      var author := Ascii.ToLower(commits[i].authorEmail);
      if !MatchEmail(author) {
        continue;
      }
      if author in seen {
        continue;
      }
      seen := seen[author := true];
      ids := ids + ["e:" + HashEmail(sha256, author)];
    }
    assert commits[..|commits|] == commits;
  }

  /**
   * `sendEvent`: the ids posted for an event, the actor's login lower-cased.
   * Every event is posted: the ids always hold the user's id.
   */
  method SendEvent(event: Event, sha256: string -> Digest) returns (posted: Option<seq<string>>)
    ensures posted == Some(EventIds(Ascii.ToLower(event.actorLogin), event, sha256))
  {
    var user := Ascii.ToLower(event.actorLogin);
    var ids := GatherIdsFromCommits(user, event, sha256);
    if |ids| < 1 {
      return None;
    }
    posted := Some(ids);
  }

  /** `processEvent`: post the ids of an event unless its actor looks like a bot. */
  method ProcessEvent(event: Event, sha256: string -> Digest) returns (posted: Option<seq<string>>)
    ensures posted == if MatchEvent(event) then Some(EventIds(Ascii.ToLower(event.actorLogin), event, sha256)) else None
  {
    if !MatchEvent(event) {
      return None;
    }
    posted := SendEvent(event, sha256);
  }

  // ---------------------------------------------------------------------
  // Pacing
  // ---------------------------------------------------------------------

  /** `60*time.Second`, in nanoseconds. */
  const Minute: int := 60 * Feed.Second

  /** How the ticker of `rateLimit` turns out for a batch of n events. */
  datatype Tick =
    | Ticks(interval: int)     // one event per `interval` nanoseconds
    | DivideByZero             // `int(60*time.Second) / n` with n = 0 panics
    | NonPositiveInterval      // `time.NewTicker` panics on a duration that is not positive

  /** `rateLimit`, as written: the tick spreads the batch over a minute. */
  function RateLimitTick(n: nat): (t: Tick)
    ensures t == DivideByZero <==> n == 0
    ensures t == NonPositiveInterval <==> n > Minute
    ensures t.Ticks? ==> 0 < t.interval && n * t.interval <= Minute < n * (t.interval + 1)
  {
    if n == 0 then DivideByZero
    else
      var tick := Minute / n;
      if tick <= 0 then NonPositiveInterval else Ticks(tick)
  }

  lemma MulMonotone(a: int, b: int, d: int)
    requires a <= b && 0 <= d
    ensures a * d <= b * d
  {
  }

  /** The instants, counted from the start of the batch, at which the ticker releases each event. */
  function ReleaseTimes(n: nat, interval: int): (ts: seq<int>)
    ensures |ts| == n
  {
    seq(n, k requires 0 <= k < n => (k + 1) * interval)
  }

  /** A ticking batch is released in order, one event per tick, the last within the minute. */
  lemma ReleasedWithinMinute(n: nat)
    requires RateLimitTick(n).Ticks?
    ensures var d := RateLimitTick(n).interval;
      var ts := ReleaseTimes(n, d);
      && (forall k :: 0 <= k < n ==> 0 < ts[k] <= Minute)
      && (forall k :: 0 < k < n ==> ts[k] == ts[k - 1] + d)
  {
    var d := RateLimitTick(n).interval;
    var ts := ReleaseTimes(n, d);
    forall k | 0 <= k < n
      ensures 0 < ts[k] <= Minute
    {
      MulMonotone(k + 1, n, d);
    }
    forall k | 0 < k < n
      ensures ts[k] == ts[k - 1] + d
    {
      assert (k + 1) * d == k * d + d;
    }
  }

  /**
   * The empty batch: the feed publishes a batch with no events when the
   * first page of a cycle is throttled, which can happen on the very first
   * request, and `rateLimit` then divides by zero.
   */
  lemma ThrottledFirstPagePanics(reply: (nat, nat, int) -> FetchResult, clock: (nat, nat) -> int, cancelAt: nat,
                                 polls: nat -> Feed.PollResult)
    requires Feed.PollsOf(polls, reply, clock)
    requires reply(0, 0, 1).RateLimited?
    ensures var run := Feed.Served(reply, clock, cancelAt);
      |run.published| >= 1 && run.published[0] == [] && RateLimitTick(|run.published[0]|) == DivideByZero
  {
    Feed.PollFromStops(Feed.CycleReply(reply, 0), 0, 1);
    assert polls(0) == Feed.CyclePoll(reply, clock, 0);
    Feed.ServePublishesEachCycle(reply, clock, cancelAt, polls);
  }

  /**
   * `rateLimit`, corrected: an empty batch needs no ticker, and a batch
   * larger than the minute has nanoseconds ticks at the shortest interval.
   */
  function RateLimitTickGuarded(n: nat): (t: Option<int>)
    ensures t.None? <==> n == 0
    ensures t.Some? ==> t.value >= 1
    ensures t.Some? && n <= Minute ==> RateLimitTick(n) == Ticks(t.value)
  {
    if n == 0 then None
    else
      var tick := Minute / n;
      Some(if tick < 1 then 1 else tick)
  }

  /** The corrected pacing never panics, and releases every batch the feed can produce within the minute. */
  lemma GuardedTickWithinMinute(n: nat)
    requires 0 < n <= Feed.MaximumEventsPerPoll
    ensures var t := RateLimitTickGuarded(n);
      t.Some? && n * t.value <= Minute && t.value >= Minute / Feed.MaximumEventsPerPoll
  {
    var t := RateLimitTickGuarded(n).value;
    assert RateLimitTick(n) == Ticks(t);
    assert Minute / Feed.MaximumEventsPerPoll == 200_000_000;
    assert t * n > Minute - n;
  }
}
