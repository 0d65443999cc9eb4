/** The parts of the go-github and net/http types that the feed and the load generator read. */
module Github {
  /** `http.Header`, with keys already in canonical MIME form. */
  type Header = map<string, seq<string>>

  /** `Header.Get`: the first value stored under `key`, or "" when there is none. */
  function HeaderGet(h: Header, key: string): string {
    if key in h && |h[key]| > 0 then h[key][0] else ""
  }

  /** A commit of a push payload; `authorEmail` is "" when the author or the email is absent. */
  datatype Commit = Commit(authorEmail: string)

  /**
   * A public event. `payloadParses` says whether `ParsePayload` succeeds;
   * `commits` are the commits of the payload read as a push payload.
   */
  datatype Event = Event(actorLogin: string, eventType: string, payloadParses: bool, commits: seq<Commit>)

  /** `github.Response`: the HTTP headers and the `NextPage` cursor (0 when there is no next page). */
  datatype Response = Response(header: Header, nextPage: int)

  /**
   * An error other than a rate-limit error. `ContextDone` is what `ctx.Err()`
   * reports once the context is done, whether cancelled or past its deadline.
   */
  datatype Error = ContextDone | RequestFailed(reason: string)

  /**
   * What `Activity.ListEvents` returns for one page: the batch and the
   * response, a `*github.RateLimitError` with the reset time of the rate
   * (nanoseconds since the epoch), or any other error.
   */
  datatype FetchResult =
    | Fetched(events: seq<Event>, response: Response)
    | RateLimited(reset: int)
    | Failed(err: Error)
}
