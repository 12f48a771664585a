/** The HTTP exchange as the client sees it. The remote service is an oracle
    that maps each URL to the reply it gives; `requests.get` becomes a lookup
    and `raise_for_status` a check of the status code. */
module Transport {
  import opened Wrappers
  import opened Endpoints

  /** A reply: the HTTP status, the decoded body (`r.json()`, or `r.text` for
      an HTML page) and the URL of the `next` link relation, if the reply has one. */
  datatype Response<B> = Response(status: int, body: B, next: Option<Url>)

  /** What the remote service answers at the time of a call. A URL missing
      from the map is one the request cannot reach (requests raises). */
  type Server<B> = map<Url, Response<B>>

  /** Why a call raised instead of returning. */
  datatype Error =
    | HttpError(status: int, url: Url)   // raise_for_status on a 4xx or 5xx reply
    | ConnectionError(url: Url)          // the request itself failed
    | NoTleMatch                         // `matches.group` on a failed regex search

  /** The statuses `raise_for_status` raises for: client and server errors. */
  predicate IsHttpError(status: int)
  {
    400 <= status < 600
  }

  /** `requests.get(url=url)` with nothing else: a reply whatever its status. */
  function Request<B>(server: Server<B>, url: Url): (r: Result<Response<B>, Error>)
    ensures r.Success? <==> url in server
    ensures r.Success? ==> r.value == server[url]
    ensures r.Failure? ==> r.error == ConnectionError(url)
  {
    if url in server then Success(server[url]) else Failure(ConnectionError(url))
  }

  /** `requests.get(url=url)` followed by `r.raise_for_status()`. */
  function Get<B>(server: Server<B>, url: Url): (r: Result<Response<B>, Error>)
    ensures r.Success? <==> url in server && !IsHttpError(server[url].status)
    ensures r.Success? ==> r.value == server[url]
    ensures url in server && IsHttpError(server[url].status) ==>
              r == Failure(HttpError(server[url].status, url))
    ensures url !in server ==> r == Failure(ConnectionError(url))
  {
    match Request(server, url)
    case Failure(e) => Failure(e)
    case Success(resp) =>
      if IsHttpError(resp.status) then Failure(HttpError(resp.status, url)) else Success(resp)
  }
}
