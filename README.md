# SatNOGS API client — a verified model of its fetch core

This project models the deterministic core of the SatNOGS API client. The client is a thin Python library. It reads observations, ground stations, satellites, telemetry, transmitters and TLEs from the SatNOGS Network and DB services. It also posts telemetry frames.

The remote service is modelled as an oracle, `Transport.Server`: a map from each URL to the reply it gives. A reply has a status code, a decoded body and an optional `next` link. A URL missing from the map is a request that cannot be made. With this oracle, every function of the client becomes a Dafny function or method whose result is tied to the oracle:

- **Pager** (`Pagination`). `get_paginated_endpoint` is a `while` loop with an accumulator.
  - It is proved equal to `Walk`, the list of pages the loop fetches.
  - `Walk` is characterised by three lemmas, soundness, completeness and abort: the pages are linked by their `next` links, each was requested while under the soft cap, and the loop condition fails after the last one.
- **Batch fetchers** (`Batch`). `fetch_observation_data` and `fetch_ground_station_data` are `for` loops.
  - Each returns the bodies it fetched, and a ghost log of the requests it issued.
  - The first failing request aborts the call.
  - The sentinel station id `None` is never requested.
- **Client-side NORAD filter** (`Observations`). It is order-preserving, idempotent and distributes over pages.
- **URLs** (`Endpoints`). The per-id builders (observation, station, TLE page, satellite) are proved injective: a URL determines its environment and its id. Under one base, the telemetry and transmitter URLs determine the NORAD id. The observation query URL determines the environment and the NORAD id. The catalogue URL and the telemetry POST target take no id; their contracts give only their shape. NORAD ids are rendered by `Decimal.IntToText`, which is Python's `str(int)`, and a round trip through its parser is proved.
- **Single-item and list endpoints** (`Resources`).
- **TLE extraction** (`Tle`). The search of `<pre>1 (.*)<br>2 (.*)</pre>` is modelled as Python's `re.search` runs it: leftmost start, greedy groups, `.` not matching a newline. A match is proved to be a block of the page. On a well-formed page the search is proved to find the block's two lines.
- **Telemetry POST classification** (`TelemetryPost`).

In these places the model follows the code as written:

- `fetch_observation_data` aborts on the first failing id instead of skipping it.
- The TLE page's HTTP status is never checked.
- A TLE page without a match raises in the source. Here that is the error `NoTleMatch`.
- `post_telemetry` prints and returns `None`. Here the printed status and text become the `Rejected` outcome.

## Model

| member | source | states |
|---|---|---|
| `Decimal.IntToText` | satnogs_api_client/satnogs_api_client.py:38-39 | the text of a NORAD id starts with '-' exactly when it is negative; the rest is decimal digits |
| `Decimal.IntRoundTrip` | satnogs_api_client/satnogs_api_client.py:38-39 | reading back the text of any integer gives that integer |
| `Decimal.IntToTextInjective` | satnogs_api_client/satnogs_api_client.py:38-39 | distinct NORAD ids are written differently in URLs |
| `Endpoints.NetworkBase` | satnogs_api_client/satnogs_api_client.py:7-8 | the production Network base is chosen exactly when `prod` is true, the development base exactly when it is false |
| `Endpoints.NetworkBaseDistinguishes` | satnogs_api_client/satnogs_api_client.py:7-8 | no URL under one Network base is also a URL under the other base |
| `Endpoints.ObservationsQueryUrl` | satnogs_api_client/satnogs_api_client.py:35-41 | the query URL lies under the chosen base's observation-list path with the NORAD filter first |
| `Endpoints.ObservationsQueryUrlInjective` | satnogs_api_client/satnogs_api_client.py:35-41 | the query URL determines the environment and the NORAD id, whatever the timestamps |
| `Endpoints.ObservationUrl` | satnogs_api_client/satnogs_api_client.py:58-60 | the per-observation URL lies under `<base>/api/observations/` and ends in '/' |
| `Endpoints.ObservationUrlInjective` | satnogs_api_client/satnogs_api_client.py:58-60 | two per-observation URLs are equal exactly when environment and id are |
| `Endpoints.StationUrl` | satnogs_api_client/satnogs_api_client.py:76-78 | the station URL lies under `<base>/api/stations/` and ends in '/' |
| `Endpoints.StationUrlInjective` | satnogs_api_client/satnogs_api_client.py:76-78 | two station URLs are equal exactly when environment and id are |
| `Endpoints.NetworkUrlInjective` | satnogs_api_client/satnogs_api_client.py:58-59 | any Network URL made of base, fixed path, id and fixed tail determines environment and id |
| `Endpoints.SatelliteUrl` | satnogs_api_client/satnogs_api_client.py:87-88 | the satellite URL lies under the production DB base's `/api/satellites/` and ends in '/' |
| `Endpoints.SatelliteUrlInjective` | satnogs_api_client/satnogs_api_client.py:87-88 | two satellite URLs are equal exactly when the NORAD ids are |
| `Endpoints.TlePageUrl` | satnogs_api_client/satnogs_api_client.py:95-97 | the TLE page lies under `<base>/observations/` for the base `prod` selects, so outside `/api/`, and ends in '/' |
| `Endpoints.TlePageUrlInjective` | satnogs_api_client/satnogs_api_client.py:95-97 | two TLE page URLs are equal exactly when environment and id are |
| `Endpoints.TelemetryUrl` | satnogs_api_client/satnogs_api_client.py:113-115 | the telemetry list URL lies under the caller's base with the satellite query |
| `Endpoints.TelemetryUrlInjective` | satnogs_api_client/satnogs_api_client.py:113-115 | under one base, the telemetry URL determines the NORAD id |
| `Endpoints.TransmittersUrl` | satnogs_api_client/satnogs_api_client.py:125-127 | the transmitter list URL lies under the caller's base with the NORAD query |
| `Endpoints.TransmittersUrlInjective` | satnogs_api_client/satnogs_api_client.py:125-127 | under one base, the transmitter URL determines the NORAD id |
| `Endpoints.SatellitesUrl` | satnogs_api_client/satnogs_api_client.py:134-135 | the catalogue URL is the caller's base followed by the 16-character path `/api/satellites/` |
| `Endpoints.TelemetryPostUrl` | satnogs_api_client/satnogs_api_client.py:155 | the POST target is the caller's base followed by the 15-character path `/api/telemetry/` |
| `Transport.IsHttpError` | satnogs_api_client/satnogs_api_client.py:15 | defines the statuses `raise_for_status` raises for: 400 to 599, client and server errors |
| `Transport.Request` | satnogs_api_client/satnogs_api_client.py:98 | a bare GET returns the reply whatever its status, and fails only when the URL cannot be reached |
| `Transport.Get` | satnogs_api_client/satnogs_api_client.py:14-15 | a GET followed by `raise_for_status` succeeds exactly on a reachable URL whose status is not 4xx/5xx, and otherwise fails with that status |
| `Pagination.Uncapped` | satnogs_api_client/satnogs_api_client.py:19 | defines `not max_entries`: no cap (`None`) or a cap of 0 |
| `Pagination.WantsMore` | satnogs_api_client/satnogs_api_client.py:19 | defines the cap half of the loop condition: uncapped, or fewer items held than the cap |
| `Pagination.Rest` | satnogs_api_client/satnogs_api_client.py:19-25 | the reference definition of the loop: the pages fetched after a page by following `next` links while the loop condition holds, or the error of the request that raised |
| `Pagination.Walk` | satnogs_api_client/satnogs_api_client.py:13-27 | the reference definition of the whole call: the first page followed by `Rest`, or the error of the first request |
| `Pagination.GetPaginatedEndpoint` | satnogs_api_client/satnogs_api_client.py:13-27 | the loop returns exactly the items of the pages `Walk` fetches, in order, or the error of the request that raised |
| `Pagination.ItemsAppend` | satnogs_api_client/satnogs_api_client.py:25 | the items of two runs of pages are the items of the first run followed by those of the second |
| `Pagination.RestSound` | satnogs_api_client/satnogs_api_client.py:19-25 | each fetched page answers the previous page's `next` link; each was requested while under the cap; after the last page the loop condition is false |
| `Pagination.RestComplete` | satnogs_api_client/satnogs_api_client.py:19-25 | any run of pages meeting those three conditions is exactly what the loop fetches |
| `Pagination.RestAbort` | satnogs_api_client/satnogs_api_client.py:22-23 | if the loop would continue after such a run and the next request raises, the call fails with that error |
| `Pagination.RestFuel` | satnogs_api_client/satnogs_api_client.py:19-25 | the termination bound does not affect the result |
| `Pagination.FirstPageAlwaysFetched` | satnogs_api_client/satnogs_api_client.py:14-17 | the first page is fetched whatever the cap; if it raises, the call fails with that error and returns no list |
| `Pagination.WalkSound` | satnogs_api_client/satnogs_api_client.py:13-27 | a successful call is the first page followed by a linked, under-cap run of pages; its result is all their items, none truncated |
| `Pagination.UncappedStopsAtFirstMissingLink` | satnogs_api_client/satnogs_api_client.py:19 | without a cap, fetching stops exactly at the first reply with no `next` link; every earlier page has one |
| `Pagination.ZeroCapIsNoCap` | satnogs_api_client/satnogs_api_client.py:19 | a cap of 0 behaves exactly as no cap (`not max_entries`): the loop ends under one exactly when it ends under the other, with the same pages |
| `Pagination.CapOvershoot` | satnogs_api_client/satnogs_api_client.py:19-25 | with a cap m > 0, every page before the last left fewer than m items, so only the last page can push the total over m; the loop stops only at m or at a missing link |
| `Pagination.LaterPageFailureAborts` | satnogs_api_client/satnogs_api_client.py:22-23 | a failing request for a later page aborts the whole call with its error, and no partial list is returned |
| `Pagination.NonEmptyPagesEnd` | satnogs_api_client/satnogs_api_client.py:19-25 | with a positive cap m and no empty page, the loop ends within m further requests, whatever the links |
| `Pagination.CappedCycleReturns` | satnogs_api_client/satnogs_api_client.py:19-25 | a page linking to itself, fetched with a cap of 1, ends after the first request and returns its one item |
| `Pagination.UncappedCycleNeverEnds` | satnogs_api_client/satnogs_api_client.py:19-25 | the same self-linked page without a cap is requested forever: no bound covers the loop |
| `Batch.GetAll` | satnogs_api_client/satnogs_api_client.py:57-62 | the reference definition of both batch loops: the bodies of the replies to a list of URLs requested in order, or the error of the first request that raises |
| `Batch.Issued` | satnogs_api_client/satnogs_api_client.py:57-62 | the reference definition of the requests a batch loop issues: all of them, or those up to and including the first that raises |
| `Batch.GetAllSuccess` | satnogs_api_client/satnogs_api_client.py:57-63 | a batch succeeds exactly when every request does; then there is one body per URL, entry i from URL i, and every URL was requested |
| `Batch.FirstFailureAborts` | satnogs_api_client/satnogs_api_client.py:59-61 | the first failing request decides the call's error, and no later request is issued |
| `Batch.FailurePersists` | satnogs_api_client/satnogs_api_client.py:61 | once a prefix of the batch has failed, nothing after it changes the outcome or the request log |
| `Batch.IssuedIsPrefix` | satnogs_api_client/satnogs_api_client.py:57-62 | the requests issued are a prefix of the planned ones, in order |
| `Batch.FetchObservationData` | satnogs_api_client/satnogs_api_client.py:53-64 | one request per id, in input order; any failure aborts; on success entry i is the reply to id i and the output is as long as the input |
| `Batch.IsSentinel` | satnogs_api_client/satnogs_api_client.py:72 | defines the test for a deleted station: the id's text is 'None' |
| `Batch.Unskipped` | satnogs_api_client/satnogs_api_client.py:70-74 | defines the ids the loop reaches past its `continue`: the input without the sentinel ids, in order |
| `Batch.UnskippedIsFilter` | satnogs_api_client/satnogs_api_client.py:70-74 | the ids that are fetched are exactly the non-sentinel ids of the input |
| `Batch.StationUrlsMembership` | satnogs_api_client/satnogs_api_client.py:70-78 | a station URL is planned exactly when it is built from a non-sentinel id of the input |
| `Batch.StationUrlsPrefix` | satnogs_api_client/satnogs_api_client.py:70-79 | the requests planned for a prefix of the ids are a prefix of those planned for all ids |
| `Batch.SentinelNeverPlanned` | satnogs_api_client/satnogs_api_client.py:71-74 | the URL for the id 'None' is never among the planned requests |
| `Batch.StationBatchShape` | satnogs_api_client/satnogs_api_client.py:67-82 | the sentinel is never requested; on success there is one entry per non-sentinel id, in input order |
| `Batch.FetchGroundStationData` | satnogs_api_client/satnogs_api_client.py:67-82 | the loop issues exactly the planned requests up to the first failure, never for 'None', and returns one reply per non-sentinel id in order |
| `Observations.FilterByNorad` | satnogs_api_client/satnogs_api_client.py:47-48 | the kept list is never longer than the fetched one |
| `Observations.FilterMembership` | satnogs_api_client/satnogs_api_client.py:47-48 | an observation is kept exactly when it was fetched and carries the requested NORAD id |
| `Observations.FilterPreservesOrder` | satnogs_api_client/satnogs_api_client.py:47-48 | the kept observations keep their original relative order |
| `Observations.FilterCounts` | satnogs_api_client/satnogs_api_client.py:47-48 | every copy of a matching observation is kept and every copy of any other is dropped |
| `Observations.FilterIdempotent` | satnogs_api_client/satnogs_api_client.py:47-48 | filtering a second time changes nothing |
| `Observations.FilterConcat` | satnogs_api_client/satnogs_api_client.py:43-48 | filtering the concatenated pages is filtering each page and concatenating |
| `Observations.FetchObservationDataFromId` | satnogs_api_client/satnogs_api_client.py:30-50 | the call fails exactly when the uncapped walk of the query URL fails; on success it returns the filtered items of every page, each carrying the requested id |
| `Observations.ThreePageWalk` | satnogs_api_client/satnogs_api_client.py:13-27 | three pages of 2, 2 and 1 items, the last without a `next` link, give the 5 items in order |
| `Observations.ThreePageFilter` | satnogs_api_client/satnogs_api_client.py:47-48 | filtering those 5 for an id carried by 3 of them yields exactly those 3, in order |
| `Resources.FetchSatelliteData` | satnogs_api_client/satnogs_api_client.py:85-91 | the body is returned exactly when the production DB satellite URL answers without a 4xx/5xx status; otherwise the call fails with that status |
| `Resources.FetchTelemetry` | satnogs_api_client/satnogs_api_client.py:110-119 | the result is every page of the telemetry URL, with no cap and no filter |
| `Resources.FetchTransmitters` | satnogs_api_client/satnogs_api_client.py:122-130 | the result is every page of the transmitter URL, with no cap and no filter |
| `Resources.FetchSatellites` | satnogs_api_client/satnogs_api_client.py:133-138 | the result is the catalogue walk with the caller's soft cap |
| `Tle.TleLines` | satnogs_api_client/satnogs_api_client.py:101-107 | a match gives exactly two lines, '1 ' + group 1 and '2 ' + group 2, and stripping the prefixes returns the groups; no match is an error |
| `Tle.SearchFrom` | satnogs_api_client/satnogs_api_client.py:101-102 | defines the leftmost-start search: the first position at or after the start where the pattern matches, with its two groups, or no match |
| `Tle.TleSearch` | satnogs_api_client/satnogs_api_client.py:101-102 | defines `re.search` of the TLE pattern over the whole page: the search from position 0 |
| `Tle.LineEnd` | satnogs_api_client/satnogs_api_client.py:101-102 | the end of the line holding a position: no newline before it, and a newline or the end of the text at it |
| `Tle.LastClose` | satnogs_api_client/satnogs_api_client.py:101-102 | the greedy second group: where a `</pre>` found on the line starts |
| `Tle.LastBreak` | satnogs_api_client/satnogs_api_client.py:101-102 | the greedy first group: a `<br>2 ` on the line followed by a `</pre>` on the same line |
| `Tle.MatchAt` | satnogs_api_client/satnogs_api_client.py:101-102 | a match at a position starts with `<pre>1 ` there and ends with `</pre>` before the end of that line |
| `Tle.SearchFromSound` | satnogs_api_client/satnogs_api_client.py:101-102 | a match of the leftmost search is a whole TLE block of the page, and neither group holds a newline |
| `Tle.FetchTleOfObservation` | satnogs_api_client/satnogs_api_client.py:94-107 | an unreachable page fails with a connection error; otherwise the lines are those the search over the page's text gives |
| `Tle.FetchTleSound` | satnogs_api_client/satnogs_api_client.py:94-107 | on success there are two lines without a newline, and put back between `<pre>`, `<br>` and `</pre>` they occur in the page as one block |
| `Tle.TleSearchFindsBlock` | satnogs_api_client/satnogs_api_client.py:101-102 | on a well-formed page (no earlier `<pre>1 `, no later `<br>2 ` inside the block, no later `</pre>` on its line, no newline in the groups) the search returns exactly the block's two groups |
| `Tle.FetchTleOfWellFormedPage` | satnogs_api_client/satnogs_api_client.py:94-107 | a reachable well-formed page gives exactly `['1 ' + g1, '2 ' + g2]`, whatever its status |
| `Tle.TleExamplePage` | satnogs_api_client/satnogs_api_client.py:94-107 | the page `<pre>1 AAAA<br>2 BBBB</pre>` gives the lines `1 AAAA` and `2 BBBB` |
| `Tle.TleMissingBlockFails` | satnogs_api_client/satnogs_api_client.py:101-104 | a reachable page with no `<pre>1 ` in it fails with `NoTleMatch`, where the source raises |
| `Tle.TleIgnoresStatus` | satnogs_api_client/satnogs_api_client.py:98-99 | the reply's status never changes the result |
| `TelemetryPost.TelemetryPayload` | satnogs_api_client/satnogs_api_client.py:148-153 | `lat` goes to `latitude` and `lon` to `longitude`, although `lon` comes first in the signature; the other fields are passed through |
| `TelemetryPost.Classify` | satnogs_api_client/satnogs_api_client.py:158-159 | status 201 is accepted; every other status, other 2xx included, is rejected with its status and text, and nothing is raised |
| `TelemetryPost.PostTelemetry` | satnogs_api_client/satnogs_api_client.py:141-159 | the form goes to `<base>/api/telemetry/`, and the outcome is accepted exactly when the reply is 201 |

## Left out

- HTTP transport (`requests.get`, `requests.post`): replaced by a URL-to-reply map for GET and a function parameter for POST. Timeouts, retries and concurrency do not exist in the source.
- Link-header parsing: each reply carries its `next` URL directly.
- JSON decoding: each reply carries its decoded body. A list page whose body is not a JSON array is not modelled, because bodies are typed `seq<T>`.
- Regular expressions in general: only the one pattern of `fetch_tle_of_observation` is modelled, as `re.search` runs it. Its completeness (`Tle.TleSearchFindsBlock`) is proved for well-formed pages only; on other pages the result is still computed by the model, and `Tle.SearchFromSound` holds.
- `datetime.isoformat()`: the timestamps are taken as already formatted text.
- `print` diagnostics (lines 73 and 159): the rejected outcome of `TelemetryPost.Classify` carries what line 159 prints.
- Package versioning and re-exports (`__init__.py`): no logic.
- `Pagination.GetPaginatedEndpoint`: the source loops forever when the loop condition never fails: with no cap and an endless chain of `next` links, or with a cap that a cycle of empty pages never reaches. The model requires that the loop ends within a bound (`EndsFrom`), which follows the loop condition: a capped walk that reaches its cap ends, whatever links follow (`Pagination.CappedCycleReturns`, `Pagination.NonEmptyPagesEnd`). `Pagination.RestFuel` shows the bound does not affect the result.
- `Pagination.GetPaginatedEndpoint`: the list of requested URLs is not returned. The pages of `Walk` identify them, because each page answers the previous page's `next` link.
- Ids of observations and ground stations are modelled by the text `str(id)` gives. The sentinel test `str(id) == 'None'` therefore covers both Python's `None` and the string `'None'`. The URL is built from the same text.
- `Observations.FilterByNorad`: an observation without a `norad_cat_id` key (a `KeyError` in the source) is not modelled, because every modelled observation carries the field. NORAD ids are modelled as integers, so Python's `==` across numeric types (a float `25544.0` or a boolean equal to an int) is not modelled either.
- `TelemetryPost.PostTelemetry`: an exception from `requests.post` itself (no connection) is not modelled, because the POST parameter is total.
- `Transport.Error`: the HTTP error carries the status and URL but not the reply body.
