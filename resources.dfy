/** The remaining resource fetchers: one satellite by NORAD id (a single GET),
    and the three list endpoints that go through the pager unfiltered. */
module Resources {
  import opened Wrappers
  import opened Endpoints
  import opened Transport
  import opened Pagination

  /** `fetch_satellite_data`: one GET against the production DB service; a
      4xx or 5xx reply raises instead of returning its body. */
  function FetchSatelliteData<B>(server: Server<B>, noradCatId: int): (r: Result<B, Error>)
    ensures r.Success? <==> SatelliteUrl(noradCatId) in server && !IsHttpError(server[SatelliteUrl(noradCatId)].status)
    ensures r.Success? ==> r.value == server[SatelliteUrl(noradCatId)].body
    ensures r.Failure? && SatelliteUrl(noradCatId) in server ==>
              r.error == HttpError(server[SatelliteUrl(noradCatId)].status, SatelliteUrl(noradCatId))
  {
    match Get(server, SatelliteUrl(noradCatId))
    case Failure(e) => Failure(e)
    case Success(resp) => Success(resp.body)
  }

  /** `fetch_telemetry`: every page of the satellite's telemetry, no cap, no filter. */
  method FetchTelemetry<T>(server: Server<seq<T>>, noradId: int, base: string, ghost n: nat)
    returns (r: Result<seq<T>, Error>)
    requires EndsFrom(server, TelemetryUrl(base, noradId), None, n)
    ensures r == ItemsOf(Walk(server, TelemetryUrl(base, noradId), None, n))
  {
    r := GetPaginatedEndpoint(server, TelemetryUrl(base, noradId), n);
  }

  /** `fetch_transmitters`: every page of the satellite's transmitters, no cap, no filter. */
  method FetchTransmitters<T>(server: Server<seq<T>>, noradId: int, base: string, ghost n: nat)
    returns (r: Result<seq<T>, Error>)
    requires EndsFrom(server, TransmittersUrl(base, noradId), None, n)
    ensures r == ItemsOf(Walk(server, TransmittersUrl(base, noradId), None, n))
  {
    r := GetPaginatedEndpoint(server, TransmittersUrl(base, noradId), n);
  }

  /** `fetch_satellites`: the satellite catalogue, with the caller's soft cap
      passed straight to the pager. */
  method FetchSatellites<T>(server: Server<seq<T>>, maxEntries: Option<int>, base: string, ghost n: nat)
    returns (r: Result<seq<T>, Error>)
    requires EndsFrom(server, SatellitesUrl(base), maxEntries, n)
    ensures r == ItemsOf(Walk(server, SatellitesUrl(base), maxEntries, n))
  {
    r := GetPaginatedEndpoint(server, SatellitesUrl(base), n, maxEntries);
  }
}
