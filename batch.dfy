/** `fetch_observation_data` and `fetch_ground_station_data`: one GET per id,
    strictly in order, each reply's JSON appended to a list; the first
    request that raises aborts the call. Ids are the text `str(id)` gives. */
module Batch {
  import opened Wrappers
  import opened Endpoints
  import opened Transport

  /** The bodies of the replies to `urls`, requested one after the other, or
      the error of the first request that raises. */
  function GetAll<B>(server: Server<B>, urls: seq<Url>): Result<seq<B>, Error>
    decreases |urls|
  {
    if urls == [] then Success([])
    else match GetAll(server, urls[..|urls| - 1])
      case Failure(e) => Failure(e)
      case Success(vs) =>
        match Get(server, urls[|urls| - 1])
        case Failure(e) => Failure(e)
        case Success(resp) => Success(vs + [resp.body])
  }

  /** The requests actually issued for `urls`: all of them, or those up to and
      including the first one that raises. */
  function Issued<B>(server: Server<B>, urls: seq<Url>): seq<Url>
    decreases |urls|
  {
    if urls == [] then []
    else if GetAll(server, urls[..|urls| - 1]).Failure? then Issued(server, urls[..|urls| - 1])
    else urls
  }

  // ----- what GetAll and Issued are -----

  /** GetAll succeeds exactly when every request succeeds; then it holds one
      body per URL, entry `i` from URL `i`. */
  lemma {:induction false} GetAllSuccess<B>(server: Server<B>, urls: seq<Url>)
    ensures GetAll(server, urls).Success? <==> forall i :: 0 <= i < |urls| ==> Get(server, urls[i]).Success?
    ensures GetAll(server, urls).Success? ==>
              && |GetAll(server, urls).value| == |urls|
              && (forall i :: 0 <= i < |urls| ==>
                    urls[i] in server && GetAll(server, urls).value[i] == server[urls[i]].body)
              && Issued(server, urls) == urls
    decreases |urls|
  {
    if urls != [] {
      var init := urls[..|urls| - 1];
      GetAllSuccess(server, init);
      assert forall i :: 0 <= i < |init| ==> init[i] == urls[i];
    }
  }

  /** The first request that raises decides the outcome: the call fails with
      its error, and no request after it is issued. */
  lemma {:induction false} FirstFailureAborts<B>(server: Server<B>, urls: seq<Url>, k: nat)
    requires k < |urls| && Get(server, urls[k]).Failure?
    requires forall j :: 0 <= j < k ==> Get(server, urls[j]).Success?
    ensures GetAll(server, urls) == Failure(Get(server, urls[k]).error)
    ensures Issued(server, urls) == urls[..k + 1]
    decreases |urls|
  {
    var init := urls[..|urls| - 1];
    if k == |urls| - 1 {
      assert forall i :: 0 <= i < |init| ==> init[i] == urls[i];
      GetAllSuccess(server, init);
      assert urls[..k + 1] == urls;
    } else {
      assert init[k] == urls[k];
      FirstFailureAborts(server, init, k);
      assert init[..k + 1] == urls[..k + 1];
    }
  }

  /** Once a prefix of the requests fails, the whole batch fails the same way
      and issues nothing more. */
  lemma {:induction false} FailurePersists<B>(server: Server<B>, urls: seq<Url>, k: nat)
    requires k <= |urls| && GetAll(server, urls[..k]).Failure?
    ensures GetAll(server, urls) == GetAll(server, urls[..k])
    ensures Issued(server, urls) == Issued(server, urls[..k])
    decreases |urls| - k
  {
    if k == |urls| {
      assert urls[..k] == urls;
    } else {
      var init := urls[..|urls| - 1];
      assert init[..k] == urls[..k];
      FailurePersists(server, init, k);
    }
  }

  /** The issued requests are a prefix of the planned ones. */
  lemma {:induction false} IssuedIsPrefix<B>(server: Server<B>, urls: seq<Url>)
    ensures |Issued(server, urls)| <= |urls| && Issued(server, urls) == urls[..|Issued(server, urls)|]
    decreases |urls|
  {
    if urls != [] && GetAll(server, urls[..|urls| - 1]).Failure? {
      var init := urls[..|urls| - 1];
      IssuedIsPrefix(server, init);
      var m := |Issued(server, init)|;
      assert init[..m] == urls[..m];
    }
  }

  lemma GetAllStep<B>(server: Server<B>, urls: seq<Url>, u: Url, vs: seq<B>)
    requires GetAll(server, urls) == Success(vs)
    ensures Get(server, u).Failure? ==> GetAll(server, urls + [u]) == Failure(Get(server, u).error)
    ensures Get(server, u).Success? ==> GetAll(server, urls + [u]) == Success(vs + [Get(server, u).value.body])
    ensures Issued(server, urls + [u]) == urls + [u]
  {
    assert (urls + [u])[..|urls|] == urls;
  }

  // ----- fetch_observation_data -----

  /** The requests the loop plans: one observation URL per id. */
  function ObservationUrls(prod: bool, ids: seq<string>): seq<Url>
  {
    seq(|ids|, i requires 0 <= i < |ids| => ObservationUrl(prod, ids[i]))
  }

  /** One request per id, in input order; the first that raises aborts. On
      success there is one entry per id, entry `i` the reply to id `i`. */
  method FetchObservationData<B>(server: Server<B>, observationIds: seq<string>, prod: bool := true)
    returns (r: Result<seq<B>, Error>, ghost issued: seq<Url>)
    ensures r == GetAll(server, ObservationUrls(prod, observationIds))
    ensures issued == Issued(server, ObservationUrls(prod, observationIds))
    ensures r.Success? ==>
              && issued == ObservationUrls(prod, observationIds)
              && |r.value| == |observationIds|
              && forall i :: 0 <= i < |observationIds| ==>
                   && ObservationUrl(prod, observationIds[i]) in server
                   && r.value[i] == server[ObservationUrl(prod, observationIds[i])].body
  {
    ghost var urls := ObservationUrls(prod, observationIds);
    var observations := [];
    issued := [];
    for i := 0 to |observationIds|
      invariant GetAll(server, urls[..i]) == Success(observations)
      invariant issued == urls[..i]
    {
      var url := ObservationUrl(prod, observationIds[i]);
      assert urls[..i + 1] == urls[..i] + [url];
      GetAllStep(server, urls[..i], url, observations);
      var resp := Get(server, url);
      issued := issued + [url];
      if resp.Failure? {
        FailurePersists(server, urls, i + 1);
        return Failure(resp.error), issued;
      }
      observations := observations + [resp.value.body];
    }
    assert urls[..|observationIds|] == urls;
    r := Success(observations);
    GetAllSuccess(server, urls);
    assert |urls| == |observationIds|;
    assert forall i :: 0 <= i < |observationIds| ==> urls[i] == ObservationUrl(prod, observationIds[i]);
  }

  // ----- fetch_ground_station_data -----

  /** `str(id) == 'None'`: the id of a deleted ground station. */
  predicate IsSentinel(stationId: string)
  {
    stationId == "None"
  }

  /** The ids the loop requests: the input minus every sentinel, in order. */
  function Unskipped(ids: seq<string>): seq<string>
    decreases |ids|
  {
    if ids == [] then []
    else Unskipped(ids[..|ids| - 1]) + (if IsSentinel(ids[|ids| - 1]) then [] else [ids[|ids| - 1]])
  }

  /** The requests the loop plans: one station URL per non-sentinel id. */
  function StationUrls(prod: bool, ids: seq<string>): seq<Url>
  {
    var kept := Unskipped(ids);
    seq(|kept|, i requires 0 <= i < |kept| => StationUrl(prod, kept[i]))
  }

  lemma StationUrlsShape(prod: bool, ids: seq<string>)
    ensures |StationUrls(prod, ids)| == |Unskipped(ids)|
    ensures forall i :: 0 <= i < |Unskipped(ids)| ==> StationUrls(prod, ids)[i] == StationUrl(prod, Unskipped(ids)[i])
  {
  }

  /** Skipping keeps exactly the non-sentinel ids, in their input order. */
  lemma {:induction false} UnskippedIsFilter(ids: seq<string>)
    ensures forall x :: x in Unskipped(ids) <==> x in ids && !IsSentinel(x)
    ensures |Unskipped(ids)| <= |ids|
    decreases |ids|
  {
    if ids != [] {
      var init := ids[..|ids| - 1];
      UnskippedIsFilter(init);
      assert ids == init + [ids[|ids| - 1]];
    }
  }

  lemma UnskippedStep(ids: seq<string>, i: nat)
    requires i < |ids|
    ensures Unskipped(ids[..i + 1]) ==
              Unskipped(ids[..i]) + (if IsSentinel(ids[i]) then [] else [ids[i]])
  {
    assert ids[..i + 1][..i] == ids[..i];
  }

  /** The requests planned for a prefix of the ids are a prefix of those
      planned for all of them. */
  lemma {:induction false} StationUrlsPrefix(prod: bool, ids: seq<string>, k: nat)
    requires k <= |ids|
    ensures |StationUrls(prod, ids[..k])| <= |StationUrls(prod, ids)|
    ensures StationUrls(prod, ids[..k]) == StationUrls(prod, ids)[..|StationUrls(prod, ids[..k])|]
    decreases |ids| - k
  {
    if k == |ids| {
      assert ids[..k] == ids;
    } else {
      StationUrlsPrefix(prod, ids, k + 1);
      UnskippedStep(ids, k);
      var a, b := StationUrls(prod, ids[..k]), StationUrls(prod, ids[..k + 1]);
      assert b[..|a|] == a;
    }
  }

  /** A request is never made for the sentinel. */
  lemma SentinelNeverPlanned(prod: bool, ids: seq<string>)
    ensures StationUrl(prod, "None") !in StationUrls(prod, ids)
  {
    UnskippedIsFilter(ids);
    var kept := Unskipped(ids);
    forall i | 0 <= i < |kept|
      ensures StationUrls(prod, ids)[i] != StationUrl(prod, "None")
    {
      assert kept[i] in kept;
      StationUrlInjective(prod, kept[i], prod, "None");
    }
  }

  /** A station URL is planned exactly when it is built from a
      non-sentinel id of the input. */
  lemma StationUrlsMembership(prod: bool, ids: seq<string>, u: Url)
    ensures u in StationUrls(prod, ids) <==> exists x :: x in ids && !IsSentinel(x) && u == StationUrl(prod, x)
  {
    var kept := Unskipped(ids);
    var urls := StationUrls(prod, ids);
    assert |urls| == |kept| by { StationUrlsShape(prod, ids); }
    if u in urls {
      var i :| 0 <= i < |urls| && urls[i] == u;
      var x := kept[i];
      assert u == StationUrl(prod, x) by { StationUrlsShape(prod, ids); }
      assert x in ids && !IsSentinel(x) by { assert x in kept; UnskippedIsFilter(ids); }
    }
    if x :| x in ids && !IsSentinel(x) && u == StationUrl(prod, x) {
      assert x in kept by { UnskippedIsFilter(ids); }
      var i :| 0 <= i < |kept| && kept[i] == x;
      assert urls[i] == u by { StationUrlsShape(prod, ids); }
    }
  }

  lemma StationUrlsStep(prod: bool, ids: seq<string>, i: nat)
    requires i < |ids|
    ensures StationUrls(prod, ids[..i + 1]) ==
              StationUrls(prod, ids[..i]) + (if IsSentinel(ids[i]) then [] else [StationUrl(prod, ids[i])])
  {
    UnskippedStep(ids, i);
  }

  /** What `fetch_ground_station_data` promises, stated on the planned
      requests: the sentinel is never requested, and on success there is one
      entry per non-sentinel id, entry `i` the reply to the `i`-th such id. */
  lemma StationBatchShape<B>(server: Server<B>, prod: bool, ids: seq<string>)
    ensures StationUrl(prod, "None") !in Issued(server, StationUrls(prod, ids))
    ensures GetAll(server, StationUrls(prod, ids)).Success? ==>
              var vs := GetAll(server, StationUrls(prod, ids)).value;
              && |vs| == |Unskipped(ids)|
              && Issued(server, StationUrls(prod, ids)) == StationUrls(prod, ids)
              && forall i :: 0 <= i < |vs| ==>
                   && StationUrl(prod, Unskipped(ids)[i]) in server
                   && vs[i] == server[StationUrl(prod, Unskipped(ids)[i])].body
  {
    var all := StationUrls(prod, ids);
    StationUrlsShape(prod, ids);
    SentinelNeverPlanned(prod, ids);
    IssuedIsPrefix(server, all);
    GetAllSuccess(server, all);
  }

  /** When the requests for the first `k` ids end in one that raises, that
      is the outcome and the request log of the whole batch. */
  lemma StationsAbort<B>(server: Server<B>, prod: bool, ids: seq<string>, k: nat, issued: seq<Url>)
    requires k <= |ids| && issued == StationUrls(prod, ids[..k])
    requires GetAll(server, issued).Failure? && Issued(server, issued) == issued
    ensures GetAll(server, StationUrls(prod, ids)) == GetAll(server, issued)
    ensures Issued(server, StationUrls(prod, ids)) == issued
    ensures StationUrl(prod, "None") !in issued
  {
    StationUrlsPrefix(prod, ids, k);
    FailurePersists(server, StationUrls(prod, ids), |issued|);
    SentinelNeverPlanned(prod, ids[..k]);
  }

  /** One request per non-sentinel id, in input order, none for a sentinel;
      the first that raises aborts. On success there is one entry per
      non-sentinel id, entry `i` the reply to the `i`-th such id. */
  method FetchGroundStationData<B>(server: Server<B>, groundStationIds: seq<string>, prod: bool := true)
    returns (r: Result<seq<B>, Error>, ghost issued: seq<Url>)
    ensures r == GetAll(server, StationUrls(prod, groundStationIds))
    ensures issued == Issued(server, StationUrls(prod, groundStationIds))
    ensures StationUrl(prod, "None") !in issued
    ensures r.Success? ==>
              && |r.value| == |Unskipped(groundStationIds)|
              && forall i :: 0 <= i < |r.value| ==>
                   && StationUrl(prod, Unskipped(groundStationIds)[i]) in server
                   && r.value[i] == server[StationUrl(prod, Unskipped(groundStationIds)[i])].body
  {
    var stations := [];
    issued := [];
    for i := 0 to |groundStationIds|
      invariant GetAll(server, StationUrls(prod, groundStationIds[..i])) == Success(stations)
      invariant issued == StationUrls(prod, groundStationIds[..i])
    {
      var stationId := groundStationIds[i];
      if IsSentinel(stationId) {
        assert StationUrls(prod, groundStationIds[..i + 1]) == issued by {
          StationUrlsStep(prod, groundStationIds, i);
        }
        continue;
      }
      var url := StationUrl(prod, stationId);
      var resp := Get(server, url);
      assert issued + [url] == StationUrls(prod, groundStationIds[..i + 1]) by {
        StationUrlsStep(prod, groundStationIds, i);
      }
      if resp.Failure? {
        assert GetAll(server, issued + [url]) == Failure(resp.error) && Issued(server, issued + [url]) == issued + [url] by {
          GetAllStep(server, issued, url, stations);
        }
        issued := issued + [url];
        StationsAbort(server, prod, groundStationIds, i + 1, issued);
        return Failure(resp.error), issued;
      }
      assert GetAll(server, issued + [url]) == Success(stations + [resp.value.body]) by {
        GetAllStep(server, issued, url, stations);
      }
      issued := issued + [url];
      stations := stations + [resp.value.body];
    }
    assert groundStationIds[..|groundStationIds|] == groundStationIds;
    r := Success(stations);
    StationBatchShape(server, prod, groundStationIds);
  }
}
