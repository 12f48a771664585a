/** `fetch_observation_data_from_id`: every observation of one satellite in a
    time window, fetched through the pager and then filtered on the client by
    NORAD id, because the server's own filter cannot be relied on. */
module Observations {
  import opened Wrappers
  import opened Endpoints
  import opened Transport
  import opened Pagination

  /** An observation as the Network API returns it: the NORAD id of its
      satellite, and the other server-defined fields, passed through as they are. */
  datatype Observation = Observation(noradCatId: int, fields: map<string, string>)

  /** The generator comprehension that keeps the observations whose
      `norad_cat_id` equals the requested id. */
  function FilterByNorad(observations: seq<Observation>, noradId: int): (kept: seq<Observation>)
    ensures |kept| <= |observations|
    decreases |observations|
  {
    if observations == [] then []
    else (if observations[0].noradCatId == noradId then [observations[0]] else [])
         + FilterByNorad(observations[1..], noradId)
  }

  /** An observation is kept exactly when it was fetched and carries the
      requested NORAD id. */
  lemma {:induction false} FilterMembership(observations: seq<Observation>, noradId: int, o: Observation)
    ensures o in FilterByNorad(observations, noradId) <==> o in observations && o.noradCatId == noradId
    decreases |observations|
  {
    if observations != [] {
      FilterMembership(observations[1..], noradId, o);
      assert observations == [observations[0]] + observations[1..];
    }
  }

  /** `a` is `b` with some elements left out, the rest in their order. */
  predicate IsSubsequence<T(==)>(a: seq<T>, b: seq<T>)
    decreases |b|
  {
    a == [] || (b != [] && ((a[0] == b[0] && IsSubsequence(a[1..], b[1..])) || IsSubsequence(a, b[1..])))
  }

  /** The filter keeps the relative order of the observations it keeps. */
  lemma {:induction false} FilterPreservesOrder(observations: seq<Observation>, noradId: int)
    ensures IsSubsequence(FilterByNorad(observations, noradId), observations)
    decreases |observations|
  {
    if observations != [] {
      FilterPreservesOrder(observations[1..], noradId);
      var kept := FilterByNorad(observations, noradId);
      if observations[0].noradCatId == noradId {
        assert kept[0] == observations[0] && kept[1..] == FilterByNorad(observations[1..], noradId);
      } else {
        assert kept == FilterByNorad(observations[1..], noradId);
      }
    }
  }

  /** The filter keeps every copy of each matching observation and drops
      every copy of each other one. */
  lemma {:induction false} FilterCounts(observations: seq<Observation>, noradId: int, o: Observation)
    ensures multiset(FilterByNorad(observations, noradId))[o] ==
              if o.noradCatId == noradId then multiset(observations)[o] else 0
    decreases |observations|
  {
    if observations != [] {
      FilterCounts(observations[1..], noradId, o);
      assert observations == [observations[0]] + observations[1..];
    }
  }

  /** Filtering a second time changes nothing. */
  lemma {:induction false} FilterIdempotent(observations: seq<Observation>, noradId: int)
    ensures FilterByNorad(FilterByNorad(observations, noradId), noradId) == FilterByNorad(observations, noradId)
    decreases |observations|
  {
    if observations != [] {
      FilterIdempotent(observations[1..], noradId);
      var o := observations[0];
      var head := if o.noradCatId == noradId then [o] else [];
      var rest := FilterByNorad(observations[1..], noradId);
      FilterConcat(head, rest, noradId);
      if o.noradCatId == noradId {
        assert [o][1..] == [];
        assert FilterByNorad(head, noradId) == head + [];
      }
    }
  }

  /** Filtering all pages at once is filtering page by page. */
  lemma {:induction false} FilterConcat(a: seq<Observation>, b: seq<Observation>, noradId: int)
    ensures FilterByNorad(a + b, noradId) == FilterByNorad(a, noradId) + FilterByNorad(b, noradId)
    decreases |a|
  {
    if a == [] {
      assert a + b == b;
    } else {
      var x, t := a[0], a[1..];
      var head := if x.noradCatId == noradId then [x] else [];
      calc {
        FilterByNorad(a + b, noradId);
        { assert a + b == [x] + (t + b); }
        FilterByNorad([x] + (t + b), noradId);
        { FilterCons(x, t + b, noradId); }
        head + FilterByNorad(t + b, noradId);
        { FilterConcat(t, b, noradId); }
        head + (FilterByNorad(t, noradId) + FilterByNorad(b, noradId));
        (head + FilterByNorad(t, noradId)) + FilterByNorad(b, noradId);
        { assert a == [x] + t; FilterCons(x, t, noradId); }
        FilterByNorad(a, noradId) + FilterByNorad(b, noradId);
      }
    }
  }

  /** The model of `fetch_observation_data_from_id`: all pages of the query
      URL (no cap), then the client-side filter; an error on any page is the
      call's error. */
  method FetchObservationDataFromId(server: Server<seq<Observation>>, noradId: int, start: string, end: string,
                                    ghost n: nat, prod: bool := true)
    returns (r: Result<seq<Observation>, Error>)
    requires EndsFrom(server, ObservationsQueryUrl(prod, noradId, start, end), None, n)
    ensures var w := Walk(server, ObservationsQueryUrl(prod, noradId, start, end), None, n);
            && (r.Success? <==> w.Success?)
            && (r.Failure? ==> r.error == w.error)
            && (r.Success? ==> r.value == FilterByNorad(Items(w.value), noradId))
    ensures r.Success? ==> forall o :: o in r.value ==> o.noradCatId == noradId
  {
    var url := ObservationsQueryUrl(prod, noradId, start, end);
    var observations := GetPaginatedEndpoint(server, url, n);
    ghost var w := Walk(server, url, None, n);
    if observations.Failure? {
      assert w.Failure?;
      return Failure(observations.error);
    }
    assert w.Success? && observations.value == Items(w.value);
    r := Success(FilterByNorad(observations.value, noradId));
    forall o | o in r.value
      ensures o.noradCatId == noradId
    {
      FilterMembership(observations.value, noradId, o);
    }
  }

  /** Three pages of 2, 2 and 1 items, the third without a `next` link: the
      pager returns the 5 items in page order. */
  lemma ThreePageWalk<T>(u0: Url, u1: Url, u2: Url, a: T, b: T, c: T, d: T, e: T)
    requires u0 != u1 && u1 != u2 && u0 != u2
    ensures var server := map[u0 := Response(200, [a, b], Some(u1)),
                              u1 := Response(200, [c, d], Some(u2)),
                              u2 := Response(200, [e], None)];
            && EndsFrom(server, u0, None, 2)
            && ItemsOf(Walk(server, u0, None, 2)) == Success([a, b, c, d, e])
  {
    var server := map[u0 := Response(200, [a, b], Some(u1)),
                      u1 := Response(200, [c, d], Some(u2)),
                      u2 := Response(200, [e], None)];
    var p0, p1, p2 := server[u0], server[u1], server[u2];
    assert Get(server, u1) == Success(p1);
    assert Get(server, u2) == Success(p2);
    assert Ends(server, p2, 5, None, 0);
    assert Ends(server, p1, 4, None, 1);
    assert Ends(server, p0, 2, None, 2);
    assert Rest(server, p2, 5, None, 0) == Success([]);
    assert [p2] + [] == [p2];
    assert Rest(server, p1, 4, None, 1) == Success([p2]);
    assert [p1] + [p2] == [p1, p2];
    assert Rest(server, p0, 2, None, 2) == Success([p1, p2]);
    assert [p0] + [p1, p2] == [p0, p1, p2];
    assert Walk(server, u0, None, 2) == Success([p0, p1, p2]);
    assert [p0, p1, p2][1..] == [p1, p2] && [p1, p2][1..] == [p2];
    ItemsSingle(p2);
    assert Items([p0, p1, p2]) == [a, b] + ([c, d] + [e]) == [a, b, c, d, e];
  }

  lemma FilterCons(o: Observation, s: seq<Observation>, noradId: int)
    ensures FilterByNorad([o] + s, noradId) ==
              (if o.noradCatId == noradId then [o] else []) + FilterByNorad(s, noradId)
  {
    assert ([o] + s)[0] == o && ([o] + s)[1..] == s;
  }

  /** A page of two observations, the first carrying the id and the second not. */
  lemma FilterPair(x: Observation, y: Observation, noradId: int)
    requires x.noradCatId == noradId && y.noradCatId != noradId
    ensures FilterByNorad([x, y], noradId) == [x]
  {
    FilterCons(y, [], noradId);
    FilterCons(x, [y], noradId);
    assert [y] + [] == [y] && [x] + [y] == [x, y];
  }

  /** Filtering those 5 observations for an id that the first, third and
      fifth carry returns exactly those 3, in order. */
  lemma ThreePageFilter(a: Observation, b: Observation, c: Observation, d: Observation, e: Observation,
                        noradId: int)
    requires a.noradCatId == noradId && c.noradCatId == noradId && e.noradCatId == noradId
    requires b.noradCatId != noradId && d.noradCatId != noradId
    ensures FilterByNorad([a, b, c, d, e], noradId) == [a, c, e]
  {
    FilterPair(a, b, noradId);
    FilterPair(c, d, noradId);
    FilterCons(e, [], noradId);
    FilterConcat([a, b], [c, d], noradId);
    FilterConcat([a, b] + [c, d], [e], noradId);
    assert [a, b] + [c, d] + [e] == [a, b, c, d, e];
    assert [e] + [] == [e];
    assert [a] + [c] + [e] == [a, c, e];
  }
}
