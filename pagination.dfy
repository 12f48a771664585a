/** `get_paginated_endpoint`: fetch a first page, then follow `next` links,
    appending each page's JSON array to one list, until a reply has no `next`
    link or a soft cap on the number of items has been reached. */
module Pagination {
  import opened Wrappers
  import opened Endpoints
  import opened Transport

  /** A reply whose body is one page of a JSON array. */
  type Page<T> = Response<seq<T>>

  /** `not max_entries`: both `None` and `0` switch the cap off. */
  predicate Uncapped(maxEntries: Option<int>)
  {
    maxEntries.None? || maxEntries.value == 0
  }

  /** The cap half of the loop condition: more items are still wanted. */
  predicate WantsMore(maxEntries: Option<int>, have: nat)
  {
    Uncapped(maxEntries) || have < maxEntries.value
  }

  /** All items of a run of pages, first page first. */
  function Items<T>(pages: seq<Page<T>>): seq<T>
  {
    if pages == [] then [] else pages[0].body + Items(pages[1..])
  }

  /** Following `next` links from `page`, while the loop condition holds,
      reaches within `n` further requests a reply without a `next` link, a
      total of items that switches the cap off, or a request that raises.
      The source has no bound: without a cap, or with empty pages, a chain of
      links that never ends makes it loop forever. */
  ghost predicate Ends<T>(server: Server<seq<T>>, page: Page<T>, have: nat, cap: Option<int>, n: nat)
    decreases n
  {
    page.next.None? || !WantsMore(cap, have) ||
    (n > 0 && match Get(server, page.next.value)
              case Failure(_) => true
              case Success(p) => Ends(server, p, have + |p.body|, cap, n - 1))
  }

  ghost predicate EndsFrom<T>(server: Server<seq<T>>, url: Url, cap: Option<int>, n: nat)
  {
    match Get(server, url)
    case Failure(_) => true
    case Success(p) => Ends(server, p, |p.body|, cap, n)
  }

  function Prepend<T>(ps: seq<Page<T>>, r: Result<seq<Page<T>>, Error>): Result<seq<Page<T>>, Error>
  {
    match r
    case Success(qs) => Success(ps + qs)
    case Failure(e) => Failure(e)
  }

  /** The pages the loop fetches after `page` while holding `have` items. */
  ghost function Rest<T>(server: Server<seq<T>>, page: Page<T>, have: nat, cap: Option<int>, n: nat)
    : Result<seq<Page<T>>, Error>
    requires Ends(server, page, have, cap, n)
    decreases n
  {
    if page.next.None? || !WantsMore(cap, have) then Success([])
    else match Get(server, page.next.value)
      case Failure(e) => Failure(e)
      case Success(p) => Prepend([p], Rest(server, p, have + |p.body|, cap, n - 1))
  }

  /** Every page `get_paginated_endpoint(url, cap)` fetches, first page
      first, or the error of the request that raised. */
  ghost function Walk<T>(server: Server<seq<T>>, url: Url, cap: Option<int>, n: nat)
    : Result<seq<Page<T>>, Error>
    requires EndsFrom(server, url, cap, n)
  {
    match Get(server, url)
    case Failure(e) => Failure(e)
    case Success(p) => Prepend([p], Rest(server, p, |p.body|, cap, n))
  }

  function ItemsOf<T>(w: Result<seq<Page<T>>, Error>): Result<seq<T>, Error>
  {
    match w
    case Success(ps) => Success(Items(ps))
    case Failure(e) => Failure(e)
  }

  /** The model of `get_paginated_endpoint`. `n` bounds the length of the
      chain of links and is needed only for termination. */
  method GetPaginatedEndpoint<T>(server: Server<seq<T>>, url: Url, ghost n: nat, maxEntries: Option<int> := None)
    returns (r: Result<seq<T>, Error>)
    requires EndsFrom(server, url, maxEntries, n)
    ensures r == ItemsOf(Walk(server, url, maxEntries, n))
  {
    var first := Get(server, url);
    if first.Failure? {
      return Failure(first.error);
    }
    var resp := first.value;
    var data := resp.body;
    ghost var fetched := [resp];
    ghost var fuel := n;
    ItemsSingle(resp);
    while resp.next.Some? && WantsMore(maxEntries, |data|)
      invariant Ends(server, resp, |data|, maxEntries, fuel)
      invariant data == Items(fetched)
      invariant Walk(server, url, maxEntries, n) == Prepend(fetched, Rest(server, resp, |data|, maxEntries, fuel))
      decreases fuel
    {
      var got := Get(server, resp.next.value);
      if got.Failure? {
        assert Rest(server, resp, |data|, maxEntries, fuel) == Failure(got.error);
        return Failure(got.error);
      }
      ghost var rest := Rest(server, got.value, |data| + |got.value.body|, maxEntries, fuel - 1);
      PrependTwice(fetched, [got.value], rest);
      ItemsAppend(fetched, [got.value]);
      ItemsSingle(got.value);
      resp := got.value;
      data := data + resp.body;
      fetched := fetched + [resp];
      fuel := fuel - 1;
    }
    assert Rest(server, resp, |data|, maxEntries, fuel) == Success([]);
    assert fetched + [] == fetched;
    r := Success(data);
  }

  // ----- helpers about Items and Prepend -----

  lemma ItemsSingle<T>(p: Page<T>)
    ensures Items([p]) == p.body
  {
    assert [p][1..] == [];
  }

  lemma {:induction false} ItemsAppend<T>(a: seq<Page<T>>, b: seq<Page<T>>)
    ensures Items(a + b) == Items(a) + Items(b)
    decreases |a|
  {
    if a == [] {
      assert a + b == b;
    } else {
      assert (a + b)[0] == a[0];
      assert (a + b)[1..] == a[1..] + b;
      ItemsAppend(a[1..], b);
    }
  }

  lemma PrependTwice<T>(a: seq<Page<T>>, b: seq<Page<T>>, r: Result<seq<Page<T>>, Error>)
    ensures Prepend(a, Prepend(b, r)) == Prepend(a + b, r)
  {
    if r.Success? {
      assert a + (b + r.value) == a + b + r.value;
    }
  }

  // ----- what the walk is: a characterisation of Rest -----

  /** The page a request for `ps[i]` was made from. */
  function Prev<T>(page: Page<T>, ps: seq<Page<T>>, i: nat): Page<T>
    requires i < |ps|
  {
    if i == 0 then page else ps[i - 1]
  }

  function Last<T>(page: Page<T>, ps: seq<Page<T>>): Page<T>
  {
    if ps == [] then page else ps[|ps| - 1]
  }

  /** Each page of `ps` is the successful reply to the `next` link of the page before it. */
  ghost predicate Linked<T>(server: Server<seq<T>>, page: Page<T>, ps: seq<Page<T>>)
  {
    forall i :: 0 <= i < |ps| ==>
      Prev(page, ps, i).next.Some? && Get(server, Prev(page, ps, i).next.value) == Success(ps[i])
  }

  /** Each page of `ps` was requested while the items held were below the cap. */
  ghost predicate RequestedUnderCap<T>(cap: Option<int>, have: nat, ps: seq<Page<T>>)
  {
    forall i :: 0 <= i < |ps| ==> WantsMore(cap, have + |Items(ps[..i])|)
  }

  /** After the last page of `ps` the loop condition is false. */
  ghost predicate Stopped<T>(cap: Option<int>, have: nat, page: Page<T>, ps: seq<Page<T>>)
  {
    Last(page, ps).next.None? || !WantsMore(cap, have + |Items(ps)|)
  }

  lemma ShiftLinked<T>(server: Server<seq<T>>, page: Page<T>, p: Page<T>, qs: seq<Page<T>>)
    requires page.next.Some? && Get(server, page.next.value) == Success(p)
    ensures Linked(server, page, [p] + qs) <==> Linked(server, p, qs)
  {
    var ps := [p] + qs;
    forall i | 0 <= i < |qs|
      ensures Prev(page, ps, i + 1) == Prev(p, qs, i) && ps[i + 1] == qs[i]
    {
    }
    if Linked(server, p, qs) {
      forall i | 0 <= i < |ps|
        ensures Prev(page, ps, i).next.Some? && Get(server, Prev(page, ps, i).next.value) == Success(ps[i])
      {
        if i > 0 {
          assert Prev(page, ps, i) == Prev(p, qs, i - 1);
        }
      }
    }
    if Linked(server, page, ps) {
      forall i | 0 <= i < |qs|
        ensures Prev(p, qs, i).next.Some? && Get(server, Prev(p, qs, i).next.value) == Success(qs[i])
      {
        assert Prev(page, ps, i + 1) == Prev(p, qs, i);
      }
    }
  }

  lemma ShiftUnderCap<T>(cap: Option<int>, have: nat, p: Page<T>, qs: seq<Page<T>>)
    ensures RequestedUnderCap(cap, have, [p] + qs) <==>
            WantsMore(cap, have) && RequestedUnderCap(cap, have + |p.body|, qs)
    ensures |Items([p] + qs)| == |p.body| + |Items(qs)|
  {
    var ps := [p] + qs;
    assert ps[1..] == qs;
    assert ps[..0] == [];
    forall i | 0 <= i < |qs|
      ensures have + |Items(ps[..i + 1])| == have + |p.body| + |Items(qs[..i])|
    {
      assert ps[..i + 1] == [p] + qs[..i];
      assert ([p] + qs[..i])[1..] == qs[..i];
    }
    if RequestedUnderCap(cap, have, ps) {
      forall i | 0 <= i < |qs|
        ensures WantsMore(cap, have + |p.body| + |Items(qs[..i])|)
      {
        assert WantsMore(cap, have + |Items(ps[..i + 1])|);
      }
    }
    if WantsMore(cap, have) && RequestedUnderCap(cap, have + |p.body|, qs) {
      forall i | 0 <= i < |ps|
        ensures WantsMore(cap, have + |Items(ps[..i])|)
      {
        if i > 0 {
          assert WantsMore(cap, have + |p.body| + |Items(qs[..i - 1])|);
        }
      }
    }
  }

  lemma ShiftStopped<T>(cap: Option<int>, have: nat, page: Page<T>, p: Page<T>, qs: seq<Page<T>>)
    ensures Stopped(cap, have, page, [p] + qs) <==> Stopped(cap, have + |p.body|, p, qs)
  {
    ShiftUnderCap(cap, have, p, qs);
    assert Last(page, [p] + qs) == Last(p, qs);
  }

  /** Soundness: the pages Rest returns are linked, each was requested under
      the cap, and the loop condition fails after the last one. */
  lemma {:induction false} RestSound<T>(server: Server<seq<T>>, page: Page<T>, have: nat, cap: Option<int>, n: nat)
    requires Ends(server, page, have, cap, n)
    ensures Rest(server, page, have, cap, n).Success? ==>
              var ps := Rest(server, page, have, cap, n).value;
              Linked(server, page, ps) && RequestedUnderCap(cap, have, ps) && Stopped(cap, have, page, ps)
    decreases n
  {
    if page.next.Some? && WantsMore(cap, have) {
      var g := Get(server, page.next.value);
      if g.Success? {
        var p := g.value;
        RestStep(server, page, have, cap, n, p);
        RestSound(server, p, have + |p.body|, cap, n - 1);
        var r := Rest(server, p, have + |p.body|, cap, n - 1);
        if r.Success? {
          ShiftLinked(server, page, p, r.value);
          ShiftUnderCap(cap, have, p, r.value);
          ShiftStopped(cap, have, page, p, r.value);
        }
      }
    }
  }

  /** One step of the loop: a page with a `next` link, under the cap, whose
      request succeeds. */
  lemma RestStep<T>(server: Server<seq<T>>, page: Page<T>, have: nat, cap: Option<int>, n: nat, p: Page<T>)
    requires Ends(server, page, have, cap, n)
    requires page.next.Some? && WantsMore(cap, have) && Get(server, page.next.value) == Success(p)
    ensures n > 0 && Ends(server, p, have + |p.body|, cap, n - 1)
    ensures Rest(server, page, have, cap, n) == Prepend([p], Rest(server, p, have + |p.body|, cap, n - 1))
  {
  }

  /** A successful step followed by the run `ps[1..]` is the run `ps`. */
  lemma RestCons<T>(server: Server<seq<T>>, page: Page<T>, have: nat, cap: Option<int>, n: nat, ps: seq<Page<T>>)
    requires ps != [] && Ends(server, page, have, cap, n)
    requires page.next.Some? && WantsMore(cap, have) && Get(server, page.next.value) == Success(ps[0])
    requires n > 0 && Ends(server, ps[0], have + |ps[0].body|, cap, n - 1)
    requires Rest(server, ps[0], have + |ps[0].body|, cap, n - 1) == Success(ps[1..])
    ensures Rest(server, page, have, cap, n) == Success(ps)
  {
    assert [ps[0]] + ps[1..] == ps;
  }

  /** The loop stops at once: the empty run of pages is stopped exactly
      when `page` has no `next` link or no more items are wanted. */
  lemma RestEmpty<T>(server: Server<seq<T>>, page: Page<T>, have: nat, cap: Option<int>, n: nat, ps: seq<Page<T>>)
    requires ps == [] && Ends(server, page, have, cap, n) && Stopped(cap, have, page, ps)
    ensures Rest(server, page, have, cap, n) == Success(ps)
  {
    assert Last(page, ps) == page && Items(ps) == [];
  }

  /** A linked run under the cap, seen from its first page: that page was
      fetched from `page`'s `next` link while more items were wanted, and the
      rest of the run is linked and under the cap from there. */
  lemma RunTail<T>(server: Server<seq<T>>, page: Page<T>, have: nat, cap: Option<int>, ps: seq<Page<T>>)
    requires ps != [] && Linked(server, page, ps) && RequestedUnderCap(cap, have, ps)
    ensures page.next.Some? && Get(server, page.next.value) == Success(ps[0]) && WantsMore(cap, have)
    ensures Linked(server, ps[0], ps[1..]) && RequestedUnderCap(cap, have + |ps[0].body|, ps[1..])
    ensures Stopped(cap, have, page, ps) <==> Stopped(cap, have + |ps[0].body|, ps[0], ps[1..])
    ensures Last(page, ps) == Last(ps[0], ps[1..])
  {
    var p, qs := ps[0], ps[1..];
    assert ps == [p] + qs;
    assert Prev(page, ps, 0) == page;
    assert WantsMore(cap, have + |Items(ps[..0])|);
    assert ps[..0] == [];
    ShiftLinked(server, page, p, qs);
    ShiftUnderCap(cap, have, p, qs);
    ShiftStopped(cap, have, page, p, qs);
  }

  /** Completeness: any linked run of pages that was requested under the cap
      and after which the loop stops is exactly what Rest returns. */
  lemma {:induction false} RestComplete<T>(server: Server<seq<T>>, page: Page<T>, have: nat, cap: Option<int>, n: nat,
                                           ps: seq<Page<T>>)
    requires Ends(server, page, have, cap, n)
    requires Linked(server, page, ps) && RequestedUnderCap(cap, have, ps) && Stopped(cap, have, page, ps)
    ensures Rest(server, page, have, cap, n) == Success(ps)
    decreases |ps|
  {
    if ps == [] {
      RestEmpty(server, page, have, cap, n, ps);
    } else {
      RunTail(server, page, have, cap, ps);
      RestStep(server, page, have, cap, n, ps[0]);
      RestComplete(server, ps[0], have + |ps[0].body|, cap, n - 1, ps[1..]);
      RestCons(server, page, have, cap, n, ps);
    }
  }

  /** Abort: when the loop would go on after a linked run of pages and the
      next request raises, the whole walk fails with that error. */
  lemma {:induction false} RestAbort<T>(server: Server<seq<T>>, page: Page<T>, have: nat, cap: Option<int>, n: nat,
                                        ps: seq<Page<T>>, e: Error)
    requires Ends(server, page, have, cap, n)
    requires Linked(server, page, ps) && RequestedUnderCap(cap, have, ps) && !Stopped(cap, have, page, ps)
    requires Get(server, Last(page, ps).next.value) == Failure(e)
    ensures Rest(server, page, have, cap, n) == Failure(e)
    decreases |ps|
  {
    if ps == [] {
      assert Last(page, ps) == page && Items(ps) == [];
    } else {
      RunTail(server, page, have, cap, ps);
      RestStep(server, page, have, cap, n, ps[0]);
      RestAbort(server, ps[0], have + |ps[0].body|, cap, n - 1, ps[1..], e);
    }
  }

  /** The bound `n` only has to be large enough: it does not change the result. */
  lemma {:induction false} RestFuel<T>(server: Server<seq<T>>, page: Page<T>, have: nat, cap: Option<int>, n1: nat, n2: nat)
    requires Ends(server, page, have, cap, n1) && Ends(server, page, have, cap, n2)
    ensures Rest(server, page, have, cap, n1) == Rest(server, page, have, cap, n2)
    decreases n1
  {
    if page.next.Some? && WantsMore(cap, have) {
      var g := Get(server, page.next.value);
      if g.Success? {
        RestFuel(server, g.value, have + |g.value.body|, cap, n1 - 1, n2 - 1);
      }
    }
  }

  // ----- the properties of get_paginated_endpoint -----

  /** The first page is always fetched, whatever the cap; when it raises, the
      call raises with nothing returned. */
  lemma FirstPageAlwaysFetched<T>(server: Server<seq<T>>, url: Url, cap: Option<int>, n: nat)
    requires EndsFrom(server, url, cap, n)
    ensures Get(server, url).Failure? ==> Walk(server, url, cap, n) == Failure(Get(server, url).error)
    ensures Walk(server, url, cap, n).Success? ==>
              Get(server, url).Success? && |Walk(server, url, cap, n).value| >= 1 &&
              Walk(server, url, cap, n).value[0] == Get(server, url).value
  {
  }

  /** A successful walk is the first page, then a linked run of pages each
      requested while under the cap, after which the loop condition fails;
      the result is all their items in order, never truncated. */
  lemma WalkSound<T>(server: Server<seq<T>>, url: Url, cap: Option<int>, n: nat)
    requires EndsFrom(server, url, cap, n)
    ensures Walk(server, url, cap, n).Success? ==>
              var ps := Walk(server, url, cap, n).value;
              && |ps| >= 1 && Get(server, url) == Success(ps[0])
              && Linked(server, ps[0], ps[1..])
              && RequestedUnderCap(cap, |ps[0].body|, ps[1..])
              && Stopped(cap, |ps[0].body|, ps[0], ps[1..])
              && ItemsOf(Walk(server, url, cap, n)) == Success(Items(ps))
  {
    var g := Get(server, url);
    if g.Success? {
      RestSound(server, g.value, |g.value.body|, cap, n);
      var r := Rest(server, g.value, |g.value.body|, cap, n);
      if r.Success? {
        assert ([g.value] + r.value)[1..] == r.value;
      }
    }
  }

  /** Without a cap the walk stops exactly at the first reply that has no
      `next` link: every page before it has one. */
  lemma UncappedStopsAtFirstMissingLink<T>(server: Server<seq<T>>, url: Url, cap: Option<int>, n: nat)
    requires EndsFrom(server, url, cap, n) && Uncapped(cap)
    ensures Walk(server, url, cap, n).Success? ==>
              var ps := Walk(server, url, cap, n).value;
              && ps[|ps| - 1].next.None?
              && (forall i :: 0 <= i < |ps| - 1 ==> ps[i].next.Some?)
  {
    WalkSound(server, url, cap, n);
    if Walk(server, url, cap, n).Success? {
      var ps := Walk(server, url, cap, n).value;
      forall i | 0 <= i < |ps| - 1
        ensures ps[i].next.Some?
      {
        assert Prev(ps[0], ps[1..], i).next.Some?;
      }
      assert Last(ps[0], ps[1..]) == ps[|ps| - 1];
    }
  }

  /** A cap of `0` behaves exactly as no cap (`not max_entries`): the walk
      ends under one exactly when it ends under the other, with the same pages. */
  lemma {:induction false} ZeroCapIsNoCap<T>(server: Server<seq<T>>, page: Page<T>, have: nat, n: nat)
    ensures Ends(server, page, have, Some(0), n) <==> Ends(server, page, have, None, n)
    ensures Ends(server, page, have, None, n) ==>
              Rest(server, page, have, Some(0), n) == Rest(server, page, have, None, n)
    decreases n
  {
    if page.next.Some? && n > 0 {
      var g := Get(server, page.next.value);
      if g.Success? {
        ZeroCapIsNoCap(server, g.value, have + |g.value.body|, n - 1);
      }
    }
  }

  /** With a positive cap `m`, every page after the first was requested while
      fewer than `m` items were held, so the result exceeds `m` only by items
      of the last page fetched; and the loop stops only once `m` is reached or
      the links run out. */
  lemma CapOvershoot<T>(server: Server<seq<T>>, url: Url, m: int, n: nat)
    requires EndsFrom(server, url, Some(m), n) && m > 0
    ensures Walk(server, url, Some(m), n).Success? ==>
              var ps := Walk(server, url, Some(m), n).value;
              && (|ps| > 1 ==> |Items(ps[..|ps| - 1])| < m)
              && (ps[|ps| - 1].next.None? || |Items(ps)| >= m)
  {
    WalkSound(server, url, Some(m), n);
    if Walk(server, url, Some(m), n).Success? {
      var ps := Walk(server, url, Some(m), n).value;
      var qs := ps[1..];
      assert ps == [ps[0]] + qs;
      ShiftUnderCap(Some(m), 0, ps[0], qs);
      assert Last(ps[0], qs) == ps[|ps| - 1];
      if |ps| > 1 {
        var k := |qs| - 1;
        assert WantsMore(Some(m), |ps[0].body| + |Items(qs[..k])|);
        assert ps[..|ps| - 1] == [ps[0]] + qs[..k];
        ShiftUnderCap(Some(m), 0, ps[0], qs[..k]);
      }
    }
  }

  /** A page after the first that raises aborts the whole call: once a linked
      run of pages has been fetched under the cap and the loop goes on, a
      failing request for the next link makes the call fail with its error. */
  lemma LaterPageFailureAborts<T>(server: Server<seq<T>>, url: Url, cap: Option<int>, n: nat,
                                  ps: seq<Page<T>>, e: Error)
    requires EndsFrom(server, url, cap, n)
    requires |ps| >= 1 && Get(server, url) == Success(ps[0])
    requires Linked(server, ps[0], ps[1..]) && RequestedUnderCap(cap, |ps[0].body|, ps[1..])
    requires !Stopped(cap, |ps[0].body|, ps[0], ps[1..])
    requires Get(server, ps[|ps| - 1].next.value) == Failure(e)
    ensures Walk(server, url, cap, n) == Failure(e)
  {
    assert Last(ps[0], ps[1..]) == ps[|ps| - 1];
    RestAbort(server, ps[0], |ps[0].body|, cap, n, ps[1..], e);
  }

  // ----- when the loop ends -----

  /** With a positive cap `m` and pages that are never empty, the loop ends
      within `m` further requests whatever the links are: each request adds
      at least one item. */
  lemma {:induction false} NonEmptyPagesEnd<T>(server: Server<seq<T>>, page: Page<T>, have: nat, m: int, n: nat)
    requires forall u :: u in server ==> |server[u].body| > 0
    requires m > 0 && have + n >= m
    ensures Ends(server, page, have, Some(m), n)
    decreases n
  {
    if page.next.Some? && WantsMore(Some(m), have) {
      var g := Get(server, page.next.value);
      if g.Success? {
        NonEmptyPagesEnd(server, g.value, have + |g.value.body|, m, n - 1);
      }
    }
  }

  /** A page whose `next` link points back to itself: with a cap of 1 the
      source makes one request and returns the page's item. */
  lemma CappedCycleReturns<T>(u: Url, x: T)
    ensures var server := map[u := Response(200, [x], Some(u))];
            && EndsFrom(server, u, Some(1), 0)
            && ItemsOf(Walk(server, u, Some(1), 0)) == Success([x])
  {
    var server := map[u := Response(200, [x], Some(u))];
    var p := server[u];
    assert Get(server, u) == Success(p);
    assert !WantsMore(Some(1), |p.body|);
    assert Rest(server, p, 1, Some(1), 0) == Success([]);
    assert [p] + [] == [p];
    ItemsSingle(p);
  }

  /** The same page without a cap: the source requests it forever, and no
      bound `n` covers the walk. */
  lemma {:induction false} UncappedCycleNeverEnds<T>(u: Url, x: T, have: nat, n: nat)
    ensures var server := map[u := Response(200, [x], Some(u))];
            !Ends(server, server[u], have, None, n)
    decreases n
  {
    var server := map[u := Response(200, [x], Some(u))];
    assert Get(server, u) == Success(server[u]);
    if n > 0 {
      UncappedCycleNeverEnds(u, x, have + 1, n - 1);
    }
  }
}
