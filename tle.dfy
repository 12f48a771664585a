/** `fetch_tle_of_observation`: fetch an observation's HTML page and rebuild
    the two TLE lines embedded in it as `<pre>1 ...<br>2 ...</pre>`. The
    search is Python's `re.search` for that one pattern: the leftmost
    position where it matches, each `(.*)` greedy (as long as possible, then
    giving back one character at a time) and never crossing a newline. */
module Tle {
  import opened Wrappers
  import opened Endpoints
  import opened Transport

  const PRE_OPEN: string := "<pre>1 "
  const LINE_BREAK: string := "<br>2 "
  const PRE_CLOSE: string := "</pre>"

  /** What `re.search(r"<pre>1 (.*)<br>2 (.*)</pre>", html)` yields. */
  datatype TleMatch = NoMatch | Match(group1: string, group2: string)

  /** The text the pattern matches when it captures `g1` and `g2`. */
  function TleBlock(g1: string, g2: string): string
  {
    PRE_OPEN + g1 + LINE_BREAK + g2 + PRE_CLOSE
  }

  predicate StartsAt(s: string, k: nat, lit: string)
  {
    k + |lit| <= |s| && s[k..k + |lit|] == lit
  }

  /** Where the line holding position `k` ends: the next newline, or the end
      of the text. `.` matches anything but a newline. */
  function LineEnd(s: string, k: nat): (e: nat)
    requires k <= |s|
    ensures k <= e <= |s|
    ensures e < |s| ==> s[e] == '\n'
    ensures forall x :: k <= x < e ==> s[x] != '\n'
    decreases |s| - k
  {
    if k == |s| || s[k] == '\n' then k else LineEnd(s, k + 1)
  }

  /** The second `(.*)</pre>`: the group ends at `m` or earlier, but not
      before `b`. The longest group that is followed by `</pre>` on the line
      is taken. */
  function LastClose(s: string, b: nat, m: nat, lineEnd: nat): (r: Option<nat>)
    requires b <= m <= lineEnd <= |s|
    ensures r.Some? ==> b <= r.value <= m && r.value + |PRE_CLOSE| <= lineEnd && StartsAt(s, r.value, PRE_CLOSE)
    decreases m
  {
    if m + |PRE_CLOSE| <= lineEnd && StartsAt(s, m, PRE_CLOSE) then Some(m)
    else if m == b then None
    else LastClose(s, b, m - 1, lineEnd)
  }

  /** The first `(.*)<br>2 ` followed by the second group: the first group
      ends at `j` or earlier, but not before `a`. The longest first group for
      which the rest of the pattern matches is taken. The result is where the
      `<br>2 ` and the `</pre>` start. */
  function LastBreak(s: string, a: nat, j: nat, lineEnd: nat): (r: Option<(nat, nat)>)
    requires a <= j <= lineEnd <= |s|
    ensures r.Some? ==>
              && a <= r.value.0 && r.value.0 + |LINE_BREAK| <= r.value.1
              && r.value.1 + |PRE_CLOSE| <= lineEnd
              && StartsAt(s, r.value.0, LINE_BREAK) && StartsAt(s, r.value.1, PRE_CLOSE)
    decreases j
  {
    var close := if j + |LINE_BREAK| <= lineEnd && StartsAt(s, j, LINE_BREAK)
                 then LastClose(s, j + |LINE_BREAK|, lineEnd, lineEnd) else None;
    if close.Some? then Some((j, close.value))
    else if j == a then None
    else LastBreak(s, a, j - 1, lineEnd)
  }

  /** The pattern matched at position `i`, if it matches there. */
  function MatchAt(s: string, i: nat): (r: Option<(nat, nat)>)
    requires i <= |s|
    ensures r.Some? ==>
              && StartsAt(s, i, PRE_OPEN)
              && i + |PRE_OPEN| <= r.value.0 && r.value.0 + |LINE_BREAK| <= r.value.1
              && r.value.1 + |PRE_CLOSE| <= LineEnd(s, i + |PRE_OPEN|)
              && StartsAt(s, r.value.0, LINE_BREAK) && StartsAt(s, r.value.1, PRE_CLOSE)
  {
    if StartsAt(s, i, PRE_OPEN) then
      var a := i + |PRE_OPEN|;
      LastBreak(s, a, LineEnd(s, a), LineEnd(s, a))
    else None
  }

  /** The leftmost match at or after position `i`. */
  function SearchFrom(s: string, i: nat): TleMatch
    requires i <= |s|
    decreases |s| - i
  {
    match MatchAt(s, i)
    case Some((j, m)) => Match(s[i + |PRE_OPEN|..j], s[j + |LINE_BREAK|..m])
    case None => if i == |s| then NoMatch else SearchFrom(s, i + 1)
  }

  function TleSearch(html: string): TleMatch
  {
    SearchFrom(html, 0)
  }

  /** `['1 ' + group(1), '2 ' + group(2)]`; with no match `matches.group`
      raises, which is an error here. */
  function TleLines(m: TleMatch): (r: Result<seq<string>, Error>)
    ensures r.Failure? <==> m.NoMatch?
    ensures r.Failure? ==> r.error == NoTleMatch
    ensures r.Success? ==>
              && |r.value| == 2
              && |r.value[0]| >= 2 && r.value[0][..2] == "1 " && r.value[0][2..] == m.group1
              && |r.value[1]| >= 2 && r.value[1][..2] == "2 " && r.value[1][2..] == m.group2
  {
    match m
    case NoMatch => Failure(NoTleMatch)
    case Match(g1, g2) => Success(["1 " + g1, "2 " + g2])
  }

  /** The model of `fetch_tle_of_observation`. The reply's status is never
      checked: only a request that cannot be made raises before the search. */
  function FetchTleOfObservation(server: Server<string>, observationId: string, prod: bool := true)
    : (r: Result<seq<string>, Error>)
    ensures TlePageUrl(prod, observationId) !in server ==>
              r == Failure(ConnectionError(TlePageUrl(prod, observationId)))
    ensures TlePageUrl(prod, observationId) in server ==>
              r == TleLines(TleSearch(server[TlePageUrl(prod, observationId)].body))
  {
    match Request(server, TlePageUrl(prod, observationId))
    case Failure(e) => Failure(e)
    case Success(resp) => TleLines(TleSearch(resp.body))
  }

  /** Whatever the status of the page (a 404 included), the result depends
      only on the page's text. */
  lemma TleIgnoresStatus(server: Server<string>, observationId: string, prod: bool, status: int)
    requires TlePageUrl(prod, observationId) in server
    ensures var url := TlePageUrl(prod, observationId);
            FetchTleOfObservation(server[url := server[url].(status := status)], observationId, prod)
              == FetchTleOfObservation(server, observationId, prod)
  {
  }

  // ----- soundness: what a match says about the page -----

  lemma SliceJoin(s: string, p: nat, q: nat, r: nat)
    requires p <= q <= r <= |s|
    ensures s[p..r] == s[p..q] + s[q..r]
  {
  }

  lemma NoNewlineIn(s: string, p: nat, q: nat)
    requires p <= q <= |s|
    requires forall x :: p <= x < q ==> s[x] != '\n'
    ensures '\n' !in s[p..q]
  {
    assert forall y :: 0 <= y < q - p ==> s[p..q][y] == s[p + y];
  }

  /** A match at `i` is a whole TLE block starting at `i`, and neither
      group crosses a line. */
  lemma MatchAtSound(s: string, i: nat)
    requires i <= |s| && MatchAt(s, i).Some?
    ensures var (j, m) := MatchAt(s, i).value;
            var g1, g2 := s[i + |PRE_OPEN|..j], s[j + |LINE_BREAK|..m];
            && '\n' !in g1 && '\n' !in g2
            && StartsAt(s, i, TleBlock(g1, g2))
  {
    var (j, m) := MatchAt(s, i).value;
    var a := i + |PRE_OPEN|;
    var g1, g2 := s[a..j], s[j + |LINE_BREAK|..m];
    var e := m + |PRE_CLOSE|;
    SliceJoin(s, i, a, j);
    SliceJoin(s, i, j, j + |LINE_BREAK|);
    SliceJoin(s, i, j + |LINE_BREAK|, m);
    SliceJoin(s, i, m, e);
    assert s[i..e] == TleBlock(g1, g2);
    NoNewlineIn(s, a, j);
    NoNewlineIn(s, j + |LINE_BREAK|, m);
  }

  /** A match found at or after `i` is a whole TLE block in the page, at or
      after `i`, and neither group crosses a line. */
  lemma {:induction false} SearchFromSound(s: string, i: nat)
    requires i <= |s|
    ensures SearchFrom(s, i).Match? ==>
              var g1, g2 := SearchFrom(s, i).group1, SearchFrom(s, i).group2;
              && '\n' !in g1 && '\n' !in g2
              && exists k :: i <= k && StartsAt(s, k, TleBlock(g1, g2))
    decreases |s| - i
  {
    if MatchAt(s, i).Some? {
      MatchAtSound(s, i);
    } else if i < |s| {
      SearchFromSound(s, i + 1);
    }
  }

  /** Whatever the page, the two lines returned, put back between `<pre>`,
      `<br>` and `</pre>`, occur in it as one block, and neither holds a
      newline. */
  lemma FetchTleSound(server: Server<string>, observationId: string, prod: bool)
    ensures var r := FetchTleOfObservation(server, observationId, prod);
            r.Success? ==>
              var html := server[TlePageUrl(prod, observationId)].body;
              && |r.value| == 2 && '\n' !in r.value[0] && '\n' !in r.value[1]
              && exists k :: StartsAt(html, k, "<pre>" + r.value[0] + "<br>" + r.value[1] + "</pre>")
  {
    var r := FetchTleOfObservation(server, observationId, prod);
    if r.Success? {
      var html := server[TlePageUrl(prod, observationId)].body;
      SearchFromSound(html, 0);
      var g1, g2 := TleSearch(html).group1, TleSearch(html).group2;
      assert r.value == ["1 " + g1, "2 " + g2];
      BlockOfLines(g1, g2);
      NewlineFreeLines(g1, g2);
    }
  }

  /** The two lines, put back between `<pre>`, `<br>` and `</pre>`, are the
      block the pattern matched. */
  lemma BlockOfLines(g1: string, g2: string)
    ensures "<pre>" + ("1 " + g1) + "<br>" + ("2 " + g2) + "</pre>" == TleBlock(g1, g2)
  {
    Regroup5("<pre>", "1 ", g1, "<br>", "2 ", g2, "</pre>");
    assert "<pre>" + "1 " == PRE_OPEN && "<br>" + "2 " == LINE_BREAK;
  }

  lemma NewlineFreeLines(g1: string, g2: string)
    requires '\n' !in g1 && '\n' !in g2
    ensures '\n' !in "1 " + g1 && '\n' !in "2 " + g2
  {
  }

  lemma Regroup5<T>(a: seq<T>, b: seq<T>, c: seq<T>, d: seq<T>, e: seq<T>, f: seq<T>, g: seq<T>)
    ensures a + (b + c) + d + (e + f) + g == a + b + c + d + e + f + g
  {
  }

  // ----- completeness: a page with one well-formed TLE block -----

  /** The page `pre + TleBlock(g1, g2) + post`, where the search can only
      find that block: no `<pre>1 ` starts before it, no `<br>2 ` starts
      inside the second group (or the text around it), no `</pre>` starts
      after it on the same line, and neither group holds a newline. */
  ghost predicate WellFormedTlePage(pre: string, g1: string, g2: string, post: string)
  {
    var html := pre + TleBlock(g1, g2) + post;
    var a := |pre| + |PRE_OPEN|;
    var j := a + |g1|;
    var m := j + |LINE_BREAK| + |g2|;
    && '\n' !in g1 && '\n' !in g2
    && (forall k :: 0 <= k < |pre| ==> !StartsAt(html, k, PRE_OPEN))
    && (forall k :: j < k < m ==> !StartsAt(html, k, LINE_BREAK))
    && (forall k :: m < k && k + |PRE_CLOSE| <= LineEnd(html, a) ==> !StartsAt(html, k, PRE_CLOSE))
  }

  lemma Middle<T>(x: seq<T>, y: seq<T>, z: seq<T>)
    ensures (x + y + z)[|x|..|x| + |y|] == y
  {
  }

  lemma SliceOfSlice<T>(s: seq<T>, i: nat, p: nat, q: nat, n: nat)
    requires p <= q <= n && i + n <= |s|
    ensures s[i..i + n][p..q] == s[i + p..i + q]
  {
    var t := s[i..i + n];
    forall y | 0 <= y < q - p
      ensures t[p..q][y] == s[i + p..i + q][y]
    {
      assert t[p..q][y] == t[p + y];
      assert t[p + y] == s[i + p + y];
    }
  }

  lemma Slice5<T>(o: seq<T>, g1: seq<T>, b: seq<T>, g2: seq<T>, c: seq<T>)
    ensures var t := o + g1 + b + g2 + c;
            var a := |o|;
            var j := a + |g1|;
            var k := j + |b|;
            var m := k + |g2|;
            && t[0..a] == o && t[a..j] == g1 && t[j..k] == b && t[k..m] == g2 && t[m..|t|] == c
  {
    var t := o + g1 + b + g2 + c;
    Middle(o, g1, b + g2 + c);
    assert t == o + g1 + (b + g2 + c);
    Middle(o + g1, b, g2 + c);
    assert t == o + g1 + b + (g2 + c);
    Middle(o + g1 + b, g2, c);
  }

  lemma Decompose<T>(pre: seq<T>, o: seq<T>, g1: seq<T>, b: seq<T>, g2: seq<T>, c: seq<T>, post: seq<T>)
    ensures var s := pre + (o + g1 + b + g2 + c) + post;
            var i := |pre|;
            var a := i + |o|;
            var j := a + |g1|;
            var k := j + |b|;
            var m := k + |g2|;
            && |s| == m + |c| + |post|
            && s[i..a] == o && s[a..j] == g1 && s[j..k] == b && s[k..m] == g2 && s[m..m + |c|] == c
  {
    var t := o + g1 + b + g2 + c;
    var s := pre + t + post;
    var i, n := |pre|, |t|;
    var a := |o|;
    var j := a + |g1|;
    var k := j + |b|;
    var m := k + |g2|;
    assert s[i..i + n] == t by { Middle(pre, t, post); }
    assert s[i..i + a] == o by { SliceOfSlice(s, i, 0, a, n); Slice5(o, g1, b, g2, c); }
    assert s[i + a..i + j] == g1 by { SliceOfSlice(s, i, a, j, n); Slice5(o, g1, b, g2, c); }
    assert s[i + j..i + k] == b by { SliceOfSlice(s, i, j, k, n); Slice5(o, g1, b, g2, c); }
    assert s[i + k..i + m] == g2 by { SliceOfSlice(s, i, k, m, n); Slice5(o, g1, b, g2, c); }
    assert s[i + m..i + n] == c by { SliceOfSlice(s, i, m, n, n); Slice5(o, g1, b, g2, c); }
  }

  /** Past a stretch without a newline, the line has not ended yet. */
  lemma {:induction false} LineEndBeyond(s: string, k: nat, e: nat)
    requires k <= e <= |s|
    requires forall x :: k <= x < e ==> s[x] != '\n'
    ensures LineEnd(s, k) >= e
    decreases |s| - k
  {
    if k < e {
      LineEndBeyond(s, k + 1, e);
    }
  }

  lemma {:induction false} LastCloseFinds(s: string, b: nat, m: nat, lineEnd: nat, m0: nat)
    requires b <= m0 <= m <= lineEnd <= |s|
    requires m0 + |PRE_CLOSE| <= lineEnd && StartsAt(s, m0, PRE_CLOSE)
    requires forall x :: m0 < x <= m && x + |PRE_CLOSE| <= lineEnd ==> !StartsAt(s, x, PRE_CLOSE)
    ensures LastClose(s, b, m, lineEnd) == Some(m0)
    decreases m
  {
    if m > m0 {
      LastCloseFinds(s, b, m - 1, lineEnd, m0);
    }
  }

  lemma {:induction false} LastCloseNone(s: string, b: nat, m: nat, lineEnd: nat)
    requires b <= m <= lineEnd <= |s|
    requires forall x :: b <= x <= m && x + |PRE_CLOSE| <= lineEnd ==> !StartsAt(s, x, PRE_CLOSE)
    ensures LastClose(s, b, m, lineEnd) == None
    decreases m
  {
    if m > b {
      LastCloseNone(s, b, m - 1, lineEnd);
    }
  }

  lemma {:induction false} LastBreakFinds(s: string, a: nat, j: nat, lineEnd: nat, j0: nat, m0: nat)
    requires a <= j0 <= j <= lineEnd <= |s|
    requires j0 + |LINE_BREAK| <= lineEnd && StartsAt(s, j0, LINE_BREAK)
    requires LastClose(s, j0 + |LINE_BREAK|, lineEnd, lineEnd) == Some(m0)
    requires forall k :: j0 < k <= j && k + |LINE_BREAK| <= lineEnd && StartsAt(s, k, LINE_BREAK) ==>
               LastClose(s, k + |LINE_BREAK|, lineEnd, lineEnd).None?
    ensures LastBreak(s, a, j, lineEnd) == Some((j0, m0))
    decreases j
  {
    if j > j0 {
      LastBreakFinds(s, a, j - 1, lineEnd, j0, m0);
    }
  }

  lemma {:induction false} SearchSkips(s: string, i: nat, i0: nat)
    requires i <= i0 <= |s|
    requires forall k :: i <= k < i0 ==> !StartsAt(s, k, PRE_OPEN)
    ensures SearchFrom(s, i) == SearchFrom(s, i0)
    decreases i0 - i
  {
    if i < i0 {
      SearchSkips(s, i + 1, i0);
    }
  }

  lemma NoNewlineSlice(s: string, p: nat, q: nat, t: string)
    requires p <= q <= |s| && s[p..q] == t && '\n' !in t
    ensures forall x :: p <= x < q ==> s[x] != '\n'
  {
    forall x | p <= x < q
      ensures s[x] != '\n'
    {
      assert s[x] == t[x - p];
    }
  }

  /** The block lies on one line: the line of its first group ends at or
      after the block's end. */
  lemma BlockOnOneLine(pre: string, g1: string, g2: string, post: string)
    requires '\n' !in g1 && '\n' !in g2
    ensures var html := pre + TleBlock(g1, g2) + post;
            var a := |pre| + |PRE_OPEN|;
            && a <= |html|
            && LineEnd(html, a) >= |pre| + |TleBlock(g1, g2)|
  {
    var html := pre + TleBlock(g1, g2) + post;
    var i0 := |pre|;
    var a := i0 + |PRE_OPEN|;
    var j0 := a + |g1|;
    var k0 := j0 + |LINE_BREAK|;
    var m0 := k0 + |g2|;
    var e := m0 + |PRE_CLOSE|;
    Decompose(pre, PRE_OPEN, g1, LINE_BREAK, g2, PRE_CLOSE, post);
    assert '\n' !in LINE_BREAK && '\n' !in PRE_CLOSE;
    NoNewlineSlice(html, a, j0, g1);
    NoNewlineSlice(html, j0, k0, LINE_BREAK);
    NoNewlineSlice(html, k0, m0, g2);
    NoNewlineSlice(html, m0, e, PRE_CLOSE);
    LineEndBeyond(html, a, e);
  }

  /** No `<br>2 ` after the block's own one can start a first group for
      which a `</pre>` follows on the line. */
  lemma NoLaterBreak(s: string, j0: nat, m0: nat, lineEnd: nat)
    requires m0 <= lineEnd <= |s|
    requires forall k :: j0 < k < m0 ==> !StartsAt(s, k, LINE_BREAK)
    requires forall k :: m0 < k && k + |PRE_CLOSE| <= lineEnd ==> !StartsAt(s, k, PRE_CLOSE)
    ensures forall k :: j0 < k <= lineEnd && k + |LINE_BREAK| <= lineEnd && StartsAt(s, k, LINE_BREAK) ==>
              LastClose(s, k + |LINE_BREAK|, lineEnd, lineEnd).None?
  {
    forall k | j0 < k <= lineEnd && k + |LINE_BREAK| <= lineEnd && StartsAt(s, k, LINE_BREAK)
      ensures LastClose(s, k + |LINE_BREAK|, lineEnd, lineEnd).None?
    {
      LastCloseNone(s, k + |LINE_BREAK|, lineEnd, lineEnd);
    }
  }

  /** On a well-formed page the search captures exactly the block's two
      groups. */
  lemma TleSearchFindsBlock(pre: string, g1: string, g2: string, post: string)
    requires WellFormedTlePage(pre, g1, g2, post)
    ensures TleSearch(pre + TleBlock(g1, g2) + post) == Match(g1, g2)
  {
    var html := pre + TleBlock(g1, g2) + post;
    var i0 := |pre|;
    var a := i0 + |PRE_OPEN|;
    var j0 := a + |g1|;
    var k0 := j0 + |LINE_BREAK|;
    var m0 := k0 + |g2|;
    Decompose(pre, PRE_OPEN, g1, LINE_BREAK, g2, PRE_CLOSE, post);
    BlockOnOneLine(pre, g1, g2, post);
    var lineEnd := LineEnd(html, a);
    LastCloseFinds(html, k0, lineEnd, lineEnd, m0);
    NoLaterBreak(html, j0, m0, lineEnd);
    LastBreakFinds(html, a, lineEnd, lineEnd, j0, m0);
    assert MatchAt(html, i0) == Some((j0, m0));
    SearchSkips(html, 0, i0);
  }

  /** `fetch_tle_of_observation` on a page with one well-formed TLE block
      returns its two lines, each with its line-number prefix. */
  lemma FetchTleOfWellFormedPage(server: Server<string>, observationId: string, prod: bool,
                                 pre: string, g1: string, g2: string, post: string)
    requires TlePageUrl(prod, observationId) in server
    requires server[TlePageUrl(prod, observationId)].body == pre + TleBlock(g1, g2) + post
    requires WellFormedTlePage(pre, g1, g2, post)
    ensures FetchTleOfObservation(server, observationId, prod) == Success(["1 " + g1, "2 " + g2])
  {
    TleSearchFindsBlock(pre, g1, g2, post);
  }

  /** A literal cannot start where the text holds a character other than
      the literal's first. */
  lemma CharBlocksLiteral(s: string, k: nat, lit: string)
    requires |lit| > 0 && k < |s| && s[k] != lit[0]
    ensures !StartsAt(s, k, lit)
  {
    if k + |lit| <= |s| {
      assert s[k..k + |lit|][0] == s[k];
    }
  }

  lemma ExampleWellFormed()
    ensures "" + TleBlock("AAAA", "BBBB") + "" == "<pre>1 AAAA<br>2 BBBB</pre>"
    ensures WellFormedTlePage("", "AAAA", "BBBB", "")
  {
    var html := "" + TleBlock("AAAA", "BBBB") + "";
    assert html == "<pre>1 AAAA<br>2 BBBB</pre>";
    forall k | 11 < k < 21
      ensures !StartsAt(html, k, LINE_BREAK)
    {
      CharBlocksLiteral(html, k, LINE_BREAK);
    }
  }

  /** A page that is exactly `<pre>1 AAAA<br>2 BBBB</pre>` gives the two
      lines `1 AAAA` and `2 BBBB`. */
  lemma TleExamplePage(server: Server<string>, observationId: string, prod: bool)
    requires TlePageUrl(prod, observationId) in server
    requires server[TlePageUrl(prod, observationId)].body == "<pre>1 AAAA<br>2 BBBB</pre>"
    ensures FetchTleOfObservation(server, observationId, prod) == Success(["1 AAAA", "2 BBBB"])
  {
    ExampleWellFormed();
    FetchTleOfWellFormedPage(server, observationId, prod, "", "AAAA", "BBBB", "");
    assert "1 " + "AAAA" == "1 AAAA" && "2 " + "BBBB" == "2 BBBB";
  }

  /** A page in which `<pre>1 ` never occurs yields no match: where the
      source raises, the model fails with `NoTleMatch`. */
  lemma TleMissingBlockFails(server: Server<string>, observationId: string, prod: bool)
    requires TlePageUrl(prod, observationId) in server
    requires var html := server[TlePageUrl(prod, observationId)].body;
             forall k :: 0 <= k <= |html| ==> !StartsAt(html, k, PRE_OPEN)
    ensures FetchTleOfObservation(server, observationId, prod) == Failure(NoTleMatch)
  {
    var html := server[TlePageUrl(prod, observationId)].body;
    SearchSkips(html, 0, |html|);
  }
}
