/** The four base URLs and the URL of every request the client makes.
    Ids of observations and ground stations are taken as the text Python's
    `'{}'.format(id)` produces for them; NORAD ids are integers rendered by
    `Decimal.IntToText`. Timestamps are the already formatted
    `datetime.isoformat()` text. */
module Endpoints {
  import opened Decimal

  type Url = string

  const NETWORK_DEV_BASE_URL: string := "https://network-dev.satnogs.org"
  const NETWORK_BASE_URL: string := "https://network.satnogs.org"
  const DB_BASE_URL: string := "https://db.satnogs.org"
  const DB_DEV_BASE_URL: string := "https://db-dev.satnogs.org"

  /** The Network service chosen by the `prod` flag. */
  function NetworkBase(prod: bool): (base: string)
    ensures base == NETWORK_BASE_URL <==> prod
    ensures base == NETWORK_DEV_BASE_URL <==> !prod
  {
    if prod then NETWORK_BASE_URL else NETWORK_DEV_BASE_URL
  }

  /** List of the observations of one satellite in a time window. */
  function ObservationsQueryUrl(prod: bool, noradId: int, start: string, end: string): (url: Url)
    ensures StartsWith(url, NetworkBase(prod) + "/api/observations/?satellite__norad_cat_id=")
  {
    NetworkBase(prod) + "/api/observations/?satellite__norad_cat_id=" + IntToText(noradId)
      + "&start=" + start + "&end=" + end
  }

  /** One observation, as JSON. */
  function ObservationUrl(prod: bool, observationId: string): (url: Url)
    ensures StartsWith(url, NetworkBase(prod) + "/api/observations/") && url[|url| - 1] == '/'
  {
    NetworkBase(prod) + "/api/observations/" + observationId + "/"
  }

  /** One ground station, as JSON. */
  function StationUrl(prod: bool, stationId: string): (url: Url)
    ensures StartsWith(url, NetworkBase(prod) + "/api/stations/") && url[|url| - 1] == '/'
  {
    NetworkBase(prod) + "/api/stations/" + stationId + "/"
  }

  /** One satellite of the production DB service. */
  function SatelliteUrl(noradCatId: int): (url: Url)
    ensures StartsWith(url, DB_BASE_URL + "/api/satellites/") && url[|url| - 1] == '/'
  {
    DB_BASE_URL + "/api/satellites/" + IntToText(noradCatId) + "/"
  }

  /** The HTML page of one observation (outside `/api/`). */
  function TlePageUrl(prod: bool, observationId: string): (url: Url)
    ensures StartsWith(url, NetworkBase(prod) + "/observations/") && url[|url| - 1] == '/'
  {
    NetworkBase(prod) + "/observations/" + observationId + "/"
  }

  /** Telemetry frames of one satellite, under a caller-chosen base. */
  function TelemetryUrl(base: string, noradId: int): (url: Url)
    ensures StartsWith(url, base + "/api/telemetry/?satellite=")
  {
    base + "/api/telemetry/?satellite=" + IntToText(noradId)
  }

  /** Transmitters of one satellite, under a caller-chosen base. */
  function TransmittersUrl(base: string, noradId: int): (url: Url)
    ensures StartsWith(url, base + "/api/transmitters/?satellite__norad_cat_id=")
  {
    base + "/api/transmitters/?satellite__norad_cat_id=" + IntToText(noradId)
  }

  /** The satellite catalogue, under a caller-chosen base. */
  function SatellitesUrl(base: string): (url: Url)
    ensures StartsWith(url, base) && |url| == |base| + 16
  {
    base + "/api/satellites/"
  }

  /** Target of a telemetry POST, under a caller-chosen base. */
  function TelemetryPostUrl(base: string): (url: Url)
    ensures StartsWith(url, base) && |url| == |base| + 15
  {
    base + "/api/telemetry/"
  }

  predicate StartsWith(s: string, prefix: string)
  {
    |prefix| <= |s| && s[..|prefix|] == prefix
  }

  // ----- the URL determines the request -----

  lemma PrefixCancel(pre: string, a: string, b: string)
    ensures pre + a == pre + b ==> a == b
  {
    if pre + a == pre + b {
      assert a == (pre + a)[|pre|..];
      assert b == (pre + b)[|pre|..];
    }
  }

  lemma FrameCancel(pre: string, a: string, b: string, post: string)
    ensures pre + a + post == pre + b + post ==> a == b
  {
    if pre + a + post == pre + b + post {
      assert |a| == |b|;
      assert a == (pre + a + post)[|pre|..|pre| + |a|];
      assert b == (pre + b + post)[|pre|..|pre| + |b|];
    }
  }

  /** Character 15 of the production and the development Network base differ
      ('.' against '-'), so no Network URL of one environment is a Network
      URL of the other. */
  lemma NetworkBaseDistinguishes(p1: bool, p2: bool, s1: string, s2: string)
    ensures NetworkBase(p1) + s1 == NetworkBase(p2) + s2 ==> p1 == p2
  {
    if p1 != p2 {
      assert (NetworkBase(p1) + s1)[15] == NetworkBase(p1)[15];
      assert (NetworkBase(p2) + s2)[15] == NetworkBase(p2)[15];
    }
  }

  /** A Network URL made of a base, a fixed path, an id and a fixed tail
      determines the environment and the id. */
  lemma NetworkUrlInjective(p1: bool, p2: bool, path: string, a: string, b: string, tail: string)
    ensures NetworkBase(p1) + path + a + tail == NetworkBase(p2) + path + b + tail
            <==> p1 == p2 && a == b
  {
    Regroup(NetworkBase(p1), path, a, tail);
    Regroup(NetworkBase(p2), path, b, tail);
    NetworkBaseDistinguishes(p1, p2, path + a + tail, path + b + tail);
    if p1 == p2 {
      FrameCancel(NetworkBase(p1) + path, a, b, tail);
    }
  }

  lemma Regroup(base: string, path: string, id: string, tail: string)
    ensures base + path + id + tail == base + (path + id + tail)
  {
  }

  lemma ObservationUrlInjective(p1: bool, a: string, p2: bool, b: string)
    ensures ObservationUrl(p1, a) == ObservationUrl(p2, b) <==> p1 == p2 && a == b
  {
    NetworkUrlInjective(p1, p2, "/api/observations/", a, b, "/");
  }

  lemma StationUrlInjective(p1: bool, a: string, p2: bool, b: string)
    ensures StationUrl(p1, a) == StationUrl(p2, b) <==> p1 == p2 && a == b
  {
    NetworkUrlInjective(p1, p2, "/api/stations/", a, b, "/");
  }

  lemma TlePageUrlInjective(p1: bool, a: string, p2: bool, b: string)
    ensures TlePageUrl(p1, a) == TlePageUrl(p2, b) <==> p1 == p2 && a == b
  {
    NetworkUrlInjective(p1, p2, "/observations/", a, b, "/");
  }

  lemma SatelliteUrlInjective(a: int, b: int)
    ensures SatelliteUrl(a) == SatelliteUrl(b) <==> a == b
  {
    FrameCancel(DB_BASE_URL + "/api/satellites/", IntToText(a), IntToText(b), "/");
    IntToTextInjective(a, b);
  }

  lemma TelemetryUrlInjective(base: string, a: int, b: int)
    ensures TelemetryUrl(base, a) == TelemetryUrl(base, b) <==> a == b
  {
    PrefixCancel(base + "/api/telemetry/?satellite=", IntToText(a), IntToText(b));
    IntToTextInjective(a, b);
  }

  lemma TransmittersUrlInjective(base: string, a: int, b: int)
    ensures TransmittersUrl(base, a) == TransmittersUrl(base, b) <==> a == b
  {
    PrefixCancel(base + "/api/transmitters/?satellite__norad_cat_id=", IntToText(a), IntToText(b));
    IntToTextInjective(a, b);
  }

  lemma DigitBoundary(ta: string, x: string, tb: string, y: string)
    requires |ta| < |tb| && IsDigit(tb[|ta|]) && |x| >= 1 && !IsDigit(x[0])
    ensures ta + x != tb + y
  {
    assert (ta + x)[|ta|] == x[0];
    assert (tb + y)[|ta|] == tb[|ta|];
  }

  /** An integer's text followed by a non-digit is read off unambiguously. */
  lemma IntTextDelimited(a: int, b: int, x: string, y: string)
    requires |x| >= 1 && |y| >= 1 && !IsDigit(x[0]) && !IsDigit(y[0])
    ensures IntToText(a) + x == IntToText(b) + y ==> a == b
  {
    var ta, tb := IntToText(a), IntToText(b);
    if |ta| < |tb| {
      IntTextAlphabet(b, |ta|);
      DigitBoundary(ta, x, tb, y);
    } else if |tb| < |ta| {
      IntTextAlphabet(a, |tb|);
      DigitBoundary(tb, y, ta, x);
    } else if ta + x == tb + y {
      assert ta == (ta + x)[..|ta|];
      assert tb == (tb + y)[..|tb|];
      IntToTextInjective(a, b);
    }
  }

  lemma Assoc(a: string, b: string, c: string)
    ensures a + b + c == a + (b + c)
  {
  }

  lemma QueryRegroup(base: string, path: string, t: string, k1: string, s: string, k2: string, e: string)
    requires |k1| >= 1
    ensures base + path + t + k1 + s + k2 + e == base + path + (t + (k1 + s + k2 + e))
    ensures (k1 + s + k2 + e)[0] == k1[0]
  {
  }

  /** The observation query URL determines the environment and the NORAD id. */
  lemma ObservationsQueryUrlInjective(p1: bool, a: int, s1: string, e1: string,
                                      p2: bool, b: int, s2: string, e2: string)
    ensures ObservationsQueryUrl(p1, a, s1, e1) == ObservationsQueryUrl(p2, b, s2, e2)
            ==> p1 == p2 && a == b
  {
    var path := "/api/observations/?satellite__norad_cat_id=";
    var x := "&start=" + s1 + "&end=" + e1;
    var y := "&start=" + s2 + "&end=" + e2;
    QueryRegroup(NetworkBase(p1), path, IntToText(a), "&start=", s1, "&end=", e1);
    QueryRegroup(NetworkBase(p2), path, IntToText(b), "&start=", s2, "&end=", e2);
    if ObservationsQueryUrl(p1, a, s1, e1) == ObservationsQueryUrl(p2, b, s2, e2) {
      NetworkBaseDistinguishes(p1, p2, path + (IntToText(a) + x), path + (IntToText(b) + y));
      Assoc(NetworkBase(p1), path, IntToText(a) + x);
      Assoc(NetworkBase(p2), path, IntToText(b) + y);
      PrefixCancel(NetworkBase(p1) + path, IntToText(a) + x, IntToText(b) + y);
      IntTextDelimited(a, b, x, y);
    }
  }
}
