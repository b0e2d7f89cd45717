/** The pure pieces of `Client.Get<T>`: the resource URL, the merged parameter sequence and
    the query string appended to the URL. */
module RequestUrl {
  import opened Wrappers
  import opened Strings
  import opened Enums
  import opened FieldSelector

  /** One query parameter: a key and its value, both sent verbatim. */
  type Parameter = (string, string)

  /** What one call hands to the request manager: the final URL and the conditional-fetch
      timestamp, which is only passed through. */
  datatype Request<D> = Request(url: string, ifModifiedSince: Option<D>)

  function Scheme(useHttps: bool): string {
    if useHttps then "https" else "http"
  }

  /** `string.Format("{0}://{1}.battle.net/api/{2}/{3}", scheme, region, BaseUrl, path)`. */
  function ResourceUrl(useHttps: bool, region: Region, baseUrl: string, path: string): string {
    Scheme(useHttps) + "://" + Lower(RegionName(region)) + ".battle.net/api/" + baseUrl + "/" + path
  }

  /** The parameters as `Get<T>` assembles them: the caller's pairs (none when absent), then
      a `fields` pair whenever a fields value is given, then a `locale` pair whenever a
      locale is given. */
  function MergeParameters(parameters: Option<seq<Parameter>>, fields: Option<FlagsEnum>,
                           locale: Option<Locale>): (ps: seq<Parameter>)
    ensures var caller := parameters.GetOr([]);
      |ps| == |caller| + (if fields.Some? then 1 else 0) + (if locale.Some? then 1 else 0) &&
      ps[..|caller|] == caller &&
      (fields.Some? ==> ps[|caller|] == ("fields", FieldsString(fields.value))) &&
      (locale.Some? ==> ps[|ps| - 1] == ("locale", LocaleName(locale.value)))
  {
    var caller := parameters.GetOr([]);
    var withFields := if fields.Some? then caller + [("fields", FieldsString(fields.value))] else caller;
    if locale.Some? then withFields + [("locale", LocaleName(locale.value))] else withFields
  }

  /** `string.Format("{0}={1}", key, value)`. */
  function PairText(p: Parameter): string {
    p.0 + "=" + p.1
  }

  /** `string.Join("&", pairs)`, with no percent-encoding. Every pair contributes at least
      its `=`, so only the empty list gives the empty string. */
  function QueryString(ps: seq<Parameter>): (q: string)
    ensures q == "" <==> ps == []
  {
    var texts := seq(|ps|, i requires 0 <= i < |ps| => PairText(ps[i]));
    assert forall i :: 0 <= i < |ps| ==> texts[i][|ps[i].0|] == '=';
    JoinEnds("&", texts);
    Join("&", texts)
  }

  /** The URL with `?` and the query string appended when there are parameters. */
  function WithQuery(url: string, ps: seq<Parameter>): string {
    if |ps| > 0 then url + "?" + QueryString(ps) else url
  }

  /** Reading a query string back into pairs: split at `&`, then each piece at its first `=`.
      This is the inverse the request URL is meant to have for the server. */
  function ParseQuery(q: string): seq<Parameter> {
    var pieces := Split(q, '&');
    seq(|pieces|, i requires 0 <= i < |pieces| => SplitFirst(pieces[i], '='))
  }

  /** Keys and values that survive the unencoded query string: no `&` anywhere, no `=` in
      a key. */
  predicate Plain(ps: seq<Parameter>) {
    forall i :: 0 <= i < |ps| ==> '&' !in ps[i].0 && '=' !in ps[i].0 && '&' !in ps[i].1
  }

  // ---------------------------------------------------------------- lemmas

  /** The scheme is `https` exactly in auth mode, `http` otherwise, and the host is the
      lower-case region name under `battle.net`. */
  lemma ResourceUrlPrefix(useHttps: bool, region: Region, baseUrl: string, path: string)
    ensures var url, n := ResourceUrl(useHttps, region, baseUrl, path), |Scheme(useHttps)|;
      (|url| >= 8 && url[..8] == "https://" <==> useHttps) &&
      (!useHttps ==> url[..7] == "http://") &&
      url[n + 3..n + 5] == Lower(RegionName(region)) &&
      url[n + 5..n + 21] == ".battle.net/api/" &&
      url[n + 21..] == baseUrl + "/" + path
  {
    var url, n := ResourceUrl(useHttps, region, baseUrl, path), |Scheme(useHttps)|;
    assert |Lower(RegionName(region))| == 2;
    assert url == Scheme(useHttps) + "://" + Lower(RegionName(region)) + ".battle.net/api/" + (baseUrl + "/" + path);
    if !useHttps {
      assert url[4] == ':';
    }
  }

  /** The scheme, the region and the rest of the path can all be read back from a resource
      URL: different inputs give different URLs unless they agree on `baseUrl + "/" + path`. */
  lemma ResourceUrlInjective(h1: bool, r1: Region, b1: string, p1: string,
                             h2: bool, r2: Region, b2: string, p2: string)
    requires ResourceUrl(h1, r1, b1, p1) == ResourceUrl(h2, r2, b2, p2)
    ensures h1 == h2 && r1 == r2 && b1 + "/" + p1 == b2 + "/" + p2
  {
    ResourceUrlPrefix(h1, r1, b1, p1);
    ResourceUrlPrefix(h2, r2, b2, p2);
    var n := |Scheme(h1)|;
    assert h1 == h2;
    assert Lower(RegionName(r1)) == Lower(RegionName(r2));
    HostNames(r1);
    HostNames(r2);
  }

  /** The lower-cased region names used as host labels. */
  lemma HostNames(r: Region)
    ensures Lower(RegionName(r)) == match r
      case US => "us"
      case EU => "eu"
      case KR => "kr"
      case TW => "tw"
  {
    var n := RegionName(r);
    assert Lower(n) == [LowerChar(n[0]), LowerChar(n[1])];
  }

  /** The URL is left untouched exactly when there are no parameters; otherwise it is
      extended behind a `?`. */
  lemma WithQueryUnchanged(url: string, ps: seq<Parameter>)
    ensures WithQuery(url, ps) == url <==> ps == []
    ensures ps != [] ==> (|WithQuery(url, ps)| > |url| &&
                          WithQuery(url, ps)[..|url|] == url && WithQuery(url, ps)[|url|] == '?')
  {
    if ps != [] {
      assert |WithQuery(url, ps)| > |url|;
    }
  }

  /** Parsing undoes the query string when no key or value contains a delimiter. */
  lemma QueryRoundTrip(ps: seq<Parameter>)
    requires ps != [] && Plain(ps)
    ensures ParseQuery(QueryString(ps)) == ps
  {
    var texts := seq(|ps|, i requires 0 <= i < |ps| => PairText(ps[i]));
    forall i | 0 <= i < |ps| ensures '&' !in texts[i] {
      assert texts[i] == ps[i].0 + ['='] + ps[i].1;
    }
    SplitJoin(texts, '&');
    assert Join("&", texts) == Join(['&'], texts);
    forall i | 0 <= i < |ps| ensures SplitFirst(texts[i], '=') == ps[i] {
      assert texts[i] == ps[i].0 + ['='] + ps[i].1;
      SplitFirstAt(ps[i].0, '=', ps[i].1);
    }
  }

  /** A URL with a non-empty plain parameter list carries exactly those parameters after
      its `?`. */
  lemma WithQueryCarries(url: string, ps: seq<Parameter>)
    requires ps != [] && Plain(ps)
    ensures |WithQuery(url, ps)| > |url|
    ensures ParseQuery(WithQuery(url, ps)[|url| + 1..]) == ps
  {
    assert WithQuery(url, ps)[|url| + 1..] == QueryString(ps);
    QueryRoundTrip(ps);
  }

  /** No percent-encoding: a value containing `&` and `=` produces the same query string as
      two separate parameters, so the server cannot tell them apart. */
  lemma QueryNotEncoded()
    ensures QueryString([("a", "1&b=2")]) == QueryString([("a", "1"), ("b", "2")])
    ensures [("a", "1&b=2")] != [("a", "1"), ("b", "2")]
  {
    assert QueryString([("a", "1&b=2")]) == "a=1&b=2";
    var ps := [("a", "1"), ("b", "2")];
    assert PairText(ps[0]) == "a=1" && PairText(ps[1]) == "b=2";
    assert seq(|ps|, i requires 0 <= i < |ps| => PairText(ps[i])) == ["a=1", "b=2"];
    assert Join("&", ["a=1", "b=2"]) == "a=1" + "&" + Join("&", ["b=2"]);
  }

  /** The merge never drops, merges or overwrites a caller pair, even one whose key is
      `fields` or `locale`. */
  lemma MergeKeepsCallerPairs(parameters: seq<Parameter>, fields: Option<FlagsEnum>,
                              locale: Option<Locale>, i: nat)
    requires i < |parameters|
    ensures MergeParameters(Some(parameters), fields, locale)[i] == parameters[i]
  {
    var ps := MergeParameters(Some(parameters), fields, locale);
    assert ps[..|parameters|][i] == parameters[i];
  }

  /** A fields value always adds a `fields` pair, even when it selects no name. */
  lemma EmptySelectionStillSent(t: EnumTable)
    ensures MergeParameters(None, Some(FlagsEnum(t, NoneValue)), None) == [("fields", "")]
  {
    FieldsStringOfNone(t);
  }
}
