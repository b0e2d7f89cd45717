/** The abstract `Client` base class: immutable configuration fixed at construction and the
    single request-shaping operation `Get<T>`, which here returns the request it would hand
    to the request manager. */
module BattleDotNet {
  import opened Wrappers
  import opened Strings
  import opened Enums
  import opened FieldSelector
  import opened RequestUrl

  /** A path with no `/` at either end. */
  predicate Normalized(s: string) {
    s == [] || (s[0] != '/' && s[|s| - 1] != '/')
  }

  type NormalizedPath = s: string | Normalized(s) witness ""

  /** `path.TrimEnd('/').TrimStart('/')`: the slice of `path` left after cutting off every
      leading and trailing slash. */
  function NormalizePath(path: string): (r: string)
    ensures Normalized(r)
    ensures exists i, j :: 0 <= i <= j <= |path| && r == path[i..j] &&
                           (forall k :: 0 <= k < i ==> path[k] == '/') &&
                           (forall k :: j <= k < |path| ==> path[k] == '/')
  {
    var e := TrimEnd(path, '/');
    var r := TrimStart(e, '/');
    assert r == path[|e| - |r|..|e|];
    r
  }

  /** `IsNullOrWhiteSpace()`: absent, or made of white space only (the empty string too). */
  predicate IsNullOrWhiteSpace(s: Option<string>) {
    s.None? || forall i :: 0 <= i < |s.value| ==> IsWhiteSpace(s.value[i])
  }

  /** Auth mode, which selects HTTPS: both keys present and neither blank. */
  function AuthMode(publicKey: Option<string>, privateKey: Option<string>): bool {
    !IsNullOrWhiteSpace(publicKey) && !IsNullOrWhiteSpace(privateKey)
  }

  /** The exception the constructor throws. */
  datatype ConstructionError = ArgumentNull(paramName: string)

  class Client {
    /** `BaseUrl`, stored normalized. */
    const baseUrl: NormalizedPath
    /** `UseHttps`. */
    const useHttps: bool
    /** `Region`: its private setter is never called, so it keeps `default(Region)`. */
    const region: Region := DefaultRegion()
    /** The credentials handed to the request manager, which signs requests with them. */
    const publicKey: Option<string>
    const privateKey: Option<string>

    /** The constructor for a present `baseUrl`; its `region` argument is never stored. */
    constructor (baseUrl: string, region: Option<Region>, publicKey: Option<string>,
                 privateKey: Option<string>)
      ensures this.baseUrl == NormalizePath(baseUrl)
      ensures this.useHttps == AuthMode(publicKey, privateKey)
      ensures this.region == US
      ensures this.publicKey == publicKey && this.privateKey == privateKey
    {
      this.useHttps := AuthMode(publicKey, privateKey);
      this.baseUrl := NormalizePath(baseUrl);
      this.publicKey := publicKey;
      this.privateKey := privateKey;
    }

    /** `Get<T>(path, parameters, region, fields, fullUrl, ifModifiedSince, locale)`, up to
        the hand-off to the request manager. */
    method Get<D>(path: Option<string>, parameters: Option<seq<Parameter>>, region: Option<Region>,
                  fields: Option<FlagsEnum>, fullUrl: Option<string>, ifModifiedSince: Option<D>,
                  locale: Option<Locale>) returns (req: Request<D>)
      ensures req.ifModifiedSince == ifModifiedSince
      ensures req.url == WithQuery(
                fullUrl.GetOr(ResourceUrl(useHttps, region.GetOr(this.region), baseUrl, path.GetOr(""))),
                MergeParameters(parameters, fields, locale))
      ensures fullUrl.Some? ==> |fullUrl.value| <= |req.url| && req.url[..|fullUrl.value|] == fullUrl.value
      ensures fullUrl.None? ==> ResourceUrl(useHttps, region.GetOr(US), baseUrl, path.GetOr("")) <= req.url
      ensures (req.url == fullUrl.GetOr(ResourceUrl(useHttps, region.GetOr(US), baseUrl, path.GetOr(""))))
              <==> MergeParameters(parameters, fields, locale) == []
    {
      var url := if fullUrl.Some? then fullUrl.value
                 else ResourceUrl(useHttps, region.GetOr(this.region), baseUrl, path.GetOr(""));
      var ps := parameters.GetOr([]);
      if fields.Some? {
        ps := ps + [("fields", FieldsString(fields.value))];
      }
      if locale.Some? {
        ps := ps + [("locale", LocaleName(locale.value))];
      }
      ghost var bare := url;
      if |ps| > 0 {
        url := url + "?" + QueryString(ps);
      }
      assert ps == MergeParameters(parameters, fields, locale);
      WithQueryUnchanged(bare, ps);
      req := Request(url, ifModifiedSince);
    }
  }

  /** `new Client(baseUrl, region, publicKey, privateKey)`: fails with an argument error
      when `baseUrl` is null, and otherwise builds the client. */
  method NewClient(baseUrl: Option<string>, region: Option<Region>, publicKey: Option<string>,
                   privateKey: Option<string>) returns (r: Result<Client, ConstructionError>)
    ensures r.Failure? <==> baseUrl.None?
    ensures r.Failure? ==> r.error == ArgumentNull("baseUrl")
    ensures r.Success? ==> fresh(r.value) && r.value.baseUrl == NormalizePath(baseUrl.value) &&
                           r.value.useHttps == AuthMode(publicKey, privateKey) && r.value.region == US &&
                           r.value.publicKey == publicKey && r.value.privateKey == privateKey
  {
    if baseUrl.None? {
      return Failure(ArgumentNull("baseUrl"));
    }
    var c := new Client(baseUrl.value, region, publicKey, privateKey);
    r := Success(c);
  }

  // ---------------------------------------------------------------- lemmas

  /** Normalizing twice is normalizing once. */
  lemma NormalizePathIdempotent(path: string)
    ensures NormalizePath(NormalizePath(path)) == NormalizePath(path)
  {
    NormalizedIsFixed(NormalizePath(path));
  }

  /** A path is left alone exactly when it has no slash at either end. */
  lemma NormalizedIsFixed(path: string)
    ensures NormalizePath(path) == path <==> Normalized(path)
  {
    if Normalized(path) {
      assert TrimEnd(path, '/') == path;
      assert TrimStart(path, '/') == path;
    }
  }

  /** A path made of slashes only normalizes to the empty string. */
  lemma SlashesOnly(path: string)
    requires forall k :: 0 <= k < |path| ==> path[k] == '/'
    ensures NormalizePath(path) == ""
  {
  }

  /** Auth mode holds exactly when both keys are present and each has a character that is
      not white space. */
  lemma AuthModeIff(publicKey: Option<string>, privateKey: Option<string>)
    ensures AuthMode(publicKey, privateKey) <==>
      publicKey.Some? && privateKey.Some? &&
      (exists i :: 0 <= i < |publicKey.value| && !IsWhiteSpace(publicKey.value[i])) &&
      (exists i :: 0 <= i < |privateKey.value| && !IsWhiteSpace(privateKey.value[i]))
  {
  }

  /** A blank key on either side turns auth mode off, whatever the other key is. */
  lemma BlankKeyDisablesAuth(publicKey: Option<string>, privateKey: Option<string>, blank: string)
    requires forall i :: 0 <= i < |blank| ==> IsWhiteSpace(blank[i])
    ensures !AuthMode(Some(blank), privateKey) && !AuthMode(publicKey, Some(blank))
  {
  }
}
