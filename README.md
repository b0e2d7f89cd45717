# BattleDotNet client: request-URL construction

This project models the core of BattleDotNet's abstract `Client` class, which turns an API
call into the URL that goes to the Battle.net community API. It covers:

- construction: the null check on `baseUrl`, normalizing the base path, and choosing HTTPS
  when both API keys are present and neither is blank;
- `NormalizePath`, which strips every leading and trailing `/`;
- `GetFieldsString`, which projects a flags-enum value onto a lower-case, comma-separated
  list of the names of the declared members it contains, leaving out the `0` ("None") and
  `0x7FFFFFFF` ("All") sentinels;
- `Get<T>`, which builds the URL `{http|https}://{region}.battle.net/api/{base}/{path}` or
  takes a full URL override. It then appends the caller's parameters, a `fields` pair and a
  `locale` pair as an unencoded `?k=v&k=v` query string, and hands the URL and the
  `If-Modified-Since` timestamp to the request manager.

Modules, in dependency order:

- `Wrappers`: `Option` stands for .NET null, and `Result` stands for a constructor that
  throws.
- `Strings`: the .NET string operations used here: `ToLowerInvariant`, `Join`, `Split`,
  `TrimStart`, `TrimEnd` and `Char.IsWhiteSpace`.
- `FieldSelector`: `GetFieldsString`. The enum type's reflection is replaced by a table of
  its members in `Enum.GetValues` order. Values are 32-bit patterns read as unsigned
  numbers, and bitwise and is defined one binary digit at a time.
- `Enums`: the `Region` and `Locale` enums and their `ToString` names.
- `RequestUrl`: the pure parts of `Get<T>`: the resource URL, the merged parameter list
  and the query string. It also defines `ParseQuery`, the reading a server applies to the
  query string, so that round trips can be stated.
- `BattleDotNet`: `NormalizePath`, the auth-mode test, and the `Client` class. Its fields
  are immutable, as in the source. Its constructor checks nothing; `NewClient` adds the
  null check. `Get` assembles the request step by step.
- `Examples`: worked cases on a small `CharacterFields`-like enum.

Behaviour of the code that the model reproduces as written:

- The `Region` property has a private setter that nothing calls. Every client therefore
  uses `US` unless a call passes its own region. The region argument of the constructor is
  accepted and ignored (`Examples.ConstructorRegionIgnored`).
- A non-null `fields` argument always adds a `fields` pair, even when it selects no name.
  The URL then ends in `fields=` (`RequestUrl.EmptySelectionStillSent`). The code tests
  only whether `fields` is null, never whether the selection is empty.
- Keys and values are not percent-encoded. A value holding `&` or `=` cannot be told apart
  from several parameters (`RequestUrl.QueryNotEncoded`).
- A full URL override still gets the query string appended (`Examples.FullUrlKeepsQuery`).
- A null `path` is formatted as the empty string, so the URL ends in `/`.

## Model

| member | source | states |
|---|---|---|
| BattleDotNet.NormalizePath | BattleDotNet/Client.cs:43-46 | the result has no `/` at either end and is a contiguous slice of the input with only slashes cut off on both sides |
| BattleDotNet.NormalizePathIdempotent | BattleDotNet/Client.cs:43-46 | normalizing a normalized path changes nothing |
| BattleDotNet.NormalizedIsFixed | BattleDotNet/Client.cs:43-46 | a path is returned unchanged if and only if it has no slash at either end |
| BattleDotNet.SlashesOnly | BattleDotNet/Client.cs:43-46 | a path made only of slashes normalizes to the empty string |
| BattleDotNet.IsNullOrWhiteSpace | BattleDotNet/Client.cs:24 | a key is blank when it is null, empty, or made of white space only |
| BattleDotNet.AuthMode | BattleDotNet/Client.cs:24 | HTTPS is used when neither key is blank |
| BattleDotNet.AuthModeIff | BattleDotNet/Client.cs:24 | HTTPS is chosen if and only if both keys are non-null and each holds a character that is not white space |
| BattleDotNet.BlankKeyDisablesAuth | BattleDotNet/Client.cs:24 | an empty or all-white-space key on either side disables HTTPS, whatever the other key is |
| BattleDotNet.Client.constructor | BattleDotNet/Client.cs:18-28 | the stored base URL is the normalized argument; HTTPS is the auth-mode test on the keys; the region is `US` whatever was passed; the keys are kept for the request manager |
| BattleDotNet.NewClient | BattleDotNet/Client.cs:18-28 | fails with an argument-null error naming `baseUrl` exactly when `baseUrl` is null; otherwise returns a fresh client with the state the constructor sets |
| BattleDotNet.Client.Get | BattleDotNet/Client.cs:65-93 | the URL is the override or the resource URL for the call's region (the client's region when none is given), followed by the query of the merged parameters. An override is a prefix of the URL, and so is the resource URL when there is no override. The URL is unchanged if and only if no parameter is merged. The timestamp is passed through untouched |
| Enums.RegionName | BattleDotNet/Client.cs:96-114 | `Region.ToString()`: the declared names `US`, `EU`, `KR`, `TW` |
| Enums.LocaleName | BattleDotNet/Client.cs:116-127 | `Locale.ToString()`, sent as the `locale` value: the declared names `en_US` through `zh_CN` |
| Enums.DefaultRegion | BattleDotNet/Client.cs:48 | the region a never-assigned `Region` property holds is the unique member with value 0 |
| RequestUrl.Scheme | BattleDotNet/Client.cs:71 | `https` when HTTPS is on, `http` otherwise |
| RequestUrl.ResourceUrl | BattleDotNet/Client.cs:69-75 | the format `{scheme}://{lowered region}.battle.net/api/{base}/{path}` |
| RequestUrl.ResourceUrlPrefix | BattleDotNet/Client.cs:67-75 | the URL starts with `https://` if and only if HTTPS is on, and with `http://` otherwise; then come the lower-cased region, `.battle.net/api/`, the base URL, `/` and the path |
| RequestUrl.HostNames | BattleDotNet/Client.cs:72 | the host labels are `us`, `eu`, `kr` and `tw` |
| RequestUrl.ResourceUrlInjective | BattleDotNet/Client.cs:67-75 | equal resource URLs have the same scheme, the same region and the same `base/path` tail |
| RequestUrl.MergeParameters | BattleDotNet/Client.cs:77-86 | the caller's pairs come first, unchanged and in order (none when null). They are followed by a `fields` pair exactly when fields is non-null and a `locale` pair last exactly when locale is non-null, and there is nothing else |
| RequestUrl.MergeKeepsCallerPairs | BattleDotNet/Client.cs:82-86 | no caller pair is dropped or overwritten, not even one whose key is `fields` or `locale` |
| RequestUrl.EmptySelectionStillSent | BattleDotNet/Client.cs:82-83 | a fields value that selects nothing still adds the pair `("fields", "")` |
| RequestUrl.PairText | BattleDotNet/Client.cs:90 | one pair rendered as `key=value`, nothing encoded |
| RequestUrl.QueryString | BattleDotNet/Client.cs:90 | the rendered pairs joined with `&`; empty if and only if there are no pairs |
| RequestUrl.WithQuery | BattleDotNet/Client.cs:89-90 | the URL followed by `?` and the query string when there is at least one pair, the URL alone otherwise |
| RequestUrl.WithQueryUnchanged | BattleDotNet/Client.cs:89-90 | the URL is left as it is if and only if there are no parameters; otherwise it is extended behind a `?` |
| RequestUrl.QueryRoundTrip | BattleDotNet/Client.cs:90 | splitting the query string at `&` and each piece at its first `=` gives back the pairs, provided no key or value holds `&` and no key holds `=` |
| RequestUrl.WithQueryCarries | BattleDotNet/Client.cs:89-90 | the text after the `?` reads back as exactly the parameters, under the same proviso |
| RequestUrl.QueryNotEncoded | BattleDotNet/Client.cs:90 | two different parameter lists produce the same query string, because nothing is encoded |
| FieldSelector.Values | BattleDotNet/Client.cs:55-56 | the values of the declared members, one per member, in table order |
| FieldSelector.Matching | BattleDotNet/Client.cs:57 | keeps exactly the values all of whose bits are set in the flags |
| FieldSelector.Except | BattleDotNet/Client.cs:58 | keeps exactly the values not excluded, each once |
| FieldSelector.NameOf | BattleDotNet/Client.cs:59 | the name returned belongs to a declared member with that value |
| FieldSelector.FieldValues | BattleDotNet/Client.cs:54-58 | the selected values are exactly the declared values whose bits are all set and that are not a sentinel, with no repeats |
| FieldSelector.FieldNames | BattleDotNet/Client.cs:59-60 | one name per selected value, in the same order; each is the name of a declared member carrying the value in that position |
| FieldSelector.FieldNameDeclared | BattleDotNet/Client.cs:54-60 | every selected name is the name of a declared, non-sentinel member whose bits are all set in the flags and whose value is the selected value in the same position |
| FieldSelector.DeclaredMemberSelected | BattleDotNet/Client.cs:54-62 | the converse: every declared, non-sentinel member whose bits are all set is named in the selection, and its lowered name is one of the comma-separated pieces of the fields string |
| FieldSelector.NameOfDistinct | BattleDotNet/Client.cs:59 | when no two members share a value, the name looked up for a member's value is that member's own name |
| FieldSelector.FieldNamesDistinct | BattleDotNet/Client.cs:58-60 | with member names unique, as C# requires, no name occurs twice in the selection |
| FieldSelector.And | BattleDotNet/Client.cs:57 | bitwise and on the unsigned reading of the bit patterns; the result is at most either operand |
| FieldSelector.HasAll | BattleDotNet/Client.cs:57 | the `x == (flagsValue & x)` test: every bit of `x` is set in the flags |
| FieldSelector.FieldsString | BattleDotNet/Client.cs:50-63 | `GetFieldsString`: the lowered join with `,` of the selected names; the result has no upper-case letter |
| FieldSelector.FieldValuesInEnumerationOrder | BattleDotNet/Client.cs:54-60 | the selection keeps the order in which `Enum.GetValues` first yields the values |
| FieldSelector.FieldValuesAscending | BattleDotNet/Client.cs:55-58 | with the table in `Enum.GetValues` order (ascending), the selection is strictly ascending |
| FieldSelector.MatchingKeepsOrder | BattleDotNet/Client.cs:57 | the filter keeps the relative order of first occurrences |
| FieldSelector.ExceptKeepsOrder | BattleDotNet/Client.cs:58 | `Except` emits values in the order of their first occurrence |
| FieldSelector.FieldsStringShape | BattleDotNet/Client.cs:50-63 | for member names that are non-empty and have no comma, the string is lower case. It is empty if and only if nothing is selected, and otherwise has no comma at either end. Splitting it at commas gives the lowered selected names in order |
| FieldSelector.FieldsStringOfNone | BattleDotNet/Client.cs:50-63 | the "None" value (no bits) selects no name, and the string is empty |
| FieldSelector.AndMasked | BattleDotNet/Client.cs:57 | masking the flags first with a mask that covers `x` does not change `flags & x` |
| FieldSelector.MatchingMasked | BattleDotNet/Client.cs:57 | two flag values that agree inside a mask covering every value select the same values |
| FieldSelector.FieldsStringMasked | BattleDotNet/Client.cs:50-63 | bits outside every declared member do not change the fields string |
| Strings.Lower | BattleDotNet/Client.cs:62 | same length, every upper-case ASCII letter replaced by its lower-case letter, and every other character unchanged |
| Strings.Join | BattleDotNet/Client.cs:62 | `string.Join`: the pieces with the separator between each two neighbours, empty for no pieces |
| Strings.IsWhiteSpace | BattleDotNet/Client.cs:24 | `Char.IsWhiteSpace`: the space separators, line and paragraph separators, and the control characters U+0009 to U+000D and U+0085 |
| Strings.LowerConcat | BattleDotNet/Client.cs:62 | lowering distributes over concatenation |
| Strings.LowerJoin | BattleDotNet/Client.cs:62 | lowering a join is joining the lowered pieces with the lowered separator |
| Strings.TrimStart | BattleDotNet/Client.cs:45 | the result is a suffix of the input, everything cut off is the trimmed character, and the result does not start with it |
| Strings.TrimEnd | BattleDotNet/Client.cs:45 | the result is a prefix of the input, everything cut off is the trimmed character, and the result does not end with it |
| Strings.SplitJoin | BattleDotNet/Client.cs:62 | splitting a join at its one-character separator gives the pieces back when no piece contains it |
| Strings.JoinEnds | BattleDotNet/Client.cs:62 | a join of non-empty pieces is empty if and only if there are no pieces; its first and last characters are those of the first and last pieces |
| Examples.NormalizeExamples | BattleDotNet/Client.cs:43-46 | `/wow/` becomes `wow`, `wow` stays, and `//` becomes empty |
| Examples.HealthAndPower | BattleDotNet/Client.cs:50-63 | the flags value 3 (`Health` and `Power` combined) gives `health,power` |
| Examples.MergeOrder | BattleDotNet/Client.cs:77-86 | a caller pair, a fields value and a locale are merged in that order |
| Examples.EuropeWithFields | BattleDotNet/Client.cs:67-90 | an HTTPS call for EU with one `fields` pair gives `https://eu.battle.net/api/wow/character/region/name?fields=stats` |
| Examples.RealmStatus | BattleDotNet/Client.cs:67-90 | a plain call with no parameters gives `http://us.battle.net/api/wow/realm/status`, with no `?` |
| Examples.ConstructorRegionIgnored | BattleDotNet/Client.cs:18-28 | a client built with base `/wow/`, region EU and no keys requests `http://us.battle.net/api/wow/realm/status` |
| Examples.FullUrlKeepsQuery | BattleDotNet/Client.cs:67-68 | an override URL is used verbatim, the call's region is ignored, and the locale pair is still appended |

## Left out

- The request manager (Client.cs:27 and 92): signing with the keys, the HTTP exchange, `If-Modified-Since` handling and deserialization into `T`. `Get` returns the request it would hand over, and the keys are only stored.
- The private parameterless constructor (Client.cs:14-16) cannot be reached from outside and sets nothing.
- The private setters of `UseHttps` and `Region`: nothing outside the constructor calls them, so the fields are immutable.
- `CharacterStats` and the other response types are not part of this model; only their shape inspired the `Examples` enum.
- Reflection: `Enum.GetValues`, `Enum.GetName` and `GetType()` are replaced by an explicit member table that the caller supplies in `Enum.GetValues` order.
- Enums whose underlying type is not `int`: `Convert.ToInt32` can overflow, or `Cast<int>` can fail, at run time. The model assumes `int` enums, whose values are given as their 32-bit patterns.
- FieldSelector.NameOf: the contract says only that some declared member with that value is named. When several members share a value, .NET does not document which name `Enum.GetName` returns; the body takes the first.
- Strings.Lower: only ASCII letters are lowered. `ToLowerInvariant` on non-ASCII letters is not modelled.
- Strings.IsWhiteSpace: the .NET white-space set is a fixed list of code points. The `IsNullOrWhiteSpace` extension from `BattleDotNet.Extensions` is not part of this model and is taken to behave like `string.IsNullOrWhiteSpace`.
- `DateTime`: the timestamp is an opaque type parameter, passed through unchanged.
- Collections: the caller's parameters (`IEnumerable`, `Dictionary` or the `Parameters` type, which is not part of this model) are a sequence in enumeration order. The model also assumes enumerating them twice gives the same pairs. A pair is two strings, so a dictionary entry with a null value, which `string.Format` renders as `key=`, is expressed only by passing the empty string.
- RequestUrl.ParseQuery: an independent reading of the query string, defined to state round trips. It is not code of the client.
