/** The `Region` and `Locale` enums of the client, with the names `ToString` gives them. */
module Enums {

  /** Geographic API shards; members are numbered from 0 in declaration order. */
  datatype Region = US | EU | KR | TW

  /** `Region.ToString()`. */
  function RegionName(r: Region): string {
    match r
    case US => "US"
    case EU => "EU"
    case KR => "KR"
    case TW => "TW"
  }

  /** The numeric value of a member. */
  function RegionValue(r: Region): nat {
    match r
    case US => 0
    case EU => 1
    case KR => 2
    case TW => 3
  }

  /** `default(Region)`: the member whose value is 0, which is what a `Region` property
      that is never assigned holds. */
  function DefaultRegion(): (r: Region)
    ensures RegionValue(r) == 0
    ensures forall s :: RegionValue(s) == 0 ==> s == r
  {
    US
  }

  /** Supported locale tags. */
  datatype Locale = EnUS | EsMX | EnGB | FrFR | RuRU | DeDE | KoKR | ZhTW | ZhCN

  /** `Locale.ToString()`: the declared member name, sent verbatim. */
  function LocaleName(l: Locale): string {
    match l
    case EnUS => "en_US"
    case EsMX => "es_MX"
    case EnGB => "en_GB"
    case FrFR => "fr_FR"
    case RuRU => "ru_RU"
    case DeDE => "de_DE"
    case KoKR => "ko_KR"
    case ZhTW => "zh_TW"
    case ZhCN => "zh_CN"
  }
}
