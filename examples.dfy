/** Worked cases of the client's request shaping, on a small `CharacterFields`-like enum. */
module Examples {
  import opened Wrappers
  import opened Strings
  import opened Enums
  import opened FieldSelector
  import opened RequestUrl
  import opened BattleDotNet

  /** A flags enum with the two sentinels and two fields. */
  function CharacterFields(): EnumTable {
    [EnumMember("None", 0), EnumMember("Health", 1), EnumMember("Power", 2), EnumMember("All", 0x7FFF_FFFF)]
  }

  lemma NormalizeExamples()
    ensures NormalizePath("/wow/") == "wow"
    ensures NormalizePath("wow") == "wow"
    ensures NormalizePath("//") == ""
  {
    SurroundedWow();
    NormalizedIsFixed("wow");
    SlashesOnly("//");
  }

  lemma SurroundedWow()
    ensures NormalizePath("/wow/") == "wow"
  {
    var e := TrimEnd("/wow/", '/');
    assert "/wow/"[..4] == "/wow";
    assert e == TrimEnd("/wow", '/') == "/wow";
    assert "/wow"[1..] == "wow";
    assert TrimStart("/wow", '/') == TrimStart("wow", '/') == "wow";
  }

  /** `Health | Power` selects both names, lower-cased, in declaration order. */
  lemma HealthAndPower()
    ensures FieldsString(FlagsEnum(CharacterFields(), 3)) == "health,power"
  {
    HealthAndPowerValues();
    HealthAndPowerNames();
    HealthAndPowerText();
  }

  lemma HealthAndPowerValues()
    ensures FieldValues(CharacterFields(), 3) == [1, 2]
  {
    HealthAndPowerMatching(Values(CharacterFields()));
    ExceptSentinels();
  }

  lemma HealthAndPowerMatching(vs: seq<Bits32>)
    requires vs == [0, 1, 2, 0x7FFF_FFFF]
    ensures Matching(vs, 3) == [0, 1, 2]
  {
    assert And(3, 0) == 0 && And(3, 1) == 1 && And(3, 2) == 2;
    assert And(3, 0x7FFF_FFFF) == 3;
    assert vs[3..] == [0x7FFF_FFFF] && vs[2..] == [2] + vs[3..] && vs[1..] == [1] + vs[2..];
    assert Matching([], 3) == [];
    assert Matching(vs[3..], 3) == [];
    assert Matching(vs[2..], 3) == [2];
    assert Matching(vs[1..], 3) == [1, 2];
  }

  lemma ExceptSentinels()
    ensures Except([0, 1, 2], {NoneValue, AllValue}) == [1, 2]
  {
    assert [0, 1, 2][1..] == [1, 2] && [1, 2][1..] == [2] && [2][1..] == [];
    var ex: set<Bits32> := {NoneValue, AllValue};
    assert 1 !in ex && 2 !in ex + {1} && 0 in ex;
    assert Except([], ex + {1} + {2}) == [];
    assert Except([2], ex + {1}) == [2];
    assert Except([1, 2], ex) == [1] + Except([2], ex + {1});
    assert Except([0, 1, 2], ex) == [1, 2];
  }

  lemma HealthAndPowerNames()
    ensures FieldNames(CharacterFields(), 3) == ["Health", "Power"]
  {
    HealthAndPowerValues();
    NamesInTable();
    TwoNames(CharacterFields(), 3, 1, 2);
  }

  lemma TwoNames(t: EnumTable, flags: Bits32, a: Bits32, b: Bits32)
    requires FieldValues(t, flags) == [a, b]
    ensures FieldNames(t, flags) == [NameOf(t, a), NameOf(t, b)]
  {
    assert a in FieldValues(t, flags) && b in FieldValues(t, flags);
  }

  lemma NamesInTable()
    ensures NameOf(CharacterFields(), 1) == "Health"
    ensures NameOf(CharacterFields(), 2) == "Power"
  {
    var t := CharacterFields();
    assert t[1..][0] == EnumMember("Health", 1);
    assert t[1..][1..] == t[2..] && t[2..][0] == EnumMember("Power", 2);
  }

  lemma HealthAndPowerText()
    ensures Lower(Join(",", ["Health", "Power"])) == "health,power"
  {
    assert Join(",", ["Health", "Power"]) == "Health,Power";
    assert LowerChar('H') == 'h' && LowerChar('P') == 'p';
  }

  /** The caller's pair first, then `fields`, then `locale`. */
  lemma MergeOrder()
    ensures MergeParameters(Some([("a", "1")]), Some(FlagsEnum(CharacterFields(), 3)), Some(EnUS))
            == [("a", "1"), ("fields", "health,power"), ("locale", "en_US")]
  {
    HealthAndPower();
    MergeOne(FlagsEnum(CharacterFields(), 3));
  }

  lemma MergeOne(e: FlagsEnum)
    requires FieldsString(e) == "health,power"
    ensures MergeParameters(Some([("a", "1")]), Some(e), Some(EnUS))
            == [("a", "1"), ("fields", "health,power"), ("locale", "en_US")]
  {
  }

  lemma EuropeWithFields()
    ensures WithQuery(ResourceUrl(true, EU, "wow", "character/region/name"), [("fields", "stats")])
            == "https://eu.battle.net/api/wow/character/region/name?fields=stats"
  {
    EuropeUrl();
    StatsQuery();
    assert WithQuery(ResourceUrl(true, EU, "wow", "character/region/name"), [("fields", "stats")])
           == "https://eu.battle.net/api/wow/character/region/name" + "?" + "fields=stats";
    assert "https://eu.battle.net/api/wow/character/region/name" + "?" == "https://eu.battle.net/api/wow/character/region/name?";
  }

  lemma EuropeUrl()
    ensures ResourceUrl(true, EU, "wow", "character/region/name")
            == "https://eu.battle.net/api/wow/character/region/name"
  {
    HostNames(EU);
    assert ResourceUrl(true, EU, "wow", "character/region/name")
           == "https" + "://" + "eu" + ".battle.net/api/" + "wow" + "/" + "character/region/name";
    EuropeText();
  }

  lemma EuropeText()
    ensures "https" + "://" + "eu" + ".battle.net/api/" + "wow" + "/" + "character/region/name"
            == "https://eu.battle.net/api/wow/character/region/name"
  {
    assert "https" + "://" + "eu" + ".battle.net/api/" == "https://eu.battle.net/api/";
    assert "https://eu.battle.net/api/" + "wow" + "/" == "https://eu.battle.net/api/wow/";
  }

  lemma StatsQuery()
    ensures QueryString([("fields", "stats")]) == "fields=stats"
  {
    var ps := [("fields", "stats")];
    assert PairText(ps[0]) == "fields=stats";
    assert seq(|ps|, i requires 0 <= i < |ps| => PairText(ps[i])) == ["fields=stats"];
  }

  lemma RealmStatus()
    ensures WithQuery(ResourceUrl(false, US, "wow", "realm/status"), MergeParameters(None, None, None))
            == "http://us.battle.net/api/wow/realm/status"
  {
    NoParameters();
    RealmStatusUrl();
  }

  lemma NoParameters()
    ensures MergeParameters(None, None, None) == []
  {
  }

  lemma RealmStatusUrl()
    ensures ResourceUrl(false, US, "wow", "realm/status") == "http://us.battle.net/api/wow/realm/status"
  {
    HostNames(US);
  }

  /** A client built for Europe and without keys still asks the US shard over plain HTTP,
      with its base path stripped of slashes. */
  method ConstructorRegionIgnored() returns (url: string)
    ensures url == "http://us.battle.net/api/wow/realm/status"
  {
    var c := new Client("/wow/", Some(EU), None, None);
    var req := c.Get<int>(Some("realm/status"), None, None, None, None, None, None);
    NormalizeExamples();
    assert c.baseUrl == "wow" && !c.useHttps;
    RealmStatus();
    url := req.url;
  }

  /** A full URL override is used as it is, and the parameters still follow it. */
  method FullUrlKeepsQuery(c: Client) returns (url: string)
    ensures url == "http://custom/x?locale=fr_FR"
  {
    var req := c.Get<int>(None, None, Some(KR), None, Some("http://custom/x"), None, Some(FrFR));
    url := req.url;
  }
}
