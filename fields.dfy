/** `Client.GetFieldsString`: projects a flags-enum value onto the names of the declared
    members it contains, as a lower-case comma-separated list.

    Reflection over the enum type is replaced by an explicit table of its declared members,
    in the order `Enum.GetValues` yields them. An `int`-based enum value is represented by
    its 32-bit pattern read as an unsigned number: that is the order in which
    `Enum.GetValues` sorts, and the source's bitwise and is `And` on these numbers. */
module FieldSelector {
  import opened Strings

  /** A 32-bit pattern, read as an unsigned number. */
  type Bits32 = x: int | 0 <= x < 0x1_0000_0000

  datatype EnumMember = EnumMember(name: string, value: Bits32)

  /** The declared members of a flags enum type, in `Enum.GetValues` order. */
  type EnumTable = seq<EnumMember>

  /** A boxed `Enum` argument: the members of its type and its own bits
      (`Convert.ToInt32(flagsEnum)`). */
  datatype FlagsEnum = FlagsEnum(members: EnumTable, flags: Bits32)

  /** The "None" and "All" sentinel values that are never emitted. */
  const NoneValue: Bits32 := 0x0
  const AllValue: Bits32 := 0x7FFF_FFFF

  /** Bitwise and, one binary digit at a time. */
  function And(a: nat, b: nat): (r: nat)
    ensures r <= a && r <= b
    decreases a
  {
    if a == 0 || b == 0 then 0
    else 2 * And(a / 2, b / 2) + (if a % 2 == 1 && b % 2 == 1 then 1 else 0)
  }

  /** `x == (flags & x)`: every bit of `x` is set in `flags`. */
  predicate HasAll(flags: nat, x: nat) {
    And(flags, x) == x
  }

  /** What C# allows as an enum member name: never empty, never containing a comma. */
  predicate WellFormedTable(t: EnumTable) {
    forall i :: 0 <= i < |t| ==> t[i].name != "" && ',' !in t[i].name
  }

  /** C# rejects two members with the same name in one enum. */
  predicate UniqueNames(t: EnumTable) {
    forall i, j :: 0 <= i < j < |t| ==> t[i].name != t[j].name
  }

  predicate Distinct(xs: seq<Bits32>) {
    forall i, j :: 0 <= i < j < |xs| ==> xs[i] != xs[j]
  }

  /** The order `Enum.GetValues` produces: ascending by unsigned value. */
  predicate NonDecreasing(xs: seq<Bits32>) {
    forall i, j :: 0 <= i < j < |xs| ==> xs[i] <= xs[j]
  }

  /** `Enum.GetValues(..).Cast<int>()`. */
  function Values(t: EnumTable): (vs: seq<Bits32>)
    ensures |vs| == |t|
    ensures forall i :: 0 <= i < |t| ==> vs[i] == t[i].value
  {
    if t == [] then [] else [t[0].value] + Values(t[1..])
  }

  /** `.Where(x => x == (flagsValue & x))`: the values all of whose bits are set in `flags`,
      in their original order. */
  function Matching(xs: seq<Bits32>, flags: Bits32): (r: seq<Bits32>)
    ensures forall x :: x in r <==> x in xs && HasAll(flags, x)
  {
    if xs == [] then []
    else if HasAll(flags, xs[0]) then [xs[0]] + Matching(xs[1..], flags)
    else Matching(xs[1..], flags)
  }

  /** LINQ's `Except(excluded)`: the first occurrence of each value of `xs` that is not
      excluded, in order. */
  function Except(xs: seq<Bits32>, excluded: set<Bits32>): (r: seq<Bits32>)
    ensures forall x :: x in r <==> x in xs && x !in excluded
    ensures Distinct(r)
  {
    if xs == [] then []
    else if xs[0] in excluded then Except(xs[1..], excluded)
    else [xs[0]] + Except(xs[1..], excluded + {xs[0]})
  }

  /** The position of the first occurrence of `x` in `xs`. */
  function IndexOf(xs: seq<Bits32>, x: Bits32): (k: nat)
    requires x in xs
    ensures k < |xs| && xs[k] == x
    ensures forall j :: 0 <= j < k ==> xs[j] != x
  {
    if xs[0] == x then 0 else 1 + IndexOf(xs[1..], x)
  }

  /** `Enum.GetName`: the name of a declared member with value `v` (the first one when
      several members share it). */
  function NameOf(t: EnumTable, v: Bits32): (name: string)
    requires v in Values(t)
    ensures exists i :: 0 <= i < |t| && t[i] == EnumMember(name, v)
  {
    if t[0].value == v then
      assert t[0] == EnumMember(t[0].name, v);
      t[0].name
    else
      var name := NameOf(t[1..], v);
      var i :| 0 <= i < |t[1..]| && t[1..][i] == EnumMember(name, v);
      assert t[i + 1] == EnumMember(name, v);
      name
  }

  /** The values kept by the pipeline: all bits set in `flags`, declared, not a sentinel,
      each once. */
  function FieldValues(t: EnumTable, flags: Bits32): (vs: seq<Bits32>)
    ensures forall v :: v in vs <==>
      v in Values(t) && HasAll(flags, v) && v != NoneValue && v != AllValue
    ensures Distinct(vs)
  {
    Except(Matching(Values(t), flags), {NoneValue, AllValue})
  }

  /** `.Select(x => Enum.GetName(..))`: the names of the kept values, in the same order;
      each is the name of a declared member carrying the value in that position. */
  function FieldNames(t: EnumTable, flags: Bits32): (ns: seq<string>)
    ensures |ns| == |FieldValues(t, flags)|
    ensures forall k :: 0 <= k < |ns| ==>
      exists i :: 0 <= i < |t| && t[i] == EnumMember(ns[k], FieldValues(t, flags)[k])
  {
    var vs := FieldValues(t, flags);
    seq(|vs|, i requires 0 <= i < |vs| => NameOf(t, vs[i]))
  }

  /** `GetFieldsString(flagsEnum)`. */
  function FieldsString(e: FlagsEnum): (r: string)
    ensures IsLowerCase(r)
  {
    Lower(Join(",", FieldNames(e.members, e.flags)))
  }

  // ---------------------------------------------------------------- order

  /** `Where` keeps whole groups of equal values, so it keeps the relative order in which
      values first occur. */
  lemma {:induction false} MatchingKeepsOrder(xs: seq<Bits32>, flags: Bits32, a: Bits32, b: Bits32)
    requires a in Matching(xs, flags) && b in Matching(xs, flags)
    requires IndexOf(Matching(xs, flags), a) < IndexOf(Matching(xs, flags), b)
    ensures IndexOf(xs, a) < IndexOf(xs, b)
  {
    var m, rest := Matching(xs, flags), Matching(xs[1..], flags);
    if HasAll(flags, xs[0]) {
      assert m == [xs[0]] + rest;
      if a != xs[0] {
        assert b != xs[0];
        assert IndexOf(m, a) == 1 + IndexOf(rest, a);
        assert IndexOf(m, b) == 1 + IndexOf(rest, b);
        MatchingKeepsOrder(xs[1..], flags, a, b);
      }
    } else {
      assert a != xs[0] && b != xs[0];
      MatchingKeepsOrder(xs[1..], flags, a, b);
    }
  }

  /** `Except` emits values in the order of their first occurrence. */
  lemma {:induction false} ExceptKeepsOrder(xs: seq<Bits32>, excluded: set<Bits32>, k: nat, l: nat)
    requires k < l < |Except(xs, excluded)|
    ensures IndexOf(xs, Except(xs, excluded)[k]) < IndexOf(xs, Except(xs, excluded)[l])
  {
    var r := Except(xs, excluded);
    assert r[k] in r && r[l] in r;
    if xs[0] in excluded {
      ExceptKeepsOrder(xs[1..], excluded, k, l);
    } else {
      var rest := Except(xs[1..], excluded + {xs[0]});
      assert r[l] == rest[l - 1] && rest[l - 1] in rest;
      if k > 0 {
        assert r[k] == rest[k - 1] && rest[k - 1] in rest;
        ExceptKeepsOrder(xs[1..], excluded + {xs[0]}, k - 1, l - 1);
      }
    }
  }

  /** The selected values come out in the order in which `Enum.GetValues` first
      enumerates them. */
  lemma FieldValuesInEnumerationOrder(t: EnumTable, flags: Bits32, k: nat, l: nat)
    requires k < l < |FieldValues(t, flags)|
    ensures IndexOf(Values(t), FieldValues(t, flags)[k]) < IndexOf(Values(t), FieldValues(t, flags)[l])
  {
    var m, vs := Matching(Values(t), flags), FieldValues(t, flags);
    ExceptKeepsOrder(m, {NoneValue, AllValue}, k, l);
    assert vs[k] in vs && vs[l] in vs;
    MatchingKeepsOrder(Values(t), flags, vs[k], vs[l]);
  }

  /** With the table in `Enum.GetValues` order the selection is strictly ascending. */
  lemma FieldValuesAscending(t: EnumTable, flags: Bits32, k: nat, l: nat)
    requires NonDecreasing(Values(t))
    requires k < l < |FieldValues(t, flags)|
    ensures FieldValues(t, flags)[k] < FieldValues(t, flags)[l]
  {
    var vs := FieldValues(t, flags);
    FieldValuesInEnumerationOrder(t, flags, k, l);
    var i, j := IndexOf(Values(t), vs[k]), IndexOf(Values(t), vs[l]);
    assert Values(t)[i] <= Values(t)[j];
  }

  // ---------------------------------------------------------------- shape

  /** Each name in the selection belongs to a declared member whose bits are all set in
      the flags, which is not a sentinel, and whose value is the selected value in the same
      position. */
  lemma FieldNameDeclared(t: EnumTable, flags: Bits32, k: nat)
    requires k < |FieldNames(t, flags)|
    ensures exists i :: 0 <= i < |t| && t[i] == EnumMember(FieldNames(t, flags)[k], FieldValues(t, flags)[k]) &&
                        HasAll(flags, t[i].value) && t[i].value != NoneValue && t[i].value != AllValue
  {
    var v := FieldValues(t, flags)[k];
    assert v in FieldValues(t, flags);
    var i :| 0 <= i < |t| && t[i] == EnumMember(FieldNames(t, flags)[k], v);
  }

  /** Conversely, every declared, non-sentinel member whose bits are all set is named in
      the selection (by the name `Enum.GetName` picks for its value), and that name, lowered,
      is one of the comma-separated pieces of the fields string. */
  lemma DeclaredMemberSelected(e: FlagsEnum, i: nat)
    requires WellFormedTable(e.members)
    requires i < |e.members| && HasAll(e.flags, e.members[i].value)
    requires e.members[i].value != NoneValue && e.members[i].value != AllValue
    ensures NameOf(e.members, e.members[i].value) in FieldNames(e.members, e.flags)
    ensures Lower(NameOf(e.members, e.members[i].value)) in Split(FieldsString(e), ',')
  {
    var t, v := e.members, e.members[i].value;
    var vs, ns := FieldValues(t, e.flags), FieldNames(t, e.flags);
    assert Values(t)[i] == v;
    assert v in vs;
    var k :| 0 <= k < |vs| && vs[k] == v;
    assert ns[k] == NameOf(t, v);
    FieldsStringShape(e);
    var low := seq(|ns|, j requires 0 <= j < |ns| => Lower(ns[j]));
    assert Split(FieldsString(e), ',') == low;
    assert low[k] == Lower(NameOf(t, v));
  }

  /** When the values of the table are distinct, the name picked for a member's value is
      that member's own name. */
  lemma NameOfDistinct(t: EnumTable, i: nat)
    requires Distinct(Values(t)) && i < |t|
    ensures NameOf(t, t[i].value) == t[i].name
  {
    var vs, name := Values(t), NameOf(t, t[i].value);
    assert vs[i] == t[i].value;
    var j :| 0 <= j < |t| && t[j] == EnumMember(name, t[i].value);
    assert vs[j] == vs[i];
    assert j == i;
  }

  /** Each name occurs at most once in the selection. */
  lemma FieldNamesDistinct(t: EnumTable, flags: Bits32)
    requires UniqueNames(t)
    ensures forall k, l :: 0 <= k < l < |FieldNames(t, flags)| ==>
      FieldNames(t, flags)[k] != FieldNames(t, flags)[l]
  {
    var vs, ns := FieldValues(t, flags), FieldNames(t, flags);
    forall k, l | 0 <= k < l < |ns| ensures ns[k] != ns[l] {
      var i :| 0 <= i < |t| && t[i] == EnumMember(ns[k], vs[k]);
      var j :| 0 <= j < |t| && t[j] == EnumMember(ns[l], vs[l]);
      assert vs[k] != vs[l];
    }
  }

  /** The shape of the string: lower case; empty exactly when nothing is selected; otherwise
      no leading or trailing comma, and splitting at the commas gives back the lowered
      names in enumeration order. */
  lemma FieldsStringShape(e: FlagsEnum)
    requires WellFormedTable(e.members)
    ensures IsLowerCase(FieldsString(e))
    ensures FieldsString(e) == "" <==> FieldValues(e.members, e.flags) == []
    ensures FieldsString(e) != "" ==>
      FieldsString(e)[0] != ',' && FieldsString(e)[|FieldsString(e)| - 1] != ','
    ensures FieldValues(e.members, e.flags) != [] ==>
      Split(FieldsString(e), ',') ==
        seq(|FieldNames(e.members, e.flags)|,
            k requires 0 <= k < |FieldNames(e.members, e.flags)| => Lower(FieldNames(e.members, e.flags)[k]))
  {
    var t, ns := e.members, FieldNames(e.members, e.flags);
    var low := seq(|ns|, k requires 0 <= k < |ns| => Lower(ns[k]));
    forall k | 0 <= k < |ns| ensures low[k] != "" && ',' !in low[k] {
      FieldNameDeclared(t, e.flags, k);
    }
    LowerJoin(",", ns);
    assert Lower(",") == ",";
    assert FieldsString(e) == Join(",", low);
    JoinEnds(",", low);
    if ns != [] {
      SplitJoin(low, ',');
    }
  }

  lemma {:induction false} ExceptAllExcluded(xs: seq<Bits32>, excluded: set<Bits32>)
    requires forall x :: x in xs ==> x in excluded
    ensures Except(xs, excluded) == []
  {
    if xs != [] {
      assert xs[0] in xs;
      assert forall x :: x in xs[1..] ==> x in xs;
      ExceptAllExcluded(xs[1..], excluded);
    }
  }

  /** No field is selected by an empty flags value (the "None" member). */
  lemma FieldsStringOfNone(t: EnumTable)
    ensures FieldsString(FlagsEnum(t, NoneValue)) == ""
  {
    var m := Matching(Values(t), NoneValue);
    assert forall x :: x in m ==> x == NoneValue;
    ExceptAllExcluded(m, {NoneValue, AllValue});
  }

  // ---------------------------------------------------------------- masking

  /** Masking the flags with `m` before testing `x` changes nothing when `x` lies inside `m`. */
  lemma {:induction false} AndMasked(f: nat, m: nat, x: nat)
    requires And(x, m) == x
    ensures And(f, x) == And(And(f, m), x)
    decreases f
  {
    if f != 0 && x != 0 && m != 0 {
      var q := And(f / 2, m / 2);
      var r := if f % 2 == 1 && m % 2 == 1 then 1 else 0;
      assert And(f, m) == 2 * q + r;
      assert And(x / 2, m / 2) == x / 2;
      AndMasked(f / 2, m / 2, x / 2);
      if 2 * q + r != 0 {
        assert (2 * q + r) / 2 == q && (2 * q + r) % 2 == r;
      } else {
        assert q == 0 && r == 0;
        assert x % 2 == 1 ==> m % 2 == 1;
      }
    }
  }

  lemma {:induction false} MatchingMasked(m: nat, xs: seq<Bits32>, f1: Bits32, f2: Bits32)
    requires forall x :: x in xs ==> And(x, m) == x
    requires And(f1, m) == And(f2, m)
    ensures Matching(xs, f1) == Matching(xs, f2)
  {
    if xs != [] {
      assert xs[0] in xs;
      AndMasked(f1, m, xs[0]);
      AndMasked(f2, m, xs[0]);
      assert forall y :: y in xs[1..] ==> y in xs;
      MatchingMasked(m, xs[1..], f1, f2);
    }
  }

  /** Bits outside every declared member do not affect the selection: for any mask `m`
      covering the declared values, two flag values that agree inside `m` give the same
      string. */
  lemma FieldsStringMasked(t: EnumTable, m: nat, f1: Bits32, f2: Bits32)
    requires forall i :: 0 <= i < |t| ==> And(t[i].value, m) == t[i].value
    requires And(f1, m) == And(f2, m)
    ensures FieldsString(FlagsEnum(t, f1)) == FieldsString(FlagsEnum(t, f2))
  {
    forall x | x in Values(t) ensures And(x, m) == x {
      var i :| 0 <= i < |t| && Values(t)[i] == x;
    }
    MatchingMasked(m, Values(t), f1, f2);
  }
}
