/**
 * ZoneService: the zone list URL, grouping zones by state for the zone
 * picker, and finding the JAKIM code of a district.
 */
module ZoneService {
  import opened Wrappers

  /** A zone as the zone directory returns it. */
  datatype Zone = Zone(jakimCode: string, negeri: string, daerah: string)

  /** A district inside a state group. */
  datatype Daerah = Daerah(jakimCode: string, name: string)

  /** The districts of one state. */
  datatype GroupZone = GroupZone(negeri: string, data: seq<Daerah>)

  /** The URL choice in `getZones`: a missing or empty zone code asks for the whole list. */
  function ZonesUrl(zoneUri: string, zoneCode: Option<string>): string
  {
    if zoneCode.Some? && zoneCode.value != "" then zoneUri + "/" + zoneCode.value else zoneUri
  }

  /** The list URL differs from every single-zone URL, and different zone codes give different URLs. */
  lemma ZonesUrlDistinct(zoneUri: string, a: string, b: string)
    requires a != "" && b != ""
    ensures ZonesUrl(zoneUri, Some(a)) != ZonesUrl(zoneUri, None)
    ensures ZonesUrl(zoneUri, Some("")) == ZonesUrl(zoneUri, None) == zoneUri
    ensures a != b ==> ZonesUrl(zoneUri, Some(a)) != ZonesUrl(zoneUri, Some(b))
  {
    var ua, ub := zoneUri + "/" + a, zoneUri + "/" + b;
    if a != b {
      assert ua[|zoneUri| + 1..] == a && ub[|zoneUri| + 1..] == b;
    }
  }

  function ToDaerah(zone: Zone): Daerah {
    Daerah(zone.jakimCode, zone.daerah)
  }

  function Districts(zones: seq<Zone>): (ds: seq<Daerah>)
    ensures |ds| == |zones|
  {
    seq(|zones|, k requires 0 <= k < |zones| => ToDaerah(zones[k]))
  }

  /** The states of the zones, each once, in order of first appearance. */
  function States(zones: seq<Zone>): (states: seq<string>)
    ensures forall i, j :: 0 <= i < j < |states| ==> states[i] != states[j]
    ensures forall s :: s in states <==> exists k :: 0 <= k < |zones| && zones[k].negeri == s
  {
    if zones == [] then []
    else
      var previous := States(zones[..|zones| - 1]);
      var last := zones[|zones| - 1];
      assert forall k :: 0 <= k < |zones| - 1 ==> zones[..|zones| - 1][k] == zones[k];
      if last.negeri in previous then previous else previous + [last.negeri]
  }

  /** The districts of one state, in input order; empty exactly for a state no zone has. */
  function DistrictsOf(zones: seq<Zone>, state: string): (ds: seq<Daerah>)
    ensures ds != [] <==> state in States(zones)
  {
    if zones == [] then []
    else
      var last := zones[|zones| - 1];
      DistrictsOf(zones[..|zones| - 1], state) + (if last.negeri == state then [ToDaerah(last)] else [])
  }

  /** The grouping the service computes, as a function of the input. */
  function GroupByState(zones: seq<Zone>): (groups: seq<GroupZone>)
    ensures |groups| == |States(zones)|
  {
    GroupsFor(States(zones), zones)
  }

  function GroupsFor(states: seq<string>, zones: seq<Zone>): (groups: seq<GroupZone>)
    ensures |groups| == |states|
  {
    seq(|states|, i requires 0 <= i < |states| => GroupZone(states[i], DistrictsOf(zones, states[i])))
  }

  /** How a call ends: with a value, or by throwing JavaScript's `TypeError`. */
  datatype Completion<T> = Normal(value: T) | TypeError

  /**
   * A property every plain object inherits from `Object.prototype`. Reading
   * one from the empty dictionary gives a truthy value (a function, or the
   * prototype itself for `__proto__`) that has no `push`.
   */
  predicate IsInheritedKey(name: string) {
    name in {"constructor", "__proto__", "__defineGetter__", "__defineSetter__",
             "__lookupGetter__", "__lookupSetter__", "hasOwnProperty", "isPrototypeOf",
             "propertyIsEnumerable", "toLocaleString", "toString", "valueOf"}
  }

  /** Some zone's state is the name of an inherited property. */
  predicate HasInheritedState(zones: seq<Zone>) {
    exists k :: 0 <= k < |zones| && IsInheritedKey(zones[k].negeri)
  }

  /**
   * `groupZoneByState`: the dictionary is filled zone by zone, a state's list
   * created the first time the state is seen; the dictionary's entries, in
   * insertion order, become the groups. `keys` is that insertion order. A
   * state named like an inherited property finds that property instead of a
   * list, so no list is created and the `push` throws.
   */
  method GroupZoneByState(zones: seq<Zone>) returns (result: Completion<seq<GroupZone>>)
    ensures result.TypeError? <==> HasInheritedState(zones)
    ensures result.Normal? ==> result.value == GroupByState(zones)
  {
    var keys: seq<string> := [];
    var groupedData: map<string, seq<Daerah>> := map[];
    var i := 0;
    while i < |zones|
      invariant 0 <= i <= |zones|
      invariant !HasInheritedState(zones[..i])
      invariant DescribesPrefix(zones, i, keys, groupedData)
    {
      var zone := zones[i];
      InheritedStep(zones, i);
      if IsInheritedKey(zone.negeri) {
        return TypeError;
      }
      TableStep(zones, i, keys, groupedData);
      if zone.negeri !in groupedData {
        groupedData := groupedData[zone.negeri := []];
        keys := keys + [zone.negeri];
      }
      groupedData := groupedData[zone.negeri := groupedData[zone.negeri] + [Daerah(zone.jakimCode, zone.daerah)]];
      i := i + 1;
    }
    assert zones[..i] == zones;
    GroupsOfTable(zones, keys, groupedData);
    result := Normal(seq(|keys|, k requires 0 <= k < |keys| => GroupZone(keys[k], groupedData[keys[k]])));
  }

  lemma InheritedStep(zones: seq<Zone>, i: nat)
    requires i < |zones|
    ensures HasInheritedState(zones[..i + 1]) <==> HasInheritedState(zones[..i]) || IsInheritedKey(zones[i].negeri)
  {
    var next := zones[..i + 1];
    assert forall k :: 0 <= k < i ==> next[k] == zones[..i][k];
    assert next[i] == zones[i];
  }

  /** The finished dictionary, listed in key order, is the grouping. */
  lemma GroupsOfTable(zones: seq<Zone>, keys: seq<string>, table: map<string, seq<Daerah>>)
    requires keys == States(zones)
    requires forall s :: s in table <==> s in keys
    requires forall s :: s in table ==> table[s] == DistrictsOf(zones, s)
    ensures seq(|keys|, k requires 0 <= k < |keys| => GroupZone(keys[k], table[keys[k]])) == GroupByState(zones)
  {
  }

  /** The dictionary and its insertion order after one more zone, when they described the zones before it. */
  ghost predicate DescribesPrefix(zones: seq<Zone>, i: nat, keys: seq<string>, table: map<string, seq<Daerah>>)
    requires i <= |zones|
  {
    && keys == States(zones[..i])
    && (forall s :: s in table <==> s in keys)
    && (forall s :: s in table ==> table[s] == DistrictsOf(zones[..i], s))
  }

  lemma TableStep(zones: seq<Zone>, i: nat, keys: seq<string>, table: map<string, seq<Daerah>>)
    requires i < |zones| && DescribesPrefix(zones, i, keys, table)
    ensures var z := zones[i];
      var keys' := if z.negeri in table then keys else keys + [z.negeri];
      var created := if z.negeri in table then table else table[z.negeri := []];
      DescribesPrefix(zones, i + 1, keys', created[z.negeri := created[z.negeri] + [Daerah(z.jakimCode, z.daerah)]])
  {
    var z := zones[i];
    var keys' := if z.negeri in table then keys else keys + [z.negeri];
    var created := if z.negeri in table then table else table[z.negeri := []];
    var table' := created[z.negeri := created[z.negeri] + [Daerah(z.jakimCode, z.daerah)]];
    PrefixStep(zones, i);
    assert keys' == States(zones[..i + 1]);
    forall s ensures s in table' <==> s in keys' {
    }
    forall s | s in table' ensures table'[s] == DistrictsOf(zones[..i + 1], s) {
      if s == z.negeri {
        assert created[s] == DistrictsOf(zones[..i], s) by {
          if z.negeri !in table { assert s !in States(zones[..i]); }
        }
      }
    }
  }

  /** One more zone: its state joins the keys if new, and its district joins that state's list only. */
  lemma PrefixStep(zones: seq<Zone>, i: nat)
    requires i < |zones|
    ensures States(zones[..i + 1])
         == if zones[i].negeri in States(zones[..i]) then States(zones[..i]) else States(zones[..i]) + [zones[i].negeri]
    ensures forall s :: DistrictsOf(zones[..i + 1], s)
                     == DistrictsOf(zones[..i], s) + (if zones[i].negeri == s then [ToDaerah(zones[i])] else [])
  {
    assert zones[..i + 1][..i] == zones[..i];
  }

  /** Group-then-district order, as the nested loops of `getJakimCode` visit it. */
  function Flatten(groups: seq<GroupZone>): seq<Daerah>
  {
    if groups == [] then [] else Flatten(groups[..|groups| - 1]) + groups[|groups| - 1].data
  }

  /** The code of the last district with that name, or "" when there is none. */
  function LastCode(district: string, ds: seq<Daerah>): string
  {
    if ds == [] then ""
    else if ds[|ds| - 1].name == district then ds[|ds| - 1].jakimCode
    else LastCode(district, ds[..|ds| - 1])
  }

  /** With no district of that name the code is ""; otherwise it is the code of a match after which no district has that name. */
  lemma {:induction false} LastCodeIsLastMatch(district: string, ds: seq<Daerah>)
    ensures (forall k :: 0 <= k < |ds| ==> ds[k].name != district) ==> LastCode(district, ds) == ""
    ensures (exists k :: 0 <= k < |ds| && ds[k].name == district) ==>
      exists k :: 0 <= k < |ds| && ds[k].name == district && LastCode(district, ds) == ds[k].jakimCode
        && forall j :: k < j < |ds| ==> ds[j].name != district
  {
    if ds != [] && ds[|ds| - 1].name != district {
      var previous := ds[..|ds| - 1];
      assert forall k :: 0 <= k < |ds| - 1 ==> previous[k] == ds[k];
      LastCodeIsLastMatch(district, previous);
    }
  }

  /** `getJakimCode`: every match overwrites the result, so the last match wins. */
  method GetJakimCode(district: string, zones: seq<GroupZone>) returns (jakimCode: string)
    ensures jakimCode == LastCode(district, Flatten(zones))
  {
    jakimCode := "";
    var i := 0;
    while i < |zones|
      invariant 0 <= i <= |zones|
      invariant jakimCode == LastCode(district, Flatten(zones[..i]))
    {
      var data := zones[i].data;
      ghost var visited := Flatten(zones[..i]);
      var j := 0;
      assert visited + data[..j] == visited;
      while j < |data|
        invariant 0 <= j <= |data|
        invariant jakimCode == LastCode(district, visited + data[..j])
      {
        var daerah := data[j];
        LastCodeAppend(district, visited + data[..j], daerah);
        assert data[..j + 1] == data[..j] + [daerah];
        assert visited + data[..j + 1] == (visited + data[..j]) + [daerah];
        if daerah.name == district {
          jakimCode := daerah.jakimCode;
        }
        j := j + 1;
      }
      FlattenStep(zones, i);
      assert data[..j] == data;
      i := i + 1;
    }
    assert zones[..i] == zones;
  }

  lemma LastCodeAppend(district: string, ds: seq<Daerah>, d: Daerah)
    ensures LastCode(district, ds + [d]) == if d.name == district then d.jakimCode else LastCode(district, ds)
  {
    assert (ds + [d])[..|ds|] == ds;
  }

  lemma FlattenStep(groups: seq<GroupZone>, i: nat)
    requires i < |groups|
    ensures Flatten(groups[..i + 1]) == Flatten(groups[..i]) + groups[i].data
  {
    assert groups[..i + 1][..i] == groups[..i];
  }

  /** The groups have pairwise different states, and none is empty. */
  lemma GroupsDistinctAndNonEmpty(zones: seq<Zone>)
    ensures forall i, j :: 0 <= i < j < |GroupByState(zones)| ==> GroupByState(zones)[i].negeri != GroupByState(zones)[j].negeri
    ensures forall i :: 0 <= i < |GroupByState(zones)| ==> GroupByState(zones)[i].data != []
  {
  }

  /** A district is in a state's list exactly when some zone of that state produced it. */
  lemma {:induction false} DistrictsOfMembers(zones: seq<Zone>, state: string, d: Daerah)
    ensures d in DistrictsOf(zones, state) <==>
      exists k :: 0 <= k < |zones| && zones[k].negeri == state && ToDaerah(zones[k]) == d
  {
    if zones != [] {
      var previous := zones[..|zones| - 1];
      assert forall k :: 0 <= k < |zones| - 1 ==> previous[k] == zones[k];
      DistrictsOfMembers(previous, state, d);
    }
  }

  /**
   * Every zone appears, as its district, in the group of its own state; and
   * each group holds only districts of zones of that group's state.
   */
  lemma ZonePlacement(zones: seq<Zone>, k: nat)
    requires k < |zones|
    ensures exists i :: (0 <= i < |GroupByState(zones)| && GroupByState(zones)[i].negeri == zones[k].negeri
                         && ToDaerah(zones[k]) in GroupByState(zones)[i].data)
    ensures forall i, d :: 0 <= i < |GroupByState(zones)| && d in GroupByState(zones)[i].data ==>
      exists j :: 0 <= j < |zones| && zones[j].negeri == GroupByState(zones)[i].negeri && ToDaerah(zones[j]) == d
  {
    var groups, states := GroupByState(zones), States(zones);
    assert zones[k].negeri in states;
    var i :| 0 <= i < |states| && states[i] == zones[k].negeri;
    DistrictsOfMembers(zones, states[i], ToDaerah(zones[k]));
    assert groups[i] == GroupZone(states[i], DistrictsOf(zones, states[i]));
    forall i, d | 0 <= i < |groups| && d in groups[i].data
      ensures exists j :: 0 <= j < |zones| && zones[j].negeri == groups[i].negeri && ToDaerah(zones[j]) == d
    {
      DistrictsOfMembers(zones, states[i], d);
    }
  }

  /** The districts of the given states, state by state. */
  function ConcatDistricts(states: seq<string>, zones: seq<Zone>): seq<Daerah>
  {
    if states == [] then []
    else ConcatDistricts(states[..|states| - 1], zones) + DistrictsOf(zones, states[|states| - 1])
  }

  lemma {:induction false} FlattenGroupsFor(states: seq<string>, zones: seq<Zone>)
    ensures Flatten(GroupsFor(states, zones)) == ConcatDistricts(states, zones)
  {
    if states != [] {
      var previous := states[..|states| - 1];
      assert GroupsFor(states, zones)[..|states| - 1] == GroupsFor(previous, zones);
      FlattenGroupsFor(previous, zones);
    }
  }

  lemma ConcatDistrictsLast(states: seq<string>, zones: seq<Zone>)
    requires states != []
    ensures multiset(ConcatDistricts(states, zones))
         == multiset(ConcatDistricts(states[..|states| - 1], zones)) + multiset(DistrictsOf(zones, states[|states| - 1]))
  {
  }

  lemma DistrictsOfAppend(zones: seq<Zone>, z: Zone, state: string)
    ensures multiset(DistrictsOf(zones + [z], state))
         == multiset(DistrictsOf(zones, state)) + (if z.negeri == state then multiset{ToDaerah(z)} else multiset{})
  {
    assert (zones + [z])[..|zones|] == zones;
  }

  /** One more zone adds its district to the concatenation exactly when its state is among the given ones. */
  lemma {:induction false} ConcatDistrictsStep(states: seq<string>, zones: seq<Zone>, z: Zone)
    requires forall i, j :: 0 <= i < j < |states| ==> states[i] != states[j]
    ensures multiset(ConcatDistricts(states, zones + [z]))
         == multiset(ConcatDistricts(states, zones)) + (if z.negeri in states then multiset{ToDaerah(z)} else multiset{})
  {
    if states != [] {
      var previous, s := states[..|states| - 1], states[|states| - 1];
      ConcatDistrictsStep(previous, zones, z);
      ConcatDistrictsLast(states, zones);
      ConcatDistrictsLast(states, zones + [z]);
      DistrictsOfAppend(zones, z, s);
      var one := multiset{ToDaerah(z)};
      var before := if z.negeri in previous then one else multiset{};
      var here := if z.negeri == s then one else multiset{};
      Regroup(multiset(ConcatDistricts(previous, zones)), multiset(DistrictsOf(zones, s)), before, here);
      assert z.negeri in states <==> z.negeri in previous || z.negeri == s;
      if z.negeri == s {
        assert z.negeri !in previous;
      }
      assert before + here == if z.negeri in states then one else multiset{};
    }
  }

  lemma Regroup<T>(a: multiset<T>, b: multiset<T>, x: multiset<T>, y: multiset<T>)
    ensures (a + x) + (b + y) == (a + b) + (x + y)
  {
  }

  /** Grouping is a permutation: the groups' districts, taken group by group, are the input's districts in some order. */
  lemma {:induction false} GroupingIsPermutation(zones: seq<Zone>)
    ensures multiset(Flatten(GroupByState(zones))) == multiset(Districts(zones))
  {
    FlattenGroupsFor(States(zones), zones);
    ConcatStatesDistricts(zones);
  }

  lemma {:induction false} ConcatStatesDistricts(zones: seq<Zone>)
    ensures multiset(ConcatDistricts(States(zones), zones)) == multiset(Districts(zones))
  {
    if zones != [] {
      var previous, z := zones[..|zones| - 1], zones[|zones| - 1];
      assert zones == previous + [z];
      assert Districts(zones) == Districts(previous) + [ToDaerah(z)];
      ConcatStatesDistricts(previous);
      var states := States(previous);
      ConcatDistrictsStep(states, previous, z);
      if z.negeri !in states {
        assert States(zones) == states + [z.negeri];
        assert States(zones)[..|states|] == states;
        assert DistrictsOf(previous, z.negeri) == [];
        assert DistrictsOf(zones, z.negeri) == [ToDaerah(z)];
      }
    }
  }

  /** The sum of the group sizes. */
  function TotalSize(groups: seq<GroupZone>): nat
  {
    if groups == [] then 0 else TotalSize(groups[..|groups| - 1]) + |groups[|groups| - 1].data|
  }

  lemma {:induction false} FlattenSize(groups: seq<GroupZone>)
    ensures |Flatten(groups)| == TotalSize(groups)
  {
    if groups != [] {
      FlattenSize(groups[..|groups| - 1]);
    }
  }

  /** No zone is lost or duplicated: the group sizes add up to the number of zones. */
  lemma GroupSizesSum(zones: seq<Zone>)
    ensures TotalSize(GroupByState(zones)) == |zones|
  {
    GroupingIsPermutation(zones);
    FlattenSize(GroupByState(zones));
    assert |multiset(Flatten(GroupByState(zones)))| == |Flatten(GroupByState(zones))|;
  }

  /** The index of the first zone of a state, or the number of zones when none has it. */
  function FirstIndex(zones: seq<Zone>, state: string): (k: nat)
    ensures k <= |zones|
    ensures k < |zones| ==> zones[k].negeri == state
    ensures forall j :: 0 <= j < k ==> zones[j].negeri != state
  {
    if zones == [] then 0
    else if zones[0].negeri == state then 0
    else 1 + FirstIndex(zones[1..], state)
  }

  lemma FirstIndexExtend(zones: seq<Zone>, z: Zone, state: string)
    ensures state in States(zones) ==> FirstIndex(zones + [z], state) == FirstIndex(zones, state) < |zones|
    ensures state !in States(zones) && z.negeri == state ==> FirstIndex(zones + [z], state) == |zones|
  {
    var extended := zones + [z];
    assert forall j :: 0 <= j < |zones| ==> extended[j] == zones[j];
    assert extended[|zones|] == z;
  }

  /** The groups come in the order in which their states first appear among the zones. */
  lemma {:induction false} StatesInFirstAppearanceOrder(zones: seq<Zone>)
    ensures forall i, j :: 0 <= i < j < |States(zones)| ==>
      FirstIndex(zones, States(zones)[i]) < FirstIndex(zones, States(zones)[j])
  {
    if zones != [] {
      var previous, z := zones[..|zones| - 1], zones[|zones| - 1];
      assert zones == previous + [z];
      StatesInFirstAppearanceOrder(previous);
      var states := States(previous);
      forall i | 0 <= i < |states| {
        FirstIndexExtend(previous, z, states[i]);
      }
      if z.negeri !in states {
        FirstIndexExtend(previous, z, z.negeri);
        assert States(zones) == states + [z.negeri];
      }
    }
  }

  /**
   * The picker's round trip: when a district name belongs to one zone only,
   * looking it up in the grouped zones gives that zone's JAKIM code.
   */
  lemma JakimCodeOfUniqueDistrict(zones: seq<Zone>, k: nat)
    requires k < |zones|
    requires forall j :: 0 <= j < |zones| && j != k ==> zones[j].daerah != zones[k].daerah
    ensures LastCode(zones[k].daerah, Flatten(GroupByState(zones))) == zones[k].jakimCode
  {
    var ds := Flatten(GroupByState(zones));
    var name := zones[k].daerah;
    GroupingIsPermutation(zones);
    assert Districts(zones)[k] == ToDaerah(zones[k]);
    assert ToDaerah(zones[k]) in multiset(ds);
    assert exists p :: 0 <= p < |ds| && ds[p].name == name;
    LastCodeIsLastMatch(name, ds);
    var p :| 0 <= p < |ds| && ds[p].name == name && LastCode(name, ds) == ds[p].jakimCode;
    assert ds[p] in multiset(Districts(zones));
    var j :| 0 <= j < |zones| && Districts(zones)[j] == ds[p];
    assert zones[j].daerah == name;
  }
}
