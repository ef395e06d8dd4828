/**
 * PrayerTimeTableComponent: turning the day's prayer record into the list of
 * named times the table shows, before the list is sorted.
 */
module PrayerTimeTable {
  import opened Wrappers
  import opened DateFilter

  /** One property of the day's record, as `Object.entries` lists it: a key and its epoch-seconds value. */
  datatype Entry = Entry(key: string, value: int)

  /** A named time the table shows. */
  datatype PrayerInfo = PrayerInfo(name: string, time: JsDate)

  /** Imsak is ten minutes before Subuh. */
  const ImsakOffsetMillis: int := 10 * 60000

  /**
   * `getPrayerName`: the `PrayerTimeName` value for a key when it is truthy
   * (a non-empty string), null otherwise. `names` stands for that enum.
   */
  function GetPrayerName(names: map<string, string>, key: string): (name: Option<string>)
    ensures name.Some? <==> key in names && names[key] != ""
    ensures name.Some? ==> name.value == names[key]
  {
    if key in names && names[key] != "" then Some(names[key]) else None
  }

  predicate IsMetaKey(key: string) {
    key == "hijri" || key == "day"
  }

  /** The first `filter`: the `hijri` and `day` entries are dropped. */
  function DropMeta(entries: seq<Entry>): seq<Entry>
  {
    if entries == [] then []
    else
      var last := entries[|entries| - 1];
      DropMeta(entries[..|entries| - 1]) + (if IsMetaKey(last.key) then [] else [last])
  }

  /** The `map`: a named entry becomes a named time, Subuh becoming Imsak ten minutes earlier; an unnamed one becomes null. */
  function ToPrayerInfo(names: map<string, string>, entry: Entry): Option<PrayerInfo>
  {
    match GetPrayerName(names, entry.key)
    case None => None
    case Some(name) =>
      if name == "Subuh" then Some(PrayerInfo("Imsak", NewDate(entry.value * 1000 - ImsakOffsetMillis)))
      else Some(PrayerInfo(name, EpochToJsDate(entry.value)))
  }

  function MapToInfo(names: map<string, string>, entries: seq<Entry>): (infos: seq<Option<PrayerInfo>>)
    ensures |infos| == |entries|
  {
    seq(|entries|, k requires 0 <= k < |entries| => ToPrayerInfo(names, entries[k]))
  }

  /** The second `filter`: the nulls are dropped. */
  function DropNulls(infos: seq<Option<PrayerInfo>>): (kept: seq<PrayerInfo>)
  {
    if infos == [] then []
    else
      var last := infos[|infos| - 1];
      DropNulls(infos[..|infos| - 1]) + (if last.Some? then [last.value] else [])
  }

  /** `filterPrayerTimes` without its final sort. */
  function FilterPrayerTimes(names: map<string, string>, entries: seq<Entry>): seq<PrayerInfo>
  {
    DropNulls(MapToInfo(names, DropMeta(entries)))
  }

  /**
   * Entry by entry, in entry order: a `hijri` or `day` entry and an entry
   * without a name add nothing; a Subuh entry adds Imsak ten minutes
   * (600000 ms) earlier and no Subuh; any other named entry adds its name
   * and its time.
   */
  lemma FilterPrayerTimesAppend(names: map<string, string>, entries: seq<Entry>, e: Entry)
    ensures IsMetaKey(e.key) ==> FilterPrayerTimes(names, entries + [e]) == FilterPrayerTimes(names, entries)
    ensures !IsMetaKey(e.key) && (e.key !in names || names[e.key] == "") ==>
      FilterPrayerTimes(names, entries + [e]) == FilterPrayerTimes(names, entries)
    ensures !IsMetaKey(e.key) && e.key in names && names[e.key] == "Subuh" ==>
      FilterPrayerTimes(names, entries + [e])
        == FilterPrayerTimes(names, entries) + [PrayerInfo("Imsak", NewDate(e.value * 1000 - 600000))]
    ensures !IsMetaKey(e.key) && e.key in names && names[e.key] != "" && names[e.key] != "Subuh" ==>
      FilterPrayerTimes(names, entries + [e])
        == FilterPrayerTimes(names, entries) + [PrayerInfo(names[e.key], EpochToJsDate(e.value))]
  {
    var kept := DropMeta(entries);
    assert (entries + [e])[..|entries|] == entries;
    if !IsMetaKey(e.key) {
      assert DropMeta(entries + [e]) == kept + [e];
      var infos := MapToInfo(names, kept);
      assert MapToInfo(names, kept + [e]) == infos + [ToPrayerInfo(names, e)];
      assert (infos + [ToPrayerInfo(names, e)])[..|infos|] == infos;
    } else {
      assert DropMeta(entries + [e]) == kept;
    }
  }

  /** No entry named Subuh ever reaches the table. */
  lemma {:induction false} NoSubuhShown(names: map<string, string>, entries: seq<Entry>)
    ensures forall k :: 0 <= k < |FilterPrayerTimes(names, entries)| ==> FilterPrayerTimes(names, entries)[k].name != "Subuh"
  {
    if entries != [] {
      var previous, e := entries[..|entries| - 1], entries[|entries| - 1];
      assert entries == previous + [e];
      NoSubuhShown(names, previous);
      FilterPrayerTimesAppend(names, previous, e);
    }
  }

  /** At most one time per entry other than `hijri` and `day`. */
  lemma {:induction false} FilterPrayerTimesBound(names: map<string, string>, entries: seq<Entry>)
    ensures |FilterPrayerTimes(names, entries)| <= |DropMeta(entries)|
  {
    if entries != [] {
      var previous, e := entries[..|entries| - 1], entries[|entries| - 1];
      assert entries == previous + [e];
      FilterPrayerTimesBound(names, previous);
      FilterPrayerTimesAppend(names, previous, e);
    }
  }

  /** With a representable Subuh time, Imsak is exactly 600000 ms before the Subuh instant. */
  lemma ImsakTenMinutesBeforeSubuh(subuh: int)
    requires -MaxTimeValue / 1000 <= subuh - 600 && subuh <= MaxTimeValue / 1000
    ensures EpochToJsDate(subuh).At?
    ensures NewDate(subuh * 1000 - 600000) == At(EpochToJsDate(subuh).millis - 600000)
    ensures NewDate(subuh * 1000 - 600000) == EpochToJsDate(subuh - 600)
  {
  }
}
