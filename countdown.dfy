/**
 * CountdownPipe: from a duration in seconds, one rendering per one-second
 * tick, counting down to zero, with a completion signal on zero. Ticks are
 * loop indices here; the wall clock is not modelled.
 */
module Countdown {
  import opened Decimal

  datatype TimeParts = TimeParts(hours: int, minutes: int, seconds: int)

  /** The four translated words a rendering uses. */
  datatype Texts = Texts(hoursText: string, minutesText: string, secondsText: string, remainingText: string)

  /** What the pipe's stream and its completion emitter do, in order. */
  datatype Event = Emitted(text: string) | Completed

  datatype Unit = Hour | Minute | Second

  /**
   * JavaScript's `%`: what is left of a after taking away a whole multiple of
   * b, with the sign of the dividend.
   */
  function JsRem(a: int, b: int): (r: int)
    requires b > 0
    ensures exists q :: a == q * b + r
    ensures a >= 0 ==> 0 <= r < b
    ensures a < 0 ==> -b < r <= 0
  {
    if a >= 0 then
      assert a == (a / b) * b + a % b;
      a % b
    else
      var q := (-a) / b;
      assert -a == q * b + (-a) % b;
      assert a - -((-a) % b) == (-q) * b;
      -((-a) % b)
  }

  /**
   * `getTimeParts`: `Math.floor(v / 3600)`, `Math.floor((v % 3600) / 60)` and
   * `v % 60`. Dividing by a positive divisor in Dafny already rounds down.
   */
  function GetTimeParts(value: int): TimeParts
  {
    TimeParts(value / 3600, JsRem(value, 3600) / 60, JsRem(value, 60))
  }

  /** For a non-negative count of seconds the parts are hours, minutes below 60 and seconds below 60 that add back up to it. */
  lemma TimePartsRecompose(value: int)
    requires value >= 0
    ensures GetTimeParts(value).hours >= 0
    ensures 0 <= GetTimeParts(value).minutes < 60 && 0 <= GetTimeParts(value).seconds < 60
    ensures GetTimeParts(value).hours * 3600 + GetTimeParts(value).minutes * 60 + GetTimeParts(value).seconds == value
  {
    var q, r := value / 3600, value % 3600;
    assert value == q * 3600 + r;
    var m, s := r / 60, r % 60;
    assert r == m * 60 + s;
    var minutesTotal := q * 60 + m;
    assert value == minutesTotal * 60 + s;
    RemainderOf60(value, minutesTotal, s);
  }

  lemma RemainderOf60(x: int, k: int, s: int)
    requires x == k * 60 + s && 0 <= s < 60
    ensures x % 60 == s
  {
  }

  /** The hours field is shown exactly when there is at least an hour left, the minutes field exactly when there is at least a minute. */
  lemma ShownFieldsForValue(value: int)
    requires value >= 0
    ensures ShowsHours(GetTimeParts(value)) <==> value >= 3600
    ensures ShowsMinutes(GetTimeParts(value)) <==> value >= 60
  {
    TimePartsRecompose(value);
  }

  function SingularKey(unit: Unit): string {
    match unit
    case Hour => "hour_singular"
    case Minute => "minute_singular"
    case Second => "second_singular"
  }

  function PluralKey(unit: Unit): string {
    match unit
    case Hour => "hour"
    case Minute => "minute"
    case Second => "second"
  }

  /** The key choice in `getTranslations`: singular for a part of at most one, zero included. */
  function UnitKey(unit: Unit, part: int): (key: string)
    ensures key == SingularKey(unit) <==> part <= 1
    ensures key == PluralKey(unit) <==> part > 1
  {
    if part <= 1 then SingularKey(unit) else PluralKey(unit)
  }

  /** Which keys a count of seconds selects: plural hours from two hours on, plural minutes from two minutes past the hour, plural seconds from two. */
  lemma KeysForValue(value: int)
    requires value >= 0
    ensures UnitKey(Hour, GetTimeParts(value).hours) == PluralKey(Hour) <==> value >= 7200
    ensures UnitKey(Minute, GetTimeParts(value).minutes) == PluralKey(Minute) <==> value % 3600 >= 120
    ensures UnitKey(Second, GetTimeParts(value).seconds) == PluralKey(Second) <==> value % 60 >= 2
  {
  }

  const KeyPrefix := "solatku.info_section.countdown."

  /** `getTranslations`, with `translate` standing for the translator's `getTranslation`. */
  function GetTranslations(parts: TimeParts, translate: string -> string): Texts
  {
    Texts(translate(KeyPrefix + UnitKey(Hour, parts.hours)),
          translate(KeyPrefix + UnitKey(Minute, parts.minutes)),
          translate(KeyPrefix + UnitKey(Second, parts.seconds)),
          translate(KeyPrefix + "remaining"))
  }

  /** `formatTime`: the three-way choice of fields. */
  function FormatTime(parts: TimeParts, texts: Texts): string
  {
    if parts.hours > 0 then
      IntToString(parts.hours) + " " + texts.hoursText + " " + IntToString(parts.minutes) + " " + texts.minutesText + " "
      + IntToString(parts.seconds) + " " + texts.secondsText + " " + texts.remainingText
    else if parts.minutes > 0 then
      IntToString(parts.minutes) + " " + texts.minutesText + " " + IntToString(parts.seconds) + " " + texts.secondsText + " "
      + texts.remainingText
    else
      IntToString(parts.seconds) + " " + texts.secondsText + " " + texts.remainingText
  }

  predicate ShowsHours(parts: TimeParts) {
    parts.hours > 0
  }

  predicate ShowsMinutes(parts: TimeParts) {
    parts.hours > 0 || parts.minutes > 0
  }

  /** One rendered field: the number, its word and a separating space. */
  function Field(n: int, word: string): string {
    IntToString(n) + " " + word + " "
  }

  /**
   * Field by field: hours only when there are hours, minutes when there are
   * hours or minutes, seconds always, and the "remaining" word last.
   */
  lemma FormatTimeFields(parts: TimeParts, texts: Texts)
    ensures FormatTime(parts, texts)
         == (if ShowsHours(parts) then Field(parts.hours, texts.hoursText) else "")
          + (if ShowsMinutes(parts) then Field(parts.minutes, texts.minutesText) else "")
          + Field(parts.seconds, texts.secondsText)
          + texts.remainingText
    ensures var r := FormatTime(parts, texts);
      |r| >= |texts.remainingText| && r[|r| - |texts.remainingText|..] == texts.remainingText
  {
    if parts.hours > 0 {
      FieldsWithHours(parts, texts);
    } else if parts.minutes > 0 {
      FieldsWithMinutes(parts, texts);
    } else {
      assert FormatTime(parts, texts) == Field(parts.seconds, texts.secondsText) + texts.remainingText;
    }
  }

  lemma FieldsWithHours(parts: TimeParts, texts: Texts)
    requires parts.hours > 0
    ensures FormatTime(parts, texts)
         == Field(parts.hours, texts.hoursText) + Field(parts.minutes, texts.minutesText)
          + Field(parts.seconds, texts.secondsText) + texts.remainingText
  {
    AppendField(Field(parts.hours, texts.hoursText), parts.minutes, texts.minutesText);
    AppendField(Field(parts.hours, texts.hoursText) + Field(parts.minutes, texts.minutesText), parts.seconds, texts.secondsText);
  }

  lemma FieldsWithMinutes(parts: TimeParts, texts: Texts)
    requires parts.hours <= 0 && parts.minutes > 0
    ensures FormatTime(parts, texts)
         == Field(parts.minutes, texts.minutesText) + Field(parts.seconds, texts.secondsText) + texts.remainingText
  {
    AppendField(Field(parts.minutes, texts.minutesText), parts.seconds, texts.secondsText);
  }

  /** A field appended to a text is the text followed by the field's pieces. */
  lemma AppendField(prefix: string, n: int, word: string)
    ensures prefix + Field(n, word) == prefix + IntToString(n) + " " + word + " "
  {
  }

  /** The text the pipe emits for one remaining value. */
  function Render(value: int, translate: string -> string): string
  {
    FormatTime(GetTimeParts(value), GetTranslations(GetTimeParts(value), translate))
  }

  function Emissions(values: seq<int>, translate: string -> string): (events: seq<Event>)
    ensures |events| == |values|
    ensures forall k :: 0 <= k < |events| ==> events[k].Emitted?
  {
    seq(|values|, k requires 0 <= k < |values| => Emitted(Render(values[k], translate)))
  }

  lemma EmissionsAppend(values: seq<int>, v: int, translate: string -> string)
    ensures Emissions(values + [v], translate) == Emissions(values, translate) + [Emitted(Render(v, translate))]
  {
  }

  lemma EmissionsNeverComplete(values: seq<int>, translate: string -> string)
    ensures multiset(Emissions(values, translate))[Completed] == 0
  {
    var es := Emissions(values, translate);
    assert Completed !in es;
  }

  /**
   * `transform`: tick i carries the value duration - i; ticks continue while
   * the value is non-negative; on the value 0 the completion emitter fires
   * before that value's text is emitted. `values` are the remaining values,
   * `events` what the stream and the emitter produce, in order.
   */
  method Transform(duration: int, translate: string -> string) returns (values: seq<int>, events: seq<Event>)
    ensures |values| == (if duration >= 0 then duration + 1 else 0)
    ensures forall k :: 0 <= k < |values| ==> values[k] == duration - k && values[k] >= 0
    ensures duration < 0 ==> events == []
    ensures duration >= 0 ==>
      events == Emissions(values[..duration], translate) + [Completed, Emitted(Render(0, translate))]
    ensures multiset(events)[Completed] == (if duration >= 0 then 1 else 0)
  {
    var tick := 0;
    values, events := [], [];
    while duration - tick >= 0
      invariant 0 <= tick
      invariant duration >= 0 ==> tick <= duration + 1
      invariant duration < 0 ==> tick == 0 && events == []
      invariant |values| == tick
      invariant forall k :: 0 <= k < tick ==> values[k] == duration - k
      invariant tick <= duration ==> events == Emissions(values, translate)
      invariant duration >= 0 && tick == duration + 1 ==>
        events == Emissions(values[..duration], translate) + [Completed, Emitted(Render(0, translate))]
      decreases duration - tick + 1
    {
      var value := duration - tick;
      EmissionsAppend(values, value, translate);
      if value == 0 {
        events := events + [Completed];
      }
      events := events + [Emitted(Render(value, translate))];
      values := values + [value];
      tick := tick + 1;
      assert value == 0 ==> values[..duration] == values[..tick - 1];
    }
    if duration >= 0 {
      EmissionsNeverComplete(values[..duration], translate);
    }
  }
}
