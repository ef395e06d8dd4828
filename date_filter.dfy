/**
 * DateFilterService: converting a Unix timestamp in seconds to a JavaScript
 * `Date`, and splitting a Hijri date string into numbers.
 */
module DateFilter {
  import opened Decimal
  import opened JsString

  /** The largest magnitude of a JavaScript time value: 10^8 days, in milliseconds. */
  const MaxTimeValue: int := 8_640_000_000_000_000

  /** A JavaScript `Date`: a time value in milliseconds after the Unix epoch, or an invalid date. */
  datatype JsDate = At(millis: int) | InvalidDate

  /** `new Date(ms)` for an integer ms: time values beyond the range make an invalid date. */
  function NewDate(ms: int): (d: JsDate)
    ensures d.At? <==> -MaxTimeValue <= ms <= MaxTimeValue
    ensures d.At? ==> d.millis == ms
  {
    if -MaxTimeValue <= ms <= MaxTimeValue then At(ms) else InvalidDate
  }

  /** `epochToJsDate`: the date `timestamp` seconds after the epoch. */
  function EpochToJsDate(timestamp: int): JsDate
  {
    NewDate(timestamp * 1000)
  }

  /** Every timestamp a `Date` can hold denotes the instant exactly timestamp*1000 ms after the epoch, and reads back. */
  lemma EpochToJsDateExact(timestamp: int)
    requires -MaxTimeValue / 1000 <= timestamp <= MaxTimeValue / 1000
    ensures EpochToJsDate(timestamp) == At(timestamp * 1000)
    ensures EpochToJsDate(timestamp).millis / 1000 == timestamp
    ensures EpochToJsDate(timestamp).millis % 1000 == 0
  {
  }

  /** Timestamps out of that range give an invalid date. */
  lemma EpochToJsDateOutOfRange(timestamp: int)
    requires timestamp < -MaxTimeValue / 1000 || MaxTimeValue / 1000 < timestamp
    ensures EpochToJsDate(timestamp) == InvalidDate
  {
  }

  /** Distinct timestamps never denote the same valid date, and later ones denote later dates. */
  lemma EpochToJsDateMonotone(a: int, b: int)
    requires a < b && EpochToJsDate(a).At? && EpochToJsDate(b).At?
    ensures EpochToJsDate(a).millis < EpochToJsDate(b).millis
  {
  }

  /** `splitHijri`: `hijriDate.split(splitter).map(Number)`. */
  function SplitHijri(hijriDate: string, splitter: string): (parts: seq<JsNumber>)
    ensures |parts| == |Split(hijriDate, splitter)|
  {
    var pieces := Split(hijriDate, splitter);
    seq(|pieces|, i requires 0 <= i < |pieces| => ToNumber(pieces[i]))
  }

  /** One number per piece: occurrences of a non-empty splitter plus one, one per character for an empty one. */
  lemma SplitHijriLength(hijriDate: string, splitter: string)
    ensures splitter != [] ==> |SplitHijri(hijriDate, splitter)| == CountFrom(hijriDate, splitter, 0) + 1
    ensures splitter == [] ==> |SplitHijri(hijriDate, splitter)| == |hijriDate|
  {
    if splitter != [] {
      SplitCount(hijriDate, splitter);
    }
  }

  /**
   * Digit-only pieces of value at most 2^53, joined with a splitter that does
   * not start with a digit, split back into their decimal values: leading
   * zeros are ignored and an empty piece (two adjacent splitters) gives 0.
   */
  lemma {:induction false} SplitHijriOfDigitPieces(pieces: seq<string>, splitter: string)
    requires splitter != [] && !IsDigit(splitter[0]) && |pieces| > 0
    requires forall k :: 0 <= k < |pieces| ==> AllDigits(pieces[k]) && DigitsValue(pieces[k]) <= MaxExactInteger
    ensures SplitHijri(Join(pieces, splitter), splitter)
         == seq(|pieces|, k requires 0 <= k < |pieces| => Int(DigitsValue(pieces[k])))
  {
    forall k | 0 <= k < |pieces| ensures Avoids(pieces[k], splitter[0]) {
      forall i | 0 <= i < |pieces[k]| ensures pieces[k][i] != splitter[0] {
        assert IsDigit(pieces[k][i]);
      }
    }
    SplitJoin(pieces, splitter);
  }

  /** The decimal texts of integers in 0..2^53, joined with such a splitter, split back into the same integers. */
  lemma SplitHijriRoundTrip(ns: seq<nat>, splitter: string)
    requires splitter != [] && !IsDigit(splitter[0]) && |ns| > 0
    requires forall k :: 0 <= k < |ns| ==> ns[k] <= MaxExactInteger
    ensures SplitHijri(Join(DecimalTexts(ns), splitter), splitter)
         == seq(|ns|, k requires 0 <= k < |ns| => Int(ns[k]))
  {
    var pieces := DecimalTexts(ns);
    forall k | 0 <= k < |ns| ensures DigitsValue(pieces[k]) == ns[k] {
      DigitsValueOfNatToString(ns[k]);
    }
    SplitHijriOfDigitPieces(pieces, splitter);
  }

  function DecimalTexts(ns: seq<nat>): (texts: seq<string>)
    ensures |texts| == |ns|
  {
    seq(|ns|, k requires 0 <= k < |ns| => NatToString(ns[k]))
  }

  /** The Hijri date of a daily record, "1446-03-15" split on "-", gives 1446, 3 and 15. */
  lemma SplitHijriExample()
    ensures SplitHijri("1446-03-15", "-") == [Int(1446), Int(3), Int(15)]
  {
    var pieces := ["1446", "03", "15"];
    assert Join(pieces, "-") == "1446-03-15" by { ExampleJoin(); }
    assert forall k :: 0 <= k < |pieces| ==> AllDigits(pieces[k]);
    ExampleDigits();
    SplitHijriOfDigitPieces(pieces, "-");
  }

  lemma ExampleJoin()
    ensures Join(["1446", "03", "15"], "-") == "1446-03-15"
  {
    assert Join(["15"], "-") == "15";
    assert ["03", "15"][1..] == ["15"];
    assert Join(["03", "15"], "-") == "03-15";
    assert ["1446", "03", "15"][1..] == ["03", "15"];
  }

  lemma ExampleDigits()
    ensures DigitsValue("1446") == 1446 && DigitsValue("03") == 3 && DigitsValue("15") == 15
  {
    assert DigitsValue("1446") == 1446 by {
      assert "1446"[..3] == "144" && "144"[..2] == "14" && "14"[..1] == "1" && "1"[..0] == "";
    }
    assert DigitsValue("03") == 3 by {
      assert "03"[..1] == "0" && "0"[..0] == "";
    }
    assert DigitsValue("15") == 15 by {
      assert "15"[..1] == "1" && "1"[..0] == "";
    }
  }

  /** A piece holding a character no numeric literal contains, such as a letter like 'z', gives NaN. */
  lemma SplitHijriNonNumericPiece(hijriDate: string, splitter: string, k: nat, i: nat)
    requires k < |Split(hijriDate, splitter)|
    requires i < |Split(hijriDate, splitter)[k]| && !IsNumericLiteralChar(Split(hijriDate, splitter)[k][i])
    ensures SplitHijri(hijriDate, splitter)[k] == NaN
  {
    NumberOfNonNumeric(Split(hijriDate, splitter)[k], i);
  }
}
