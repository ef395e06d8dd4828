/**
 * EpochToDatePipe (`epochTo12Hrs`): a 24-hour clock time rendered as
 * "h:m AM" or "h:m PM". The pipe reads the hour and minute from a `Date`;
 * here they are the inputs.
 */
module EpochToDate {
  import opened Wrappers
  import opened Decimal
  import opened JsString

  /** 'PM' from noon on, 'AM' before. */
  function Meridiem(hours: int): (m: string)
    ensures m == "PM" <==> hours >= 12
    ensures m == "AM" <==> hours < 12
  {
    if hours >= 12 then "PM" else "AM"
  }

  /** `hours % 12 || 12`: a multiple of twelve shows as 12. */
  function DisplayHour(hours: nat): (h: nat)
    ensures 1 <= h <= 12
    ensures h % 12 == hours % 12
  {
    if hours % 12 == 0 then 12 else hours % 12
  }

  /** `transform`: hour, ':', minutes in decimal without padding, a space, the meridiem. */
  function Transform(hours: nat, minutes: nat): string
    requires hours < 24 && minutes < 60
  {
    NatToString(DisplayHour(hours)) + ":" + NatToString(minutes) + " " + Meridiem(hours)
  }

  /** Midnight shows as 12 AM and noon as 12 PM. */
  lemma MidnightAndNoon(minutes: nat)
    requires minutes < 60
    ensures Transform(0, minutes) == "12:" + NatToString(minutes) + " AM"
    ensures Transform(12, minutes) == "12:" + NatToString(minutes) + " PM"
  {
    assert NatToString(12) == "12" by {
      assert NatToString(1) == "1";
    }
  }

  /** The shown hour and the meridiem together determine the 24-hour hour. */
  lemma DisplayDeterminesHour(h1: nat, h2: nat)
    requires h1 < 24 && h2 < 24
    requires DisplayHour(h1) == DisplayHour(h2) && Meridiem(h1) == Meridiem(h2)
    ensures h1 == h2
  {
  }

  /** 9:05 shows as "9:5 AM": minutes are not padded. */
  lemma UnpaddedMinutes()
    ensures Transform(9, 5) == "9:5 AM"
  {
  }

  /**
   * Reads a rendering back into a 24-hour hour and minute: split on ' ' into the
   * clock part and the meridiem, split the clock part on ':' and convert both.
   */
  function ReadClock(text: string): Option<(nat, nat)>
  {
    var parts := Split(text, " ");
    if |parts| != 2 then None
    else
      var clock := Split(parts[0], ":");
      if |clock| != 2 then None
      else
        match (ToNumber(clock[0]), ToNumber(clock[1]))
        case (Int(h), Int(m)) =>
          if 1 <= h <= 12 && 0 <= m then
            if parts[1] == "AM" then Some((h % 12, m))
            else if parts[1] == "PM" then Some((h % 12 + 12, m))
            else None
          else None
        case _ => None
  }

  /** The rendering loses nothing: it reads back to the hour and minute it was made from. */
  lemma ClockReadBack(hours: nat, minutes: nat)
    requires hours < 24 && minutes < 60
    ensures ReadClock(Transform(hours, minutes)) == Some((hours, minutes))
  {
    var d, mer := DisplayHour(hours), Meridiem(hours);
    assert Transform(hours, minutes) == NatToString(d) + ":" + NatToString(minutes) + " " + mer;
    RenderedReadBack(d, minutes, mer);
    HalfDay(hours);
  }

  lemma HalfDay(hours: nat)
    requires hours < 24
    ensures hours < 12 ==> Meridiem(hours) == "AM" && DisplayHour(hours) % 12 == hours
    ensures hours >= 12 ==> Meridiem(hours) == "PM" && DisplayHour(hours) % 12 + 12 == hours
  {
  }

  /** "d:m mer" reads back to d and m, with the meridiem deciding the half of the day. */
  lemma RenderedReadBack(d: nat, m: nat, mer: string)
    requires 1 <= d <= 12 && m < 60 && (mer == "AM" || mer == "PM")
    ensures mer == "AM" ==> ReadClock(NatToString(d) + ":" + NatToString(m) + " " + mer) == Some((d % 12, m))
    ensures mer == "PM" ==> ReadClock(NatToString(d) + ":" + NatToString(m) + " " + mer) == Some((d % 12 + 12, m))
  {
    var hText, mText := NatToString(d), NatToString(m);
    var text := hText + ":" + mText + " " + mer;
    assert Split(text, " ") == [hText + ":" + mText, mer] && Split(hText + ":" + mText, ":") == [hText, mText] by {
      SplitClockText(hText, mText, mer);
    }
    assert ToNumber(hText) == Int(d) && ToNumber(mText) == Int(m) by {
      assert Zeros(0) + hText == hText && Zeros(0) + mText == mText;
      NumberOfDecimal(0, d);
      NumberOfDecimal(0, m);
    }
    ReadClockOf(text, hText + ":" + mText, hText, mText, mer, d, m);
  }

  /** How `ReadClock` reads a text whose pieces are known. */
  lemma ReadClockOf(text: string, clockText: string, hText: string, mText: string, mer: string, h: nat, m: nat)
    requires Split(text, " ") == [clockText, mer] && Split(clockText, ":") == [hText, mText]
    requires ToNumber(hText) == Int(h) && ToNumber(mText) == Int(m) && 1 <= h <= 12
    ensures mer == "AM" ==> ReadClock(text) == Some((h % 12, m))
    ensures mer == "PM" ==> ReadClock(text) == Some((h % 12 + 12, m))
  {
  }

  /** A text "h:m mer" with digit-only h and m splits into its clock part and meridiem, and the clock part into h and m. */
  lemma SplitClockText(hText: string, mText: string, mer: string)
    requires AllDigits(hText) && AllDigits(mText) && Avoids(mer, ' ')
    ensures Split(hText + ":" + mText + " " + mer, " ") == [hText + ":" + mText, mer]
    ensures Split(hText + ":" + mText, ":") == [hText, mText]
  {
    var clock := hText + ":" + mText;
    DigitsAvoid(hText, ':');
    DigitsAvoid(mText, ':');
    assert Join([hText, mText], ":") == clock;
    SplitJoin([hText, mText], ":");
    assert Avoids(clock, ' ') by {
      forall i | 0 <= i < |clock| ensures clock[i] != ' ' {
        if i < |hText| { assert clock[i] == hText[i]; }
        else if i > |hText| { assert clock[i] == mText[i - |hText| - 1]; }
      }
    }
    assert Join([clock, mer], " ") == clock + " " + mer;
    SplitJoin([clock, mer], " ");
  }

  lemma DigitsAvoid(s: string, c: char)
    requires AllDigits(s) && !IsDigit(c)
    ensures Avoids(s, c)
  {
  }
}
