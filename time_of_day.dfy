/**
 * `formatTimeOfDay` (`src/utils/date.ts`): a clock time on the 12-hour
 * dial, as "h:mm AM", with the separator, the suffix and the padding of
 * the hour chosen by the caller. The `Date` argument is given here by the
 * two fields read from it, `getHours()` (0 to 23) and `getMinutes()`
 * (0 to 59).
 */
module TimeOfDay {
  import opened Text

  /** The hour on a 12-hour dial: `hours % 12`, with 0 shown as 12. */
  function DisplayHour(hours: nat): (h: nat)
    requires hours < 24
    ensures 1 <= h <= 12
    ensures h % 12 == hours % 12
  {
    if hours % 12 == 0 then 12 else hours % 12
  }

  /** The hour and its dial reading agree on the half of the day. */
  lemma DisplayHourDetermines(a: nat, b: nat)
    requires a < 24 && b < 24
    requires DisplayHour(a) == DisplayHour(b) && (a < 12 <==> b < 12)
    ensures a == b
  {
    assert a % 12 == b % 12;
  }

  /** A number below 100 with a '0' in front when it is below 10. */
  function TwoDigits(n: nat): (r: string)
    requires n < 100
    ensures |r| == 2
    ensures forall i :: 0 <= i < |r| ==> '0' <= r[i] <= '9'
    ensures DecimalValue(r) == n
  {
    NatToStringValue(n);
    if n < 10 then
      assert DecimalValue("0") == 0;
      "0" + NatToString(n)
    else
      NatToString(n)
  }

  /** The hour as written: a plain number, or two digits when `padHourWithZero`. */
  function HourText(hours: nat, padHourWithZero: bool): (r: string)
    requires hours < 24
    ensures 1 <= |r| <= 2
    ensures forall i :: 0 <= i < |r| ==> '0' <= r[i] <= '9'
    ensures DecimalValue(r) == DisplayHour(hours)
    ensures padHourWithZero ==> |r| == 2
  {
    var h := DisplayHour(hours);
    NatToStringValue(h);
    if padHourWithZero then TwoDigits(h)
    else
      assert h >= 10 ==> NatToString(h) == NatToString(h / 10) + [DigitChar(h % 10)];
      NatToString(h)
  }

  /** " AM" before noon, " PM" from noon on, nothing when `showAmPm` is false. */
  function Suffix(hours: nat, showAmPm: bool): (r: string)
    ensures |r| == if showAmPm then 3 else 0
    ensures showAmPm ==> (r == " AM" <==> hours < 12) && (r == " PM" <==> hours >= 12)
  {
    if showAmPm then (if hours >= 12 then " PM" else " AM") else ""
  }

  /** `formatTimeOfDay(date, showAmPm, padHourWithZero, timeSeperator)`. */
  function FormatTimeOfDay(hours: nat, minutes: nat, showAmPm: bool, padHourWithZero: bool, sep: string): (r: string)
    requires hours < 24 && minutes < 60
    ensures var tail := if showAmPm then 3 else 0;
            3 + |sep| + tail <= |r| <= 4 + |sep| + tail &&
            (padHourWithZero ==> |r| == 4 + |sep| + tail) &&
            (forall i :: |r| - tail - 2 <= i < |r| - tail ==> '0' <= r[i] <= '9') &&
            DecimalValue(r[|r| - tail - 2..|r| - tail]) == minutes
    ensures showAmPm ==> (r[|r| - 2..] == "AM" <==> hours < 12)
  {
    var h, m, s := HourText(hours, padHourWithZero), TwoDigits(minutes), Suffix(hours, showAmPm);
    var r := h + sep + m + s;
    assert r[|r| - |s| - 2..|r| - |s|] == m;
    assert showAmPm ==> r[|r| - 2..] == s[1..];
    r
  }

  /** The hour, the minutes and, with the suffix shown, the half of the day can be read back from the text. */
  lemma FormatTimeOfDayReadsBack(hours: nat, minutes: nat, showAmPm: bool, padHourWithZero: bool, sep: string)
    requires hours < 24 && minutes < 60
    ensures var r := FormatTimeOfDay(hours, minutes, showAmPm, padHourWithZero, sep);
            var k := |r| - 2 - |sep| - (if showAmPm then 3 else 0);
            1 <= k <= 2 &&
            (forall i :: 0 <= i < k ==> '0' <= r[i] <= '9') &&
            DecimalValue(r[..k]) == DisplayHour(hours) &&
            (showAmPm ==> (r[|r| - 2..] == "AM" <==> hours < 12))
  {
    var r := FormatTimeOfDay(hours, minutes, showAmPm, padHourWithZero, sep);
    var h := HourText(hours, padHourWithZero);
    assert r == h + sep + TwoDigits(minutes) + Suffix(hours, showAmPm);
    assert r[..|h|] == h;
  }

  /** Two times of day that format alike with the suffix shown are the same time. */
  lemma FormatTimeOfDayInjective(h1: nat, m1: nat, h2: nat, m2: nat, padHourWithZero: bool, sep: string)
    requires h1 < 24 && m1 < 60 && h2 < 24 && m2 < 60
    requires FormatTimeOfDay(h1, m1, true, padHourWithZero, sep) == FormatTimeOfDay(h2, m2, true, padHourWithZero, sep)
    ensures h1 == h2 && m1 == m2
  {
    FormatTimeOfDayReadsBack(h1, m1, true, padHourWithZero, sep);
    FormatTimeOfDayReadsBack(h2, m2, true, padHourWithZero, sep);
    DisplayHourDetermines(h1, h2);
  }
}
