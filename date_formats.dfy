/** Two `datetime.strptime` formats over ASCII digits: "%m/%d/%Y"
    (month/day/four-digit year) and "%M/%d/%y" (minute/day/two-digit year,
    the month left at its default, January). */
module DateFormats {

  import opened Wrappers
  import opened Text
  import opened Dates

  /** What the "%m", "%d" and "%M" directives match: one or two digits. */
  predicate IsShortNumber(s: string) { 1 <= |s| <= 2 && AllDigits(s) }

  /** `datetime.datetime.strptime(s, "%m/%d/%Y").date()`; ValueError when the
      pattern does not match or the fields do not make a valid date. */
  function ParseMonthDayYear(s: string): Result<Date>
  {
    var parts := Split(s, '/');
    if |parts| == 3 && IsShortNumber(parts[0]) && IsShortNumber(parts[1])
       && |parts[2]| == 4 && AllDigits(parts[2])
    then
      var d := Date(DigitsValue(parts[2]), DigitsValue(parts[0]), DigitsValue(parts[1]));
      if IsValid(d) then Ok(d) else Err(ValueError)
    else Err(ValueError)
  }

  /** `datetime.datetime.strptime(s, "%M/%d/%y")`: the first field is the
      minute, the year has two digits (69..99 in the 1900s, 00..68 in the
      2000s) and the date falls in January. */
  function ParseMinuteDayShortYear(s: string): Result<DateTime>
  {
    var parts := Split(s, '/');
    if |parts| == 3 && IsShortNumber(parts[0]) && IsShortNumber(parts[1])
       && |parts[2]| == 2 && AllDigits(parts[2])
    then
      var minute, day, yy := DigitsValue(parts[0]), DigitsValue(parts[1]), DigitsValue(parts[2]);
      if minute <= 59 && 1 <= day <= 31
      then Ok(DateTime(Date(if yy <= 68 then 2000 + yy else 1900 + yy, 1, day), 0, minute))
      else Err(ValueError)
    else Err(ValueError)
  }

  /** n in exactly `width` digits, zero-padded. */
  function Pad(n: nat, width: nat): string
  {
    PadLeft(NatDigits(n), width)
  }

  /** `d.strftime("%m/%d/%Y")`. */
  function FormatMonthDayYear(d: Date): string
    requires IsValid(d)
  {
    Pad(d.month, 2) + "/" + Pad(d.day, 2) + "/" + Pad(d.year, 4)
  }

  lemma {:induction false} NatDigitsLength(n: nat, k: nat)
    requires k >= 1 && n < Pow10(k)
    ensures |NatDigits(n)| <= k
  {
    if n >= 10 {
      assert k >= 2;
      assert Pow10(k) == 10 * Pow10(k - 1);
      NatDigitsLength(n / 10, k - 1);
    }
  }

  lemma PadExact(n: nat, width: nat)
    requires width >= 1 && n < Pow10(width)
    ensures |Pad(n, width)| == width && AllDigits(Pad(n, width)) && '/' !in Pad(n, width)
    ensures DigitsValue(Pad(n, width)) == n
  {
    NatDigitsLength(n, width);
    NatDigitsValue(n);
    PadLeftValue(NatDigits(n), width);
    var p := Pad(n, width);
    forall i | 0 <= i < |p| ensures p[i] != '/' { assert IsDigit(p[i]); }
  }

  /** Every valid date is read back from its MM/DD/YYYY text. */
  lemma ParseFormatMonthDayYear(d: Date)
    requires IsValid(d)
    ensures ParseMonthDayYear(FormatMonthDayYear(d)) == Ok(d)
  {
    assert Pow10(2) == 100 && Pow10(4) == 10000;
    PadExact(d.month, 2);
    PadExact(d.day, 2);
    PadExact(d.year, 4);
    var m, dd, y := Pad(d.month, 2), Pad(d.day, 2), Pad(d.year, 4);
    JoinThree(m, dd, y, '/');
    SplitJoin([m, dd, y], '/');
  }

  /** No MM/DD/YYYY text is accepted by "%M/%d/%y": the year field has four digits. */
  lemma ShortYearRejectsFourDigitYears(d: Date)
    requires IsValid(d)
    ensures ParseMinuteDayShortYear(FormatMonthDayYear(d)) == Err(ValueError)
  {
    assert Pow10(2) == 100 && Pow10(4) == 10000;
    PadExact(d.month, 2);
    PadExact(d.day, 2);
    PadExact(d.year, 4);
    var m, dd, y := Pad(d.month, 2), Pad(d.day, 2), Pad(d.year, 4);
    JoinThree(m, dd, y, '/');
    SplitJoin([m, dd, y], '/');
  }
}
