/** `first_day_previous_month`: the start of the harvesting window, "YYYY-MM-01" of the month before a reference date. */
module Dates {
  import opened Numerals

  /** A calendar month as `datetime.date` holds it: year 1 to 9999, month 1 to 12. */
  predicate ValidYearMonth(year: int, month: int) {
    1 <= year <= 9999 && 1 <= month <= 12
  }

  /** The month before `(year, month)`: December of the year before for January. */
  function PreviousMonth(year: nat, month: nat): (ym: (nat, nat))
    requires ValidYearMonth(year, month)
    ensures 1 <= ym.1 <= 12 && ym.0 <= 9999
    ensures month == 1 ==> ym == (year - 1, 12)
    ensures month != 1 ==> ym == (year, month - 1)
  {
    if month == 1 then (year - 1, 12) else (year, month - 1)
  }

  /** The month after `(year, month)`, the reference definition `PreviousMonth` undoes. */
  function NextMonth(year: nat, month: nat): (ym: (nat, nat))
    requires 1 <= month <= 12
  {
    if month == 12 then (year + 1, 1) else (year, month + 1)
  }

  /** Stepping back one month and forward one month again returns to the reference month. */
  lemma NextOfPrevious(year: nat, month: nat)
    requires ValidYearMonth(year, month)
    ensures var p := PreviousMonth(year, month); NextMonth(p.0, p.1) == (year, month)
  {
  }

  /**
   * `f"{year:04d}-{month:02d}-01"` for the previous month. The reference
   * date is a parameter: the source reads `date.today()` when none is given.
   */
  function FirstDayPreviousMonth(year: nat, month: nat): (s: string)
    requires ValidYearMonth(year, month)
    ensures |s| == 10 && s[4] == '-' && s[7] == '-' && s[8..] == "01"
    ensures AllDigits(s[..4]) && AllDigits(s[5..7])
  {
    var p := PreviousMonth(year, month);
    PadDigits(p.0, 4) + "-" + PadDigits(p.1, 2) + "-01"
  }

  /** The year and month written are those of the previous month, and the day is always the first. */
  lemma FirstDayPreviousMonthReadsBack(year: nat, month: nat)
    requires ValidYearMonth(year, month)
    ensures var s := FirstDayPreviousMonth(year, month);
            var p := PreviousMonth(year, month);
            ParseDigits(s[..4]) == p.0 && ParseDigits(s[5..7]) == p.1 && s[8..] == "01"
  {
    var p := PreviousMonth(year, month);
    var s := FirstDayPreviousMonth(year, month);
    assert s[..4] == PadDigits(p.0, 4);
    assert s[5..7] == PadDigits(p.1, 2);
    ParsePadDigits(p.0, 4);
    ParsePadDigits(p.1, 2);
  }
}
