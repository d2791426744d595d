/** Calendar dates in the extended ISO 8601 form `YYYY-MM-DD`
    (ISO 8601:2004 section 4.1.2.2), as Python's `datetime` accepts them:
    ASCII digits, years 1 to 9999, months 1 to 12 and the real length of each
    month, leap years included. */
module IsoDate {
  import opened Wrappers
  import opened Text

  datatype Date = Date(year: int, month: int, day: int)

  /** Gregorian leap years. */
  predicate IsLeapYear(y: int)
  {
    y % 4 == 0 && (y % 100 != 0 || y % 400 == 0)
  }

  function DaysInMonth(y: int, m: int): (n: int)
    requires 1 <= m <= 12
    ensures 28 <= n <= 31
  {
    if m == 2 then (if IsLeapYear(y) then 29 else 28)
    else if m == 4 || m == 6 || m == 9 || m == 11 then 30
    else 31
  }

  /** What `datetime` can represent: MINYEAR is 1 and MAXYEAR is 9999. */
  predicate IsValidDate(d: Date)
  {
    1 <= d.year <= 9999 && 1 <= d.month <= 12 && 1 <= d.day <= DaysInMonth(d.year, d.month)
  }

  /** The `YYYY-MM-DD` text of a date, as `date.isoformat()` writes it. */
  function FormatDate(d: Date): (s: string)
    requires IsValidDate(d)
    ensures |s| == 10
  {
    ZeroPad(d.year, 4) + "-" + ZeroPad(d.month, 2) + "-" + ZeroPad(d.day, 2)
  }

  /** True when `s` has the shape `DDDD-DD-DD` with ASCII digits. */
  predicate HasDateShape(s: string)
  {
    |s| == 10 && AllDigits(s[0..4]) && s[4] == '-' && AllDigits(s[5..7]) && s[7] == '-'
    && AllDigits(s[8..10])
  }

  /** `datetime.fromisoformat(s)` on a string of at most ten characters: the date
      it denotes, or `None` where Python raises `ValueError`. */
  function ParseIsoDate(s: string): (r: Option<Date>)
    ensures r.Some? ==> IsValidDate(r.value)
  {
    if HasDateShape(s) then
      var d := Date(DigitsValue(s[0..4]), DigitsValue(s[5..7]), DigitsValue(s[8..10]));
      if IsValidDate(d) then Some(d) else None
    else None
  }

  /** Every date the parser returns is the one the text spells out. */
  lemma ParseIsoDateSound(s: string, d: Date)
    requires ParseIsoDate(s) == Some(d)
    ensures IsValidDate(d) && s == FormatDate(d)
  {
    var y, m, dd := s[0..4], s[5..7], s[8..10];
    DigitsZeroPad(y);
    DigitsZeroPad(m);
    DigitsZeroPad(dd);
    assert FormatDate(d) == y + "-" + m + "-" + dd;
    assert s == y + "-" + m + "-" + dd;
  }

  /** Every valid date, written out, parses back to itself. */
  lemma ParseIsoDateComplete(d: Date)
    requires IsValidDate(d)
    ensures ParseIsoDate(FormatDate(d)) == Some(d)
  {
    var s := FormatDate(d);
    var y, m, dd := ZeroPad(d.year, 4), ZeroPad(d.month, 2), ZeroPad(d.day, 2);
    assert s[0..4] == y && s[5..7] == m && s[8..10] == dd;
    assert Pow10(4) == 10000 && Pow10(2) == 100;
    ZeroPadValue(d.year, 4);
    ZeroPadValue(d.month, 2);
    ZeroPadValue(d.day, 2);
  }

  /** The parser accepts exactly the formatted valid dates, and gives back the
      date that was formatted. */
  lemma ParseIsoDateExact(s: string, d: Date)
    ensures ParseIsoDate(s) == Some(d) <==> IsValidDate(d) && s == FormatDate(d)
  {
    if ParseIsoDate(s) == Some(d) {
      ParseIsoDateSound(s, d);
    }
    if IsValidDate(d) && s == FormatDate(d) {
      ParseIsoDateComplete(d);
    }
  }

  /** Text that is not a date in this form is rejected, so it is never filtered. */
  lemma NotADateRejected()
    ensures ParseIsoDate("not-a-date") == None
  {
    assert !IsDigit("not-a-date"[0]);
    assert !AllDigits("not-a-date"[0..4]);
  }

  /** Year 0 and 29 February of a common year have the right shape but are not
      dates `datetime` can hold. */
  lemma OutOfRangeRejected()
    ensures ParseIsoDate("0000-01-01") == None
    ensures ParseIsoDate("2023-02-29") == None
  {
    DigitsValueFour("0000");
    DigitsValueFour("2023");
    DigitsValueTwo("02");
    DigitsValueTwo("29");
    assert "0000-01-01"[0..4] == "0000";
    assert "2023-02-29"[0..4] == "2023" && "2023-02-29"[5..7] == "02" && "2023-02-29"[8..10] == "29";
  }
}
