/**
 * `datetime.strptime(s, '%Y/%m/%d/')` as CPython 2.7 performs it: a match
 * of the whole string against the directive patterns (`%Y` exactly four
 * digits, `%m` one or two digits naming 1..12, `%d` one or two digits or a
 * space and a digit), followed by the calendar check that building the
 * date performs (year 1..9999, day within the month, Gregorian leap years).
 * Any failure is the `ValueError` that the metadata parser lets escape.
 */
module PyDate {
  import opened Wrappers
  import opened Text

  datatype Date = Date(year: int, month: int, day: int)

  predicate IsLeapYear(y: int) {
    y % 4 == 0 && (y % 100 != 0 || y % 400 == 0)
  }

  function DaysInMonth(y: int, m: int): (n: int)
    requires 1 <= m <= 12
    ensures 28 <= n <= 31
    ensures n == 29 <==> m == 2 && IsLeapYear(y)
  {
    if m == 2 then (if IsLeapYear(y) then 29 else 28)
    else if m == 4 || m == 6 || m == 9 || m == 11 then 30
    else 31
  }

  /** The dates `datetime.date` can represent. */
  predicate ValidDate(d: Date) {
    1 <= d.year <= 9999 && 1 <= d.month <= 12 && 1 <= d.day <= DaysInMonth(d.year, d.month)
  }

  /** Text matched by `%m` (range checked afterwards). */
  function MonthField(t: string): (r: Option<int>)
    ensures r.Some? <==> 1 <= |t| <= 2 && AllDigits(t)
    ensures r.Some? ==> r.value == DigitsValue(t) && 0 <= r.value <= 99
  {
    if 1 <= |t| <= 2 && AllDigits(t) then assert Pow10(|t|) <= 100; Some(DigitsValue(t)) else None
  }

  /** Text matched by `%d`, which also admits a blank before a single digit. */
  function DayField(t: string): (r: Option<int>)
    ensures r.Some? <==> (1 <= |t| <= 2 && AllDigits(t)) || (|t| == 2 && t[0] == ' ' && IsDigit(t[1]) && t[1] != '0')
    ensures r.Some? && AllDigits(t) ==> r.value == DigitsValue(t)
    ensures r.Some? && !AllDigits(t) ==> t[0] == ' ' && r.value == DigitValue(t[1])
    ensures r.Some? ==> 0 <= r.value <= 99
  {
    if 1 <= |t| <= 2 && AllDigits(t) then assert Pow10(|t|) <= 100; Some(DigitsValue(t))
    else if |t| == 2 && t[0] == ' ' && IsDigit(t[1]) && t[1] != '0' then Some(DigitValue(t[1]))
    else None
  }

  function ParseDate(s: string): (r: Option<Date>)
    ensures r.Some? ==> ValidDate(r.value)
    ensures r.Some? ==> |s| >= 5 && AllDigits(s[..4]) && r.value.year == DigitsValue(s[..4]) && s[4] == '/'
    ensures r.Some? ==> s[|s| - 1] == '/'
    ensures r.Some? ==> exists k :: (5 <= k < |s| - 1 && s[k] == '/' && '/' !in s[5..k]
              && MonthField(s[5..k]) == Some(r.value.month) && DayField(s[k + 1..|s| - 1]) == Some(r.value.day))
  {
    if |s| < 5 || !AllDigits(s[..4]) || s[4] != '/' then None
    else
      var rest := s[5..];
      var monthText := BeforeFirst(rest, '/');
      if |monthText| == |rest| then None
      else
        var tail := rest[|monthText| + 1..];
        if tail == [] || tail[|tail| - 1] != '/' then None
        else
          var month := MonthField(monthText);
          var day := DayField(tail[..|tail| - 1]);
          if month.None? || day.None? then None
          else
            var d := Date(DigitsValue(s[..4]), month.value, day.value);
            if ValidDate(d) then
              var k := 5 + |monthText|;
              assert s[5..k] == monthText && s[k] == '/';
              assert tail == s[k + 1..];
              assert s[k + 1..|s| - 1] == tail[..|tail| - 1];
              Some(d)
            else None
  }

  /** The canonical `YYYY/MM/DD/` spelling of a date. */
  function FormatDate(d: Date): string
    requires ValidDate(d)
  {
    PadNat(d.year, 4) + "/" + PadNat(d.month, 2) + "/" + PadNat(d.day, 2) + "/"
  }

  lemma {:induction false} NatToStringShort(n: nat, k: nat, bound: nat)
    requires bound >= 1 && n < bound
    requires k >= 1 && (k == 1 ==> bound <= 10)
    requires k > 1 ==> bound <= 10 * Pow10(k - 1)
    ensures |NatToString(n)| <= k
  {
    if n >= 10 {
      assert k > 1;
      NatToStringShort(n / 10, k - 1, Pow10(k - 1));
    }
  }

  /** Where `ParseDate` finds the fields of `Y/M/D/`. */
  lemma DateTextParts(y: string, m: string, d: string)
    requires |y| == 4 && '/' !in m
    ensures var s := y + "/" + m + "/" + d + "/";
      && |s| >= 5 && s[..4] == y && s[4] == '/'
      && BeforeFirst(s[5..], '/') == m
      && s[5..][|m| + 1..] == d + "/"
  {
    var s := y + "/" + m + "/" + d + "/";
    assert s[..4] == y;
    assert s[5..] == m + "/" + (d + "/");
    BeforeFirstSeparator(m, '/', d + "/");
  }

  /** A string of the shape `Y/M/D/` is read field by field and then range checked. */
  lemma ParseFields(y: string, m: string, d: string)
    requires |y| == 4 && AllDigits(y) && '/' !in m
    ensures var s := y + "/" + m + "/" + d + "/";
            var month, day := MonthField(m), DayField(d);
            ParseDate(s) == if month.Some? && day.Some? && ValidDate(Date(DigitsValue(y), month.value, day.value))
                            then Some(Date(DigitsValue(y), month.value, day.value)) else None
  {
    DateTextParts(y, m, d);
    var tail := d + "/";
    assert tail[..|tail| - 1] == d;
  }

  /** With digit fields, the date read is the one the digits name. */
  lemma ParseDigitFields(y: string, m: string, d: string)
    requires |y| == 4 && AllDigits(y)
    requires 1 <= |m| <= 2 && AllDigits(m)
    requires 1 <= |d| <= 2 && AllDigits(d)
    ensures var date := Date(DigitsValue(y), DigitsValue(m), DigitsValue(d));
            ParseDate(y + "/" + m + "/" + d + "/") == if ValidDate(date) then Some(date) else None
  {
    assert '/' !in m by {
      assert forall i :: 0 <= i < |m| ==> m[i] != '/';
    }
    ParseFields(y, m, d);
  }

  /** Reading back a formatted date gives the same date. */
  lemma ParseFormat(d: Date)
    requires ValidDate(d)
    ensures ParseDate(FormatDate(d)) == Some(d)
  {
    NatToStringShort(d.year, 4, 10000);
    NatToStringShort(d.month, 2, 100);
    NatToStringShort(d.day, 2, 100);
    ParseDigitFields(PadNat(d.year, 4), PadNat(d.month, 2), PadNat(d.day, 2));
  }

  lemma TwoDigits(s: string)
    requires |s| == 2 && AllDigits(s)
    ensures DigitsValue(s) == 10 * DigitValue(s[0]) + DigitValue(s[1])
  {
    assert s[..1][..0] == [];
  }

  lemma FourDigits(s: string)
    requires |s| == 4 && AllDigits(s)
    ensures DigitsValue(s) == 100 * DigitsValue(s[..2]) + DigitsValue(s[2..])
  {
    assert s[..3][..2] == s[..2];
    TwoDigits(s[2..]);
    assert s[..3][2] == s[2..][0];
  }

  /** The value of a year written with four digits. */
  lemma YearDigits(s: string, year: nat)
    requires |s| == 4 && AllDigits(s)
    requires year == 1000 * DigitValue(s[0]) + 100 * DigitValue(s[1]) + 10 * DigitValue(s[2]) + DigitValue(s[3])
    ensures DigitsValue(s) == year
  {
    FourDigits(s);
    TwoDigits(s[..2]);
    TwoDigits(s[2..]);
  }

  /** A typical PY value. */
  lemma ParseExample()
    ensures ParseDate("1985/03/15/") == Some(Date(1985, 3, 15))
  {
    assert "1985/03/15/" == "1985" + "/" + "03" + "/" + "15" + "/";
    YearDigits("1985", 1985);
    TwoDigits("03");
    TwoDigits("15");
    ParseDigitFields("1985", "03", "15");
  }

  /** 1900 is not a leap year, so "1900/02/29/" is rejected even though it matches the pattern. */
  lemma NoLeapDayIn1900()
    ensures ParseDate("1900/02/29/") == None
  {
    assert "1900/02/29/" == "1900" + "/" + "02" + "/" + "29" + "/";
    YearDigits("1900", 1900);
    TwoDigits("02");
    TwoDigits("29");
    assert !IsLeapYear(1900);
    ParseDigitFields("1900", "02", "29");
  }

  /** `%d` also reads a blank followed by one nonzero digit, as in `1985/03/ 5/`. */
  lemma BlankPaddedDay(y: string, m: string, c: char)
    requires |y| == 4 && AllDigits(y)
    requires 1 <= |m| <= 2 && AllDigits(m)
    requires IsDigit(c) && c != '0'
    ensures var date := Date(DigitsValue(y), DigitsValue(m), DigitValue(c));
            ParseDate(y + "/" + m + "/" + [' ', c] + "/") == if ValidDate(date) then Some(date) else None
  {
    assert '/' !in m by {
      assert forall i :: 0 <= i < |m| ==> m[i] != '/';
    }
    var t := [' ', c];
    assert !AllDigits(t) by {
      assert !IsDigit(t[0]);
    }
    assert DayField(t) == Some(DigitValue(c));
    ParseFields(y, m, [' ', c]);
  }

  lemma NotADate()
    ensures ParseDate("not-a-date") == None
  {
    assert !IsDigit("not-a-date"[0]);
  }
}
