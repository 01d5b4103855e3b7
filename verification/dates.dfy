/** `get_datetime` of the parser utilities: a day-month-year text, read with
    the `'%d-%m-%Y'` pattern of Python's `strptime`, rewritten as
    `'YYYY-MM-DD 00:00:00.000000'` (`strftime('%Y-%m-%d %H:%M:%S.%f')`). */
module Dates {
  import opened Wrappers
  import Text

  /** The argument: a text, a Python list, or any other value. */
  datatype DateArg = TextArg(text: string) | ListArg(items: seq<DateArg>) | OtherArg

  datatype Date = Date(day: nat, month: nat, year: nat)

  predicate IsLeapYear(y: nat) {
    y % 4 == 0 && (y % 100 != 0 || y % 400 == 0)
  }

  function DaysInMonth(month: nat, year: nat): nat
    requires 1 <= month <= 12
  {
    if month == 2 then (if IsLeapYear(year) then 29 else 28)
    else if month == 4 || month == 6 || month == 9 || month == 11 then 30
    else 31
  }

  /** A date Python's `datetime` accepts: years 1 to 9999, a real day of the
      month in the Gregorian calendar. */
  predicate ValidDate(d: Date) {
    1 <= d.year <= 9999 && 1 <= d.month <= 12 && 1 <= d.day <= DaysInMonth(d.month, d.year)
  }

  predicate NonZeroDigit(c: char) {
    '1' <= c <= '9'
  }

  /** The `%d` directive: `3[01]|[12]\d|0[1-9]|[1-9]| [1-9]`. */
  function DayField(s: string): (r: Option<nat>)
    ensures r.Some? ==> 1 <= r.value <= 31
  {
    if |s| == 1 && NonZeroDigit(s[0]) then Some(Text.DigitValue(s[0]))
    else if |s| == 2 && s[0] == ' ' && NonZeroDigit(s[1]) then Some(Text.DigitValue(s[1]))
    else if |s| == 2 && Text.IsDigit(s[0]) && Text.IsDigit(s[1]) && 1 <= Text.DigitsValue(s) <= 31 then Some(Text.DigitsValue(s))
    else None
  }

  /** The `%m` directive: `1[0-2]|0[1-9]|[1-9]`. */
  function MonthField(s: string): (r: Option<nat>)
    ensures r.Some? ==> 1 <= r.value <= 12
  {
    if |s| == 1 && NonZeroDigit(s[0]) then Some(Text.DigitValue(s[0]))
    else if |s| == 2 && Text.IsDigit(s[0]) && Text.IsDigit(s[1]) && 1 <= Text.DigitsValue(s) <= 12 then Some(Text.DigitsValue(s))
    else None
  }

  /** The `%Y` directive: exactly four digits. */
  function YearField(s: string): (r: Option<nat>)
    ensures r.Some? ==> r.value <= 9999
  {
    if |s| == 4 && Text.IsDigits(s) then
      Text.DigitsValueBound(s);
      Some(Text.DigitsValue(s))
    else None
  }

  /** `strptime(s, '%d-%m-%Y')`: the whole text must match and the date must
      exist, otherwise Python raises ValueError (None here). */
  function ParseDmy(s: string): (r: Option<Date>)
    ensures r.Some? ==> ValidDate(r.value)
    ensures r.Some? ==>
      var p := Text.Split(s, '-');
      |p| == 3 && DayField(p[0]) == Some(r.value.day)
      && MonthField(p[1]) == Some(r.value.month) && YearField(p[2]) == Some(r.value.year)
    ensures (var p := Text.Split(s, '-');
             && |p| == 3 && DayField(p[0]).Some? && MonthField(p[1]).Some? && YearField(p[2]).Some?
             && ValidDate(Date(DayField(p[0]).value, MonthField(p[1]).value, YearField(p[2]).value)))
            ==> r.Some?
  {
    var p := Text.Split(s, '-');
    if |p| != 3 then None
    else match (DayField(p[0]), MonthField(p[1]), YearField(p[2]))
      case (Some(d), Some(m), Some(y)) =>
        if ValidDate(Date(d, m, y)) then Some(Date(d, m, y)) else None
      case _ => None
  }

  function Pad2(n: nat): (r: string)
    requires n < 100
    ensures |r| == 2 && Text.IsDigits(r) && Text.DigitsValue(r) == n
  {
    var r := [Text.DigitChar(n / 10), Text.DigitChar(n % 10)];
    assert r[..1] == [Text.DigitChar(n / 10)];
    assert r[..1][..0] == [];
    assert Text.DigitsValue(r[..1]) == n / 10;
    r
  }

  function Pad4(n: nat): (r: string)
    requires n < 10000
    ensures |r| == 4 && Text.IsDigits(r) && Text.DigitsValue(r) == n
  {
    var r := Pad2(n / 100) + Pad2(n % 100);
    DigitsValueAppend2(Pad2(n / 100), Pad2(n % 100));
    r
  }

  lemma DigitsValueAppend2(a: string, b: string)
    requires Text.IsDigits(a) && |b| == 2 && Text.IsDigits(b)
    ensures Text.IsDigits(a + b)
    ensures Text.DigitsValue(a + b) == Text.DigitsValue(a) * 100 + Text.DigitsValue(b)
  {
    var ab := a + b;
    var a0 := a + b[..1];
    assert ab[..|ab| - 1] == a0;
    assert a0[..|a0| - 1] == a;
    var A, b0, b1 := Text.DigitsValue(a), Text.DigitValue(b[0]), Text.DigitValue(b[1]);
    assert Text.DigitsValue(a0) == A * 10 + b0;
    assert Text.DigitsValue(ab) == (A * 10 + b0) * 10 + b1;
    assert b[..1][..0] == [];
    assert b[..|b| - 1] == b[..1];
    assert Text.DigitsValue(b[..1]) == b0;
    assert Text.DigitsValue(b) == b0 * 10 + b1;
  }

  const TimeOfDay := " 00:00:00.000000"

  /** `strftime('%Y-%m-%d %H:%M:%S.%f')` of a date at midnight. */
  function FormatNomad(d: Date): (r: string)
    requires ValidDate(d)
    ensures |r| == 26
  {
    Pad4(d.year) + "-" + Pad2(d.month) + "-" + Pad2(d.day) + TimeOfDay
  }

  /** `get_datetime(data)`: a non-empty list contributes only its first
      element; anything that is not then a text makes `strptime` raise. */
  function GetDatetime(arg: DateArg): (r: Result<string>)
    ensures r.Success? ==> |r.value| == 26 && r.value[10..] == TimeOfDay
  {
    var data := if arg.ListArg? && |arg.items| > 0 then arg.items[0] else arg;
    match data
    case TextArg(s) =>
      (match ParseDmy(s)
       case Some(d) => Success(FormatNomad(d))
       case None => Failure("ValueError: does not match format '%d-%m-%Y'"))
    case _ => Failure("TypeError: strptime() argument 1 must be str")
  }

  /** Day, month and year are carried over: the output's digit groups read
      back as the date the input text denotes. */
  lemma {:induction false} FieldsCarriedOver(s: string)
    requires GetDatetime(TextArg(s)).Success?
    ensures ParseDmy(s).Some?
    ensures var out := GetDatetime(TextArg(s)).value; var d := ParseDmy(s).value;
      && Text.IsDigits(out[..4]) && Text.DigitsValue(out[..4]) == d.year
      && out[4] == '-' && Text.IsDigits(out[5..7]) && Text.DigitsValue(out[5..7]) == d.month
      && out[7] == '-' && Text.IsDigits(out[8..10]) && Text.DigitsValue(out[8..10]) == d.day
  {
    var d := ParseDmy(s).value;
    var out := FormatNomad(d);
    assert out[..4] == Pad4(d.year);
    assert out[5..7] == Pad2(d.month);
    assert out[8..10] == Pad2(d.day);
  }

  /** Reformatting is injective: distinct dates give distinct outputs. */
  lemma FormatInjective(a: Date, b: Date)
    requires ValidDate(a) && ValidDate(b)
    requires FormatNomad(a) == FormatNomad(b)
    ensures a == b
  {
    var fa, fb := FormatNomad(a), FormatNomad(b);
    assert fa[..4] == Pad4(a.year) && fb[..4] == Pad4(b.year);
    assert fa[5..7] == Pad2(a.month) && fb[5..7] == Pad2(b.month);
    assert fa[8..10] == Pad2(a.day) && fb[8..10] == Pad2(b.day);
  }

  /** Distinct day-month-year texts that both parse denote distinct dates
      and so give distinct outputs. */
  lemma GetDatetimeInjective(s: string, t: string)
    requires GetDatetime(TextArg(s)).Success? && GetDatetime(TextArg(t)).Success?
    requires ParseDmy(s) != ParseDmy(t)
    ensures GetDatetime(TextArg(s)) != GetDatetime(TextArg(t))
  {
    if GetDatetime(TextArg(s)) == GetDatetime(TextArg(t)) {
      FormatInjective(ParseDmy(s).value, ParseDmy(t).value);
    }
  }

  /** The zero-padded day-month-year text of a date. */
  function DmyText(d: Date): string
    requires ValidDate(d)
  {
    Pad2(d.day) + "-" + Pad2(d.month) + "-" + Pad4(d.year)
  }

  lemma PaddedFields(d: Date)
    requires ValidDate(d)
    ensures DayField(Pad2(d.day)) == Some(d.day)
    ensures MonthField(Pad2(d.month)) == Some(d.month)
    ensures YearField(Pad4(d.year)) == Some(d.year)
  {
  }

  lemma DmyPieces(d: Date)
    requires ValidDate(d)
    ensures Text.Split(DmyText(d), '-') == [Pad2(d.day), Pad2(d.month), Pad4(d.year)]
  {
    var dd, mm, yy := Pad2(d.day), Pad2(d.month), Pad4(d.year);
    assert '-' !in dd && '-' !in mm && '-' !in yy by {
      assert forall k | 0 <= k < 2 :: Text.IsDigit(dd[k]) && Text.IsDigit(mm[k]);
      assert forall k | 0 <= k < 4 :: Text.IsDigit(yy[k]);
    }
    assert DmyText(d) == dd + ['-'] + (mm + ['-'] + yy);
    Text.SplitHead(dd, '-', mm + ['-'] + yy);
    Text.SplitHead(mm, '-', yy);
    Text.SplitClean(yy, '-');
  }

  /** Every real calendar date, written zero-padded, is accepted and
      reformatted to exactly its ISO-like form. */
  lemma {:induction false} ValidDateAccepted(d: Date)
    requires ValidDate(d)
    ensures ParseDmy(DmyText(d)) == Some(d)
    ensures GetDatetime(TextArg(DmyText(d))) == Success(FormatNomad(d))
  {
    DmyPieces(d);
    PaddedFields(d);
  }

  /** `%d` and `%m` also accept one-digit fields: a real date with a day and
      a month below 10 written unpadded, as in '1-2-2020', is accepted too. */
  lemma UnpaddedAccepted(d: Date)
    requires ValidDate(d) && d.day < 10 && d.month < 10
    ensures var s := [Text.DigitChar(d.day)] + "-" + [Text.DigitChar(d.month)] + "-" + Pad4(d.year);
      ParseDmy(s) == Some(d) && GetDatetime(TextArg(s)) == Success(FormatNomad(d))
  {
    var dd, mm, yy := [Text.DigitChar(d.day)], [Text.DigitChar(d.month)], Pad4(d.year);
    assert '-' !in yy by {
      assert forall k | 0 <= k < 4 :: Text.IsDigit(yy[k]);
    }
    assert dd + "-" + mm + "-" + yy == dd + ['-'] + (mm + ['-'] + yy);
    Text.SplitHead(dd, '-', mm + ['-'] + yy);
    Text.SplitHead(mm, '-', yy);
    Text.SplitClean(yy, '-');
  }

  /** A day past the end of its month (e.g. 31-02) is rejected. */
  lemma {:induction false} ImpossibleDateRejected(day: nat, month: nat, year: nat)
    requires 1 <= day <= 31 && 1 <= month <= 12 && 1 <= year <= 9999
    requires day > DaysInMonth(month, year)
    ensures GetDatetime(TextArg(Pad2(day) + "-" + Pad2(month) + "-" + Pad4(year))).Failure?
  {
    var dd, mm, yy := Pad2(day), Pad2(month), Pad4(year);
    assert '-' !in dd && '-' !in mm && '-' !in yy by {
      assert forall k | 0 <= k < 2 :: Text.IsDigit(dd[k]) && Text.IsDigit(mm[k]);
      assert forall k | 0 <= k < 4 :: Text.IsDigit(yy[k]);
    }
    assert dd + "-" + mm + "-" + yy == dd + ['-'] + (mm + ['-'] + yy);
    Text.SplitHead(dd, '-', mm + ['-'] + yy);
    Text.SplitHead(mm, '-', yy);
    Text.SplitClean(yy, '-');
  }

  /** Only the first element of a non-empty list is used. */
  lemma FirstListElementOnly(first: string, rest: seq<DateArg>)
    ensures GetDatetime(ListArg([TextArg(first)] + rest)) == GetDatetime(TextArg(first))
  {
  }

  /** An empty list, or a value that is not text, always fails. */
  lemma NonTextRejected(arg: DateArg)
    requires arg == ListArg([]) || arg == OtherArg || (arg.ListArg? && |arg.items| > 0 && !arg.items[0].TextArg?)
    ensures GetDatetime(arg).Failure?
  {
  }
}
