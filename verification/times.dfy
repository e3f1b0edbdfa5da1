/** Naive datetimes at whole-second precision, as the audit scripts use them:
    `dt_to_iso` (strftime "%Y-%m-%dT%H:%M:%SZ"), the strptime grammar behind
    `parse_iso`, and the proleptic Gregorian second count used to halve date
    windows and to compare datetimes. */
module Times {
  import opened Wrappers
  import opened Text

  /* ------------------------------------------------------- calendar */

  predicate IsLeap(y: int) {
    y % 4 == 0 && (y % 100 != 0 || y % 400 == 0)
  }

  function DaysInMonth(y: int, m: int): nat
    requires 1 <= m <= 12
  {
    if m == 2 then (if IsLeap(y) then 29 else 28)
    else if m == 4 || m == 6 || m == 9 || m == 11 then 30
    else 31
  }

  function DaysInYear(y: int): nat {
    if IsLeap(y) then 366 else 365
  }

  datatype Civil = Civil(year: int, month: int, day: int, hour: int, minute: int, second: int)

  /** What Python's `datetime` constructor accepts. */
  predicate ValidCivil(c: Civil) {
    && 1 <= c.year <= 9999
    && 1 <= c.month <= 12
    && 1 <= c.day <= DaysInMonth(c.year, c.month)
    && 0 <= c.hour < 24
    && 0 <= c.minute < 60
    && 0 <= c.second < 60
  }

  /** A naive `datetime` without its microseconds. */
  type DateTime = c: Civil | ValidCivil(c) witness Civil(1, 1, 1, 0, 0, 0)

  /** `datetime.min`. */
  const MinDateTime: DateTime := Civil(1, 1, 1, 0, 0, 0)

  /* ------------------------------------------------------- dt_to_iso */

  function Pow10(n: nat): nat {
    if n == 0 then 1 else 10 * Pow10(n - 1)
  }

  /** `n` written with exactly `width` digits, zero-filled on the left. */
  function Pad(n: nat, width: nat): (s: string)
    requires n < Pow10(width)
    ensures |s| == width && AllDigits(s)
    ensures DigitsValue(s) == n
  {
    if width == 0 then ""
    else
      var init := Pad(n / 10, width - 1);
      var s := init + [DigitChar(n % 10)];
      assert s[..|s| - 1] == init;
      s
  }

  /** `dt.strftime("%Y-%m-%dT%H:%M:%SZ")`. */
  function DtToIso(d: DateTime): (s: string)
    ensures |s| == 20
  {
    DatePart(d) + "T" + ClockPart(d) + "Z"
  }

  function DatePart(d: DateTime): (s: string)
    ensures |s| == 10
  {
    Pad(d.year, 4) + "-" + Pad(d.month, 2) + "-" + Pad(d.day, 2)
  }

  function ClockPart(d: DateTime): (s: string)
    ensures |s| == 8
  {
    Pad(d.hour, 2) + ":" + Pad(d.minute, 2) + ":" + Pad(d.second, 2)
  }

  /* ------------------------------------------------------- strptime */

  /** Length of the run of ASCII digits that starts at `i`. */
  function DigitRun(s: string, i: nat): (n: nat)
    requires i <= |s|
    ensures i + n <= |s|
    ensures AllDigits(s[i..i + n])
    ensures i + n == |s| || !IsDigit(s[i + n])
    decreases |s| - i
  {
    if i < |s| && IsDigit(s[i]) then
      var n := 1 + DigitRun(s, i + 1);
      assert s[i..i + n] == [s[i]] + s[i + 1..i + n];
      n
    else 0
  }

  /** A strptime field written with one or two digits, whose two-digit form
      ranges over `lo..hi` (the regular expressions `2[0-3]|[0-1]\d|\d` for
      hours, `[0-5]\d|\d` for minutes, `6[0-1]|[0-5]\d|\d` for seconds,
      `1[0-2]|0[1-9]|[1-9]` for months). Gives the value and the index after
      the field. */
  function NumberField(s: string, i: nat, lo: nat, hi: nat): (r: Option<(nat, nat)>)
    requires i <= |s|
    ensures r.Some? ==> i < r.value.1 <= |s|
  {
    var n := DigitRun(s, i);
    if n == 0 || n > 2 then None
    else
      var v := DigitsValue(s[i..i + n]);
      if v < lo || (n == 2 && v > hi) then None else Some((v, i + n))
  }

  /** The day field, `3[01]|[12]\d|0[1-9]|[1-9]| [1-9]`: strptime also takes
      a space followed by one non-zero digit. */
  function DayField(s: string, i: nat): (r: Option<(nat, nat)>)
    requires i <= |s|
    ensures r.Some? ==> i < r.value.1 <= |s|
  {
    if i < |s| && s[i] == ' ' then
      if DigitRun(s, i + 1) == 1 && s[i + 1] != '0' then Some((DigitValue(s[i + 1]), i + 2)) else None
    else NumberField(s, i, 1, 31)
  }

  predicate At(s: string, i: nat, c: char) {
    i < |s| && s[i] == c
  }

  function Validate(c: Civil): Option<DateTime> {
    if ValidCivil(c) then Some(c) else None
  }

  /** The "%Y-%m-%d" part of the format at the start of `s`: year, month,
      day and the index after the day. */
  function DateFields(s: string): (r: Option<(nat, nat, nat, nat)>)
    ensures r.Some? ==> r.value.3 <= |s|
  {
    if DigitRun(s, 0) != 4 || !At(s, 4, '-') then None
    else
      var mo :- NumberField(s, 5, 1, 12);
      if !At(s, mo.1, '-') then None
      else
        var d :- DayField(s, mo.1 + 1);
        Some((DigitsValue(s[0..4]), mo.0, d.0, d.1))
  }

  /** The "%H:%M:%S" part of the format from index `i`: hour, minute, second
      and the index after the seconds. */
  function ClockFields(s: string, i: nat): (r: Option<(nat, nat, nat, nat)>)
    requires i <= |s|
    ensures r.Some? ==> r.value.3 <= |s|
  {
    var h :- NumberField(s, i, 0, 23);
    if !At(s, h.1, ':') then None
    else
      var mi :- NumberField(s, h.1 + 1, 0, 59);
      if !At(s, mi.1, ':') then None
      else
        var sec :- NumberField(s, mi.1 + 1, 0, 61);
        Some((h.0, mi.0, sec.0, sec.1))
  }

  /** `datetime.strptime(s, "%Y-%m-%dT%H:%M:%SZ")` when `zulu`, otherwise
      with format "%Y-%m-%dT%H:%M:%S"; None where it raises ValueError. The
      format's letters match either case, as strptime compiles it ignoring
      case. */
  function Strptime(s: string, zulu: bool): Option<DateTime> {
    var date :- DateFields(s);
    if !(At(s, date.3, 'T') || At(s, date.3, 't')) then None
    else
      var clock :- ClockFields(s, date.3 + 1);
      var end := if !zulu then clock.3
                 else if At(s, clock.3, 'Z') || At(s, clock.3, 'z') then clock.3 + 1
                 else -1;
      if end != |s| then None
      else Validate(Civil(date.0, date.1, date.2, clock.0, clock.1, clock.2))
  }

  lemma DigitRunExact(s: string, i: nat, n: nat)
    requires i + n <= |s|
    requires AllDigits(s[i..i + n])
    requires i + n == |s| || !IsDigit(s[i + n])
    ensures DigitRun(s, i) == n
    decreases n
  {
    if n > 0 {
      assert IsDigit(s[i..i + n][0]);
      assert s[i + 1..i + n] == s[i..i + n][1..];
      DigitRunExact(s, i + 1, n - 1);
    }
  }

  /** A zero-filled field of `DtToIso` reads back as its value. */
  lemma ReadPadded(s: string, i: nat, n: nat, v: nat)
    requires i + n < |s|
    requires n < 10 && v < Pow10(n)
    requires s[i..i + n] == Pad(v, n)
    requires !IsDigit(s[i + n])
    ensures DigitRun(s, i) == n
    ensures DigitsValue(s[i..i + n]) == v
  {
    DigitRunExact(s, i, n);
  }

  /** Where `DtToIso` puts each field. */
  predicate IsoLayout(s: string, d: DateTime) {
    && |s| == 20
    && s[0..4] == Pad(d.year, 4)
    && s[5..7] == Pad(d.month, 2)
    && s[8..10] == Pad(d.day, 2)
    && s[11..13] == Pad(d.hour, 2)
    && s[14..16] == Pad(d.minute, 2)
    && s[17..19] == Pad(d.second, 2)
    && s[4] == '-' && s[7] == '-' && s[10] == 'T' && s[13] == ':' && s[16] == ':' && s[19] == 'Z'
  }

  lemma DtToIsoLayout(d: DateTime)
    ensures IsoLayout(DtToIso(d), d)
  {
    var s := DtToIso(d);
    var date, clock := DatePart(d), ClockPart(d);
    assert s[0..10] == date && s[11..19] == clock;
    DatePartLayout(d);
    ClockPartLayout(d);
    assert s[0..4] == date[0..4] && s[5..7] == date[5..7] && s[8..10] == date[8..10];
    assert s[11..13] == clock[0..2] && s[14..16] == clock[3..5] && s[17..19] == clock[6..8];
  }

  lemma DatePartLayout(d: DateTime)
    ensures var date := DatePart(d);
            date[0..4] == Pad(d.year, 4) && date[5..7] == Pad(d.month, 2) && date[8..10] == Pad(d.day, 2)
            && date[4] == '-' && date[7] == '-'
  {
  }

  lemma ClockPartLayout(d: DateTime)
    ensures var clock := ClockPart(d);
            clock[0..2] == Pad(d.hour, 2) && clock[3..5] == Pad(d.minute, 2) && clock[6..8] == Pad(d.second, 2)
            && clock[2] == ':' && clock[5] == ':'
  {
  }

  lemma ReadTwoDigits(s: string, i: nat, v: nat, lo: nat, hi: nat)
    requires i + 2 < |s| && lo <= v <= hi && v < 100
    requires s[i..i + 2] == Pad(v, 2)
    requires !IsDigit(s[i + 2])
    ensures NumberField(s, i, lo, hi) == Some((v, i + 2))
  {
    assert Pow10(2) == 100 by {
      assert Pow10(1) == 10;
    }
    ReadPadded(s, i, 2, v);
    assert DigitRun(s, i) == 2;
    assert DigitsValue(s[i..i + 2]) == v;
  }

  lemma ReadDate(s: string, d: DateTime)
    requires IsoLayout(s, d)
    ensures DateFields(s) == Some((d.year as nat, d.month as nat, d.day as nat, 10))
  {
    ReadPadded(s, 0, 4, d.year);
    ReadTwoDigits(s, 5, d.month, 1, 12);
    ReadTwoDigits(s, 8, d.day, 1, 31);
    assert DayField(s, 8) == Some((d.day as nat, 10));
  }

  lemma ReadClock(s: string, d: DateTime)
    requires IsoLayout(s, d)
    ensures ClockFields(s, 11) == Some((d.hour as nat, d.minute as nat, d.second as nat, 19))
  {
    ReadTwoDigits(s, 11, d.hour, 0, 23);
    ReadTwoDigits(s, 14, d.minute, 0, 59);
    ReadTwoDigits(s, 17, d.second, 0, 61);
  }

  /** `parse_iso(dt_to_iso(d)) == d` on the 'Z' branch: strptime reads back
      every field that strftime wrote. */
  lemma StrptimeOfDtToIso(d: DateTime)
    ensures Strptime(DtToIso(d), true) == Some(d)
  {
    DtToIsoLayout(d);
    ReadDate(DtToIso(d), d);
    ReadClock(DtToIso(d), d);
  }

  /* ------------------------------------------------------- parse_iso */

  /** The fallback of both `parse_iso`s: the text before the first '+',
      parsed without the 'Z'. */
  function WithoutOffset(s: string): Option<DateTime> {
    Strptime(Split(s, '+')[0], false)
  }

  /** `parse_iso` of the story audit: strings ending in 'Z' go through
      strptime, the others through `datetime.fromisoformat` (the parameter
      `fromIso`, which is not part of this model); whatever they reject is
      retried without the offset, and None is returned when that fails too. */
  function ParseIsoLenient(s: string, fromIso: string -> Option<DateTime>): (r: Option<DateTime>)
    ensures s == "" ==> r.None?
  {
    if s == "" then None
    else
      var first := if s[|s| - 1] == 'Z' then Strptime(s, true) else fromIso(s);
      if first.Some? then first else WithoutOffset(s)
  }

  /** `parse_iso` of the video audit: identical, except that a failed
      fallback raises ValueError instead of returning None. */
  function ParseIsoStrict(s: string, fromIso: string -> Option<DateTime>): (r: Result<Option<DateTime>>)
    ensures s == "" <==> r == Success(None)
    ensures r.Failure? ==> r.error == ValueError
  {
    if s == "" then Success(None)
    else
      var first := if s[|s| - 1] == 'Z' then Strptime(s, true) else fromIso(s);
      if first.Some? then Success(first)
      else
        match WithoutOffset(s)
        case Some(d) => Success(Some(d))
        case None => Failure(ValueError)
  }

  /** Both parsers read `dt_to_iso(d)` back as `d`, whatever `fromisoformat`
      does. */
  lemma ParseIsoOfDtToIso(d: DateTime, fromIso: string -> Option<DateTime>)
    ensures ParseIsoLenient(DtToIso(d), fromIso) == Some(d)
    ensures ParseIsoStrict(DtToIso(d), fromIso) == Success(Some(d))
  {
    StrptimeOfDtToIso(d);
  }

  /** The two parsers agree wherever the lenient one finds a datetime or the
      input is empty; on every other input the strict one raises. */
  lemma {:induction false} StrictRaisesWhereLenientGivesNone(s: string, fromIso: string -> Option<DateTime>)
    ensures ParseIsoLenient(s, fromIso).Some? || s == "" ==> ParseIsoStrict(s, fromIso) == Success(ParseIsoLenient(s, fromIso))
    ensures ParseIsoLenient(s, fromIso).None? && s != "" <==> ParseIsoStrict(s, fromIso) == Failure(ValueError)
  {
  }

  /* ------------------------------------------------------- second count */

  /** Days from 0001-01-01 to the first of year `y`, the proleptic Gregorian
      count Python's `date.toordinal` starts from. */
  function DaysBeforeYear(y: int): nat
    requires y >= 1
    decreases y
  {
    if y == 1 then 0 else DaysBeforeYear(y - 1) + DaysInYear(y - 1)
  }

  /** The closed form Python's `_days_before_year` computes. */
  function ClosedDaysBeforeYear(y: int): int {
    var p := y - 1;
    365 * p + p / 4 - p / 100 + p / 400
  }

  lemma {:induction false} DaysBeforeYearClosedForm(y: int)
    requires y >= 1
    ensures DaysBeforeYear(y) == ClosedDaysBeforeYear(y)
    decreases y
  {
    if y > 1 {
      DaysBeforeYearClosedForm(y - 1);
      ClosedStep(y - 1);
    }
  }

  lemma ClosedStep(y: int)
    requires y >= 1
    ensures ClosedDaysBeforeYear(y + 1) == ClosedDaysBeforeYear(y) + DaysInYear(y)
  {
    var a4, a100, a400 := y / 4, y / 100, y / 400;
    var b4, b100, b400 := (y - 1) / 4, (y - 1) / 100, (y - 1) / 400;
    DivStep(y, 4);
    DivStep(y, 100);
    DivStep(y, 400);
    assert ClosedDaysBeforeYear(y + 1) == 365 * y + a4 - a100 + a400;
    assert ClosedDaysBeforeYear(y) == 365 * (y - 1) + b4 - b100 + b400;
  }

  /** Going from `y - 1` to `y` raises the quotient by `k` exactly when `k`
      divides `y`. */
  lemma DivStep(y: int, k: nat)
    requires y >= 1 && k > 0
    ensures y / k - (y - 1) / k == if y % k == 0 then 1 else 0
  {
    var q, r := (y - 1) / k, (y - 1) % k;
    assert y - 1 == q * k + r && 0 <= r < k;
    if r == k - 1 {
      assert y == (q + 1) * k + 0;
      DivMod(q + 1, 0, k);
    } else {
      assert y == q * k + (r + 1);
      DivMod(q, r + 1, k);
    }
  }

  function DaysBeforeMonth(y: int, m: int): nat
    requires 1 <= m <= 12
  {
    [0, 31, 59, 90, 120, 151, 181, 212, 243, 273, 304, 334][m - 1]
      + (if m > 2 && IsLeap(y) then 1 else 0)
  }

  /** Seconds elapsed from `datetime.min` to `d`. */
  function ToSeconds(d: DateTime): nat {
    (DaysBeforeYear(d.year) + DayOfYear(d)) * 86400
      + d.hour * 3600 + d.minute * 60 + d.second
  }

  /** One past the last second a `datetime` can hold. */
  const SecondsLimit: nat := 315537897600

  lemma SecondsLimitIsEndOfYear9999()
    ensures SecondsLimit == DaysBeforeYear(10000) * 86400
  {
    EndOfYear9999();
  }

  lemma {:induction false} DaysBeforeYearGrows(a: int, b: int)
    requires 1 <= a <= b
    ensures DaysBeforeYear(a) + (if a < b then DaysInYear(a) else 0) <= DaysBeforeYear(b)
    decreases b - a
  {
    if a < b {
      DaysBeforeYearGrows(a + 1, b);
    }
  }

  lemma MonthStep(y: int, m: int)
    requires 1 <= m <= 12
    ensures DaysBeforeMonth(y, m) + DaysInMonth(y, m) == if m < 12 then DaysBeforeMonth(y, m + 1) else DaysInYear(y)
  {
  }

  /** The year holding day `n`, counting `n` from the first day of year `y`,
      with the day's offset inside that year. */
  function YearOf(n: nat, y: int): (r: (int, nat))
    requires y >= 1
    ensures r.0 >= y && r.1 < DaysInYear(r.0)
    ensures DaysBeforeYear(r.0) - DaysBeforeYear(y) + r.1 == n
    decreases n
  {
    if n < DaysInYear(y) then (y, n)
    else
      YearOf(n - DaysInYear(y), y + 1)
  }

  /** The month holding day `n` (counted from 0) of year `y`, searching down
      from month `m`. */
  function MonthOf(n: nat, y: int, m: int): (r: int)
    requires 1 <= m <= 12
    ensures 1 <= r <= m && DaysBeforeMonth(y, r) <= n
    ensures r < m ==> n < DaysBeforeMonth(y, r + 1)
    decreases m
  {
    if m == 1 || DaysBeforeMonth(y, m) <= n then m else MonthOf(n, y, m - 1)
  }

  /** Midnight of the day `days` days after 0001-01-01. */
  function DateOfOrdinal(days: nat): (d: DateTime)
    requires days < 3652059
    ensures d.hour == 0 && d.minute == 0 && d.second == 0
    ensures DaysBeforeYear(d.year) + DayOfYear(d) == days
  {
    var (y, dy) := YearOf(days, 1);
    assert y < 10000 by {
      if y >= 10000 {
        DaysBeforeYearGrows(10000, y);
        EndOfYear9999();
      }
    }
    var m := MonthOf(dy, y, 12);
    MonthStep(y, m);
    Civil(y, m, dy - DaysBeforeMonth(y, m) + 1, 0, 0, 0)
  }

  /** The datetime `n` seconds after `datetime.min`. */
  function FromSeconds(n: nat): (d: DateTime)
    requires n < SecondsLimit
    ensures ToSeconds(d) == n
  {
    var date := DateOfOrdinal(n / 86400);
    var rest := n % 86400;
    Civil(date.year, date.month, date.day, rest / 3600, rest % 3600 / 60, rest % 60)
  }

  lemma {:induction false} YearOfDays(y0: int, y: int, r: nat)
    requires 1 <= y0 <= y && r < DaysInYear(y)
    ensures DaysBeforeYear(y) >= DaysBeforeYear(y0)
    ensures YearOf(DaysBeforeYear(y) - DaysBeforeYear(y0) + r, y0) == (y, r)
    decreases y - y0
  {
    DaysBeforeYearGrows(y0, y);
    var n := DaysBeforeYear(y) - DaysBeforeYear(y0) + r;
    if y0 < y {
      assert DaysBeforeYear(y0 + 1) == DaysBeforeYear(y0) + DaysInYear(y0);
      assert n >= DaysInYear(y0);
      YearOfDays(y0 + 1, y, r);
      assert YearOf(n, y0) == YearOf(n - DaysInYear(y0), y0 + 1);
    }
  }

  lemma MonthsGrow(y: int, a: int, b: int)
    requires 1 <= a < b <= 12
    ensures DaysBeforeMonth(y, a) + DaysInMonth(y, a) <= DaysBeforeMonth(y, b)
  {
  }

  lemma MonthOfDays(y: int, m: int, r: nat)
    requires 1 <= m <= 12 && r < DaysInMonth(y, m)
    ensures MonthOf(DaysBeforeMonth(y, m) + r, y, 12) == m
  {
    var n := DaysBeforeMonth(y, m) + r;
    var found := MonthOf(n, y, 12);
    if found < m {
      MonthsGrow(y, found, m);
      MonthStep(y, found);
    }
    if found > m {
      MonthsGrow(y, m, found);
    }
  }

  /** The second count is a bijection between datetimes and
      `0 .. SecondsLimit - 1`: every datetime is recovered from its count. */
  lemma SecondsRoundTrip(d: DateTime)
    ensures ToSeconds(d) < SecondsLimit
    ensures FromSeconds(ToSeconds(d)) == d
  {
    var days := DaysBeforeYear(d.year) + DayOfYear(d);
    var clock := d.hour * 3600 + d.minute * 60 + d.second;
    var n := ToSeconds(d);
    assert n == days * 86400 + clock;
    OrdinalRoundTrip(d);
    SecondsOfDay(days, clock);
    var rest := n % 86400;
    assert rest == clock;
    ClockRoundTrip(d.hour, d.minute, d.second);
    var date := DateOfOrdinal(n / 86400);
    assert date == Civil(d.year, d.month, d.day, 0, 0, 0);
    assert FromSeconds(n) == Civil(date.year, date.month, date.day, rest / 3600, rest % 3600 / 60, rest % 60);
  }

  lemma OrdinalRoundTrip(d: DateTime)
    ensures DaysBeforeYear(d.year) + DayOfYear(d) < 3652059
    ensures DateOfOrdinal(DaysBeforeYear(d.year) + DayOfYear(d)) == Civil(d.year, d.month, d.day, 0, 0, 0)
  {
    CalendarRoundTrip(d);
  }

  lemma SecondsOfDay(days: nat, clock: nat)
    requires days < 3652059 && clock < 86400
    ensures days * 86400 + clock < SecondsLimit
    ensures (days * 86400 + clock) / 86400 == days && (days * 86400 + clock) % 86400 == clock
  {
    DivMod(days, clock, 86400);
    MulAtLeast(3652059 - days, 86400);
  }

  /** Days of `d`'s year before `d`'s day. */
  function DayOfYear(d: DateTime): nat {
    DaysBeforeMonth(d.year, d.month) + d.day - 1
  }

  lemma CalendarRoundTrip(d: DateTime)
    ensures DaysBeforeYear(d.year) + DayOfYear(d) < 3652059
    ensures YearOf(DaysBeforeYear(d.year) + DayOfYear(d), 1) == (d.year as int, DayOfYear(d))
    ensures MonthOf(DayOfYear(d), d.year, 12) == d.month
  {
    OrdinalBound(d);
    DayOfYearBound(d);
    YearOfDays(1, d.year, DayOfYear(d));
    MonthOfDays(d.year, d.month, d.day - 1);
  }

  lemma OrdinalBound(d: DateTime)
    ensures DaysBeforeYear(d.year) + DayOfYear(d) < 3652059
  {
    DayOfYearBound(d);
    DaysBeforeYearGrows(d.year, 10000);
    EndOfYear9999();
  }

  lemma EndOfYear9999()
    ensures DaysBeforeYear(10000) == 3652059
  {
    DaysBeforeYearClosedForm(10000);
  }

  lemma DayOfYearBound(d: DateTime)
    ensures DayOfYear(d) < DaysInYear(d.year)
  {
    MonthStep(d.year, d.month);
    MonthStep(d.year, 12);
    if d.month < 11 {
      MonthsGrow(d.year, d.month + 1, 12);
    }
  }

  lemma DivMod(q: nat, r: nat, k: nat)
    requires 0 < k && r < k
    ensures (q * k + r) / k == q && (q * k + r) % k == r
  {
    var n := q * k + r;
    var q', r' := n / k, n % k;
    assert n == q' * k + r';
    assert (q - q') * k == r' - r;
    if q' < q {
      MulAtLeast(q - q', k);
    } else if q' > q {
      MulAtLeast(q' - q, k);
    }
  }

  lemma MulAtLeast(a: int, k: nat)
    requires a >= 1
    ensures a * k >= k
  {
  }

  lemma ClockRoundTrip(h: nat, m: nat, s: nat)
    requires h < 24 && m < 60 && s < 60
    ensures var c := h * 3600 + m * 60 + s; c / 3600 == h && c % 3600 / 60 == m && c % 60 == s
  {
    DivMod(h, m * 60 + s, 3600);
    DivMod(m, s, 60);
    DivMod(h * 60 + m, s, 60);
  }

  /** Python's `a < b` on datetimes: the earlier instant is smaller. */
  predicate Before(a: DateTime, b: DateTime) {
    ToSeconds(a) < ToSeconds(b)
  }
}
