/**
 The text form in which every stored timestamp is kept: RFC 3339 in UTC, whole
 seconds, as produced by `t.UTC().Format(time.RFC3339)`.

 Instants are counted in nanoseconds from 0000-01-01T00:00:00Z and run to the end
 of year 9999, the range section 5.6 of RFC 3339 can write with four year digits.
 The point of the module is that SQLite's bytewise comparison of two stored
 timestamps is the comparison of the instants truncated to seconds.
 */
module Rfc3339 {
  import opened Decimals
  import opened TimeUnits
  import Lex

  const DAY_SECONDS: int := 86_400
  const HORIZON_DAYS: int := 3_652_425

  type Instant = t: int | 0 <= t < HORIZON_DAYS * DAY_SECONDS * SECOND

  /** A stored timestamp, known by the second its text names. */
  type Stamp = s: int | 0 <= s < HORIZON_DAYS * DAY_SECONDS

  /** Formatting an instant drops its fraction. */
  function Seconds(t: Instant): (s: Stamp)
    ensures s * SECOND <= t < (s + 1) * SECOND
  {
    t / SECOND
  }

  /******* The proleptic Gregorian calendar *******/

  predicate Leap(y: nat) {
    y % 4 == 0 && (y % 100 != 0 || y % 400 == 0)
  }

  function YearDays(y: nat): nat {
    if Leap(y) then 366 else 365
  }

  /** Days from 0000-01-01 to January 1st of year `y`. */
  function DaysBeforeYear(y: nat): int {
    365 * y + (y + 3) / 4 - (y + 99) / 100 + (y + 399) / 400
  }

  lemma Fourth(y: nat)
    ensures (y + 4) / 4 == (y + 3) / 4 + if y % 4 == 0 then 1 else 0
  {
  }

  lemma Century(y: nat)
    ensures (y + 100) / 100 == (y + 99) / 100 + if y % 100 == 0 then 1 else 0
    ensures y % 100 == 0 ==> y % 4 == 0
  {
    var q, r := y / 100, y % 100;
    assert y == 4 * (25 * q) + r;
    assert (y + 99) / 100 == if r == 0 then q else q + 1;
  }

  lemma FourthCentury(y: nat)
    ensures (y + 400) / 400 == (y + 399) / 400 + if y % 400 == 0 then 1 else 0
    ensures y % 400 == 0 ==> y % 100 == 0
  {
    var q, r := y / 400, y % 400;
    assert y == 100 * (4 * q) + r;
    assert (y + 399) / 400 == if r == 0 then q else q + 1;
  }

  lemma YearStep(y: nat)
    ensures DaysBeforeYear(y + 1) == DaysBeforeYear(y) + YearDays(y)
  {
    Fourth(y);
    Century(y);
    FourthCentury(y);
  }

  lemma {:induction false} YearsIncrease(y: nat, z: nat)
    requires y <= z
    ensures DaysBeforeYear(y) <= DaysBeforeYear(z)
    decreases z
  {
    if y < z {
      YearsIncrease(y, z - 1);
      YearStep(z - 1);
    }
  }

  function MonthDays(y: nat, m: nat): nat {
    if m == 2 then (if Leap(y) then 29 else 28)
    else if m == 4 || m == 6 || m == 9 || m == 11 then 30
    else 31
  }

  /** Days from January 1st to the first of month `m` in year `y`; month 13 closes the year. */
  function DaysBeforeMonth(y: nat, m: nat): nat {
    if m <= 1 then 0 else DaysBeforeMonth(y, m - 1) + MonthDays(y, m - 1)
  }

  lemma TwelveMonths(y: nat)
    ensures DaysBeforeMonth(y, 13) == YearDays(y)
  {
    assert DaysBeforeMonth(y, 2) == 31;
    assert DaysBeforeMonth(y, 3) == 31 + MonthDays(y, 2);
    assert DaysBeforeMonth(y, 5) == 92 + MonthDays(y, 2);
    assert DaysBeforeMonth(y, 7) == 153 + MonthDays(y, 2);
    assert DaysBeforeMonth(y, 9) == 215 + MonthDays(y, 2);
    assert DaysBeforeMonth(y, 11) == 276 + MonthDays(y, 2);
  }

  lemma {:induction false} MonthsIncrease(y: nat, m: nat, n: nat)
    requires 1 <= m < n
    ensures DaysBeforeMonth(y, m) + MonthDays(y, m) <= DaysBeforeMonth(y, n)
    decreases n
  {
    if m < n - 1 {
      MonthsIncrease(y, m, n - 1);
    }
  }

  datatype Civil = Civil(year: nat, month: nat, day: nat, hour: nat, minute: nat, second: nat)

  predicate Valid(c: Civil) {
    && c.year < 10_000
    && 1 <= c.month <= 12
    && 1 <= c.day <= MonthDays(c.year, c.month)
    && c.hour < 24 && c.minute < 60 && c.second < 60
  }

  function DayNumber(c: Civil): int {
    DaysBeforeYear(c.year) + DaysBeforeMonth(c.year, c.month) + c.day - 1
  }

  function SecondsOf(c: Civil): int {
    DayNumber(c) * DAY_SECONDS + c.hour * 3600 + c.minute * 60 + c.second
  }

  function YearOn(day: int, y: nat): (r: nat)
    requires DaysBeforeYear(y) <= day
    ensures DaysBeforeYear(r) <= day < DaysBeforeYear(r + 1)
    decreases day - DaysBeforeYear(y)
  {
    YearStep(y);
    if day < DaysBeforeYear(y + 1) then y else YearOn(day, y + 1)
  }

  function MonthOn(y: nat, rest: int, m: nat): (r: nat)
    requires 1 <= m <= 12 && DaysBeforeMonth(y, m) <= rest < YearDays(y)
    ensures 1 <= r <= 12 && DaysBeforeMonth(y, r) <= rest < DaysBeforeMonth(y, r + 1)
    decreases 12 - m
  {
    TwelveMonths(y);
    if rest < DaysBeforeMonth(y, m + 1) then m else MonthOn(y, rest, m + 1)
  }

  lemma YearInRange(y: nat, day: int)
    requires DaysBeforeYear(y) <= day < HORIZON_DAYS
    ensures y < 10_000
  {
    if y >= 10_000 {
      YearsIncrease(10_000, y);
    }
  }

  /** Year, month and day of a day number. */
  function DateOn(day: int): (date: (nat, nat, nat))
    requires 0 <= day < HORIZON_DAYS
    ensures date.0 < 10_000 && 1 <= date.1 <= 12 && 1 <= date.2 <= MonthDays(date.0, date.1)
    ensures DaysBeforeYear(date.0) + DaysBeforeMonth(date.0, date.1) + date.2 - 1 == day
  {
    var year := YearOn(day, 0);
    YearStep(year);
    YearInRange(year, day);
    var inYear := day - DaysBeforeYear(year);
    var month := MonthOn(year, inYear, 1);
    (year, month, inYear - DaysBeforeMonth(year, month) + 1)
  }

  lemma ClockParts(rest: int)
    requires 0 <= rest < DAY_SECONDS
    ensures rest / 3600 < 24 && rest % 3600 / 60 < 60
    ensures rest / 3600 * 3600 + rest % 3600 / 60 * 60 + rest % 60 == rest
  {
    assert rest % 3600 % 60 == rest % 60;
  }

  /** The calendar reading of a count of seconds. */
  function CivilOf(s: Stamp): (c: Civil)
    ensures Valid(c) && SecondsOf(c) == s
  {
    var date, rest := DateOn(s / DAY_SECONDS), s % DAY_SECONDS;
    ClockParts(rest);
    Civil(date.0, date.1, date.2, rest / 3600, rest % 3600 / 60, rest % 60)
  }

  /** The field-by-field order of calendar readings. */
  predicate Earlier(c: Civil, d: Civil) {
    || c.year < d.year
    || (c.year == d.year && (
      || c.month < d.month
      || (c.month == d.month && (
        || c.day < d.day
        || (c.day == d.day && (
          || c.hour < d.hour
          || (c.hour == d.hour && (
            || c.minute < d.minute
            || (c.minute == d.minute && c.second < d.second)))))))))
  }

  lemma EarlierDay(c: Civil, d: Civil)
    requires Valid(c) && Valid(d)
    requires c.year < d.year || (c.year == d.year && c.month < d.month)
    ensures DayNumber(c) < DayNumber(d)
  {
    if c.year < d.year {
      YearsIncrease(c.year + 1, d.year);
      YearStep(c.year);
      TwelveMonths(c.year);
      MonthsIncrease(c.year, c.month, 13);
    } else {
      MonthsIncrease(c.year, c.month, d.month);
    }
  }

  lemma EarlierMeansSmaller(c: Civil, d: Civil)
    requires Valid(c) && Valid(d) && Earlier(c, d)
    ensures SecondsOf(c) < SecondsOf(d)
  {
    if c.year != d.year || c.month != d.month {
      EarlierDay(c, d);
    }
  }

  /******* Text *******/

  lemma {:induction false} DigitsOrder(n: nat, m: nat, w: nat)
    requires n < m < Pow10(w)
    ensures Lex.Less(Digits(n, w), Digits(m, w))
  {
    if w == 0 {
    } else {
      Lex.Blocks(Digits(n / 10, w - 1), Digits(m / 10, w - 1), [DigitChar(n % 10)], [DigitChar(m % 10)]);
      if n / 10 < m / 10 {
        DigitsOrder(n / 10, m / 10, w - 1);
      }
    }
  }

  function Field(n: nat, w: nat, sep: char, rest: string): string {
    Digits(n, w) + ([sep] + rest)
  }

  lemma FieldOrder(n: nat, m: nat, w: nat, sep: char, x: string, y: string)
    requires n < Pow10(w) && m < Pow10(w)
    requires n < m || (n == m && Lex.Less(x, y))
    ensures Lex.Less(Field(n, w, sep, x), Field(m, w, sep, y))
  {
    Lex.Blocks(Digits(n, w), Digits(m, w), [sep] + x, [sep] + y);
    Lex.Blocks([sep], [sep], x, y);
    if n < m {
      DigitsOrder(n, m, w);
    }
  }

  lemma FieldParts(n: nat, w: nat, sep: char, rest: string)
    requires n < Pow10(w)
    ensures |Field(n, w, sep, rest)| == w + 1 + |rest|
    ensures Number(Field(n, w, sep, rest)[..w]) == n
    ensures Field(n, w, sep, rest)[w + 1..] == rest
  {
    NumberOfDigits(n, w);
    assert Field(n, w, sep, rest)[..w] == Digits(n, w);
  }

  function ClockText(c: Civil): string {
    Field(c.hour, 2, ':', Field(c.minute, 2, ':', Field(c.second, 2, 'Z', "")))
  }

  function Text(c: Civil): string {
    Field(c.year, 4, '-', Field(c.month, 2, '-', Field(c.day, 2, 'T', ClockText(c))))
  }

  /** The instant, in seconds, that a stored timestamp names. */
  function Parse(s: string): int
    requires |s| == 20
  {
    var date, clock := s[..11], s[11..];
    SecondsOf(Civil(Number(date[..4]), Number(date[5..7]), Number(date[8..10]),
                    Number(clock[..2]), Number(clock[3..5]), Number(clock[6..8])))
  }

  /** The text in the column, `t.UTC().Format(time.RFC3339)` for any instant `t` of that second. */
  function Format(s: Stamp): string {
    Text(CivilOf(s))
  }

  lemma Widths()
    ensures Pow10(2) == 100 && Pow10(4) == 10_000
  {
    assert Pow10(3) == 10 * Pow10(2);
  }

  lemma EarlierText(c: Civil, d: Civil)
    requires Valid(c) && Valid(d) && Earlier(c, d)
    ensures Lex.Less(Text(c), Text(d))
  {
    Widths();
    var cs, ds := Field(c.second, 2, 'Z', ""), Field(d.second, 2, 'Z', "");
    var cm, dm := Field(c.minute, 2, ':', cs), Field(d.minute, 2, ':', ds);
    var cd, dd := Field(c.day, 2, 'T', ClockText(c)), Field(d.day, 2, 'T', ClockText(d));
    var co, dn := Field(c.month, 2, '-', cd), Field(d.month, 2, '-', dd);
    if c.year == d.year {
      if c.month == d.month {
        if c.day == d.day {
          if c.hour == d.hour {
            if c.minute == d.minute {
              FieldOrder(c.second, d.second, 2, 'Z', "", "");
            }
            FieldOrder(c.minute, d.minute, 2, ':', cs, ds);
          }
          FieldOrder(c.hour, d.hour, 2, ':', cm, dm);
        }
        FieldOrder(c.day, d.day, 2, 'T', ClockText(c), ClockText(d));
      }
      FieldOrder(c.month, d.month, 2, '-', cd, dd);
    }
    FieldOrder(c.year, d.year, 4, '-', co, dn);
  }

  lemma ClockTextParts(c: Civil)
    requires Valid(c)
    ensures var t := ClockText(c);
            |t| == 9 && Number(t[..2]) == c.hour && Number(t[3..5]) == c.minute && Number(t[6..8]) == c.second
  {
    Widths();
    var second := Field(c.second, 2, 'Z', "");
    var minute := Field(c.minute, 2, ':', second);
    FieldParts(c.second, 2, 'Z', "");
    FieldParts(c.minute, 2, ':', second);
    FieldParts(c.hour, 2, ':', minute);
    var t := ClockText(c);
    Slices(t, 3, 2);
    Slices(t, 6, 2);
    assert t[6..] == t[3..][3..];
  }

  lemma DateTextParts(c: Civil)
    requires Valid(c)
    ensures var t := Text(c);
            && |t| == 20 && t[11..] == ClockText(c)
            && Number(t[..4]) == c.year && Number(t[5..7]) == c.month && Number(t[8..10]) == c.day
  {
    Widths();
    ClockTextParts(c);
    var day := Field(c.day, 2, 'T', ClockText(c));
    var month := Field(c.month, 2, '-', day);
    FieldParts(c.day, 2, 'T', ClockText(c));
    FieldParts(c.month, 2, '-', day);
    FieldParts(c.year, 4, '-', month);
    var t := Text(c);
    Slices(t, 5, 2);
    Slices(t, 8, 2);
    assert t[8..] == t[5..][3..];
    assert t[11..] == t[8..][3..];
  }

  lemma Slices(t: string, i: nat, n: nat)
    requires i + n <= |t|
    ensures t[i..i + n] == t[i..][..n]
  {
  }

  lemma ParseText(c: Civil)
    requires Valid(c)
    ensures |Text(c)| == 20 && Parse(Text(c)) == SecondsOf(c)
  {
    DateTextParts(c);
    ClockTextParts(c);
    var t := Text(c);
    assert t[..11][..4] == t[..4] && t[..11][5..7] == t[5..7] && t[..11][8..10] == t[8..10];
  }

  /** Reading a formatted instant back gives the instant without its fraction. */
  lemma ParseFormat(t: Instant)
    ensures |Format(Seconds(t))| == 20 && Parse(Format(Seconds(t))) == Seconds(t)
  {
    ParseText(CivilOf(Seconds(t)));
  }

  /** Bytewise comparison of two stored texts is comparison of the seconds they name. */
  lemma TextOrder(s: Stamp, r: Stamp)
    ensures Lex.Less(Format(s), Format(r)) <==> s < r
    ensures Format(s) == Format(r) <==> s == r
  {
    var c, d := CivilOf(s), CivilOf(r);
    Lex.Irreflexive(Text(c));
    if Earlier(c, d) {
      EarlierMeansSmaller(c, d);
      EarlierText(c, d);
    } else if Earlier(d, c) {
      EarlierMeansSmaller(d, c);
      EarlierText(d, c);
      Lex.Asymmetric(Text(d), Text(c));
    }
  }

  /** `a < b` on two timestamp columns, as SQLite evaluates it: on their text. */
  method TextLess(a: Stamp, b: Stamp) returns (less: bool)
    ensures less <==> a < b
  {
    less := Lex.Less(Format(a), Format(b));
    TextOrder(a, b);
  }

  /******* Known days and texts *******/

  /** From March on, the months of any year begin on the days that the usual five-month rule gives. */
  lemma {:induction false} MonthsBegin(y: nat, m: nat)
    requires 3 <= m <= 13
    ensures DaysBeforeMonth(y, 2) == 31 && DaysBeforeMonth(y, 3) == if Leap(y) then 60 else 59
    ensures DaysBeforeMonth(y, m) == DaysBeforeMonth(y, 3) + (153 * (m - 3) + 2) / 5
  {
    if m > 3 {
      MonthsBegin(y, m - 1);
    }
    assert DaysBeforeMonth(y, 2) == 31;
  }

  /** Four centuries have 97 leap days. */
  lemma FourCenturies(y: nat)
    ensures DaysBeforeYear(0) == 0 && DaysBeforeYear(y + 400) == DaysBeforeYear(y) + 400 * 365 + 97
    ensures Leap(y + 400) <==> Leap(y)
  {
  }

  /** A stamp has one calendar reading. */
  lemma ReadingUnique(c: Civil, s: Stamp)
    requires Valid(c) && SecondsOf(c) == s
    ensures CivilOf(s) == c
  {
    var d := CivilOf(s);
    if Earlier(c, d) {
      EarlierMeansSmaller(c, d);
    } else if Earlier(d, c) {
      EarlierMeansSmaller(d, c);
    }
  }

  /** The second in which Unix time starts. */
  const UNIX_EPOCH: Stamp := 719_528 * DAY_SECONDS

  /** Days from January 1st, by the rule for months from March on. */
  lemma DayOfYear(c: Civil)
    requires Valid(c)
    ensures DayNumber(c) - DaysBeforeYear(c.year) + 1 ==
            if c.month == 1 then c.day
            else if c.month == 2 then 31 + c.day
            else 59 + (if Leap(c.year) then 1 else 0) + (153 * (c.month - 3) + 2) / 5 + c.day
  {
    if c.month >= 3 {
      MonthsBegin(c.year, c.month);
    } else {
      assert DaysBeforeMonth(c.year, 2) == 31;
    }
  }

  lemma UnixEpoch()
    ensures CivilOf(UNIX_EPOCH) == Civil(1970, 1, 1, 0, 0, 0)
  {
    var epoch := Civil(1970, 1, 1, 0, 0, 0);
    DayOfYear(epoch);
    ReadingUnique(epoch, UNIX_EPOCH);
  }

  /** The last second of February, in years with 29 days of it and in those with 28. */
  lemma EndOfFebruary(y: nat, s: Stamp)
    requires y < 10_000
    requires s == (DaysBeforeYear(y) + if y % 4 == 0 && (y % 100 != 0 || y % 400 == 0) then 60 else 59) * DAY_SECONDS - 1
    ensures CivilOf(s) == Civil(y, 2, if y % 4 == 0 && (y % 100 != 0 || y % 400 == 0) then 29 else 28, 23, 59, 59)
  {
    var c := Civil(y, 2, MonthDays(y, 2), 23, 59, 59);
    DayOfYear(c);
    ReadingUnique(c, s);
  }

  lemma FieldShape(n: nat, w: nat, sep: char, rest: string)
    requires n < Pow10(w)
    ensures var t := Field(n, w, sep, rest);
            |t| == w + 1 + |rest| && AllDigits(t[..w]) && Number(t[..w]) == n && t[w] == sep && t[w + 1..] == rest
  {
    FieldParts(n, w, sep, rest);
    assert Field(n, w, sep, rest)[..w] == Digits(n, w);
  }

  /** Digits that write the number, from position `i` up to `j`. */
  predicate Writes(t: string, i: nat, j: nat, n: nat) {
    i <= j <= |t| && AllDigits(t[i..j]) && Number(t[i..j]) == n
  }

  lemma ClockShape(c: Civil)
    requires Valid(c)
    ensures var t := ClockText(c);
            && |t| == 9 && t[2] == ':' && t[5] == ':' && t[8] == 'Z'
            && Writes(t, 0, 2, c.hour) && Writes(t, 3, 5, c.minute) && Writes(t, 6, 8, c.second)
  {
    Widths();
    var second := Field(c.second, 2, 'Z', "");
    var minute := Field(c.minute, 2, ':', second);
    FieldShape(c.second, 2, 'Z', "");
    FieldShape(c.minute, 2, ':', second);
    FieldShape(c.hour, 2, ':', minute);
    var t := ClockText(c);
    assert t[3..5] == minute[..2] && t[6..8] == second[..2] && t[0..2] == t[..2];
    assert t[5] == minute[2] && t[8] == second[2];
  }

  lemma DateShape(c: Civil)
    requires Valid(c)
    ensures var t := Text(c);
            && |t| == 20 && t[4] == '-' && t[7] == '-' && t[10] == 'T' && t[11..] == ClockText(c)
            && Writes(t, 0, 4, c.year) && Writes(t, 5, 7, c.month) && Writes(t, 8, 10, c.day)
  {
    Widths();
    ClockShape(c);
    var day := Field(c.day, 2, 'T', ClockText(c));
    var month := Field(c.month, 2, '-', day);
    FieldShape(c.day, 2, 'T', ClockText(c));
    FieldShape(c.month, 2, '-', day);
    FieldShape(c.year, 4, '-', month);
    var t := Text(c);
    assert t[5..7] == month[..2] && t[8..10] == day[..2] && t[0..4] == t[..4];
    assert t[7] == month[2] && t[10] == day[2] && t[11..] == day[3..];
  }

  /** A stored text is its calendar reading as yyyy-mm-ddThh:mm:ssZ. */
  lemma TextShape(s: Stamp)
    ensures var t, c := Format(s), CivilOf(s);
            && |t| == 20 && t[4] == '-' && t[7] == '-' && t[10] == 'T' && t[13] == ':' && t[16] == ':' && t[19] == 'Z'
            && Writes(t, 0, 4, c.year) && Writes(t, 5, 7, c.month) && Writes(t, 8, 10, c.day)
            && Writes(t, 11, 13, c.hour) && Writes(t, 14, 16, c.minute) && Writes(t, 17, 19, c.second)
  {
    var c, t := CivilOf(s), Format(s);
    ClockShape(c);
    DateShape(c);
    var clock := t[11..];
    assert clock[0..2] == t[11..13] && clock[3..5] == t[14..16] && clock[6..8] == t[17..19];
    assert clock[2] == t[13] && clock[5] == t[16] && clock[8] == t[19];
  }
}
