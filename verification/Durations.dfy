/**
 The daemon prints a duration with Go's `Duration.String`; the phone reads it back
 with a scan for digits followed by h, m, s or ms, tried in that order. What is neither is
 skipped: a sign, a point with the digits before it, and units the phone does not know.
 The scan computes in 64 bits, where a product or a sum can wrap around. Printing and
 reading agree on whole seconds, and only on those that are not negative.
 */
module Durations {
  import opened Decimals
  import opened TimeUnits

  const MAX_INT64: int := 0x7fff_ffff_ffff_ffff

  /** Decimal, without leading zeros. */
  function Decimal(n: nat): (s: string)
    ensures |s| >= 1 && forall i | 0 <= i < |s| :: IsDigit(s[i])
  {
    if n < 10 then [DigitChar(n)] else Decimal(n / 10) + [DigitChar(n % 10)]
  }

  /** The last `prec` digits of `v` after a point, without trailing zeros; nothing when they are all zero. */
  function Fraction(v: nat, prec: nat): (s: string)
    decreases prec
  {
    if prec == 0 then ""
    else if v % 10 == 0 then Fraction(v / 10, prec - 1)
    else "." + Digits(v, prec)
  }

  function Unit(v: nat, prec: nat, unit: string, scale: nat): string
    requires scale > 0
  {
    Decimal(v / scale) + Fraction(v, prec) + unit
  }

  /** `Duration.String` of a number of nanoseconds that is not negative. */
  function PrintUnsigned(ns: nat): string {
    if ns == 0 then "0s"
    else if ns < MICROSECOND then Unit(ns, 0, "ns", 1)
    else if ns < MILLISECOND then Unit(ns, 3, "\U{00B5}s", MICROSECOND)
    else if ns < SECOND then Unit(ns, 6, "ms", MILLISECOND)
    else Clock(ns / SECOND, ns)
  }

  /** `s` whole seconds as hours, minutes and seconds, the last with the fraction of `ns`. */
  function Clock(s: nat, ns: nat): string {
    var tail := Decimal(s % 60) + Fraction(ns, 9) + "s";
    if s < 60 then tail
    else if s < 3600 then Decimal(s / 60) + "m" + tail
    else Decimal(s / 3600) + "h" + (Decimal(s / 60 % 60) + "m" + tail)
  }

  function Print(ns: int): string {
    if ns < 0 then "-" + PrintUnsigned(-ns) else PrintUnsigned(ns)
  }

  /******* The phone's scan *******/

  /** Two's complement wrap-around of Kotlin's Long. */
  function Wrap(n: int): (w: int)
    ensures -MAX_INT64 - 1 <= w <= MAX_INT64
    ensures -MAX_INT64 - 1 <= n <= MAX_INT64 ==> w == n
  {
    (n + MAX_INT64 + 1) % (2 * (MAX_INT64 + 1)) - (MAX_INT64 + 1)
  }

  /** Length of the run of digits at the front. */
  function DigitRun(s: string): (n: nat)
    ensures n <= |s| && forall i | 0 <= i < n :: IsDigit(s[i])
    ensures n < |s| ==> !IsDigit(s[n])
  {
    if s == "" || !IsDigit(s[0]) then 0 else 1 + DigitRun(s[1..])
  }

  /** Milliseconds in the unit letter that follows the digits; in the pattern `m` is tried before `ms`. */
  function UnitMs(c: char): nat {
    if c == 'h' then 3_600_000 else if c == 'm' then 60_000 else if c == 's' then 1000 else 0
  }

  predicate IsUnit(c: char) {
    c in {'h', 'm', 's'}
  }

  /** A number too long for a Long is skipped. */
  function TokenMs(digits: string, unit: char): int {
    if Number(digits) > MAX_INT64 then 0 else Wrap(Number(digits) * UnitMs(unit))
  }

  /** The total over all matches, from left to right. */
  function Scan(s: string, total: int): int
    decreases |s|
  {
    if s == "" then total
    else
      var n := DigitRun(s);
      if n == 0 then Scan(s[1..], total)
      else if n < |s| && IsUnit(s[n]) then Scan(s[n + 1..], Wrap(total + TokenMs(s[..n], s[n])))
      else Scan(s[n..], total)
  }

  function ParseMs(s: string): int {
    Scan(s, 0)
  }

  method CountDigits(s: string) returns (n: nat)
    ensures n == DigitRun(s)
  {
    n := 0;
    while n < |s| && IsDigit(s[n])
      invariant 0 <= n <= |s|
      invariant DigitRun(s) == n + DigitRun(s[n..])
    {
      assert s[n..][1..] == s[n + 1..];
      n := n + 1;
    }
  }

  method ParseGoDuration(s: string) returns (totalMs: int)
    ensures totalMs == ParseMs(s)
  {
    var remaining := s;
    totalMs := 0;
    while remaining != ""
      invariant Scan(remaining, totalMs) == ParseMs(s)
      decreases |remaining|
    {
      var n := CountDigits(remaining);
      if n == 0 {
        remaining := remaining[1..];
      } else if n < |remaining| && IsUnit(remaining[n]) {
        var value := Number(remaining[..n]);
        if value <= MAX_INT64 {
          totalMs := Wrap(totalMs + Wrap(value * UnitMs(remaining[n])));
        } else {
          assert Wrap(totalMs + 0) == Scan("", Wrap(totalMs + 0));
          totalMs := Wrap(totalMs);
        }
        remaining := remaining[n + 1..];
      } else {
        remaining := remaining[n..];
      }
    }
  }

  /******* Scanning what was printed *******/

  lemma {:induction false} RunStops(d: string, c: char, rest: string)
    requires AllDigits(d) && !IsDigit(c)
    ensures DigitRun(d + ([c] + rest)) == |d|
  {
    if d == "" {
    } else {
      assert (d + ([c] + rest))[1..] == d[1..] + ([c] + rest);
      RunStops(d[1..], c, rest);
    }
  }

  lemma ScanUnit(d: string, unit: char, rest: string, total: int)
    requires AllDigits(d) && d != "" && IsUnit(unit)
    ensures Scan(d + ([unit] + rest), total) == Scan(rest, Wrap(total + TokenMs(d, unit)))
  {
    var s := d + ([unit] + rest);
    RunStops(d, unit, rest);
    assert s[..|d|] == d && s[|d|] == unit && s[|d| + 1..] == rest;
  }

  lemma ScanSkip(d: string, c: char, rest: string, total: int)
    requires AllDigits(d) && !IsDigit(c) && !IsUnit(c)
    ensures Scan(d + ([c] + rest), total) == Scan(rest, total)
  {
    var s := d + ([c] + rest);
    RunStops(d, c, rest);
    assert s[|d|..] == [c] + rest && ([c] + rest)[1..] == rest;
    RunStops("", c, rest);
    assert "" + ([c] + rest) == [c] + rest;
  }

  lemma {:induction false} NumberOfDecimal(n: nat)
    ensures Number(Decimal(n)) == n
  {
    if n < 10 {
      assert Decimal(n)[..0] == "";
    } else {
      NumberOfDecimal(n / 10);
      assert Decimal(n)[..|Decimal(n)| - 1] == Decimal(n / 10);
    }
  }

  lemma {:induction false} FractionShape(v: nat, prec: nat) returns (d: string)
    requires prec <= 9
    ensures AllDigits(d) && Number(d) < 1_000_000_000
    ensures Fraction(v, prec) == if d == "" then "" else "." + d
  {
    if prec == 0 {
      d := "";
    } else if v % 10 == 0 {
      d := FractionShape(v / 10, prec - 1);
    } else {
      d := Digits(v, prec);
      NumberBound(d);
      PowersOfTen();
      NineDigits(prec);
    }
  }

  lemma {:induction false} NoFraction(q: nat, prec: nat)
    ensures Fraction(q * Pow10(prec), prec) == ""
  {
    if prec == 0 {
    } else {
      var rest := q * Pow10(prec - 1);
      assert q * Pow10(prec) == 10 * rest;
      NoFraction(q, prec - 1);
    }
  }

  lemma PowersOfTen()
    ensures Pow10(3) == 1_000 && Pow10(6) == 1_000_000 && Pow10(9) == 1_000_000_000
  {
    assert Pow10(3) == 10 * Pow10(2) && Pow10(2) == 10 * Pow10(1);
    assert Pow10(6) == 10 * Pow10(5) && Pow10(5) == 10 * Pow10(4) && Pow10(4) == 10 * Pow10(3);
    assert Pow10(9) == 10 * Pow10(8) && Pow10(8) == 10 * Pow10(7) && Pow10(7) == 10 * Pow10(6);
  }

  lemma {:induction false} NineDigits(k: nat)
    requires k <= 9
    ensures Pow10(k) <= Pow10(9)
    decreases 9 - k
  {
    if k < 9 {
      NineDigits(k + 1);
    }
  }

  const LARGEST: nat := 20_000_000_000_000

  /** Printed numbers are far too small to wrap. */
  lemma ScanExact(d: string, unit: char, rest: string, total: nat)
    requires AllDigits(d) && d != "" && IsUnit(unit)
    requires Number(d) <= 1_000_000_000 && total <= LARGEST
    ensures Scan(d + ([unit] + rest), total) == Scan(rest, total + Number(d) * UnitMs(unit))
  {
    ScanUnit(d, unit, rest, total);
  }

  lemma ScanDecimal(n: nat, unit: char, rest: string, total: nat)
    requires n <= 3_000_000 && IsUnit(unit) && total <= LARGEST
    ensures Scan(Decimal(n) + ([unit] + rest), total) == Scan(rest, total + n * UnitMs(unit))
  {
    NumberOfDecimal(n);
    ScanExact(Decimal(n), unit, rest, total);
  }

  /** A number with its fraction, before a unit letter: the fraction, or else the number, counts in that unit. */
  lemma ScanMeasured(n: nat, v: nat, prec: nat, unit: char, rest: string, total: nat) returns (counted: nat)
    requires prec <= 9 && IsUnit(unit) && n <= 1000 && total <= LARGEST
    ensures Scan(Decimal(n) + Fraction(v, prec) + ([unit] + rest), total) == Scan(rest, total + counted * UnitMs(unit))
    ensures Fraction(v, prec) == "" ==> counted == n
  {
    var d := FractionShape(v, prec);
    NumberOfDecimal(n);
    counted := ScanParts(Decimal(n), Fraction(v, prec), d, unit, rest, total);
  }

  lemma ScanParts(whole: string, fraction: string, d: string, unit: char, rest: string, total: nat) returns (counted: nat)
    requires AllDigits(whole) && whole != "" && Number(whole) <= 1_000_000_000
    requires AllDigits(d) && Number(d) <= 1_000_000_000 && fraction == if d == "" then "" else "." + d
    requires IsUnit(unit) && total <= LARGEST
    ensures Scan(whole + fraction + ([unit] + rest), total) == Scan(rest, total + counted * UnitMs(unit))
    ensures fraction == "" ==> counted == Number(whole)
  {
    if d == "" {
      counted := Number(whole);
      assert whole + fraction == whole;
      ScanExact(whole, unit, rest, total);
    } else {
      counted := Number(d);
      ScanFraction(whole, d, unit, rest, total);
    }
  }

  /** Digits, a point and digits: only the latter count. */
  lemma ScanFraction(whole: string, d: string, unit: char, rest: string, total: nat)
    requires AllDigits(whole) && AllDigits(d) && d != "" && IsUnit(unit)
    requires Number(d) <= 1_000_000_000 && total <= LARGEST
    ensures Scan(whole + ("." + d) + ([unit] + rest), total) == Scan(rest, total + Number(d) * UnitMs(unit))
  {
    var end := [unit] + rest;
    Regrouped(whole, d, end);
    ScanSkip(whole, '.', d + end, total);
    ScanExact(d, unit, rest, total);
  }

  lemma Regrouped(whole: string, d: string, end: string)
    ensures whole + ("." + d) + end == whole + (['.'] + (d + end))
  {
  }

  /** Seconds below a minute, printed last. */
  lemma ScanSeconds(n: nat, v: nat, total: nat) returns (counted: nat)
    requires n < 60 && total <= LARGEST
    ensures Scan(Decimal(n) + Fraction(v, 9) + "s", total) == total + counted * 1000
    ensures Fraction(v, 9) == "" ==> counted == n
  {
    counted := ScanMeasured(n, v, 9, 's', "", total);
    assert ['s'] + "" == "s";
  }

  lemma WholeSeconds(ns: nat)
    requires ns % SECOND == 0
    ensures Fraction(ns, 9) == ""
  {
    PowersOfTen();
    NoFraction(ns / SECOND, 9);
  }

  lemma LetterThenRest(d: string, c: char, rest: string)
    ensures d + [c] + rest == d + ([c] + rest)
  {
  }

  lemma ScanMinutes(m: nat, tail: string, total: nat)
    requires m < 60 && total <= LARGEST
    ensures Scan(Decimal(m) + "m" + tail, total) == Scan(tail, total + m * 60_000)
  {
    LetterThenRest(Decimal(m), 'm', tail);
    ScanDecimal(m, 'm', tail, total);
  }

  lemma ScanHours(h: nat, tail: string)
    requires h <= 3_000_000
    ensures Scan(Decimal(h) + "h" + tail, 0) == Scan(tail, h * 3_600_000)
  {
    LetterThenRest(Decimal(h), 'h', tail);
    ScanDecimal(h, 'h', tail, 0);
  }

  lemma HoursMinutesSeconds(s: nat)
    ensures s < 3600 ==> s == s / 60 * 60 + s % 60
    ensures s == s / 3600 * 3600 + s / 60 % 60 * 60 + s % 60
  {
  }

  lemma ScanLong(ns: nat) returns (seconds: nat)
    requires SECOND <= ns <= MAX_INT64 + 1
    ensures ParseMs(PrintUnsigned(ns)) == seconds * 1000
    ensures ns % SECOND == 0 ==> seconds == ns / SECOND
  {
    var s := ns / SECOND;
    if ns % SECOND == 0 {
      WholeSeconds(ns);
    }
    seconds := ScanClock(s, ns);
  }

  lemma ScanMs(m: nat, r: nat, v: nat, total: nat) returns (counted: nat)
    requires m < 60 && r < 60 && total <= LARGEST - 10_000_000
    ensures Scan(Decimal(m) + "m" + (Decimal(r) + Fraction(v, 9) + "s"), total) == total + m * 60_000 + counted * 1000
    ensures Fraction(v, 9) == "" ==> counted == r
  {
    ScanMinutes(m, Decimal(r) + Fraction(v, 9) + "s", total);
    counted := ScanSeconds(r, v, total + m * 60_000);
  }

  lemma ScanHms(h: nat, m: nat, r: nat, v: nat) returns (counted: nat)
    requires h <= 3_000_000 && m < 60 && r < 60
    ensures ParseMs(Decimal(h) + "h" + (Decimal(m) + "m" + (Decimal(r) + Fraction(v, 9) + "s")))
         == h * 3_600_000 + m * 60_000 + counted * 1000
    ensures Fraction(v, 9) == "" ==> counted == r
  {
    ScanHours(h, Decimal(m) + "m" + (Decimal(r) + Fraction(v, 9) + "s"));
    counted := ScanMs(m, r, v, h * 3_600_000);
  }

  lemma ScanClock(s: nat, v: nat) returns (seconds: nat)
    requires s <= 10_000_000_000
    ensures ParseMs(Clock(s, v)) == seconds * 1000
    ensures Fraction(v, 9) == "" ==> seconds == s
  {
    HoursMinutesSeconds(s);
    if s < 60 {
      seconds := ScanSeconds(s % 60, v, 0);
    } else if s < 3600 {
      var counted := ScanMs(s / 60, s % 60, v, 0);
      seconds := s / 60 * 60 + counted;
    } else {
      var counted := ScanHms(s / 3600, s / 60 % 60, s % 60, v);
      seconds := s / 3600 * 3600 + s / 60 % 60 * 60 + counted;
    }
  }

  lemma ScanNothing(c: char, d: char, total: int)
    requires !IsDigit(c) && !IsDigit(d)
    ensures Scan([c, d], total) == total && Scan([d], total) == total
  {
    assert [c, d][1..] == [d] && [d][1..] == "";
    assert Scan("", total) == total;
    assert DigitRun([d]) == 0 && DigitRun([c, d]) == 0;
  }

  /** A unit the phone does not know contributes nothing, fraction or not. */
  lemma ScanUnknown(n: nat, v: nat, prec: nat, unit: char)
    requires prec <= 9 && !IsDigit(unit) && !IsUnit(unit)
    ensures Scan(Decimal(n) + Fraction(v, prec) + [unit, 's'], 0) == 0
  {
    var d := FractionShape(v, prec);
    assert [unit, 's'] == [unit] + "s";
    ScanNothing(unit, 's', 0);
    if d == "" {
      assert Decimal(n) + Fraction(v, prec) + [unit, 's'] == Decimal(n) + ([unit] + "s");
      ScanSkip(Decimal(n), unit, "s", 0);
    } else {
      assert Decimal(n) + Fraction(v, prec) + [unit, 's'] == Decimal(n) + (['.'] + (d + ([unit] + "s")));
      ScanSkip(Decimal(n), '.', d + ([unit] + "s"), 0);
      ScanSkip(d, unit, "s", 0);
    }
  }

  lemma ScanMilliseconds(ns: nat) returns (minutes: nat)
    requires MILLISECOND <= ns < SECOND
    ensures ParseMs(PrintUnsigned(ns)) == minutes * 60_000
    ensures Fraction(ns, 6) == "" ==> minutes == ns / MILLISECOND
  {
    minutes := ScanMeasured(ns / MILLISECOND, ns, 6, 'm', "s", 0);
    assert ['m'] + "s" == "ms";
    ScanNothing('s', 's', minutes * 60_000);
  }

  lemma ScanShort(ns: nat) returns (seconds: nat)
    requires ns < SECOND
    ensures ParseMs(PrintUnsigned(ns)) == seconds * 1000
    ensures ns == 0 ==> seconds == 0
  {
    seconds := 0;
    if ns == 0 {
      assert "0s" == "0" + (['s'] + "");
      assert Number("0") == 0;
      ScanExact("0", 's', "", 0);
    } else if ns < MICROSECOND {
      ScanUnknown(ns, ns, 0, 'n');
      assert "ns" == ['n', 's'];
    } else if ns < MILLISECOND {
      ScanUnknown(ns / MICROSECOND, ns, 3, '\U{00B5}');
      assert "\U{00B5}s" == ['\U{00B5}', 's'];
    } else {
      var minutes := ScanMilliseconds(ns);
      seconds := minutes * 60;
    }
  }

  /**
   The phone reads back every duration the daemon can print exactly when it is a whole
   number of seconds and not negative: a sign is skipped, milliseconds read as minutes,
   and a fraction is taken for the seconds.
   */
  lemma DurationRoundTrip(ns: int)
    requires -MAX_INT64 - 1 <= ns <= MAX_INT64
    ensures ParseMs(Print(ns)) * MILLISECOND == ns <==> ns >= 0 && ns % SECOND == 0
  {
    var seconds := ScanPrinted(if ns < 0 then -ns else ns);
    if ns < 0 {
      SignSkipped(PrintUnsigned(-ns));
      NegativeMisread(ns, seconds);
    } else {
      WholeOrNot(ns, seconds);
    }
  }

  lemma WholeOrNot(ns: nat, seconds: nat)
    requires ns % SECOND == 0 ==> seconds == ns / SECOND
    ensures seconds * 1000 * MILLISECOND == ns <==> ns % SECOND == 0
  {
  }

  lemma NegativeMisread(ns: int, seconds: nat)
    requires ns < 0
    ensures seconds * 1000 * MILLISECOND != ns
  {
  }

  /** `ms` is a whole number of seconds, and those of `ns` if that is one too. */
  predicate WholeReading(ms: int, ns: nat, seconds: nat) {
    ms == seconds * 1000 && (ns % SECOND == 0 ==> seconds == ns / SECOND)
  }

  lemma ShortReading(ms: int, ns: nat, seconds: nat)
    requires ns < SECOND && ms == seconds * 1000 && (ns == 0 ==> seconds == 0)
    ensures WholeReading(ms, ns, seconds)
  {
  }

  lemma ScanPrinted(ns: nat) returns (seconds: nat)
    requires ns <= MAX_INT64 + 1
    ensures WholeReading(ParseMs(PrintUnsigned(ns)), ns, seconds)
  {
    var ms := ParseMs(PrintUnsigned(ns));
    if ns < SECOND {
      seconds := ScanShort(ns);
      ShortReading(ms, ns, seconds);
    } else {
      seconds := ScanLong(ns);
    }
  }

  lemma SignSkipped(s: string)
    ensures ParseMs("-" + s) == ParseMs(s)
  {
    assert ("-" + s)[1..] == s;
    assert DigitRun("-" + s) == 0;
  }

  lemma {:induction false} LastDigits(n: nat, w: nat)
    ensures Number(Digits(n, w)) == n % Pow10(w)
  {
    if w == 0 {
    } else {
      LastDigits(n / 10, w - 1);
      assert Digits(n, w)[..w - 1] == Digits(n / 10, w - 1);
      TensAndOnes(n, Pow10(w - 1));
    }
  }

  lemma TensAndOnes(n: nat, p: nat)
    requires p >= 1
    ensures 10 * (n / 10 % p) + n % 10 == n % (10 * p)
  {
    var q, r := n / 10 / p, n / 10 % p;
    var m := 10 * p;
    assert n / 10 == q * p + r;
    assert n == q * m + (10 * r + n % 10);
    Remainder(n, q, m, 10 * r + n % 10);
  }

  lemma Remainder(n: nat, q: nat, m: nat, r: nat)
    requires r < m && n == q * m + r
    ensures n % m == r
  {
    var k, x := n / m, n % m;
    assert (k - q) * m == r - x;
    Multiples(k - q, m);
  }

  lemma Multiples(d: int, m: nat)
    ensures d >= 1 ==> d * m >= m
    ensures d <= 0 - 1 ==> d * m <= 0 - m
  {
    if d >= 1 {
      assert (d - 1) * m >= 0;
    } else if d <= 0 - 1 {
      assert (0 - d - 1) * m >= 0;
    }
  }

  lemma TenTimes(n: nat, w: nat)
    requires w >= 1
    ensures n * Pow10(w) == 10 * (n * Pow10(w - 1))
  {
  }

  /** What is printed after the point is the remainder, without zeros at its end. */
  lemma {:induction false} FractionExact(v: nat, prec: nat) returns (d: string)
    ensures Fraction(v, prec) == if d == "" then "" else "." + d
    ensures AllDigits(d) && |d| <= prec && (d != "" ==> d[|d| - 1] != '0')
    ensures Number(d) * Pow10(prec - |d|) == v % Pow10(prec)
  {
    if prec == 0 {
      d := "";
    } else if v % 10 == 0 {
      d := FractionExact(v / 10, prec - 1);
      TensAndOnes(v, Pow10(prec - 1));
      TenTimes(Number(d), prec - |d|);
    } else {
      d := Digits(v, prec);
      LastDigits(v, prec);
    }
  }

  lemma MinutesOf(s: nat)
    ensures s / 60 % 60 == s % 3600 / 60
  {
    var h, m, r := s / 3600, s % 3600 / 60, s % 3600 % 60;
    assert s == 60 * (60 * h + m) + r;
    assert s / 60 == 60 * h + m;
  }

  /** What Go prints for a number of whole seconds; a negative one has a sign before. */
  lemma PrintedSeconds(s: nat, ns: nat)
    requires s > 0 && ns == s * SECOND
    ensures var tail := Decimal(s % 60) + "s";
            Print(ns) == if s < 60 then tail
                         else if s < 3600 then Decimal(s / 60) + "m" + tail
                         else Decimal(s / 3600) + "h" + (Decimal(s % 3600 / 60) + "m" + tail)
    ensures Print(0 - ns) == "-" + Print(ns) && Print(0) == "0s"
  {
    WholeSeconds(ns);
    assert ns / SECOND == s && ns >= SECOND;
    assert Decimal(s % 60) + "" == Decimal(s % 60);
    MinutesOf(s);
  }

  /** One number with its unit, as the phone reads it: skipped when too long for a Long, else multiplied with wrap-around. */
  lemma TokenReads(d: string, unit: char)
    requires AllDigits(d) && d != "" && unit in {'h', 'm', 's'}
    ensures var scale := if unit == 'h' then 60 * 60 * 1000 else if unit == 'm' then 60 * 1000 else 1000;
            && (Number(d) >= 0x8000_0000_0000_0000 ==> ParseMs(d + [unit]) == 0)
            && (Number(d) < 0x8000_0000_0000_0000 ==>
                  && -0x8000_0000_0000_0000 <= ParseMs(d + [unit]) < 0x8000_0000_0000_0000
                  && (ParseMs(d + [unit]) - Number(d) * scale) % 0x1_0000_0000_0000_0000 == 0)
  {
    assert d + [unit] == d + ([unit] + "");
    ScanUnit(d, unit, "", 0);
    WrapCongruent(Number(d) * UnitMs(unit));
  }

  lemma WrapCongruent(n: int)
    ensures (Wrap(n) - n) % 0x1_0000_0000_0000_0000 == 0
  {
    var m := 0x1_0000_0000_0000_0000;
    var x := n + MAX_INT64 + 1;
    assert x == x / m * m + x % m;
    assert Wrap(n) - n == -(x / m) * m;
  }

  /** Half a second is read as five hundred minutes. */
  lemma HalfSecondMisread()
    ensures ParseMs(Print(500 * MILLISECOND)) == 500 * 60_000
  {
    PowersOfTen();
    NoFraction(500, 6);
    var minutes := ScanMilliseconds(500 * MILLISECOND);
  }
}
