/** Times as the store writes them: RFC 3339 text in UTC (section 5.6), whole seconds.
    The point of the module is section 5.1: string order is time order. */
module Rfc3339 {
  // ---- String order ------------------------------------------------------------------------

  /** The database's byte-wise `<` on text. */
  predicate Less(a: string, b: string) {
    if b == "" then false
    else if a == "" then true
    else a[0] < b[0] || (a[0] == b[0] && Less(a[1..], b[1..]))
  }

  lemma {:induction false} LessTotal(a: string, b: string)
    ensures a == b || Less(a, b) || Less(b, a)
    ensures Less(a, b) ==> a != b && !Less(b, a)
  {
    if a != "" && b != "" {
      LessTotal(a[1..], b[1..]);
      assert a == [a[0]] + a[1..] && b == [b[0]] + b[1..];
    }
  }

  lemma {:induction false} LessTransitive(a: string, b: string, c: string)
    requires Less(a, b) && Less(b, c)
    ensures Less(a, c)
  {
    if a != "" && b[0] == a[0] && c[0] == a[0] {
      LessTransitive(a[1..], b[1..], c[1..]);
    }
  }

  /** Fixed-width fields compare one after the other. */
  lemma {:induction false} LessFields(a: string, b: string, c: string, d: string)
    requires |a| == |b|
    ensures Less(a + c, b + d) <==> Less(a, b) || (a == b && Less(c, d))
  {
    if a == "" {
      assert a + c == c && b + d == d;
    } else {
      assert (a + c)[1..] == a[1..] + c && (b + d)[1..] == b[1..] + d;
      LessFields(a[1..], b[1..], c, d);
      assert a == [a[0]] + a[1..] && b == [b[0]] + b[1..];
    }
  }

  // ---- Padded numbers ------------------------------------------------------------------------

  function Digit(n: nat): char
    requires n < 10
  { (n + 48) as char }

  function Pow10(width: nat): nat { if width == 0 then 1 else 10 * Pow10(width - 1) }

  /** `n` in exactly `width` decimal digits, zero-padded. */
  function Pad(n: nat, width: nat): (s: string)
    ensures |s| == width
  {
    if width == 0 then "" else Pad(n / 10, width - 1) + [Digit(n % 10)]
  }

  lemma {:induction false} PadOrder(m: nat, n: nat, width: nat)
    requires m < Pow10(width) && n < Pow10(width)
    ensures Less(Pad(m, width), Pad(n, width)) <==> m < n
    ensures Pad(m, width) == Pad(n, width) <==> m == n
  {
    if width > 0 {
      PadOrder(m / 10, n / 10, width - 1);
      var a, b := [Digit(m % 10)], [Digit(n % 10)];
      LessFields(Pad(m / 10, width - 1), Pad(n / 10, width - 1), a, b);
      assert a[1..] == "" && b[1..] == "";
      assert Pad(m, width)[..width - 1] == Pad(m / 10, width - 1);
      assert Pad(n, width)[..width - 1] == Pad(n / 10, width - 1);
      assert Pad(m, width)[width - 1] == a[0] && Pad(n, width)[width - 1] == b[0];
      assert Pad(m, width) == Pad(n, width) ==> m / 10 == n / 10 && m % 10 == n % 10;
    }
  }

  // ---- The calendar ---------------------------------------------------------------------------

  predicate IsLeap(y: int) { y % 4 == 0 && (y % 100 != 0 || y % 400 == 0) }

  /** Days from 1 January of year 0 to 1 January of year `y`. */
  function DaysBeforeYear(y: nat): nat {
    if y == 0 then 0 else DaysBeforeYear(y - 1) + if IsLeap(y - 1) then 366 else 365
  }

  function DaysInMonth(y: nat, m: nat): nat {
    if m == 2 then (if IsLeap(y) then 29 else 28)
    else if m == 4 || m == 6 || m == 9 || m == 11 then 30
    else 31
  }

  /** Days of year `y` before the first of month `m`. */
  function DaysBeforeMonth(y: nat, m: nat): nat {
    if m <= 1 then 0 else DaysBeforeMonth(y, m - 1) + DaysInMonth(y, m - 1)
  }

  /** Broken-down UTC time. */
  datatype Fields = Fields(year: nat, month: nat, day: nat, hour: nat, minute: nat, second: nat)

  predicate ValidFields(f: Fields) {
    && f.year <= 9999 && 1 <= f.month <= 12 && 1 <= f.day <= DaysInMonth(f.year, f.month)
    && f.hour < 24 && f.minute < 60 && f.second < 60
  }

  function DayNumber(y: nat, m: nat, d: nat): int { DaysBeforeYear(y) + DaysBeforeMonth(y, m) + d - 1 }

  /** Seconds since the start of year 0. */
  function SecondsOf(f: Fields): int {
    86400 * DayNumber(f.year, f.month, f.day) + 3600 * f.hour + 60 * f.minute + f.second
  }

  const DAYS_TO_1970 := 719528

  /** Unix time of a broken-down time. */
  function UnixOf(f: Fields): int { SecondsOf(f) - 86400 * DAYS_TO_1970 }

  /** The year a day number falls in. */
  function YearOfDay(n: nat, y: nat): (r: nat)
    requires DaysBeforeYear(y) <= n
    ensures r >= y && DaysBeforeYear(r) <= n < DaysBeforeYear(r + 1)
    decreases n - DaysBeforeYear(y)
  {
    if n < DaysBeforeYear(y + 1) then y else YearOfDay(n, y + 1)
  }

  /** The month a day of the year falls in. */
  function MonthOfDay(y: nat, n: nat, m: nat): (r: nat)
    requires 1 <= m <= 12 && DaysBeforeMonth(y, m) <= n < (if IsLeap(y) then 366 else 365)
    ensures 1 <= r <= 12 && DaysBeforeMonth(y, r) <= n < DaysBeforeMonth(y, r) + DaysInMonth(y, r)
    decreases 12 - m
  {
    YearLength(y);
    if n < DaysBeforeMonth(y, m) + DaysInMonth(y, m) then m else MonthOfDay(y, n, m + 1)
  }

  /** The days of the year before each month, as calendars print them. */
  lemma MonthStarts(y: nat)
    ensures var leap := if IsLeap(y) then 1 else 0;
            && DaysBeforeMonth(y, 1) == 0 && DaysBeforeMonth(y, 2) == 31
            && DaysBeforeMonth(y, 3) == 59 + leap && DaysBeforeMonth(y, 4) == 90 + leap
            && DaysBeforeMonth(y, 5) == 120 + leap && DaysBeforeMonth(y, 6) == 151 + leap
            && DaysBeforeMonth(y, 7) == 181 + leap && DaysBeforeMonth(y, 8) == 212 + leap
            && DaysBeforeMonth(y, 9) == 243 + leap && DaysBeforeMonth(y, 10) == 273 + leap
            && DaysBeforeMonth(y, 11) == 304 + leap && DaysBeforeMonth(y, 12) == 334 + leap
  {
    MonthStep(y, 2);
    MonthStep(y, 3);
    MonthStep(y, 4);
    MonthStep(y, 5);
    MonthStep(y, 6);
    MonthStep(y, 7);
    MonthStep(y, 8);
    MonthStep(y, 9);
    MonthStep(y, 10);
    MonthStep(y, 11);
    MonthStep(y, 12);
  }

  lemma MonthStep(y: nat, m: nat)
    requires m > 1
    ensures DaysBeforeMonth(y, m) == DaysBeforeMonth(y, m - 1) + DaysInMonth(y, m - 1)
  {
  }

  lemma YearLength(y: nat)
    ensures DaysBeforeMonth(y, 12) + DaysInMonth(y, 12) == if IsLeap(y) then 366 else 365
  {
    MonthStarts(y);
  }

  /** The calendar conversion, on seconds since the start of year 0. */
  function FieldsOf(t: nat): Fields {
    var n := t / 86400;
    var y := YearOfDay(n, 0);
    var inYear := n - DaysBeforeYear(y);
    var m := MonthOfDay(y, inYear, 1);
    var s := t % 86400;
    Fields(y, m, inYear - DaysBeforeMonth(y, m) + 1, s / 3600, s % 3600 / 60, s % 60)
  }

  // ---- Field order is time order -----------------------------------------------------------------

  /** Calendar fields compared from the year down. */
  predicate FieldsLess(f: Fields, g: Fields) {
    f.year < g.year || (f.year == g.year &&
    (f.month < g.month || (f.month == g.month &&
    (f.day < g.day || (f.day == g.day &&
    (f.hour < g.hour || (f.hour == g.hour &&
    (f.minute < g.minute || (f.minute == g.minute && f.second < g.second)))))))))
  }

  lemma {:induction false} YearsGrow(a: nat, b: nat)
    requires a < b
    ensures DaysBeforeYear(a + 1) <= DaysBeforeYear(b)
  {
    if a + 1 < b { YearsGrow(a, b - 1); }
  }

  lemma {:induction false} MonthsGrow(y: nat, a: nat, b: nat)
    requires 1 <= a < b
    ensures DaysBeforeMonth(y, a) + DaysInMonth(y, a) <= DaysBeforeMonth(y, b)
  {
    if a + 1 < b { MonthsGrow(y, a, b - 1); }
  }

  /** Every date of a year falls before the next year starts. */
  lemma DayInYear(y: nat, m: nat, d: nat)
    requires 1 <= m <= 12 && 1 <= d <= DaysInMonth(y, m)
    ensures DaysBeforeYear(y) <= DayNumber(y, m, d) < DaysBeforeYear(y + 1)
  {
    YearLength(y);
    if m < 12 { MonthsGrow(y, m, 12); }
  }

  lemma DaysGrow(f: Fields, g: Fields)
    requires ValidFields(f) && ValidFields(g)
    requires f.year < g.year || (f.year == g.year && (f.month < g.month || (f.month == g.month && f.day < g.day)))
    ensures DayNumber(f.year, f.month, f.day) + 1 <= DayNumber(g.year, g.month, g.day)
  {
    DayInYear(f.year, f.month, f.day);
    DayInYear(g.year, g.month, g.day);
    if f.year < g.year {
      YearsGrow(f.year, g.year);
    } else if f.month < g.month {
      MonthsGrow(f.year, f.month, g.month);
    }
  }

  lemma FieldsGrow(f: Fields, g: Fields)
    requires ValidFields(f) && ValidFields(g) && FieldsLess(f, g)
    ensures SecondsOf(f) < SecondsOf(g)
  {
    var sameDay := f.year == g.year && f.month == g.month && f.day == g.day;
    if !sameDay { DaysGrow(f, g); }
  }

  lemma FieldsOrder(f: Fields, g: Fields)
    requires ValidFields(f) && ValidFields(g)
    ensures FieldsLess(f, g) <==> SecondsOf(f) < SecondsOf(g)
  {
    if FieldsLess(f, g) { FieldsGrow(f, g); }
    if FieldsLess(g, f) { FieldsGrow(g, f); }
    if !FieldsLess(f, g) && !FieldsLess(g, f) { assert f == g; }
  }

  const YEAR_10000 := 86400 * 3652425

  lemma {:induction false} GregorianCycles(k: nat)
    ensures DaysBeforeYear(400 * k) == 146097 * k
  {
    if k > 0 {
      GregorianCycles(k - 1);
      FourCenturies(k - 1);
    }
  }

  lemma FourCenturies(q: nat)
    ensures DaysBeforeYear(400 * q + 400) == DaysBeforeYear(400 * q) + 146097
  {
    CenturyOf(q, 0);
    CenturyOf(q, 1);
    CenturyOf(q, 2);
    CenturyOf(q, 3);
  }

  /** The `r`-th century of the `q`-th cycle of four hundred years. */
  lemma CenturyOf(q: nat, r: nat)
    requires r < 4
    ensures DaysBeforeYear(400 * q + 100 * r + 100)
         == DaysBeforeYear(400 * q + 100 * r) + if r == 0 then 36525 else 36524
  {
    var c := 4 * q + r;
    assert 100 * c == 400 * q + 100 * r;
    assert c % 4 == r;
    Centuries(c, 100);
  }

  /** Leap years of century `c`: the fourth years, the first one only every fourth century. */
  lemma LeapInCentury(c: nat, k: nat)
    requires k < 100
    ensures IsLeap(100 * c + k) <==> k % 4 == 0 && (k > 0 || c % 4 == 0)
  {
    ModFour(25 * c, k);
    ModHundred(c, k);
    ModFourHundred(c);
    assert 4 * (25 * c) == 100 * c;
  }

  lemma ModFour(a: nat, k: nat)
    ensures (4 * a + k) % 4 == k % 4
  {
  }

  lemma ModHundred(c: nat, k: nat)
    requires k < 100
    ensures (100 * c + k) % 100 == k
  {
  }

  lemma ModFourHundred(c: nat)
    ensures 100 * c % 400 == 100 * (c % 4)
  {
    var q, r := c / 4, c % 4;
    assert 100 * c == 400 * q + 100 * r;
  }

  /** `n` years from the start of century `c` on; `n` up to one hundred. */
  lemma {:induction false} Centuries(c: nat, n: nat)
    requires n <= 100
    ensures DaysBeforeYear(100 * c + n)
         == DaysBeforeYear(100 * c) + 365 * n + (n + 3) / 4 - (if n > 0 && c % 4 != 0 then 1 else 0)
  {
    if n > 0 {
      Centuries(c, n - 1);
      LeapInCentury(c, n - 1);
    }
  }

  /** The conversion is inverse to counting seconds, for every instant before year 10000. */
  lemma FieldsOfCorrect(t: nat)
    requires t < YEAR_10000
    ensures ValidFields(FieldsOf(t)) && SecondsOf(FieldsOf(t)) == t
  {
    var f := FieldsOf(t);
    GregorianCycles(25);
    if f.year > 9999 {
      if f.year > 10000 { YearsGrow(10000, f.year); }
      assert false;
    }
    ClockFields(t % 86400);
  }

  lemma ClockFields(s: nat)
    requires s < 86400
    ensures s / 3600 < 24 && s % 3600 / 60 < 60 && 3600 * (s / 3600) + 60 * (s % 3600 / 60) + s % 60 == s
  {
    assert s % 3600 % 60 == s % 60 by { assert s == 3600 * (s / 3600) + s % 3600; }
  }

  // ---- The text --------------------------------------------------------------------------------------

  /** time.RFC3339 in UTC. */
  function Text(f: Fields): (s: string)
    ensures |s| == 20
  {
    Pad(f.year, 4) + ("-" + (Pad(f.month, 2) + ("-" + (Pad(f.day, 2) + ("T" +
    (Pad(f.hour, 2) + (":" + (Pad(f.minute, 2) + (":" + (Pad(f.second, 2) + "Z"))))))))))
  }

  lemma LessField(m: nat, n: nat, width: nat, mark: char, c: string, d: string)
    requires m < Pow10(width) && n < Pow10(width)
    ensures Less(Pad(m, width) + ([mark] + c), Pad(n, width) + ([mark] + d)) <==> m < n || (m == n && Less(c, d))
  {
    PadOrder(m, n, width);
    LessFields(Pad(m, width), Pad(n, width), [mark] + c, [mark] + d);
    LessFields([mark], [mark], c, d);
    assert [mark][1..] == "";
  }

  lemma TextOrder(f: Fields, g: Fields)
    requires ValidFields(f) && ValidFields(g)
    ensures Less(Text(f), Text(g)) <==> FieldsLess(f, g)
  {
    assert Pow10(1) == 10 && Pow10(2) == 100 && Pow10(3) == 1000 && Pow10(4) == 10000;
    LessField(f.second, g.second, 2, 'Z', "", "");
    var sf, sg := Pad(f.second, 2) + "Z", Pad(g.second, 2) + "Z";
    assert ['Z'] + "" == "Z";
    LessField(f.minute, g.minute, 2, ':', sf, sg);
    var mf, mg := Pad(f.minute, 2) + (":" + sf), Pad(g.minute, 2) + (":" + sg);
    LessField(f.hour, g.hour, 2, ':', mf, mg);
    var hf, hg := Pad(f.hour, 2) + (":" + mf), Pad(g.hour, 2) + (":" + mg);
    LessField(f.day, g.day, 2, 'T', hf, hg);
    var df, dg := Pad(f.day, 2) + ("T" + hf), Pad(g.day, 2) + ("T" + hg);
    LessField(f.month, g.month, 2, '-', df, dg);
    var of, og := Pad(f.month, 2) + ("-" + df), Pad(g.month, 2) + ("-" + dg);
    LessField(f.year, g.year, 4, '-', of, og);
  }

  // ---- Instants ------------------------------------------------------------------------------------

  /** An instant in Unix nanoseconds whose year has four digits. */
  predicate Representable(ns: int) { FIRST_INSTANT <= ns < END_INSTANT }

  type Moment = ns: int | Representable(ns)
    witness 0

  const FIRST_INSTANT := -62_167_219_200_000_000_000
  const END_INSTANT := 253_402_300_800_000_000_000

  /** Whole seconds, rounding down as Go's clock does. */
  function Second(ns: int): int { ns / 1_000_000_000 }

  /** Whole seconds since the start of year 0. */
  function Clock(ns: int): (t: nat)
    requires Representable(ns)
    ensures t < YEAR_10000 && t == Second(ns) + 86400 * DAYS_TO_1970
  {
    Second(ns) + 86400 * DAYS_TO_1970
  }

  /** t.UTC().Format(time.RFC3339). */
  function Format(ns: int): string
    requires Representable(ns)
  {
    Text(FieldsOf(Clock(ns)))
  }

  lemma TextTime(f: Fields, g: Fields)
    requires ValidFields(f) && ValidFields(g)
    ensures Less(Text(f), Text(g)) <==> SecondsOf(f) < SecondsOf(g)
    ensures Text(f) == Text(g) <==> SecondsOf(f) == SecondsOf(g)
  {
    TextOrder(f, g);
    TextOrder(g, f);
    FieldsOrder(f, g);
    FieldsOrder(g, f);
    LessTotal(Text(f), Text(g));
    LessTotal(Text(g), Text(f));
    if SecondsOf(f) == SecondsOf(g) { assert f == g; }
  }

  lemma ClockOrder(t: nat, u: nat)
    requires t < YEAR_10000 && u < YEAR_10000
    ensures Less(Text(FieldsOf(t)), Text(FieldsOf(u))) <==> t < u
    ensures Text(FieldsOf(t)) == Text(FieldsOf(u)) <==> t == u
  {
    FieldsOfCorrect(t);
    FieldsOfCorrect(u);
    TextTime(FieldsOf(t), FieldsOf(u));
  }

  /** String order is time order, at whole-second resolution. */
  lemma StringOrderIsTimeOrder(a: int, b: int)
    requires Representable(a) && Representable(b)
    ensures Less(Format(a), Format(b)) <==> Second(a) < Second(b)
    ensures Format(a) == Format(b) <==> Second(a) == Second(b)
  {
    ClockOrder(Clock(a), Clock(b));
  }

  /** The text is that of an instant. */
  ghost predicate IsTimeText(text: string) {
    exists at: Moment :: Format(at) == text
  }

  lemma FormatIsTimeText(at: Moment)
    ensures IsTimeText(Format(at))
  {
  }

  /** The second a text stands for. */
  ghost function WrittenSecond(text: string): int
    requires IsTimeText(text)
  {
    var at: Moment :| Format(at) == text;
    Second(at)
  }

  /** A text gives back the second it was written in. */
  lemma WrittenSecondOfFormat(at: Moment)
    ensures IsTimeText(Format(at)) && WrittenSecond(Format(at)) == Second(at)
  {
    var read: Moment :| Format(read) == Format(at) && WrittenSecond(Format(at)) == Second(read);
    StringOrderIsTimeOrder(read, at);
  }

  /** Texts of instants order as the seconds they stand for. */
  lemma WrittenOrder(a: string, b: string)
    requires IsTimeText(a) && IsTimeText(b)
    ensures Less(a, b) <==> WrittenSecond(a) < WrittenSecond(b)
  {
    var at: Moment :| Format(at) == a;
    var bt: Moment :| Format(bt) == b;
    WrittenSecondOfFormat(at);
    WrittenSecondOfFormat(bt);
    StringOrderIsTimeOrder(at, bt);
  }

  /** The calendar is anchored where Unix time is: the year that starts 70 years after 1900
      starts at instant 0. */
  lemma EpochAnchor(y: nat)
    requires y - 1900 == 70
    ensures UnixOf(Fields(y, 1, 1, 0, 0, 0)) == 0
  {
    var q := (y - 370) / 400;
    GregorianCycles(q);
    CenturyOf(q, 0);
    CenturyOf(q, 1);
    CenturyOf(q, 2);
    var c := 4 * q + 3;
    Centuries(c, 70);
    assert 100 * c == 400 * q + 300 && y == 100 * c + 70;
  }

  lemma Peel(a: string, mark: char, rest: string)
    ensures var s := a + ([mark] + rest); s[..|a|] == a && s[|a|] == mark && s[|a| + 1..] == rest
  {
  }

  /** The layout of the text, read from the left: four digits of year, then two of each other
      field, with the marks of the format in between and a closing Z. */
  lemma TextLayout(f: Fields)
    ensures var s := Text(f);
            var months := s[5..];
            var days := months[3..];
            var hours := days[3..];
            var minutes := hours[3..];
            && s[..4] == Pad(f.year, 4) && s[4] == '-'
            && months[..2] == Pad(f.month, 2) && months[2] == '-'
            && days[..2] == Pad(f.day, 2) && days[2] == 'T'
            && hours[..2] == Pad(f.hour, 2) && hours[2] == ':'
            && minutes[..2] == Pad(f.minute, 2) && minutes[2] == ':'
            && minutes[3..] == Pad(f.second, 2) + "Z"
  {
    var seconds := Pad(f.second, 2) + "Z";
    var minutes := Pad(f.minute, 2) + (":" + seconds);
    var hours := Pad(f.hour, 2) + (":" + minutes);
    var days := Pad(f.day, 2) + ("T" + hours);
    var months := Pad(f.month, 2) + ("-" + days);
    Peel(Pad(f.year, 4), '-', months);
    Peel(Pad(f.month, 2), '-', days);
    Peel(Pad(f.day, 2), 'T', hours);
    Peel(Pad(f.hour, 2), ':', minutes);
    Peel(Pad(f.minute, 2), ':', seconds);
  }

  // ---- Reading the text back ---------------------------------------------------------------------------

  predicate AllDigits(s: string) { forall i :: 0 <= i < |s| ==> '0' <= s[i] <= '9' }

  /** The number a decimal numeral stands for, each character weighed by its place. */
  function Numeral(s: string): nat
    requires AllDigits(s)
  {
    if s == "" then 0 else 10 * Numeral(s[..|s| - 1]) + (s[|s| - 1] as int - '0' as int)
  }

  /** A text of the form "2006-01-02T15:04:05Z", digits and marks in their places. */
  predicate IsLaidOut(s: string) {
    && |s| == 20 && s[4] == '-' && s[7] == '-' && s[10] == 'T' && s[13] == ':' && s[16] == ':' && s[19] == 'Z'
    && AllDigits(s[0..4]) && AllDigits(s[5..7]) && AllDigits(s[8..10])
    && AllDigits(s[11..13]) && AllDigits(s[14..16]) && AllDigits(s[17..19])
  }

  /** What a reader makes of such a text. */
  function ReadFields(s: string): Fields
    requires IsLaidOut(s)
  {
    Fields(Numeral(s[0..4]), Numeral(s[5..7]), Numeral(s[8..10]),
           Numeral(s[11..13]), Numeral(s[14..16]), Numeral(s[17..19]))
  }

  lemma {:induction false} PadIsNumeral(n: nat, width: nat)
    requires n < Pow10(width)
    ensures AllDigits(Pad(n, width)) && Numeral(Pad(n, width)) == n
  {
    if width > 0 {
      PadIsNumeral(n / 10, width - 1);
      var s := Pad(n, width);
      assert s[..|s| - 1] == Pad(n / 10, width - 1);
    }
  }

  /** Where the fields stand. */
  lemma TextSlices(f: Fields)
    ensures var s := Text(f);
            && s[0..4] == Pad(f.year, 4) && s[5..7] == Pad(f.month, 2) && s[8..10] == Pad(f.day, 2)
            && s[11..13] == Pad(f.hour, 2) && s[14..16] == Pad(f.minute, 2) && s[17..19] == Pad(f.second, 2)
            && s[4] == '-' && s[7] == '-' && s[10] == 'T' && s[13] == ':' && s[16] == ':' && s[19] == 'Z'
  {
    TextLayout(f);
    var s := Text(f);
    var months := s[5..];
    var days := months[3..];
    var hours := days[3..];
    var minutes := hours[3..];
    assert s[0..4] == s[..4] && s[5..7] == months[..2] && s[8..10] == days[..2];
    assert s[11..13] == hours[..2] && s[14..16] == minutes[..2] && s[17..19] == minutes[3..][..2];
    assert s[19] == minutes[3..][2];
  }

  /** Reading the text gives back the fields it was written from. */
  lemma ReadUndoesText(f: Fields)
    requires ValidFields(f)
    ensures IsLaidOut(Text(f)) && ReadFields(Text(f)) == f
  {
    assert Pow10(1) == 10 && Pow10(2) == 100 && Pow10(3) == 1000 && Pow10(4) == 10000;
    TextSlices(f);
    PadIsNumeral(f.year, 4);
    PadIsNumeral(f.month, 2);
    PadIsNumeral(f.day, 2);
    PadIsNumeral(f.hour, 2);
    PadIsNumeral(f.minute, 2);
    PadIsNumeral(f.second, 2);
  }

  /** The text of an instant reads as the calendar date and clock time of its second. */
  lemma FormatReadsBack(at: Moment)
    ensures IsLaidOut(Format(at)) && ValidFields(ReadFields(Format(at)))
    ensures UnixOf(ReadFields(Format(at))) == Second(at)
  {
    FieldsOfCorrect(Clock(at));
    ReadUndoesText(FieldsOf(Clock(at)));
  }

  lemma {:induction false} NumeralIsPadded(s: string)
    requires AllDigits(s)
    ensures Numeral(s) < Pow10(|s|) && Pad(Numeral(s), |s|) == s
  {
    if s != "" {
      var init := s[..|s| - 1];
      NumeralIsPadded(init);
      assert s == init + [s[|s| - 1]];
    }
  }

  lemma SlicesMakeText(s: string)
    requires |s| == 20 && s[4] == '-' && s[7] == '-' && s[10] == 'T' && s[13] == ':' && s[16] == ':' && s[19] == 'Z'
    ensures s == s[0..4] + ("-" + (s[5..7] + ("-" + (s[8..10] + ("T" +
                 (s[11..13] + (":" + (s[14..16] + (":" + (s[17..19] + "Z"))))))))))
  {
    assert s[17..] == s[17..19] + "Z" && s[16..] == ":" + s[17..] && s[14..] == s[14..16] + s[16..];
    assert s[13..] == ":" + s[14..] && s[11..] == s[11..13] + s[13..] && s[10..] == "T" + s[11..];
    assert s[8..] == s[8..10] + s[10..] && s[7..] == "-" + s[8..] && s[5..] == s[5..7] + s[7..];
    assert s[4..] == "-" + s[5..] && s == s[0..4] + s[4..];
  }

  /** Conversely, a text so laid out is the text of the fields read from it. */
  lemma TextUndoesRead(s: string)
    requires IsLaidOut(s)
    ensures Text(ReadFields(s)) == s
  {
    NumeralIsPadded(s[0..4]);
    NumeralIsPadded(s[5..7]);
    NumeralIsPadded(s[8..10]);
    NumeralIsPadded(s[11..13]);
    NumeralIsPadded(s[14..16]);
    NumeralIsPadded(s[17..19]);
    SlicesMakeText(s);
  }

  /** An instant is written as `s` exactly when `s` is laid out as a valid date and time and
      reads as the second of the instant. */
  lemma FormatExactly(at: Moment, s: string)
    ensures Format(at) == s <==> IsLaidOut(s) && ValidFields(ReadFields(s)) && UnixOf(ReadFields(s)) == Second(at)
  {
    FormatReadsBack(at);
    if IsLaidOut(s) && ValidFields(ReadFields(s)) && UnixOf(ReadFields(s)) == Second(at) {
      FieldsOrder(ReadFields(s), ReadFields(Format(at)));
      FieldsOrder(ReadFields(Format(at)), ReadFields(s));
      TextUndoesRead(s);
      TextUndoesRead(Format(at));
    }
  }

  lemma TwoDigits(s: string)
    requires |s| == 2 && AllDigits(s)
    ensures Numeral(s) == 10 * (s[0] as int - '0' as int) + (s[1] as int - '0' as int)
  {
    var tens := s[..1];
    assert tens[..0] == "" && tens[0] == s[0];
    assert Numeral(tens) == 10 * Numeral(tens[..0]) + (s[0] as int - '0' as int);
  }

  lemma FourDigits(s: string)
    requires |s| == 4 && AllDigits(s)
    ensures Numeral(s) == 100 * Numeral(s[..2]) + Numeral(s[2..])
  {
    var init := s[..3];
    assert init[..2] == s[..2] && init[2] == s[2];
    assert Numeral(init) == 10 * Numeral(s[..2]) + (s[2] as int - '0' as int);
    TwoDigits(s[2..]);
  }

  lemma YearNumeral(s: string)
    requires s == "1970"
    ensures AllDigits(s) && Numeral(s) - 1900 == 70
  {
    FourDigits(s);
    assert s[..2] == "19" && s[2..] == "70";
    TwoDigits(s[..2]);
    TwoDigits(s[2..]);
  }

  lemma SmallNumeral(s: string)
    requires s == "00" || s == "01"
    ensures AllDigits(s) && Numeral(s) == if s == "00" then 0 else 1
  {
    TwoDigits(s);
  }

  lemma EpochReads(s: string)
    requires s == "1970-01-01T00:00:00Z"
    ensures IsLaidOut(s) && ReadFields(s).year - 1900 == 70
    ensures ReadFields(s) == Fields(ReadFields(s).year, 1, 1, 0, 0, 0)
  {
    assert s[0..4] == "1970" && s[5..7] == s[8..10] == "01" && s[11..13] == s[14..16] == s[17..19] == "00";
    YearNumeral(s[0..4]);
    SmallNumeral(s[5..7]);
    SmallNumeral(s[11..13]);
  }

  /** The start of the Unix epoch is written as everyone writes it. */
  lemma EpochText(s: string)
    requires s == "1970-01-01T00:00:00Z"
    ensures Format(0) == s
  {
    EpochReads(s);
    EpochStarts(s, ReadFields(s).year);
  }

  lemma EpochStarts(s: string, y: nat)
    requires IsLaidOut(s) && ReadFields(s) == Fields(y, 1, 1, 0, 0, 0) && y - 1900 == 70
    ensures Format(0) == s
  {
    EpochAnchor(y);
    FormatExactly(0, s);
  }
}
