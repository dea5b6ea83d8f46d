/**
 * The month grid of the application (`daysOfMonth`): for a "YYYY-MM" text, every day
 * of that month as a record holding the day number, the "DD/MM/YYYY" label shown in
 * forms and the "YYYY-MM-DD" key under which counts and locks are stored.
 */
module Calendar {
  import opened Common
  import opened Text

  /** Gregorian leap-year rule (proleptic, as JavaScript's `Date` uses it). */
  predicate IsLeapYear(y: int) {
    y % 4 == 0 && (y % 100 != 0 || y % 400 == 0)
  }

  /** Number of days of month `m` (1 = January) of year `y`. */
  function DaysInMonth(y: int, m: int): (n: int)
    requires 1 <= m <= 12
    ensures 28 <= n <= 31
    ensures n == 29 <==> m == 2 && IsLeapYear(y)
    ensures n == 28 <==> m == 2 && !IsLeapYear(y)
    ensures n == 30 <==> m == 4 || m == 6 || m == 9 || m == 11
  {
    if m == 2 then (if IsLeapYear(y) then 29 else 28)
    else if m == 4 || m == 6 || m == 9 || m == 11 then 30
    else 31
  }

  /**
   * `new Date(y, m, 0).getDate()`: the day before the first day of zero-based month `m`,
   * i.e. the last day of one-based month `m`. `Date` reads a year in 0..99 as 1900 + y
   * and carries a month outside 0..11 into the neighbouring years.
   */
  function LastDay(y: int, m: int): (n: int)
    ensures 28 <= n <= 31
  {
    var year := if 0 <= y <= 99 then 1900 + y else y;
    DaysInMonth(year + (m - 1) / 12, (m - 1) % 12 + 1)
  }

  /** One entry of the month grid. */
  datatype Day = Day(d: int, caption: string, iso: string)

  /** The "YYYY-MM" text `daysOfMonth` writes into every key of the month. */
  function MonthText(y: int, m: int): string {
    Str(y) + "-" + Pad2(m)
  }

  function DayOf(y: int, m: int, d: int): Day {
    Day(d, Pad2(d) + "/" + Pad2(m) + "/" + Str(y), MonthText(y, m) + "-" + Pad2(d))
  }

  /** The entries for days 1..n, in order. */
  function DaysUpTo(y: int, m: int, n: nat): (days: seq<Day>)
    ensures |days| == n
    ensures forall i :: 0 <= i < n ==> days[i] == DayOf(y, m, i + 1)
  {
    if n == 0 then [] else DaysUpTo(y, m, n - 1) + [DayOf(y, m, n)]
  }

  /** `daysOfMonth` once the year and month have been read as integers. */
  function DaysOfMonth(y: int, m: int): (days: seq<Day>)
    ensures |days| == LastDay(y, m)
    ensures forall i :: 0 <= i < |days| ==> days[i] == DayOf(y, m, i + 1)
    ensures forall i :: 0 <= i < |days| ==> days[i].d == i + 1
    ensures forall i :: 0 <= i < |days| ==> days[i].iso == MonthText(y, m) + "-" + Pad2(i + 1)
    ensures forall i :: 0 <= i < |days| ==>
      days[i].caption == Pad2(i + 1) + "/" + Pad2(m) + "/" + Str(y)
  {
    DaysUpTo(y, m, LastDay(y, m))
  }

  /**
   * `ym.split('-').map(v => parseInt(v, 10))`, keeping the first two numbers; `None`
   * when either is `NaN` (or missing), in which case `Date` is invalid and the grid empty.
   */
  function ParseMonth(ym: string): (r: Option<(int, int)>)
    ensures r.Some? ==> ParseInt(Split(ym, '-')[0]) == Some(r.value.0)
    ensures r.Some? ==> |Split(ym, '-')| >= 2 && ParseInt(Split(ym, '-')[1]) == Some(r.value.1)
    ensures r.None? ==> ParseInt(Split(ym, '-')[0]).None? || |Split(ym, '-')| < 2
                        || ParseInt(Split(ym, '-')[1]).None?
    ensures r.Some? ==> r.value.0 >= 0 && r.value.1 >= 0
  {
    var parts := Split(ym, '-');
    PartsReadNonNegative(ym);
    var y := ParseInt(parts[0]);
    var m := if |parts| >= 2 then ParseInt(parts[1]) else None;
    if y.Some? && m.Some? then Some((y.value, m.value)) else None
  }

  /** Every part of `ym.split('-')` that `parseInt` reads gives a number of at least 0. */
  lemma PartsReadNonNegative(ym: string)
    ensures forall i :: 0 <= i < |Split(ym, '-')| && ParseInt(Split(ym, '-')[i]).Some? ==>
      ParseInt(Split(ym, '-')[i]).value >= 0
  {
    var parts := Split(ym, '-');
    SplitPartsWithoutSeparator(ym, '-');
    forall i | 0 <= i < |parts|
      ensures ParseInt(parts[i]).Some? ==> ParseInt(parts[i]).value >= 0
    {
      NoMinusNoSign(parts[i]);
    }
  }

  /** `daysOfMonth(ym)`. */
  function DaysOfMonthText(ym: string): (days: seq<Day>)
    ensures ParseMonth(ym).None? ==> days == []
    ensures ParseMonth(ym).Some? ==> days == DaysOfMonth(ParseMonth(ym).value.0, ParseMonth(ym).value.1)
    ensures ParseMonth(ym).Some? ==> |days| == LastDay(ParseMonth(ym).value.0, ParseMonth(ym).value.1)
    ensures forall j :: 0 <= j < |days| ==> ParseMonth(days[j].iso) == ParseMonth(ym)
  {
    match ParseMonth(ym)
    case None => []
    case Some((y, m)) => MonthKeysRoundTrip(y, m); DaysOfMonth(y, m)
  }

  /**
   * The month text the grid's keys actually carry: the input re-rendered from the
   * numbers read out of it ("2024-3" becomes "2024-03"); unreadable text is kept.
   */
  function CanonicalMonth(ym: string): string {
    match ParseMonth(ym)
    case None => ym
    case Some((y, m)) => MonthText(y, m)
  }

  /**
   * `ymFromQuery`: the requested month, or the current one read from the clock
   * (`getFullYear()` and the zero-based `getMonth()` of the present day).
   */
  function MonthFromQuery(q: Option<string>, nowYear: int, nowMonthIndex: int): (ym: string)
    requires nowYear >= 0 && 0 <= nowMonthIndex < 12
    ensures q.Some? && q.value != "" ==> ym == q.value
    ensures (q.None? || q.value == "") ==> ParseMonth(ym) == Some((nowYear, nowMonthIndex + 1))
    ensures (q.None? || q.value == "") ==> CanonicalMonth(ym) == ym
  {
    if q.Some? && q.value != "" then q.value
    else CurrentMonth(nowYear, nowMonthIndex)
  }

  /** The month of the present day as "YYYY-MM", from `getFullYear()` and `getMonth() + 1`. */
  function CurrentMonth(nowYear: int, nowMonthIndex: int): (ym: string)
    requires nowYear >= 0 && 0 <= nowMonthIndex < 12
    ensures ParseMonth(ym) == Some((nowYear, nowMonthIndex + 1))
    ensures CanonicalMonth(ym) == ym
  {
    MonthTextRoundTrip(nowYear, nowMonthIndex + 1);
    MonthText(nowYear, nowMonthIndex + 1)
  }

  lemma ParseMonthOfParts(a: string, b: string)
    requires '-' !in a && '-' !in b
    ensures ParseMonth(a + "-" + b) ==
      if ParseInt(a).Some? && ParseInt(b).Some? then Some((ParseInt(a).value, ParseInt(b).value))
      else None
  {
    SplitAtFirstSeparator(a, b, '-');
    SplitWithoutSeparator(b, '-');
  }

  /** For a year from 100 on (or negative), the grid has the Gregorian length of the month. */
  lemma LastDayIsGregorian(y: int, m: int)
    requires 1 <= m <= 12
    ensures LastDay(y, m) == DaysInMonth(if 0 <= y <= 99 then 1900 + y else y, m)
    ensures !(0 <= y <= 99) ==> |DaysOfMonth(y, m)| == DaysInMonth(y, m)
  {
  }

  /** The length of year `y` as the sum of its twelve months. */
  function YearLength(y: int): int {
    DaysInMonth(y, 1) + DaysInMonth(y, 2) + DaysInMonth(y, 3) + DaysInMonth(y, 4)
    + DaysInMonth(y, 5) + DaysInMonth(y, 6) + DaysInMonth(y, 7) + DaysInMonth(y, 8)
    + DaysInMonth(y, 9) + DaysInMonth(y, 10) + DaysInMonth(y, 11) + DaysInMonth(y, 12)
  }

  /** The twelve month lengths add up to the length of the year: 366 in leap years, 365 otherwise. */
  lemma MonthsFillTheYear(y: int)
    ensures YearLength(y) == if IsLeapYear(y) then 366 else 365
  {
  }

  /** Every key of the month begins with the month text and a hyphen. */
  lemma DayKeysInMonth(y: int, m: int)
    ensures forall i :: 0 <= i < |DaysOfMonth(y, m)| ==>
      HasPrefix(DaysOfMonth(y, m)[i].iso, MonthText(y, m) + "-")
  {
    var days := DaysOfMonth(y, m);
    var p := MonthText(y, m) + "-";
    forall i | 0 <= i < |days|
      ensures HasPrefix(days[i].iso, p)
    {
      assert days[i].iso == p + Pad2(i + 1);
      assert days[i].iso[..|p|] == p;
    }
  }

  /** No two days of the month share a key. */
  lemma DayKeysDistinct(y: int, m: int)
    ensures forall i, j :: 0 <= i < j < |DaysOfMonth(y, m)| ==>
      DaysOfMonth(y, m)[i].iso != DaysOfMonth(y, m)[j].iso
  {
    var days := DaysOfMonth(y, m);
    forall i, j | 0 <= i < j < |days|
      ensures days[i].iso != days[j].iso
    {
      DistinctDaysDistinctKeys(y, m, i + 1, j + 1);
    }
  }

  lemma DistinctDaysDistinctKeys(y: int, m: int, d1: int, d2: int)
    requires d1 != d2
    ensures DayOf(y, m, d1).iso != DayOf(y, m, d2).iso
  {
    var p := MonthText(y, m) + "-";
    StrInjective(d1, d2);
    SuffixDetermined(p, Pad2(d1), Pad2(d2));
  }

  lemma SuffixDetermined(p: string, a: string, b: string)
    ensures p + a == p + b ==> a == b
  {
    assert (p + a)[|p|..] == a;
    assert (p + b)[|p|..] == b;
  }

  /** Splitting a key at its hyphens gives back year, month and day texts. */
  lemma KeyParts(y: int, m: int, d: int)
    requires y >= 0 && m >= 0 && d >= 0
    ensures Split(DayOf(y, m, d).iso, '-') == [Str(y), Pad2(m), Pad2(d)]
  {
    SeparatorNotInStr(y, '-');
    SeparatorNotInStr(m, '-');
    SeparatorNotInStr(d, '-');
    assert DayOf(y, m, d).iso == Str(y) + "-" + (Pad2(m) + "-" + Pad2(d));
    SplitAtFirstSeparator(Str(y), Pad2(m) + "-" + Pad2(d), '-');
    SplitAtFirstSeparator(Pad2(m), Pad2(d), '-');
    SplitWithoutSeparator(Pad2(d), '-');
  }

  /**
   * A month text round-trips, and so does every key of its grid: reading one back
   * the way `daysOfMonth` reads its input yields the same year and month.
   */
  lemma MonthKeysRoundTrip(y: int, m: int)
    requires y >= 0 && m >= 0
    ensures ParseMonth(MonthText(y, m)) == Some((y, m))
    ensures CanonicalMonth(MonthText(y, m)) == MonthText(y, m)
    ensures forall i :: 0 <= i < |DaysOfMonth(y, m)| ==> ParseMonth(DaysOfMonth(y, m)[i].iso) == Some((y, m))
  {
    MonthTextRoundTrip(y, m);
    forall i | 0 <= i < |DaysOfMonth(y, m)|
      ensures ParseMonth(DaysOfMonth(y, m)[i].iso) == Some((y, m))
    {
      DayKeyParsesToMonth(y, m, i);
    }
  }

  lemma DayKeyParsesToMonth(y: int, m: int, i: int)
    requires y >= 0 && m >= 0 && 0 <= i < |DaysOfMonth(y, m)|
    ensures ParseMonth(DaysOfMonth(y, m)[i].iso) == Some((y, m))
  {
    assert DaysOfMonth(y, m)[i] == DayOf(y, m, i + 1);
    KeyParsesToMonth(y, m, i + 1);
  }

  lemma MonthTextRoundTrip(y: int, m: int)
    requires y >= 0 && m >= 0
    ensures ParseMonth(MonthText(y, m)) == Some((y, m))
  {
    SeparatorNotInStr(y, '-');
    SeparatorNotInStr(m, '-');
    ParseMonthOfParts(Str(y), Pad2(m));
    ParseIntOfStr(y);
    ParseIntOfPad2(m);
  }

  lemma KeyParsesToMonth(y: int, m: int, d: int)
    requires y >= 0 && m >= 0 && d >= 0
    ensures ParseMonth(DayOf(y, m, d).iso) == Some((y, m))
  {
    KeyParts(y, m, d);
    ParseIntOfStr(y);
    ParseIntOfPad2(m);
  }

  /** For a four-digit year and a calendar month, the first seven characters of each key are the month. */
  lemma FourDigitYearKeys(y: int, m: int)
    requires 1000 <= y <= 9999 && 1 <= m <= 12
    ensures |MonthText(y, m)| == 7
    ensures forall i :: 0 <= i < |DaysOfMonth(y, m)| ==> DaysOfMonth(y, m)[i].iso[..7] == MonthText(y, m)
  {
    FourDigits(y);
    assert |Pad2(m)| == 2;
    var days := DaysOfMonth(y, m);
    forall i | 0 <= i < |days|
      ensures days[i].iso[..7] == MonthText(y, m)
    {
      PrefixOfConcat(MonthText(y, m), "-" + Pad2(i + 1));
    }
  }

  lemma FourDigits(y: int)
    requires 1000 <= y <= 9999
    ensures |Str(y)| == 4
  {
    assert |NatStr(y / 1000)| == 1;
    assert (y / 100) / 10 == y / 1000;
    assert |NatStr(y / 100)| == 2;
    assert (y / 10) / 10 == y / 100;
    assert |NatStr(y / 10)| == 3;
  }

  lemma PrefixOfConcat(a: string, b: string)
    ensures (a + b)[..|a|] == a
  {
  }

  /** The label names the same day, month and year as the key, in the opposite order. */
  lemma CaptionMatchesKey(y: int, m: int, d: int)
    requires y >= 0 && m >= 0 && d >= 0
    ensures Split(DayOf(y, m, d).caption, '/') == [Pad2(d), Pad2(m), Str(y)]
    ensures Split(DayOf(y, m, d).iso, '-') == [Str(y), Pad2(m), Pad2(d)]
  {
    SeparatorNotInStr(y, '/');
    SeparatorNotInStr(m, '/');
    SeparatorNotInStr(d, '/');
    assert DayOf(y, m, d).caption == Pad2(d) + "/" + (Pad2(m) + "/" + Str(y));
    SplitAtFirstSeparator(Pad2(d), Pad2(m) + "/" + Str(y), '/');
    SplitAtFirstSeparator(Pad2(m), Str(y), '/');
    SplitWithoutSeparator(Str(y), '/');
    KeyParts(y, m, d);
  }

  /**
   * The month prefix test is exact at month boundaries: a day key of month (y2, m2)
   * starts with the text of month (y, m) followed by a hyphen exactly when the months agree.
   */
  lemma MonthPrefixExact(y: int, m: int, y2: int, m2: int, d: int)
    requires y >= 0 && m >= 0 && y2 >= 0 && m2 >= 0
    ensures HasPrefix(DayOf(y2, m2, d).iso, MonthText(y, m) + "-") <==> y2 == y && m2 == m
  {
    if HasPrefix(DayOf(y2, m2, d).iso, MonthText(y, m) + "-") {
      PrefixedKeySameMonth(y, m, y2, m2, d);
    }
    if y2 == y && m2 == m {
      PrefixOfConcat(MonthText(y, m) + "-", Pad2(d));
    }
  }

  lemma PrefixedKeySameMonth(y: int, m: int, y2: int, m2: int, d: int)
    requires y >= 0 && m >= 0 && y2 >= 0 && m2 >= 0
    requires HasPrefix(DayOf(y2, m2, d).iso, MonthText(y, m) + "-")
    ensures y2 == y && m2 == m
  {
    SeparatorNotInStr(y, '-');
    SeparatorNotInStr(m, '-');
    SeparatorNotInStr(y2, '-');
    SeparatorNotInStr(m2, '-');
    TwoFieldPrefix(Str(y2), Pad2(m2), Pad2(d), Str(y), Pad2(m), '-');
    StrInjective(y, y2);
    StrInjective(m, m2);
  }
}
