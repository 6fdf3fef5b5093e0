/** Civil dates (`src/sonic/system.rs` rfc3339 and `src/cli/mod.rs` format_unix): two
    copies of the civil-from-days algorithm, against the Gregorian calendar of section
    5.6 and Appendix C of RFC 3339. */
module Calendar {
  import opened Common
  import opened Text

  // --------------------------------------------------------- the calendar itself

  datatype Date = Date(y: int, m: int, d: int)

  predicate IsLeap(y: int) {
    y % 4 == 0 && (y % 100 != 0 || y % 400 == 0)
  }

  function DaysInMonth(y: int, m: int): int {
    if m == 2 then if IsLeap(y) then 29 else 28
    else if m in {4, 6, 9, 11} then 30
    else 31
  }

  predicate ValidDate(t: Date) {
    1 <= t.m <= 12 && 1 <= t.d <= DaysInMonth(t.y, t.m)
  }

  function NextDay(t: Date): Date {
    if t.d < DaysInMonth(t.y, t.m) then Date(t.y, t.m, t.d + 1)
    else if t.m < 12 then Date(t.y, t.m + 1, 1)
    else Date(t.y + 1, 1, 1)
  }

  const EPOCH := Date(1970, 1, 1)

  function DaysBeforeMonth(y: int, m: int): int
    requires 1 <= m <= 12
    decreases m
  {
    if m == 1 then 0 else DaysBeforeMonth(y, m - 1) + DaysInMonth(y, m - 1)
  }

  /** Days from 1970-01-01 by counting years, months and days; floor division. */
  function DaysFromCivil(t: Date): int
    requires ValidDate(t)
  {
    var p := t.y - 1;
    365 * p + p / 4 - p / 100 + p / 400 + DaysBeforeMonth(t.y, t.m) + t.d - 1 - 719_162
  }

  // ------------------------------------------------------------ the two copies

  /** Copy in `rfc3339`: the year is fixed up where it is computed. */
  function CivilFromDays(days: int): Date {
    var z := days + 719_468;
    var era := z / 146_097;
    var doe := z % 146_097;
    var yoe := (doe - doe / 1460 + doe / 36_524 - doe / 146_096) / 365;
    var doy := doe - (365 * yoe + yoe / 4 - yoe / 100);
    var mp := (5 * doy + 2) / 153;
    var d := doy - (153 * mp + 2) / 5 + 1;
    var m := if mp < 10 then mp + 3 else mp - 9;
    Date(yoe + era * 400 + (if m <= 2 then 1 else 0), m, d)
  }

  /** Copy in `format_unix`: the year is bumped afterwards. */
  function CivilFromDays2(days: int): Date {
    var z := days + 719_468;
    var era := z / 146_097;
    var doe := z % 146_097;
    var yoe := (doe - doe / 1460 + doe / 36_524 - doe / 146_096) / 365;
    var y := yoe + era * 400;
    var doy := doe - (365 * yoe + yoe / 4 - yoe / 100);
    var mp := (5 * doy + 2) / 153;
    var d := doy - (153 * mp + 2) / 5 + 1;
    var mth := if mp < 10 then mp + 3 else mp - 9;
    var y' := if mth <= 2 then y + 1 else y;
    Date(y', mth, d)
  }

  // --------------------------------------------------------- year of the era

  function YearOfEra(doe: int): int {
    (doe - doe / 1460 + doe / 36_524 - doe / 146_096) / 365
  }

  /** A day of the era as century, four-year block, year and day of year. */
  ghost predicate Splits(doe: int, c: int, q: int, y: int, doy: int) {
    && 0 <= c <= 3 && 0 <= q <= 24 && 0 <= y <= 3 && 0 <= doy <= 365
    && doe == 36_524 * c + 1461 * q + 365 * y + doy
    && (doy == 365 ==> y == 3 && (q < 24 || c == 3))
  }

  lemma SplitExists(doe: int) returns (c: int, q: int, y: int, doy: int)
    requires 0 <= doe < 146_097
    ensures Splits(doe, c, q, y, doy)
  {
    c := if doe == 146_096 then 3 else doe / 36_524;
    var r1 := doe - 36_524 * c;
    q := r1 / 1461;
    var r2 := r1 - 1461 * q;
    y := if r2 == 1460 then 3 else r2 / 365;
    doy := r2 - 365 * y;
  }

  /** The closed formula finds the year of the split. */
  lemma YearOfSplit(doe: int, c: int, q: int, y: int, doy: int)
    requires Splits(doe, c, q, y, doy)
    ensures YearOfEra(doe) == 100 * c + 4 * q + y
    ensures var yoe := 100 * c + 4 * q + y; doe - (365 * yoe + yoe / 4 - yoe / 100) == doy
  {
    var r2 := 365 * y + doy;
    var e := (24 * c + q + r2) / 1460;
    assert doe == 1460 * (25 * c + q) + (24 * c + q + r2);
    assert doe / 1460 == 25 * c + q + e;
    CenturyTerm(doe, c, q, y, doy);
    assert doe - doe / 1460 + c == 365 * (100 * c + 4 * q) + (r2 - e);
    assert 0 <= e <= 1 && (e == 1 ==> r2 >= 1364);
    assert (r2 - e) / 365 == y;
    var yoe := 100 * c + 4 * q + y;
    assert yoe / 4 == 25 * c + q;
    assert yoe / 100 == c;
  }

  lemma CenturyTerm(doe: int, c: int, q: int, y: int, doy: int)
    requires Splits(doe, c, q, y, doy)
    ensures doe / 36_524 - doe / 146_096 == c
  {
    var r1 := 1461 * q + 365 * y + doy;
    assert r1 <= 36_524;
    if r1 == 36_524 {
      assert c == 3 && doe == 146_096;
    } else {
      assert doe / 36_524 == c;
    }
  }

  // -------------------------------------------------------- month of the year

  /** Days of the March-based year before month number mp (0 is March). */
  function MonthStart(mp: int): int {
    (153 * mp + 2) / 5
  }

  lemma MonthTable(doy: int, mp: int)
    requires 0 <= doy <= 365 && mp == (5 * doy + 2) / 153
    ensures 0 <= mp <= 11 && MonthStart(mp) <= doy < MonthStart(mp + 1)
  {
  }

  lemma MonthStarts()
    ensures MonthStart(0) == 0 && MonthStart(1) == 31 && MonthStart(2) == 61 && MonthStart(3) == 92
    ensures MonthStart(4) == 122 && MonthStart(5) == 153 && MonthStart(6) == 184 && MonthStart(7) == 214
    ensures MonthStart(8) == 245 && MonthStart(9) == 275 && MonthStart(10) == 306 && MonthStart(11) == 337
    ensures MonthStart(12) == 367
  {
  }

  /** Days before each month in terms of the March-based year. */
  lemma DaysBeforeMonthTable(y: int, m: int)
    requires 1 <= m <= 12
    ensures DaysBeforeMonth(y, m)
         == if m <= 2 then 31 * (m - 1) else MonthStart(m - 3) + 59 + (if IsLeap(y) then 1 else 0)
  {
    MonthStarts();
    if m > 1 {
      DaysBeforeMonthTable(y, m - 1);
    }
  }

  /** The March-based year Y starts here. */
  function MarchStart(Y: int): int {
    365 * Y + Y / 4 - Y / 100 + Y / 400
  }

  /** Counting multiples one number on. */
  lemma DivSteps(y: int)
    ensures y / 4 == (y - 1) / 4 + if y % 4 == 0 then 1 else 0
    ensures y / 100 == (y - 1) / 100 + if y % 100 == 0 then 1 else 0
    ensures y / 400 == (y - 1) / 400 + if y % 400 == 0 then 1 else 0
  {
    DivSteps4(y);
    DivSteps100(y);
    DivSteps400(y);
  }

  lemma DivSteps4(y: int)
    ensures y / 4 == (y - 1) / 4 + if y % 4 == 0 then 1 else 0
  {
  }

  lemma DivSteps100(y: int)
    ensures y / 100 == (y - 1) / 100 + if y % 100 == 0 then 1 else 0
  {
  }

  lemma DivSteps400(y: int)
    ensures y / 400 == (y - 1) / 400 + if y % 400 == 0 then 1 else 0
  {
  }

  lemma TimesHundred(k: int)
    ensures 100 * k % 100 == 0
  {
  }

  lemma TimesFour(k: int)
    ensures 4 * k % 4 == 0
  {
  }

  lemma Divides400(y: int)
    ensures y % 400 == 0 ==> y % 100 == 0
    ensures y % 100 == 0 ==> y % 4 == 0
  {
    if y % 400 == 0 {
      TimesHundred(4 * (y / 400));
    }
    if y % 100 == 0 {
      TimesFour(25 * (y / 100));
    }
  }

  lemma MarchYear(y: int)
    ensures var p := y - 1; 365 * p + p / 4 - p / 100 + p / 400 + 59 + (if IsLeap(y) then 1 else 0) == MarchStart(y) - 306
  {
    DivSteps(y);
    Divides400(y);
  }

  // ------------------------------------------------------------- main theorems

  /** The March-based year and the day of it that the algorithm computes. */
  lemma YearParts(days: int) returns (Y: int, doy: int)
    ensures days + 719_468 == MarchStart(Y) + doy
    ensures 0 <= doy <= 365 && (doy == 365 ==> IsLeap(Y + 1))
    ensures var z := days + 719_468; var yoe := YearOfEra(z % 146_097);
      Y == yoe + z / 146_097 * 400 && doy == z % 146_097 - (365 * yoe + yoe / 4 - yoe / 100)
  {
    hide MarchStart, IsLeap, YearOfEra;
    var z := days + 719_468;
    var era, doe := z / 146_097, z % 146_097;
    var c, q, y;
    c, q, y, doy := SplitExists(doe);
    YearOfSplit(doe, c, q, y, doy);
    Y := 100 * c + 4 * q + y + 400 * era;
    YearStart(era, c, q, y);
    if doy == 365 {
      LeapDay(era, c, q);
    }
  }

  lemma YearStart(era: int, c: int, q: int, y: int)
    requires 0 <= c <= 3 && 0 <= q <= 24 && 0 <= y <= 3
    ensures MarchStart(100 * c + 4 * q + y + 400 * era) == 146_097 * era + 36_524 * c + 1461 * q + 365 * y
  {
    var Y := 100 * c + 4 * q + y + 400 * era;
    assert Y / 4 == 25 * c + q + 100 * era;
    assert Y / 100 == c + 4 * era;
    assert Y / 400 == era;
  }

  lemma Multiples(era: int, a: int, b: int)
    requires 1 <= b <= 24
    ensures 4 * a % 4 == 0
    ensures (100 * a + 4 * b) % 100 == 4 * b
    ensures 400 * era % 400 == 0
  {
  }

  /** A 366th day occurs only before a March of a leap year. */
  lemma LeapDay(era: int, c: int, q: int)
    requires 0 <= c <= 3 && 0 <= q <= 24 && (q < 24 || c == 3)
    ensures IsLeap(100 * c + 4 * q + 3 + 400 * era + 1)
  {
    var L := 100 * c + 4 * q + 4 + 400 * era;
    if q == 24 {
      assert L == 400 * (era + 1);
      Multiples(era + 1, 100 * (era + 1), 1);
    } else {
      assert L == 100 * (c + 4 * era) + 4 * (q + 1) == 4 * (25 * (c + 4 * era) + q + 1);
      Multiples(era, c + 4 * era, q + 1);
      Multiples(era, 25 * (c + 4 * era) + q + 1, 1);
    }
  }

  lemma CivilParts(days: int) returns (Y: int, doy: int, mp: int)
    ensures days + 719_468 == MarchStart(Y) + doy
    ensures 0 <= doy <= 365 && (doy == 365 ==> IsLeap(Y + 1))
    ensures 0 <= mp <= 11 && MonthStart(mp) <= doy < MonthStart(mp + 1)
    ensures CivilFromDays(days) == Date(if mp < 10 then Y else Y + 1, if mp < 10 then mp + 3 else mp - 9, doy - MonthStart(mp) + 1)
  {
    hide IsLeap, MarchStart;
    Y, doy := YearParts(days);
    mp := (5 * doy + 2) / 153;
    MonthTable(doy, mp);
  }

  /** Every day number gives a date of the calendar, and counting that date's days gives
      the number back. */
  lemma CivilIsInverse(days: int)
    ensures ValidDate(CivilFromDays(days))
    ensures DaysFromCivil(CivilFromDays(days)) == days
  {
    var Y, doy, mp := CivilParts(days);
    var t := CivilFromDays(days);
    MonthStarts();
    assert ValidDate(t) by {
      assert mp in {0, 1, 2, 3, 4, 5, 6, 7, 8, 9, 10, 11};
    }
    DaysBeforeMonthTable(t.y, t.m);
    MarchYear(t.y);
    MarchYear(Y + 1);
    YearLength(Y);
  }

  lemma YearLength(Y: int)
    ensures MarchStart(Y + 1) - MarchStart(Y) == if IsLeap(Y + 1) then 366 else 365
  {
    MarchYear(Y + 1);
  }

  /** Both copies compute the same date. */
  lemma CopiesAgree(days: int)
    ensures CivilFromDays2(days) == CivilFromDays(days)
  {
  }

  /** Counting is strictly monotone from one day to the next. */
  lemma NextDayCounts(t: Date)
    requires ValidDate(t)
    ensures ValidDate(NextDay(t)) && DaysFromCivil(NextDay(t)) == DaysFromCivil(t) + 1
  {
    if t.m == 12 && t.d == 31 {
      var p := t.y - 1;
      DaysBeforeMonthTable(t.y, 12);
      DivSteps(t.y);
      Divides400(t.y);
    }
  }

  lemma SameYearInjective(a: Date, b: Date)
    requires ValidDate(a) && ValidDate(b) && a.y == b.y
    requires DaysBeforeMonth(a.y, a.m) + a.d == DaysBeforeMonth(b.y, b.m) + b.d
    ensures a == b
  {
    if a.m != b.m {
      MonthsApart(a.y, Min(a.m, b.m), Max(a.m, b.m));
    }
  }

  lemma {:induction false} MonthsApart(y: int, m: int, n: int)
    requires 1 <= m < n <= 12
    ensures DaysBeforeMonth(y, m) + DaysInMonth(y, m) <= DaysBeforeMonth(y, n)
    decreases n
  {
    if m + 1 < n {
      MonthsApart(y, m, n - 1);
    }
  }

  /** Different dates count differently. */
  lemma DaysFromCivilInjective(a: Date, b: Date)
    requires ValidDate(a) && ValidDate(b) && DaysFromCivil(a) == DaysFromCivil(b)
    ensures a == b
  {
    hide DaysBeforeMonth, DaysInMonth;
    YearBounds(a);
    YearBounds(b);
    if a.y < b.y {
      JanuaryMonotone(a.y + 1, b.y);
    } else if b.y < a.y {
      JanuaryMonotone(b.y + 1, a.y);
    } else {
      SameYearInjective(a, b);
    }
  }

  function January(y: int): int {
    var p := y - 1;
    365 * p + p / 4 - p / 100 + p / 400 - 719_162
  }

  lemma {:induction false} JanuaryMonotone(a: int, b: int)
    requires a <= b
    ensures January(a) <= January(b)
    decreases b - a
  {
    if a < b {
      JanuaryMonotone(a, b - 1);
      var p := b - 2;
      assert (p + 1) / 4 >= p / 4 && (p + 1) / 400 >= p / 400 && (p + 1) / 100 <= p / 100 + 1;
    }
  }

  lemma YearBounds(t: Date)
    requires ValidDate(t)
    ensures January(t.y) <= DaysFromCivil(t) < January(t.y + 1)
  {
    DaysBeforeMonthTable(t.y, t.m);
    MonthStarts();
    var p := t.y - 1;
    DivSteps(t.y);
    Divides400(t.y);
  }

  /** And the other way: the algorithm finds every date of the calendar. */
  lemma CivilOfDays(t: Date)
    requires ValidDate(t)
    ensures CivilFromDays(DaysFromCivil(t)) == t
  {
    CivilIsInverse(DaysFromCivil(t));
    DaysFromCivilInjective(CivilFromDays(DaysFromCivil(t)), t);
  }

  lemma EpochIsDayZero()
    ensures CivilFromDays(0) == EPOCH
  {
    hide CivilFromDays;
    CivilOfDays(EPOCH);
    assert DaysFromCivil(EPOCH) == 0;
  }

  /** Day 0 is the epoch and day d+1 is the calendar's next day: together they fix the
      algorithm at every day number, before and after 1970. */
  lemma CivilFollowsCalendar(days: int)
    ensures CivilFromDays(0) == EPOCH
    ensures CivilFromDays(days + 1) == NextDay(CivilFromDays(days))
  {
    hide CivilFromDays, DaysFromCivil, NextDay;
    EpochIsDayZero();
    CivilIsInverse(days);
    NextDayCounts(CivilFromDays(days));
    CivilOfDays(NextDay(CivilFromDays(days)));
  }

  // ---------------------------------------------------------- printed timestamps

  datatype Stamp = Stamp(date: Date, h: int, mi: int, s: int)

  /** A Unix second as `rfc3339` splits it. */
  function StampOf(epoch: int): Stamp {
    var secs := epoch % 86_400;
    Stamp(CivilFromDays(epoch / 86_400), secs / 3600, secs % 3600 / 60, secs % 60)
  }

  /** The printed tuple is a time of the calendar and determines the Unix second. */
  lemma StampDeterminesSecond(epoch: int)
    ensures var t := StampOf(epoch);
      && IsStamp(t)
      && epoch == 86_400 * DaysFromCivil(t.date) + 3600 * t.h + 60 * t.mi + t.s
  {
    hide CivilFromDays, DaysFromCivil, ValidDate;
    CivilIsInverse(epoch / 86_400);
    var secs := epoch % 86_400;
    assert secs == 3600 * (secs / 3600) + secs % 3600;
    assert secs % 3600 == 60 * (secs % 3600 / 60) + secs % 3600 % 60;
    assert secs % 3600 % 60 == secs % 60;
  }

  function Zeros(n: int): string {
    if n <= 0 then "" else "0" + Zeros(n - 1)
  }

  /** `{n:0width}` of an unsigned value. */
  function Pad(n: nat, width: int): string {
    Zeros(width - |Render(n)|) + Render(n)
  }

  /** `{y:04}`: a minus sign counts towards the width. */
  function YearText(y: int): string {
    if y >= 0 then Pad(y, 4) else "-" + Pad(-y, 3)
  }

  predicate IsStamp(t: Stamp) {
    ValidDate(t.date) && 0 <= t.h < 24 && 0 <= t.mi < 60 && 0 <= t.s < 60
  }

  /** Everything after the year: both printers use the same fields, with their own
      separator before the time and their own ending. */
  function StampTail(t: Stamp, mid: string, end: string): string
    requires IsStamp(t)
  {
    "-" + (Pad(t.date.m, 2) + ("-" + (Pad(t.date.d, 2) + (mid + (Pad(t.h, 2) + (":" + (Pad(t.mi, 2) + (":" + (Pad(t.s, 2) + end)))))))))
  }

  /** `rfc3339`: "2026-07-22T14:00:00Z". */
  function Rfc3339(epoch: int): string {
    StampDeterminesSecond(epoch);
    YearText(StampOf(epoch).date.y) + StampTail(StampOf(epoch), "T", "Z")
  }

  /** `format_unix`: "2026-07-22 14:00:00 UTC", from the second copy of the algorithm. */
  function FormatUnix(unix: int): string {
    StampDeterminesSecond(unix);
    CopiesAgree(unix / 86_400);
    var secs := unix % 86_400;
    var t := Stamp(CivilFromDays2(unix / 86_400), secs / 3600, secs % 3600 / 60, secs % 60);
    YearText(t.date.y) + StampTail(t, " ", " UTC")
  }

  lemma {:induction false} ZerosValue(n: int, s: string)
    requires AllDigits(s)
    ensures AllDigits(Zeros(n) + s)
    ensures DigitsValue(Zeros(n) + s) == DigitsValue(s)
    decreases |s|, n
  {
    ZerosAreDigits(n);
    var z := Zeros(n) + s;
    if s != "" {
      ZerosValue(n, s[..|s| - 1]);
      assert z[..|z| - 1] == Zeros(n) + s[..|s| - 1];
    } else if n > 0 {
      assert z == Zeros(n);
      ZerosValue(n - 1, s);
      ZerosEnd(n);
      assert Zeros(n)[..|Zeros(n)| - 1] == Zeros(n - 1) == Zeros(n - 1) + s;
    } else {
      assert z == s;
    }
  }

  lemma {:induction false} ZerosAreDigits(n: int)
    ensures forall i :: 0 <= i < |Zeros(n)| ==> Zeros(n)[i] == '0'
    ensures n >= 0 ==> |Zeros(n)| == n
  {
    if n > 0 {
      ZerosAreDigits(n - 1);
    }
  }

  lemma ZerosEnd(n: int)
    requires n > 0
    ensures Zeros(n) == Zeros(n - 1) + "0"
  {
    ZerosAreDigits(n);
    ZerosAreDigits(n - 1);
    assert |Zeros(n)| == |Zeros(n - 1) + "0"|;
    forall i | 0 <= i < n ensures Zeros(n)[i] == (Zeros(n - 1) + "0")[i] {
      if i < n - 1 { assert (Zeros(n - 1) + "0")[i] == Zeros(n - 1)[i]; }
    }
  }

  /** A padded number reads back, so padding keeps numbers apart. */
  lemma PadValue(n: nat, width: int)
    ensures AllDigits(Pad(n, width))
    ensures DigitsValue(Pad(n, width)) == n && Pad(n, width) != ""
  {
    ZerosValue(width - |Render(n)|, Render(n));
    DigitsValueOfRender(n);
  }

  lemma PadTwo(n: nat)
    requires n < 100
    ensures |Pad(n, 2)| == 2
  {
    ZerosAreDigits(2 - |Render(n)|);
    assert |Render(n)| == if n < 10 then 1 else 2 by {
      if n >= 10 { assert |Render(n / 10)| == 1; }
    }
  }

  lemma YearTextInjective(a: int, b: int)
    requires YearText(a) == YearText(b)
    ensures a == b
  {
    PadValue(if a >= 0 then a else -a, if a >= 0 then 4 else 3);
    PadValue(if b >= 0 then b else -b, if b >= 0 then 4 else 3);
    assert (YearText(a)[0] == '-') == (a < 0);
    assert (YearText(b)[0] == '-') == (b < 0);
    if a < 0 {
      assert Pad(-a, 3) == YearText(a)[1..] && Pad(-b, 3) == YearText(b)[1..];
    }
  }

  lemma SameTail(a: string, x: string, b: string, y: string)
    requires |x| == |y| && a + x == b + y
    ensures a == b && x == y
  {
    assert |a| == |b|;
    assert (a + x)[..|a|] == a && (b + y)[..|b|] == b;
    assert (a + x)[|a|..] == x && (b + y)[|b|..] == y;
  }

  lemma SameTwoDigits(m: nat, x: string, n: nat, y: string)
    requires m < 100 && n < 100 && Pad(m, 2) + x == Pad(n, 2) + y
    ensures m == n && x == y
  {
    PadTwo(m);
    PadTwo(n);
    assert (Pad(m, 2) + x)[..2] == Pad(m, 2) && (Pad(n, 2) + y)[..2] == Pad(n, 2);
    assert (Pad(m, 2) + x)[2..] == x && (Pad(n, 2) + y)[2..] == y;
    PadValue(m, 2);
    PadValue(n, 2);
  }

  lemma SameAfter(p: string, x: string, y: string)
    requires p + x == p + y
    ensures x == y
  {
    assert (p + x)[|p|..] == x && (p + y)[|p|..] == y;
  }

  lemma TailLength(t: Stamp, mid: string, end: string)
    requires IsStamp(t)
    ensures |StampTail(t, mid, end)| == 14 + |mid| + |end|
  {
    PadTwo(t.date.m);
    PadTwo(t.date.d);
    PadTwo(t.h);
    PadTwo(t.mi);
    PadTwo(t.s);
  }

  lemma TailInjective(t: Stamp, u: Stamp, mid: string, end: string)
    requires IsStamp(t) && IsStamp(u) && StampTail(t, mid, end) == StampTail(u, mid, end)
    ensures t.date.m == u.date.m && t.date.d == u.date.d && t.h == u.h && t.mi == u.mi && t.s == u.s
  {
    hide Pad;
    var t5, u5 := Pad(t.s, 2) + end, Pad(u.s, 2) + end;
    var t4, u4 := Pad(t.mi, 2) + (":" + t5), Pad(u.mi, 2) + (":" + u5);
    var t3, u3 := Pad(t.h, 2) + (":" + t4), Pad(u.h, 2) + (":" + u4);
    var t2, u2 := Pad(t.date.d, 2) + (mid + t3), Pad(u.date.d, 2) + (mid + u3);
    var t1, u1 := Pad(t.date.m, 2) + ("-" + t2), Pad(u.date.m, 2) + ("-" + u2);
    SameAfter("-", t1, u1);
    SameTwoDigits(t.date.m, "-" + t2, u.date.m, "-" + u2);
    SameAfter("-", t2, u2);
    SameTwoDigits(t.date.d, mid + t3, u.date.d, mid + u3);
    SameAfter(mid, t3, u3);
    SameTwoDigits(t.h, ":" + t4, u.h, ":" + u4);
    SameAfter(":", t4, u4);
    SameTwoDigits(t.mi, ":" + t5, u.mi, ":" + u5);
    SameAfter(":", t5, u5);
    SameTwoDigits(t.s, end, u.s, end);
  }

  /** Different Unix seconds print differently, in either printer, for all years. */
  lemma PrintedTimeDeterminesSecond(a: int, b: int)
    ensures Rfc3339(a) == Rfc3339(b) <==> a == b
    ensures FormatUnix(a) == FormatUnix(b) <==> a == b
  {
    hide CivilFromDays, CivilFromDays2, YearText, StampTail;
    CopiesAgree(a / 86_400);
    CopiesAgree(b / 86_400);
    StampDeterminesSecond(a);
    StampDeterminesSecond(b);
    if Rfc3339(a) == Rfc3339(b) {
      StampTextInjective(a, b, "T", "Z");
    }
    if FormatUnix(a) == FormatUnix(b) {
      StampTextInjective(a, b, " ", " UTC");
    }
  }

  lemma StampTextInjective(a: int, b: int, mid: string, end: string)
    requires IsStamp(StampOf(a)) && IsStamp(StampOf(b))
    requires YearText(StampOf(a).date.y) + StampTail(StampOf(a), mid, end) == YearText(StampOf(b).date.y) + StampTail(StampOf(b), mid, end)
    ensures a == b
  {
    hide YearText, StampTail, StampOf, IsStamp;
    var t, u := StampOf(a), StampOf(b);
    TailLength(t, mid, end);
    TailLength(u, mid, end);
    SameTail(YearText(t.date.y), StampTail(t, mid, end), YearText(u.date.y), StampTail(u, mid, end));
    YearTextInjective(t.date.y, u.date.y);
    TailInjective(t, u, mid, end);
    StampDeterminesSecond(a);
    StampDeterminesSecond(b);
  }

  // ------------------------------------------------------- the printed positions

  /** At this place two digits stand for the number. */
  predicate Reads(s: string, at: nat, to: nat, n: int)
    requires at <= to <= |s|
  {
    AllDigits(s[at..to]) && DigitsValue(s[at..to]) == n
  }

  /** Date and time stand where ISO 8601 puts them, with this character between them. */
  predicate PrintsAt(s: string, t: Stamp, mid: char) {
    && |s| >= 19 && s[4] == '-' && s[7] == '-' && s[10] == mid && s[13] == ':' && s[16] == ':'
    && Reads(s, 0, 4, t.date.y) && Reads(s, 5, 7, t.date.m) && Reads(s, 8, 10, t.date.d)
    && Reads(s, 11, 13, t.h) && Reads(s, 14, 16, t.mi) && Reads(s, 17, 19, t.s)
  }

  lemma PadFour(n: nat)
    requires n < 10000
    ensures |Pad(n, 4)| == 4
  {
    ZerosAreDigits(4 - |Render(n)|);
    RenderLength(n);
  }

  lemma RenderLength(n: nat)
    requires n < 10000
    ensures |Render(n)| <= 4
  {
    if n >= 10 {
      assert |Render(n)| == |Render(n / 10)| + 1;
      if n >= 100 {
        assert |Render(n / 10)| == |Render(n / 10 / 10)| + 1;
        if n >= 1000 {
          assert |Render(n / 10 / 10)| == |Render(n / 10 / 10 / 10)| + 1;
        }
      }
    }
  }

  /** Two digits at the start of what is left. */
  lemma TwoAt(s: string, at: nat, n: nat, rest: string)
    requires n < 100 && at <= |s| && s[at..] == Pad(n, 2) + rest
    ensures at + 2 <= |s| && Reads(s, at, at + 2, n) && s[at + 2..] == rest
  {
    PadTwo(n);
    PadValue(n, 2);
    hide Pad;
    var p := Pad(n, 2);
    assert |s| - at == |p + rest| == 2 + |rest|;
    assert s[at..at + 2] == s[at..][..2] == (p + rest)[..2] == p;
    assert s[at + 2..] == s[at..][2..] == (p + rest)[2..] == rest;
  }

  lemma OneAt(s: string, at: nat, c: char, rest: string)
    requires at <= |s| && s[at..] == [c] + rest
    ensures at + 1 <= |s| && s[at] == c && s[at + 1..] == rest
  {
    assert |s| - at == |[c] + rest| == 1 + |rest|;
    assert s[at] == s[at..][0];
    assert s[at + 1..] == s[at..][1..] == ([c] + rest)[1..];
  }

  lemma YearAt(s: string, y: nat, rest: string)
    requires y <= 9999 && s == YearText(y) + rest
    ensures 4 <= |s| && Reads(s, 0, 4, y) && s[4..] == rest
  {
    PadFour(y);
    PadValue(y, 4);
    hide Pad;
    assert s[0..4] == Pad(y, 4);
  }

  lemma TailAt(s: string, t: Stamp, mid: char, end: string)
    requires IsStamp(t) && 4 <= |s| && Reads(s, 0, 4, t.date.y) && s[4..] == StampTail(t, [mid], end)
    ensures PrintsAt(s, t, mid) && s[19..] == end
  {
    hide Pad, Reads, ValidDate;
    assert 1 <= t.date.m < 100 && 1 <= t.date.d < 100 by { MonthAndDayAreShort(t.date); }
    var t5 := Pad(t.s, 2) + end;
    var t4 := Pad(t.mi, 2) + (":" + t5);
    var t3 := Pad(t.h, 2) + (":" + t4);
    var t2 := Pad(t.date.d, 2) + ([mid] + t3);
    var t1 := Pad(t.date.m, 2) + ("-" + t2);
    OneAt(s, 4, '-', t1);
    TwoAt(s, 5, t.date.m, "-" + t2);
    OneAt(s, 7, '-', t2);
    TwoAt(s, 8, t.date.d, [mid] + t3);
    OneAt(s, 10, mid, t3);
    TwoAt(s, 11, t.h, ":" + t4);
    OneAt(s, 13, ':', t4);
    TwoAt(s, 14, t.mi, ":" + t5);
    OneAt(s, 16, ':', t5);
    TwoAt(s, 17, t.s, end);
  }

  lemma MonthAndDayAreShort(d: Date)
    requires ValidDate(d)
    ensures 1 <= d.m <= 12 && 1 <= d.d <= 31
  {
  }

  /** The printed times read back by position: year, month, day, hour, minute and second of
      the instant, for every instant of the years 0 to 9999. */
  lemma PrintedByPosition(epoch: int)
    requires 0 <= StampOf(epoch).date.y <= 9999
    ensures |Rfc3339(epoch)| == 20 && PrintsAt(Rfc3339(epoch), StampOf(epoch), 'T') && Rfc3339(epoch)[19] == 'Z'
    ensures |FormatUnix(epoch)| == 23 && PrintsAt(FormatUnix(epoch), StampOf(epoch), ' ') && FormatUnix(epoch)[19..] == " UTC"
  {
    hide CivilFromDays, CivilFromDays2, StampTail, YearText, IsStamp, PrintsAt, Reads;
    var t := StampOf(epoch);
    StampDeterminesSecond(epoch);
    CopiesAgree(epoch / 86_400);
    YearAt(Rfc3339(epoch), t.date.y, StampTail(t, "T", "Z"));
    TailAt(Rfc3339(epoch), t, 'T', "Z");
    YearAt(FormatUnix(epoch), t.date.y, StampTail(t, " ", " UTC"));
    TailAt(FormatUnix(epoch), t, ' ', " UTC");
    LongEnough(Rfc3339(epoch), t, 'T');
    LongEnough(FormatUnix(epoch), t, ' ');
  }

  lemma LongEnough(s: string, t: Stamp, mid: char)
    requires PrintsAt(s, t, mid)
    ensures |s| >= 19
  {
  }
}
