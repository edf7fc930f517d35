/** The UTC month window key (`month_key` in `crates/cloud/src/store.rs`), proved against a
    calendar built day by day. */
module MonthKey {
  import opened Basics
  import opened Decimal

  // ---- the proleptic Gregorian calendar ----

  predicate IsLeap(y: int) {
    y % 4 == 0 && (y % 100 != 0 || y % 400 == 0)
  }

  function LeapDay(y: int): int {
    if IsLeap(y) then 1 else 0
  }

  function DaysInMonth(y: int, m: int): int {
    if m == 2 then 28 + LeapDay(y)
    else if m in {4, 6, 9, 11} then 30
    else 31
  }

  /** Days from 1970-01-01 to the first day of year `y`. */
  function YearStart(y: int): int
    decreases Max(y - 1970, 1970 - y)
  {
    if y == 1970 then 0
    else if y > 1970 then YearStart(y - 1) + 365 + LeapDay(y - 1)
    else YearStart(y + 1) - 365 - LeapDay(y)
  }

  function DaysBeforeMonth(y: int, m: nat): int {
    if m <= 1 then 0 else DaysBeforeMonth(y, m - 1) + DaysInMonth(y, m - 1)
  }

  /** Days from 1970-01-01 to the first day of a month. */
  function MonthStart(y: int, m: nat): int {
    YearStart(y) + DaysBeforeMonth(y, m)
  }

  ghost predicate IsMonthOf(day: int, y: int, m: int) {
    1 <= m <= 12 && MonthStart(y, m) <= day < MonthStart(y, m) + DaysInMonth(y, m)
  }

  // ---- the function ----

  const DAY_MILLIS: int := 86_400_000

  /** Division of machine integers: it truncates toward zero. */
  function TruncDiv(a: int, b: int): int
    requires b > 0
  {
    if a >= 0 then a / b else -((-a) / b)
  }

  datatype Civil = Civil(era: int, doe: int, yoe: int, doy: int, mp: int, year: int, month: int)

  /** The civil-from-days computation, with its intermediates. */
  function CivilFromDays(days: int): Civil {
    var z := days + 719_468;
    var era := TruncDiv(if z >= 0 then z else z - 146_096, 146_097);
    var doe := z - era * 146_097;
    var yoe := TruncDiv(doe - TruncDiv(doe, 1460) + TruncDiv(doe, 36_524) - TruncDiv(doe, 146_096), 365);
    var y := yoe + era * 400;
    var doy := doe - (365 * yoe + TruncDiv(yoe, 4) - TruncDiv(yoe, 100));
    var mp := TruncDiv(5 * doy + 2, 153);
    var m := if mp < 10 then mp + 3 else mp - 9;
    Civil(era, doe, yoe, doy, mp, if m <= 2 then y + 1 else y, m)
  }

  /** `div_euclid` by a positive constant is Dafny's own division. */
  function DayOf(ts: int): int {
    ts / DAY_MILLIS
  }

  function Padded(n: nat, width: nat): string {
    Zeros(Max(width - |Dec(n)|, 0)) + Dec(n)
  }

  /** `{y:04}`: the width counts the sign. */
  function YearText(y: int): string {
    if y < 0 then "-" + Padded(-y, 3) else Padded(y, 4)
  }

  // ---- the era, the year of the era and the day of the year ----

  lemma EraAndDay(days: int)
    ensures var c := CivilFromDays(days);
            0 <= c.doe <= 146_096 && days + 719_468 == 146_097 * c.era + c.doe
  {
  }

  /** Centuries, four-year cycles, years and days within one 400-year era. */
  lemma Decompose(doe: int) returns (c: int, q: int, r: int, d: int)
    requires 0 <= doe <= 146_096
    ensures 0 <= c <= 3 && 0 <= q <= 24 && 0 <= r <= 3 && 0 <= d <= 365
    ensures doe == 36_524 * c + 1461 * q + 365 * r + d
    ensures d == 365 ==> r == 3 && (q < 24 || c == 3)
  {
    c := Min(3, doe / 36_524);
    var inCentury := doe - 36_524 * c;
    q := inCentury / 1461;
    var inCycle := inCentury - 1461 * q;
    r := Min(3, inCycle / 365);
    d := inCycle - 365 * r;
  }

  lemma YearOfEra(doe: int, c: int, q: int, r: int, d: int)
    requires 0 <= c <= 3 && 0 <= q <= 24 && 0 <= r <= 3 && 0 <= d <= 365
    requires doe == 36_524 * c + 1461 * q + 365 * r + d
    requires d == 365 ==> r == 3 && (q < 24 || c == 3)
    ensures (doe - doe / 1460 + doe / 36_524 - doe / 146_096) / 365 == 100 * c + 4 * q + r
  {
    var e := (24 * c + q + 365 * r + d) / 1460;
    assert doe / 1460 == 25 * c + q + e;
    assert 0 <= e <= 1;
    CenturyTerm(doe, c, q, r, d);
    assert 0 <= d - e - 0;
    assert e == 1 ==> d >= 1;
    assert doe - doe / 1460 + c == 365 * (100 * c + 4 * q + r) + (d - e);
    assert 0 <= d - e < 365;
  }

  lemma CenturyTerm(doe: int, c: int, q: int, r: int, d: int)
    requires 0 <= c <= 3 && 0 <= q <= 24 && 0 <= r <= 3 && 0 <= d <= 365
    requires doe == 36_524 * c + 1461 * q + 365 * r + d
    requires d == 365 ==> r == 3 && (q < 24 || c == 3)
    ensures doe / 36_524 - doe / 146_096 == c
  {
    var rest := 1461 * q + 365 * r + d;
    assert 0 <= rest <= 36_524;
    assert rest == 36_524 ==> c == 3;
    if rest < 36_524 {
      assert doe / 36_524 == c;
      assert doe < 146_096;
    } else {
      assert doe == 146_096;
    }
  }

  /** The day of a year counted from 1 March. */
  lemma DayOfYear(days: int)
    ensures var c := CivilFromDays(days);
            && 0 <= c.yoe <= 399 && 0 <= c.doy <= 365
            && c.doe == 365 * c.yoe + c.yoe / 4 - c.yoe / 100 + c.doy
            && (c.doy == 365 ==> IsLeap(c.yoe + c.era * 400 + 1))
  {
    var cc, q, r, d := YearAndDay(days);
    if d == 365 {
      LeapYearEnds(CivilFromDays(days).era, cc, q);
    }
  }

  /** The computed year of the era and day of the year are those of the cycles. */
  lemma YearAndDay(days: int) returns (cc: int, q: int, r: int, d: int)
    ensures var c := CivilFromDays(days);
            && c.yoe == 100 * cc + 4 * q + r && c.doy == d
            && c.doe == 365 * c.yoe + c.yoe / 4 - c.yoe / 100 + c.doy
    ensures 0 <= cc <= 3 && 0 <= q <= 24 && 0 <= r <= 3 && 0 <= d <= 365
    ensures d == 365 ==> r == 3 && (q < 24 || cc == 3)
  {
    EraAndDay(days);
    cc, q, r, d := CyclesGiveTheYear(CivilFromDays(days).doe);
  }

  function YearOf(doe: int): int {
    (doe - doe / 1460 + doe / 36_524 - doe / 146_096) / 365
  }

  lemma CyclesGiveTheYear(doe: int) returns (cc: int, q: int, r: int, d: int)
    requires 0 <= doe <= 146_096
    ensures doe - doe / 1460 + doe / 36_524 - doe / 146_096 >= 0
    ensures YearOf(doe) == 100 * cc + 4 * q + r >= 0
    ensures doe == 365 * YearOf(doe) + YearOf(doe) / 4 - YearOf(doe) / 100 + d
    ensures 0 <= cc <= 3 && 0 <= q <= 24 && 0 <= r <= 3 && 0 <= d <= 365
    ensures d == 365 ==> r == 3 && (q < 24 || cc == 3)
  {
    cc, q, r, d := Decompose(doe);
    YearOfEra(doe, cc, q, r, d);
    CenturyTerm(doe, cc, q, r, d);
    assert doe / 1460 <= doe;
    YearQuotients(cc, q, r);
  }

  lemma YearQuotients(c: int, q: int, r: int)
    requires 0 <= c <= 3 && 0 <= q <= 24 && 0 <= r <= 3
    ensures (100 * c + 4 * q + r) / 4 == 25 * c + q
    ensures (100 * c + 4 * q + r) / 100 == c
  {
  }

  lemma LeapYearEnds(era: int, c: int, q: int)
    requires 0 <= c <= 3 && 0 <= q <= 24 && (q < 24 || c == 3)
    ensures IsLeap(100 * c + 4 * q + 3 + era * 400 + 1)
  {
    var y := 100 * c + 4 * q + 3 + era * 400 + 1;
    assert y == 4 * (100 * era + 25 * c + q + 1);
    if q < 24 {
      assert y == 100 * (4 * era + c) + 4 * (q + 1);
    } else {
      assert y == 400 * (era + 1);
    }
  }

  // ---- against the calendar ----

  function LeapsUpTo(y: int): int {
    y / 4 - y / 100 + y / 400
  }

  lemma QuotientSteps(y: int)
    ensures y / 4 == (y - 1) / 4 + (if y % 4 == 0 then 1 else 0)
    ensures y / 100 == (y - 1) / 100 + (if y % 100 == 0 then 1 else 0)
    ensures y / 400 == (y - 1) / 400 + (if y % 400 == 0 then 1 else 0)
  {
  }

  lemma LeapRuleNests(y: int)
    ensures y % 400 == 0 ==> y % 100 == 0
    ensures y % 100 == 0 ==> y % 4 == 0
  {
  }

  lemma LeapsStep(y: int)
    ensures LeapsUpTo(y) == LeapsUpTo(y - 1) + LeapDay(y)
  {
    QuotientSteps(y);
    LeapRuleNests(y);
  }

  lemma {:induction false} YearStartClosed(y: int)
    ensures YearStart(y) == 365 * (y - 1970) + LeapsUpTo(y - 1) - LeapsUpTo(1969)
    decreases Max(y - 1970, 1970 - y)
  {
    if y > 1970 {
      YearStartClosed(y - 1);
      LeapsStep(y - 1);
    } else if y < 1970 {
      YearStartClosed(y + 1);
      LeapsStep(y);
    }
  }

  /** 1 March of the era's year `yoe`, as a day number. */
  lemma MarchStart(era: int, yoe: int)
    requires 0 <= yoe <= 399
    ensures YearStart(400 * era + yoe) + 59 + LeapDay(400 * era + yoe)
            == 146_097 * era + 365 * yoe + yoe / 4 - yoe / 100 - 719_468
  {
    var y := 400 * era + yoe;
    YearStartClosed(y);
    LeapsStep(y);
    assert LeapsUpTo(1969) == 477;
    assert y / 4 == 100 * era + yoe / 4;
    assert y / 100 == 4 * era + yoe / 100;
    assert y / 400 == era;
  }

  lemma MonthTable(y: int)
    ensures DaysBeforeMonth(y, 1) == 0 && DaysBeforeMonth(y, 2) == 31
    ensures forall m :: 3 <= m <= 12 ==> DaysBeforeMonth(y, m) == LeapDay(y) + 59 + (153 * (m - 3) + 2) / 5
    ensures forall m :: 3 <= m <= 12 ==> (153 * (m - 2) + 2) / 5 == (153 * (m - 3) + 2) / 5 + DaysInMonth(y, m)
  {
    var l := LeapDay(y);
    assert DaysBeforeMonth(y, 1) == 0;
    assert DaysBeforeMonth(y, 2) == 31;
    assert DaysBeforeMonth(y, 3) == 59 + l;
    assert DaysBeforeMonth(y, 4) == 90 + l;
    assert DaysBeforeMonth(y, 5) == 120 + l;
    assert DaysBeforeMonth(y, 6) == 151 + l;
    assert DaysBeforeMonth(y, 7) == 181 + l;
    assert DaysBeforeMonth(y, 8) == 212 + l;
    assert DaysBeforeMonth(y, 9) == 243 + l;
    assert DaysBeforeMonth(y, 10) == 273 + l;
    assert DaysBeforeMonth(y, 11) == 304 + l;
    assert DaysBeforeMonth(y, 12) == 334 + l;
  }

  lemma YearStep(y: int)
    ensures YearStart(y + 1) == YearStart(y) + 365 + LeapDay(y)
  {
    YearStartClosed(y);
    YearStartClosed(y + 1);
    LeapsStep(y);
  }

  /** The computed year and month contain the day, for every day, and every intermediate is
      in the range its comment claims. */
  lemma CivilFromDaysIsCorrect(days: int)
    ensures var c := CivilFromDays(days);
            && IsMonthOf(days, c.year, c.month)
            && 0 <= c.doe <= 146_096 && 0 <= c.yoe <= 399 && 0 <= c.doy <= 365 && 0 <= c.mp <= 11
  {
    var c := CivilFromDays(days);
    EraAndDay(days);
    DayOfYear(days);
    var y := 400 * c.era + c.yoe;
    MarchStart(c.era, c.yoe);
    var march := YearStart(y) + 59 + LeapDay(y);
    assert days == march + c.doy;
    assert c.mp == (5 * c.doy + 2) / 153;
    assert (153 * c.mp + 2) / 5 <= c.doy < (153 * (c.mp + 1) + 2) / 5;
    if c.mp < 10 {
      MonthTable(y);
    } else {
      MonthTable(y + 1);
      YearStep(y);
    }
  }

  // ---- order ----

  predicate Before(y1: int, m1: int, y2: int, m2: int) {
    y1 < y2 || (y1 == y2 && m1 < m2)
  }

  lemma {:induction false} MonthsInYear(y: int, m: nat, n: nat)
    requires 1 <= m < n <= 13
    ensures DaysBeforeMonth(y, m) + DaysInMonth(y, m) <= DaysBeforeMonth(y, n)
    decreases n
  {
    if m < n - 1 {
      MonthsInYear(y, m, n - 1);
    }
  }

  lemma {:induction false} YearsInOrder(y1: int, y2: int)
    requires y1 < y2
    ensures YearStart(y1) + 365 + LeapDay(y1) <= YearStart(y2)
    decreases y2 - y1
  {
    YearStep(y2 - 1);
    if y1 < y2 - 1 {
      YearsInOrder(y1, y2 - 1);
    }
  }

  lemma MonthsInOrder(y1: int, m1: nat, y2: int, m2: nat)
    requires 1 <= m1 <= 12 && 1 <= m2 <= 12 && Before(y1, m1, y2, m2)
    ensures MonthStart(y1, m1) + DaysInMonth(y1, m1) <= MonthStart(y2, m2)
  {
    if y1 < y2 {
      YearsInOrder(y1, y2);
      MonthsInYear(y1, m1, 13);
      MonthTable(y1);
      assert DaysBeforeMonth(y1, 13) == 365 + LeapDay(y1);
      if m2 > 1 {
        MonthsInYear(y2, 1, m2);
      }
    } else {
      MonthsInYear(y1, m1, m2);
    }
  }

  /** The computation inverts the calendar: it finds the only month containing the day. */
  lemma MonthIsUnique(days: int, y: int, m: int)
    ensures IsMonthOf(days, y, m) <==> y == CivilFromDays(days).year && m == CivilFromDays(days).month
  {
    var c := CivilFromDays(days);
    CivilFromDaysIsCorrect(days);
    if IsMonthOf(days, y, m) {
      if Before(y, m, c.year, c.month) {
        MonthsInOrder(y, m, c.year, c.month);
      } else if Before(c.year, c.month, y, m) {
        MonthsInOrder(c.year, c.month, y, m);
      }
    }
  }

  /** Later timestamps never fall in an earlier month. */
  lemma MonthIsMonotone(t1: int, t2: int)
    requires t1 <= t2
    ensures var a, b := CivilFromDays(DayOf(t1)), CivilFromDays(DayOf(t2));
            !Before(b.year, b.month, a.year, a.month)
  {
    var a, b := CivilFromDays(DayOf(t1)), CivilFromDays(DayOf(t2));
    CivilFromDaysIsCorrect(DayOf(t1));
    CivilFromDaysIsCorrect(DayOf(t2));
    if Before(b.year, b.month, a.year, a.month) {
      MonthsInOrder(b.year, b.month, a.year, a.month);
    }
  }

  // ---- the text ----

  lemma PaddedReadsBack(n: nat, width: nat)
    ensures AllDigits(Padded(n, width)) && Value(Padded(n, width)) == n && |Padded(n, width)| >= width
    ensures |Padded(n, width)| > 0
  {
    DecReadsBack(n);
    LeadingZeros(Max(width - |Dec(n)|, 0), Dec(n));
  }

  lemma PaddedInjective(m: nat, n: nat, width: nat)
    ensures Padded(m, width) == Padded(n, width) ==> m == n
  {
    PaddedReadsBack(m, width);
    PaddedReadsBack(n, width);
  }

  lemma YearTextSign(y: int)
    ensures |YearText(y)| > 0 && (YearText(y)[0] == '-' <==> y < 0)
    ensures y < 0 ==> YearText(y)[1..] == Padded(-y, 3)
  {
    PaddedReadsBack(if y < 0 then -y else y, if y < 0 then 3 else 4);
  }

  lemma YearTextInjective(y1: int, y2: int)
    ensures YearText(y1) == YearText(y2) ==> y1 == y2
  {
    YearTextSign(y1);
    YearTextSign(y2);
    if y1 < 0 && y2 < 0 {
      PaddedInjective(-y1, -y2, 3);
    } else if y1 >= 0 && y2 >= 0 {
      PaddedInjective(y1, y2, 4);
    }
  }

  lemma TwoDigits(m: nat)
    requires 1 <= m <= 12
    ensures |Padded(m, 2)| == 2
  {
    if m < 10 {
      assert Dec(m) == [Digit(m)];
    } else {
      assert Dec(m) == Dec(m / 10) + [Digit(m % 10)];
      assert Dec(m / 10) == [Digit(m / 10)];
    }
  }

  function KeyOf(ts: int): string {
    var c := CivilFromDays(DayOf(ts));
    CivilFromDaysIsCorrect(DayOf(ts));
    YearText(c.year) + "-" + Padded(c.month, 2)
  }

  /** Two timestamps share a key exactly when they share a year and month. */
  lemma KeyNamesTheMonth(t1: int, t2: int)
    ensures var a, b := CivilFromDays(DayOf(t1)), CivilFromDays(DayOf(t2));
            KeyOf(t1) == KeyOf(t2) <==> a.year == b.year && a.month == b.month
  {
    var a, b := CivilFromDays(DayOf(t1)), CivilFromDays(DayOf(t2));
    CivilFromDaysIsCorrect(DayOf(t1));
    CivilFromDaysIsCorrect(DayOf(t2));
    TwoDigits(a.month);
    TwoDigits(b.month);
    PaddedReadsBack(a.month, 2);
    PaddedReadsBack(b.month, 2);
    if KeyOf(t1) == KeyOf(t2) {
      var k, l := KeyOf(t1), KeyOf(t2);
      assert k[..|k| - 3] == YearText(a.year) && k[|k| - 2..] == Padded(a.month, 2);
      assert l[..|l| - 3] == YearText(b.year) && l[|l| - 2..] == Padded(b.month, 2);
      YearTextInjective(a.year, b.year);
    }
  }

  lemma PaddedWidth(n: nat, width: nat)
    ensures |Padded(n, width)| == Max(width, |Dec(n)|)
    ensures width >= 1 && |Padded(n, width)| > width ==> Padded(n, width)[0] != '0'
  {
    DecReadsBack(n);
    if |Dec(n)| > width {
      assert Padded(n, width) == Dec(n);
    }
  }

  /** The key spells year `y`: in full, with at least four places counting the sign. */
  ghost predicate SpellsYear(text: string, y: int) {
    var digits := if y < 0 then text[if text == "" then 0 else 1..] else text;
    && |text| >= 4 && (y < 0 ==> text[0] == '-')
    && AllDigits(digits) && Value(digits) == (if y < 0 then -y else y)
    && (|text| > 4 ==> digits[0] != '0')
  }

  lemma YearTextSpells(y: int)
    ensures SpellsYear(YearText(y), y)
  {
    var n, width := if y < 0 then -y else y, if y < 0 then 3 else 4;
    PaddedReadsBack(n, width);
    PaddedWidth(n, width);
  }

  /** What the key says: the year, a hyphen and two digits for the month, of the month
      that contains the day of the timestamp, a day being 86,400,000 milliseconds. */
  lemma KeySpellsTheMonth(ts: int, day: int, y: int, m: int)
    requires 86_400_000 * day <= ts < 86_400_000 * (day + 1) && IsMonthOf(day, y, m)
    ensures var k := KeyOf(ts); var n := |k|;
            && n >= 7 && SpellsYear(k[..n - 3], y) && k[n - 3] == '-'
            && AllDigits(k[n - 2..]) && Value(k[n - 2..]) == m
  {
    var k, n := KeyOf(ts), |KeyOf(ts)|;
    assert DayOf(ts) == day;
    MonthIsUnique(day, y, m);
    TwoDigits(m);
    PaddedReadsBack(m, 2);
    YearTextSpells(y);
    assert k[..n - 3] == YearText(y) && k[n - 2..] == Padded(m, 2);
  }

  /** A month is one stretch of time: a moment between two moments of a month is in it. */
  lemma MonthIsOneStretch(t1: int, t2: int, t3: int)
    requires t1 <= t2 <= t3 && KeyOf(t1) == KeyOf(t3)
    ensures KeyOf(t2) == KeyOf(t1)
  {
    KeyNamesTheMonth(t1, t3);
    KeyNamesTheMonth(t1, t2);
    MonthIsMonotone(t1, t2);
    MonthIsMonotone(t2, t3);
  }
}
