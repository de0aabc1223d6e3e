/**
 Broken-down dates and their Julian day numbers, as the library moves and compares
 times: every date has one number, consecutive days have consecutive numbers, and the
 way back from a number finds the date again.
 */
module Calendar {
  import opened Wrappers

  datatype Tm = Tm(year: nat, month: nat, day: nat, hour: nat, minute: nat, second: nat)

  predicate LeapYear(y: int) {
    y % 400 == 0 || (y % 100 != 0 && y % 4 == 0)
  }

  function MonthDays(y: int, m: nat): nat {
    if m == 2 then (if LeapYear(y) then 29 else 28)
    else if m == 4 || m == 6 || m == 9 || m == 11 then 30
    else 31
  }

  predicate ValidTm(t: Tm) {
    && t.year <= 9999
    && 1 <= t.month <= 12
    && 1 <= t.day <= MonthDays(t.year, t.month)
    && t.hour <= 23 && t.minute <= 59 && t.second <= 59
  }

  /** A reading of the clock. */
  type Date = t: Tm | ValidTm(t) witness Tm(1970, 1, 1, 0, 0, 0)

  // ----- Julian days (date_to_julian, julian_to_date) -----

  /** A day of the calendar, from March of the year 4800 before year 0 on. */
  datatype Day = Day(year: int, month: nat, day: nat)

  predicate ValidDay(d: Day) {
    && 1 <= d.month <= 12 && 1 <= d.day <= MonthDays(d.year, d.month)
    && (d.year > -4800 || (d.year == -4800 && d.month >= 3))
  }

  function ToJulian(d: Day): int {
    var a := if d.month <= 2 then -1 else 0;
    (1461 * (d.year + 4800 + a)) / 4 + (367 * (d.month - 2 - 12 * a)) / 12
    - (3 * ((d.year + 4900 + a) / 100)) / 4 + d.day - 32075
  }

  function FromJulian(jd: int): (int, int, int) {
    var l := jd + 68569;
    var n := (4 * l) / 146097;
    var l2 := l - (146097 * n + 3) / 4;
    var i := (4000 * (l2 + 1)) / 1461001;
    var l3 := l2 - (1461 * i) / 4 + 31;
    var j := (80 * l3) / 2447;
    var l4 := j / 11;
    (100 * (n - 49) + i + l4, j + 2 - 12 * l4, l3 - (2447 * j) / 80)
  }

  // ----- moving and comparing (OPENSSL_gmtime_adj, OPENSSL_gmtime_diff) -----

  function DayOf(t: Tm): Day { Day(t.year, t.month, t.day) }

  function SecondOfDay(t: Tm): nat { 3600 * t.hour + 60 * t.minute + t.second }

  /** Division that rounds towards zero. */
  function Quotient(a: int, b: int): int
    requires b > 0
  {
    if a >= 0 then a / b else -((-a) / b)
  }

  /** `julian_adj`: the Julian day and the second of that day, `offset` seconds later. */
  function JulianAdj(t: Tm, offset: int): (int, int) {
    var days := Quotient(offset, 86400);
    var sec := offset - 86400 * days + SecondOfDay(t);
    var jd := ToJulian(DayOf(t)) + days;
    if sec >= 86400 then (jd + 1, sec - 86400)
    else if sec < 0 then (jd - 1, sec + 86400)
    else (jd, sec)
  }

  /** The date `offset` seconds later; None outside the years 1900 to 9999. */
  function Adjust(t: Tm, offset: int): Option<Tm>
    requires ValidTm(t)
  {
    var (jd, sec) := JulianAdj(t, offset);
    if jd < 0 then None
    else
      var (y, m, d) := FromJulian(jd);
      if y < 1900 || y > 9999 then None
      else
        FromJulianIsDay(jd);
        JulianAdjExact(t, offset);
        Some(Tm(y, m, d, sec / 3600, (sec / 60) % 60, sec % 60))
  }

  /** Days and seconds from one time to another, of equal sign. */
  function Diff(from: Tm, to: Tm): (int, int) {
    var day, sec := ToJulian(DayOf(to)) - ToJulian(DayOf(from)), SecondOfDay(to) - SecondOfDay(from);
    if day > 0 && sec < 0 then (day - 1, sec + 86400)
    else if day < 0 && sec > 0 then (day + 1, sec - 86400)
    else (day, sec)
  }

  /** `ASN1_TIME_compare` of two broken-down times. */
  function Compare(a: Tm, b: Tm): int {
    var (day, sec) := Diff(b, a);
    if day > 0 || sec > 0 then 1 else if day < 0 || sec < 0 then -1 else 0
  }

  /** Seconds on one line for all times. */
  function Seconds(t: Tm): int {
    86400 * ToJulian(DayOf(t)) + SecondOfDay(t)
  }

  // ----- consecutive days -----

  function NextDay(d: Day): Day {
    if d.day < MonthDays(d.year, d.month) then d.(day := d.day + 1)
    else if d.month < 12 then Day(d.year, d.month + 1, 1)
    else Day(d.year + 1, 1, 1)
  }

  lemma FourYears(y: int)
    requires y >= -4800
    ensures (1461 * (y + 4800)) / 4 - (1461 * (y + 4799)) / 4 == 365 + (if y % 4 == 0 then 1 else 0)
  {
  }

  lemma Century(y: int)
    requires y >= -4800
    ensures (3 * ((y + 4900) / 100)) / 4 - (3 * ((y + 4899) / 100)) / 4
         == if y % 100 == 0 && y % 400 != 0 then 1 else 0
  {
    var c := y / 100;
    assert (y + 4900) / 100 == c + 49;
    assert (y + 4899) / 100 == if y % 100 == 0 then c + 48 else c + 49;
    assert y % 100 == 0 ==> (y % 400 == 0 <==> c % 4 == 0);
  }

  lemma AboutMarch(y: int)
    ensures ToJulian(Day(y, 2, 1)) == (1461 * (y + 4799)) / 4 + 367 - (3 * ((y + 4899) / 100)) / 4 - 32074
    ensures ToJulian(Day(y, 3, 1)) == (1461 * (y + 4800)) / 4 + 30 - (3 * ((y + 4900) / 100)) / 4 - 32074
  {
  }

  /** The last day of February is followed by the first of March. */
  lemma LeapStep(y: int)
    requires y >= -4800
    ensures ToJulian(Day(y, 3, 1)) == ToJulian(Day(y, 2, 1)) + MonthDays(y, 2)
  {
    FourYears(y);
    Century(y);
    AboutMarch(y);
    LeapDays(y);
  }

  lemma LeapDays(y: int)
    ensures MonthDays(y, 2) == 28 + (if y % 4 == 0 then 1 else 0) - (if y % 100 == 0 && y % 400 != 0 then 1 else 0)
  {
  }

  /** The first of the next month comes as many days later as the month has. */
  lemma MonthStep(y: int, m: nat)
    requires 1 <= m <= 12 && y >= -4800
    ensures ToJulian(if m == 12 then Day(y + 1, 1, 1) else Day(y, m + 1, 1))
         == ToJulian(Day(y, m, 1)) + MonthDays(y, m)
  {
    if m == 2 { LeapStep(y); }
    else if m == 12 { YearStep(y); }
  }

  /** The last day of December is followed by the first of January. */
  lemma YearStep(y: int)
    ensures ToJulian(Day(y + 1, 1, 1)) == ToJulian(Day(y, 12, 1)) + 31
  {
  }

  /** The next calendar day has the next number. */
  lemma NextDayExact(d: Day)
    requires ValidDay(d)
    ensures ValidDay(NextDay(d)) && ToJulian(NextDay(d)) == ToJulian(d) + 1
  {
    MonthStep(d.year, d.month);
    WithinMonth(d);
    WithinMonth(NextDay(d));
  }

  lemma WithinMonth(d: Day)
    ensures ToJulian(d) == ToJulian(d.(day := 1)) + d.day - 1
  {
  }

  // ----- the way back -----

  /** The date counted from March: the year since 4800 before year 0, and the month. */
  ghost predicate FromMarch(d: Day, y0: nat, m0: nat) {
    && 1 <= m0 <= 12
    && y0 == d.year + 4800 - (if d.month <= 2 then 1 else 0)
    && m0 == d.month - 2 + (if d.month <= 2 then 12 else 0)
  }

  /** The number of a day in a year that starts in March. */
  function InYear(m0: nat, d: nat): int { (367 * m0) / 12 + d - 30 }

  lemma CenturyPart(c: nat, r: nat, w: int)
    requires r < 100 && 1 <= w <= 366 && (w == 366 ==> r % 4 == 3 && (r == 99 ==> c % 4 == 0))
    ensures var l := 36525 * c - (3 * c) / 4 + (1461 * r) / 4 + w - 1;
      (4 * l) / 146097 == c && l - (146097 * c + 3) / 4 == (1461 * r) / 4 + w - 1
  {
    var v := (1461 * r) / 4 + w - 1;
    assert (146097 * c + 3) / 4 == 36525 * c - (3 * c) / 4;
    var e := 4 * ((146097 * c + 3) / 4) - 146097 * c;
    assert 0 <= e <= 3 && (c % 4 == 0 ==> e == 0);
    assert 0 <= v && 4 * v + e < 146097;
  }

  lemma YearPart(r: nat, w: int)
    requires r < 100 && 1 <= w <= 366 && (w == 366 ==> r % 4 == 3)
    ensures (4000 * ((1461 * r) / 4 + w)) / 1461001 == r
  {
    var q := (1461 * r) / 4;
    assert 1461 * r - 3 <= 4 * q <= 1461 * r;
    assert r % 4 == 3 ==> 4 * q == 1461 * r - 3;
    assert 1461001 * r <= 4000 * (q + w) < 1461001 * (r + 1);
  }

  lemma MonthPart(m0: nat, d: nat)
    requires 1 <= m0 <= 12 && 1 <= d <= 31 && (m0 in {2, 4, 7, 9} ==> d <= 30) && (m0 == 12 ==> d <= 29)
    ensures var l := (367 * m0) / 12 + d; (80 * l) / 2447 == m0 && l - (2447 * m0) / 80 == d
  {
  }

  lemma InYearBounds(d: Day, y0: nat, m0: nat)
    requires ValidDay(d) && FromMarch(d, y0, m0)
    ensures (m0 in {2, 4, 7, 9} ==> d.day <= 30) && (m0 == 12 ==> d.day <= 29)
    ensures var c, r, w := y0 / 100 + 1, y0 % 100, InYear(m0, d.day);
      1 <= w <= 366 && (w == 366 ==> r % 4 == 3 && (r == 99 ==> c % 4 == 0))
  {
  }

  lemma JulianParts(d: Day, y0: nat, m0: nat)
    requires ValidDay(d) && FromMarch(d, y0, m0)
    ensures var c, r := y0 / 100 + 1, y0 % 100;
      ToJulian(d) + 68569 == 36525 * c - (3 * c) / 4 + (1461 * r) / 4 + InYear(m0, d.day) - 1
  {
    var c, r := y0 / 100 + 1, y0 % 100;
    assert (1461 * y0) / 4 == 36525 * (c - 1) + (1461 * r) / 4;
    assert (y0 + 100) / 100 == c;
  }

  lemma FromParts(jd: int, c: nat, r: nat, m0: nat, d: nat)
    requires var l2 := jd + 68569 - (146097 * c + 3) / 4;
      && (4 * (jd + 68569)) / 146097 == c
      && l2 == (1461 * r) / 4 + InYear(m0, d) - 1 && (4000 * (l2 + 1)) / 1461001 == r
    requires var l := (367 * m0) / 12 + d; (80 * l) / 2447 == m0 && l - (2447 * m0) / 80 == d
    ensures FromJulian(jd) == (100 * (c - 49) + r + m0 / 11, m0 + 2 - 12 * (m0 / 11), d as int)
  {
  }

  /** Converting a day to its number and back gives the day. */
  lemma FromToJulian(d: Day)
    requires ValidDay(d)
    ensures FromJulian(ToJulian(d)) == (d.year, d.month as int, d.day as int)
  {
    var y0, m0 := d.year + 4800 - (if d.month <= 2 then 1 else 0), d.month - 2 + (if d.month <= 2 then 12 else 0);
    assert FromMarch(d, y0, m0);
    FromToParts(d, y0, m0);
    assert m0 / 11 == if d.month <= 2 then 1 else 0;
  }

  lemma FromToParts(d: Day, y0: nat, m0: nat)
    requires ValidDay(d) && FromMarch(d, y0, m0)
    ensures FromJulian(ToJulian(d)) == (y0 - 4800 + m0 / 11, m0 + 2 - 12 * (m0 / 11), d.day as int)
  {
    var c, r, w := y0 / 100 + 1, y0 % 100, InYear(m0, d.day);
    InYearBounds(d, y0, m0);
    JulianParts(d, y0, m0);
    MonthPart(m0, d.day);
    CenturyPart(c, r, w);
    YearPart(r, w);
    FromParts(ToJulian(d), c, r, m0, d.day);
  }

  const FirstDay := Day(-4800, 3, 1)

  /** Every number from the first day on belongs to a day. */
  lemma {:induction false} DayWith(jd: int) returns (d: Day)
    requires jd >= ToJulian(FirstDay)
    ensures ValidDay(d) && ToJulian(d) == jd
    decreases jd - ToJulian(FirstDay)
  {
    if jd == ToJulian(FirstDay) {
      d := FirstDay;
    } else {
      var e := DayWith(jd - 1);
      NextDayExact(e);
      d := NextDay(e);
    }
  }

  lemma FromJulianIsDay(jd: int)
    requires jd >= 0
    ensures var (y, m, d) := FromJulian(jd); m >= 0 && d >= 0 && ValidDay(Day(y, m, d)) && ToJulian(Day(y, m, d)) == jd
  {
    var d := DayWith(jd);
    FromToJulian(d);
  }

  // ----- order -----

  /** Field by field, from the year down. */
  predicate DayBefore(a: Day, b: Day) {
    a.year < b.year || (a.year == b.year && (a.month < b.month || (a.month == b.month && a.day < b.day)))
  }

  lemma {:induction false} MonthOrder(y: int, m: nat, y2: int, m2: nat)
    requires 1 <= m <= 12 && 1 <= m2 <= 12 && y >= -4800 && (y < y2 || (y == y2 && m < m2))
    ensures ToJulian(Day(y, m, 1)) + MonthDays(y, m) <= ToJulian(Day(y2, m2, 1))
    decreases 12 * (y2 - y) + m2 - m
  {
    MonthStep(y, m);
    var y1, m1 := if m == 12 then y + 1 else y, if m == 12 then 1 else m + 1;
    if (y1, m1) != (y2, m2) { MonthOrder(y1, m1, y2, m2); }
  }

  lemma DayOrder(a: Day, b: Day)
    requires ValidDay(a) && ValidDay(b) && DayBefore(a, b)
    ensures ToJulian(a) < ToJulian(b)
  {
    WithinMonth(a);
    WithinMonth(b);
    if a.year != b.year || a.month != b.month { MonthOrder(a.year, a.month, b.year, b.month); }
  }

  predicate NotAfter(a: Tm, b: Tm) {
    || DayBefore(DayOf(a), DayOf(b))
    || (DayOf(a) == DayOf(b) && (a.hour < b.hour
        || (a.hour == b.hour && (a.minute < b.minute || (a.minute == b.minute && a.second <= b.second)))))
  }

  lemma ClockOrder(a: Tm, b: Tm)
    requires ValidTm(a) && ValidTm(b)
    ensures SecondOfDay(a) < 86400
    ensures DayOf(a) == DayOf(b) ==> (NotAfter(a, b) <==> SecondOfDay(a) <= SecondOfDay(b))
  {
  }

  /** Seconds order times as their fields do. */
  lemma SecondsOrder(a: Tm, b: Tm)
    requires ValidTm(a) && ValidTm(b)
    ensures Seconds(a) <= Seconds(b) <==> NotAfter(a, b)
    ensures Seconds(a) == Seconds(b) <==> a == b
  {
    var x, y := DayOf(a), DayOf(b);
    ClockOrder(a, b);
    ClockOrder(b, a);
    if DayBefore(x, y) { DayOrder(x, y); } else if DayBefore(y, x) { DayOrder(y, x); }
  }

  /** The difference has one sign and is the distance in seconds, so comparing compares the fields. */
  lemma CompareExact(a: Tm, b: Tm)
    requires ValidTm(a) && ValidTm(b)
    ensures var (day, sec) := Diff(a, b); 86400 * day + sec == Seconds(b) - Seconds(a)
    ensures Compare(a, b) <= 0 <==> NotAfter(a, b)
    ensures Compare(a, b) == 0 <==> a == b
  {
    ClockOrder(a, b);
    ClockOrder(b, a);
    SecondsOrder(a, b);
  }

  lemma JulianAdjExact(t: Tm, offset: int)
    requires ValidTm(t)
    ensures var (jd, sec) := JulianAdj(t, offset); 0 <= sec < 86400 && 86400 * jd + sec == Seconds(t) + offset
  {
    ClockOrder(t, t);
  }

  lemma AdjustGives(t: Tm, offset: int)
    requires ValidTm(t) && Adjust(t, offset).Some?
    ensures var u := Adjust(t, offset).value; ValidTm(u) && u.year >= 1900 && Seconds(u) == Seconds(t) + offset
  {
    var (jd, sec) := JulianAdj(t, offset);
    JulianAdjExact(t, offset);
    FromJulianIsDay(jd);
    ClockParts(sec);
  }

  lemma AdjustSucceeds(t: Tm, offset: int, u: Tm)
    requires ValidTm(t) && ValidTm(u) && u.year >= 1900 && Seconds(u) == Seconds(t) + offset
    ensures Adjust(t, offset).Some?
  {
    var (jd, sec) := JulianAdj(t, offset);
    JulianAdjExact(t, offset);
    ClockOrder(u, u);
    assert ToJulian(DayOf(u)) == jd;
    Modern(u);
    FromToJulian(DayOf(u));
  }

  /** Moving a time gives exactly the date that many seconds later, if it lies in 1900 to 9999. */
  lemma AdjustExact(t: Tm, offset: int, u: Tm)
    requires ValidTm(t)
    ensures Adjust(t, offset) == Some(u) <==> ValidTm(u) && u.year >= 1900 && Seconds(u) == Seconds(t) + offset
  {
    if ValidTm(u) && u.year >= 1900 && Seconds(u) == Seconds(t) + offset { AdjustSucceeds(t, offset, u); }
    if Adjust(t, offset).Some? {
      AdjustGives(t, offset);
      if ValidTm(u) { SecondsOrder(u, Adjust(t, offset).value); }
    }
  }

  /** From 1900 on Julian days are positive. */
  lemma Modern(u: Tm)
    requires ValidTm(u) && u.year >= 1900
    ensures ToJulian(DayOf(u)) > 0
  {
    if DayOf(u) != Day(1900, 1, 1) { DayOrder(Day(1900, 1, 1), DayOf(u)); }
  }

  lemma ClockParts(sec: int)
    requires 0 <= sec < 86400
    ensures sec / 3600 <= 23 && 3600 * (sec / 3600) + 60 * ((sec / 60) % 60) + sec % 60 == sec
  {
  }
}
