/**
 ASN.1 times as the `ca` program stores and reads them: UTCTime with a two-digit
 year for 1950 to 2049, GeneralizedTime with a four-digit year otherwise.
 */
module Asn1Time {
  import opened Wrappers
  import opened Calendar

  datatype Kind = Utc | Generalized

  /** A parsed time: broken-down fields and the offset that leads back to UTC, in seconds. */
  datatype Stamp = Stamp(tm: Date, offset: int)

  /** The years a two-digit UTCTime can express. */
  predicate UtcYear(y: nat) {
    1950 <= y <= 2049
  }

  // ----- printing (ossl_asn1_time_from_tm with an undefined type) -----

  function Pad2(n: nat): (s: string)
    requires n <= 99
    ensures |s| == 2 && IsDigit(s[0]) && IsDigit(s[1])
    ensures 10 * DigitOf(s[0]) + DigitOf(s[1]) == n
  {
    ['0' + (n / 10) as char, '0' + (n % 10) as char]
  }

  function Clock(t: Tm): (s: string)
    requires ValidTm(t)
    ensures |s| == 11 && s[10] == 'Z'
  {
    Pad2(t.month) + Pad2(t.day) + Pad2(t.hour) + Pad2(t.minute) + Pad2(t.second) + "Z"
  }

  function FormatAs(k: Kind, t: Tm): (s: string)
    requires ValidTm(t)
  {
    match k
    case Utc => Pad2(t.year % 100) + Clock(t)
    case Generalized => Pad2(t.year / 100) + Pad2(t.year % 100) + Clock(t)
  }

  /** The text of a time of day: the year decides between the two kinds. */
  function Format(t: Tm): string
    requires ValidTm(t)
  {
    FormatAs(if UtcYear(t.year) then Utc else Generalized, t)
  }

  // ----- reading (ossl_asn1_time_to_tm, not in strict mode) -----

  predicate IsDigit(c: char) { '0' <= c <= '9' }

  function DigitOf(c: char): (d: nat)
    requires IsDigit(c)
    ensures d <= 9
  {
    (c - '0') as nat
  }

  /** The two-digit field at `o`, which must lie in the range and not end the text. */
  function Field(s: string, o: nat, lo: nat, hi: nat): (r: Option<nat>)
    ensures r.Some? ==> lo <= r.value <= hi && o + 2 < |s|
    ensures r.Some? ==> IsDigit(s[o]) && IsDigit(s[o + 1])
  {
    if o + 2 < |s| && IsDigit(s[o]) && IsDigit(s[o + 1]) then
      var n := 10 * DigitOf(s[o]) + DigitOf(s[o + 1]);
      if lo <= n <= hi then Some(n) else None
    else
      None
  }

  /** The year and the position after it. */
  function ParseYear(k: Kind, s: string): (r: Option<(nat, nat)>)
    ensures r.Some? ==> r.value.0 <= 9999 && r.value.1 < |s|
  {
    match k
    case Utc =>
      (match Field(s, 0, 0, 99)
       case None => None
       case Some(n) => Some((if n < 50 then 2000 + n else 1900 + n, 2)))
    case Generalized =>
      (match (Field(s, 0, 0, 99), Field(s, 2, 0, 99))
       case (Some(c), Some(n)) => Some((100 * c + n, 4))
       case _ => None)
  }

  /** The seconds, which may be absent when a time zone follows the minutes. */
  function ParseSeconds(s: string, o: nat): (r: Option<(nat, nat)>)
    requires o < |s|
    ensures r.Some? ==> r.value.0 <= 59 && o <= r.value.1 < |s|
  {
    if s[o] == 'Z' || s[o] == '+' || s[o] == '-' then Some((0, o))
    else
      match Field(s, o, 0, 59)
      case None => None
      case Some(n) => Some((n, o + 2))
  }

  function SkipDigits(s: string, o: nat): (e: nat)
    requires o <= |s|
    ensures o <= e <= |s|
    decreases |s| - o
  {
    if o < |s| && IsDigit(s[o]) then SkipDigits(s, o + 1) else o
  }

  /** The position after optional fractional seconds, which only GeneralizedTime has. */
  function SkipFraction(k: Kind, s: string, o: nat): (r: Option<nat>)
    requires o < |s|
    ensures r.Some? ==> o <= r.value < |s|
  {
    if k.Generalized? && s[o] == '.' then
      var e := SkipDigits(s, o + 1);
      if e == o + 1 || e == |s| then None else Some(e)
    else
      Some(o)
  }

  /** The time zone must end the text: `Z`, or a sign with hours and minutes. */
  function ParseZone(s: string, o: nat): (r: Option<int>)
    requires o < |s|
    ensures r.Some? ==> -86400 < r.value < 86400
  {
    if s[o] == 'Z' then (if o + 1 == |s| then Some(0) else None)
    else if (s[o] == '+' || s[o] == '-') && o + 5 == |s| then
      var t := s + "\0";
      match (Field(t, o + 1, 0, 12), Field(t, o + 3, 0, 59))
      case (Some(h), Some(m)) =>
        var offset: int := 3600 * h + 60 * m;
        Some(if s[o] == '-' then offset else -offset)
      case _ => None
    else None
  }

  function Parse(k: Kind, s: string): (r: Option<Stamp>)
    ensures r.Some? ==> -86400 < r.value.offset < 86400
  {
    if |s| < (if k.Utc? then 13 else 15) then None else
    match ParseYear(k, s)
    case None => None
    case Some((year, o)) => ParseClock(k, s, year, o)
  }

  /** The fields after the year, which start at `o`. */
  function ParseClock(k: Kind, s: string, year: nat, o: nat): (r: Option<Stamp>)
    requires year <= 9999
    ensures r.Some? ==> -86400 < r.value.offset < 86400
  {
    match (Field(s, o, 1, 12), Field(s, o + 4, 0, 23), Field(s, o + 6, 0, 59))
    case (Some(month), Some(hour), Some(minute)) =>
      (match (Field(s, o + 2, 1, MonthDays(year, month)), ParseSeconds(s, o + 8))
       case (Some(day), Some((second, p))) =>
         (match ParseRest(k, s, p)
          case None => None
          case Some(offset) => Some(Stamp(Tm(year, month, day, hour, minute, second), offset)))
       case _ => None)
    case _ => None
  }

  /** The fraction and the time zone. */
  function ParseRest(k: Kind, s: string, p: nat): (r: Option<int>)
    requires p < |s|
    ensures r.Some? ==> -86400 < r.value < 86400
  {
    match SkipFraction(k, s, p)
    case None => None
    case Some(z) => ParseZone(s, z)
  }

  /** `ASN1_TIME_set_string`: UTCTime is tried first. */
  function ParseTime(s: string): Option<Stamp> {
    var u := Parse(Utc, s);
    if u.Some? then u else Parse(Generalized, s)
  }

  // ----- the date meant -----

  /** The date in UTC; None when an offset leads out of the years 1900 to 9999. */
  function Denoted(s: Stamp): Option<Tm> {
    if s.offset == 0 then Some(s.tm) else Adjust(s.tm, s.offset)
  }

  /** The date a stamp means: the one printed, or the one that many seconds later. */
  ghost predicate Denotes(s: Stamp, u: Tm) {
    ValidTm(u) && if s.offset == 0 then u == s.tm else u.year >= 1900 && Seconds(u) == Seconds(s.tm) + s.offset
  }

  lemma DenotedExact(s: Stamp, u: Tm)
    ensures Denoted(s) == Some(u) <==> Denotes(s, u)
  {
    if s.offset != 0 { AdjustExact(s.tm, s.offset, u); }
  }

  // ----- properties -----

  lemma FieldOfPad2(a: string, n: nat, b: string, o: nat, lo: nat, hi: nat)
    requires n <= 99 && lo <= n <= hi && b != "" && o == |a|
    ensures Field(a + Pad2(n) + b, o, lo, hi) == Some(n)
  {
    var s := a + Pad2(n) + b;
    assert s[o] == Pad2(n)[0] && s[o + 1] == Pad2(n)[1];
  }

  /** The month, day, hour, minute, second and zone of a printed time read back. */
  lemma ClockReadsBack(y: string, t: Tm, o: nat)
    requires ValidTm(t) && o == |y|
    ensures var s := y + Clock(t);
      && Field(s, o, 1, 12) == Some(t.month)
      && Field(s, o + 2, 1, MonthDays(t.year, t.month)) == Some(t.day)
      && Field(s, o + 4, 0, 23) == Some(t.hour)
      && Field(s, o + 6, 0, 59) == Some(t.minute)
      && Field(s, o + 8, 0, 59) == Some(t.second)
      && |s| == o + 11 && s[o + 10] == 'Z'
  {
    var m, d, h, i, z := Pad2(t.month), Pad2(t.day), Pad2(t.hour), Pad2(t.minute), Pad2(t.second);
    var s := y + Clock(t);
    assert s == y + Pad2(t.month) + (d + h + i + z + "Z");
    FieldOfPad2(y, t.month, d + h + i + z + "Z", o, 1, 12);
    assert s == (y + m) + Pad2(t.day) + (h + i + z + "Z");
    FieldOfPad2(y + m, t.day, h + i + z + "Z", o + 2, 1, MonthDays(t.year, t.month));
    assert s == (y + m + d) + Pad2(t.hour) + (i + z + "Z");
    FieldOfPad2(y + m + d, t.hour, i + z + "Z", o + 4, 0, 23);
    assert s == (y + m + d + h) + Pad2(t.minute) + (z + "Z");
    FieldOfPad2(y + m + d + h, t.minute, z + "Z", o + 6, 0, 59);
    assert s == (y + m + d + h + i) + Pad2(t.second) + "Z";
    FieldOfPad2(y + m + d + h + i, t.second, "Z", o + 8, 0, 59);
  }

  lemma YearReadsBack(k: Kind, t: Tm)
    requires ValidTm(t) && (k.Utc? ==> UtcYear(t.year))
    ensures ParseYear(k, FormatAs(k, t)) == Some((t.year, if k.Utc? then 2 else 4))
  {
    match k
    case Utc => TwoDigitYear(t.year, Clock(t));
    case Generalized => FourDigitYear(t.year, Clock(t));
  }

  lemma TwoDigitYear(y: nat, rest: string)
    requires UtcYear(y) && rest != ""
    ensures ParseYear(Utc, Pad2(y % 100) + rest) == Some((y, 2))
  {
    assert Pad2(y % 100) + rest == "" + Pad2(y % 100) + rest;
    FieldOfPad2("", y % 100, rest, 0, 0, 99);
  }

  lemma FourDigitYear(y: nat, rest: string)
    requires y <= 9999 && rest != ""
    ensures ParseYear(Generalized, Pad2(y / 100) + Pad2(y % 100) + rest) == Some((y, 4))
  {
    var c, n := y / 100, y % 100;
    assert Pad2(c) + Pad2(n) + rest == "" + Pad2(c) + (Pad2(n) + rest);
    FieldOfPad2("", c, Pad2(n) + rest, 0, 0, 99);
    FieldOfPad2(Pad2(c), n, rest, 2, 0, 99);
  }

  /** Printing a time and reading it as the same kind gives it back. */
  lemma PrintedTimeReadsBack(k: Kind, t: Tm)
    requires ValidTm(t) && (k.Utc? ==> UtcYear(t.year))
    ensures Parse(k, FormatAs(k, t)) == Some(Stamp(t, 0))
  {
    var s := FormatAs(k, t);
    var y := if k.Utc? then Pad2(t.year % 100) else Pad2(t.year / 100) + Pad2(t.year % 100);
    assert s == y + Clock(t);
    YearReadsBack(k, t);
    ClockParses(k, y, t);
  }

  lemma ClockParses(k: Kind, y: string, t: Tm)
    requires ValidTm(t)
    ensures ParseClock(k, y + Clock(t), t.year, |y|) == Some(Stamp(t, 0))
  {
    ClockReadsBack(y, t, |y|);
  }

  /** A GeneralizedTime text is never a UTCTime. */
  lemma GeneralizedIsNotUtc(t: Tm)
    requires ValidTm(t)
    ensures Parse(Utc, FormatAs(Generalized, t)) == None
  {
    var y := Pad2(t.year / 100) + Pad2(t.year % 100);
    var s := FormatAs(Generalized, t);
    assert s == y + Clock(t);
    ClockReadsBack(y, t, 4);
    assert IsDigit(s[10]) && IsDigit(s[12]);
  }

  /** The printed current time reads back as a UTCTime exactly in the years 1950 to 2049. */
  lemma UtcReadsPrintedTime(t: Tm)
    requires ValidTm(t)
    ensures Parse(Utc, Format(t)) == if UtcYear(t.year) then Some(Stamp(t, 0)) else None
  {
    if UtcYear(t.year) { PrintedTimeReadsBack(Utc, t); } else { GeneralizedIsNotUtc(t); }
  }

  /** A UTCTime stays on the calendar whatever its offset. */
  lemma UtcOnCalendar(s: string)
    requires Parse(Utc, s).Some?
    ensures Denoted(Parse(Utc, s).value).Some?
  {
    var st := Parse(Utc, s).value;
    if st.offset != 0 { NearUtcYears(st.tm, st.offset); }
  }

  /** A day more or less than a year from 1950 to 2049 lies in 1949 to 2050. */
  lemma NearUtcYears(t: Tm, offset: int)
    requires ValidTm(t) && UtcYear(t.year) && -86400 < offset < 86400
    ensures Adjust(t, offset).Some?
  {
    var (jd, sec) := JulianAdj(t, offset);
    JulianAdjExact(t, offset);
    var d, first, last := DayOf(t), Day(1949, 12, 31), Day(2050, 1, 1);
    ClockOrder(t, t);
    DayOrder(first, d);
    DayOrder(d, last);
    assert ToJulian(first) <= jd <= ToJulian(last);
    Modern(Tm(1949, 12, 31, 0, 0, 0));
    FromJulianIsDay(jd);
    var (y, m, e) := FromJulian(jd);
    if y < 1900 { DayOrder(Day(y, m, e), first); }
    if y > 9999 { DayOrder(last, Day(y, m, e)); }
  }

  /** The characters a time is written with. */
  predicate TimeChar(c: char) {
    IsDigit(c) || c == 'Z' || c == '+' || c == '-' || c == '.'
  }

  predicate TimeText(s: string) {
    forall i :: 0 <= i < |s| ==> TimeChar(s[i])
  }

  lemma {:induction false} SkipDigitsOnlyDigits(s: string, o: nat)
    requires o <= |s|
    ensures forall i :: o <= i < SkipDigits(s, o) ==> IsDigit(s[i])
    decreases |s| - o
  {
    if o < |s| && IsDigit(s[o]) { SkipDigitsOnlyDigits(s, o + 1); }
  }

  lemma ZoneIsPlain(s: string, o: nat)
    requires o < |s| && ParseZone(s, o).Some?
    ensures forall i :: o <= i < |s| ==> TimeChar(s[i])
  {
    if s[o] != 'Z' {
      var t := s + "\0";
      assert forall i :: 0 <= i < |s| ==> t[i] == s[i];
    }
  }

  /** Whatever the parser accepts holds no separator, tab, newline or backslash. */
  lemma ParsedTimeIsPlain(k: Kind, s: string)
    requires Parse(k, s).Some?
    ensures TimeText(s)
  {
    var (year, o) := ParseYear(k, s).value;
    var (second, p) := ParseSeconds(s, o + 8).value;
    RestIsPlain(k, s, p);
    assert Digits(s, 0, o);
    assert Digits(s, o, o + 2) && Digits(s, o + 2, o + 4) && Digits(s, o + 4, o + 6) && Digits(s, o + 6, o + 8);
    assert Digits(s, o + 8, p);
  }

  lemma RestIsPlain(k: Kind, s: string, p: nat)
    requires p < |s| && ParseRest(k, s, p).Some?
    ensures forall i :: p <= i < |s| ==> TimeChar(s[i])
  {
    var z := SkipFraction(k, s, p).value;
    ZoneIsPlain(s, z);
    if p < z { SkipDigitsOnlyDigits(s, p + 1); }
  }

  ghost predicate Digits(s: string, from: nat, to: nat) {
    to <= |s| && forall i :: from <= i < to ==> IsDigit(s[i])
  }

  // ----- all texts that are read -----

  /** A time zone as it is written: UTC, or so far ahead of it or behind it. */
  datatype Zone = Zulu | Ahead(hours: nat, minutes: nat) | Behind(hours: nat, minutes: nat)

  predicate ValidZone(z: Zone) {
    z.Zulu? || (z.hours <= 12 && z.minutes <= 59)
  }

  function ZoneText(z: Zone): (s: string)
    requires ValidZone(z)
    ensures s != ""
  {
    match z
    case Zulu => "Z"
    case Ahead(h, m) => "+" + Pad2(h) + Pad2(m)
    case Behind(h, m) => "-" + Pad2(h) + Pad2(m)
  }

  /** A time as it is written; seconds may be absent, and a fraction is a point and digits. */
  datatype Form = Form(tm: Date, seconds: bool, fraction: string, zone: Zone)

  predicate Fraction(f: string) {
    |f| >= 2 && f[0] == '.' && forall i :: 1 <= i < |f| ==> IsDigit(f[i])
  }

  ghost predicate ValidForm(k: Kind, f: Form) {
    && ValidZone(f.zone)
    && (k.Utc? ==> UtcYear(f.tm.year))
    && (f.fraction == "" || (k.Generalized? && f.seconds && Fraction(f.fraction)))
    && (f.seconds || (f.tm.second == 0 && !f.zone.Zulu?))
  }

  function YearText(k: Kind, y: nat): (s: string)
    requires y <= 9999
    ensures |s| == if k.Utc? then 2 else 4
  {
    if k.Utc? then Pad2(y % 100) else Pad2(y / 100) + Pad2(y % 100)
  }

  function MinuteText(t: Date): (s: string)
    ensures |s| == 8
  {
    Pad2(t.month) + Pad2(t.day) + Pad2(t.hour) + Pad2(t.minute)
  }

  function TailText(f: Form): (s: string)
    requires ValidZone(f.zone)
    ensures s != ""
  {
    (if f.seconds then Pad2(f.tm.second) else "") + (f.fraction + ZoneText(f.zone))
  }

  function FormText(k: Kind, f: Form): string
    requires ValidZone(f.zone)
  {
    YearText(k, f.tm.year) + (MinuteText(f.tm) + TailText(f))
  }

  lemma MinutesRead(y: string, t: Date, tail: string)
    requires tail != ""
    ensures var s, o := y + (MinuteText(t) + tail), |y|;
      && Field(s, o, 1, 12) == Some(t.month)
      && Field(s, o + 2, 1, MonthDays(t.year, t.month)) == Some(t.day)
      && Field(s, o + 4, 0, 23) == Some(t.hour)
      && Field(s, o + 6, 0, 59) == Some(t.minute)
  {
    var m, d, h, i := Pad2(t.month), Pad2(t.day), Pad2(t.hour), Pad2(t.minute);
    var s := y + (MinuteText(t) + tail);
    assert s == y + Pad2(t.month) + (d + h + i + tail);
    FieldOfPad2(y, t.month, d + h + i + tail, |y|, 1, 12);
    assert s == (y + m) + Pad2(t.day) + (h + i + tail);
    FieldOfPad2(y + m, t.day, h + i + tail, |y| + 2, 1, MonthDays(t.year, t.month));
    assert s == (y + m + d) + Pad2(t.hour) + (i + tail);
    FieldOfPad2(y + m + d, t.hour, i + tail, |y| + 4, 0, 23);
    assert s == (y + m + d + h) + Pad2(t.minute) + tail;
    FieldOfPad2(y + m + d + h, t.minute, tail, |y| + 6, 0, 59);
  }

  /** An hour ahead of UTC is an hour to take off. */
  lemma ZoneReads(pre: string, z: Zone)
    requires ValidZone(z)
    ensures var r := ParseZone(pre + ZoneText(z), |pre|); r.Some? && TakesOff(z, r.value)
  {
    var s := pre + ZoneText(z);
    assert s[|pre|] == ZoneText(z)[0];
    if !z.Zulu? {
      var sign := [ZoneText(z)[0]];
      assert s + "\0" == (pre + sign) + Pad2(z.hours) + (Pad2(z.minutes) + "\0");
      FieldOfPad2(pre + sign, z.hours, Pad2(z.minutes) + "\0", |pre| + 1, 0, 12);
      assert s + "\0" == (pre + sign + Pad2(z.hours)) + Pad2(z.minutes) + "\0";
      FieldOfPad2(pre + sign + Pad2(z.hours), z.minutes, "\0", |pre| + 3, 0, 59);
    }
  }

  lemma {:induction false} SkipAll(s: string, o: nat, e: nat)
    requires o <= e <= |s| && (forall i :: o <= i < e ==> IsDigit(s[i])) && (e < |s| ==> !IsDigit(s[e]))
    ensures SkipDigits(s, o) == e
    decreases e - o
  {
    if o < e { SkipAll(s, o + 1, e); }
  }

  lemma RestReads(k: Kind, pre: string, f: Form)
    requires ValidForm(k, f)
    ensures var s := pre + (f.fraction + ZoneText(f.zone));
      ParseRest(k, s, |pre|) == ParseZone(s, |pre| + |f.fraction|)
  {
    var z := ZoneText(f.zone);
    var s := pre + (f.fraction + z);
    assert s[|pre| + |f.fraction|] == z[0];
    if f.fraction != "" {
      assert forall i :: 0 <= i < |f.fraction| ==> s[|pre| + i] == f.fraction[i];
      forall i | |pre| + 1 <= i < |pre| + |f.fraction| ensures IsDigit(s[i]) { assert s[i] == f.fraction[i - |pre|]; }
      SkipAll(s, |pre| + 1, |pre| + |f.fraction|);
    }
  }

  lemma SecondsRead(pre: string, n: nat, rest: string)
    requires n <= 59 && rest != ""
    ensures ParseSeconds(pre + (Pad2(n) + rest), |pre|) == Some((n, |pre| + 2))
  {
    assert pre + (Pad2(n) + rest) == pre + Pad2(n) + rest;
    FieldOfPad2(pre, n, rest, |pre|, 0, 59);
    assert (pre + (Pad2(n) + rest))[|pre|] == Pad2(n)[0];
  }

  lemma TailReads(k: Kind, pre: string, f: Form)
    requires ValidForm(k, f)
    ensures var s := pre + TailText(f);
      var p := |pre| + if f.seconds then 2 else 0;
      && ParseSeconds(s, |pre|) == Some((f.tm.second, p))
      && ParseRest(k, s, p) == ParseZone(s, p + |f.fraction|)
  {
    if f.seconds { TailWithSeconds(k, pre, f); } else { TailWithoutSeconds(k, pre, f); }
  }

  lemma TailWithSeconds(k: Kind, pre: string, f: Form)
    requires ValidForm(k, f) && f.seconds
    ensures var s := pre + TailText(f);
      && ParseSeconds(s, |pre|) == Some((f.tm.second, |pre| + 2))
      && ParseRest(k, s, |pre| + 2) == ParseZone(s, |pre| + 2 + |f.fraction|)
  {
    var rest := f.fraction + ZoneText(f.zone);
    SecondsRead(pre, f.tm.second, rest);
    assert pre + TailText(f) == pre + Pad2(f.tm.second) + rest;
    RestReads(k, pre + Pad2(f.tm.second), f);
  }

  lemma TailWithoutSeconds(k: Kind, pre: string, f: Form)
    requires ValidForm(k, f) && !f.seconds
    ensures var s := pre + TailText(f);
      && ParseSeconds(s, |pre|) == Some((f.tm.second, |pre|))
      && ParseRest(k, s, |pre|) == ParseZone(s, |pre| + |f.fraction|)
  {
    var rest := f.fraction + ZoneText(f.zone);
    assert TailText(f) == rest == ZoneText(f.zone);
    assert (pre + rest)[|pre|] == rest[0];
    RestReads(k, pre, f);
  }

  /** The offset of a zone: an hour ahead of UTC is an hour to take off. */
  predicate TakesOff(z: Zone, offset: int) {
    match z
    case Zulu => offset == 0
    case Ahead(h, m) => offset == -3600 * h - 60 * m
    case Behind(h, m) => offset == 3600 * h + 60 * m
  }

  lemma ClockOfForm(k: Kind, y: string, f: Form)
    requires ValidForm(k, f)
    ensures var r := ParseClock(k, y + (MinuteText(f.tm) + TailText(f)), f.tm.year, |y|);
      r.Some? && r.value.tm == f.tm && TakesOff(f.zone, r.value.offset)
  {
    var pre := y + MinuteText(f.tm);
    var s := pre + TailText(f);
    assert y + (MinuteText(f.tm) + TailText(f)) == s;
    MinutesRead(y, f.tm, TailText(f));
    TailReads(k, pre, f);
    ZonePart(pre, f);
    ZoneReads(pre + (if f.seconds then Pad2(f.tm.second) else "") + f.fraction, f.zone);
  }

  lemma ZonePart(pre: string, f: Form)
    requires ValidZone(f.zone)
    ensures pre + TailText(f) == (pre + (if f.seconds then Pad2(f.tm.second) else "") + f.fraction) + ZoneText(f.zone)
  {
  }

  /** Every valid form is read as its time, moved by its distance from UTC. */
  lemma FormReads(k: Kind, f: Form)
    requires ValidForm(k, f)
    ensures var r := Parse(k, FormText(k, f)); r.Some? && r.value.tm == f.tm && TakesOff(f.zone, r.value.offset)
  {
    var rest := MinuteText(f.tm) + TailText(f);
    ClockOfForm(k, YearText(k, f.tm.year), f);
    FormLength(k, f);
    match k
    case Utc => TwoDigitYear(f.tm.year, rest);
    case Generalized => FourDigitYear(f.tm.year, rest);
  }

  lemma FormLength(k: Kind, f: Form)
    requires ValidForm(k, f)
    ensures |FormText(k, f)| >= if k.Utc? then 13 else 15
  {
  }

  // The way back.

  lemma FieldIsPad2(s: string, o: nat, lo: nat, hi: nat)
    requires Field(s, o, lo, hi).Some? && hi <= 99
    ensures s[o..o + 2] == Pad2(Field(s, o, lo, hi).value)
  {
  }

  lemma ZoneIsText(s: string, o: nat) returns (z: Zone)
    requires o < |s| && ParseZone(s, o).Some?
    ensures ValidZone(z) && s[o..] == ZoneText(z) && (z.Zulu? <==> s[o] == 'Z')
  {
    if s[o] == 'Z' {
      z := Zulu;
    } else {
      var t := s + "\0";
      FieldIsPad2(t, o + 1, 0, 12);
      FieldIsPad2(t, o + 3, 0, 59);
      var h, m := Field(t, o + 1, 0, 12).value, Field(t, o + 3, 0, 59).value;
      assert s[o..] == [s[o]] + t[o + 1..o + 3] + t[o + 3..o + 5];
      z := if s[o] == '+' then Ahead(h, m) else Behind(h, m);
    }
  }

  lemma RestIsText(k: Kind, s: string, p: nat) returns (fraction: string, z: Zone)
    requires p < |s| && ParseRest(k, s, p).Some?
    ensures ValidZone(z) && s[p..] == fraction + ZoneText(z)
    ensures fraction == "" || (k.Generalized? && Fraction(fraction) && s[p] == '.')
    ensures z.Zulu? && fraction == "" <==> s[p] == 'Z'
  {
    var e := SkipFraction(k, s, p).value;
    z := ZoneIsText(s, e);
    fraction := s[p..e];
    assert s[p..] == s[p..e] + s[e..];
    if e > p { SkipDigitsOnlyDigits(s, p + 1); }
  }

  lemma MinutesAreText(s: string, year: nat, o: nat, t: Date)
    requires t.year == year && Field(s, o, 1, 12) == Some(t.month)
    requires Field(s, o + 2, 1, MonthDays(year, t.month)) == Some(t.day)
    requires Field(s, o + 4, 0, 23) == Some(t.hour) && Field(s, o + 6, 0, 59) == Some(t.minute)
    ensures s[o..o + 8] == MinuteText(t)
  {
    FieldIsPad2(s, o, 1, 12);
    FieldIsPad2(s, o + 2, 1, MonthDays(year, t.month));
    FieldIsPad2(s, o + 4, 0, 23);
    FieldIsPad2(s, o + 6, 0, 59);
    assert s[o..o + 8] == s[o..o + 2] + s[o + 2..o + 4] + s[o + 4..o + 6] + s[o + 6..o + 8];
  }

  lemma TwoDigitYearIsText(s: string)
    requires ParseYear(Utc, s).Some?
    ensures var (y, o) := ParseYear(Utc, s).value; o == 2 && UtcYear(y) && s[..2] == Pad2(y % 100)
  {
    FieldIsPad2(s, 0, 0, 99);
    var n := Field(s, 0, 0, 99).value;
    Hundreds(20, n);
    Hundreds(19, n);
    assert s[..2] == s[0..2];
  }

  lemma FourDigitYearIsText(s: string)
    requires ParseYear(Generalized, s).Some?
    ensures var (y, o) := ParseYear(Generalized, s).value; o == 4 && s[..4] == Pad2(y / 100) + Pad2(y % 100)
  {
    FieldIsPad2(s, 0, 0, 99);
    FieldIsPad2(s, 2, 0, 99);
    var c, n := Field(s, 0, 0, 99).value, Field(s, 2, 0, 99).value;
    Hundreds(c, n);
    assert s[..4] == s[0..2] + s[2..4];
  }

  lemma Hundreds(c: nat, n: nat)
    requires n < 100
    ensures (100 * c + n) / 100 == c && (100 * c + n) % 100 == n
  {
  }

  lemma YearIsText(k: Kind, s: string)
    requires ParseYear(k, s).Some?
    ensures var (y, o) := ParseYear(k, s).value;
      o == (if k.Utc? then 2 else 4) && s[..o] == YearText(k, y) && (k.Utc? ==> UtcYear(y))
  {
    match k
    case Utc => TwoDigitYearIsText(s);
    case Generalized => FourDigitYearIsText(s);
  }

  lemma TailIsText(k: Kind, s: string, o: nat, t: Date) returns (f: Form)
    requires o < |s| && ParseSeconds(s, o).Some? && t.second == ParseSeconds(s, o).value.0
    requires ParseRest(k, s, ParseSeconds(s, o).value.1).Some? && (k.Utc? ==> UtcYear(t.year))
    requires s[o] != 'Z'
    ensures ValidForm(k, f) && f.tm == t && s[o..] == TailText(f)
  {
    var p := ParseSeconds(s, o).value.1;
    var fraction, z := RestIsText(k, s, p);
    f := Form(t, p > o, fraction, z);
    if p > o {
      FieldIsPad2(s, o, 0, 59);
      assert s[o..] == s[o..p] + s[p..];
    }
  }

  lemma ClockHasForm(k: Kind, s: string, year: nat, o: nat) returns (f: Form)
    requires year <= 9999 && ParseClock(k, s, year, o).Some? && |s| >= o + 11 && (k.Utc? ==> UtcYear(year))
    ensures ValidForm(k, f) && f.tm == ParseClock(k, s, year, o).value.tm && f.tm.year == year
    ensures o + 8 <= |s| && s[o..] == MinuteText(f.tm) + TailText(f)
  {
    var t := ParseClock(k, s, year, o).value.tm;
    MinutesAreText(s, year, o, t);
    f := TailIsText(k, s, o + 8, t);
    assert s[o..] == s[o..o + 8] + s[o + 8..];
  }

  /** Nothing else is read. */
  lemma ParsedHasForm(k: Kind, s: string) returns (f: Form)
    requires Parse(k, s).Some?
    ensures ValidForm(k, f) && f.tm == Parse(k, s).value.tm && s == FormText(k, f)
  {
    var (year, o) := ParseYear(k, s).value;
    YearIsText(k, s);
    f := ClockHasForm(k, s, year, o);
    assert s == s[..o] + s[o..];
  }

  /** A text writes a stamp in this form. */
  ghost predicate Writes(k: Kind, f: Form, s: string, st: Stamp) {
    ValidForm(k, f) && s == FormText(k, f) && st.tm == f.tm && TakesOff(f.zone, st.offset)
  }

  lemma WrittenIsRead(k: Kind, f: Form, s: string, st: Stamp)
    requires Writes(k, f, s, st)
    ensures Parse(k, s) == Some(st)
  {
    FormReads(k, f);
  }

  /** Exactly the valid forms are read, each as its time and its distance from UTC. */
  lemma ParseExact(k: Kind, s: string, st: Stamp)
    ensures Parse(k, s) == Some(st) <==> exists f :: Writes(k, f, s, st)
  {
    if Parse(k, s) == Some(st) {
      var f := ParsedHasForm(k, s);
      FormReads(k, f);
      assert Writes(k, f, s, st);
    }
    forall f | Writes(k, f, s, st) ensures Parse(k, s) == Some(st) { WrittenIsRead(k, f, s, st); }
  }
}
