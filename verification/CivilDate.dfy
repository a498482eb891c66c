/**
`stamp`: the UTC date and time of a millisecond timestamp, by the days-to-civil algorithm with
400-year eras that start on the first of March.
*/
module CivilDate {
  import opened Basics
  import opened Decimal
  import Radix

  datatype Date = Date(year: int, month: int, day: int)

  // ----- the calendar, independently of the algorithm --------------------------------

  predicate IsLeap(y: int) { y % 4 == 0 && (y % 100 != 0 || y % 400 == 0) }

  function MonthLength(y: int, m: int): int
    requires 1 <= m <= 12
  {
    if m == 2 then (if IsLeap(y) then 29 else 28)
    else if m == 4 || m == 6 || m == 9 || m == 11 then 30
    else 31
  }

  predicate IsDate(d: Date) {
    1 <= d.month <= 12 && 1 <= d.day <= MonthLength(d.year, d.month)
  }

  /** The day after. */
  function NextDay(d: Date): (n: Date)
    requires IsDate(d)
    ensures IsDate(n)
  {
    if d.day < MonthLength(d.year, d.month) then d.(day := d.day + 1)
    else if d.month < 12 then Date(d.year, d.month + 1, 1)
    else Date(d.year + 1, 1, 1)
  }

  /** Chronological order. */
  predicate Earlier(a: Date, b: Date) {
    a.year < b.year || (a.year == b.year && (a.month < b.month || (a.month == b.month && a.day < b.day)))
  }

  /** Leap years up to and including year `y`, counted from year 0. */
  function LeapsUpTo(y: int): int { y / 4 - y / 100 + y / 400 }

  /** Days from 1970-01-01 to the first day of year `y`. */
  function YearStart(y: int): int { 365 * (y - 1970) + LeapsUpTo(y - 1) - LeapsUpTo(1969) }

  function DaysBeforeMonth(y: int, m: int): int
    requires 1 <= m <= 12
    decreases m
  {
    if m == 1 then 0 else DaysBeforeMonth(y, m - 1) + MonthLength(y, m - 1)
  }

  /** Days from 1970-01-01 to `d`. */
  function DayNumber(d: Date): int
    requires IsDate(d)
  {
    YearStart(d.year) + DaysBeforeMonth(d.year, d.month) + d.day - 1
  }

  lemma DivIs(n: int, k: nat, q: int)
    requires k > 0 && q * k <= n < q * k + k
    ensures n / k == q
  {
    Radix.DivModLaw(n, k);
    Radix.QuotientUnique(q, n - q * k, n / k, n % k, k);
  }

  lemma DivStep(y: int, k: nat)
    requires k > 1
    ensures y / k == (y - 1) / k + (if y % k == 0 then 1 else 0)
  {
    Radix.DivModLaw(y, k);
    if y % k == 0 { Radix.MulSucc(y / k - 1, k); DivIs(y - 1, k, y / k - 1); } else { DivIs(y - 1, k, y / k); }
  }

  lemma MultiplesNest(y: int)
    ensures y % 100 == 0 ==> y % 4 == 0
    ensures y % 400 == 0 ==> y % 100 == 0
  {}

  lemma LeapStep(y: int)
    ensures LeapsUpTo(y) == LeapsUpTo(y - 1) + (if IsLeap(y) then 1 else 0)
  {
    DivStep(y, 4);
    DivStep(y, 100);
    DivStep(y, 400);
    MultiplesNest(y);
  }

  lemma DayNumberNext(d: Date)
    requires IsDate(d)
    ensures DayNumber(NextDay(d)) == DayNumber(d) + 1
  {
    if d.day == MonthLength(d.year, d.month) && d.month == 12 {
      LeapStep(d.year);
      MonthTable(d.year);
    }
  }

  lemma MonthTable(y: int)
    ensures var leap := if IsLeap(y) then 1 else 0;
            && DaysBeforeMonth(y, 2) == 31
            && DaysBeforeMonth(y, 3) == 59 + leap && DaysBeforeMonth(y, 4) == 90 + leap
            && DaysBeforeMonth(y, 5) == 120 + leap && DaysBeforeMonth(y, 6) == 151 + leap
            && DaysBeforeMonth(y, 7) == 181 + leap && DaysBeforeMonth(y, 8) == 212 + leap
            && DaysBeforeMonth(y, 9) == 243 + leap && DaysBeforeMonth(y, 10) == 273 + leap
            && DaysBeforeMonth(y, 11) == 304 + leap && DaysBeforeMonth(y, 12) == 334 + leap
  {}

  lemma {:induction false} YearStartGrows(a: int, b: int)
    requires a < b
    ensures YearStart(a) + 365 + (if IsLeap(a) then 1 else 0) <= YearStart(b)
    decreases b - a
  {
    LeapStep(a);
    if a + 1 < b { YearStartGrows(a + 1, b); }
  }

  /** The day count grows with the date, so it tells dates apart. */
  lemma DayNumberOrders(a: Date, b: Date)
    requires IsDate(a) && IsDate(b)
    ensures Earlier(a, b) <==> DayNumber(a) < DayNumber(b)
    ensures DayNumber(a) == DayNumber(b) ==> a == b
  {
    DayNumberGrows(a, b);
    DayNumberGrows(b, a);
  }

  lemma DayNumberGrows(a: Date, b: Date)
    requires IsDate(a) && IsDate(b)
    ensures Earlier(a, b) ==> DayNumber(a) < DayNumber(b)
  {
    MonthTable(a.year);
    MonthTable(b.year);
    if a.year < b.year { YearStartGrows(a.year, b.year); }
  }

  // ----- the algorithm ---------------------------------------------------------------

  function YearOfEra(doe: int): int { (doe - doe / 1460 + doe / 36_524 - doe / 146_096) / 365 }

  /** Days of the era before its March-based year `yoe`. */
  function EraYearStart(yoe: int): int { 365 * yoe + yoe / 4 - yoe / 100 }

  function CivilFromDays(days: int): Date {
    var z := days + 719_468;
    var era := z / 146_097;
    var doe := z % 146_097;
    var yoe := YearOfEra(doe);
    var y := yoe + era * 400;
    var doy := doe - EraYearStart(yoe);
    var mp := (5 * doy + 2) / 153;
    var d := doy - (153 * mp + 2) / 5 + 1;
    var m := if mp < 10 then mp + 3 else mp - 9;
    Date(if m <= 2 then y + 1 else y, m, d)
  }

  // ----- the year within an era ----------------------------------------------------------

  /**
  Century `c`, four-year group `q` and year `r` of a day of the era, and the day `t` of that year;
  the last day of a group or of the era belongs to the year it ends.
  */
  lemma SplitEra(doe: int) returns (c: int, q: int, r: int, t: int)
    requires 0 <= doe < 146_097
    ensures 0 <= c <= 3 && 0 <= q <= 24 && 0 <= r <= 3 && 0 <= t <= 365
    ensures doe == 36_524 * c + 1461 * q + 365 * r + t
    ensures t == 365 ==> r == 3 && (q == 24 ==> c == 3)
  {
    c := if doe == 146_096 then 3 else doe / 36_524;
    var d1 := doe - 36_524 * c;
    q := if d1 == 36_524 then 24 else d1 / 1461;
    var d2 := d1 - 1461 * q;
    r := if d2 == 1460 then 3 else d2 / 365;
    t := d2 - 365 * r;
  }

  lemma YearOfSplit(doe: int, c: int, q: int, r: int, t: int)
    requires 0 <= c <= 3 && 0 <= q <= 24 && 0 <= r <= 3 && 0 <= t <= 365
    requires doe == 36_524 * c + 1461 * q + 365 * r + t
    requires t == 365 ==> r == 3 && (q == 24 ==> c == 3)
    ensures YearOfEra(doe) == 100 * c + 4 * q + r
    ensures EraYearStart(100 * c + 4 * q + r) == doe - t
  {
    var extra := if 24 * c + q + 365 * r + t >= 1460 then 1 else 0;
    LeapDays(doe, c, q, r, t, extra);
    DivIs(365 * (100 * c + 4 * q + r) + t - extra, 365, 100 * c + 4 * q + r);
    StartOfYear(c, q, r);
  }

  /** The three corrections for leap days take away what a day of the era has of them. */
  lemma LeapDays(doe: int, c: int, q: int, r: int, t: int, extra: int)
    requires 0 <= c <= 3 && 0 <= q <= 24 && 0 <= r <= 3 && 0 <= t <= 365
    requires doe == 36_524 * c + 1461 * q + 365 * r + t
    requires t == 365 ==> r == 3 && (q == 24 ==> c == 3)
    requires extra == if 24 * c + q + 365 * r + t >= 1460 then 1 else 0
    ensures doe - doe / 1460 + doe / 36_524 - doe / 146_096 == 365 * (100 * c + 4 * q + r) + t - extra
  {
    var last := if doe == 146_096 then 1 else 0;
    DivIs(doe, 1460, 25 * c + q + extra);
    DivIs(doe, 36_524, c + last);
    DivIs(doe, 146_096, last);
  }

  lemma StartOfYear(c: int, q: int, r: int)
    requires 0 <= c <= 3 && 0 <= q <= 24 && 0 <= r <= 3
    ensures EraYearStart(100 * c + 4 * q + r) == 36_524 * c + 1461 * q + 365 * r
  {
    DivIs(100 * c + 4 * q + r, 4, 25 * c + q);
    DivIs(100 * c + 4 * q + r, 100, c);
  }

  lemma ModIs(n: int, k: nat, q: int, r: int)
    requires k > 0 && n == q * k + r && 0 <= r < k
    ensures n % k == r
  {
    Radix.DivModUnique(q, r, k);
  }

  /** Day 365 of a March-based year exists exactly when the following calendar year is leap. */
  lemma LongYear(c: int, q: int, r: int, era: int)
    requires 0 <= c <= 3 && 0 <= q <= 24 && 0 <= r <= 3
    requires r == 3 && (q == 24 ==> c == 3)
    ensures IsLeap(400 * era + 100 * c + 4 * q + r + 1)
  {
    var y := 400 * era + 100 * c + 4 * q + r + 1;
    ModIs(y, 4, 100 * era + 25 * c + q + 1, 0);
    if q == 24 { ModIs(y, 400, era + 1, 0); } else { ModIs(y, 100, 4 * era + c, 4 * q + 4); }
  }

  // ----- the main theorems ----------------------------------------------------------------

  lemma LeapsOfEra(era: int, c: int, q: int, r: int)
    requires 0 <= c <= 3 && 0 <= q <= 24 && 0 <= r <= 3
    ensures LeapsUpTo(400 * era + 100 * c + 4 * q + r) == 97 * era + 24 * c + q
  {
    var y := 400 * era + 100 * c + 4 * q + r;
    DivIs(y, 4, 100 * era + 25 * c + q);
    DivIs(y, 100, 4 * era + c);
    DivIs(y, 400, era);
  }

  /** The date of day `doy` of the year that starts on the first of March of `y`. */
  function MarchDate(y: int, doy: int): Date {
    var mp := (5 * doy + 2) / 153;
    var m := if mp < 10 then mp + 3 else mp - 9;
    Date(if m <= 2 then y + 1 else y, m, doy - (153 * mp + 2) / 5 + 1)
  }

  /** Days of a March-based year before its month `mp`. */
  function MarchStart(mp: int): int {
    match mp
    case 0 => 0 case 1 => 31 case 2 => 61 case 3 => 92 case 4 => 122 case 5 => 153 case 6 => 184
    case 7 => 214 case 8 => 245 case 9 => 275 case 10 => 306 case 11 => 337 case _ => 366
  }

  lemma MarchMonth(doy: int)
    requires 0 <= doy <= 365
    ensures var mp := (5 * doy + 2) / 153;
            0 <= mp <= 11 && (153 * mp + 2) / 5 == MarchStart(mp) && MarchStart(mp) <= doy < MarchStart(mp + 1)
  {
    var mp := (5 * doy + 2) / 153;
    Radix.DivModLaw(5 * doy + 2, 153);
    DivIs(153 * mp + 2, 5, MarchStart(mp));
  }

  /** The months of a March-based year, with the leap day at its end. */
  lemma MarchTable(y: int, mp: int, day: int)
    requires 0 <= mp <= 11 && 1 <= day <= MarchStart(mp + 1) - MarchStart(mp)
    requires mp == 11 && day == 29 ==> IsLeap(y + 1)
    ensures var m := if mp < 10 then mp + 3 else mp - 9;
            var d := Date(if m <= 2 then y + 1 else y, m, day);
            IsDate(d) && DayNumber(d) == 365 * y + LeapsUpTo(y) - 719_468 + MarchStart(mp) + day - 1
  {
    MonthTable(y);
    MonthTable(y + 1);
    LeapStep(y);
  }

  lemma MarchYear(y: int, doy: int)
    requires 0 <= doy <= 365 && (doy == 365 ==> IsLeap(y + 1))
    ensures IsDate(MarchDate(y, doy))
    ensures DayNumber(MarchDate(y, doy)) == 365 * y + LeapsUpTo(y) - 719_468 + doy
  {
    var mp := (5 * doy + 2) / 153;
    MarchMonth(doy);
    MarchTable(y, mp, doy - MarchStart(mp) + 1);
  }

  lemma CivilIsMarch(days: int, yoe: int, t: int)
    requires var doe := (days + 719_468) % 146_097; YearOfEra(doe) == yoe && EraYearStart(yoe) == doe - t
    ensures CivilFromDays(days) == MarchDate(yoe + (days + 719_468) / 146_097 * 400, t)
  {}

  lemma DaysAddUp(days: int, era: int, doe: int, c: int, q: int, r: int, t: int)
    requires days + 719_468 == era * 146_097 + doe && doe == 36_524 * c + 1461 * q + 365 * r + t
    requires 0 <= c <= 3 && 0 <= q <= 24 && 0 <= r <= 3
    ensures var y := 400 * era + 100 * c + 4 * q + r; 365 * y + LeapsUpTo(y) - 719_468 + t == days
  {
    LeapsOfEra(era, c, q, r);
  }

  lemma SplitDays(days: int) returns (y: int, doy: int)
    ensures 0 <= doy <= 365 && (doy == 365 ==> IsLeap(y + 1))
    ensures CivilFromDays(days) == MarchDate(y, doy)
    ensures 365 * y + LeapsUpTo(y) - 719_468 + doy == days
  {
    var z := days + 719_468;
    var era, doe := z / 146_097, z % 146_097;
    Radix.DivModLaw(z, 146_097);
    var c, q, r, t := SplitEra(doe);
    YearOfSplit(doe, c, q, r, t);
    CivilIsMarch(days, 100 * c + 4 * q + r, t);
    DaysAddUp(days, era, doe, c, q, r, t);
    if t == 365 { LongYear(c, q, r, era); }
    y, doy := 400 * era + 100 * c + 4 * q + r, t;
  }

  /** The algorithm gives a date of the calendar, and it is the one with that day count. */
  lemma CivilIsInverse(days: int)
    ensures IsDate(CivilFromDays(days))
    ensures DayNumber(CivilFromDays(days)) == days
  {
    var y, doy := SplitDays(days);
    MarchYear(y, doy);
  }

  lemma CivilStart()
    ensures CivilFromDays(0) == Date(1970, 1, 1)
  {
    var d := Date(1970, 1, 1);
    assert DayNumber(d) == 0;
    CivilIsABijection(0, 0, d);
  }

  /** The date of the next day, before 1970 as after, is the date after. */
  lemma CivilCountsDays(days: int)
    ensures IsDate(CivilFromDays(days)) && CivilFromDays(days + 1) == NextDay(CivilFromDays(days))
  {
    CivilIsInverse(days);
    CivilIsInverse(days + 1);
    OneDayLater(CivilFromDays(days), CivilFromDays(days + 1));
  }

  lemma OneDayLater(a: Date, b: Date)
    requires IsDate(a) && IsDate(b) && DayNumber(b) == DayNumber(a) + 1
    ensures b == NextDay(a)
  {
    DayNumberNext(a);
    DayNumberOrders(b, NextDay(a));
  }

  /** Later days have later dates, and every date of the calendar is the date of its day count. */
  lemma CivilIsABijection(a: int, b: int, d: Date)
    requires IsDate(d)
    ensures a < b <==> Earlier(CivilFromDays(a), CivilFromDays(b))
    ensures CivilFromDays(DayNumber(d)) == d
  {
    CivilIsInverse(a);
    CivilIsInverse(b);
    DayNumberOrders(CivilFromDays(a), CivilFromDays(b));
    CivilIsInverse(DayNumber(d));
    DayNumberOrders(CivilFromDays(DayNumber(d)), d);
  }

  // ----- the text ------------------------------------------------------------------------------

  /** `{n:0w}`. */
  function Padded(n: nat, width: nat): seq<byte> {
    var s := PrintNat(n);
    if |s| >= width then s else seq(width - |s|, _ => ZERO) + s
  }

  const DASH: byte := 45
  const SPACE: byte := 32
  const COLON: byte := 58

  function Text(date: Date, hour: nat, minute: nat): seq<byte>
    requires IsDate(date) && date.year >= 0
  {
    Padded(date.year, 4) + [DASH]
    + (Padded(date.month, 2) + [DASH]
       + (Padded(date.day, 2) + [SPACE]
          + (Padded(hour, 2) + [COLON] + Padded(minute, 2))))
  }

  /** `stamp`: `YYYY-MM-DD HH:MM` of a `u64` number of milliseconds. */
  function Stamp(ms: nat): seq<byte> {
    var secs := ms / 1000;
    var days := secs / 86_400;
    var rem := secs % 86_400;
    CivilIsInverse(days);
    AfterEpoch(days);
    Text(CivilFromDays(days), rem / 3600, (rem % 3600) / 60)
  }

  lemma AfterEpoch(days: nat)
    ensures CivilFromDays(days).year >= 1970
  {
    CivilIsInverse(days);
    NotBefore1970(CivilFromDays(days));
  }

  lemma NotBefore1970(d: Date)
    requires IsDate(d) && DayNumber(d) >= 0
    ensures d.year >= 1970
  {
    DayNumberOrders(d, Date(1970, 1, 1));
  }

  /** A padded number is digits only, and is read back from them. */
  lemma PaddedReadsBack(n: nat, width: nat)
    ensures AllDigits(Padded(n, width)) && DigitsValue(Padded(n, width)) == n
    ensures |Padded(n, width)| >= width
  {
    DigitsValueOfPrint(n);
    var s := PrintNat(n);
    if |s| < width { LeadingZeros(width - |s|, s); }
  }

  lemma {:induction false} LeadingZeros(k: nat, s: seq<byte>)
    requires AllDigits(s)
    ensures var z := seq(k, _ => ZERO) + s;
            AllDigits(z) && DigitsValue(z) == DigitsValue(s)
  {
    var z: seq<byte> := seq(k, _ => ZERO) + s;
    if s != [] {
      LeadingZeros(k, s[..|s| - 1]);
      assert z[..|z| - 1] == seq(k, _ => ZERO) + s[..|s| - 1];
    } else if k > 0 {
      LeadingZeros(k - 1, []);
      assert z[..|z| - 1] == seq(k - 1, _ => ZERO) + [];
    }
  }

  /** Texts that put a separator after a run of digits agree on the digits and on what follows. */
  lemma SplitAt(a: seq<byte>, b: seq<byte>, x: seq<byte>, y: seq<byte>, sep: byte)
    requires AllDigits(a) && AllDigits(b) && !IsDigit(sep)
    requires a + [sep] + x == b + [sep] + y
    ensures a == b && x == y
  {
    var s := a + [sep] + x;
    var t := b + [sep] + y;
    assert s[|a|] == sep && t[|b|] == sep;
    assert forall i :: 0 <= i < |b| ==> t[i] == b[i];
    assert forall i :: 0 <= i < |a| ==> s[i] == a[i];
    assert s[..|a|] == a && t[..|b|] == b;
    assert s[|a| + 1..] == x && t[|b| + 1..] == y;
  }

  lemma TextIsInjective(a: Date, h: nat, m: nat, b: Date, h': nat, m': nat)
    requires IsDate(a) && a.year >= 0 && IsDate(b) && b.year >= 0
    requires Text(a, h, m) == Text(b, h', m')
    ensures a == b && h == h' && m == m'
  {
    var ta := Padded(h, 2) + [COLON] + Padded(m, 2);
    var tb := Padded(h', 2) + [COLON] + Padded(m', 2);
    var da := Padded(a.day, 2) + [SPACE] + ta;
    var db := Padded(b.day, 2) + [SPACE] + tb;
    PaddedPair(a.year, b.year, 4, Padded(a.month, 2) + [DASH] + da, Padded(b.month, 2) + [DASH] + db, DASH);
    PaddedPair(a.month, b.month, 2, da, db, DASH);
    PaddedPair(a.day, b.day, 2, ta, tb, SPACE);
    PaddedPair(h, h', 2, Padded(m, 2), Padded(m', 2), COLON);
    PaddedReadsBack(m, 2);
    PaddedReadsBack(m', 2);
  }

  lemma PaddedPair(n: nat, n': nat, width: nat, x: seq<byte>, y: seq<byte>, sep: byte)
    requires !IsDigit(sep) && Padded(n, width) + [sep] + x == Padded(n', width) + [sep] + y
    ensures n == n' && x == y
  {
    PaddedReadsBack(n, width);
    PaddedReadsBack(n', width);
    SplitAt(Padded(n, width), Padded(n', width), x, y, sep);
  }

  /** Day, hour and minute of a timestamp, from its whole minutes. */
  lemma StampFields(ms: nat)
    ensures var secs := ms / 1000;
            var minute := ms / 60_000;
            && secs / 86_400 == minute / 1440
            && (secs % 86_400) / 3600 == minute % 1440 / 60
            && (secs % 86_400) % 3600 / 60 == minute % 60
  {
    var secs, minute := ms / 1000, ms / 60_000;
    Radix.DivModLaw(ms, 1000);
    Radix.DivModLaw(ms, 60_000);
    DayFields(secs, minute, secs - 60 * minute);
  }

  lemma DayFields(secs: nat, minute: nat, s: int)
    requires secs == 60 * minute + s && 0 <= s < 60
    ensures secs / 86_400 == minute / 1440
    ensures (secs % 86_400) / 3600 == minute % 1440 / 60
    ensures (secs % 86_400) % 3600 / 60 == minute % 60
  {
    var day, left := minute / 1440, minute % 1440;
    Radix.DivModLaw(minute, 1440);
    DivIs(secs, 86_400, day);
    ModIs(secs, 86_400, day, 60 * left + s);
    var hour, m := left / 60, left % 60;
    Radix.DivModLaw(left, 60);
    DivIs(60 * left + s, 3600, hour);
    ModIs(60 * left + s, 3600, hour, 60 * m + s);
    DivIs(60 * m + s, 60, m);
    ModIs(minute, 60, 24 * day + hour, m);
  }

  lemma TwoDigits(n: nat)
    requires n < 100
    ensures |Padded(n, 2)| == 2
  {
    if n >= 10 { assert PrintNat(n) == PrintNat(n / 10) + [ZERO + n % 10]; }
  }

  lemma {:induction false} AtMostDigits(n: nat)
    requires n < 10_000
    ensures |Padded(n, 4)| == 4
  {
    if n >= 10 {
      assert PrintNat(n) == PrintNat(n / 10) + [ZERO + n % 10];
      if n >= 100 {
        assert PrintNat(n / 10) == PrintNat(n / 100) + [ZERO + n / 10 % 10];
        if n >= 1000 { assert PrintNat(n / 100) == PrintNat(n / 1000) + [ZERO + n / 100 % 10]; }
      }
    }
  }

  lemma TextPlaces(year: seq<byte>, month: seq<byte>, day: seq<byte>, hour: seq<byte>, minute: seq<byte>)
    requires |month| == 2 && |day| == 2 && |hour| == 2 && |minute| == 2
    ensures var s := year + [DASH] + (month + [DASH] + (day + [SPACE] + (hour + [COLON] + minute)));
            var n := |year|;
            && |s| == n + 12
            && s[..n] == year && s[n + 1..n + 3] == month && s[n + 4..n + 6] == day && s[n + 7..n + 9] == hour && s[n + 10..] == minute
            && s[n] == DASH && s[n + 3] == DASH && s[n + 6] == SPACE && s[n + 9] == COLON
  {
  }

  /** The digits spell the number. */
  predicate Says(s: seq<byte>, n: int) { s != [] && AllDigits(s) && DigitsValue(s) == n }

  /** The text, cut at its places, reads as date, hour and minute. */
  ghost predicate Reads(s: seq<byte>, date: Date, hour: int, minute: int) {
    && |s| >= 16
    && var n := |s| - 12;
       && Says(s[..n], date.year) && Says(s[n + 1..n + 3], date.month) && Says(s[n + 4..n + 6], date.day)
       && Says(s[n + 7..n + 9], hour) && Says(s[n + 10..], minute)
       && s[n] == '-' as int && s[n + 3] == '-' as int && s[n + 6] == ' ' as int && s[n + 9] == ':' as int
  }

  lemma PartsRead(date: Date, hour: int, minute: int, y: seq<byte>, m: seq<byte>, d: seq<byte>, h: seq<byte>, mi: seq<byte>)
    requires |y| >= 4 && |m| == 2 && |d| == 2 && |h| == 2 && |mi| == 2
    requires Says(y, date.year) && Says(m, date.month) && Says(d, date.day) && Says(h, hour) && Says(mi, minute)
    ensures Reads(y + [DASH] + (m + [DASH] + (d + [SPACE] + (h + [COLON] + mi))), date, hour, minute)
  {
    TextPlaces(y, m, d, h, mi);
  }

  lemma PaddedSays(n: nat)
    ensures Says(Padded(n, 4), n) && |Padded(n, 4)| >= 4 && (n < 10_000 ==> |Padded(n, 4)| == 4)
    ensures n < 100 ==> Says(Padded(n, 2), n) && |Padded(n, 2)| == 2
  {
    PaddedReadsBack(n, 4);
    PaddedReadsBack(n, 2);
    if n < 100 { TwoDigits(n); }
    if n < 10_000 { AtMostDigits(n); }
  }

  lemma TextSays(date: Date, hour: nat, minute: nat)
    requires IsDate(date) && date.year >= 0 && hour < 100 && minute < 100
    ensures Reads(Text(date, hour, minute), date, hour, minute) && (date.year < 10_000 ==> |Text(date, hour, minute)| == 16)
  {
    PaddedSays(date.year);
    PaddedSays(date.month);
    PaddedSays(date.day);
    PaddedSays(hour);
    PaddedSays(minute);
    PartsRead(date, hour, minute, Padded(date.year, 4), Padded(date.month, 2), Padded(date.day, 2), Padded(hour, 2), Padded(minute, 2));
  }

  /**
  The text, cut at its places, reads back as the date of the day, the hour and the minute. Until the
  year 9999 it has sixteen characters.
  */
  lemma StampSays(ms: nat)
    ensures var date := CivilFromDays(ms / 86_400_000);
            && IsDate(date) && DayNumber(date) == ms / 86_400_000
            && Reads(Stamp(ms), date, ms / 3_600_000 % 24, ms / 60_000 % 60)
            && (date.year < 10_000 ==> |Stamp(ms)| == 16)
  {
    StampIs(ms);
    ClockFields(ms);
    var day := ms / 86_400_000;
    CivilIsInverse(day);
    AfterEpoch(day);
    TextSays(CivilFromDays(day), ms / 3_600_000 % 24, ms / 60_000 % 60);
  }

  lemma StampIs(ms: nat)
    ensures var date := CivilFromDays(ms / 86_400_000);
            IsDate(date) && date.year >= 0 && Stamp(ms) == Text(date, ms / 3_600_000 % 24, ms / 60_000 % 60)
  {
    StampFields(ms);
    ClockFields(ms);
    CivilIsInverse(ms / 86_400_000);
    AfterEpoch(ms / 86_400_000);
  }

  lemma ClockFields(ms: nat)
    ensures ms / 60_000 / 1440 == ms / 86_400_000 && ms / 60_000 % 1440 / 60 == ms / 3_600_000 % 24
  {
    var minute := ms / 60_000;
    Radix.DivModLaw(ms, 60_000);
    Radix.DivModLaw(minute, 1440);
    DivIs(ms, 86_400_000, minute / 1440);
    var hour := minute / 60;
    Radix.DivModLaw(minute, 60);
    DivIs(ms, 3_600_000, hour);
    HourOfDay(minute);
  }

  lemma HourOfDay(minute: nat)
    ensures minute % 1440 / 60 == minute / 60 % 24
  {
    var day, left := minute / 1440, minute % 1440;
    Radix.DivModLaw(minute, 1440);
    var hour := left / 60;
    Radix.DivModLaw(left, 60);
    DivIs(minute, 60, 24 * day + hour);
    ModIs(24 * day + hour, 24, day, hour);
  }

  /** Two timestamps have the same text exactly when they lie in the same minute. */
  lemma StampTellsMinutes(a: nat, b: nat)
    ensures Stamp(a) == Stamp(b) <==> a / 60_000 == b / 60_000
  {
    StampFields(a);
    StampFields(b);
    var ma, mb := a / 60_000, b / 60_000;
    if Stamp(a) == Stamp(b) {
      var da, db := a / 1000 / 86_400, b / 1000 / 86_400;
      CivilIsInverse(da);
      CivilIsInverse(db);
      AfterEpoch(da);
      AfterEpoch(db);
      TextIsInjective(CivilFromDays(da), ma % 1440 / 60, ma % 60, CivilFromDays(db), mb % 1440 / 60, mb % 60);
      assert da == db;
      MinuteParts(ma);
      MinuteParts(mb);
    }
  }

  lemma MinuteParts(m: nat)
    ensures m == m / 1440 * 1440 + m % 1440 / 60 * 60 + m % 60
  {}
}
