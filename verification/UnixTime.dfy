/** Civil dates and Unix time, against a calendar counted year by year and month by month. */
module UnixTime {
  import opened Words

  /** The integers of the target. Every operation on them is checked to stay in range. */
  newtype int32 = x: int | -0x8000_0000 <= x < 0x8000_0000
  newtype uint32 = x: int | 0 <= x < 0x1_0000_0000
  newtype int64 = x: int | -0x8000_0000_0000_0000 <= x < 0x8000_0000_0000_0000

  datatype Date = Date(year: int, month: int, day: int, hour: int, minute: int, second: int)

  predicate Leap(y: int) {
    y % 4 == 0 && (y % 100 != 0 || y % 400 == 0)
  }

  function YearLength(y: int): int {
    if Leap(y) then 366 else 365
  }

  function MonthLength(y: int, m: int): int {
    if m == 2 then (if Leap(y) then 29 else 28)
    else if m == 4 || m == 6 || m == 9 || m == 11 then 30
    else 31
  }

  function DaysBeforeYear(y: int): int
    requires y >= 1970
  {
    if y == 1970 then 0 else DaysBeforeYear(y - 1) + YearLength(y - 1)
  }

  function DaysBeforeMonth(y: int, m: int): int
    requires 1 <= m <= 13
    decreases m
  {
    if m == 1 then 0 else DaysBeforeMonth(y, m - 1) + MonthLength(y, m - 1)
  }

  /** A day and time of the Gregorian calendar from 1970 on. */
  predicate Valid(d: Date) {
    && d.year >= 1970 && 1 <= d.month <= 12 && 1 <= d.day <= MonthLength(d.year, d.month)
    && 0 <= d.hour < 24 && 0 <= d.minute < 60 && 0 <= d.second < 60
  }

  /** Days passed since 1 January 1970. */
  function Days(d: Date): int
    requires Valid(d)
  {
    DaysBeforeYear(d.year) + DaysBeforeMonth(d.year, d.month) + d.day - 1
  }

  /** Seconds passed since then. */
  function Seconds(d: Date): int
    requires Valid(d)
  {
    86400 * Days(d) + 3600 * d.hour + 60 * d.minute + d.second
  }

  // ----- the closed forms -----

  /** Leap years before `y`, counted from 1970, as to_unix_time counts them. */
  function LeapsBefore(y: int): int {
    (y - 1 - 1968) / 4 - (y - 1 - 1900) / 100 + (y - 1 - 1600) / 400
  }

  /** Rounding down to a multiple, one step further. */
  lemma NextQuotient(x: int, d: int)
    requires d > 0
    ensures (x + 1) / d == x / d + if (x + 1) % d == 0 then 1 else 0
  {
    var q, r := x / d, x % d;
    assert x == q * d + r;
    if r == d - 1 {
      assert x + 1 == (q + 1) * d + 0;
      RemainderIs(x + 1, d, q + 1, 0);
    } else {
      assert x + 1 == q * d + (r + 1);
      RemainderIs(x + 1, d, q, r + 1);
    }
  }

  lemma LeapStep(y: int)
    ensures LeapsBefore(y + 1) == LeapsBefore(y) + if Leap(y) then 1 else 0
  {
    NextQuotient(y - 1969, 4);
    NextQuotient(y - 1901, 100);
    NextQuotient(y - 1601, 400);
  }

  lemma {:induction false} YearsClosed(y: int)
    requires y >= 1970
    ensures DaysBeforeYear(y) == (y - 1970) * 365 + LeapsBefore(y)
  {
    if y > 1970 {
      YearsClosed(y - 1);
      LeapStep(y - 1);
    }
  }

  const DaysSinceNewYear: seq<int> := [0, 31, 59, 90, 120, 151, 181, 212, 243, 273, 304, 334]

  lemma MonthsClosed(y: int, m: int)
    requires 1 <= m <= 12
    ensures DaysBeforeMonth(y, m) == DaysSinceNewYear[m - 1] + if m > 2 && Leap(y) then 1 else 0
  {
    if m > 1 {
      MonthsClosed(y, m - 1);
    }
  }

  /** The sum that to_unix_time forms as a 32-bit int, before one is taken off. */
  function IntSum(d: Date): int
    requires Valid(d)
  {
    (d.year - 1970) * 365 + LeapsBefore(d.year) + DaysSinceNewYear[d.month - 1] + d.day
  }

  /** It is the day count up to one, so it fits for every date whose time fits 32 bits. */
  lemma IntSumIs(d: Date)
    requires Valid(d)
    ensures IntSum(d) == Days(d) + if d.month > 2 && Leap(d.year) then 0 else 1
    ensures 365 * (d.year - 1970) <= Days(d) && 0 <= LeapsBefore(d.year)
    ensures Seconds(d) < 0x1_0000_0000 ==> IntSum(d) < 0x8000_0000
  {
    YearsClosed(d.year);
    MonthsClosed(d.year, d.month);
    LeapsNotNegative(d.year);
  }

  lemma {:induction false} LeapsNotNegative(y: int)
    requires y >= 1970
    ensures 0 <= LeapsBefore(y)
  {
    if y > 1970 {
      LeapsNotNegative(y - 1);
      LeapStep(y - 1);
    }
  }

  /** The leap years, each part an int. */
  method LeapYears(year: int32) returns (n: int32)
    requires year >= 1970
    ensures n as int == LeapsBefore(year as int)
  {
    n := (year - 1 - 1968) / 4 - (year - 1 - 1900) / 100 + (year - 1 - 1600) / 400;
  }

  /** The day count of to_unix_time, summed as an int. */
  method DaysSince1970(d: Date) returns (days: int64)
    requires Valid(d) && IntSum(d) < 0x8000_0000
    ensures days as int == Days(d)
  {
    IntSumIs(d);
    var year, month, day := d.year as int32, d.month as int32, d.day as int32;
    var leapYears := LeapYears(year);
    var sum: int32 := (year - 1970) * 365 + leapYears + DaysSinceNewYear[month - 1] as int32 + day - 1;
    days := sum as int64;
    if month > 2 && (year % 4 == 0 && (year % 100 != 0 || year % 400 == 0)) {
      days := days + 1;
    }
  }

  /** to_unix_time, for all dates whose sum fits an int. */
  method ToUnixTime(d: Date) returns (t: int64)
    requires Valid(d) && IntSum(d) < 0x8000_0000
    ensures t as int == Seconds(d)
  {
    IntSumIs(d);
    var days := DaysSince1970(d);
    t := d.second as int64 + 60 * (d.minute as int64 + 60 * (d.hour as int64 + 24 * days));
  }

  /** Four centuries have 146097 days, and the first of March 2000 is day 11017. */
  lemma FourCenturies(y: int)
    requires y >= 1970
    ensures DaysBeforeYear(y + 400) == DaysBeforeYear(y) + 146097
    ensures Days(Date(2000, 3, 1, 0, 0, 0)) == 11017
  {
    YearsClosed(y);
    YearsClosed(y + 400);
    assert (y - 1969 + 400) / 4 == (y - 1969) / 4 + 100;
    assert (y - 1901 + 400) / 100 == (y - 1901) / 100 + 4;
    assert (y - 1601 + 400) / 400 == (y - 1601) / 400 + 1;
    YearsClosed(2000);
    MonthsClosed(2000, 3);
  }

  // ----- splitting a day number -----

  /** Day `n`, counted from 1 March of year 0, is day `n1` of century `c`. */
  lemma CenturyOf(n: nat, c: int, n1: int)
    requires c == (4 * n + 3) / 146097 && n1 == n - (36524 * c + c / 4)
    ensures c >= 0 && 0 <= n1 <= 36524 && (c % 4 != 3 ==> n1 < 36524)
  {
    var q, r := c / 4, c % 4;
    assert 146097 * c <= 4 * n + 3 < 146097 * c + 146097;
    assert 36524 * c + q == 146097 * q + 36524 * r;
    var rest := n - 146097 * q;
    assert 146097 * r <= 4 * rest + 3 < 146097 * r + 146097;
  }

  /** Day `n1` of a century is day `n2` of its year `y`, years starting on 1 March. */
  lemma YearOf(n1: nat, y: int, n2: int)
    requires n1 <= 36524 && y == (4 * n1 + 3) / 1461 && n2 == n1 - (365 * y + y / 4)
    ensures 0 <= y <= 99 && 0 <= n2 <= 365 && (n2 == 365 ==> y % 4 == 3)
    ensures y == 99 && n2 == 365 ==> n1 == 36524
  {
    var q, r := y / 4, y % 4;
    assert 1461 * y <= 4 * n1 + 3 < 1461 * y + 1461;
    var rest := n1 - 1461 * q;
    assert 1461 * r <= 4 * rest + 3 < 1461 * r + 1461;
  }

  /** Day `n2` of a year that starts on 1 March is day `d` of its month `m`, counted from 0. */
  lemma MonthOf(n2: nat, m: int, d: int)
    requires n2 <= 365 && m == (5 * n2 + 2) / 153 && d == n2 - (m * 153 + 2) / 5
    ensures 0 <= m <= 11 && d >= 0
    ensures m < 11 ==> d < MonthLength(1, (m + 2) % 12 + 1)
    ensures m == 11 ==> d == n2 - 337
  {
    assert 153 * m <= 5 * n2 + 2 < 153 * m + 153;
  }

  /** Days before year `y + 1`, from the year count of the March calendar. */
  lemma MarchYears(y: int)
    requires y >= 1969
    ensures DaysBeforeYear(y + 1) == 365 * y + y / 4 - y / 100 + y / 400 + 306 - 719468
  {
    YearsClosed(y + 1);
    assert (y - 1968) / 4 == y / 4 - 492;
    assert (y - 1900) / 100 == y / 100 - 19;
    assert (y - 1600) / 400 == y / 400 - 4;
  }

  lemma CenturyYear(c: nat, y1: nat)
    requires y1 <= 99
    ensures var y := 100 * c + y1; y / 100 == c && y / 400 == c / 4 && y / 4 == 25 * c + y1 / 4
  {
    var q, r := c / 4, c % 4;
    assert 100 * c + y1 == 400 * q + (100 * r + y1);
  }

  /** Day `n2` of the March year `y`, if it is not before 1970. */
  lemma NotBefore1970(y: nat, n2: nat)
    requires n2 <= 365 && 365 * y + y / 4 - y / 100 + y / 400 + n2 >= 719468
    ensures y >= 1969 && (y == 1969 ==> n2 >= 306)
  {
  }

  /** The date made from the parts of a day number. */
  function Assemble(y: int, m: int, d: int, secs: int): Date {
    var month := m + 3;
    Date(if month > 12 then y + 1 else y, if month > 12 then month - 12 else month, d + 1,
         secs / 3600, secs % 3600 / 60, secs % 60)
  }

  lemma AssembledDays(y: nat, n2: nat, m: int, d: int, secs: nat)
    requires n2 <= 365 && m == (5 * n2 + 2) / 153 && d == n2 - (m * 153 + 2) / 5 && secs < 86400
    requires y >= 1969 && (y == 1969 ==> n2 >= 306) && (n2 == 365 ==> Leap(y + 1))
    ensures Valid(Assemble(y, m, d, secs))
    ensures Days(Assemble(y, m, d, secs)) == 365 * y + y / 4 - y / 100 + y / 400 + n2 - 719468
  {
    MonthOf(n2, m, d);
    MarchYears(y);
    var date := Assemble(y, m, d, secs);
    MonthsClosed(date.year, date.month);
    assert m <= 9 ==> DaysBeforeYear(y + 1) == DaysBeforeYear(y) + YearLength(y);
  }

  lemma LastDayIsLeap(c: nat, y1: nat, n1: nat, n2: nat)
    requires y1 <= 99 && n2 == 365 && y1 % 4 == 3
    requires (c % 4 != 3 ==> n1 < 36524) && (y1 == 99 ==> n1 == 36524)
    ensures Leap(100 * c + y1 + 1)
  {
    var y := 100 * c + y1 + 1;
    if y1 == 99 {
      assert y == 400 * (c / 4 + 1);
    } else {
      assert y % 4 == 0 && y % 100 == y1 + 1;
    }
  }

  /** The parts of day `n` after 1 March of year 0. */
  lemma DayParts(n: nat, c: int, n1: int, y1: int, n2: int)
    requires n >= 719468
    requires c == (4 * n + 3) / 146097 && n1 == n - (36524 * c + c / 4)
    requires y1 == (4 * n1 + 3) / 1461 && n2 == n1 - (365 * y1 + y1 / 4)
    ensures c >= 0 && 0 <= n1 <= 36524 && 0 <= y1 <= 99 && 0 <= n2 <= 365
    ensures var y := 100 * c + y1;
      && n == 365 * y + y / 4 - y / 100 + y / 400 + n2
      && y >= 1969 && (y == 1969 ==> n2 >= 306) && (n2 == 365 ==> Leap(y + 1))
  {
    CenturyOf(n, c, n1);
    YearOf(n1, y1, n2);
    CenturyYear(c, y1);
    NotBefore1970(100 * c + y1, n2);
    if n2 == 365 {
      LastDayIsLeap(c, y1, n1, n2);
    }
  }

  /** The year, counted from March, and the day in it. */
  method SplitYears(n: uint32) returns (year: int32, dayN: uint32)
    requires 719468 <= n <= 800000
    ensures var y, k := year as int, dayN as int;
      && k <= 365 && n as int == 365 * y + y / 4 - y / 100 + y / 400 + k
      && 1969 <= y <= 3000 && (y == 1969 ==> k >= 306) && (k == 365 ==> Leap(y + 1))
  {
    var temp := Quotient(n, 36524, 146097);
    ghost var c, n1 := temp as int, n as int - (36524 * temp as int + temp as int / 4);
    CenturyOf(n as int, c, n1);
    year := (100 * temp) as int32;
    dayN := n - (36524 * temp + temp / 4);

    temp := Quotient(dayN, 365, 1461);
    ghost var y1 := temp as int;
    DayParts(n as int, c, n1, y1, n1 - (365 * y1 + y1 / 4));
    year := year + temp as int32;
    dayN := dayN - (365 * temp + temp / 4);
  }

  /** The month and day from the day in the March year, and the time of day. */
  method SplitMonths(y: int32, dayN: uint32, secs: uint32) returns (date: Date)
    requires dayN <= 365 && secs < 86400
    requires 1969 <= y <= 3000 && (y == 1969 ==> dayN >= 306) && (dayN == 365 ==> Leap(y as int + 1))
    ensures Valid(date)
    ensures var y := y as int; Days(date) == 365 * y + y / 4 - y / 100 + y / 400 + dayN as int - 719468
    ensures 3600 * date.hour + 60 * date.minute + date.second == secs as int
  {
    var year, month := y, ((5 * dayN + 2) / 153) as int32;
    ghost var n2, m := dayN as int, month as int;
    MonthOf(n2, m, n2 - (m * 153 + 2) / 5);
    AssembledDays(y as int, n2, m, n2 - (m * 153 + 2) / 5, secs as int);
    var day := (dayN - ((month * 153 + 2) / 5) as uint32 + 1) as int32;
    month := month + 3;
    if month > 12 {
      month := month - 12;
      year := year + 1;
    }
    var hour, minute, second := secs / 3600, secs % 3600 / 60, secs % 60;
    date := Date(year as int, month as int, day as int, hour as int, minute as int, second as int);
  }

  /** from_unix_time, for every 32-bit time. */
  method FromUnixTime(t: uint32) returns (date: Date)
    ensures Valid(date) && Seconds(date) == t as int
  {
    var n := 719468 + t / 86400;
    var secs := t % 86400;
    var year, dayN := SplitYears(n);
    date := SplitMonths(year, dayN, secs);
  }

  /** The quotient the code takes at each level, one too large and then reduced. */
  method Quotient(n: uint32, len: uint32, four: uint32) returns (temp: uint32)
    requires n <= 800000 && len <= 36524 && four == 4 * len + 1
    ensures temp as int == (4 * n as int + 3) / four as int
  {
    ghost var q, r := (4 * n as int + 3) / four as int, (4 * n as int + 3) % four as int;
    assert 4 * (n as int + len as int + 1) == (q + 1) * four as int + r;
    RemainderIs(4 * (n as int + len as int + 1), four as int, q + 1, r);
    temp := 4 * (n + len + 1) / four - 1;
  }

  // ----- the two round trips -----

  lemma {:induction false} YearsMonotone(y: int, z: int)
    requires 1970 <= y < z
    ensures DaysBeforeYear(y) + YearLength(y) <= DaysBeforeYear(z)
    decreases z
  {
    if y < z - 1 {
      YearsMonotone(y, z - 1);
    }
  }

  lemma {:induction false} MonthsMonotone(y: int, m: int, n: int)
    requires 1 <= m < n <= 13
    ensures DaysBeforeMonth(y, m) + MonthLength(y, m) <= DaysBeforeMonth(y, n)
    decreases n
  {
    if m < n - 1 {
      MonthsMonotone(y, m, n - 1);
    }
  }

  lemma WithinYear(d: Date)
    requires Valid(d)
    ensures DaysBeforeYear(d.year) <= Days(d) < DaysBeforeYear(d.year) + YearLength(d.year)
  {
    MonthsMonotone(d.year, d.month, 13);
    MonthsClosed(d.year, 12);
    assert DaysBeforeMonth(d.year, 13) == DaysBeforeMonth(d.year, 12) + MonthLength(d.year, 12);
    MonthsClosed(d.year, d.month);
  }

  /** Different dates are different times. */
  lemma SecondsInjective(d: Date, e: Date)
    requires Valid(d) && Valid(e) && Seconds(d) == Seconds(e)
    ensures d == e
  {
    WithinYear(d);
    WithinYear(e);
    if d.year < e.year { YearsMonotone(d.year, e.year); } else if e.year < d.year { YearsMonotone(e.year, d.year); }
    if d.month < e.month { MonthsMonotone(d.year, d.month, e.month); }
    else if e.month < d.month { MonthsMonotone(d.year, e.month, d.month); }
  }

  /** from_unix_time after to_unix_time. The parameter keeps 32 bits of the time, so the date comes
      back exactly if its time fits them. */
  method DateRoundTrip(d: Date) returns (e: Date)
    requires Valid(d) && IntSum(d) < 0x8000_0000
    ensures Valid(e) && Seconds(e) == Seconds(d) % 0x1_0000_0000
    ensures e == d <==> Seconds(d) < 0x1_0000_0000
  {
    var t := ToUnixTime(d);
    IntSumIs(d);
    e := FromUnixTime((t % 0x1_0000_0000) as uint32);
    if Seconds(d) < 0x1_0000_0000 {
      SecondsInjective(d, e);
    }
  }

  /** to_unix_time after from_unix_time gives the time back. */
  method TimeRoundTrip(t: uint32) returns (u: int64)
    ensures u as int == t as int
  {
    var d := FromUnixTime(t);
    IntSumIs(d);
    u := ToUnixTime(d);
  }
}
