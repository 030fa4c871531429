/** Calendar time (Kernel/time.c): mktime against days counted one by one. */
module Time {
  import opened Arith

  const DAY: int := 86400

  /** Unsigned 32-bit arithmetic. */
  function U(x: int): (r: int)
    ensures 0 <= r < WORD
  {
    x % WORD
  }

  /** mktime, every intermediate result an unsigned 32-bit word; zone is the variable time_zone. The month and year are first shifted so
      that February is the last month. */
  function Mktime(year: int, mon: int, day: int, hour: int, min: int, sec: int, zone: int): int {
    Seconds(Days(ShiftedYear(year, U(mon - 2)), ShiftedMonth(U(mon - 2)), day), hour, min, sec, zone)
  }

  /** The word m is at most 0 when read as a signed number. */
  predicate Early(m: int) {
    m == 0 || m >= WORD / 2
  }

  function ShiftedMonth(m: int): int {
    if Early(m) then U(m + 12) else m
  }

  function ShiftedYear(year: int, m: int): int {
    if Early(m) then U(year - 1) else year
  }

  function Days(y: int, m: int, day: int): int {
    Total(y / 4 - y / 100, y / 400, U(367 * m) / 12, day, y * 365)
  }

  function Total(a: int, b: int, c: int, day: int, e: int): int {
    U(U(U(U(U(U(a) + b) + c) + day) + U(e)) - 719499)
  }

  function Seconds(days: int, hour: int, min: int, sec: int, zone: int): int {
    U(U(U(U(U(U(U(days * 24) + hour) * 60) + min) * 60) + sec) + zone)
  }

  // ----- The Gregorian calendar -----

  predicate Leap(y: int) {
    y % 4 == 0 && (y % 100 != 0 || y % 400 == 0)
  }

  function LeapDay(y: int): int {
    if Leap(y) then 1 else 0
  }

  function MonthDays(y: int, m: int): int {
    if m == 2 then 28 + LeapDay(y)
    else if m == 4 || m == 6 || m == 9 || m == 11 then 30
    else 31
  }

  predicate ValidDate(y: int, m: int, d: int) {
    1970 <= y < WORD && 1 <= m <= 12 && 1 <= d <= MonthDays(y, m)
  }

  /** Days of the years from 1970 up to, but without, y. */
  function YearsBefore(y: int): int
    requires y >= 1970
    decreases y
  {
    if y == 1970 then 0 else YearsBefore(y - 1) + 365 + LeapDay(y - 1)
  }

  /** Days of the months of year y before m. */
  function MonthsBefore(y: int, m: int): int
    requires 1 <= m <= 13
    decreases m
  {
    if m == 1 then 0 else MonthsBefore(y, m - 1) + MonthDays(y, m - 1)
  }

  /** Days since 1 January 1970. */
  function DayNumber(y: int, m: int, d: int): int
    requires ValidDate(y, m, d)
  {
    YearsBefore(y) + MonthsBefore(y, m) + d - 1
  }

  datatype Date = Date(y: int, m: int, d: int)

  function NextDay(y: int, m: int, d: int): Date {
    if d < MonthDays(y, m) then Date(y, m, d + 1)
    else if m < 12 then Date(y, m + 1, 1)
    else Date(y + 1, 1, 1)
  }

  /** Every calendar day is numbered one more than the day before it. */
  lemma NextDayNumber(y: int, m: int, d: int)
    requires ValidDate(y, m, d) && y + 1 < WORD
    ensures var n := NextDay(y, m, d); ValidDate(n.y, n.m, n.d) && DayNumber(n.y, n.m, n.d) == DayNumber(y, m, d) + 1
  {
    YearLength(y);
  }

  lemma YearLength(y: int)
    ensures MonthsBefore(y, 12) + MonthDays(y, 12) == 365 + LeapDay(y)
  {
    MonthTable(y, 12);
  }

  /** The months of a year, counted from March. */
  lemma {:induction false} MonthTable(y: int, m: int)
    requires 1 <= m <= 12
    ensures MonthsBefore(y, m) == if m <= 2 then 367 * (m + 10) / 12 - 336 else 367 * (m - 2) / 12 + 29 + LeapDay(y)
  {
    if m > 1 { MonthTable(y, m - 1); }
  }

  // ----- The closed form -----

  function Leaps(y: int): int {
    y / 4 - y / 100 + y / 400
  }

  lemma DivStep(y: int, n: int)
    requires n >= 1
    ensures y / n == (y - 1) / n + if y % n == 0 then 1 else 0
  {
    var q, r := y / n, y % n;
    assert y == q * n + r;
    if r == 0 {
      assert y - 1 == (q - 1) * n + (n - 1);
      DivModIs(y - 1, n, q - 1, n - 1);
    } else {
      DivModIs(y - 1, n, q, r - 1);
    }
  }

  lemma Multiples(y: int)
    ensures y % 400 == 0 ==> y % 100 == 0
    ensures y % 100 == 0 ==> y % 4 == 0
  {
    if y % 100 == 0 { DivModIs(y, 4, 25 * (y / 100), 0); }
    if y % 400 == 0 { DivModIs(y, 100, 4 * (y / 400), 0); }
  }

  lemma LeapStep(y: int)
    ensures Leaps(y) == Leaps(y - 1) + LeapDay(y)
  {
    DivStep(y, 4);
    DivStep(y, 100);
    DivStep(y, 400);
    Multiples(y);
  }

  lemma {:induction false} YearsClosed(y: int)
    requires y >= 1970
    ensures YearsBefore(y) == 365 * (y - 1970) + Leaps(y - 1) - Leaps(1969)
    decreases y
  {
    if y > 1970 {
      YearsClosed(y - 1);
      LeapStep(y - 1);
    }
  }

  /** The count of days as one formula over the year that starts in March. */
  lemma DaysClosed(y: int, m: int, d: int)
    requires ValidDate(y, m, d)
    ensures var yy, mm := if m <= 2 then y - 1 else y, if m <= 2 then m + 10 else m - 2;
            DayNumber(y, m, d) == Leaps(yy) + 367 * mm / 12 + d + 365 * yy - 719499
  {
    YearsClosed(y);
    MonthTable(y, m);
    LeapStep(y);
  }

  // ----- Wrap-around -----

  lemma WrapIs(x: int, y: int, q: int)
    requires x == y + q * WORD
    ensures U(x) == U(y)
  {
    DivModIs(x, WORD, y / WORD + q, y % WORD);
  }

  lemma WrapExact(x: int)
    ensures U(x) == x <==> 0 <= x < WORD
  {
  }

  lemma WrapStep(x: int, d: int)
    requires 0 <= d < WORD
    ensures U(U(x + d) - U(x)) == d
  {
    WrapIs(U(x + d) - U(x), d, x / WORD - (x + d) / WORD);
  }

  /** Reducing a term before adding to it or multiplying it does not change the reduced result. */
  lemma WrapAdd(x: int, y: int)
    ensures U(U(x) + y) == U(x + y) && U(U(x) + U(y)) == U(x + y)
  {
    WrapIs(x + y, U(x) + y, x / WORD);
    WrapIs(U(x) + y, U(x) + U(y), y / WORD);
  }

  lemma WrapMul(x: int, k: int)
    ensures U(U(x) * k) == U(x * k)
  {
    var q := x / WORD;
    assert x * k == (U(x) + q * WORD) * k == U(x) * k + (q * k) * WORD;
    WrapIs(x * k, U(x) * k, q * k);
  }

  lemma TotalWrap(a: int, b: int, c: int, day: int, e: int)
    ensures Total(a, b, c, day, e) == U(a + b + c + day + e - 719499)
  {
    WrapAdd(a, b);
    WrapAdd(a + b, c);
    WrapAdd(a + b + c, day);
    WrapAdd(a + b + c + day, e);
    WrapAdd(a + b + c + day + e, -719499);
  }

  lemma DaysWrap(y: int, m: int, day: int)
    requires 1 <= m <= 12
    ensures Days(y, m, day) == U(Leaps(y) + 367 * m / 12 + day + 365 * y - 719499)
  {
    WrapExact(367 * m);
    TotalWrap(y / 4 - y / 100, y / 400, 367 * m / 12, day, y * 365);
  }

  /** The month and year that mktime calculates with. */
  lemma Shifted(y: int, m: int)
    requires 1 <= y < WORD && 1 <= m <= 12
    ensures ShiftedYear(y, U(m - 2)) == (if m <= 2 then y - 1 else y) && ShiftedMonth(U(m - 2)) == if m <= 2 then m + 10 else m - 2
  {
    if m == 1 {
      assert U(m - 2) == WORD - 1;
      assert U(WORD + 11) == 11;
    }
  }

  lemma SecondsWrap(n: int, hour: int, min: int, sec: int, zone: int)
    ensures Seconds(U(n), hour, min, sec, zone) == U(DAY * n + 3600 * hour + 60 * min + sec + zone)
  {
    var h := n * 24 + hour;
    var m := h * 60 + min;
    var s := m * 60 + sec;
    WrapMul(n, 24);
    WrapAdd(n * 24, hour);
    WrapMul(h, 60);
    WrapAdd(h * 60, min);
    WrapMul(m, 60);
    WrapAdd(m * 60, sec);
    WrapAdd(s, zone);
  }

  /** The seconds since the epoch of a local time. */
  function Elapsed(y: int, m: int, d: int, hour: int, min: int, sec: int, zone: int): int
    requires ValidDate(y, m, d)
  {
    DAY * DayNumber(y, m, d) + 3600 * hour + 60 * min + sec + zone
  }

  /** mktime counts the days since the epoch exactly, up to the wrap-around of its result. */
  lemma MktimeCounts(y: int, m: int, d: int, hour: int, min: int, sec: int, zone: int)
    requires ValidDate(y, m, d)
    ensures Mktime(y, m, d, hour, min, sec, zone) == U(Elapsed(y, m, d, hour, min, sec, zone))
  {
    DaysClosed(y, m, d);
    Shifted(y, m);
    DaysWrap(if m <= 2 then y - 1 else y, if m <= 2 then m + 10 else m - 2, d);
    SecondsWrap(DayNumber(y, m, d), hour, min, sec, zone);
  }

  /** The result is the true count exactly when that fits an unsigned word; with the initial zone of eight hours,
      from 1 January 1970, 08:00:00, to the year 2106. */
  lemma MktimeExact(y: int, m: int, d: int, hour: int, min: int, sec: int, zone: int)
    requires ValidDate(y, m, d)
    ensures Mktime(y, m, d, hour, min, sec, zone) == Elapsed(y, m, d, hour, min, sec, zone) <==> 0 <= Elapsed(y, m, d, hour, min, sec, zone) < WORD
  {
    MktimeCounts(y, m, d, hour, min, sec, zone);
    WrapExact(Elapsed(y, m, d, hour, min, sec, zone));
  }

  /** The same time on consecutive days is 86400 seconds apart across month, year and leap boundaries. */
  lemma ConsecutiveDays(y: int, m: int, d: int, hour: int, min: int, sec: int, zone: int)
    requires ValidDate(y, m, d) && y + 1 < WORD
    ensures var n := NextDay(y, m, d);
            U(Mktime(n.y, n.m, n.d, hour, min, sec, zone) - Mktime(y, m, d, hour, min, sec, zone)) == DAY
  {
    var n := NextDay(y, m, d);
    NextDayNumber(y, m, d);
    MktimeCounts(y, m, d, hour, min, sec, zone);
    MktimeCounts(n.y, n.m, n.d, hour, min, sec, zone);
    WrapStep(Elapsed(y, m, d, hour, min, sec, zone), DAY);
  }

  /** Four centuries are 146097 days. */
  lemma FourCenturies(y: int)
    requires y >= 1970
    ensures YearsBefore(y + 400) == YearsBefore(y) + 146097
  {
    YearsClosed(y);
    YearsClosed(y + 400);
    LeapsIn400(y - 1);
  }

  lemma LeapsIn400(y: int)
    ensures Leaps(y + 400) == Leaps(y) + 97
  {
    DivModIs(y + 400, 4, y / 4 + 100, y % 4);
    DivModIs(y + 400, 100, y / 100 + 4, y % 100);
    DivModIs(y + 400, 400, y / 400 + 1, y % 400);
  }

  /** 1972 is a leap year and 2100 is none: the last days of February are numbered so. */
  lemma FebruaryEnds(y: int)
    requires y == 1970
    ensures ValidDate(y + 2, 2, 29) && DayNumber(y + 2, 2, 29) == 789 && !ValidDate(y + 130, 2, 29) && DayNumber(y + 130, 3, 1) == 47541
  {
    DaysClosed(y + 2, 2, 29);
    DaysClosed(y + 130, 3, 1);
  }
}
