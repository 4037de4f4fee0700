/** Seconds since 1970 to calendar fields, by the two loops the source uses,
    against the proleptic Gregorian calendar. */
module Calendar {

  predicate IsLeap(y: nat) {
    (y % 4 == 0 && y % 100 != 0) || y % 400 == 0
  }

  function YearDays(y: nat): nat {
    if IsLeap(y) then 366 else 365
  }

  /** Month lengths, section 5.7 of RFC 3339. */
  function MonthDays(y: nat): seq<nat> {
    [31, if IsLeap(y) then 29 else 28, 31, 30, 31, 30, 31, 31, 30, 31, 30, 31]
  }

  /** Days before January 1st of year y since January 1st of year 0, in closed
      form: a leap day every 4 years, except every 100, except every 400. */
  function DaysBefore(y: nat): int {
    365 * y + (y + 3) / 4 - (y + 99) / 100 + (y + 399) / 400
  }

  const EPOCH_YEAR: nat := 1970

  const EPOCH: int := DaysBefore(1970)

  /** Days before month m, counted from 1, of a year with these months. */
  function DaysBeforeMonth(months: seq<nat>, m: nat): nat
    requires m <= |months|
  {
    if m == 0 then 0 else DaysBeforeMonth(months, m - 1) + months[m - 1]
  }

  datatype Fields = Fields(year: nat, month: nat, day: nat, hour: nat, minute: nat, second: nat)

  ghost predicate InRange(f: Fields) {
    && f.year >= EPOCH_YEAR && 1 <= f.month <= 12
    && 1 <= f.day <= MonthDays(f.year)[f.month - 1]
    && f.hour < 24 && f.minute < 60 && f.second < 60
  }

  function DayNumber(f: Fields): int
    requires 1 <= f.month <= 12
  {
    DaysBefore(f.year) - EPOCH + DaysBeforeMonth(MonthDays(f.year), f.month - 1) + f.day - 1
  }

  /** Seconds since the epoch that the fields denote. */
  function Seconds(f: Fields): int
    requires 1 <= f.month <= 12
  {
    DayNumber(f) * 86400 + f.hour * 3600 + f.minute * 60 + f.second
  }

  lemma Quotient(n: nat, k: nat, q: nat, r: nat)
    requires 0 <= r < k && n == q * k + r
    ensures n / k == q
  {
    var p := n / k;
    assert n == p * k + n % k;
    assert p < q ==> (p + 1) * k <= q * k;
    assert q < p ==> (q + 1) * k <= p * k;
  }

  lemma CountsUp(y: nat, k: nat)
    requires k > 0
    ensures (y + k) / k == (y + k - 1) / k + if y % k == 0 then 1 else 0
  {
    var q, r := y / k, y % k;
    assert y == q * k + r;
    Quotient(y + k, k, q + 1, r);
    if r == 0 {
      Quotient(y + k - 1, k, q, k - 1);
    } else {
      Quotient(y + k - 1, k, q + 1, r - 1);
    }
  }

  lemma Divides(y: nat, k: nat, n: nat)
    requires k > 0 && n > 0
    ensures y % (k * n) == 0 ==> y % k == 0
  {
    if y % (k * n) == 0 {
      var q := y / (k * n);
      assert y == (k * n) * q == k * (n * q);
      Quotient(y, k, n * q, 0);
    }
  }

  lemma LeapDays(y: nat)
    ensures (y + 4) / 4 - (y + 100) / 100 + (y + 400) / 400
         == (y + 3) / 4 - (y + 99) / 100 + (y + 399) / 400 + if IsLeap(y) then 1 else 0
  {
    CountsUp(y, 4);
    CountsUp(y, 100);
    CountsUp(y, 400);
    Divides(y, 4, 25);
    Divides(y, 100, 4);
  }

  lemma DaysBeforeNext(y: nat)
    ensures DaysBefore(y + 1) == DaysBefore(y) + YearDays(y)
  {
    LeapDays(y);
  }

  lemma {:induction false} DaysBeforeMonotone(y: nat, z: nat)
    requires y <= z
    ensures DaysBefore(y) + 365 * (z - y) <= DaysBefore(z)
    decreases z - y
  {
    if y < z {
      DaysBeforeNext(z - 1);
      DaysBeforeMonotone(y, z - 1);
    }
  }

  // ------------------------------------------------------------------
  // Months
  // ------------------------------------------------------------------

  lemma MonthSums(months: seq<nat>, m: nat)
    requires 4 <= m <= |months|
    ensures DaysBeforeMonth(months, m)
         == DaysBeforeMonth(months, m - 4) + months[m - 4] + months[m - 3] + months[m - 2] + months[m - 1]
  {
    assert DaysBeforeMonth(months, m - 2) == DaysBeforeMonth(months, m - 3) + months[m - 3];
  }

  lemma MonthsFillYear(y: nat)
    ensures DaysBeforeMonth(MonthDays(y), 12) == YearDays(y)
  {
    var ms := MonthDays(y);
    MonthSums(ms, 4);
    MonthSums(ms, 8);
    MonthSums(ms, 12);
  }

  lemma {:induction false} MonthsMonotone(months: seq<nat>, m: nat, n: nat)
    requires m <= n <= |months|
    ensures DaysBeforeMonth(months, m) <= DaysBeforeMonth(months, n)
    decreases n - m
  {
    if m < n {
      MonthsMonotone(months, m, n - 1);
    }
  }

  /** An in-range date lies within its month and its year. */
  lemma DayWithin(f: Fields)
    requires InRange(f)
    ensures
      var d := DaysBeforeMonth(MonthDays(f.year), f.month - 1) + f.day - 1;
      && d < DaysBeforeMonth(MonthDays(f.year), f.month)
      && d < YearDays(f.year)
  {
    MonthsMonotone(MonthDays(f.year), f.month, 12);
    MonthsFillYear(f.year);
  }

  /** Days before each month, written out. */
  lemma MonthStarts(y: nat, m: nat)
    requires 1 <= m <= 12
    ensures
      var leap := if IsLeap(y) then 1 else 0;
      DaysBeforeMonth(MonthDays(y), m - 1)
        == if m <= 2 then 31 * (m - 1) else 59 + leap + (153 * (m - 3) + 2) / 5
  {
    var ms := MonthDays(y);
    assert DaysBeforeMonth(ms, 1) == 31;
    assert DaysBeforeMonth(ms, 2) == 31 + if IsLeap(y) then 29 else 28;
    assert DaysBeforeMonth(ms, 4) == DaysBeforeMonth(ms, 2) + 61;
    assert DaysBeforeMonth(ms, 6) == DaysBeforeMonth(ms, 4) + 61;
    assert DaysBeforeMonth(ms, 8) == DaysBeforeMonth(ms, 6) + 62;
    assert DaysBeforeMonth(ms, 10) == DaysBeforeMonth(ms, 8) + 61;
    assert DaysBeforeMonth(ms, 11) == DaysBeforeMonth(ms, 10) + 30;
  }

  /** All but the month: days of whole years before March 1st. */
  function MarchDays(y: int): int {
    365 * y + y / 4 - y / 100 + y / 400 - 719468
  }

  /** March 1st, as a day of a year and as the start of the next one's count. */
  lemma MarchYear(y: nat)
    ensures DaysBefore(y) - EPOCH + 59 + (if IsLeap(y) then 1 else 0) == MarchDays(y)
    ensures DaysBefore(y) - EPOCH - 306 == MarchDays(y - 1)
  {
    assert EPOCH == 719528;
    LeapDays(y);
  }

  /** Days from March 1st to the first of a month, which the formula counts in
      groups of five months. */
  function FromMarch(m: nat): int {
    (153 * ((m + 9) % 12) + 2) / 5
  }

  lemma FromMarchAt(m: nat)
    requires 1 <= m <= 12
    ensures FromMarch(m) == if m <= 2 then 306 + 31 * (m - 1) else (153 * (m - 3) + 2) / 5
  {
    if m <= 2 {
      assert (m + 9) % 12 == m + 9;
    } else {
      assert (m + 9) % 12 == m - 3;
    }
  }

  lemma DayFromMarch(f: Fields)
    requires 1 <= f.month <= 12
    ensures DayNumber(f) == MarchDays(if f.month <= 2 then f.year - 1 else f.year) + FromMarch(f.month) + f.day - 1
  {
    MonthStarts(f.year, f.month);
    MarchYear(f.year);
    FromMarchAt(f.month);
    hide MonthDays, DaysBeforeMonth, DaysBefore, IsLeap, FromMarch, MarchDays;
  }

  /** The day number by the usual formula that counts years from March: no
      table of months, and January 1st of 1970 is day 0. */
  lemma DayByFormula(f: Fields)
    requires 1 <= f.month <= 12
    ensures
      var y := if f.month <= 2 then f.year - 1 else f.year;
      DayNumber(f) == 365 * y + y / 4 - y / 100 + y / 400 + (153 * ((f.month + 9) % 12) + 2) / 5 + f.day - 1 - 719468
  {
    DayFromMarch(f);
    hide DayNumber;
  }

  // ------------------------------------------------------------------
  // Order
  // ------------------------------------------------------------------

  /** Field by field, most significant first. */
  predicate Before(f: Fields, g: Fields) {
    f.year < g.year || (f.year == g.year &&
    (f.month < g.month || (f.month == g.month &&
    (f.day < g.day || (f.day == g.day &&
    (f.hour < g.hour || (f.hour == g.hour &&
    (f.minute < g.minute || (f.minute == g.minute && f.second < g.second)))))))))
  }

  lemma LaterYear(f: Fields, g: Fields)
    requires InRange(f) && InRange(g) && f.year < g.year
    ensures DayNumber(f) < DayNumber(g)
  {
    DayWithin(f);
    DayWithin(g);
    DaysBeforeNext(f.year);
    DaysBeforeMonotone(f.year + 1, g.year);
    hide DaysBefore, DaysBeforeMonth, MonthDays, YearDays;
  }

  lemma LaterInYear(f: Fields, g: Fields)
    requires InRange(f) && InRange(g) && f.year == g.year
    requires f.month < g.month || (f.month == g.month && f.day < g.day)
    ensures DayNumber(f) < DayNumber(g)
  {
    DayWithin(f);
    DayWithin(g);
    if f.month < g.month {
      MonthsMonotone(MonthDays(f.year), f.month, g.month - 1);
    }
    hide DaysBefore, DaysBeforeMonth, MonthDays, YearDays;
  }

  lemma BeforeIsEarlier(f: Fields, g: Fields)
    requires InRange(f) && InRange(g) && Before(f, g)
    ensures Seconds(f) < Seconds(g)
  {
    if f.year == g.year && f.month == g.month && f.day == g.day {
      assert DayNumber(f) == DayNumber(g);
    } else {
      if f.year < g.year { LaterYear(f, g); } else { LaterInYear(f, g); }
    }
  }

  /** Counting seconds respects the order of fields, strictly, both ways. */
  lemma OrderIsExact(f: Fields, g: Fields)
    requires InRange(f) && InRange(g)
    ensures Before(f, g) <==> Seconds(f) < Seconds(g)
    ensures f == g <==> Seconds(f) == Seconds(g)
  {
    if Before(f, g) { BeforeIsEarlier(f, g); }
    if Before(g, f) { BeforeIsEarlier(g, f); }
    assert f == g || Before(f, g) || Before(g, f);
  }

  // ------------------------------------------------------------------
  // The conversion
  // ------------------------------------------------------------------

  const YEARS_END: nat := 0x1_0000_0000

  lemma TimeOfDay(total: nat)
    ensures total / 60 / 60 / 24 == total / 86400
    ensures total == (total / 60 / 60 / 24) * 86400 + (total / 60 / 60 % 24) * 3600 + (total / 60 % 60) * 60 + total % 60
  {
    var m, h := total / 60, total / 60 / 60;
    assert total == m * 60 + total % 60 && m == h * 60 + m % 60 && h == (h / 24) * 24 + h % 24;
  }

  /** Take whole years off until the rest is within one. */
  method YearOf(total: nat) returns (y: nat, days: nat)
    requires total < DaysBefore(YEARS_END) - EPOCH
    ensures EPOCH_YEAR <= y < YEARS_END && days < YearDays(y)
    ensures DaysBefore(y) - EPOCH + days == total
  {
    y, days := EPOCH_YEAR, total;
    while days >= YearDays(y)
      invariant EPOCH_YEAR <= y && DaysBefore(y) - EPOCH + days == total
      decreases days
    {
      DaysBeforeNext(y);
      days := days - YearDays(y);
      y := y + 1;
    }
    if y >= YEARS_END {
      DaysBeforeMonotone(YEARS_END, y);
    }
  }

  /** Take whole months off until the rest is within one. */
  method MonthOf(y: nat, total: nat) returns (mo: nat, d: nat)
    requires total < YearDays(y)
    ensures 1 <= mo <= 12 && 1 <= d <= MonthDays(y)[mo - 1]
    ensures DaysBeforeMonth(MonthDays(y), mo - 1) + d - 1 == total
  {
    var months := MonthDays(y);
    var days: nat := total;
    mo, d := 0, 0;
    for i := 0 to |months|
      invariant mo == 0 && days + DaysBeforeMonth(months, i) == total
    {
      if days < months[i] {
        mo := i + 1;
        d := days + 1;
        return;
      }
      days := days - months[i];
    }
    MonthsFillYear(y);
    assert false;
  }

  /** The fields of a moment whose year fits 32 bits: in range, and denoting
      exactly these seconds.  By `OrderIsExact` no other fields do, and later
      moments have later fields. */
  method SecsToYmdhms(total: nat) returns (f: Fields)
    requires total / 86400 < DaysBefore(YEARS_END) - EPOCH
    ensures InRange(f) && f.year < YEARS_END
    ensures Seconds(f) == total
  {
    var secs := total;
    var s := secs % 60;
    secs := secs / 60;
    var mi := secs % 60;
    secs := secs / 60;
    var h := secs % 24;
    secs := secs / 24;
    TimeOfDay(total);
    var y, days := YearOf(secs);
    var mo, d := MonthOf(y, days);
    f := Fields(y, mo, d, h, mi, s);
  }
}
