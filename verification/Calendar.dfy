/** The closed-form day number of web/lib/time.ts against counting days one at a time. */
module Calendar {
  datatype Date = Date(year: int, month: int, day: int)

  // BigInt division truncates toward zero.
  function Div(a: int, b: int): int
    requires b > 0
  {
    if a >= 0 then a / b else -(-a / b)
  }

  function Rem(a: int, b: int): int
    requires b > 0
  {
    a - Div(a, b) * b
  }

  predicate IsLeapYear(year: int) {
    Rem(year, 4) == 0 && (Rem(year, 100) != 0 || Rem(year, 400) == 0)
  }

  function DaysInMonth(year: int, month: int): int {
    if month == 2 then (if IsLeapYear(year) then 29 else 28)
    else if month == 4 || month == 6 || month == 9 || month == 11 then 30
    else 31
  }

  function DaysSinceUnixEpoch(d: Date): int {
    var adjustedYear := d.year - (if d.month <= 2 then 1 else 0);
    var era := Div(adjustedYear, 400);
    var yearOfEra := adjustedYear - era * 400;
    var adjustedMonth := d.month + (if d.month > 2 then -3 else 9);
    var dayOfYear := Div(153 * adjustedMonth + 2, 5) + d.day - 1;
    var dayOfEra := yearOfEra * 365 + Div(yearOfEra, 4) - Div(yearOfEra, 100) + dayOfYear;
    era * 146_097 + dayOfEra - 719_468
  }

  predicate ValidDate(d: Date) {
    1 <= d.year && 1 <= d.month <= 12 && 1 <= d.day <= DaysInMonth(d.year, d.month)
  }

  const FIRST: Date := Date(1, 1, 1)

  function NextDay(d: Date): Date {
    if d.day < DaysInMonth(d.year, d.month) then d.(day := d.day + 1)
    else if d.month < 12 then Date(d.year, d.month + 1, 1)
    else Date(d.year + 1, 1, 1)
  }

  // The calendar itself: the n-th day after 0001-01-01.
  function DayAfterFirst(n: nat): Date {
    if n == 0 then FIRST else NextDay(DayAfterFirst(n - 1))
  }

  // Day number of 0001-01-01, negated.
  const FIRST_OFFSET: int := 719_162

  /* ---------- one day adds one ---------- */

  // Days before March 1 of the given year, counted from a fixed origin.
  function MarchFirst(year: int): int
    requires year >= 0
  {
    365 * year + year / 4 - year / 100 + year / 400
  }

  lemma EraIsMarchFirst(year: int)
    requires year >= 0
    ensures var era := year / 400; var y := year - era * 400;
            era * 146_097 + y * 365 + y / 4 - y / 100 == MarchFirst(year)
  {
    var era := year / 400;
    var y := year - era * 400;
    assert year / 4 == era * 100 + y / 4;
    assert year / 100 == era * 4 + y / 100;
  }

  lemma YearLength(year: int)
    requires year >= 1
    ensures MarchFirst(year) - MarchFirst(year - 1) == if IsLeapYear(year) then 366 else 365
  {
    FloorStep(year, 4);
    FloorStep(year, 100);
    FloorStep(year, 400);
    LeapByRemainders(year);
    hide IsLeapYear;
  }

  lemma LeapByRemainders(year: int)
    requires year >= 1
    ensures IsLeapYear(year) <==> year % 4 == 0 && (year % 100 != 0 || year % 400 == 0)
    ensures year % 100 == 0 ==> year % 4 == 0
    ensures year % 400 == 0 ==> year % 100 == 0
  {
    assert Rem(year, 4) == year % 4 && Rem(year, 100) == year % 100 && Rem(year, 400) == year % 400;
  }

  lemma FloorStep(n: int, k: int)
    requires n >= 1 && k >= 2
    ensures n / k - (n - 1) / k == if n % k == 0 then 1 else 0
  {
    var q, r := n / k, n % k;
    assert n == q * k + r;
    if r == 0 {
      assert n - 1 == (q - 1) * k + (k - 1);
      DivUnique(n - 1, k, q - 1, k - 1);
    } else {
      assert n - 1 == q * k + (r - 1);
      DivUnique(n - 1, k, q, r - 1);
    }
  }

  lemma DivUnique(n: int, k: int, q: int, r: int)
    requires k > 0 && 0 <= r < k && n == q * k + r
    ensures n / k == q && n % k == r
  {
    var d := n / k - q;
    assert d * k == r - n % k;
    assert d > 0 ==> d * k >= k;
    assert d < 0 ==> d * k <= -k;
  }

  // Days from March 1 to the first of the month, in the year that starts in March.
  function MonthStart(month: int): int
    requires 1 <= month <= 12
  {
    (153 * (month + (if month > 2 then -3 else 9)) + 2) / 5
  }

  lemma ClosedForm(d: Date)
    requires ValidDate(d)
    ensures DaysSinceUnixEpoch(d) ==
            MarchFirst(d.year - (if d.month <= 2 then 1 else 0)) + MonthStart(d.month) + d.day - 1 - 719_468
  {
    EraIsMarchFirst(d.year - (if d.month <= 2 then 1 else 0));
  }

  lemma MonthLength(year: int, month: int)
    requires 1 <= month <= 11 && month != 2
    ensures MonthStart(month + 1) - MonthStart(month) == DaysInMonth(year, month)
  {
  }

  lemma NextDayIsValid(d: Date)
    requires ValidDate(d)
    ensures ValidDate(NextDay(d))
  {
  }

  // The successor date adds exactly one.
  lemma NextDayAddsOne(d: Date)
    requires ValidDate(d)
    ensures DaysSinceUnixEpoch(NextDay(d)) == DaysSinceUnixEpoch(d) + 1
  {
    NextDayIsValid(d);
    ClosedForm(d);
    ClosedForm(NextDay(d));
    if d.day == DaysInMonth(d.year, d.month) {
      if d.month == 2 {
        YearLength(d.year);
      } else if d.month < 12 {
        MonthLength(d.year, d.month);
      }
    }
  }

  lemma {:induction false} CountedDays(n: nat)
    ensures ValidDate(DayAfterFirst(n))
    ensures DaysSinceUnixEpoch(DayAfterFirst(n)) == n - FIRST_OFFSET
  {
    if n > 0 {
      CountedDays(n - 1);
      NextDayIsValid(DayAfterFirst(n - 1));
      NextDayAddsOne(DayAfterFirst(n - 1));
    }
  }

  /* ---------- every date is counted ---------- */

  function PreviousDay(d: Date): Date {
    if d.day > 1 then d.(day := d.day - 1)
    else if d.month > 1 then Date(d.year, d.month - 1, DaysInMonth(d.year, d.month - 1))
    else Date(d.year - 1, 12, 31)
  }

  // A measure that falls when stepping back.
  function Position(d: Date): int {
    (d.year * 12 + d.month) * 32 + d.day
  }

  // The closed form is the day count: stepping that many days from 0001-01-01 gives the date.
  lemma {:induction false} ClosedFormIsTheCount(d: Date)
    requires ValidDate(d)
    ensures DaysSinceUnixEpoch(d) + FIRST_OFFSET >= 0
    ensures DayAfterFirst(DaysSinceUnixEpoch(d) + FIRST_OFFSET) == d
    decreases Position(d)
  {
    if d == FIRST {
    } else {
      var p := PreviousDay(d);
      assert ValidDate(p) && NextDay(p) == d;
      ClosedFormIsTheCount(p);
      NextDayAddsOne(p);
    }
  }

  lemma EpochIsZero()
    ensures DaysSinceUnixEpoch(Date(1970, 1, 1)) == 0
  {
  }

  lemma DayNumbersAreUnique(d: Date, e: Date)
    requires ValidDate(d) && ValidDate(e) && DaysSinceUnixEpoch(d) == DaysSinceUnixEpoch(e)
    ensures d == e
  {
    ClosedFormIsTheCount(d);
    ClosedFormIsTheCount(e);
  }

  predicate Before(d: Date, e: Date) {
    d.year < e.year || (d.year == e.year && (d.month < e.month || (d.month == e.month && d.day < e.day)))
  }

  lemma {:induction false} CountingIsChronological(m: nat, n: nat)
    requires m < n
    ensures Before(DayAfterFirst(m), DayAfterFirst(n))
  {
    CountedDays(n - 1);
    if m < n - 1 {
      CountingIsChronological(m, n - 1);
    }
  }

  // Day numbers order dates exactly as year, month and day do.
  lemma DayNumbersAreChronological(d: Date, e: Date)
    requires ValidDate(d) && ValidDate(e)
    ensures DaysSinceUnixEpoch(d) < DaysSinceUnixEpoch(e) <==> Before(d, e)
  {
    ClosedFormIsTheCount(d);
    ClosedFormIsTheCount(e);
    var m, n := DaysSinceUnixEpoch(d) + FIRST_OFFSET, DaysSinceUnixEpoch(e) + FIRST_OFFSET;
    if m < n {
      CountingIsChronological(m, n);
    } else if n < m {
      CountingIsChronological(n, m);
    }
  }
}
