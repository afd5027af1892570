/** The proleptic Gregorian calendar in UTC: instants are nanoseconds, and days are counted, from 1 January 1970. */
module Calendar {

  const HOUR: int := 3_600_000_000_000
  const DAY: int := 24 * HOUR

  /** Days of a common year before the month. */
  const DAYS_BEFORE: seq<int> := [0, 31, 59, 90, 120, 151, 181, 212, 243, 273, 304, 334]

  predicate IsLeap(year: int) {
    year % 4 == 0 && (year % 100 != 0 || year % 400 == 0)
  }

  function LeapsBefore(year: int): int {
    (year - 1) / 4 - (year - 1) / 100 + (year - 1) / 400
  }

  function YearStart(year: int): int {
    365 * (year - 1970) + LeapsBefore(year) - LeapsBefore(1970)
  }

  /** Months are numbered through all years: number 0 is January 1970. */
  function YearOf(month: int): int { 1970 + month / 12 }

  function MonthStart(month: int): int {
    var m := month % 12;
    YearStart(YearOf(month)) + DAYS_BEFORE[m] + if m >= 2 && IsLeap(YearOf(month)) then 1 else 0
  }

  lemma FloorStep(x: int, n: int)
    requires n > 0
    ensures x / n - (x - 1) / n == if x % n == 0 then 1 else 0
  {
    var q := x / n;
    assert x == q * n + x % n;
    if x % n == 0 {
      assert x - 1 == (q - 1) * n + (n - 1);
      QuotientIs(x - 1, n, q - 1, n - 1);
    } else {
      assert x - 1 == q * n + (x % n - 1);
      QuotientIs(x - 1, n, q, x % n - 1);
    }
  }

  lemma QuotientIs(x: int, n: int, q: int, r: int)
    requires n > 0 && 0 <= r < n && x == q * n + r
    ensures x / n == q && x % n == r
  {
    var p := x / n;
    assert x == p * n + x % n;
    assert (p - q) * n == r - x % n;
    if p != q { MultipleIsFar(p - q, n); }
  }

  lemma {:induction false} MultipleIsFar(d: int, n: int)
    requires n > 0 && d != 0
    ensures if d > 0 then d * n >= n else d * n <= -n
    decreases if d > 0 then d else -d
  {
    if d > 1 {
      MultipleIsFar(d - 1, n);
      assert d * n == (d - 1) * n + n;
    } else if d < -1 {
      MultipleIsFar(d + 1, n);
      assert d * n == (d + 1) * n - n;
    }
  }

  lemma YearLength(year: int)
    ensures YearStart(year + 1) - YearStart(year) == if IsLeap(year) then 366 else 365
  {
    FloorStep(year, 4);
    FloorStep(year, 100);
    FloorStep(year, 400);
  }

  lemma NextMonthOf(month: int)
    ensures month % 12 < 11 ==> (month + 1) % 12 == month % 12 + 1 && YearOf(month + 1) == YearOf(month)
    ensures month % 12 == 11 ==> (month + 1) % 12 == 0 && YearOf(month + 1) == YearOf(month) + 1
  {
    if month % 12 == 11 {
      QuotientIs(month + 1, 12, month / 12 + 1, 0);
    } else {
      QuotientIs(month + 1, 12, month / 12, month % 12 + 1);
    }
  }

  /**
   * The month starts are the calendar's: January 1970 starts at day 0; April, June, September and November have 30 days
   * and February has 28, or 29 in a leap year.
   */
  lemma MonthLength(month: int)
    ensures MonthStart(0) == 0
    ensures var year, days := 1970 + month / 12, MonthStart(month + 1) - MonthStart(month);
            days == match month % 12
                    case 1 => if year % 4 == 0 && (year % 100 != 0 || year % 400 == 0) then 29 else 28
                    case 3 | 5 | 8 | 10 => 30
                    case _ => 31
  {
    hide YearStart;
    YearLength(YearOf(month));
    NextMonthOf(month);
    FirstMonth();
  }

  lemma FirstMonth()
    ensures MonthStart(0) == 0
  {
  }

  lemma MonthIsFourWeeks(month: int)
    ensures MonthStart(month) + 28 <= MonthStart(month + 1)
  {
    hide MonthStart;
    MonthLength(month);
  }

  lemma {:induction false} MonthStartsGrow(a: int, b: int)
    requires a <= b
    ensures MonthStart(a) + 28 * (b - a) <= MonthStart(b)
    decreases b - a
  {
    hide MonthStart;
    if a < b {
      MonthStartsGrow(a, b - 1);
      MonthIsFourWeeks(b - 1);
    }
  }

  function SearchUp(day: int, from: int): (month: int)
    requires MonthStart(from) <= day
    ensures MonthStart(month) <= day < MonthStart(month + 1)
    decreases day - MonthStart(from)
  {
    hide MonthStart;
    MonthStartsGrow(from, from + 1);
    if day < MonthStart(from + 1) then from else SearchUp(day, from + 1)
  }

  function SearchDown(day: int, from: int): (month: int)
    requires day < MonthStart(from + 1)
    ensures MonthStart(month) <= day < MonthStart(month + 1)
    decreases MonthStart(from + 1) - day
  {
    hide MonthStart;
    MonthStartsGrow(from, from + 1);
    if MonthStart(from) <= day then from else SearchDown(day, from - 1)
  }

  /** The number of the month a day falls in. */
  function MonthOf(day: int): (month: int)
    ensures MonthStart(month) <= day < MonthStart(month + 1)
  {
    hide MonthStart;
    if MonthStart(0) <= day then SearchUp(day, 0) else SearchDown(day, -1)
  }

  function DayOf(instant: int): int { instant / DAY }

  /** 0 is Sunday; 1 January 1970 was a Thursday. */
  function Weekday(day: int): int { (day + 4) % 7 }

  /** `time.Date` for the given hour of a day. */
  function AtHour(day: int, hour: int): int { day * DAY + hour * HOUR }
}
