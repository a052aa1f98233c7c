/** Calendar dates as Python's `datetime.date` holds them: a proleptic
    Gregorian year, month and day, compared as the tuple (year, month, day).
    The proleptic ordinal of the `datetime` module gives an independent
    account of the same order. */
module Dates {
  import Ordering

  const MinYear := 1
  const MaxYear := 9999

  datatype Ymd = Ymd(year: int, month: int, day: int)

  predicate IsLeap(y: int)
  {
    y % 4 == 0 && (y % 100 != 0 || y % 400 == 0)
  }

  const DaysInMonthTable: seq<int> := [-1, 31, 28, 31, 30, 31, 30, 31, 31, 30, 31, 30, 31]
  const DaysBeforeMonthTable: seq<int> := [-1, 0, 31, 59, 90, 120, 151, 181, 212, 243, 273, 304, 334]

  function DaysInMonth(y: int, m: int): int
    requires 1 <= m <= 12
  {
    if m == 2 && IsLeap(y) then 29 else DaysInMonthTable[m]
  }

  function DaysInYear(y: int): int
  {
    if IsLeap(y) then 366 else 365
  }

  predicate ValidYmd(d: Ymd)
  {
    && MinYear <= d.year <= MaxYear
    && 1 <= d.month <= 12
    && 1 <= d.day <= DaysInMonth(d.year, d.month)
  }

  /** A value of `datetime.date`: it cannot hold month 13 or 30 February. */
  type Date = d: Ymd | ValidYmd(d) witness Ymd(1, 1, 1)

  /** `a < b` on dates: tuple comparison of (year, month, day). */
  predicate Before(a: Ymd, b: Ymd)
  {
    || a.year < b.year
    || (a.year == b.year && a.month < b.month)
    || (a.year == b.year && a.month == b.month && a.day < b.day)
  }

  /** The sort key a date is listed by. */
  function Key(d: Ymd): seq<int>
  {
    [d.year, d.month, d.day]
  }

  /** Listing by `Key` orders dates exactly as `Before` does. */
  lemma KeyOrder(a: Ymd, b: Ymd)
    ensures Ordering.LexLess(Key(a), Key(b)) <==> Before(a, b)
    ensures Key(a) == Key(b) <==> a == b
  {
    var ka, kb := Key(a), Key(b);
    var ma, mb := [a.month, a.day], [b.month, b.day];
    var da, db := [a.day], [b.day];
    assert ka[1..] == ma && kb[1..] == mb;
    assert ma[1..] == da && mb[1..] == db;
    assert da[1..] == [] && db[1..] == [];
    assert !Ordering.LexLess([], []);
    assert Ordering.LexLess(da, db) <==> a.day < b.day;
    assert Ordering.LexLess(ma, mb) <==> a.month < b.month || (a.month == b.month && a.day < b.day);
    assert Ordering.LexLess(ka, kb) <==> a.year < b.year || (a.year == b.year && Ordering.LexLess(ma, mb));
  }

  function DaysBeforeYear(y: int): int
    requires y >= 1
  {
    var p := y - 1;
    p * 365 + p / 4 - p / 100 + p / 400
  }

  function DaysBeforeMonth(y: int, m: int): int
    requires 1 <= m <= 12
  {
    DaysBeforeMonthTable[m] + (if m > 2 && IsLeap(y) then 1 else 0)
  }

  /** `date.toordinal()`: 1 for 0001-01-01, one more for each later day. */
  function ToOrdinal(d: Date): int
  {
    DaysBeforeYear(d.year) + DaysBeforeMonth(d.year, d.month) + d.day
  }

  /** Going from `y - 1` to `y` adds one to `y / k` exactly when `k`
      divides `y`. */
  lemma DivStep4(y: int)
    requires y >= 1
    ensures y / 4 == (y - 1) / 4 + (if y % 4 == 0 then 1 else 0)
  {
  }

  lemma DivStep100(y: int)
    requires y >= 1
    ensures y / 100 == (y - 1) / 100 + (if y % 100 == 0 then 1 else 0)
  {
  }

  lemma DivStep400(y: int)
    requires y >= 1
    ensures y / 400 == (y - 1) / 400 + (if y % 400 == 0 then 1 else 0)
  {
  }

  lemma YearStep(y: int)
    requires y >= 1
    ensures DaysBeforeYear(y + 1) == DaysBeforeYear(y) + DaysInYear(y)
  {
    DivStep4(y);
    DivStep100(y);
    DivStep400(y);
    DivisorsOfCenturies(y);
    var p := y - 1;
    assert DaysBeforeYear(y) == p * 365 + p / 4 - p / 100 + p / 400;
    assert DaysBeforeYear(y + 1) == y * 365 + y / 4 - y / 100 + y / 400;
  }

  lemma DivisorsOfCenturies(y: int)
    ensures y % 400 == 0 ==> y % 100 == 0
    ensures y % 100 == 0 ==> y % 4 == 0
  {
    if y % 400 == 0 {
      var q := y / 400;
      assert y == 100 * (4 * q);
    }
    if y % 100 == 0 {
      var q := y / 100;
      assert y == 4 * (25 * q);
    }
  }

  lemma {:induction false} YearsAdvance(y1: int, y2: int)
    requires 1 <= y1 < y2
    ensures DaysBeforeYear(y1) + DaysInYear(y1) <= DaysBeforeYear(y2)
    decreases y2 - y1
  {
    YearStep(y1);
    if y1 + 1 < y2 {
      YearsAdvance(y1 + 1, y2);
    }
  }

  lemma MonthsAdvance(y: int, m1: int, m2: int)
    requires 1 <= m1 < m2 <= 12
    ensures DaysBeforeMonth(y, m1) + DaysInMonth(y, m1) <= DaysBeforeMonth(y, m2)
  {
  }

  lemma DayOfYearBound(d: Date)
    ensures DaysBeforeMonth(d.year, d.month) + d.day <= DaysInYear(d.year)
  {
  }

  /** Tuple order and ordinal order agree: `a < b` exactly when `a` has the
      smaller ordinal. */
  lemma BeforeIffOrdinal(a: Date, b: Date)
    ensures Before(a, b) <==> ToOrdinal(a) < ToOrdinal(b)
    ensures a == b <==> ToOrdinal(a) == ToOrdinal(b)
  {
    if a != b {
      var x, y := a, b;
      if !Before(a, b) {
        x, y := b, a;
      }
      assert Before(x, y);
      if x.year < y.year {
        DayOfYearBound(x);
        YearsAdvance(x.year, y.year);
      } else if x.month < y.month {
        MonthsAdvance(x.year, x.month, y.month);
      }
    }
  }
}
