/**
  The proleptic Gregorian calendar by its arithmetic: days counted through, and which dates there are.
 */
module Calendar {
  import Edtf

  /**
    The number of a day, counted through: 365 to a year that begins with March, a leap day every four
    years but not every hundred, and yet every four hundred; 153 days to every five months.
   */
  function Day(y: int, m: int, d: int): int {
    Years(if m <= 2 then y - 1 else y) + (153 * ((m + 9) % 12) + 2) / 5 + d
  }

  function Years(a: int): int {
    365 * a + a / 4 - a / 100 + a / 400
  }

  lemma DayFrom(y: int, m: int, d: int)
    ensures Day(y, m, d) == Day(y, m, 1) + d - 1
  {
    hide Years;
  }

  /** The first day of the month after. */
  function Next(y: int, m: int): int {
    if m == 12 then Day(y + 1, 1, 1) else Day(y, m + 1, 1)
  }

  /** A day of a month: after it begins, and before the next one does. */
  predicate IsDate(y: int, m: int, d: int) {
    1 <= m <= 12 && 1 <= d && Day(y, m, d) < Next(y, m)
  }

  lemma StepOver(y: int)
    ensures y / 4 - (y - 1) / 4 == if y % 4 == 0 then 1 else 0
    ensures y / 100 - (y - 1) / 100 == if y % 100 == 0 then 1 else 0
    ensures y / 400 - (y - 1) / 400 == if y % 400 == 0 then 1 else 0
  {
  }

  lemma Multiples(y: int)
    ensures y % 100 == 0 ==> y % 4 == 0
    ensures y % 400 == 0 ==> y % 100 == 0
  {
  }

  lemma YearLength(y: int)
    ensures Years(y) - Years(y - 1) == if Edtf.IsLeap(y) then 366 else 365
  {
    StepOver(y);
    Multiples(y);
  }

  /** How long the months are, by the numbers of their first days. */
  lemma MonthLength(y: int, m: nat)
    requires 1 <= m <= 12
    ensures Next(y, m) - Day(y, m, 1) == Edtf.DaysInMonth(y, m) > 0
  {
    YearLength(y);
    hide Years, Edtf.IsLeap;
  }

  lemma IsDateExactly(y: int, m: nat, d: nat)
    ensures IsDate(y, m, d) <==> 1 <= m <= 12 && 1 <= d <= Edtf.DaysInMonth(y, m)
  {
    if 1 <= m <= 12 {
      hide Day, Next, Edtf.DaysInMonth;
      MonthLength(y, m);
      DayFrom(y, m, d);
    }
  }

  lemma AtMost31(y: int, m: nat, d: nat)
    requires IsDate(y, m, d)
    ensures d <= 31
  {
    IsDateExactly(y, m, d);
    hide IsDate, Edtf.IsLeap;
  }

  // ---------------------------------------------------------------------------
  // Every day is one date
  // ---------------------------------------------------------------------------

  /** The first day of month `k`, counted through. */
  function Start(k: int): int {
    Day(k / 12, k % 12 + 1, 1)
  }

  lemma MonthIndex(y: int, m: nat)
    requires 1 <= m <= 12
    ensures Start(12 * y + m - 1) == Day(y, m, 1) && Start(12 * y + m) == Next(y, m)
  {
    assert (12 * y + m - 1) / 12 == y && (12 * y + m - 1) % 12 == m - 1;
    if m < 12 {
      assert (12 * y + m) / 12 == y && (12 * y + m) % 12 == m;
    } else {
      assert (12 * y + 12) / 12 == y + 1 && (12 * y + 12) % 12 == 0;
    }
    hide Day;
  }

  lemma {:induction false} StartsRise(j: int, k: int)
    requires j < k
    ensures Start(j) < Start(k)
    decreases k - j
  {
    hide Start, Day, Next, Edtf.DaysInMonth;
    var y, m := (k - 1) / 12, (k - 1) % 12 + 1;
    MonthIndex(y, m);
    MonthLength(y, m);
    if j < k - 1 {
      StartsRise(j, k - 1);
    }
  }

  lemma StartsUp(j: int, k: int)
    requires j <= k
    ensures Start(j) <= Start(k)
  {
    hide Start;
    if j < k {
      StartsRise(j, k);
    }
  }

  lemma WithinMonth(y: int, m: nat, d: nat)
    requires IsDate(y, m, d)
    ensures Start(12 * y + m - 1) <= Day(y, m, d) < Start(12 * y + m)
  {
    hide Day, Start;
    MonthIndex(y, m);
    DayFrom(y, m, d);
  }

  /** A later date is a greater number, and the other way round. */
  lemma DaysInOrder(y: int, m: nat, d: nat, y': int, m': nat, d': nat)
    requires IsDate(y, m, d) && IsDate(y', m', d')
    ensures Day(y, m, d) < Day(y', m', d') <==> y < y' || (y == y' && (m < m' || (m == m' && d < d')))
  {
    hide Day, Start, Next;
    WithinMonth(y, m, d);
    WithinMonth(y', m', d');
    var j, k := 12 * y + m - 1, 12 * y' + m' - 1;
    DayFrom(y, m, d);
    DayFrom(y', m', d');
    if j < k {
      StartsUp(j + 1, k);
    } else if k < j {
      StartsUp(k + 1, j);
    }
  }

  lemma DateAfter(y: int, m: nat, d: nat) returns (y1: int, m1: nat, d1: nat)
    requires IsDate(y, m, d)
    ensures IsDate(y1, m1, d1) && Day(y1, m1, d1) == Day(y, m, d) + 1
  {
    DayFrom(y, m, d);
    DayFrom(y, m, d + 1);
    y1, m1, d1 := y, m, d + 1;
    if Day(y, m, d + 1) >= Next(y, m) {
      y1, m1, d1 := if m == 12 then y + 1 else y, if m == 12 then 1 else m + 1, 1;
      assert Day(y1, m1, 1) == Next(y, m);
      MonthLength(y1, m1);
    }
    hide Day, Next, Edtf.DaysInMonth;
  }

  lemma DateBefore(y: int, m: nat, d: nat) returns (y0: int, m0: nat, d0: nat)
    requires IsDate(y, m, d)
    ensures IsDate(y0, m0, d0) && Day(y0, m0, d0) == Day(y, m, d) - 1
  {
    DayFrom(y, m, d);
    DayFrom(y, m, d - 1);
    y0, m0, d0 := y, m, d - 1;
    if d == 1 {
      y0, m0 := if m == 1 then y - 1 else y, if m == 1 then 12 else m - 1;
      assert Next(y0, m0) == Day(y, m, 1);
      MonthLength(y0, m0);
      d0 := Next(y0, m0) - Day(y0, m0, 1);
      DayFrom(y0, m0, d0);
    }
    hide Day, Next, Edtf.DaysInMonth;
  }

  /** No number is left out: each is a day of one year and month. */
  lemma {:induction false} EveryDay(n: int) returns (y: int, m: nat, d: nat)
    ensures IsDate(y, m, d) && Day(y, m, d) == n
    decreases if n > 1 then n - 1 else 1 - n
  {
    if n == 1 {
      y, m, d := 0, 3, 1;
    } else {
      var near := if n > 1 then n - 1 else n + 1;
      var py, pm, pd := EveryDay(near);
      if n > 1 {
        y, m, d := DateAfter(py, pm, pd);
      } else {
        y, m, d := DateBefore(py, pm, pd);
      }
    }
  }

  /** Four hundred years are 146097 days, wherever they begin. */
  lemma FourCenturies(y: int, m: nat, d: nat)
    ensures Day(y + 400, m, d) == Day(y, m, d) + 146097
  {
    var a := if m <= 2 then y - 1 else y;
    assert (a + 400) / 4 == a / 4 + 100 && (a + 400) / 100 == a / 100 + 4 && (a + 400) / 400 == a / 400 + 1;
  }
}
