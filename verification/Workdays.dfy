/** Working-day arithmetic: `wd` of docs/wbs/render.js, on days numbered from 1 January 1970. */
module Workdays {
  import opened Wrappers

  /** `getDay()`: 0 is Sunday and 6 is Saturday. Day 0 was a Thursday. */
  function DayOfWeek(day: int): int {
    (day + 4) % 7
  }

  predicate IsWorkday(day: int) {
    DayOfWeek(day) != 0 && DayOfWeek(day) != 6
  }

  /** The calendar: 1 January 1970 was a Thursday, every week is like it, and Saturday and Sunday are no working days. */
  lemma TheWeek(week: int, d: nat)
    requires d < 7
    ensures DayOfWeek(7 * week + d) == (4 + d) % 7
    ensures IsWorkday(7 * week + d) <==> d != 2 && d != 3
  {
    assert (7 * week + d + 4) % 7 == (d + 4) % 7;
  }

  function NextWorkday(day: int): (r: int)
    ensures day < r <= day + 3 && IsWorkday(r) && forall x | day < x < r :: !IsWorkday(x)
  {
    if IsWorkday(day + 1) then day + 1 else if IsWorkday(day + 2) then day + 2 else day + 3
  }

  /** The nth working day after a day, or the day itself for none. */
  function WorkdayAfter(day: int, n: nat): int {
    if n == 0 then day else NextWorkday(WorkdayAfter(day, n - 1))
  }

  /** A count as the script may compute one: a number, or what a maximum over nothing leaves. */
  datatype Count = NaN | PlusInfinity | MinusInfinity | Finite(n: int)

  function Steps(n: int): nat {
    if n <= 0 then 0 else n
  }

  /** Walk n working days on, refusing the counts the loop would never reach. */
  method Wd(day: int, count: Count) returns (r: Result<int, string>)
    ensures r.Err? <==> count.NaN? || count.PlusInfinity?
    ensures count.MinusInfinity? ==> r == Ok(day)
    ensures count.Finite? ==> r == Ok(WorkdayAfter(day, Steps(count.n)))
  {
    if count.NaN? || count.PlusInfinity? {
      return Err("a window was sized from no module");
    }
    if count.MinusInfinity? {
      return Ok(day);
    }
    var x, i := day, 0;
    while i < count.n
      invariant 0 <= i <= Steps(count.n)
      invariant WorkdayAfter(day, i) <= x
      invariant i == count.n || count.n <= 0 ==> x == WorkdayAfter(day, i)
      invariant x < NextWorkday(WorkdayAfter(day, i))
      decreases Steps(count.n) - i, NextWorkday(WorkdayAfter(day, i)) - x
    {
      x := x + 1;
      if IsWorkday(x) {
        assert x == WorkdayAfter(day, i + 1);
        i := i + 1;
      }
    }
    r := Ok(x);
  }

  // ------------------------------------------------------------ counting what was walked

  /** How many working days there are after one day and up to another. */
  function WorkdaysIn(from: int, upto: int): nat
    decreases upto - from
  {
    if upto <= from then 0 else WorkdaysIn(from, upto - 1) + (if IsWorkday(upto) then 1 else 0)
  }

  lemma {:induction false} WorkdaysSplit(a: int, b: int, c: int)
    requires a <= b <= c
    ensures WorkdaysIn(a, c) == WorkdaysIn(a, b) + WorkdaysIn(b, c)
    decreases c - b
  {
    if b < c {
      WorkdaysSplit(a, b, c - 1);
    }
  }

  lemma {:induction false} NoWorkdays(a: int, b: int)
    requires forall x | a < x <= b :: !IsWorkday(x)
    ensures WorkdaysIn(a, b) == 0
    decreases b - a
  {
    if a < b {
      NoWorkdays(a, b - 1);
    }
  }

  /** One step lands on a working day and passes over weekend days only. */
  lemma OneStep(day: int)
    ensures WorkdaysIn(day, NextWorkday(day)) == 1
  {
    NoWorkdays(day, NextWorkday(day) - 1);
  }

  /** Walking n working days counts exactly n, and for n of one or more lands on one. */
  lemma {:induction false} WalkCounts(day: int, n: nat)
    ensures WorkdaysIn(day, WorkdayAfter(day, n)) == n && day + n <= WorkdayAfter(day, n)
    ensures n >= 1 ==> IsWorkday(WorkdayAfter(day, n))
  {
    if n > 0 {
      WalkCounts(day, n - 1);
      OneStep(WorkdayAfter(day, n - 1));
      WorkdaysSplit(day, WorkdayAfter(day, n - 1), WorkdayAfter(day, n));
    }
  }

  /** It lands as early as any day by which n working days have passed. */
  lemma WalkIsEarliest(day: int, n: nat, x: int)
    requires day <= x
    ensures WorkdayAfter(day, n) <= x <==> n <= WorkdaysIn(day, x)
  {
    WalkCounts(day, n);
    if WorkdayAfter(day, n) <= x {
      WorkdaysSplit(day, WorkdayAfter(day, n), x);
    } else if n > 0 {
      WorkdaysSplit(day, x, WorkdayAfter(day, n) - 1);
      assert WorkdaysIn(day, WorkdayAfter(day, n)) == WorkdaysIn(day, WorkdayAfter(day, n) - 1) + 1;
    }
  }

  /** Two walks one after the other are one walk. */
  lemma {:induction false} WalksAdd(day: int, a: nat, b: nat)
    ensures WorkdayAfter(WorkdayAfter(day, a), b) == WorkdayAfter(day, a + b)
  {
    if b > 0 {
      WalksAdd(day, a, b - 1);
    }
  }

  lemma WalksOrdered(day: int, a: nat, b: nat)
    requires a < b
    ensures WorkdayAfter(day, a) < WorkdayAfter(day, b)
  {
    WalksAdd(day, a, b - a);
    WalkCounts(WorkdayAfter(day, a), b - a);
  }
}
