/** The dates a sweep generates for a recurrence rule, and what becomes of the rule when a window is
    generated by several sweeps, as it always is. */
module Recurrence {
  import opened Prelude

  type Date = int

  datatype Rule = EveryNDays(interval: int) | OnWeekdays(days: set<int>)

  /** x is 0, n, 2n, ... */
  predicate IsMultiple(n: nat, x: int)
    requires n > 0
  {
    x == 0 || (x >= n && IsMultiple(n, x - n))
  }

  /** parseRecurrenceRule turns an absent or negative interval into 1. */
  function Interval(n: int): (step: nat)
    ensures step >= 1
  {
    if n <= 0 then 1 else n
  }

  /** A weekly rule without days means the weekday the window starts on. */
  function Weekdays(days: set<int>, start: Date): set<int> {
    if days == {} then {start % 7} else days
  }

  /** Days are numbered so that day d falls on weekday d % 7. */
  predicate FallsOn(rule: Rule, start: Date, d: Date) {
    match rule
    case EveryNDays(n) => IsMultiple(Interval(n), d - start)
    case OnWeekdays(days) => d % 7 in Weekdays(days, start)
  }

  /** What computeDatesInWindow yields between start and end. */
  function Due(rule: Rule, start: Date, end: Date): set<Date> {
    set d | start <= d <= end && FallsOn(rule, start, d)
  }

  lemma {:induction false} NothingBetween(n: nat, x: int, y: int)
    requires n > 0 && IsMultiple(n, x) && x < y < x + n
    ensures !IsMultiple(n, y)
    decreases x
  {
    if x > 0 {
      NothingBetween(n, x - n, y - n);
    }
  }

  /** The dates below the next multiple are the ones below this one, and this one. */
  lemma NextStep(rule: Rule, start: Date, d: Date)
    requires rule.EveryNDays? && d >= start && FallsOn(rule, start, d)
    ensures FallsOn(rule, start, d + Interval(rule.interval))
    ensures forall e :: d < e < d + Interval(rule.interval) ==> !FallsOn(rule, start, e)
  {
    forall e | d < e < d + Interval(rule.interval)
      ensures !FallsOn(rule, start, e)
    {
      NothingBetween(Interval(rule.interval), d - start, e - start);
    }
  }

  predicate Ascending(dates: seq<Date>) {
    forall i, j :: 0 <= i < j < |dates| ==> dates[i] < dates[j]
  }

  /** The dates found so far: all due dates before d. */
  ghost predicate FoundBefore(rule: Rule, start: Date, end: Date, d: Date, dates: seq<Date>) {
    Ascending(dates) && forall x :: x in dates <==> x in Due(rule, start, end) && x < d
  }

  lemma FoundOneMore(rule: Rule, start: Date, end: Date, d: Date, next: Date, dates: seq<Date>)
    requires FoundBefore(rule, start, end, d, dates) && start <= d <= end && d < next
    requires forall e :: d < e < next ==> !FallsOn(rule, start, e)
    ensures FoundBefore(rule, start, end, next, if FallsOn(rule, start, d) then dates + [d] else dates)
  {
    assert forall i :: 0 <= i < |dates| ==> dates[i] in dates;
  }

  /** computeDatesInWindow, after the start of the window has been fixed: the daily and custom interval
      rules step by the interval, the weekly rule walks every day. */
  method ComputeDates(rule: Rule, start: Date, end: Date) returns (dates: seq<Date>)
    ensures forall d :: d in dates <==> d in Due(rule, start, end)
    ensures Ascending(dates)
    // every n days, from the first day on
    ensures rule.EveryNDays? ==> forall k :: 0 <= k < |dates| ==> dates[k] == start + k * Max(rule.interval, 1)
    ensures rule.EveryNDays? ==> start + |dates| * Max(rule.interval, 1) > end
    // on the named weekdays, or on the one of the first day
    ensures rule.OnWeekdays? ==> forall d ::
      d in dates <==> start <= d <= end && if rule.days == {} then d % 7 == start % 7 else d % 7 in rule.days
  {
    dates := [];
    var d := start;
    match rule {
      case EveryNDays(interval) =>
        while d <= end
          invariant d >= start && FallsOn(rule, start, d)
          invariant FoundBefore(rule, start, end, d, dates)
          invariant d == start + |dates| * Max(interval, 1)
          invariant forall k :: 0 <= k < |dates| ==> dates[k] == start + k * Max(interval, 1)
          decreases end - d
        {
          NextStep(rule, start, d);
          FoundOneMore(rule, start, end, d, d + Interval(interval), dates);
          dates := dates + [d];
          d := d + Interval(interval);
        }
      case OnWeekdays(days) =>
        while d <= end
          invariant d >= start
          invariant FoundBefore(rule, start, end, d, dates)
          decreases end - d
        {
          FoundOneMore(rule, start, end, d, d + 1, dates);
          if d % 7 in Weekdays(days, start) {
            dates := dates + [d];
          }
          d := d + 1;
        }
    }
  }

  ghost predicate LastOf(s: set<Date>, d: Date) {
    d in s && forall x :: x in s ==> x <= d
  }

  /** Two sweeps: the first generates up to `soon` and moves the waterline to its last date, the second
      goes on from the day after the waterline up to `later`. */
  function TwoSweeps(rule: Rule, start: Date, soon: Date, later: Date, waterline: Date): set<Date> {
    Due(rule, start, soon) + Due(rule, waterline + 1, later)
  }

  /** A weekly rule that names its days gives the same dates however its window is cut into sweeps. One
      that names none takes the weekday each sweep starts on, and that is another day each time. */
  lemma WeeklyRuleSurvivesIff(days: set<int>, start: Date, soon: Date, later: Date, waterline: Date)
    requires LastOf(Due(OnWeekdays(days), start, soon), waterline) && soon <= later
    ensures TwoSweeps(OnWeekdays(days), start, soon, later, waterline) == Due(OnWeekdays(days), start, later)
       <==> days != {} || waterline == later
  {
    var rule := OnWeekdays(days);
    var two, one := TwoSweeps(rule, start, soon, later, waterline), Due(rule, start, later);
    assert waterline in Due(rule, start, soon);
    if days != {} {
      forall d
        ensures d in two <==> d in one
      {
        if d in one && d <= soon { assert d in Due(rule, start, soon); }
      }
    } else if waterline == later {
      assert Due(rule, waterline + 1, later) == {};
    } else {
      NextDayDiffers(waterline, start);
      assert waterline + 1 in Due(rule, waterline + 1, later);
      assert waterline + 1 !in one;
    }
  }

  lemma NextDayDiffers(d: int, start: int)
    requires d % 7 == start % 7
    ensures (d + 1) % 7 != start % 7
  {
  }

  /** "Every n days" does not: the second sweep counts from its own first day, which is the day after the
      last instance. The dates are those of the rule exactly when n is 1, or the second sweep has no day
      left to generate. */
  lemma IntervalRuleSurvivesIff(n: int, start: Date, soon: Date, later: Date, waterline: Date)
    requires n > 0 && LastOf(Due(EveryNDays(n), start, soon), waterline) && soon <= later
    ensures TwoSweeps(EveryNDays(n), start, soon, later, waterline) == Due(EveryNDays(n), start, later)
       <==> n == 1 || waterline == later
  {
    var rule := EveryNDays(n);
    var two, one := TwoSweeps(rule, start, soon, later, waterline), Due(rule, start, later);
    assert waterline in Due(rule, start, soon);
    if n == 1 {
      forall d
        ensures d in two <==> d in one
      {
        EveryDayIsAMultiple(d - start);
        EveryDayIsAMultiple(d - (waterline + 1));
        if d in one && d <= soon { assert d in Due(rule, start, soon); }
      }
    } else if waterline == later {
      assert Due(rule, waterline + 1, later) == {};
    } else {
      NothingBetween(n, waterline - start, waterline + 1 - start);
      assert waterline + 1 in Due(rule, waterline + 1, later);
      assert waterline + 1 !in one;
    }
  }

  lemma {:induction false} EveryDayIsAMultiple(x: int)
    ensures x >= 0 ==> IsMultiple(1, x)
    decreases x
  {
    if x > 0 { EveryDayIsAMultiple(x - 1); }
  }
}
