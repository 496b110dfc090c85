/** From events to per-period targets: the power and energy lists, the sum
    over each period's window, and the last year of a definite target. */
module Aggregation {
  import opened Common
  import opened Grouping
  import opened TargetLists

  /** The power part of a quantity: the megawatts, alone or first of the pair. */
  function PowerOf(q: Quantity): real
  {
    match q
    case Scalar(mw) => mw
    case Pair(power, _) => power
  }

  /** `tech_group_power_targets`: one amount per event. */
  function PowerTargets(targets: seq<Event>): (r: seq<Amount>)
    ensures |r| == |targets|
  {
    if targets == [] then []
    else [Amount(targets[0].year, targets[0].group, PowerOf(targets[0].quantity))] + PowerTargets(targets[1..])
  }

  /** The energy amount of a storage event: megawatts times hours. */
  function EnergyOf(e: Event): Amount
    requires e.quantity.Pair?
  {
    Amount(e.year, e.group, e.quantity.power * e.quantity.hours)
  }

  /** `tech_group_energy_targets`: only the events with a (megawatts, hours) pair. */
  function EnergyTargets(targets: seq<Event>): (r: seq<Amount>)
    ensures |r| <= |targets|
  {
    if targets == [] then []
    else (if targets[0].quantity.Pair? then [EnergyOf(targets[0])] else []) + EnergyTargets(targets[1..])
  }

  /** The power list has one entry per target, in order: the year and group
      of the target, and its megawatts. */
  lemma {:induction false} PowerTargetsAt(targets: seq<Event>)
    ensures |PowerTargets(targets)| == |targets|
    ensures forall i :: 0 <= i < |targets| ==>
      PowerTargets(targets)[i] == Amount(targets[i].year, targets[i].group, PowerOf(targets[i].quantity))
  {
    if targets != [] {
      PowerTargetsAt(targets[1..]);
    }
  }

  lemma {:induction false} PowerTargetsAppend(a: seq<Event>, b: seq<Event>)
    ensures PowerTargets(a + b) == PowerTargets(a) + PowerTargets(b)
  {
    if a == [] {
      assert a + b == b;
    } else {
      assert (a + b)[1..] == a[1..] + b;
      PowerTargetsAppend(a[1..], b);
    }
  }

  /** The energy list holds exactly the energy amounts of the storage events. */
  lemma {:induction false} EnergyTargetsMembers(targets: seq<Event>)
    ensures forall x :: x in EnergyTargets(targets) ==>
      exists e :: e in targets && e.quantity.Pair? && x == EnergyOf(e)
    ensures forall e :: e in targets && e.quantity.Pair? ==> EnergyOf(e) in EnergyTargets(targets)
  {
    if targets != [] {
      EnergyTargetsMembers(targets[1..]);
      assert targets == [targets[0]] + targets[1..];
    }
  }

  /** The storage events, those with a (megawatts, hours) pair, in order. */
  function PairEvents(targets: seq<Event>): seq<Event>
  {
    if targets == [] then []
    else (if targets[0].quantity.Pair? then [targets[0]] else []) + PairEvents(targets[1..])
  }

  /** The energy list is the energy of the storage events, entry by entry:
      one entry per storage event, in order, duplicates included. */
  lemma {:induction false} EnergyTargetsOfPairs(targets: seq<Event>)
    ensures |EnergyTargets(targets)| == |PairEvents(targets)|
    ensures forall k :: 0 <= k < |PairEvents(targets)| ==>
      PairEvents(targets)[k].quantity.Pair? && EnergyTargets(targets)[k] == EnergyOf(PairEvents(targets)[k])
  {
    if targets != [] {
      EnergyTargetsOfPairs(targets[1..]);
    }
  }

  /** The storage events are kept with their multiplicity. */
  lemma {:induction false} PairEventsCounts(targets: seq<Event>)
    ensures forall e :: multiset(PairEvents(targets))[e] == if e.quantity.Pair? then multiset(targets)[e] else 0
  {
    if targets != [] {
      PairEventsCounts(targets[1..]);
      assert targets == [targets[0]] + targets[1..];
    }
  }

  /** The storage events keep their order. */
  lemma {:induction false} PairEventsInOrder(targets: seq<Event>)
    ensures IsSubsequence(PairEvents(targets), targets)
  {
    if targets != [] {
      PairEventsInOrder(targets[1..]);
      var p := PairEvents(targets);
      if targets[0].quantity.Pair? {
        assert p[0] == targets[0] && p[1..] == PairEvents(targets[1..]);
      } else {
        assert p == PairEvents(targets[1..]);
      }
    }
  }

  lemma {:induction false} EnergyTargetsAppend(a: seq<Event>, b: seq<Event>)
    ensures EnergyTargets(a + b) == EnergyTargets(a) + EnergyTargets(b)
  {
    if a == [] {
      assert a + b == b;
    } else {
      assert (a + b)[0] == a[0] && (a + b)[1..] == a[1..] + b;
      EnergyTargetsAppend(a[1..], b);
      var h := if a[0].quantity.Pair? then [EnergyOf(a[0])] else [];
      assert EnergyTargets(a + b) == h + EnergyTargets(a[1..] + b);
      assert EnergyTargets(a) == h + EnergyTargets(a[1..]);
    }
  }

  /** The window of period `i` opens just after `start`: zero for the first
      period, the previous period's start year otherwise. */
  function WindowStart(periods: seq<int>, i: int): int
    requires 0 <= i < |periods|
  {
    if i == 0 then 0 else periods[i - 1]
  }

  /** The life of `g` is known wherever the sum needs it. */
  predicate LifeKnownInWindow(amounts: seq<Amount>, g: string, start: int, end: int, life: map<string, int>)
  {
    forall i :: 0 <= i < |amounts| && amounts[i].group == g && start < amounts[i].year <= end ==> g in life
  }

  /** An amount counts toward `g` in the window `(start, end]` when it belongs
      to `g`, falls in the window and is not yet retired at `end`. */
  predicate Counts(a: Amount, g: string, start: int, end: int, life: map<string, int>)
    requires a.group == g && start < a.year <= end ==> g in life
  {
    a.group == g && start < a.year && a.year <= end && a.year + life[g] > end
  }

  function WindowSum(amounts: seq<Amount>, g: string, start: int, end: int, life: map<string, int>): real
    requires LifeKnownInWindow(amounts, g, start, end, life)
  {
    if amounts == [] then 0.0
    else
      assert LifeKnownInWindow(amounts[1..], g, start, end, life);
      (if Counts(amounts[0], g, start, end, life) then amounts[0].value else 0.0)
        + WindowSum(amounts[1..], g, start, end, life)
  }

  /** `tech_group_target`: the target of group `g` in period `periods[i]`. */
  function TechGroupTarget(periods: seq<int>, i: int, g: string, amounts: seq<Amount>, life: map<string, int>): real
    requires 0 <= i < |periods|
    requires LifeKnownInWindow(amounts, g, WindowStart(periods, i), periods[i], life)
  {
    WindowSum(amounts, g, WindowStart(periods, i), periods[i], life)
  }

  /** The amounts that count, in order. */
  function Counted(amounts: seq<Amount>, g: string, start: int, end: int, life: map<string, int>): seq<Amount>
    requires LifeKnownInWindow(amounts, g, start, end, life)
  {
    if amounts == [] then []
    else
      assert LifeKnownInWindow(amounts[1..], g, start, end, life);
      (if Counts(amounts[0], g, start, end, life) then [amounts[0]] else [])
        + Counted(amounts[1..], g, start, end, life)
  }

  function SumValues(amounts: seq<Amount>): real
  {
    if amounts == [] then 0.0 else amounts[0].value + SumValues(amounts[1..])
  }

  /** Each occurrence of an amount that counts is kept, the others dropped. */
  lemma {:induction false} CountedCounts(amounts: seq<Amount>, g: string, start: int, end: int, life: map<string, int>)
    requires LifeKnownInWindow(amounts, g, start, end, life)
    ensures forall a :: multiset(Counted(amounts, g, start, end, life))[a] ==
              (if a in amounts && a.group == g && start < a.year <= end && a.year + life[g] > end
               then multiset(amounts)[a] else 0)
  {
    if amounts != [] {
      var rest := amounts[1..];
      assert LifeKnownInWindow(rest, g, start, end, life);
      CountedCounts(rest, g, start, end, life);
      assert amounts == [amounts[0]] + rest;
    }
  }

  /** The window sum is the plain sum of the amounts that count, and an
      amount counts exactly when it is of `g`, in `(start, end]` and alive at
      `end`; each occurrence of a repeated amount counts once. */
  lemma {:induction false} WindowSumIsSumOfCounted(amounts: seq<Amount>, g: string, start: int, end: int, life: map<string, int>)
    requires LifeKnownInWindow(amounts, g, start, end, life)
    ensures WindowSum(amounts, g, start, end, life) == SumValues(Counted(amounts, g, start, end, life))
    ensures forall a :: a in Counted(amounts, g, start, end, life) <==>
      a in amounts && a.group == g && start < a.year <= end && a.year + life[g] > end
    ensures forall a :: multiset(Counted(amounts, g, start, end, life))[a] ==
              (if a in amounts && a.group == g && start < a.year <= end && a.year + life[g] > end
               then multiset(amounts)[a] else 0)
  {
    CountedCounts(amounts, g, start, end, life);
    if amounts != [] {
      var rest := amounts[1..];
      assert LifeKnownInWindow(rest, g, start, end, life);
      WindowSumIsSumOfCounted(rest, g, start, end, life);
      assert amounts == [amounts[0]] + rest;
      var c := Counted(rest, g, start, end, life);
      if Counts(amounts[0], g, start, end, life) {
        assert ([amounts[0]] + c)[1..] == c;
      } else {
        assert [] + c == c;
      }
    }
  }

  lemma {:induction false} WindowSumAppend(a: seq<Amount>, b: seq<Amount>, g: string, start: int, end: int, life: map<string, int>)
    requires LifeKnownInWindow(a + b, g, start, end, life)
    ensures LifeKnownInWindow(a, g, start, end, life) && LifeKnownInWindow(b, g, start, end, life)
    ensures WindowSum(a + b, g, start, end, life) == WindowSum(a, g, start, end, life) + WindowSum(b, g, start, end, life)
  {
    assert forall i :: 0 <= i < |a| ==> a[i] == (a + b)[i];
    assert forall i :: 0 <= i < |b| ==> b[i] == (a + b)[|a| + i];
    if a == [] {
      assert a + b == b;
    } else {
      assert (a + b)[1..] == a[1..] + b;
      WindowSumAppend(a[1..], b, g, start, end, life);
    }
  }

  /** Targets are never negative when no quantity is. */
  lemma {:induction false} WindowSumNonNegative(amounts: seq<Amount>, g: string, start: int, end: int, life: map<string, int>)
    requires LifeKnownInWindow(amounts, g, start, end, life)
    requires forall i :: 0 <= i < |amounts| ==> amounts[i].value >= 0.0
    ensures WindowSum(amounts, g, start, end, life) >= 0.0
  {
    if amounts != [] {
      assert LifeKnownInWindow(amounts[1..], g, start, end, life);
      WindowSumNonNegative(amounts[1..], g, start, end, life);
    }
  }

  /** Period start years in increasing order. */
  predicate Increasing(periods: seq<int>)
  {
    forall i, j :: 0 <= i < j < |periods| ==> periods[i] < periods[j]
  }

  /** The year falls in the window of period `i`. */
  predicate InWindow(periods: seq<int>, i: int, y: int)
  {
    0 <= i < |periods| && WindowStart(periods, i) < y <= periods[i]
  }

  /** The windows of increasing positive periods do not overlap: a year
      falls in at most one of them. */
  lemma WindowsDisjoint(periods: seq<int>, i: int, j: int, y: int)
    requires Increasing(periods)
    requires InWindow(periods, i, y) && InWindow(periods, j, y)
    ensures i == j
  {
    if i < j {
      WindowStartAfter(periods, i, j);
    } else if j < i {
      WindowStartAfter(periods, j, i);
    }
  }

  /** A later window opens no earlier than an earlier period starts. */
  lemma WindowStartAfter(periods: seq<int>, i: int, j: int)
    requires Increasing(periods) && 0 <= i < j < |periods|
    ensures periods[i] <= WindowStart(periods, j)
  {
    if i < j - 1 {
      assert periods[i] < periods[j - 1];
    }
  }

  /** And together they cover every year from 1 to the last period. */
  lemma {:induction false} WindowsCover(periods: seq<int>, y: int) returns (i: int)
    requires |periods| > 0 && 0 < y <= periods[|periods| - 1]
    ensures InWindow(periods, i, y)
    decreases |periods|
  {
    if |periods| == 1 || y > periods[|periods| - 2] {
      i := |periods| - 1;
    } else {
      i := WindowsCover(periods[..|periods| - 1], y);
      assert WindowStart(periods[..|periods| - 1], i) == WindowStart(periods, i);
    }
  }

  /** The window rule on the periods [2020, 2025, 2030] with a life of 25:
      an event of 2022 counts toward the 2025 target only, not toward 2020
      and not toward 2030. */
  lemma WindowExample(v: real)
    ensures var periods := [2020, 2025, 2030];
      var amounts := [Amount(2022, "LargePV", v)];
      var life := map["LargePV" := 25];
      && TechGroupTarget(periods, 0, "LargePV", amounts, life) == 0.0
      && TechGroupTarget(periods, 1, "LargePV", amounts, life) == v
      && TechGroupTarget(periods, 2, "LargePV", amounts, life) == 0.0
  {
    var amounts := [Amount(2022, "LargePV", v)];
    var life := map["LargePV" := 25];
    assert amounts[1..] == [];
    assert WindowSum(amounts, "LargePV", 0, 2020, life) == 0.0 + WindowSum([], "LargePV", 0, 2020, life);
    assert WindowSum(amounts, "LargePV", 2020, 2025, life) == v + WindowSum([], "LargePV", 2020, 2025, life);
    assert WindowSum(amounts, "LargePV", 2025, 2030, life) == 0.0 + WindowSum([], "LargePV", 2025, 2030, life);
  }

  /** An event retired by the end of its window does not count: with a life
      of 3, a build of 2021 is gone by 2025. */
  lemma RetiredExample(v: real)
    ensures TechGroupTarget([2020, 2025], 1, "DistBattery", [Amount(2021, "DistBattery", v)], map["DistBattery" := 3]) == 0.0
  {
    var amounts := [Amount(2021, "DistBattery", v)];
    assert amounts[1..] == [];
    assert WindowSum(amounts, "DistBattery", 2020, 2025, map["DistBattery" := 3]) ==
      0.0 + WindowSum([], "DistBattery", 2020, 2025, map["DistBattery" := 3]);
  }

  /** `last_definite_target[g]` after the loop, read with a default of 0:
      the running maximum of 0 and the years of `g`'s events. */
  function MaxYear(events: seq<Event>, g: string): (r: int)
    ensures r >= 0
  {
    if events == [] then 0
    else
      var e := events[|events| - 1];
      var m := MaxYear(events[..|events| - 1], g);
      if e.group == g && e.year > m then e.year else m
  }

  /** The maximum: at least 0 and every year of `g`, and either 0 or one of them. */
  lemma {:induction false} MaxYearIsMaximum(events: seq<Event>, g: string)
    ensures MaxYear(events, g) >= 0
    ensures forall e :: e in events && e.group == g ==> e.year <= MaxYear(events, g)
    ensures MaxYear(events, g) == 0 ||
      exists e :: e in events && e.group == g && e.year == MaxYear(events, g)
  {
    if events != [] {
      var init := events[..|events| - 1];
      MaxYearIsMaximum(init, g);
      assert events == init + [events[|events| - 1]];
    }
  }

  /** The loop of the source over the definite list. */
  method LastDefiniteTargets(events: seq<Event>) returns (last: map<string, int>)
    ensures last.Keys == TargetGroups(events)
    ensures forall g :: GetOr(last, g, 0) == MaxYear(events, g)
  {
    last := map[];
    var i := 0;
    while i < |events|
      invariant 0 <= i <= |events|
      invariant last.Keys == TargetGroups(events[..i])
      invariant forall g :: GetOr(last, g, 0) == MaxYear(events[..i], g)
    {
      var e := events[i];
      var prior := GetOr(last, e.group, 0);
      last := last[e.group := if e.year > prior then e.year else prior];
      assert events[..i + 1][..i] == events[..i];
      assert events[..i + 1] == events[..i] + [e];
      i := i + 1;
    }
    assert events[..i] == events;
  }
}
