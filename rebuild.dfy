/** Rebuilding at retirement: every seed event `(y, g, q)` is followed by
    copies at `y + life(g)`, `y + 2*life(g)`, ... up to the start of the last
    period. */
module Rebuild {
  import opened Common
  import opened TechNames
  import opened TargetLists
  import opened Grouping

  /** Every group with a known life has a positive life. */
  predicate LivesPositive(ages: map<string, int>)
  {
    forall g :: g in ages ==> ages[g] > 0
  }

  /** Copies of `(g, q)` at `year`, `year + life`, ... while not after `last`. */
  function SuccessorsFrom(year: int, g: string, q: Quantity, life: int, last: int): seq<Event>
    requires life > 0
    decreases if year <= last then last - year + 1 else 0
  {
    if year <= last then [Event(year, g, q)] + SuccessorsFrom(year + life, g, q, life, last) else []
  }

  /** The rebuild events of one seed. */
  function Successors(e: Event, life: int, last: int): seq<Event>
    requires life > 0
  {
    SuccessorsFrom(e.year + life, e.group, e.quantity, life, last)
  }

  /** The seeds whose groups have a known life. */
  predicate AllKnown(seeds: seq<Event>, ages: map<string, int>)
  {
    forall i :: 0 <= i < |seeds| ==> seeds[i].group in ages
  }

  /** `seeds[k]` is the first seed whose group has no known life. */
  predicate FirstUnknownAt(seeds: seq<Event>, ages: map<string, int>, k: int)
  {
    0 <= k < |seeds| && seeds[k].group !in ages && AllKnown(seeds[..k], ages)
  }

  /** All rebuild events of `seeds`, seed by seed, in order. */
  function Expansion(seeds: seq<Event>, ages: map<string, int>, last: int): seq<Event>
    requires LivesPositive(ages) && AllKnown(seeds, ages)
  {
    if seeds == [] then []
    else
      var e := seeds[|seeds| - 1];
      assert AllKnown(seeds[..|seeds| - 1], ages);
      Expansion(seeds[..|seeds| - 1], ages, last) + Successors(e, ages[e.group], last)
  }

  /** The existing-fleet records that are rebuilt: renewables and batteries. */
  function RebuildableExisting(existing: seq<Event>): (r: seq<Event>)
    ensures |r| <= |existing|
  {
    if existing == [] then []
    else
      var e := existing[|existing| - 1];
      RebuildableExisting(existing[..|existing| - 1]) + (if IsRenewable(e.group) || IsBattery(e.group) then [e] else [])
  }

  /** The first existing record that is a battery, if any. */
  function FirstBattery(existing: seq<Event>): Option<string>
  {
    if existing == [] then None
    else if IsBattery(existing[0].group) then Some(existing[0].group)
    else FirstBattery(existing[1..])
  }

  /** The guard against pre-existing batteries, which the rebuild logic does
      not handle yet. */
  function CheckNoBatteries(existing: seq<Event>): (r: Result<seq<Event>>)
    ensures r.Ok? ==> r.value == existing
    ensures r.Err? ==> r.error.PreexistingBattery?
  {
    match FirstBattery(existing)
    case None => Ok(existing)
    case Some(g) => Err(PreexistingBattery(g))
  }

  /** Appends the rebuild events of one seed, as the inner `while` loop does. */
  method AppendSuccessors(seed: Event, maxAge: int, targets: EventList, lastPeriod: int)
    requires maxAge > 0
    modifies targets
    ensures targets.items == old(targets.items) + Successors(seed, maxAge, lastPeriod)
  {
    var rebuild := 1;
    while seed.year + rebuild * maxAge <= lastPeriod
      invariant rebuild >= 1
      invariant targets.items + SuccessorsFrom(seed.year + rebuild * maxAge, seed.group, seed.quantity, maxAge, lastPeriod)
        == old(targets.items) + Successors(seed, maxAge, lastPeriod)
      decreases lastPeriod - seed.year - rebuild * maxAge
    {
      ghost var year := seed.year + rebuild * maxAge;
      targets.Append(Event(seed.year + rebuild * maxAge, seed.group, seed.quantity));
      NextMultiple(seed.year, rebuild, maxAge);
      rebuild := rebuild + 1;
      assert seed.year + rebuild * maxAge == year + maxAge;
    }
  }

  lemma NextMultiple(y: int, k: int, life: int)
    ensures y + (k + 1) * life == y + k * life + life
  {
  }

  /** The rebuild loop. `targets` is the active list object; the seeds are a
      new list taken before the loop (the rebuildable existing records, then
      the targets), so the appended events are not themselves rebuilt.
      Returns `tech_life`, or the first unknown group as an error, after the
      appends of the seeds before it. */
  method RebuildTargets(existing: seq<Event>, targets: EventList, ages: map<string, int>, lastPeriod: int)
    returns (r: Result<map<string, int>>)
    requires LivesPositive(ages)
    modifies targets
    ensures var seeds := RebuildableExisting(existing) + old(targets.items);
      && (r.Ok? <==> AllKnown(seeds, ages))
      && (r.Ok? ==> targets.items == old(targets.items) + Expansion(seeds, ages, lastPeriod))
      && (r.Ok? ==> r.value.Keys == TargetGroups(seeds))
      && (r.Ok? ==> forall g :: g in r.value ==> g in ages && r.value[g] == ages[g])
      && (r.Err? ==> exists k :: (FirstUnknownAt(seeds, ages, k) &&
            r.error == UnknownTechGroup(seeds[k].group) &&
            targets.items == old(targets.items) + Expansion(seeds[..k], ages, lastPeriod)))
  {
    var seeds := RebuildableExisting(existing) + targets.items;
    r := RebuildSeeds(seeds, targets, ages, lastPeriod);
    if r.Ok? {
      LifeMapShape(seeds, ages);
    }
  }

  /** The loop over a fixed list of seeds. */
  method RebuildSeeds(seeds: seq<Event>, targets: EventList, ages: map<string, int>, lastPeriod: int)
    returns (r: Result<map<string, int>>)
    requires LivesPositive(ages)
    modifies targets
    ensures r.Ok? <==> AllKnown(seeds, ages)
    ensures r.Ok? ==> targets.items == old(targets.items) + Expansion(seeds, ages, lastPeriod)
    ensures r.Ok? ==> r.value == LifeMap(seeds, ages)
    ensures r.Err? ==> exists k :: (FirstUnknownAt(seeds, ages, k) &&
      r.error == UnknownTechGroup(seeds[k].group) &&
      targets.items == old(targets.items) + Expansion(seeds[..k], ages, lastPeriod))
  {
    var techLife: map<string, int> := map[];
    var i := 0;
    assert seeds[..0] == [];
    while i < |seeds|
      invariant 0 <= i <= |seeds|
      invariant AllKnown(seeds[..i], ages)
      invariant targets.items == old(targets.items) + Expansion(seeds[..i], ages, lastPeriod)
      invariant techLife == LifeMap(seeds[..i], ages)
    {
      var seed := seeds[i];
      if seed.group !in ages {
        assert FirstUnknownAt(seeds, ages, i);
        assert !AllKnown(seeds, ages);
        return Err(UnknownTechGroup(seed.group));
      }
      var maxAge := ages[seed.group];
      techLife := techLife[seed.group := maxAge];
      AppendSuccessors(seed, maxAge, targets, lastPeriod);
      ExpansionStep(seeds, i, ages, lastPeriod);
      i := i + 1;
    }
    assert seeds[..i] == seeds;
    r := Ok(techLife);
  }

  /** `tech_life` after the seeds: each seed's group mapped to its life. */
  function LifeMap(seeds: seq<Event>, ages: map<string, int>): (r: map<string, int>)
    requires AllKnown(seeds, ages)
    ensures forall g :: g in r ==> g in ages && r[g] == ages[g]
  {
    if seeds == [] then map[]
    else
      var e := seeds[|seeds| - 1];
      assert AllKnown(seeds[..|seeds| - 1], ages);
      LifeMap(seeds[..|seeds| - 1], ages)[e.group := ages[e.group]]
  }

  /** `tech_life` holds exactly the seeds' groups, each with its known life. */
  lemma {:induction false} LifeMapShape(seeds: seq<Event>, ages: map<string, int>)
    requires AllKnown(seeds, ages)
    ensures LifeMap(seeds, ages).Keys == TargetGroups(seeds)
    ensures forall g :: g in LifeMap(seeds, ages) ==> g in ages && LifeMap(seeds, ages)[g] == ages[g]
  {
    if seeds != [] {
      var init := seeds[..|seeds| - 1];
      assert AllKnown(init, ages);
      LifeMapShape(init, ages);
      GroupsStep(seeds, |seeds| - 1);
      assert seeds[..|seeds|] == seeds;
    }
  }

  /** One more seed extends the expansion by that seed's rebuild events. */
  lemma ExpansionStep(seeds: seq<Event>, i: int, ages: map<string, int>, last: int)
    requires 0 <= i < |seeds| && LivesPositive(ages)
    requires AllKnown(seeds[..i], ages) && seeds[i].group in ages
    ensures AllKnown(seeds[..i + 1], ages)
    ensures Expansion(seeds[..i + 1], ages, last) ==
      Expansion(seeds[..i], ages, last) + Successors(seeds[i], ages[seeds[i].group], last)
    ensures LifeMap(seeds[..i + 1], ages) == LifeMap(seeds[..i], ages)[seeds[i].group := ages[seeds[i].group]]
  {
    assert seeds[..i + 1][..i] == seeds[..i];
  }

  lemma GroupsStep(seeds: seq<Event>, i: int)
    requires 0 <= i < |seeds|
    ensures TargetGroups(seeds[..i + 1]) == TargetGroups(seeds[..i]) + {seeds[i].group}
  {
    assert seeds[..i + 1] == seeds[..i] + [seeds[i]];
  }

  /** Rebuild events of one seed: the `k`-th is `(y + k*life, g, q)`, none is
      after `last`, and the next one would be. */
  lemma {:induction false} SuccessorsFromExact(year: int, g: string, q: Quantity, life: int, last: int)
    requires life > 0
    ensures var s := SuccessorsFrom(year, g, q, life, last);
      && (forall i :: 0 <= i < |s| ==> s[i] == Event(year + i * life, g, q))
      && (forall i :: 0 <= i < |s| ==> s[i].year <= last)
      && year + |s| * life > last
    decreases if year <= last then last - year + 1 else 0
  {
    var s := SuccessorsFrom(year, g, q, life, last);
    if year <= last {
      var t := SuccessorsFrom(year + life, g, q, life, last);
      SuccessorsFromExact(year + life, g, q, life, last);
      assert s == [Event(year, g, q)] + t;
      forall i | 0 < i < |s| ensures s[i] == Event(year + i * life, g, q) {
        assert s[i] == t[i - 1];
        NextMultiple(year, i - 1, life);
      }
      NextMultiple(year, |t|, life);
    }
  }

  /** Rebuild coverage: the seed `(y, g, q)` with life `L` gets exactly the
      events `(y + k*L, g, q)` for `k = 1, 2, ...` with `y + k*L <= last`. */
  lemma SuccessorsExact(e: Event, life: int, last: int)
    requires life > 0
    ensures var s := Successors(e, life, last);
      && (forall k :: 1 <= k <= |s| ==> s[k - 1] == Event(e.year + k * life, e.group, e.quantity))
      && (forall k :: 1 <= k <= |s| ==> e.year + k * life <= last)
      && (forall k :: k > |s| ==> e.year + k * life > last)
  {
    SuccessorsAt(e, life, last);
    SuccessorsBeyond(e, life, last);
  }

  lemma SuccessorsAt(e: Event, life: int, last: int)
    requires life > 0
    ensures var s := Successors(e, life, last);
      forall k :: 1 <= k <= |s| ==> s[k - 1] == Event(e.year + k * life, e.group, e.quantity) && s[k - 1].year <= last
  {
    var s := Successors(e, life, last);
    SuccessorsFromExact(e.year + life, e.group, e.quantity, life, last);
    forall k | 1 <= k <= |s|
      ensures s[k - 1] == Event(e.year + k * life, e.group, e.quantity) && s[k - 1].year <= last
    {
      assert s[k - 1] == Event(e.year + life + (k - 1) * life, e.group, e.quantity);
      NextMultiple(e.year, k - 1, life);
    }
  }

  lemma SuccessorsBeyond(e: Event, life: int, last: int)
    requires life > 0
    ensures forall k :: k > |Successors(e, life, last)| ==> e.year + k * life > last
  {
    var n := |Successors(e, life, last)|;
    SuccessorsFromExact(e.year + life, e.group, e.quantity, life, last);
    NextMultiple(e.year, n, life);
    assert e.year + (n + 1) * life > last;
    forall k | k > n ensures e.year + k * life > last {
      MulMonotone(n + 1, k, life);
    }
  }

  lemma MulMonotone(a: int, b: int, c: int)
    requires a <= b && c > 0
    ensures a * c <= b * c
  {
  }

  /** The number of rebuild events of a seed is `(last - y) / life` when the
      seed is not after `last`, and zero otherwise. */
  lemma SuccessorCount(e: Event, life: int, last: int)
    requires life > 0
    ensures |Successors(e, life, last)| == if e.year <= last then (last - e.year) / life else 0
  {
    var n := |Successors(e, life, last)|;
    SuccessorsFromExact(e.year + life, e.group, e.quantity, life, last);
    assert e.year + life + n * life > last;
    if e.year <= last {
      if n > 0 {
        SuccessorsAt(e, life, last);
        assert e.year + n * life <= last;
      }
      NextMultiple(e.year, n, life);
      SuccessorsBeyond(e, life, last);
      DivUnique(last - e.year, life, n);
    } else {
      assert e.year + life > last;
    }
  }

  lemma DivUnique(x: int, d: int, n: int)
    requires d > 0 && n >= 0 && n * d <= x < (n + 1) * d
    ensures x / d == n
  {
    var q, r := x / d, x % d;
    assert x == q * d + r && 0 <= r < d;
    if q < n {
      MulMonotone(q + 1, n, d);
    } else if q > n {
      MulMonotone(n + 1, q, d);
    }
  }

  /** Every rebuild event of `seeds` is a copy of some seed at a later year
      that is not after `last`; nothing beyond the horizon is added. */
  lemma {:induction false} ExpansionBounded(seeds: seq<Event>, ages: map<string, int>, last: int)
    requires LivesPositive(ages) && AllKnown(seeds, ages)
    ensures forall x :: x in Expansion(seeds, ages, last) ==>
      x.year <= last && exists s :: s in seeds && s.group == x.group && s.quantity == x.quantity && s.year < x.year
  {
    if seeds != [] {
      var init := seeds[..|seeds| - 1];
      var e := seeds[|seeds| - 1];
      assert AllKnown(init, ages);
      ExpansionBounded(init, ages, last);
      var life := ages[e.group];
      SuccessorsExact(e, life, last);
      forall x | x in Expansion(seeds, ages, last)
        ensures x.year <= last && exists s :: s in seeds && s.group == x.group && s.quantity == x.quantity && s.year < x.year
      {
        if x in Expansion(init, ages, last) {
          var s :| s in init && s.group == x.group && s.quantity == x.quantity && s.year < x.year;
          assert s in seeds;
        } else {
          var succ := Successors(e, life, last);
          assert x in succ;
          var k :| 0 <= k < |succ| && succ[k] == x;
          assert succ[(k + 1) - 1] == Event(e.year + (k + 1) * life, e.group, e.quantity);
          MulMonotone(1, k + 1, life);
        }
      }
    }
  }

  /** The expansion of a concatenation is the concatenation of expansions. */
  lemma {:induction false} ExpansionAppend(a: seq<Event>, b: seq<Event>, ages: map<string, int>, last: int)
    requires LivesPositive(ages) && AllKnown(a, ages) && AllKnown(b, ages)
    ensures AllKnown(a + b, ages)
    ensures Expansion(a + b, ages, last) == Expansion(a, ages, last) + Expansion(b, ages, last)
    decreases |b|
  {
    assert AllKnown(a + b, ages) by {
      forall i | 0 <= i < |a + b| ensures (a + b)[i].group in ages {
        if i >= |a| { assert (a + b)[i] == b[i - |a|]; }
      }
    }
    if b == [] {
      assert a + b == a;
    } else {
      var init := b[..|b| - 1];
      assert AllKnown(init, ages);
      assert (a + b)[..|a + b| - 1] == a + init;
      ExpansionAppend(a, init, ages, last);
    }
  }

  /** Seeds after the horizon are not rebuilt at all. */
  lemma {:induction false} ExpansionOfLateSeeds(seeds: seq<Event>, ages: map<string, int>, last: int)
    requires LivesPositive(ages) && AllKnown(seeds, ages)
    requires forall i :: 0 <= i < |seeds| ==> seeds[i].year + ages[seeds[i].group] > last
    ensures Expansion(seeds, ages, last) == []
  {
    if seeds != [] {
      var init := seeds[..|seeds| - 1];
      assert AllKnown(init, ages);
      ExpansionOfLateSeeds(init, ages, last);
    }
  }

  /** Which existing records are rebuilt: exactly the renewable and battery ones, in order. */
  lemma {:induction false} RebuildableExistingMembers(existing: seq<Event>)
    ensures forall e :: e in RebuildableExisting(existing) <==>
      e in existing && (IsRenewable(e.group) || IsBattery(e.group))
  {
    if existing != [] {
      var init := existing[..|existing| - 1];
      RebuildableExistingMembers(init);
      assert existing == init + [existing[|existing| - 1]];
    }
  }

  /** Counted with multiplicity and in order: each rebuilt record appears
      as often as in the fleet, the others not at all. */
  lemma {:induction false} RebuildableExistingShape(existing: seq<Event>)
    ensures forall e :: multiset(RebuildableExisting(existing))[e] ==
              (if IsRenewable(e.group) || IsBattery(e.group) then multiset(existing)[e] else 0)
    ensures IsSubsequence(RebuildableExisting(existing), existing)
  {
    if existing == [] {
    } else {
      var init := existing[..|existing| - 1];
      var e := existing[|existing| - 1];
      RebuildableExistingShape(init);
      assert existing == init + [e];
      if IsRenewable(e.group) || IsBattery(e.group) {
        SubsequenceExtend(RebuildableExisting(init), init, e);
      } else {
        SubsequenceExtend(RebuildableExisting(init), init, e);
        assert RebuildableExisting(existing) == RebuildableExisting(init) + [];
        assert RebuildableExisting(init) + [] == RebuildableExisting(init);
      }
    }
  }

  /** The battery guard passes exactly when no existing record is a
      battery, and otherwise names the first battery group. */
  lemma {:induction false} CheckNoBatteriesIff(existing: seq<Event>)
    ensures CheckNoBatteries(existing).Ok? <==> forall i :: 0 <= i < |existing| ==> !IsBattery(existing[i].group)
    ensures CheckNoBatteries(existing).Ok? ==> CheckNoBatteries(existing).value == existing
    ensures CheckNoBatteries(existing).Err? ==>
      exists i :: 0 <= i < |existing| && IsBattery(existing[i].group) &&
        (forall j :: 0 <= j < i ==> !IsBattery(existing[j].group)) &&
        CheckNoBatteries(existing).error == PreexistingBattery(existing[i].group)
  {
    if existing != [] && !IsBattery(existing[0].group) {
      var rest := existing[1..];
      CheckNoBatteriesIff(rest);
      if CheckNoBatteries(rest).Err? {
        var i :| 0 <= i < |rest| && IsBattery(rest[i].group) &&
          (forall j :: 0 <= j < i ==> !IsBattery(rest[j].group)) &&
          CheckNoBatteries(rest).error == PreexistingBattery(rest[i].group);
        assert existing[i + 1] == rest[i];
        assert forall j :: 0 < j < i + 1 ==> existing[j] == rest[j - 1];
      } else {
        assert forall i :: 0 < i < |existing| ==> existing[i] == rest[i - 1];
      }
    }
  }
}
