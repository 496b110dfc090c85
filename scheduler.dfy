/** The target scheduler end to end: resolving the policy, building the
    target lists, rebuilding at retirement, aggregating, and emitting the
    power and energy constraints for every (period, tech group). */
module Scheduler {
  import opened Common
  import opened TechNames
  import opened PolicyFlags
  import opened TargetLists
  import opened Grouping
  import opened Rebuild
  import opened Aggregation
  import opened Enforcement

  /** The command-line options the scheduler reads. */
  datatype Options = Options(psipForce: bool, relaxAfter: Option<real>, minimalRenewables: bool, forceBuild: Option<Event>)

  /** The tables it starts from: the definite and PSIP target tables, the
      existing fleet summed by build year and group, the service life of
      each group, and the study periods. */
  datatype Tables = Tables(definite: seq<Event>, psipPlan: seq<Event>, existing: seq<Event>,
                           ages: map<string, int>, periods: seq<int>)

  /** What the scheduler has built once the targets are fixed. `definite` is
      the final content of the definite list object. */
  datatype Schedule = Schedule(
    policy: Policy,
    periods: seq<int>,
    definite: seq<Event>,
    targets: seq<Event>,
    groupMembers: map<string, seq<string>>,
    techGroup: map<string, string>,
    techLife: map<string, int>,
    powerTargets: seq<Amount>,
    energyTargets: seq<Amount>,
    lastDefinite: map<string, int>)

  /** Every amount's group has a known life, so every window sum is defined. */
  predicate LivesKnown(s: Schedule)
  {
    && (forall k :: 0 <= k < |s.powerTargets| ==> s.powerTargets[k].group in s.techLife)
    && (forall k :: 0 <= k < |s.energyTargets| ==> s.energyTargets[k].group in s.techLife)
  }

  /** From the options and tables to the schedule, in the source's order:
      the policy flag, the force-build append, the target selection, the
      group maps, the pre-existing battery guard, the rebuild loop, the
      power and energy lists and the last definite years. */
  method DefineTargets(env: Option<string>, opts: Options, tables: Tables) returns (r: Result<Schedule>)
    requires LivesPositive(tables.ages)
    requires |tables.periods| > 0
    ensures ResolvePsip(env, opts.psipForce).Err? ==> r == Err(ResolvePsip(env, opts.psipForce).error)
    ensures ResolvePsip(env, opts.psipForce).Ok? && CheckNoBatteries(tables.existing).Err? ==>
      r == Err(CheckNoBatteries(tables.existing).error)
    ensures ResolvePsip(env, opts.psipForce).Ok? && CheckNoBatteries(tables.existing).Ok? ==>
      var psip := ResolvePsip(env, opts.psipForce).value;
      var definite := tables.definite + ForcedEvents(opts.forceBuild);
      var selected := ActiveTargets(psip, opts.relaxAfter, definite, tables.psipPlan);
      var seeds := RebuildableExisting(tables.existing) + selected;
      var last := tables.periods[|tables.periods| - 1];
      && (r.Ok? <==> AllKnown(seeds, tables.ages))
      && (r.Err? ==> exists k :: FirstUnknownAt(seeds, tables.ages, k) && r.error == UnknownTechGroup(seeds[k].group))
      && (r.Ok? ==>
            && r.value.policy == Policy(psip, opts.relaxAfter, opts.minimalRenewables)
            && r.value.periods == tables.periods
            && r.value.targets == selected + Expansion(seeds, tables.ages, last)
            && r.value.definite == (if psip then definite else r.value.targets)
            && r.value.groupMembers == GroupMembers(selected)
            && r.value.techGroup == TechGroupOf(selected)
            && r.value.techLife.Keys == TargetGroups(seeds)
            && (forall g :: g in r.value.techLife ==> g in tables.ages && r.value.techLife[g] == tables.ages[g])
            && r.value.powerTargets == PowerTargets(r.value.targets)
            && r.value.energyTargets == EnergyTargets(r.value.targets)
            && (forall g :: GetOr(r.value.lastDefinite, g, 0) == MaxYear(r.value.definite, g))
            && LivesKnown(r.value))
  {
    var resolved := ResolvePsip(env, opts.psipForce);
    if resolved.Err? {
      return Err(resolved.error);
    }
    var psip := resolved.value;
    var definite := new EventList(tables.definite);
    AddForceBuild(definite, opts.forceBuild);
    var targets := SelectTargets(psip, opts.relaxAfter, definite, tables.psipPlan);
    var selected := targets.items;
    var members := GroupMembers(selected);
    var techGroup := TechGroupOf(selected);
    var guard := CheckNoBatteries(tables.existing);
    if guard.Err? {
      return Err(guard.error);
    }
    var last := tables.periods[|tables.periods| - 1];
    var life := RebuildTargets(tables.existing, targets, tables.ages, last);
    if life.Err? {
      return Err(life.error);
    }
    var all := targets.items;
    var lastDefinite := LastDefiniteTargets(definite.items);
    var seeds := RebuildableExisting(tables.existing) + selected;
    TargetsHaveLives(seeds, selected, tables.ages, last);
    AmountsHaveLives(all, life.value);
    r := Ok(Schedule(Policy(psip, opts.relaxAfter, opts.minimalRenewables), tables.periods, definite.items, all,
                     members, techGroup, life.value, PowerTargets(all), EnergyTargets(all), lastDefinite));
  }

  /** Every active target, including every rebuild, belongs to a group of
      some seed, so its group has a recorded life. */
  lemma TargetsHaveLives(seeds: seq<Event>, selected: seq<Event>, ages: map<string, int>, last: int)
    requires LivesPositive(ages) && AllKnown(seeds, ages)
    requires exists pre :: seeds == pre + selected
    ensures forall e :: e in selected + Expansion(seeds, ages, last) ==> e.group in TargetGroups(seeds)
  {
    var pre :| seeds == pre + selected;
    ExpansionBounded(seeds, ages, last);
    forall e | e in selected + Expansion(seeds, ages, last)
      ensures e.group in TargetGroups(seeds)
    {
      if e in selected {
        assert e in seeds;
      }
    }
  }

  lemma AmountsHaveLives(targets: seq<Event>, life: map<string, int>)
    requires forall e :: e in targets ==> e.group in life
    ensures forall k :: 0 <= k < |PowerTargets(targets)| ==> PowerTargets(targets)[k].group in life
    ensures forall k :: 0 <= k < |EnergyTargets(targets)| ==> EnergyTargets(targets)[k].group in life
  {
    PowerTargetsAt(targets);
    EnergyTargetsMembers(targets);
    forall k | 0 <= k < |EnergyTargets(targets)|
      ensures EnergyTargets(targets)[k].group in life
    {
      var x := EnergyTargets(targets)[k];
      assert x in EnergyTargets(targets);
      var e :| e in targets && e.quantity.Pair? && x == EnergyOf(e);
    }
  }

  /** The definite list the enforcement reads. With the PSIP plan enforced
      it holds only the definite events; without it, it is the same list as
      the active targets, so every rebuild year also counts as a definite
      year of its group. */
  lemma {:induction false} LastDefiniteWithRebuilds(definite: seq<Event>, existing: seq<Event>, ages: map<string, int>, last: int)
    requires LivesPositive(ages) && AllKnown(RebuildableExisting(existing) + definite, ages)
    ensures var all := definite + Expansion(RebuildableExisting(existing) + definite, ages, last);
      && (forall e :: e in all ==> e.year <= MaxYear(all, e.group))
      && (forall g :: MaxYear(definite, g) <= MaxYear(all, g))
  {
    var all := definite + Expansion(RebuildableExisting(existing) + definite, ages, last);
    MaxYearIsMaximum(all, "");
    forall e | e in all
      ensures e.year <= MaxYear(all, e.group)
    {
      MaxYearIsMaximum(all, e.group);
    }
    forall g
      ensures MaxYear(definite, g) <= MaxYear(all, g)
    {
      MaxYearIsMaximum(definite, g);
      MaxYearIsMaximum(all, g);
      if MaxYear(definite, g) != 0 {
        var e :| e in definite && e.group == g && e.year == MaxYear(definite, g);
        assert e in all;
      }
    }
  }

  /** A definite DistPV build of 2020 with a 25-year life and a horizon of
      2045 is rebuilt once, in 2045. Without the PSIP plan that rebuild year
      becomes the last definite year, so the 2045 target is enforced with
      `==`; had the last definite year been the 2020 of the table, it would
      be a lower bound. */
  lemma DistPVRebuildLocksHorizon(v: real, build: seq<string>, target: real)
    requires build != []
    ensures var seed := Event(2020, "DistPV", Scalar(v));
      var ages := map["DistPV" := 25];
      var rebuilt := Expansion([seed], ages, 2045);
      var policy := Policy(false, None, false);
      && rebuilt == [Event(2045, "DistPV", Scalar(v))]
      && MaxYear([seed] + rebuilt, "DistPV") == 2045
      && MaxYear([seed], "DistPV") == 2020
      && Classify(policy, map["DistPV" := 2045], 2045, "DistPV", build, target) == Ok(Eq(build, target))
      && Classify(policy, map["DistPV" := 2020], 2045, "DistPV", build, target) == Ok(Ge(build, target))
  {
    var seed := Event(2020, "DistPV", Scalar(v));
    var ages := map["DistPV" := 25];
    var again := Event(2045, "DistPV", Scalar(v));
    assert [seed][..0] == [];
    assert Successors(seed, 25, 2045) == [again] by {
      assert SuccessorsFrom(2070, "DistPV", Scalar(v), 25, 2045) == [];
    }
    assert Expansion([seed], ages, 2045) == [again];
    var two := [seed, again];
    assert [seed] + [again] == two;
    assert two[..1] == [seed];
    assert MaxYear([seed], "DistPV") == 2020;
    assert MaxYear(two, "DistPV") == 2045;
  }

  /** Every event's year is at most its group's running maximum. */
  lemma MaxYearBoundsAll(events: seq<Event>)
    ensures forall e :: e in events ==> e.year <= MaxYear(events, e.group)
  {
    forall e | e in events
      ensures e.year <= MaxYear(events, e.group)
    {
      MaxYearIsMaximum(events, e.group);
    }
  }

  /** The last definite years as the comments of the source describe them
      (lines 99-101 and 529-531): read from the definite table and the
      force-build event before the rebuild loop, whatever the PSIP flag. */
  function IntendedLastDefinite(definite: seq<Event>): (r: map<string, int>)
    ensures r.Keys == TargetGroups(definite)
    ensures forall g :: g in r ==> r[g] == MaxYear(definite, g)
    ensures forall e :: e in definite ==> e.year <= r[e.group]
  {
    MaxYearBoundsAll(definite);
    map g | g in TargetGroups(definite) :: MaxYear(definite, g)
  }

  /** With the intended last definite years a rebuild never locks a period
      in: after every definite year of its group, a group with projects gets
      `>=` unless the plan or minimal renewables applies. The 2045 DistPV
      rebuild above is such a case. */
  lemma IntendedLeavesRebuildsOpen(policy: Policy, definite: seq<Event>, per: int, g: string,
                                   build: seq<string>, target: real)
    requires build != [] && !PsipInEffect(policy, per) && !(policy.minimalRenewables && IsRenewable(g))
    requires per > 0 && forall e :: e in definite && e.group == g ==> e.year < per
    ensures Classify(policy, IntendedLastDefinite(definite), per, g, build, target) == Ok(Ge(build, target))
  {
    MaxYearIsMaximum(definite, g);
  }

  // ----- enforcement -----

  /** The project tables and the build-variable registry the constraints read. */
  datatype Registry = Registry(
    projects: seq<string>,
    genTech: map<string, string>,
    unitSizes: seq<(string, real)>,
    predetermined: seq<((string, int), real)>,
    buildGen: set<(string, int)>,
    buildStorageEnergy: set<(string, int)>)

  /** Projects form a set, and every project named in the unit-size and
      predetermined tables has a technology. */
  predicate RegistryValid(reg: Registry)
  {
    && Distinct(reg.projects)
    && (forall i :: 0 <= i < |reg.unitSizes| ==> reg.unitSizes[i].0 in reg.genTech)
    && (forall i :: 0 <= i < |reg.predetermined| ==> reg.predetermined[i].0.0 in reg.genTech)
  }

  /** The enforced constraints, keyed by (period, tech group). An index whose
      rule returns Skip has no entry. */
  datatype Constraints = Constraints(power: map<(int, string), Constraint>, energy: map<(int, string), Constraint>)

  /** What is added to the aggregated target: the predetermined power
      capacity for the power family; for the energy family a dictionary the
      source never fills, so nothing. */
  function Extra(s: Schedule, reg: Registry, energy: bool, key: (string, int)): real
  {
    if energy then 0.0 else PredeterminedCap(reg.predetermined, reg.genTech, s.techGroup, key)
  }

  /** The rule of one family at period `periods[i]` and group `g`. */
  function Rule(s: Schedule, reg: Registry, i: int, g: string, energy: bool): Result<Constraint>
    requires 0 <= i < |s.periods| && LivesKnown(s)
  {
    var per := s.periods[i];
    var amounts := if energy then s.energyTargets else s.powerTargets;
    var vars := if energy then reg.buildStorageEnergy else reg.buildGen;
    Classify(s.policy, s.lastDefinite, per, g, BuildTerms(reg.projects, reg.genTech, s.techGroup, vars, g, per),
             TechGroupTarget(s.periods, i, g, amounts, s.techLife) + Extra(s, reg, energy, (g, per)))
  }

  predicate Distinct<T(==)>(s: seq<T>)
  {
    forall a, b :: 0 <= a < b < |s| ==> s[a] != s[b]
  }

  /** The rules of every index of the family hold. */
  predicate AllRulesOk(s: Schedule, reg: Registry, order: seq<string>, energy: bool)
    requires LivesKnown(s)
  {
    forall i, j :: 0 <= i < |s.periods| && 0 <= j < |order| ==> Rule(s, reg, i, order[j], energy).Ok?
  }

  /** `m` holds exactly the non-Skip constraints of the family. */
  predicate Emits(m: map<(int, string), Constraint>, s: Schedule, reg: Registry, order: seq<string>, energy: bool)
    requires LivesKnown(s)
  {
    && (forall i, j :: 0 <= i < |s.periods| && 0 <= j < |order| && Rule(s, reg, i, order[j], energy).Ok? ==>
          ((s.periods[i], order[j]) in m <==> !Rule(s, reg, i, order[j], energy).value.Skip?) &&
          ((s.periods[i], order[j]) in m ==> m[(s.periods[i], order[j])] == Rule(s, reg, i, order[j], energy).value))
    && (forall key :: key in m ==> key.0 in s.periods && key.1 in order)
  }

  /** The rules of period `i` hold for the groups before `j`, and `m` holds
      exactly their non-Skip constraints. */
  predicate PeriodEmitted(m: map<(int, string), Constraint>, s: Schedule, reg: Registry, order: seq<string>,
                          energy: bool, i: int, j: int)
    requires LivesKnown(s) && 0 <= i < |s.periods| && 0 <= j <= |order|
  {
    forall j' :: 0 <= j' < j ==>
      && Rule(s, reg, i, order[j'], energy).Ok?
      && ((s.periods[i], order[j']) in m <==> !Rule(s, reg, i, order[j'], energy).value.Skip?)
      && ((s.periods[i], order[j']) in m ==> m[(s.periods[i], order[j'])] == Rule(s, reg, i, order[j'], energy).value)
  }

  /** The rules of the periods before `n` hold for every group, and `m`
      holds exactly their non-Skip constraints. */
  predicate EmittedUpTo(m: map<(int, string), Constraint>, s: Schedule, reg: Registry, order: seq<string>,
                        energy: bool, n: int)
    requires LivesKnown(s) && 0 <= n <= |s.periods|
  {
    && (forall i :: 0 <= i < n ==> PeriodEmitted(m, s, reg, order, energy, i, |order|))
    && (forall key :: key in m ==> key.0 in s.periods[..n] && key.1 in order)
  }

  /** The rule at (`i`, `order[j]`) is the first to fail within period `i`. */
  predicate FailsFirstInPeriod(e: Error, s: Schedule, reg: Registry, order: seq<string>, energy: bool, i: int, j: int)
    requires LivesKnown(s)
  {
    && 0 <= i < |s.periods| && 0 <= j < |order|
    && Rule(s, reg, i, order[j], energy).Err? && e == Rule(s, reg, i, order[j], energy).error
    && forall j' :: 0 <= j' < j ==> Rule(s, reg, i, order[j'], energy).Ok?
  }

  /** The constraints of one period, group by group, added to `acc`. */
  method EmitPeriod(s: Schedule, reg: Registry, caps: map<(string, int), real>, i: int, order: seq<string>,
                    energy: bool, acc: map<(int, string), Constraint>)
    returns (r: Result<map<(int, string), Constraint>>)
    requires LivesKnown(s) && 0 <= i < |s.periods| && Distinct(order)
    requires forall key :: GetOr(caps, key, 0.0) == Extra(s, reg, energy, key)
    requires forall key :: key in acc ==> key.0 != s.periods[i]
    ensures r.Ok? <==> forall j :: 0 <= j < |order| ==> Rule(s, reg, i, order[j], energy).Ok?
    ensures r.Ok? ==> forall key :: key in acc ==> key in r.value && r.value[key] == acc[key]
    ensures r.Ok? ==> forall key :: key in r.value ==> key in acc || (key.0 == s.periods[i] && key.1 in order)
    ensures r.Ok? ==> PeriodEmitted(r.value, s, reg, order, energy, i, |order|)
    ensures r.Err? ==> exists j :: FailsFirstInPeriod(r.error, s, reg, order, energy, i, j)
  {
    var per := s.periods[i];
    var amounts := if energy then s.energyTargets else s.powerTargets;
    var vars := if energy then reg.buildStorageEnergy else reg.buildGen;
    var out := acc;
    var j := 0;
    while j < |order|
      invariant 0 <= j <= |order|
      invariant forall key :: key in acc ==> key in out && out[key] == acc[key]
      invariant forall key :: key in out ==> key in acc || (key.0 == per && key.1 in order[..j])
      invariant PeriodEmitted(out, s, reg, order, energy, i, j)
    {
      var g := order[j];
      var target := TechGroupTarget(s.periods, i, g, amounts, s.techLife) + GetOr(caps, (g, per), 0.0);
      var c := Classify(s.policy, s.lastDefinite, per, g, BuildTerms(reg.projects, reg.genTech, s.techGroup, vars, g, per), target);
      assert c == Rule(s, reg, i, g, energy);
      if c.Err? {
        assert FailsFirstInPeriod(c.error, s, reg, order, energy, i, j);
        return Err(c.error);
      }
      NotYetEmitted(order, j);
      assert (per, g) !in out;
      var next := if c.value.Skip? then out else out[(per, g) := c.value];
      PeriodStep(out, next, s, reg, order, energy, i, j);
      assert order[..j + 1] == order[..j] + [g];
      out := next;
      j := j + 1;
    }
    r := Ok(out);
  }

  /** Adding the constraint of (`i`, `order[j]`) extends what was emitted. */
  lemma PeriodStep(m: map<(int, string), Constraint>, next: map<(int, string), Constraint>, s: Schedule, reg: Registry,
                   order: seq<string>, energy: bool, i: int, j: int)
    requires LivesKnown(s) && 0 <= i < |s.periods| && 0 <= j < |order|
    requires PeriodEmitted(m, s, reg, order, energy, i, j)
    requires Rule(s, reg, i, order[j], energy).Ok?
    requires order[j] !in order[..j] && (s.periods[i], order[j]) !in m
    requires next == if Rule(s, reg, i, order[j], energy).value.Skip? then m
      else m[(s.periods[i], order[j]) := Rule(s, reg, i, order[j], energy).value]
    ensures PeriodEmitted(next, s, reg, order, energy, i, j + 1)
  {
    var per := s.periods[i];
    forall j' | 0 <= j' < j + 1
      ensures Rule(s, reg, i, order[j'], energy).Ok?
      ensures (per, order[j']) in next <==> !Rule(s, reg, i, order[j'], energy).value.Skip?
      ensures (per, order[j']) in next ==> next[(per, order[j'])] == Rule(s, reg, i, order[j'], energy).value
    {
      if j' < j {
        assert order[..j][j'] == order[j'];
        assert (per, order[j']) != (per, order[j]);
        assert (per, order[j']) in m <==> !Rule(s, reg, i, order[j'], energy).value.Skip?;
      }
    }
  }

  /** A group of a list without repetitions is not among the groups before it. */
  lemma NotYetEmitted(order: seq<string>, j: int)
    requires Distinct(order) && 0 <= j < |order|
    ensures order[j] !in order[..j]
  {
  }

  /** One period's constraints extend those of the periods before it. */
  lemma EmittedStep(m: map<(int, string), Constraint>, next: map<(int, string), Constraint>, s: Schedule, reg: Registry,
                    order: seq<string>, energy: bool, i: int)
    requires LivesKnown(s) && Distinct(s.periods) && 0 <= i < |s.periods|
    requires EmittedUpTo(m, s, reg, order, energy, i)
    requires forall key :: key in m ==> key in next && next[key] == m[key]
    requires forall key :: key in next ==> key in m || (key.0 == s.periods[i] && key.1 in order)
    requires PeriodEmitted(next, s, reg, order, energy, i, |order|)
    ensures EmittedUpTo(next, s, reg, order, energy, i + 1)
  {
    assert s.periods[..i + 1] == s.periods[..i] + [s.periods[i]];
    forall i' | 0 <= i' < i
      ensures PeriodEmitted(next, s, reg, order, energy, i', |order|)
    {
      assert PeriodEmitted(m, s, reg, order, energy, i', |order|);
      forall j | 0 <= j < |order|
        ensures (s.periods[i'], order[j]) in next ==> (s.periods[i'], order[j]) in m
      {
        assert s.periods[i'] != s.periods[i];
      }
    }
  }

  /** One family: every period in order, every group in order; the first
      failing index stops the construction. */
  method EmitFamily(s: Schedule, reg: Registry, caps: map<(string, int), real>, order: seq<string>, energy: bool)
    returns (r: Result<map<(int, string), Constraint>>)
    requires LivesKnown(s) && Distinct(s.periods) && Distinct(order)
    requires forall key :: GetOr(caps, key, 0.0) == Extra(s, reg, energy, key)
    ensures r.Ok? <==> AllRulesOk(s, reg, order, energy)
    ensures r.Ok? ==> Emits(r.value, s, reg, order, energy)
    ensures r.Err? ==>
      exists i, j :: FailsFirstInPeriod(r.error, s, reg, order, energy, i, j) &&
        forall i', j' :: 0 <= i' < i && 0 <= j' < |order| ==> Rule(s, reg, i', order[j'], energy).Ok?
  {
    var out: map<(int, string), Constraint> := map[];
    var i := 0;
    while i < |s.periods|
      invariant 0 <= i <= |s.periods|
      invariant EmittedUpTo(out, s, reg, order, energy, i)
    {
      forall key | key in out
        ensures key.0 != s.periods[i]
      {
        var k :| 0 <= k < i && s.periods[k] == key.0;
      }
      var step := EmitPeriod(s, reg, caps, i, order, energy, out);
      if step.Err? {
        forall i', j' | 0 <= i' < i && 0 <= j' < |order|
          ensures Rule(s, reg, i', order[j'], energy).Ok?
        {
          assert PeriodEmitted(out, s, reg, order, energy, i', |order|);
        }
        return Err(step.error);
      }
      EmittedStep(out, step.value, s, reg, order, energy, i);
      out := step.value;
      i := i + 1;
    }
    EmittedAll(out, s, reg, order, energy);
    r := Ok(out);
  }

  lemma EmittedAll(m: map<(int, string), Constraint>, s: Schedule, reg: Registry, order: seq<string>, energy: bool)
    requires LivesKnown(s) && EmittedUpTo(m, s, reg, order, energy, |s.periods|)
    ensures AllRulesOk(s, reg, order, energy) && Emits(m, s, reg, order, energy)
  {
    assert s.periods[..|s.periods|] == s.periods;
    forall i, j | 0 <= i < |s.periods| && 0 <= j < |order|
      ensures Rule(s, reg, i, order[j], energy).Ok?
    {
      assert PeriodEmitted(m, s, reg, order, energy, i, |order|);
    }
    forall i, j | 0 <= i < |s.periods| && 0 <= j < |order| && Rule(s, reg, i, order[j], energy).Ok?
      ensures (s.periods[i], order[j]) in m <==> !Rule(s, reg, i, order[j], energy).value.Skip?
      ensures (s.periods[i], order[j]) in m ==> m[(s.periods[i], order[j])] == Rule(s, reg, i, order[j], energy).value
    {
      assert PeriodEmitted(m, s, reg, order, energy, i, |order|);
    }
  }

  /** `Enforce_Tech_Group_Power_Target` and `Enforce_Tech_Group_Energy_Target`
      after `MakeTechGroupDicts`: the unit-size check, the predetermined
      capacity, then every power constraint and every energy constraint.
      `order` is the order of the tech groups. */
  method EnforceTargets(s: Schedule, reg: Registry, order: seq<string>) returns (r: Result<Constraints>)
    requires LivesKnown(s) && RegistryValid(reg)
    requires Distinct(s.periods) && Distinct(order)
    requires forall g :: g in order <==> g in s.groupMembers
    ensures !UnitSizesConsistent(reg.unitSizes, reg.genTech, s.techGroup) ==> r.Err? && r.error.MixedUnitSizes?
    ensures UnitSizesConsistent(reg.unitSizes, reg.genTech, s.techGroup) ==>
      (r.Ok? <==> AllRulesOk(s, reg, order, false) && AllRulesOk(s, reg, order, true))
    ensures UnitSizesConsistent(reg.unitSizes, reg.genTech, s.techGroup) && r.Err? ==> r.error.NoMatchingProjects?
    ensures r.Ok? ==> Emits(r.value.power, s, reg, order, false) && Emits(r.value.energy, s, reg, order, true)
  {
    var sizes := UnitSizes(reg.unitSizes, reg.genTech, s.techGroup);
    if sizes.Err? {
      return Err(sizes.error);
    }
    var caps := PredeterminedPowerCaps(reg.predetermined, reg.genTech, s.techGroup);
    var power := EmitFamily(s, reg, caps, order, false);
    if power.Err? {
      RuleErrors(s, reg, order, false);
      return Err(power.error);
    }
    var energy := EmitFamily(s, reg, map[], order, true);
    if energy.Err? {
      RuleErrors(s, reg, order, true);
      return Err(energy.error);
    }
    r := Ok(Constraints(power.value, energy.value));
  }

  /** A rule fails only for a target without matching projects. */
  lemma RuleErrors(s: Schedule, reg: Registry, order: seq<string>, energy: bool)
    requires LivesKnown(s)
    ensures forall i, j :: 0 <= i < |s.periods| && 0 <= j < |order| && Rule(s, reg, i, order[j], energy).Err? ==>
      Rule(s, reg, i, order[j], energy).error.NoMatchingProjects?
  {
  }

  /** Filtering a list of distinct projects keeps them distinct. */
  lemma {:induction false} BuildTermsDistinct(projects: seq<string>, genTech: map<string, string>, techGroup: map<string, string>,
                                              vars: set<(string, int)>, group: string, per: int)
    requires Distinct(projects)
    ensures Distinct(BuildTerms(projects, genTech, techGroup, vars, group, per))
  {
    if projects != [] {
      var rest := projects[1..];
      assert Distinct(rest) by {
        forall a, b | 0 <= a < b < |rest| ensures rest[a] != rest[b] {
          assert rest[a] == projects[a + 1] && rest[b] == projects[b + 1];
        }
      }
      BuildTermsDistinct(rest, genTech, techGroup, vars, group, per);
      BuildTermsMembers(rest, genTech, techGroup, vars, group, per);
      var t := BuildTerms(rest, genTech, techGroup, vars, group, per);
      assert projects[0] !in rest by {
        forall k | 0 <= k < |rest| ensures rest[k] != projects[0] {
          assert rest[k] == projects[k + 1];
        }
      }
      var h := [projects[0]];
      if BuildTerms(projects, genTech, techGroup, vars, group, per) == h + t {
        forall a, b | 0 <= a < b < |h + t| ensures (h + t)[a] != (h + t)[b] {
          if a == 0 {
            assert (h + t)[b] == t[b - 1] && t[b - 1] in t;
          } else {
            assert (h + t)[a] == t[a - 1] && (h + t)[b] == t[b - 1];
          }
        }
      }
    }
  }

  /** An emitted constraint names each project's build variable once. */
  lemma RuleBuildDistinct(s: Schedule, reg: Registry, i: int, g: string, energy: bool)
    requires LivesKnown(s) && RegistryValid(reg) && 0 <= i < |s.periods|
    ensures Rule(s, reg, i, g, energy).Ok? && !Rule(s, reg, i, g, energy).value.Skip? ==>
      Distinct(Rule(s, reg, i, g, energy).value.build)
  {
    var per := s.periods[i];
    var vars := if energy then reg.buildStorageEnergy else reg.buildGen;
    BuildTermsDistinct(reg.projects, reg.genTech, s.techGroup, vars, g, per);
  }
}
