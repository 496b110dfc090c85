/** How each (period, tech group) target is enforced: the unit-size check,
    the predetermined capacity added to the targets, the projects whose build
    variables are summed, and the rule choosing ==, >= or no constraint. */
module Enforcement {
  import opened Common
  import opened TechNames

  /** The project's technology is one of the grouped technologies. */
  predicate Forecasted(p: string, genTech: map<string, string>, techGroup: map<string, string>)
  {
    p in genTech && genTech[p] in techGroup
  }

  function GroupOfProject(p: string, genTech: map<string, string>, techGroup: map<string, string>): string
    requires Forecasted(p, genTech, techGroup)
  {
    techGroup[genTech[p]]
  }

  // ----- unit sizes -----

  /** Projects `i` and `j` of `units` share a group but not a unit size. */
  predicate Conflicting(units: seq<(string, real)>, genTech: map<string, string>, techGroup: map<string, string>, i: int, j: int)
  {
    && 0 <= i < |units| && 0 <= j < |units|
    && Forecasted(units[i].0, genTech, techGroup) && Forecasted(units[j].0, genTech, techGroup)
    && GroupOfProject(units[i].0, genTech, techGroup) == GroupOfProject(units[j].0, genTech, techGroup)
    && units[i].1 != units[j].1
  }

  ghost predicate UnitSizesConsistent(units: seq<(string, real)>, genTech: map<string, string>, techGroup: map<string, string>)
  {
    forall i, j :: !Conflicting(units, genTech, techGroup, i, j)
  }

  /** Some project of `units` belongs to group `g`. */
  ghost predicate HasProjectIn(units: seq<(string, real)>, genTech: map<string, string>, techGroup: map<string, string>, g: string)
  {
    exists i :: 0 <= i < |units| && Forecasted(units[i].0, genTech, techGroup) && GroupOfProject(units[i].0, genTech, techGroup) == g
  }

  /** `tech_group_unit_size_dict`, built project by project from
      `gen_unit_size`; two sizes for one group are a fatal error. */
  method UnitSizes(units: seq<(string, real)>, genTech: map<string, string>, techGroup: map<string, string>)
    returns (r: Result<map<string, real>>)
    requires forall i :: 0 <= i < |units| ==> units[i].0 in genTech
    ensures r.Ok? <==> UnitSizesConsistent(units, genTech, techGroup)
    ensures r.Ok? ==> forall i :: 0 <= i < |units| && Forecasted(units[i].0, genTech, techGroup) ==>
      GroupOfProject(units[i].0, genTech, techGroup) in r.value &&
      r.value[GroupOfProject(units[i].0, genTech, techGroup)] == units[i].1
    ensures r.Ok? ==> forall g :: g in r.value ==> HasProjectIn(units, genTech, techGroup, g)
    ensures r.Err? ==>
      exists i, j :: Conflicting(units, genTech, techGroup, i, j) && r.error == MixedUnitSizes(GroupOfProject(units[i].0, genTech, techGroup))
  {
    var sizes: map<string, real> := map[];
    ghost var first: map<string, int> := map[];
    var k := 0;
    while k < |units|
      invariant 0 <= k <= |units|
      invariant sizes.Keys == first.Keys
      invariant forall g :: g in sizes ==>
        0 <= first[g] < k && Forecasted(units[first[g]].0, genTech, techGroup) &&
        GroupOfProject(units[first[g]].0, genTech, techGroup) == g && units[first[g]].1 == sizes[g]
      invariant forall i :: 0 <= i < k && Forecasted(units[i].0, genTech, techGroup) ==>
        GroupOfProject(units[i].0, genTech, techGroup) in sizes &&
        sizes[GroupOfProject(units[i].0, genTech, techGroup)] == units[i].1
    {
      var (p, unitSize) := units[k];
      var tech := genTech[p];
      if tech in techGroup {
        var group := techGroup[tech];
        if group in sizes {
          if sizes[group] != unitSize {
            assert Conflicting(units, genTech, techGroup, first[group], k);
            return Err(MixedUnitSizes(group));
          }
        } else {
          sizes := sizes[group := unitSize];
          first := first[group := k];
        }
      }
      k := k + 1;
    }
    forall i, j | 0 <= i < |units| && 0 <= j < |units|
      ensures !Conflicting(units, genTech, techGroup, i, j)
    {
    }
    forall g | g in sizes
      ensures HasProjectIn(units, genTech, techGroup, g)
    {
      assert Forecasted(units[first[g]].0, genTech, techGroup);
    }
    r := Ok(sizes);
  }

  // ----- predetermined capacity -----

  /** An entry `((project, period), cap)` of `gen_predetermined_cap`
      counts toward `key = (group, period)`. */
  predicate MatchesKey(entry: ((string, int), real), genTech: map<string, string>, techGroup: map<string, string>, key: (string, int))
  {
    Forecasted(entry.0.0, genTech, techGroup) &&
    GroupOfProject(entry.0.0, genTech, techGroup) == key.0 && entry.0.1 == key.1
  }

  /** The predetermined capacity of `key`: the sum of the capacities of the
      projects whose technology maps to the group, in that period. */
  function PredeterminedCap(entries: seq<((string, int), real)>, genTech: map<string, string>, techGroup: map<string, string>, key: (string, int)): real
  {
    if entries == [] then 0.0
    else
      var e := entries[|entries| - 1];
      PredeterminedCap(entries[..|entries| - 1], genTech, techGroup, key) + (if MatchesKey(e, genTech, techGroup, key) then e.1 else 0.0)
  }

  /** `tech_group_predetermined_power_cap_dict`, accumulated entry by entry
      into a dictionary whose missing keys read as 0. */
  method PredeterminedPowerCaps(entries: seq<((string, int), real)>, genTech: map<string, string>, techGroup: map<string, string>)
    returns (caps: map<(string, int), real>)
    requires forall i :: 0 <= i < |entries| ==> entries[i].0.0 in genTech
    ensures forall key :: GetOr(caps, key, 0.0) == PredeterminedCap(entries, genTech, techGroup, key)
  {
    caps := map[];
    var i := 0;
    while i < |entries|
      invariant 0 <= i <= |entries|
      invariant forall key :: GetOr(caps, key, 0.0) == PredeterminedCap(entries[..i], genTech, techGroup, key)
    {
      var ((p, per), cap) := entries[i];
      var tech := genTech[p];
      assert entries[..i + 1][..i] == entries[..i];
      if tech in techGroup {
        var key := (techGroup[tech], per);
        caps := caps[key := GetOr(caps, key, 0.0) + cap];
      }
      i := i + 1;
    }
    assert entries[..i] == entries;
  }

  /** The reference definition: the predetermined capacity is the sum over
      exactly the matching entries, concatenations add up, and projects of
      other groups or other periods never change it. */
  lemma {:induction false} PredeterminedCapAppend(a: seq<((string, int), real)>, b: seq<((string, int), real)>,
                                                  genTech: map<string, string>, techGroup: map<string, string>, key: (string, int))
    ensures PredeterminedCap(a + b, genTech, techGroup, key) ==
      PredeterminedCap(a, genTech, techGroup, key) + PredeterminedCap(b, genTech, techGroup, key)
    decreases |b|
  {
    if b == [] {
      assert a + b == a;
    } else {
      var init := b[..|b| - 1];
      assert (a + b)[..|a + b| - 1] == a + init;
      PredeterminedCapAppend(a, init, genTech, techGroup, key);
    }
  }

  lemma {:induction false} PredeterminedCapOfOthers(entries: seq<((string, int), real)>, genTech: map<string, string>, techGroup: map<string, string>, key: (string, int))
    requires forall i :: 0 <= i < |entries| ==> !MatchesKey(entries[i], genTech, techGroup, key)
    ensures PredeterminedCap(entries, genTech, techGroup, key) == 0.0
  {
    if entries != [] {
      PredeterminedCapOfOthers(entries[..|entries| - 1], genTech, techGroup, key);
    }
  }

  // ----- build terms and classification -----

  /** The projects whose build variables make up `build` for `(group, per)`:
      forecasted projects of the group that have a variable in that period. */
  function BuildTerms(projects: seq<string>, genTech: map<string, string>, techGroup: map<string, string>,
                      vars: set<(string, int)>, group: string, per: int): seq<string>
  {
    if projects == [] then []
    else
      var p := projects[0];
      (if Forecasted(p, genTech, techGroup) && GroupOfProject(p, genTech, techGroup) == group && (p, per) in vars
       then [p] else [])
      + BuildTerms(projects[1..], genTech, techGroup, vars, group, per)
  }

  lemma {:induction false} BuildTermsMembers(projects: seq<string>, genTech: map<string, string>, techGroup: map<string, string>,
                                             vars: set<(string, int)>, group: string, per: int)
    ensures forall p :: p in BuildTerms(projects, genTech, techGroup, vars, group, per) <==>
      p in projects && Forecasted(p, genTech, techGroup) && GroupOfProject(p, genTech, techGroup) == group && (p, per) in vars
  {
    if projects != [] {
      BuildTermsMembers(projects[1..], genTech, techGroup, vars, group, per);
      assert projects == [projects[0]] + projects[1..];
    }
  }

  datatype Policy = Policy(psip: bool, relaxAfter: Option<real>, minimalRenewables: bool)

  /** An emitted constraint: the sum of the build variables of `build`
      equals, or is at least, `target`; or no constraint at all. */
  datatype Constraint = Skip | Eq(build: seq<string>, target: real) | Ge(build: seq<string>, target: real)

  /** The PSIP plan governs period `per`. */
  predicate PsipInEffect(policy: Policy, per: int)
  {
    policy.psip && (policy.relaxAfter.None? || per as real <= policy.relaxAfter.value)
  }

  /** `tech_group_target_rule`. */
  function Classify(policy: Policy, lastDefinite: map<string, int>, per: int, group: string,
                    build: seq<string>, target: real): (r: Result<Constraint>)
    ensures r.Err? ==> build == [] && r.error == NoMatchingProjects(group, per)
    ensures r.Ok? && !r.value.Skip? ==> r.value.build == build && r.value.target == target
  {
    if build == [] then
      if target == 0.0 then Ok(Skip) else Err(NoMatchingProjects(group, per))
    else if PsipInEffect(policy, per) then Ok(Eq(build, target))
    else if per <= GetOr(lastDefinite, group, 0) then Ok(Eq(build, target))
    else if policy.minimalRenewables && IsRenewable(group) then Ok(Eq(build, target))
    else Ok(Ge(build, target))
  }

  /** The five outcomes, each stated as exactly when it happens, and what an
      emitted constraint holds. */
  lemma ClassifyOutcomes(policy: Policy, lastDefinite: map<string, int>, per: int, group: string,
                         build: seq<string>, target: real)
    ensures var r := Classify(policy, lastDefinite, per, group, build, target);
      && (r == Ok(Skip) <==> build == [] && target == 0.0)
      && (r.Err? <==> build == [] && target != 0.0)
      && (r.Err? ==> r.error == NoMatchingProjects(group, per))
      && (r.Ok? && r.value.Eq? <==>
            (build != [] &&
             (PsipInEffect(policy, per) || per <= GetOr(lastDefinite, group, 0) ||
              (policy.minimalRenewables && IsRenewable(group)))))
      && (r.Ok? && r.value.Ge? <==>
            (build != [] &&
             !PsipInEffect(policy, per) && per > GetOr(lastDefinite, group, 0) &&
             !(policy.minimalRenewables && IsRenewable(group))))
      && (r.Ok? && !r.value.Skip? ==> r.value.build == build && r.value.target == target)
  {
  }

  /** A definite target locks its group through its last year whatever the
      PSIP settings: relaxing the plan never frees those periods. */
  lemma DefiniteLockIn(policy: Policy, lastDefinite: map<string, int>, per: int, group: string,
                       build: seq<string>, target: real)
    requires build != [] && group in lastDefinite && per <= lastDefinite[group]
    ensures Classify(policy, lastDefinite, per, group, build, target) == Ok(Eq(build, target))
    ensures Classify(policy.(psip := false), lastDefinite, per, group, build, target) == Ok(Eq(build, target))
  {
  }

  /** Relaxing the plan can only weaken a constraint: whatever is `>=` with
      the plan enforced is `>=` when it is relaxed. */
  lemma RelaxingWeakens(policy: Policy, lastDefinite: map<string, int>, per: int, group: string,
                        build: seq<string>, target: real)
    requires Classify(policy, lastDefinite, per, group, build, target).Ok?
    requires Classify(policy, lastDefinite, per, group, build, target).value.Ge?
    ensures Classify(policy.(psip := false), lastDefinite, per, group, build, target) ==
      Classify(policy, lastDefinite, per, group, build, target)
  {
  }

  /** A group with definite targets through 2030 under a plan relaxed after
      2025: 2025 and 2030 stay `==`, 2035 becomes `>=` (for a non-renewable
      group, or without the minimal-renewables option). */
  lemma PrecedenceExample(build: seq<string>, target: real, minimal: bool)
    requires build != []
    ensures var policy := Policy(true, Some(2025.0), minimal);
      var last := map["Battery_Bulk" := 2030];
      && Classify(policy, last, 2025, "Battery_Bulk", build, target) == Ok(Eq(build, target))
      && Classify(policy, last, 2030, "Battery_Bulk", build, target) == Ok(Eq(build, target))
      && Classify(policy, last, 2035, "Battery_Bulk", build, target) == Ok(Ge(build, target))
  {
    NonRenewableBatteryBulk();
  }

  lemma NonRenewableBatteryBulk()
    ensures !IsRenewable("Battery_Bulk")
  {
    NonRenewableExamples();
  }
}
