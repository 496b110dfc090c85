# Tech-group target scheduler of the HECO 2019 outlook

This project models the part of `define_components` in
`switch_model/hawaii/heco_outlook_2019.py` that decides how much of each
technology group must be built in each study period. It proves properties of
that model in Dafny. The scheduler works in these steps:

1. It decides whether the utility's 2016 preferred plan (the PSIP) is
   enforced. The `USE_PSIP_PLAN` environment value overrides the
   `--psip-force` option (`PolicyFlags`).
2. It builds the list of targets (`TargetLists`):
   - the definite targets;
   - the optional `--force-build` event, appended in place;
   - the PSIP events, added only when the plan is enforced and cut off after
     `--psip-relax-after`.
3. It groups technologies into tech groups and builds the reverse map
   (`Grouping`).
4. It rebuilds each seed every time it retires, up to the start of the
   last period (`Rebuild`). The seeds are the existing-fleet records of
   renewable or battery groups, followed by every active target whatever
   its technology. Only the existing fleet is filtered, so the PSIP thermal
   targets (IC_Barge, IC_MCBH) are rebuilt too.
5. It turns the targets into power and energy amounts, sums them over each
   period's window, and finds the last definite year of each group
   (`Aggregation`).
6. It emits the constraints (`Enforcement`, `Scheduler`):
   - it checks that unit sizes are consistent;
   - it adds the predetermined capacity;
   - it chooses, for every (period, group), one of: no constraint, an error,
     `build == target`, or `build >= target`.

Imperative code stays imperative. Python lists shared by reference are
objects of the class `TargetLists.EventList`. When the plan is not enforced,
`TargetLists.SelectTargets` returns the very object it was given, as line
374 of the source does. The rebuild loop, the `last_definite_target` loop
and the dictionary loops of `MakeTechGroupDicts_rule` are Dafny `while`
loops. Each one is proved against a function that specifies it.
`Scheduler.DefineTargets` and `Scheduler.EnforceTargets` run these steps in
the source's order.

Two consequences of the code are easy to misread. The model follows the
code in both:

- **Window width.** `tech_group_target` sums the years in `(previous
  period, period]`. A build therefore counts toward at most one period's
  target (`Aggregation.WindowsDisjoint`, `Aggregation.WindowExample`). It
  counts toward none when its year is after the last period or at most 0,
  or when it retires inside its window (`Aggregation.RetiredExample`). It
  does not count again in later periods while it is still alive.
- **Last definite year.** The comment before `last_definite_target` (lines
  529-531) says rebuild targets are ignored. Without the PSIP plan,
  however, the definite list and the active list are one object, so the
  rebuild appends land in the definite list. `last_definite_target` then
  includes rebuild years (`Scheduler.DefineTargets`,
  `Scheduler.LastDefiniteWithRebuilds`). For example, a 2020 DistPV build
  with a 25-year life freezes construction at 2045
  (`Scheduler.DistPVRebuildLocksHorizon`). `Scheduler.DefineTargets`
  reproduces what the code does. The intended reading is under
  "## Findings".

## Model

| member | source | states |
|---|---|---|
| `PolicyFlags.ResolvePsip` | switch_model/hawaii/heco_outlook_2019.py:47-56 | The PSIP flag: the option when the variable is unset, otherwise the variable read case-insensitively. It fails only on a set variable, with an error naming its value. |
| `PolicyFlags.ResolvePsipOutcomes` | switch_model/hawaii/heco_outlook_2019.py:47-56 | The flag is the option when the variable is unset. It is true exactly for 1/true/y/yes/on and false exactly for 0/false/n/no/off, ignoring case. Any other value is an error naming it. |
| `PolicyFlags.WordListsDisjoint` | switch_model/hawaii/heco_outlook_2019.py:51-54 | No word is both a true word and a false word, so the order of the two tests does not matter. |
| `PolicyFlags.ResolvePsipIgnoresCase` | switch_model/hawaii/heco_outlook_2019.py:51-54 | Two values differing only in ASCII case resolve to the same outcome. |
| `PolicyFlags.ResolvePsipOfLowered` | switch_model/hawaii/heco_outlook_2019.py:51-54 | A value resolves the same as its lower-cased form. |
| `TechNames.ContainsIffOccurs` | switch_model/hawaii/heco_outlook_2019.py:34 | The left-to-right substring scan succeeds exactly when the text occurs at some index. |
| `TechNames.OccursImpliesContains` | switch_model/hawaii/heco_outlook_2019.py:34 | An occurrence at any index is found by the scan. |
| `TechNames.ContainsImpliesOccurs` | switch_model/hawaii/heco_outlook_2019.py:34 | A successful scan returns a real occurrence index. |
| `TechNames.Contains` | switch_model/hawaii/heco_outlook_2019.py:34 | Python's `in` on strings, as a left-to-right scan; `TechNames.ContainsIffOccurs` proves it is substring occurrence. |
| `TechNames.IsRenewableIff` | switch_model/hawaii/heco_outlook_2019.py:33-34 | A name is renewable exactly when "PV", "Wind" or "Solar" occurs in it, case-sensitively. |
| `TechNames.RenewableExamples` | switch_model/hawaii/heco_outlook_2019.py:33-34 | CentralTrackingPV, OffshoreWind and DistPV are renewable. |
| `TechNames.NonRenewableExamples` | switch_model/hawaii/heco_outlook_2019.py:33-34 | IC_Barge and Battery_Bulk are not renewable. |
| `TechNames.NoRenewableWord` | switch_model/hawaii/heco_outlook_2019.py:33-34 | A name with no P, W or S is not renewable. |
| `TechNames.IsRenewable` | switch_model/hawaii/heco_outlook_2019.py:33-34 | `is_renewable`: "PV", "Wind" or "Solar" occurs in the name, case-sensitively. |
| `TechNames.Lower` | switch_model/hawaii/heco_outlook_2019.py:36 | Lower-casing keeps the length. |
| `TechNames.LowerAt` | switch_model/hawaii/heco_outlook_2019.py:36 | Lower-casing maps each character in place. |
| `TechNames.LowerIdempotent` | switch_model/hawaii/heco_outlook_2019.py:36 | Lower-casing twice equals lower-casing once. |
| `TechNames.IsBatteryIgnoresCase` | switch_model/hawaii/heco_outlook_2019.py:35-36 | A name and its lower-cased form are batteries alike. |
| `TechNames.CapitalisedBatteryIsBattery` | switch_model/hawaii/heco_outlook_2019.py:35-36 | A name containing "Battery" (for example Battery_Bulk or DistBattery) is a battery. |
| `TechNames.NoBIsNotBattery` | switch_model/hawaii/heco_outlook_2019.py:35-36 | A name with no b or B is not a battery. |
| `TechNames.IsBattery` | switch_model/hawaii/heco_outlook_2019.py:35-36 | `is_battery`: "battery" occurs in the lower-cased name. |
| `TargetLists.EventList.constructor` | switch_model/hawaii/heco_outlook_2019.py:373 | A new list holds the given events. |
| `TargetLists.EventList.Append` | switch_model/hawaii/heco_outlook_2019.py:324 | Appending adds one event at the end and changes nothing else. |
| `TargetLists.AddForceBuild` | switch_model/hawaii/heco_outlook_2019.py:315-324 | The definite list object grows by the force-build event when one is given, and is unchanged otherwise. |
| `TargetLists.SelectTargets` | switch_model/hawaii/heco_outlook_2019.py:365-374 | Without the plan, the active list IS the definite list object. With the plan, it is a new object. Its content is the active-target sequence. |
| `TargetLists.PsipInForce` | switch_model/hawaii/heco_outlook_2019.py:365-371 | The PSIP events in force: all of them without a relax year, otherwise those cut at it. |
| `TargetLists.ActiveTargets` | switch_model/hawaii/heco_outlook_2019.py:365-374 | The active targets as a sequence: the definite list, followed by the PSIP events in force when the plan is enforced. |
| `TargetLists.ActiveTargetsShape` | switch_model/hawaii/heco_outlook_2019.py:365-374 | Without the plan, the active targets are exactly the definite list. With it, they are the definite list followed by an order-preserving subsequence of the PSIP table. That subsequence holds exactly the PSIP events up to the relax year (all of them when none is given), each as often as in the table, so it is the table with the later events removed. |
| `TargetLists.KeptUpTo` | switch_model/hawaii/heco_outlook_2019.py:369 | The cut at `psip_relax_after`, in order; it never lengthens the table. |
| `TargetLists.KeptUpToMembers` | switch_model/hawaii/heco_outlook_2019.py:369 | The cut keeps exactly the events whose year is at most the limit. |
| `TargetLists.KeptUpToCounts` | switch_model/hawaii/heco_outlook_2019.py:369 | Counted with multiplicity, the cut keeps every occurrence of an event up to the limit and none of the others. |
| `TargetLists.KeptUpToIsSubsequence` | switch_model/hawaii/heco_outlook_2019.py:369 | The cut keeps the events in their order. |
| `TargetLists.KeptUpToAppend` | switch_model/hawaii/heco_outlook_2019.py:369 | Cutting a concatenation cuts each part. |
| `Grouping.PresetOwnersInvert` | switch_model/hawaii/heco_outlook_2019.py:378-393 | The reverse map of the two preset groups sends each listed member to its group, and nothing else. |
| `Grouping.GroupMembers` | switch_model/hawaii/heco_outlook_2019.py:378-387 | `techs_for_tech_group`: the presets, updated with a singleton list for every target group without one; `Grouping.GroupMembersShape` states its shape. |
| `Grouping.TechGroupOf` | switch_model/hawaii/heco_outlook_2019.py:389-393 | `tech_tech_group`: the reverse of the presets, then every missing group mapped to itself, the later entry winning; `Grouping.TechGroupOfSound` and `Grouping.TechGroupOfPresetMembers` state its content. |
| `Grouping.GroupMembersShape` | switch_model/hawaii/heco_outlook_2019.py:378-387 | The groups are the presets plus every group named by a target. Presets keep their lists. Every other group is the singleton of itself. |
| `Grouping.TechGroupOfSound` | switch_model/hawaii/heco_outlook_2019.py:389-393 | Each technology maps to a group whose list holds it. |
| `Grouping.TechGroupOfCovers` | switch_model/hawaii/heco_outlook_2019.py:389-393 | Every technology listed under a group has a reverse entry. |
| `Grouping.TechGroupOfPresetMembers` | switch_model/hawaii/heco_outlook_2019.py:378-393 | A preset member maps to its preset group unless it is itself named as a target group. A missing group maps to itself. |
| `Grouping.CentralFixedPVIsLargePV` | switch_model/hawaii/heco_outlook_2019.py:380-382 | CentralFixedPV maps to LargePV when no target names it as a group. |
| `Grouping.CentralFixedPVNamedAsGroup` | switch_model/hawaii/heco_outlook_2019.py:384-393 | When a target names CentralFixedPV as a group, the later singleton entry wins in the reverse map. |
| `Rebuild.AppendSuccessors` | switch_model/hawaii/heco_outlook_2019.py:444-447 | The inner loop appends exactly the seed's rebuild events to the list. |
| `Rebuild.RebuildTargets` | switch_model/hawaii/heco_outlook_2019.py:429-447 | The seeds are the rebuildable existing records followed by a snapshot of the targets. The loop succeeds exactly when every seed group has a life. It then appends exactly the expansion of the seeds and returns `tech_life` with exactly the seed groups and their lives. Otherwise it raises at the first unknown group, after the appends of the seeds before it. |
| `Rebuild.RebuildSeeds` | switch_model/hawaii/heco_outlook_2019.py:434-447 | The same loop over the fixed seed list, with `tech_life` as the life map of the seeds. |
| `Rebuild.LifeMapShape` | switch_model/hawaii/heco_outlook_2019.py:442-443 | `tech_life` has exactly the seed groups as keys, each with its life. |
| `Rebuild.LifeMap` | switch_model/hawaii/heco_outlook_2019.py:442-443 | `tech_life` after the loop: every key is a known group holding its life. |
| `Rebuild.SuccessorsFrom` | switch_model/hawaii/heco_outlook_2019.py:444-447 | The copies of one seed from a given year on, one life apart, while not after the last period; `Rebuild.SuccessorsFromExact` states them. |
| `Rebuild.Successors` | switch_model/hawaii/heco_outlook_2019.py:444-447 | The rebuild events of one seed, starting one life after its year; `Rebuild.SuccessorsExact` states them. |
| `Rebuild.Expansion` | switch_model/hawaii/heco_outlook_2019.py:435-447 | Everything the rebuild loop appends: the rebuild events of the seeds, seed by seed, in order. |
| `Rebuild.SuccessorsFromExact` | switch_model/hawaii/heco_outlook_2019.py:445-447 | The copies from a start year are at start + i*life, none is after the horizon, and the next would be. |
| `Rebuild.SuccessorsExact` | switch_model/hawaii/heco_outlook_2019.py:444-447 | A seed (y, g, q) gets exactly the events (y + k*life, g, q) for k = 1, 2, ... with y + k*life at most the last period. Nothing beyond it is appended. |
| `Rebuild.SuccessorsAt` | switch_model/hawaii/heco_outlook_2019.py:444-447 | The k-th rebuild event is at y + k*life and is not after the horizon. |
| `Rebuild.SuccessorsBeyond` | switch_model/hawaii/heco_outlook_2019.py:445 | Every later multiple is beyond the horizon. |
| `Rebuild.SuccessorCount` | switch_model/hawaii/heco_outlook_2019.py:444-447 | A seed gets (last - y) / life rebuilds when y is at most the last period, and none otherwise. The loop terminates. |
| `Rebuild.ExpansionBounded` | switch_model/hawaii/heco_outlook_2019.py:444-447 | Every appended event copies the group and quantity of an earlier seed and is not after the horizon. |
| `Rebuild.ExpansionAppend` | switch_model/hawaii/heco_outlook_2019.py:435-447 | Expanding a concatenation expands each part. |
| `Rebuild.ExpansionOfLateSeeds` | switch_model/hawaii/heco_outlook_2019.py:445 | Seeds that retire after the horizon add nothing. |
| `Rebuild.RebuildableExisting` | switch_model/hawaii/heco_outlook_2019.py:429-433 | The existing records rebuilt, in order; never more than the fleet. |
| `Rebuild.RebuildableExistingMembers` | switch_model/hawaii/heco_outlook_2019.py:429-433 | A record is rebuilt exactly when it is renewable or a battery (membership; the counts and the order are in `Rebuild.RebuildableExistingShape`). |
| `Rebuild.RebuildableExistingShape` | switch_model/hawaii/heco_outlook_2019.py:429-433 | Counted with multiplicity, the rebuilt records are every occurrence of a renewable or battery record and none of the others, and they are a subsequence of the fleet in its order. |
| `Rebuild.CheckNoBatteries` | switch_model/hawaii/heco_outlook_2019.py:422 | The pre-existing battery guard: it passes the fleet through unchanged or fails with a pre-existing battery error. |
| `Rebuild.CheckNoBatteriesIff` | switch_model/hawaii/heco_outlook_2019.py:422 | The guard passes exactly when no existing record is a battery. Otherwise it reports the first battery group. |
| `Aggregation.PowerTargets` | switch_model/hawaii/heco_outlook_2019.py:450-452 | `tech_group_power_targets`: one amount per target. |
| `Aggregation.PowerTargetsAt` | switch_model/hawaii/heco_outlook_2019.py:450-452 | The power list has one entry per target, in order, with the scalar or the first element of the pair. |
| `Aggregation.PowerTargetsAppend` | switch_model/hawaii/heco_outlook_2019.py:450-452 | Projecting a concatenation projects each part. |
| `Aggregation.EnergyTargets` | switch_model/hawaii/heco_outlook_2019.py:453-455 | `tech_group_energy_targets`: never more amounts than targets. |
| `Aggregation.EnergyTargetsMembers` | switch_model/hawaii/heco_outlook_2019.py:453-455 | The energy list holds exactly power * hours of the pair targets. |
| `Aggregation.PairEvents` | switch_model/hawaii/heco_outlook_2019.py:453-455 | The storage targets, those given as a (megawatts, hours) pair, in order. |
| `Aggregation.EnergyTargetsOfPairs` | switch_model/hawaii/heco_outlook_2019.py:453-455 | The energy list has one entry per storage target, in order, each the megawatts times hours of that target. |
| `Aggregation.PairEventsCounts` | switch_model/hawaii/heco_outlook_2019.py:453-455 | Counted with multiplicity, the storage targets are every occurrence of a pair target and none of the others. |
| `Aggregation.PairEventsInOrder` | switch_model/hawaii/heco_outlook_2019.py:453-455 | The storage targets keep the order of the target list. |
| `Aggregation.EnergyTargetsAppend` | switch_model/hawaii/heco_outlook_2019.py:453-455 | Projecting a concatenation projects each part. |
| `Aggregation.WindowSum` | switch_model/hawaii/heco_outlook_2019.py:474-479 | The sum of the amounts of one group built in a window and not retired at its end; `Aggregation.WindowSumIsSumOfCounted` states it. |
| `Aggregation.TechGroupTarget` | switch_model/hawaii/heco_outlook_2019.py:468-480 | `tech_group_target`: the window sum for `(previous period, period]`, the window starting at 0 for the first period. |
| `Aggregation.WindowSumIsSumOfCounted` | switch_model/hawaii/heco_outlook_2019.py:468-480 | A period's target is the sum over exactly the amounts of the group with start < year <= period and year + life > period, each occurrence of a repeated amount counted once, as the source's generator sum adds each list entry. |
| `Aggregation.CountedCounts` | switch_model/hawaii/heco_outlook_2019.py:474-479 | Counted with multiplicity, the amounts summed are every occurrence of an amount of the group in the window and alive at its end, and none of the others. |
| `Aggregation.WindowSumAppend` | switch_model/hawaii/heco_outlook_2019.py:474-479 | The sum distributes over concatenation. |
| `Aggregation.WindowSumNonNegative` | switch_model/hawaii/heco_outlook_2019.py:474-479 | Targets are non-negative when the quantities are. |
| `Aggregation.WindowsDisjoint` | switch_model/hawaii/heco_outlook_2019.py:472-473 | With increasing periods, a year falls in at most one window. |
| `Aggregation.WindowStartAfter` | switch_model/hawaii/heco_outlook_2019.py:472 | A later window opens no earlier than an earlier period. |
| `Aggregation.WindowsCover` | switch_model/hawaii/heco_outlook_2019.py:472-473 | Every year from 1 to the last period falls in some window. |
| `Aggregation.WindowExample` | switch_model/hawaii/heco_outlook_2019.py:468-480 | A 2022 build counts toward the 2025 target only, not toward 2020 or 2030. |
| `Aggregation.RetiredExample` | switch_model/hawaii/heco_outlook_2019.py:478 | A build retired by the end of its window does not count. |
| `Aggregation.MaxYear` | switch_model/hawaii/heco_outlook_2019.py:532-534 | The last definite year of a group as a function: never negative; `Aggregation.MaxYearIsMaximum` proves it is the maximum. |
| `Aggregation.MaxYearIsMaximum` | switch_model/hawaii/heco_outlook_2019.py:532-534 | The last definite year is at least 0 and every year of the group, and is 0 or one of them. |
| `Aggregation.LastDefiniteTargets` | switch_model/hawaii/heco_outlook_2019.py:532-534 | The loop's dictionary has exactly the groups of the list, and reads (default 0) as their maximum year. |
| `Enforcement.UnitSizes` | switch_model/hawaii/heco_outlook_2019.py:492-501 | Succeeds exactly when no two forecasted projects of one group have different unit sizes. It then maps exactly the groups of forecasted projects, each to its projects' common size. Otherwise it reports a conflicting group. |
| `Enforcement.PredeterminedPowerCaps` | switch_model/hawaii/heco_outlook_2019.py:503-508 | The dictionary reads (default 0) as the predetermined capacity of each (group, period). |
| `Enforcement.PredeterminedCap` | switch_model/hawaii/heco_outlook_2019.py:503-508 | The predetermined capacity of a (group, period): the sum over the matching table entries. |
| `Enforcement.PredeterminedCapAppend` | switch_model/hawaii/heco_outlook_2019.py:503-508 | The predetermined capacity is a sum that distributes over concatenation of the table. |
| `Enforcement.PredeterminedCapOfOthers` | switch_model/hawaii/heco_outlook_2019.py:505-508 | Projects of other groups or other periods add nothing. |
| `Enforcement.BuildTerms` | switch_model/hawaii/heco_outlook_2019.py:546-552 | The projects whose build variables `build` sums, as a list in project order. |
| `Enforcement.BuildTermsMembers` | switch_model/hawaii/heco_outlook_2019.py:546-552 | The build sum covers exactly the forecasted projects of the group that have a build variable in the period. |
| `Scheduler.BuildTermsDistinct` | switch_model/hawaii/heco_outlook_2019.py:546-552 | Over a set of projects, the build list names each project at most once. |
| `Enforcement.PsipInEffect` | switch_model/hawaii/heco_outlook_2019.py:562-564 | The plan governs a period when it is enforced and the period is not after the relax year. |
| `Enforcement.Classify` | switch_model/hawaii/heco_outlook_2019.py:536-576 | `tech_group_target_rule`: an error only for an empty build list, naming the group and period; an emitted constraint carries the build list and the target. `Enforcement.ClassifyOutcomes` states each outcome exactly. |
| `Enforcement.ClassifyOutcomes` | switch_model/hawaii/heco_outlook_2019.py:554-576 | No terms gives Skip exactly when the target is 0 and an error otherwise. With terms: `==` exactly when the plan is in effect, or the period is at most the last definite year, or minimal renewables applies to a renewable group. `>=` in every other case. Emitted constraints carry the terms and the target. |
| `Enforcement.DefiniteLockIn` | switch_model/hawaii/heco_outlook_2019.py:565-566 | A period at most the last definite year is `==`, with or without the plan. |
| `Enforcement.RelaxingWeakens` | switch_model/hawaii/heco_outlook_2019.py:562-576 | A `>=` with the plan stays the same `>=` without it. |
| `Enforcement.PrecedenceExample` | switch_model/hawaii/heco_outlook_2019.py:562-576 | Battery_Bulk, definite through 2030, plan relaxed after 2025: 2025 and 2030 are `==`, 2035 is `>=`. |
| `Scheduler.DefineTargets` | switch_model/hawaii/heco_outlook_2019.py:47-455 | Fails on an unrecognised flag, then on a pre-existing battery, then on the first seed group with no life. The targets are the selected targets plus the expansion of the seeds. The group maps come from the selected targets. The power and energy lists come from the targets. The definite list is the definite targets with the plan, and the whole target list without it. The last definite years are its maxima. Every amount's group has a life. |
| `Scheduler.TargetsHaveLives` | switch_model/hawaii/heco_outlook_2019.py:435-447 | Every target, including every rebuild, has a group with a recorded life. |
| `Scheduler.AmountsHaveLives` | switch_model/hawaii/heco_outlook_2019.py:450-455 | So does every power and energy amount. |
| `Scheduler.LastDefiniteWithRebuilds` | switch_model/hawaii/heco_outlook_2019.py:374 | When the definite and active lists are one object, every target year, rebuilds included, is at most its group's last definite year. The last definite year never falls below that of the definite targets alone. |
| `Scheduler.DistPVRebuildLocksHorizon` | switch_model/hawaii/heco_outlook_2019.py:532-567 | A 2020 DistPV build (life 25, horizon 2045) is rebuilt in 2045. Without the plan, 2045 becomes the last definite year, so 2045 is `==` instead of `>=`. |
| `Scheduler.IntendedLastDefinite` | switch_model/hawaii/heco_outlook_2019.py:529-534 | The last definite years as the comments describe them: exactly the groups of the definite table, each mapped to the maximum of its definite years, so at least every one of them. |
| `Scheduler.IntendedLeavesRebuildsOpen` | switch_model/hawaii/heco_outlook_2019.py:99-101 | With those years, a period after every definite year of its group is `>=` whatever was rebuilt, unless the plan or minimal renewables applies. |
| `Scheduler.EmitPeriod` | switch_model/hawaii/heco_outlook_2019.py:578-593 | One period: succeeds exactly when every group's rule does. It adds exactly the non-Skip constraints and keeps earlier entries. Otherwise it reports the first failing group. |
| `Scheduler.EmitFamily` | switch_model/hawaii/heco_outlook_2019.py:578-593 | One constraint family over PERIODS x groups: succeeds exactly when every rule succeeds, and then holds exactly the non-Skip constraints. Otherwise it reports the first failing index in period-major order. |
| `Scheduler.EmittedAll` | switch_model/hawaii/heco_outlook_2019.py:583-584 | After the last period, every rule holds and the constraints are exactly those emitted. |
| `Scheduler.EnforceTargets` | switch_model/hawaii/heco_outlook_2019.py:490-593 | Mixed unit sizes fail first. Otherwise it succeeds exactly when every power and energy rule does, with the predetermined capacity added to the power targets. Any other failure is a target without matching projects. |
| `Scheduler.Extra` | switch_model/hawaii/heco_outlook_2019.py:505-508 | What is added to a window sum: the predetermined power capacity for power, nothing for energy. |
| `Scheduler.Rule` | switch_model/hawaii/heco_outlook_2019.py:578-590 | One constraint rule: the classification of the build terms of the family against the window sum plus the extra. |
| `Scheduler.RuleErrors` | switch_model/hawaii/heco_outlook_2019.py:554-561 | A rule fails only for a target without matching projects. |
| `Scheduler.RuleBuildDistinct` | switch_model/hawaii/heco_outlook_2019.py:546-552 | With the projects a set, an emitted constraint sums each build variable once. |

Proof steps that model nothing by themselves have no row:
`Grouping.OwnerHolds`, `Rebuild.GroupsStep`, `Rebuild.ExpansionStep`,
`Scheduler.PeriodStep`, `Scheduler.EmittedStep`,
`TargetLists.SubsequenceReflexive`, `TargetLists.SubsequenceExtend`,
`TechNames.ContainsFirstChar`, `TechNames.NotContains` and
`Scheduler.MaxYearBoundsAll`.

## Findings

| source | as written | input that shows it | evidently intended | confidence | as-written member | corrected member |
|---|---|---|---|---|---|---|
| switch_model/hawaii/heco_outlook_2019.py:374 | Without the plan, `tech_group_targets = tech_group_targets_definite` makes the two names one list, so the rebuild appends of lines 444-447 enter the definite list and `last_definite_target` (lines 532-534). | No PSIP plan, a definite 2020 DistPV target, DistPV life 25, last period 2045: the 2045 rebuild makes 2045 the last definite year, and the 2045 DistPV target becomes `==`. | The comments at lines 99-101 and 529-531: rebuild targets are ignored when finding the last definite year, so rebuilds are lower limits (`>=`). | not executed | `Scheduler.DistPVRebuildLocksHorizon` | `Scheduler.IntendedLeavesRebuildsOpen` |

`Scheduler.DefineTargets` keeps the behaviour as written, since it models
the program. `Scheduler.IntendedLastDefinite` is the corrected map: it
reads the definite list before the rebuild loop, as a copy at line 374
would. `Enforcement.Classify` and `Scheduler.EnforceTargets` take the map
as data, so either one can be supplied.

## Left out

- CSV loading with pandas (lines 412-425) is not modelled. Four of its results become inputs:
  - the existing fleet, already summed by build year and group;
  - the life of each group;
  - the periods;
  - the project tables.
- The mixed-ages assertion (line 424) is not modelled. The life map is given with one life per group, and `Rebuild.LivesPositive` requires each life to be positive. With a life of zero or less, the source's rebuild loop does not terminate for a seed whose year plus that life is at most the last period. For any other seed the loop test fails at once; the model does not cover that terminating case.
- Pyomo construction is not modelled: `Set`, `Param`, `BuildAction`, `Constraint` and the build-variable expressions. A build expression is the list of projects whose variables it sums. The variable registries are sets of (project, period) keys. Constraints are the `Enforcement.Constraint` datatype.
- The advanced-technology `getattr`/`setattr` block (lines 600-613) is not modelled. It depends on Pyomo variables outside this model.
- The `TODO` raise at line 521 is not modelled. It fires only for a forecasted storage project with an unbounded energy-to-power ratio, a Pyomo parameter outside this model. The energy predetermined dictionary is never filled, so `Scheduler.Extra` is 0 for the energy family.
- The `TODO` raise at line 596 is not modelled. It depends only on the PSIP flag, so the program as written aborts every run with the plan enforced, before any constraint rule runs. The model goes past it and describes what the rules (lines 536-593) would compute in that case, including the plan branch of `Enforcement.Classify`.
- The LNG guard (lines 65-73) is not modelled. It depends on the fuel set and options outside this model.
- Argument parsing, verbose printing and the `NOTE` helper are not modelled. The parsed `--force-build` event is an input; reading its numbers from text is not modelled.
- The literal PSIP and forecast tables are not transcribed. The lemmas hold for any event sequences, and a few rows serve as examples.
- Floating point is not modelled. Quantities and the relax year are `real`, and years and lives are `int`, both without rounding.
- `TechNames.Lower` lower-cases ASCII letters only. Python's `str.lower` also maps other characters. None of them maps to a letter of "battery" or of the policy words, so the tests agree.
- The error messages are not modelled. Each error is reported by its kind and the name it concerns.
- Enforcement.PredeterminedPowerCaps: states what each (group, period) reads, with the default of 0, but not which keys the dictionary holds. Every reader of the source reads it with that default.
