/** Which technologies contribute to each tech group's target, and the
    reverse map from technology to group. */
module Grouping {
  import opened Common

  /** The groups with explicit member lists. */
  const PresetGroups: map<string, seq<string>> := map[
    "DistPV" := ["DistPV", "SlopedDistPV", "FlatDistPV"],
    "LargePV" := ["CentralTrackingPV", "CentralFixedPV"]
  ]

  /** The reverse of the preset member lists. */
  const PresetOwners: map<string, string> := map[
    "DistPV" := "DistPV", "SlopedDistPV" := "DistPV", "FlatDistPV" := "DistPV",
    "CentralTrackingPV" := "LargePV", "CentralFixedPV" := "LargePV"
  ]

  /** Every group named by some target. */
  function TargetGroups(targets: seq<Event>): set<string>
  {
    set e | e in targets :: e.group
  }

  /** The groups named by targets that have no preset member list. */
  function MissingGroups(targets: seq<Event>): set<string>
  {
    TargetGroups(targets) - PresetGroups.Keys
  }

  /** `techs_for_tech_group`: the presets, updated with a singleton list for
      every missing group. */
  function GroupMembers(targets: seq<Event>): map<string, seq<string>>
  {
    PresetGroups + map g | g in MissingGroups(targets) :: [g]
  }

  /** `tech_tech_group`. The comprehension visits the presets first and the
      added singletons afterwards, so a later entry wins: a missing group
      named like a preset member maps to itself. */
  function TechGroupOf(targets: seq<Event>): map<string, string>
  {
    PresetOwners + map g | g in MissingGroups(targets) :: g
  }

  /** `PresetOwners` is exactly the reverse of `PresetGroups`. */
  lemma PresetOwnersInvert()
    ensures forall g, t :: g in PresetGroups && t in PresetGroups[g] ==> t in PresetOwners && PresetOwners[t] == g
    ensures forall t :: t in PresetOwners ==> PresetOwners[t] in PresetGroups && t in PresetGroups[PresetOwners[t]]
  {
  }

  /** Every group named by a target is a group; the preset groups keep their
      lists and every other group is the singleton of itself. */
  lemma GroupMembersShape(targets: seq<Event>)
    ensures GroupMembers(targets).Keys == PresetGroups.Keys + TargetGroups(targets)
    ensures forall e :: e in targets ==> e.group in GroupMembers(targets)
    ensures forall g :: g in PresetGroups ==> GroupMembers(targets)[g] == PresetGroups[g]
    ensures forall g :: g in GroupMembers(targets) && g !in PresetGroups ==> GroupMembers(targets)[g] == [g]
  {
  }

  /** The reverse map sends each technology to a group whose list holds it. */
  lemma TechGroupOfSound(targets: seq<Event>)
    ensures forall t :: t in TechGroupOf(targets) ==>
      TechGroupOf(targets)[t] in GroupMembers(targets) &&
      t in GroupMembers(targets)[TechGroupOf(targets)[t]]
  {
    var members := GroupMembers(targets);
    var owner := TechGroupOf(targets);
    forall t | t in owner
      ensures owner[t] in members && t in members[owner[t]]
    {
      OwnerHolds(targets, t);
    }
  }

  lemma OwnerHolds(targets: seq<Event>, t: string)
    requires t in TechGroupOf(targets)
    ensures TechGroupOf(targets)[t] in GroupMembers(targets)
    ensures t in GroupMembers(targets)[TechGroupOf(targets)[t]]
  {
    var missing := MissingGroups(targets);
    if t !in missing {
      PresetOwnersInvert();
      var g := PresetOwners[t];
      assert TechGroupOf(targets)[t] == g;
      assert GroupMembers(targets)[g] == PresetGroups[g];
    }
  }

  /** The reverse map covers every technology listed under some group. */
  lemma TechGroupOfCovers(targets: seq<Event>)
    ensures forall g, t :: g in GroupMembers(targets) && t in GroupMembers(targets)[g] ==>
      t in TechGroupOf(targets)
  {
    forall g, t | g in GroupMembers(targets) && t in GroupMembers(targets)[g]
      ensures t in TechGroupOf(targets)
    {
      if g in PresetGroups {
        PresetOwnersInvert();
        assert GroupMembers(targets)[g] == PresetGroups[g];
        assert t in PresetOwners;
      } else {
        assert GroupMembers(targets)[g] == [g];
      }
    }
  }

  /** A preset member goes to its preset group unless that technology is
      itself named as a target group; a missing group goes to itself. */
  lemma TechGroupOfPresetMembers(targets: seq<Event>)
    ensures forall g, t :: g in PresetGroups && t in PresetGroups[g] && t !in TargetGroups(targets) ==>
      TechGroupOf(targets)[t] == g
    ensures forall g :: g in MissingGroups(targets) ==> TechGroupOf(targets)[g] == g
  {
    PresetOwnersInvert();
  }

  /** The example of the source's comment: `CentralFixedPV` goes to
      `LargePV`, as long as no target names `CentralFixedPV` as a group. */
  lemma CentralFixedPVIsLargePV(targets: seq<Event>)
    requires forall e :: e in targets ==> e.group != "CentralFixedPV"
    ensures TechGroupOf(targets)["CentralFixedPV"] == "LargePV"
  {
    TechGroupOfPresetMembers(targets);
    assert "CentralFixedPV" in PresetGroups["LargePV"];
  }

  /** And the corner the insertion order creates. */
  lemma CentralFixedPVNamedAsGroup(targets: seq<Event>)
    requires exists e :: e in targets && e.group == "CentralFixedPV"
    ensures TechGroupOf(targets)["CentralFixedPV"] == "CentralFixedPV"
    ensures GroupMembers(targets)["CentralFixedPV"] == ["CentralFixedPV"]
  {
    assert "CentralFixedPV" in MissingGroups(targets);
  }
}
