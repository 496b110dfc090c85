/** Name predicates on technologies and tech groups: `is_renewable` and
    `is_battery`, with the substring test and the lower-casing they rely on. */
module TechNames {

  /** `sub` occurs in `s` starting at index 0. */
  predicate StartsWith(s: string, sub: string)
  {
    |sub| <= |s| && s[..|sub|] == sub
  }

  /** Python's `sub in s` for strings, scanning left to right. */
  predicate Contains(s: string, sub: string)
    decreases |s|
  {
    StartsWith(s, sub) || (|s| > 0 && Contains(s[1..], sub))
  }

  /** The reference definition of `sub in s`: some window of `s` equals `sub`. */
  ghost predicate OccursAt(s: string, sub: string, i: int)
  {
    0 <= i && i + |sub| <= |s| && s[i..i + |sub|] == sub
  }

  /** A match at index `i` is found by the left-to-right scan. */
  lemma {:induction false} OccursImpliesContains(s: string, sub: string, i: int)
    requires OccursAt(s, sub, i)
    ensures Contains(s, sub)
    decreases i
  {
    if i == 0 {
      assert s[..|sub|] == s[0..|sub|];
    } else {
      assert s[1..][i - 1..i - 1 + |sub|] == s[i..i + |sub|];
      OccursImpliesContains(s[1..], sub, i - 1);
    }
  }

  /** The scan only succeeds at a real match, whose index it returns. */
  lemma {:induction false} ContainsImpliesOccurs(s: string, sub: string) returns (i: int)
    requires Contains(s, sub)
    ensures OccursAt(s, sub, i)
    decreases |s|
  {
    if StartsWith(s, sub) {
      i := 0;
      assert s[0..|sub|] == s[..|sub|];
    } else {
      var j := ContainsImpliesOccurs(s[1..], sub);
      assert s[j + 1..j + 1 + |sub|] == s[1..][j..j + |sub|];
      i := j + 1;
    }
  }

  lemma ContainsIffOccurs(s: string, sub: string)
    ensures Contains(s, sub) <==> exists i :: OccursAt(s, sub, i)
  {
    if Contains(s, sub) {
      var i := ContainsImpliesOccurs(s, sub);
    }
    forall i | OccursAt(s, sub, i) ensures Contains(s, sub) {
      OccursImpliesContains(s, sub, i);
    }
  }

  /** ASCII lower-casing of one character; every other character is kept.
      No non-ASCII character lower-cases to a letter of the words the
      callers look for, so this agrees with Python's `str.lower` there. */
  function LowerChar(c: char): char
  {
    if 'A' <= c <= 'Z' then (c as int + 32) as char else c
  }

  function Lower(s: string): (r: string)
    ensures |r| == |s|
  {
    if s == [] then [] else [LowerChar(s[0])] + Lower(s[1..])
  }

  /** `Lower` lower-cases each character in place. */
  lemma {:induction false} LowerAt(s: string, i: int)
    requires 0 <= i < |s|
    ensures Lower(s)[i] == LowerChar(s[i])
    decreases |s|
  {
    if i > 0 {
      LowerAt(s[1..], i - 1);
    }
  }

  /** Lower-casing twice is lower-casing once. */
  lemma LowerIdempotent(s: string)
    ensures Lower(Lower(s)) == Lower(s)
  {
    var l := Lower(s);
    forall i | 0 <= i < |l| ensures Lower(l)[i] == l[i] {
      LowerAt(l, i);
      LowerAt(s, i);
    }
  }

  /** `is_renewable`: the name mentions PV, Wind or Solar (case-sensitive). */
  predicate IsRenewable(tech: string)
  {
    Contains(tech, "PV") || Contains(tech, "Wind") || Contains(tech, "Solar")
  }

  /** `is_battery`: the lower-cased name mentions "battery". */
  predicate IsBattery(tech: string)
  {
    Contains(Lower(tech), "battery")
  }

  /** `is_renewable` is the reference definition: one of its three words
      occurs somewhere in the name. */
  lemma IsRenewableIff(tech: string)
    ensures IsRenewable(tech) <==>
      (exists i :: OccursAt(tech, "PV", i)) ||
      (exists i :: OccursAt(tech, "Wind", i)) ||
      (exists i :: OccursAt(tech, "Solar", i))
  {
    ContainsIffOccurs(tech, "PV");
    ContainsIffOccurs(tech, "Wind");
    ContainsIffOccurs(tech, "Solar");
  }

  /** `is_battery` ignores case: a name and its lower-cased form agree. */
  lemma IsBatteryIgnoresCase(tech: string)
    ensures IsBattery(tech) == IsBattery(Lower(tech))
  {
    LowerIdempotent(tech);
  }

  /** Names from the source's tables that are renewable. */
  lemma RenewableExamples()
    ensures IsRenewable("CentralTrackingPV") && IsRenewable("OffshoreWind") && IsRenewable("DistPV")
  {
    assert OccursAt("CentralTrackingPV", "PV", 15);
    OccursImpliesContains("CentralTrackingPV", "PV", 15);
    assert OccursAt("OffshoreWind", "Wind", 8);
    OccursImpliesContains("OffshoreWind", "Wind", 8);
    assert OccursAt("DistPV", "PV", 4);
    OccursImpliesContains("DistPV", "PV", 4);
  }

  /** Names from the source's tables that are not renewable. */
  lemma NonRenewableExamples()
    ensures !IsRenewable("IC_Barge") && !IsRenewable("Battery_Bulk")
  {
    NoRenewableWord("IC_Barge");
    NoRenewableWord("Battery_Bulk");
  }

  /** A name with no 'P', 'W' or 'S' in it is not renewable. */
  lemma NoRenewableWord(s: string)
    requires forall i :: 0 <= i < |s| ==> s[i] != 'P' && s[i] != 'W' && s[i] != 'S'
    ensures !IsRenewable(s)
  {
    NotContains(s, "PV");
    NotContains(s, "Wind");
    NotContains(s, "Solar");
  }

  /** A name holding "Battery" at index `k` (as in `Battery_Bulk` or
      `DistBattery`) is a battery: the test ignores case. */
  lemma CapitalisedBatteryIsBattery(s: string, k: int)
    requires 0 <= k && k + 7 <= |s| && s[k..k + 7] == "Battery"
    ensures IsBattery(s)
  {
    var l := Lower(s);
    forall j | 0 <= j < 7 ensures l[k + j] == "battery"[j] {
      LowerAt(s, k + j);
      assert s[k + j] == "Battery"[j];
    }
    assert l[k..k + 7] == "battery";
    OccursImpliesContains(l, "battery", k);
  }

  /** A name with no 'b' in either case (as `OnshoreWind`) is not a battery. */
  lemma NoBIsNotBattery(s: string)
    requires forall i :: 0 <= i < |s| ==> s[i] != 'b' && s[i] != 'B'
    ensures !IsBattery(s)
  {
    var l := Lower(s);
    forall i | 0 <= i < |l| ensures l[i] != 'b' {
      LowerAt(s, i);
    }
    NotContains(l, "battery");
  }

  /** Any match starts with the first character of the text looked for. */
  lemma ContainsFirstChar(s: string, sub: string) returns (i: int)
    requires |sub| > 0 && Contains(s, sub)
    ensures 0 <= i < |s| && s[i] == sub[0]
  {
    i := ContainsImpliesOccurs(s, sub);
    assert s[i..i + |sub|][0] == s[i];
  }

  /** A helper for the examples: `sub` does not occur in a name none of
      whose characters is the first character of `sub`. */
  lemma NotContains(s: string, sub: string)
    requires |sub| > 0
    requires forall i :: 0 <= i < |s| ==> s[i] != sub[0]
    ensures !Contains(s, sub)
  {
    if Contains(s, sub) {
      var i := ContainsFirstChar(s, sub);
    }
  }
}
