/** The lists of build events: the definite list (forecasts, always used),
    the optional `--force-build` event appended to it, and the active list
    that adds the PSIP events only when the PSIP plan is enforced. */
module TargetLists {
  import opened Common

  /** A list object that several names can refer to: appending through one
      name is seen through every other. */
  class EventList {
    var items: seq<Event>

    constructor (init: seq<Event>)
      ensures items == init
    {
      items := init;
    }

    method Append(e: Event)
      modifies this
      ensures items == old(items) + [e]
    {
      items := items + [e];
    }
  }

  /** The parsed `--force-build` option as a list of zero or one events. */
  function ForcedEvents(force: Option<Event>): seq<Event>
  {
    if force.Some? then [force.value] else []
  }

  /** `--force-build` appends its one event to the definite list, in place. */
  method AddForceBuild(definite: EventList, force: Option<Event>)
    modifies definite
    ensures definite.items == old(definite.items) + ForcedEvents(force)
  {
    if force.Some? {
      definite.Append(force.value);
    }
  }

  /** The events of `s` whose year is at most `limit`, in their order. */
  function KeptUpTo(s: seq<Event>, limit: real): (r: seq<Event>)
    ensures |r| <= |s|
  {
    if s == [] then []
    else (if s[0].year as real <= limit then [s[0]] else []) + KeptUpTo(s[1..], limit)
  }

  /** The PSIP events in force: all of them, or those up to `psip_relax_after`. */
  function PsipInForce(psipTable: seq<Event>, relaxAfter: Option<real>): seq<Event>
  {
    if relaxAfter.None? then psipTable else KeptUpTo(psipTable, relaxAfter.value)
  }

  /** The active targets as a value. */
  function ActiveTargets(psip: bool, relaxAfter: Option<real>, definite: seq<Event>, psipTable: seq<Event>): seq<Event>
  {
    if psip then definite + PsipInForce(psipTable, relaxAfter) else definite
  }

  /** Choosing the active list. With the PSIP plan enforced it is a new list;
      otherwise it IS the definite list object, so later appends to the
      active list also land in the definite list. */
  method SelectTargets(psip: bool, relaxAfter: Option<real>, definite: EventList, psipTable: seq<Event>)
    returns (active: EventList)
    ensures !psip ==> active == definite
    ensures psip ==> fresh(active)
    ensures active.items == ActiveTargets(psip, relaxAfter, definite.items, psipTable)
  {
    if psip {
      var inForce: seq<Event>;
      if relaxAfter.Some? {
        inForce := KeptUpTo(psipTable, relaxAfter.value);
      } else {
        inForce := psipTable;
      }
      active := new EventList(definite.items + inForce);
    } else {
      active := definite;
    }
  }

  /** `a` is `b` with some entries dropped, the rest in their order. */
  predicate IsSubsequence(a: seq<Event>, b: seq<Event>)
    decreases |b|
  {
    a == [] || (b != [] && ((a[0] == b[0] && IsSubsequence(a[1..], b[1..])) || IsSubsequence(a, b[1..])))
  }

  /** An event is kept exactly when it is listed and not later than the limit. */
  lemma {:induction false} KeptUpToMembers(s: seq<Event>, limit: real)
    ensures forall e :: e in KeptUpTo(s, limit) <==> e in s && e.year as real <= limit
  {
    if s != [] {
      KeptUpToMembers(s[1..], limit);
      assert s == [s[0]] + s[1..];
    }
  }

  /** Counted with multiplicity: every event kept appears as often as in
      `s`, every other not at all. */
  lemma {:induction false} KeptUpToCounts(s: seq<Event>, limit: real)
    ensures forall e :: multiset(KeptUpTo(s, limit))[e] == if e.year as real <= limit then multiset(s)[e] else 0
  {
    if s != [] {
      KeptUpToCounts(s[1..], limit);
      assert s == [s[0]] + s[1..];
    }
  }

  /** Filtering keeps the order of the entries. */
  lemma {:induction false} KeptUpToIsSubsequence(s: seq<Event>, limit: real)
    ensures IsSubsequence(KeptUpTo(s, limit), s)
  {
    if s != [] {
      KeptUpToIsSubsequence(s[1..], limit);
      var k := KeptUpTo(s, limit);
      if s[0].year as real <= limit {
        assert k[0] == s[0] && k[1..] == KeptUpTo(s[1..], limit);
      } else {
        assert k == KeptUpTo(s[1..], limit);
      }
    }
  }

  /** Filtering a concatenation filters each part. */
  lemma {:induction false} KeptUpToAppend(a: seq<Event>, b: seq<Event>, limit: real)
    ensures KeptUpTo(a + b, limit) == KeptUpTo(a, limit) + KeptUpTo(b, limit)
  {
    if a != [] {
      assert (a + b)[1..] == a[1..] + b;
      KeptUpToAppend(a[1..], b, limit);
    } else {
      assert a + b == b;
    }
  }

  /** The active targets: exactly the definite list when the plan is not
      enforced; otherwise the definite list followed by the PSIP events in
      force, which are the PSIP events up to `psip_relax_after` (all of them
      without it), in their original order. */
  lemma ActiveTargetsShape(psip: bool, relaxAfter: Option<real>, definite: seq<Event>, psipTable: seq<Event>)
    ensures !psip ==> ActiveTargets(psip, relaxAfter, definite, psipTable) == definite
    ensures psip ==>
      var active := ActiveTargets(psip, relaxAfter, definite, psipTable);
      && active[..|definite|] == definite
      && IsSubsequence(active[|definite|..], psipTable)
      && (forall e :: e in active[|definite|..] <==>
            e in psipTable && (relaxAfter.None? || e.year as real <= relaxAfter.value))
      && (forall e :: multiset(active[|definite|..])[e] ==
            if relaxAfter.None? || e.year as real <= relaxAfter.value then multiset(psipTable)[e] else 0)
  {
    if psip {
      var active := ActiveTargets(psip, relaxAfter, definite, psipTable);
      assert active[|definite|..] == PsipInForce(psipTable, relaxAfter);
      if relaxAfter.Some? {
        KeptUpToMembers(psipTable, relaxAfter.value);
        KeptUpToCounts(psipTable, relaxAfter.value);
        KeptUpToIsSubsequence(psipTable, relaxAfter.value);
      } else {
        SubsequenceReflexive(psipTable);
      }
    }
  }

  lemma {:induction false} SubsequenceReflexive(s: seq<Event>)
    ensures IsSubsequence(s, s)
    decreases |s|
  {
    if s != [] {
      SubsequenceReflexive(s[1..]);
    }
  }

  /** A subsequence stays one when the same event is appended to both
      sides, or to the longer side only. */
  lemma {:induction false} SubsequenceExtend(a: seq<Event>, b: seq<Event>, x: Event)
    requires IsSubsequence(a, b)
    ensures IsSubsequence(a, b + [x]) && IsSubsequence(a + [x], b + [x])
    decreases |b|
  {
    if b == [] {
      assert a == [];
      assert a + [x] == b + [x];
      SubsequenceReflexive([x]);
    } else {
      assert (b + [x])[1..] == b[1..] + [x];
      if a == [] {
        SubsequenceExtend(a, b[1..], x);
        assert a + [x] == [x];
      } else if a[0] == b[0] && IsSubsequence(a[1..], b[1..]) {
        SubsequenceExtend(a[1..], b[1..], x);
        assert (a + [x])[1..] == a[1..] + [x];
      } else {
        SubsequenceExtend(a, b[1..], x);
      }
    }
  }
}
