/**
 * The phases of a TLD: possibly open-ended intervals, edited against a moving clock. A TLD must never
 * offer two general-availability (GA) phases at once; launch phases may overlap anything.
 */
module Phases {
  import opened Outcomes
  import opened Calendar

  datatype PhaseType = GA | Launch

  /** Amounts are in the smallest unit of the currency. */
  datatype Price = Price(currency: string, registrationAmount: nat, renewalAmount: nat, transferAmount: nat, restoreAmount: nat)

  datatype Fee = Fee(name: string, currency: string, amount: nat, refundable: Option<bool>)

  datatype Phase = Phase(
    name: string,
    kind: PhaseType,
    starts: Instant,
    ends: Option<Instant>,
    prices: seq<Price>,
    fees: seq<Fee>,
    baseCurrency: string)

  /** A time handed in by a caller, who may have chosen another zone than UTC. */
  datatype Timestamp = Timestamp(at: Instant, utc: bool)

  // --- One phase ------------------------------------------------------------------------------

  predicate Active(p: Phase, now: Instant) {
    p.starts < now && (p.ends.None? || p.ends.value > now)
  }

  predicate Historic(p: Phase, now: Instant) {
    p.ends.Some? && p.ends.value < now
  }

  predicate OverlapsWith(p: Phase, other: Phase) {
    if p.ends.None? && other.ends.None? then true
    else if p.ends.None? then other.starts > p.starts || other.ends.value >= p.starts
    else if other.ends.None? then p.starts > other.starts || p.ends.value >= other.starts
    else
      || (p.starts < other.starts && p.ends.value >= other.starts)
      || (other.starts < p.starts && other.ends.value >= p.starts)
  }

  /** The closed interval of a phase. */
  predicate Covers(p: Phase, t: Instant) {
    p.starts <= t && (p.ends.None? || t <= p.ends.value)
  }

  predicate Proper(p: Phase) { p.ends.Some? ==> p.starts <= p.ends.value }

  lemma OverlapIsSymmetric(p: Phase, q: Phase)
    ensures OverlapsWith(p, q) == OverlapsWith(q, p)
  {
  }

  /** `OverlapsWith` is intersection of closed intervals except for two bounded phases with the same start. */
  lemma OverlapExact(p: Phase, q: Phase)
    requires Proper(p) && Proper(q)
    ensures (OverlapsWith(p, q) <==> exists t :: Covers(p, t) && Covers(q, t))
            <==> !(p.ends.Some? && q.ends.Some? && p.starts == q.starts)
  {
    var later := if p.starts < q.starts then q.starts else p.starts;
    if OverlapsWith(p, q) || p.starts == q.starts {
      assert Covers(p, later) && Covers(q, later);
    }
  }

  // --- The operations as functions on the list ------------------------------------------------

  datatype Edit = Edit(phases: seq<Phase>, outcome: Outcome)

  function IndexOfPhase(phases: seq<Phase>, name: string): (i: nat)
    ensures i <= |phases|
    ensures i < |phases| ==> phases[i].name == name
    ensures forall j :: 0 <= j < i ==> phases[j].name != name
  {
    if phases == [] || phases[0].name == name then 0 else 1 + IndexOfPhase(phases[1..], name)
  }

  predicate IsGA(phases: seq<Phase>, i: int) {
    0 <= i < |phases| && phases[i].kind == GA
  }

  function PhaseAdded(phases: seq<Phase>, p: Phase): Edit {
    if IndexOfPhase(phases, p.name) < |phases| then Edit(phases, Fail(PhaseAlreadyExists))
    else if p.kind == GA && exists i :: 0 <= i < |phases| && IsGA(phases, i) && OverlapsWith(p, phases[i]) then Edit(phases, Fail(GAPhaseOverlaps))
    else Edit(phases + [p], Done)
  }

  function SetEndCheck(p: Phase, end: Timestamp, now: Instant): Outcome {
    if !end.utc then Fail(TimeStampNotUTC)
    else if end.at < p.starts then Fail(EndDateBeforeStart)
    else if end.at < now then Fail(EndDateInPast)
    else Done
  }

  /** Another GA phase that has not ended yet and starts before the new end. */
  predicate Obstructs(phases: seq<Phase>, i: int, name: string, end: Instant, now: Instant) {
    IsGA(phases, i) && phases[i].name != name && !Historic(phases[i], now) && phases[i].starts < end
  }

  function EndUpdateCheck(phases: seq<Phase>, p: Phase, end: Instant, now: Instant): Outcome {
    if end < now then Fail(EndDateInPast)
    else if end < p.starts then Fail(EndDateBeforeStart)
    else if Historic(p, now) then Fail(UpdateHistoricPhase)
    else if p.kind == GA && exists i :: 0 <= i < |phases| && Obstructs(phases, i, p.name, end, now) then Fail(GAPhaseOverlaps)
    else Done
  }

  function PhaseEnded(phases: seq<Phase>, name: string, end: Timestamp, now: Instant): Edit {
    var i := IndexOfPhase(phases, name);
    if i == |phases| then Edit(phases, Fail(PhaseNotFound))
    else if !end.utc then Edit(phases, Fail(TimeStampNotUTC))
    else
      var update := if phases[i].ends.None? then Done else EndUpdateCheck(phases, phases[i], end.at, now);
      var check := if update.Fail? then update else SetEndCheck(phases[i], end, now);
      if check.Fail? then Edit(phases, check)
      else Edit(phases[i := phases[i].(ends := Some(end.at))], Done)
  }

  /** Another GA phase that starts later. */
  predicate StartsLater(phases: seq<Phase>, i: int, p: Phase) {
    IsGA(phases, i) && phases[i].name != p.name && phases[i].starts > p.starts
  }

  function PhaseEndUnset(phases: seq<Phase>, name: string, now: Instant): Edit {
    var i := IndexOfPhase(phases, name);
    if i == |phases| then Edit(phases, Fail(PhaseNotFound))
    else if Historic(phases[i], now) then Edit(phases, Fail(UpdateHistoricPhase))
    else if phases[i].ends.Some? && exists j :: 0 <= j < |phases| && StartsLater(phases, j, phases[i]) then Edit(phases, Fail(GAPhaseOverlaps))
    else Edit(phases[i := phases[i].(ends := None)], Done)
  }

  /** Removes by name while walking forward, so the element after a removed one is not looked at. */
  function Dropped(phases: seq<Phase>, name: string): seq<Phase>
    decreases |phases|
  {
    if phases == [] then []
    else if phases[0].name != name then [phases[0]] + Dropped(phases[1..], name)
    else if |phases| == 1 then []
    else [phases[1]] + Dropped(phases[2..], name)
  }

  lemma DropOne(phases: seq<Phase>, i: nat, name: string)
    requires i < |phases|
    ensures var next := if phases[i].name == name then phases[..i] + phases[i + 1..] else phases;
            phases[..i] + Dropped(phases[i..], name)
            == if i < |next| then next[..i + 1] + Dropped(next[i + 1..], name) else next
  {
    assert phases[i..][1..] == phases[i + 1..];
    if phases[i].name == name {
      var next := phases[..i] + phases[i + 1..];
      if i < |next| {
        assert phases[i..][2..] == next[i + 1..];
      }
    }
  }

  function PhaseDeleted(phases: seq<Phase>, name: string, now: Instant): Edit {
    var i := IndexOfPhase(phases, name);
    if i == |phases| then Edit(phases, Fail(PhaseNotFound))
    else if exists j :: 0 <= j < |phases| && phases[j].name == name && Active(phases[j], now) then Edit(phases, Fail(DeleteCurrentPhase))
    else if phases[i].starts < now then Edit(phases, Fail(DeleteHistoricPhase))
    else Edit(Dropped(phases, name), Done)
  }

  /** The first active GA phase in the list. */
  function CurrentGAPhase(phases: seq<Phase>, now: Instant): (r: Option<Phase>)
    ensures r.Some? ==> exists i :: IsGA(phases, i) && phases[i] == r.value && Active(phases[i], now)
    ensures r.None? ==> forall i :: IsGA(phases, i) ==> !Active(phases[i], now)
  {
    if phases == [] then None
    else if phases[0].kind == GA && Active(phases[0], now) then
      assert IsGA(phases, 0);
      Some(phases[0])
    else
      var r := CurrentGAPhase(phases[1..], now);
      assert r.Some? ==> exists i :: IsGA(phases[1..], i) && IsGA(phases, i + 1) && phases[i + 1] == r.value && Active(phases[i + 1], now);
      assert r.None? ==> forall i :: IsGA(phases, i) && i > 0 ==> IsGA(phases[1..], i - 1) && !Active(phases[1..][i - 1], now);
      r
  }

  // --- Exactly when an edit succeeds, and what it stores --------------------------------------

  /** Over by the given moment. */
  predicate OverBy(p: Phase, now: Instant) { p.ends.Some? && p.ends.value < now }

  /** A phase is added at the end of the list, unless its name is taken or it would overlap in GA. */
  lemma PhaseAddedExact(phases: seq<Phase>, p: Phase)
    ensures var r := PhaseAdded(phases, p);
            && (r.outcome.Done? <==>
                  && (forall i :: 0 <= i < |phases| ==> phases[i].name != p.name)
                  && (p.kind == GA ==> forall i :: 0 <= i < |phases| && phases[i].kind == GA ==> !OverlapsWith(p, phases[i])))
            && r.phases == (if r.outcome.Done? then phases + [p] else phases)
  {
    hide OverlapsWith;
    var k := IndexOfPhase(phases, p.name);
    assert forall i :: 0 <= i < |phases| && phases[i].kind == GA ==> IsGA(phases, i);
  }

  /**
   * The requested end is stored in the first phase of that name. It must be in UTC and neither before
   * the start nor in the past; and where an end is moved, the old one must not have passed, and for a
   * GA phase no other one that is not over may start before the new end.
   */
  lemma PhaseEndedExact(phases: seq<Phase>, k: nat, name: string, end: Timestamp, now: Instant)
    requires k <= |phases| && (forall i :: 0 <= i < k ==> phases[i].name != name) && (k < |phases| ==> phases[k].name == name)
    ensures var r := PhaseEnded(phases, name, end, now);
            && (r.outcome.Done? <==>
                  && k < |phases| && end.utc && phases[k].starts <= end.at && now <= end.at
                  && (phases[k].ends.Some? ==>
                        && now <= phases[k].ends.value
                        && (phases[k].kind == GA ==>
                              forall i :: 0 <= i < |phases| && phases[i].kind == GA && phases[i].name != name ==>
                                            OverBy(phases[i], now) || end.at <= phases[i].starts)))
            && r.phases == (if r.outcome.Done? then phases[k := phases[k].(ends := Some(end.at))] else phases)
  {
    assert IndexOfPhase(phases, name) == k;
    assert forall i :: Obstructs(phases, i, name, end.at, now) <==>
      0 <= i < |phases| && phases[i].kind == GA && phases[i].name != name && !OverBy(phases[i], now) && phases[i].starts < end.at;
  }

  /** The end is dropped, unless it has passed or another GA phase starts later. */
  lemma PhaseEndUnsetExact(phases: seq<Phase>, k: nat, name: string, now: Instant)
    requires k <= |phases| && (forall i :: 0 <= i < k ==> phases[i].name != name) && (k < |phases| ==> phases[k].name == name)
    ensures var r := PhaseEndUnset(phases, name, now);
            && (r.outcome.Done? <==>
                  && k < |phases|
                  && (phases[k].ends.Some? ==>
                        && now <= phases[k].ends.value
                        && forall i :: 0 <= i < |phases| && phases[i].kind == GA && phases[i].name != name ==>
                                         phases[i].starts <= phases[k].starts))
            && r.phases == (if r.outcome.Done? then phases[k := phases[k].(ends := None)] else phases)
  {
    assert IndexOfPhase(phases, name) == k;
    assert k < |phases| ==> forall i :: StartsLater(phases, i, phases[k]) <==>
      0 <= i < |phases| && phases[i].kind == GA && phases[i].name != name && phases[i].starts > phases[k].starts;
  }

  /** The current phase is the first active GA phase. */
  lemma {:induction false} CurrentIsTheFirst(phases: seq<Phase>, k: nat, now: Instant)
    requires k < |phases| && phases[k].kind == GA && phases[k].starts < now && (phases[k].ends.Some? ==> now < phases[k].ends.value)
    requires forall i :: 0 <= i < k ==>
               !(phases[i].kind == GA && phases[i].starts < now && (phases[i].ends.Some? ==> now < phases[i].ends.value))
    ensures CurrentGAPhase(phases, now) == Some(phases[k])
  {
    if k > 0 {
      CurrentIsTheFirst(phases[1..], k - 1, now);
    }
  }

  // --- The TLD --------------------------------------------------------------------------------

  class TLD {
    var phases: seq<Phase>

    constructor ()
      ensures phases == []
    {
      phases := [];
    }

    method FindPhaseByName(name: string) returns (i: nat, found: bool)
      ensures i == IndexOfPhase(phases, name) && (found <==> i < |phases|)
    {
      i := 0;
      while i < |phases|
        invariant i <= |phases| && forall j :: 0 <= j < i ==> phases[j].name != name
      {
        if phases[i].name == name {
          return i, true;
        }
        i := i + 1;
      }
      found := false;
    }

    method AddPhase(p: Phase) returns (outcome: Outcome)
      modifies this
      ensures Edit(phases, outcome) == PhaseAdded(old(phases), p)
    {
      var _, taken := FindPhaseByName(p.name);
      if taken {
        return Fail(PhaseAlreadyExists);
      }
      if p.kind == GA {
        for i := 0 to |phases|
          invariant forall j :: IsGA(phases, j) && j < i ==> !OverlapsWith(p, phases[j])
        {
          if phases[i].kind == GA && OverlapsWith(p, phases[i]) {
            assert IsGA(phases, i);
            return Fail(GAPhaseOverlaps);
          }
        }
      }
      phases := phases + [p];
      outcome := Done;
    }

    method CheckPhaseEndUpdate(p: Phase, end: Instant, now: Instant) returns (outcome: Outcome)
      ensures outcome == EndUpdateCheck(phases, p, end, now)
    {
      if end < now {
        return Fail(EndDateInPast);
      }
      if end < p.starts {
        return Fail(EndDateBeforeStart);
      }
      if Historic(p, now) {
        return Fail(UpdateHistoricPhase);
      }
      if p.kind == Launch {
        return Done;
      }
      for i := 0 to |phases|
        invariant forall j :: j < i ==> !Obstructs(phases, j, p.name, end, now)
      {
        if phases[i].kind != GA || phases[i].name == p.name || Historic(phases[i], now) {
          continue;
        }
        if phases[i].starts < end {
          assert Obstructs(phases, i, p.name, end, now);
          return Fail(GAPhaseOverlaps);
        }
      }
      outcome := Done;
    }

    method EndPhase(name: string, end: Timestamp, now: Instant) returns (outcome: Outcome)
      modifies this
      ensures Edit(phases, outcome) == PhaseEnded(old(phases), name, end, now)
    {
      var i, found := FindPhaseByName(name);
      if !found {
        return Fail(PhaseNotFound);
      }
      if !end.utc {
        return Fail(TimeStampNotUTC);
      }
      if phases[i].ends.Some? {
        outcome := CheckPhaseEndUpdate(phases[i], end.at, now);
        if outcome.Fail? {
          return;
        }
      }
      outcome := SetEndCheck(phases[i], end, now);
      if outcome.Done? {
        phases := phases[i := phases[i].(ends := Some(end.at))];
      }
    }

    method UnSetPhaseEnd(name: string, now: Instant) returns (outcome: Outcome)
      modifies this
      ensures Edit(phases, outcome) == PhaseEndUnset(old(phases), name, now)
    {
      var i, found := FindPhaseByName(name);
      if !found {
        return Fail(PhaseNotFound);
      }
      if phases[i].ends.Some? {
        if Historic(phases[i], now) {
          return Fail(UpdateHistoricPhase);
        }
        for j := 0 to |phases|
          invariant forall k :: k < j ==> !StartsLater(phases, k, phases[i])
        {
          if phases[j].kind == GA && phases[j].name != name && phases[j].starts > phases[i].starts {
            assert StartsLater(phases, j, phases[i]);
            return Fail(GAPhaseOverlaps);
          }
        }
      }
      phases := phases[i := phases[i].(ends := None)];
      outcome := Done;
    }

    method DeletePhase(name: string, now: Instant) returns (outcome: Outcome)
      modifies this
      ensures Edit(phases, outcome) == PhaseDeleted(old(phases), name, now)
    {
      var at, found := FindPhaseByName(name);
      if !found {
        return Fail(PhaseNotFound);
      }
      for j := 0 to |phases|
        invariant forall k :: 0 <= k < j ==> !(phases[k].name == name && Active(phases[k], now))
      {
        if Active(phases[j], now) && phases[j].name == name {
          return Fail(DeleteCurrentPhase);
        }
      }
      if phases[at].starts < now {
        return Fail(DeleteHistoricPhase);
      }
      DropAll(name);
      outcome := Done;
    }

    /** The loop that shortens the list it walks over. */
    method DropAll(name: string)
      modifies this
      ensures phases == Dropped(old(phases), name)
    {
      var i := 0;
      while i < |phases|
        invariant 0 <= i
        invariant i <= |phases| ==> phases[..i] + Dropped(phases[i..], name) == Dropped(old(phases), name)
        invariant i > |phases| ==> phases == Dropped(old(phases), name)
        decreases |phases| - i
      {
        DropOne(phases, i, name);
        if phases[i].name == name {
          phases := phases[..i] + phases[i + 1..];
        }
        i := i + 1;
      }
    }

    method GetCurrentGAPhase(now: Instant) returns (current: Option<Phase>)
      ensures current == CurrentGAPhase(phases, now)
    {
      var rest := phases;
      while rest != []
        invariant CurrentGAPhase(rest, now) == CurrentGAPhase(phases, now)
        decreases |rest|
      {
        if rest[0].kind == GA {
          if rest[0].ends.None? {
            if rest[0].starts < now {
              return Some(rest[0]);
            }
          } else if rest[0].ends.value > now && rest[0].starts < now {
            return Some(rest[0]);
          }
        }
        rest := rest[1..];
      }
      current := None;
    }
  }
}
