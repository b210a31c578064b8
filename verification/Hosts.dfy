/** Host objects and their status flags (section 2.3 of RFC 5732). */
module Hosts {
  import opened Outcomes

  datatype HostFlag =
    | OK
    | Linked
    | PendingCreate
    | PendingDelete
    | PendingUpdate
    | PendingTransfer
    | ClientDeleteProhibited
    | ClientUpdateProhibited
    | ServerDeleteProhibited
    | ServerUpdateProhibited

  type HostStatus = set<HostFlag>

  predicate CanBeUpdated(st: HostStatus) {
    ServerUpdateProhibited !in st && ClientUpdateProhibited !in st
  }

  /** Anything set besides `ok` and `linked`. */
  predicate Busy(st: HostStatus) {
    || PendingCreate in st || PendingDelete in st || PendingTransfer in st || PendingUpdate in st
    || ClientDeleteProhibited in st || ClientUpdateProhibited in st
    || ServerDeleteProhibited in st || ServerUpdateProhibited in st
  }

  function Validated(st: HostStatus): Outcome {
    if PendingDelete in st && (PendingTransfer in st || PendingUpdate in st || PendingCreate in st) then Fail(HostStatusIncompatible)
    else if PendingCreate in st && (PendingTransfer in st || PendingUpdate in st || PendingDelete in st) then Fail(HostStatusIncompatible)
    else if PendingUpdate in st && (PendingTransfer in st || PendingDelete in st || PendingCreate in st) then Fail(HostStatusIncompatible)
    else if PendingUpdate in st && (ClientUpdateProhibited in st || ServerUpdateProhibited in st) then Fail(HostStatusIncompatible)
    else if PendingDelete in st && (ClientDeleteProhibited in st || ServerDeleteProhibited in st) then Fail(HostStatusIncompatible)
    else if OK in st && Busy(st) then Fail(HostStatusIncompatible)
    else if OK !in st && !Busy(st) then Fail(HostOKMustBeSet)
    else Done
  }

  datatype HostStep = HostStep(status: HostStatus, outcome: Outcome)

  function SetHostStatus(st: HostStatus, f: HostFlag): HostStep {
    if !CanBeUpdated(st) && f != ClientUpdateProhibited && f != ServerUpdateProhibited && f != Linked
      then HostStep(st, Fail(HostUpdateProhibited))
    else
      var t := if Busy(st + {f}) then st + {f} - {OK} else st + {f};
      HostStep(t, Validated(t))
  }

  function UnsetHostStatus(st: HostStatus, f: HostFlag): HostStep {
    if !CanBeUpdated(st) && f != ClientUpdateProhibited && f != ServerUpdateProhibited
      then HostStep(st, Fail(HostUpdateProhibited))
    else
      var t := if Busy(st - {f}) then st - {f} else st - {f} + {OK};
      HostStep(t, Validated(t))
  }

  predicate IsPending(f: HostFlag) {
    f in {PendingCreate, PendingDelete, PendingUpdate, PendingTransfer}
  }

  function OwnProhibitions(f: HostFlag): set<HostFlag> {
    if f == PendingDelete then {ClientDeleteProhibited, ServerDeleteProhibited}
    else if f == PendingUpdate then {ClientUpdateProhibited, ServerUpdateProhibited}
    else {}
  }

  /** The rules of section 2.3 of RFC 5732, with `ok` set exactly when no other flag than `linked` is. */
  ghost predicate Rfc5732(st: HostStatus) {
    && (OK in st <==> st <= {OK, Linked})
    && (forall f, g :: f in st && g in st && IsPending(f) && IsPending(g) ==> f == g)
    && (forall f, g :: f in st && g in st ==> g !in OwnProhibitions(f))
  }

  lemma ValidatedIsRfc5732(st: HostStatus)
    ensures Validated(st).Done? <==> Rfc5732(st)
  {
    assert Busy(st) <==> exists f :: f in st && f != OK && f != Linked;
    if Rfc5732(st) {
      assert forall f, g :: f in st && g in OwnProhibitions(f) ==> g !in st;
      assert PendingDelete in st ==> ClientDeleteProhibited in OwnProhibitions(PendingDelete);
      assert PendingUpdate in st ==> ClientUpdateProhibited in OwnProhibitions(PendingUpdate);
    }
  }

  /** Linking never fails on a valid host and sets that flag alone; unlinking fails only under an update prohibition. */
  lemma LinkingIsSafe(st: HostStatus)
    requires Validated(st).Done?
    ensures SetHostStatus(st, Linked) == HostStep(st + {Linked}, Done)
    ensures UnsetHostStatus(st, Linked) ==
            if st !! {ClientUpdateProhibited, ServerUpdateProhibited} then HostStep(st - {Linked}, Done)
            else HostStep(st, Fail(HostUpdateProhibited))
  {
    assert OK in st && !Busy(st - {Linked}) ==> st - {Linked} + {OK} == st - {Linked};
  }

  /** The rules a new flag could break. */
  ghost predicate Fits(st: HostStatus, f: HostFlag) {
    && (IsPending(f) ==> forall g :: g in st && IsPending(g) ==> g == f)
    && (forall g :: g in st ==> g !in OwnProhibitions(f) && f !in OwnProhibitions(g))
  }

  lemma BusyMeansFlag(st: HostStatus)
    ensures Busy(st) <==> !(st <= {OK, Linked})
  {
    assert forall f :: f in st && f != OK && f != Linked ==> Busy(st);
  }

  lemma FitsKeepsRules(st: HostStatus, f: HostFlag, t: HostStatus)
    requires Rfc5732(st) && t - {OK} == st + {f} - {OK} && (OK in t <==> t <= {OK, Linked})
    ensures Rfc5732(t) <==> Fits(st, f)
  {
    assert !IsPending(OK) && OwnProhibitions(OK) == {} && forall g :: OK !in OwnProhibitions(g) && g !in OwnProhibitions(g);
    hide IsPending, OwnProhibitions;
    forall g | g != OK
      ensures g in t <==> g in st || g == f
    {
      assert g in t - {OK} <==> g in st + {f} - {OK};
    }
  }

  /**
   * Setting a flag of a valid host succeeds exactly when no update prohibition refuses it and it breaks
   * no rule. A refusal changes nothing, but a broken rule leaves the object with the flag and invalid.
   */
  lemma SetHostStatusExact(st: HostStatus, f: HostFlag)
    requires Validated(st).Done?
    ensures var after := SetHostStatus(st, f);
            var refused := !(st !! {ClientUpdateProhibited, ServerUpdateProhibited})
                           && f !in {ClientUpdateProhibited, ServerUpdateProhibited, Linked};
            && (after.outcome.Done? <==> !refused && Fits(st, f))
            && (after.outcome.Done? <==> !refused && Validated(after.status).Done?)
            && (if refused then after.status == st else after.status - {OK} == st + {f} - {OK})
  {
    hide Validated, Fits;
    var t := if Busy(st + {f}) then st + {f} - {OK} else st + {f};
    BusyMeansFlag(st);
    BusyMeansFlag(st + {f});
    ValidatedIsRfc5732(st);
    ValidatedIsRfc5732(t);
    FitsKeepsRules(st, f, t);
  }

  /** Unsetting a flag of a valid host fails only when an update prohibition refuses it, and changes nothing then. */
  lemma UnsetHostStatusExact(st: HostStatus, f: HostFlag)
    requires Validated(st).Done?
    ensures var after := UnsetHostStatus(st, f);
            && (after.outcome.Done? <==>
                  st !! {ClientUpdateProhibited, ServerUpdateProhibited} || f in {ClientUpdateProhibited, ServerUpdateProhibited})
            && Validated(after.status).Done?
            && (if after.outcome.Done? then after.status - {OK} == st - {f} - {OK} else after.status == st)
  {
    hide Validated;
    var t := if Busy(st - {f}) then st - {f} else st - {f} + {OK};
    BusyMeansFlag(st);
    BusyMeansFlag(st - {f});
    ValidatedIsRfc5732(st);
    ValidatedIsRfc5732(t);
    hide Busy;
  }

  datatype Change = Set(f: HostFlag) | Unset(f: HostFlag)

  /** A change as persisted: nothing when it failed. */
  function Changed(st: HostStatus, c: Change): HostStatus {
    var after := match c case Set(f) => SetHostStatus(st, f) case Unset(f) => UnsetHostStatus(st, f);
    if after.outcome.Done? then after.status else st
  }

  function Run(st: HostStatus, changes: seq<Change>): HostStatus
    decreases |changes|
  {
    if changes == [] then st else Run(Changed(st, changes[0]), changes[1..])
  }

  /** A stored host obeys RFC 5732 after every run, with `ok` set exactly when it is idle. */
  lemma {:induction false} EveryRunKeepsRules(st: HostStatus, changes: seq<Change>)
    requires Rfc5732(st)
    ensures Rfc5732(Run(st, changes))
    decreases |changes|
  {
    hide Validated, Rfc5732, SetHostStatus, UnsetHostStatus;
    if changes != [] {
      ValidatedIsRfc5732(st);
      SetHostStatusExact(st, changes[0].f);
      UnsetHostStatusExact(st, changes[0].f);
      var next := Changed(st, changes[0]);
      ValidatedIsRfc5732(next);
      EveryRunKeepsRules(next, changes[1..]);
    }
  }

  /** A host as stored. */
  datatype HostRow = HostRow(name: string, clID: string, addresses: seq<string>, inBailiwick: bool, status: HostStatus)

  class Host {
    const roid: int
    const name: string
    const clID: string
    var addresses: seq<string>
    var inBailiwick: bool
    var status: HostStatus

    constructor Load(roid: int, row: HostRow)
      ensures this.roid == roid && Row() == row
    {
      this.roid, name, clID := roid, row.name, row.clID;
      addresses, inBailiwick, status := row.addresses, row.inBailiwick, row.status;
    }

    function Row(): HostRow
      reads this
    {
      HostRow(name, clID, addresses, inBailiwick, status)
    }

    method SetStatus(f: HostFlag) returns (outcome: Outcome)
      modifies `status
      ensures HostStep(status, outcome) == SetHostStatus(old(status), f)
    {
      if !CanBeUpdated(status) && f != ClientUpdateProhibited && f != ServerUpdateProhibited && f != Linked {
        return Fail(HostUpdateProhibited);
      }
      status := status + {f};
      if Busy(status) {
        status := status - {OK};
      }
      outcome := Validated(status);
    }

    method UnsetStatus(f: HostFlag) returns (outcome: Outcome)
      modifies `status
      ensures HostStep(status, outcome) == UnsetHostStatus(old(status), f)
    {
      if !CanBeUpdated(status) && f != ClientUpdateProhibited && f != ServerUpdateProhibited {
        return Fail(HostUpdateProhibited);
      }
      status := status - {f};
      if !Busy(status) {
        status := status + {OK};
      }
      outcome := Validated(status);
    }
  }
}
