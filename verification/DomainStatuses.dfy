/**
 * The status flags of a domain (section 2.3 of RFC 5731) and the rules by which they are set and
 * unset: the flag is changed first, `inactive` and `ok` are adjusted, and only then is the result
 * validated. The struct of eighteen booleans is represented by the set of the flags that are true.
 */
module DomainStatuses {
  import opened Outcomes

  datatype Flag =
    | OK
    | Inactive
    | ClientTransferProhibited
    | ClientUpdateProhibited
    | ClientDeleteProhibited
    | ClientRenewProhibited
    | ClientHold
    | ServerTransferProhibited
    | ServerUpdateProhibited
    | ServerDeleteProhibited
    | ServerRenewProhibited
    | ServerHold
    | PendingCreate
    | PendingRenew
    | PendingTransfer
    | PendingUpdate
    | PendingRestore
    | PendingDelete

  type DomainStatus = set<Flag>

  /** A status string given by a caller. */
  datatype StatusValue = Named(flag: Flag) | Unknown(text: string)

  // --- The tests ------------------------------------------------------------------------------

  predicate HasProhibitions(st: DomainStatus) {
    || ClientTransferProhibited in st || ClientUpdateProhibited in st || ClientDeleteProhibited in st
    || ClientRenewProhibited in st || ClientHold in st
    || ServerTransferProhibited in st || ServerUpdateProhibited in st || ServerDeleteProhibited in st
    || ServerRenewProhibited in st || ServerHold in st
  }

  predicate HasPendings(st: DomainStatus) {
    || PendingCreate in st || PendingRenew in st || PendingTransfer in st
    || PendingUpdate in st || PendingRestore in st || PendingDelete in st
  }

  predicate IsNil(st: DomainStatus) {
    OK !in st && Inactive !in st && !HasProhibitions(st) && !HasPendings(st)
  }

  predicate UpdateProhibited(st: DomainStatus) {
    ClientUpdateProhibited in st || ServerUpdateProhibited in st
  }

  function One(b: bool): nat { if b then 1 else 0 }

  /** How many pending actions are set. */
  function PendingCount(st: DomainStatus): nat {
    One(PendingCreate in st) + One(PendingRenew in st) + One(PendingTransfer in st)
    + One(PendingUpdate in st) + One(PendingDelete in st) + One(PendingRestore in st)
  }

  /** The check that every status change ends with. */
  predicate Validate(st: DomainStatus) {
    && !IsNil(st)
    && !(HasPendings(st) && OK in st)
    && !(HasProhibitions(st) && OK in st)
    && !(PendingDelete in st && (ClientDeleteProhibited in st || ServerDeleteProhibited in st))
    && !(PendingRenew in st && (ClientRenewProhibited in st || ServerRenewProhibited in st))
    && !(PendingTransfer in st && (ClientTransferProhibited in st || ServerTransferProhibited in st))
    && !(PendingUpdate in st && (ClientUpdateProhibited in st || ServerUpdateProhibited in st))
    && PendingCount(st) <= 1
  }

  // --- The changes ----------------------------------------------------------------------------

  /** A fresh domain has no hosts; `ok` is only filled in by its first change. */
  const NEW_STATUS: DomainStatus := {Inactive}

  function Put(st: DomainStatus, f: Flag, b: bool): (r: DomainStatus)
    ensures forall g :: g in r <==> if g == f then b else g in st
  {
    if b then st + {f} else st - {f}
  }

  /** `inactive` follows the hosts. */
  function FollowHosts(st: DomainStatus, hasHosts: bool): DomainStatus {
    Put(st, Inactive, !hasHosts)
  }

  function SetOKIfNeeded(st: DomainStatus): DomainStatus {
    if HasPendings(st) || HasProhibitions(st) then st else Put(st, OK, true)
  }

  function UnSetOKIfNeeded(st: DomainStatus): DomainStatus {
    if HasPendings(st) || HasProhibitions(st) then Put(st, OK, false) else st
  }

  datatype StatusStep = StatusStep(status: DomainStatus, outcome: Outcome)

  function Checked(st: DomainStatus): StatusStep {
    StatusStep(st, if Validate(st) then Done else Fail(InvalidStatusCombination))
  }

  /** The refusals that leave the flags alone. */
  function Refusal(st: DomainStatus, s: StatusValue): Outcome {
    if s.Unknown? || s.flag == OK || s.flag == Inactive then Fail(InvalidStatus)
    else if UpdateProhibited(st) && s.flag != ClientUpdateProhibited && s.flag != ServerUpdateProhibited
      then Fail(UpdateNotAllowed)
    else Done
  }

  function SetStatus(st: DomainStatus, s: StatusValue, hasHosts: bool): StatusStep {
    if Refusal(st, s).Fail? then StatusStep(st, Refusal(st, s))
    else Checked(UnSetOKIfNeeded(FollowHosts(Put(st, s.flag, true), hasHosts)))
  }

  function UnSetStatus(st: DomainStatus, s: StatusValue, hasHosts: bool): StatusStep {
    if Refusal(st, s).Fail? then StatusStep(st, Refusal(st, s))
    else Checked(SetOKIfNeeded(FollowHosts(Put(st, s.flag, false), hasHosts)))
  }

  // --- What the rules mean --------------------------------------------------------------------

  predicate IsPending(f: Flag) {
    f in {PendingCreate, PendingRenew, PendingTransfer, PendingUpdate, PendingRestore, PendingDelete}
  }

  predicate IsProhibition(f: Flag) {
    !IsPending(f) && f != OK && f != Inactive
  }

  /** The prohibitions that the RFC forbids beside a pending action. */
  function OwnProhibitions(f: Flag): set<Flag> {
    match f
    case PendingDelete => {ClientDeleteProhibited, ServerDeleteProhibited}
    case PendingRenew => {ClientRenewProhibited, ServerRenewProhibited}
    case PendingTransfer => {ClientTransferProhibited, ServerTransferProhibited}
    case PendingUpdate => {ClientUpdateProhibited, ServerUpdateProhibited}
    case _ => {}
  }

  /** The combinations that section 2.3 of RFC 5731 allows. */
  ghost predicate Rfc5731(st: DomainStatus) {
    && st != {}
    && (OK in st ==> st <= {OK, Inactive})
    && (forall f, g :: f in st && g in st && IsPending(f) && IsPending(g) ==> f == g)
    && (forall f, g :: f in st && g in st ==> g !in OwnProhibitions(f))
  }

  lemma BusyMeansFlag(st: DomainStatus)
    ensures HasPendings(st) <==> exists f :: f in st && IsPending(f)
    ensures HasProhibitions(st) <==> exists f :: f in st && IsProhibition(f)
  {
  }

  lemma AtMostOneCounted(st: DomainStatus)
    ensures PendingCount(st) <= 1 <==> forall f, g :: f in st && g in st && IsPending(f) && IsPending(g) ==> f == g
  {
  }

  /** The tests against a pending action's own prohibitions. */
  lemma OwnProhibitionsSpelledOut(st: DomainStatus)
    ensures (forall f, g :: f in st && g in st ==> g !in OwnProhibitions(f)) <==>
              && !(PendingDelete in st && (ClientDeleteProhibited in st || ServerDeleteProhibited in st))
              && !(PendingRenew in st && (ClientRenewProhibited in st || ServerRenewProhibited in st))
              && !(PendingTransfer in st && (ClientTransferProhibited in st || ServerTransferProhibited in st))
              && !(PendingUpdate in st && (ClientUpdateProhibited in st || ServerUpdateProhibited in st))
  {
    assert ClientDeleteProhibited in OwnProhibitions(PendingDelete) && ServerDeleteProhibited in OwnProhibitions(PendingDelete);
    assert ClientRenewProhibited in OwnProhibitions(PendingRenew) && ServerRenewProhibited in OwnProhibitions(PendingRenew);
    assert ClientTransferProhibited in OwnProhibitions(PendingTransfer) && ServerTransferProhibited in OwnProhibitions(PendingTransfer);
    assert ClientUpdateProhibited in OwnProhibitions(PendingUpdate) && ServerUpdateProhibited in OwnProhibitions(PendingUpdate);
  }

  /** The flag tests of `Validate` are exactly the rules of the RFC. */
  lemma ValidateIsRfc5731(st: DomainStatus)
    ensures Validate(st) <==> Rfc5731(st)
  {
    hide HasPendings, HasProhibitions, PendingCount, OwnProhibitions;
    BusyMeansFlag(st);
    AtMostOneCounted(st);
    OwnProhibitionsSpelledOut(st);
  }

  /** `ok` says that nothing is pending or prohibited, `inactive` that there are no hosts. */
  predicate Settled(st: DomainStatus, hasHosts: bool) {
    && (OK in st <==> !HasPendings(st) && !HasProhibitions(st))
    && (Inactive in st <==> !hasHosts)
  }

  /** The flags a caller controls, `ok` and `inactive` aside. */
  function Core(st: DomainStatus): DomainStatus { st - {OK, Inactive} }

  lemma FlagIsBusy(st: DomainStatus, f: Flag)
    requires f in st && f != OK && f != Inactive
    ensures HasPendings(st) || HasProhibitions(st)
  {
  }

  /** Whatever the outcome, setting a flag that is not refused adds it and settles the rest. */
  lemma SetStatusShape(st: DomainStatus, s: StatusValue, hasHosts: bool)
    requires Validate(st) && Refusal(st, s).Done?
    ensures var t := SetStatus(st, s, hasHosts).status;
            Settled(t, hasHosts) && OK !in t && Core(t) == Core(st) + {s.flag}
  {
    hide HasPendings, HasProhibitions, Validate;
    var b := FollowHosts(Put(st, s.flag, true), hasHosts);
    FlagIsBusy(b, s.flag);
    FlagIsBusy(b - {OK}, s.flag);
    assert Core(b - {OK}) == Core(st) + {s.flag};
  }

  /** The rules that a new flag could break. */
  ghost predicate Fits(st: DomainStatus, f: Flag) {
    && (IsPending(f) ==> forall g :: g in st && IsPending(g) ==> g == f)
    && (forall g :: g in st ==> g !in OwnProhibitions(f) && f !in OwnProhibitions(g))
  }

  /** Setting a flag succeeds exactly when it breaks no rule, and then changes that flag only. */
  lemma SetStatusExact(st: DomainStatus, s: StatusValue, hasHosts: bool)
    requires Validate(st)
    ensures var after := SetStatus(st, s, hasHosts);
            && (after.outcome.Done? <==> Refusal(st, s).Done? && Fits(st, s.flag))
            && (after.outcome.Done? ==>
                  Validate(after.status) && Settled(after.status, hasHosts) && Core(after.status) == Core(st) + {s.flag})
  {
    if Refusal(st, s).Done? {
      var t := SetStatus(st, s, hasHosts).status;
      SetStatusShape(st, s, hasHosts);
      ValidateIsRfc5731(st);
      ValidateIsRfc5731(t);
      FitsKeepsRules(st, s.flag, t);
    }
  }

  lemma FitsKeepsRules(st: DomainStatus, f: Flag, t: DomainStatus)
    requires Rfc5731(st) && Core(t) == Core(st) + {f} && OK !in t && f != OK && f != Inactive
    ensures Rfc5731(t) <==> Fits(st, f)
  {
    OwnProhibitionsAreOthers();
    hide Core, IsPending, OwnProhibitions;
    forall g | g != OK && g != Inactive
      ensures g in t <==> g in st || g == f
    {
      InCore(t, g);
      InCore(st, g);
    }
    assert f in t;
  }

  lemma OwnProhibitionsAreOthers()
    ensures forall f :: f !in OwnProhibitions(f) && OK !in OwnProhibitions(f) && Inactive !in OwnProhibitions(f)
    ensures OwnProhibitions(OK) == OwnProhibitions(Inactive) == {}
    ensures !IsPending(OK) && !IsPending(Inactive)
  {
  }

  /** Unsetting a flag of a valid status fails only when it is refused, and changes that flag only. */
  lemma UnSetStatusExact(st: DomainStatus, s: StatusValue, hasHosts: bool)
    requires Validate(st)
    ensures var after := UnSetStatus(st, s, hasHosts);
            && (after.outcome.Done? <==> Refusal(st, s).Done?)
            && (after.outcome.Done? ==>
                  Validate(after.status) && Settled(after.status, hasHosts) && Core(after.status) == Core(st) - {s.flag})
  {
    if Refusal(st, s).Done? {
      var t := UnSetStatus(st, s, hasHosts).status;
      UnSetStatusShape(st, s, hasHosts);
      ValidateIsRfc5731(st);
      ValidateIsRfc5731(t);
      LessKeepsRules(st, t);
    }
  }

  /** A change that the RFC or the flags themselves rule out, told by the flags alone. */
  predicate Forbidden(st: DomainStatus, s: StatusValue) {
    || s.Unknown? || s.flag in {OK, Inactive}
    || ((ClientUpdateProhibited in st || ServerUpdateProhibited in st) && s.flag !in {ClientUpdateProhibited, ServerUpdateProhibited})
  }

  function ForbiddenBecause(s: StatusValue): Error {
    if s.Unknown? || s.flag == OK || s.flag == Inactive then InvalidStatus else UpdateNotAllowed
  }

  /**
   * Both changes told by the flags alone. Under an update prohibition only the update prohibitions can
   * be changed, `ok` and `inactive` never can, and a change that is not allowed leaves the status as it was.
   */
  lemma StatusChangesByFlags(st: DomainStatus, s: StatusValue, hasHosts: bool)
    requires Validate(st)
    ensures var after := SetStatus(st, s, hasHosts);
            && (after.outcome.Done? <==> !Forbidden(st, s) && Fits(st, s.flag))
            && (Forbidden(st, s) ==> after == StatusStep(st, Fail(ForbiddenBecause(s))))
            && (after.outcome.Done? ==>
                  Rfc5731(after.status) && Settled(after.status, hasHosts) && Core(after.status) == Core(st) + {s.flag})
    ensures var after := UnSetStatus(st, s, hasHosts);
            && (after.outcome.Done? <==> !Forbidden(st, s))
            && (Forbidden(st, s) ==> after == StatusStep(st, Fail(ForbiddenBecause(s))))
            && (after.outcome.Done? ==>
                  Rfc5731(after.status) && Settled(after.status, hasHosts) && Core(after.status) == Core(st) - {s.flag})
  {
    hide Validate, HasPendings, HasProhibitions, Settled, Rfc5731;
    SetStatusExact(st, s, hasHosts);
    UnSetStatusExact(st, s, hasHosts);
    ValidateIsRfc5731(SetStatus(st, s, hasHosts).status);
    ValidateIsRfc5731(UnSetStatus(st, s, hasHosts).status);
  }

  lemma UnSetStatusShape(st: DomainStatus, s: StatusValue, hasHosts: bool)
    requires Validate(st) && Refusal(st, s).Done?
    ensures var t := UnSetStatus(st, s, hasHosts).status;
            t != {} && Settled(t, hasHosts) && Core(t) == Core(st) - {s.flag}
  {
    var f := s.flag;
    hide Refusal, PendingCount;
    var b := FollowHosts(Put(st, f, false), hasHosts);
    var t := SetOKIfNeeded(b);
    assert Core(b) == Core(st) - {f} == Core(t);
    BusyIsCore(b, st);
    BusyIsCore(b, t);
    BusyIsCore(t, b);
    BusyMeansFlag(b);
    hide HasPendings, HasProhibitions;
  }

  lemma BusyIsCore(st: DomainStatus, more: DomainStatus)
    requires Core(st) <= Core(more)
    ensures HasPendings(st) ==> HasPendings(more)
    ensures HasProhibitions(st) ==> HasProhibitions(more)
  {
    BusyMeansFlag(st);
    BusyMeansFlag(more);
    hide HasPendings, HasProhibitions, Core;
    forall f | f in st && f != OK && f != Inactive
      ensures f in more
    {
      InCore(st, f);
      InCore(more, f);
    }
  }

  lemma LessKeepsRules(st: DomainStatus, t: DomainStatus)
    requires Rfc5731(st) && Core(t) <= Core(st) && t != {}
    requires OK in t ==> !HasPendings(t) && !HasProhibitions(t)
    ensures Rfc5731(t)
  {
    BusyMeansFlag(t);
    hide HasPendings, HasProhibitions;
    forall f | f in t && f != OK && f != Inactive
      ensures f in st
    {
      assert f in Core(t);
    }
  }

  /** Two settled statuses with the same controlled flags are the same status. */
  lemma SettledIsDetermined(st: DomainStatus, t: DomainStatus, hasHosts: bool)
    requires Settled(st, hasHosts) && Settled(t, hasHosts) && Core(st) == Core(t)
    ensures st == t
  {
    BusyIsCore(st, t);
    BusyIsCore(t, st);
    hide HasPendings, HasProhibitions, Core;
    forall f
      ensures f in st <==> f in t
    {
      InCore(st, f);
      InCore(t, f);
    }
  }

  lemma InCore(st: DomainStatus, f: Flag)
    ensures f in Core(st) <==> f in st && f != OK && f != Inactive
  {
  }

  lemma CoreFlags(st: DomainStatus)
    ensures forall f :: f in Core(st) <==> f in st && f != OK && f != Inactive
  {
  }

  /** With a host a domain is no longer inactive, and `ok` once it is idle; nothing else changes. */
  lemma AttachedFlags(st: DomainStatus)
    ensures var t := SetOKIfNeeded(FollowHosts(st, true));
            Inactive !in t && Core(t) == Core(st) && (OK in t <==> OK in st || Core(st) == {})
  {
    var b := FollowHosts(st, true);
    BusyMeansFlag(b);
    hide HasPendings, HasProhibitions;
    forall f
      ensures f in Core(b) <==> f in Core(st)
      ensures f in Core(b) ==> IsPending(f) || IsProhibition(f)
    {
      InCore(b, f);
      InCore(st, f);
    }
  }

  /** Following the hosts, and filling in `ok`, keeps a status valid and settles it. */
  lemma AttachingSettles(st: DomainStatus)
    requires Validate(st)
    ensures var t := SetOKIfNeeded(FollowHosts(st, true)); Validate(t) && Settled(t, true)
  {
    hide Validate, PendingCount;
    var b := FollowHosts(st, true);
    var t := SetOKIfNeeded(b);
    ValidateIsRfc5731(st);
    assert Core(b) == Core(st) == Core(t);
    BusyIsCore(b, t);
    BusyIsCore(t, b);
    BusyIsCore(b, st);
    assert HasPendings(b) || HasProhibitions(b) ==> b != {} && OK !in st by {
      hide HasPendings, HasProhibitions;
      BusyMeansFlag(b);
      BusyMeansFlag(st);
    }
    hide HasPendings, HasProhibitions;
    LessKeepsRules(st, t);
    ValidateIsRfc5731(t);
  }

  /** A flag that could be set can always be unset again, and that undoes it exactly when it was not there before. */
  lemma UnSetUndoesSet(st: DomainStatus, s: StatusValue, hasHosts: bool)
    requires Validate(st) && Settled(st, hasHosts)
    requires SetStatus(st, s, hasHosts).outcome.Done?
    ensures var back := UnSetStatus(SetStatus(st, s, hasHosts).status, s, hasHosts);
            back.outcome.Done? && (back.status == st <==> s.flag !in st)
  {
    hide HasPendings, HasProhibitions, Validate, SetStatus, UnSetStatus;
    SetStatusExact(st, s, hasHosts);
    var t := SetStatus(st, s, hasHosts).status;
    InCore(t, ClientUpdateProhibited);
    InCore(t, ServerUpdateProhibited);
    UnSetStatusExact(t, s, hasHosts);
    var u := UnSetStatus(t, s, hasHosts).status;
    if s.flag !in st {
      assert Core(st) + {s.flag} - {s.flag} == Core(st);
      SettledIsDetermined(u, st, hasHosts);
    } else {
      assert s.flag !in Core(u) && s.flag in Core(st);
    }
  }

  /** Setting a flag again after unsetting it works and gives the old status back exactly when it was there before. */
  lemma SetUndoesUnSet(st: DomainStatus, s: StatusValue, hasHosts: bool)
    requires Validate(st) && Settled(st, hasHosts)
    requires UnSetStatus(st, s, hasHosts).outcome.Done?
    ensures SetStatus(UnSetStatus(st, s, hasHosts).status, s, hasHosts) == StatusStep(st, Done) <==> s.flag in st
  {
    hide HasPendings, HasProhibitions, Validate, SetStatus, UnSetStatus;
    UnSetStatusExact(st, s, hasHosts);
    var t := UnSetStatus(st, s, hasHosts).status;
    InCore(t, ClientUpdateProhibited);
    InCore(t, ServerUpdateProhibited);
    SetStatusExact(t, s, hasHosts);
    var u := SetStatus(t, s, hasHosts).status;
    if s.flag in st {
      FlagFitsBack(st, s.flag, t);
      assert Core(st) - {s.flag} + {s.flag} == Core(st);
      SettledIsDetermined(u, st, hasHosts);
    } else if SetStatus(t, s, hasHosts).outcome.Done? {
      assert s.flag in Core(u) && s.flag !in Core(st);
    }
  }

  lemma FlagFitsBack(st: DomainStatus, f: Flag, t: DomainStatus)
    requires Validate(st) && f in st && f != OK && f != Inactive && Core(t) == Core(st) - {f}
    ensures Fits(t, f)
  {
    ValidateIsRfc5731(st);
    OwnProhibitionsAreOthers();
    hide Core, IsPending, OwnProhibitions, Validate;
    forall g | g in t && g != OK && g != Inactive
      ensures g in st && g != f
    {
      InCore(t, g);
      InCore(st, g);
    }
  }
}
