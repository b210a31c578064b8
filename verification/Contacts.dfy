/** The status flags of a contact (section 2.2 of RFC 5733). */
module Contacts {
  import opened Outcomes

  datatype ContactFlag =
    | OK
    | Linked
    | PendingCreate
    | PendingUpdate
    | PendingTransfer
    | PendingDelete
    | ClientDeleteProhibited
    | ClientUpdateProhibited
    | ClientTransferProhibited
    | ServerDeleteProhibited
    | ServerUpdateProhibited
    | ServerTransferProhibited

  type ContactStatus = set<ContactFlag>

  datatype StatusValue = Named(flag: ContactFlag) | Unknown(text: string)

  predicate Busy(st: ContactStatus) {
    || ClientDeleteProhibited in st || ClientTransferProhibited in st || ClientUpdateProhibited in st
    || ServerDeleteProhibited in st || ServerTransferProhibited in st || ServerUpdateProhibited in st
    || PendingCreate in st || PendingDelete in st || PendingTransfer in st || PendingUpdate in st
  }

  predicate IsValidContactStatus(st: ContactStatus) {
    !(Busy(st) && OK in st) && !(!Busy(st) && OK !in st)
  }

  predicate CanBeUpdated(st: ContactStatus) {
    ServerUpdateProhibited !in st && ClientUpdateProhibited !in st
  }

  predicate IsUpdateProhibition(f: ContactFlag) {
    f == ClientUpdateProhibited || f == ServerUpdateProhibited
  }

  /** The switch's own refusals, flag by flag. */
  predicate Clashes(st: ContactStatus, f: ContactFlag) {
    match f
    case OK => Busy(st)
    case Linked => false
    case PendingCreate => PendingDelete in st || PendingTransfer in st || PendingUpdate in st
    case PendingUpdate =>
      || ClientUpdateProhibited in st || ServerUpdateProhibited in st
      || PendingDelete in st || PendingTransfer in st || PendingCreate in st
    case PendingTransfer =>
      || ClientTransferProhibited in st || ServerTransferProhibited in st
      || PendingDelete in st || PendingUpdate in st || PendingCreate in st
    case PendingDelete =>
      || ClientDeleteProhibited in st || ServerDeleteProhibited in st
      || PendingUpdate in st || PendingTransfer in st || PendingCreate in st
    case ClientDeleteProhibited => PendingDelete in st
    case ServerDeleteProhibited => PendingDelete in st
    case ClientUpdateProhibited => PendingUpdate in st
    case ServerUpdateProhibited => PendingUpdate in st
    case ClientTransferProhibited => PendingTransfer in st
    case ServerTransferProhibited => PendingTransfer in st
  }

  function SetOKIfNeeded(st: ContactStatus): ContactStatus { if Busy(st) then st else st + {OK} }
  function UnSetOKIfNeeded(st: ContactStatus): ContactStatus { if Busy(st) then st - {OK} else st }

  datatype ContactStep = ContactStep(status: ContactStatus, outcome: Outcome)

  /** The flags after a switch case that did not refuse. */
  function Assigned(st: ContactStatus, f: ContactFlag): ContactStatus {
    if f == OK || f == Linked then st + {f} else UnSetOKIfNeeded(st + {f})
  }

  function SetContactStatus(st: ContactStatus, s: StatusValue): ContactStep {
    if s.Named? && IsUpdateProhibition(s.flag) && s.flag in st then ContactStep(st, Done)
    else if !CanBeUpdated(st) && s != Named(Linked) then ContactStep(st, Fail(UpdateNotAllowed))
    else if s.Unknown? || Clashes(st, s.flag) then ContactStep(st, Fail(InvalidStatusCombination))
    else
      var t := Assigned(st, s.flag);
      ContactStep(t, if IsValidContactStatus(t) then Done else Fail(InvalidStatusCombination))
  }

  function UnSetContactStatus(st: ContactStatus, s: StatusValue): ContactStep {
    if !CanBeUpdated(st) && !(s.Named? && IsUpdateProhibition(s.flag)) then ContactStep(st, Fail(UpdateNotAllowed))
    else if s.Unknown? || (s.flag == OK && !Busy(st)) then ContactStep(st, Fail(InvalidStatusCombination))
    else if s.flag == OK || s.flag == Linked then ContactStep(st - {s.flag}, Done)
    else ContactStep(SetOKIfNeeded(st - {s.flag}), Done)
  }

  class Contact {
    var status: ContactStatus

    /** A new contact is idle. */
    constructor ()
      ensures status == {OK}
    {
      status := SetOKIfNeeded({});
    }

    method SetStatus(s: StatusValue) returns (outcome: Outcome)
      modifies this
      ensures ContactStep(status, outcome) == SetContactStatus(old(status), s)
    {
      if s.Named? && IsUpdateProhibition(s.flag) && s.flag in status {
        return Done;
      }
      if !CanBeUpdated(status) && s != Named(Linked) {
        return Fail(UpdateNotAllowed);
      }
      if s.Unknown? || Clashes(status, s.flag) {
        return Fail(InvalidStatusCombination);
      }
      status := status + {s.flag};
      if s.flag != OK && s.flag != Linked {
        status := UnSetOKIfNeeded(status);
      }
      if !IsValidContactStatus(status) {
        return Fail(InvalidStatusCombination);
      }
      outcome := Done;
    }

    method UnSetStatus(s: StatusValue) returns (outcome: Outcome)
      modifies this
      ensures ContactStep(status, outcome) == UnSetContactStatus(old(status), s)
    {
      if !CanBeUpdated(status) && !(s.Named? && IsUpdateProhibition(s.flag)) {
        return Fail(UpdateNotAllowed);
      }
      if s.Unknown? || (s.flag == OK && !Busy(status)) {
        return Fail(InvalidStatusCombination);
      }
      status := status - {s.flag};
      if s.flag != OK && s.flag != Linked {
        status := SetOKIfNeeded(status);
      }
      outcome := Done;
    }
  }

  // --- What the rules mean --------------------------------------------------------------------

  predicate IsPending(f: ContactFlag) {
    f in {PendingCreate, PendingUpdate, PendingTransfer, PendingDelete}
  }

  function OwnProhibitions(f: ContactFlag): set<ContactFlag> {
    match f
    case PendingDelete => {ClientDeleteProhibited, ServerDeleteProhibited}
    case PendingUpdate => {ClientUpdateProhibited, ServerUpdateProhibited}
    case PendingTransfer => {ClientTransferProhibited, ServerTransferProhibited}
    case _ => {}
  }

  /** The rules of section 2.2 of RFC 5733, with `ok` set exactly when no other flag than `linked` is. */
  ghost predicate Rfc5733(st: ContactStatus) {
    && (OK in st <==> st <= {OK, Linked})
    && (forall f, g :: f in st && g in st && IsPending(f) && IsPending(g) ==> f == g)
    && (forall f, g :: f in st && g in st ==> g !in OwnProhibitions(f))
  }

  /** The rules a new flag could break. */
  ghost predicate Fits(st: ContactStatus, f: ContactFlag) {
    && (f == OK ==> st <= {OK, Linked})
    && (IsPending(f) ==> forall g :: g in st && IsPending(g) ==> g == f)
    && (forall g :: g in st ==> g !in OwnProhibitions(f) && f !in OwnProhibitions(g))
  }

  lemma BusyMeansFlag(st: ContactStatus)
    ensures Busy(st) <==> !(st <= {OK, Linked})
  {
    assert forall f :: f != OK && f != Linked && f in st ==> Busy(st);
  }

  /** The switch refuses exactly the flags that break a rule. */
  lemma ClashesExactly(st: ContactStatus, f: ContactFlag)
    ensures Clashes(st, f) <==> !Fits(st, f)
  {
    BusyMeansFlag(st);
    if !Clashes(st, f) {
      forall g | g in st
        ensures g !in OwnProhibitions(f) && f !in OwnProhibitions(g)
        ensures IsPending(f) && IsPending(g) ==> g == f
      {
      }
    } else if f != OK {
      var g :| g in st && (g in OwnProhibitions(f) || f in OwnProhibitions(g) || (IsPending(f) && IsPending(g) && g != f));
    }
  }

  /** Setting a flag of a valid contact succeeds exactly when it breaks no rule, and a failure changes nothing. */
  lemma SetStatusExact(st: ContactStatus, f: ContactFlag)
    requires Rfc5733(st)
    ensures var after := SetContactStatus(st, Named(f));
            && (after.outcome.Done? <==>
                  || (f in {ClientUpdateProhibited, ServerUpdateProhibited} && f in st)
                  || ((st !! {ClientUpdateProhibited, ServerUpdateProhibited} || f == Linked) && Fits(st, f)))
            && (after.outcome.Done? ==> Rfc5733(after.status) && after.status - {OK} == st + {f} - {OK})
            && (after.outcome.Fail? ==> after.status == st)
  {
    ClashesExactly(st, f);
    FinalCheckExact(st, f);
    BusyMeansFlag(st);
    BusyMeansFlag(st + {f});
    hide Clashes, Busy;
    if SetContactStatus(st, Named(f)).outcome.Done? && !(IsUpdateProhibition(f) && f in st) {
      var t := SetContactStatus(st, Named(f)).status;
      FitsKeepsRules(st, f, t);
    }
  }

  lemma FitsKeepsRules(st: ContactStatus, f: ContactFlag, t: ContactStatus)
    requires Rfc5733(st) && Fits(st, f) && t - {OK} == st + {f} - {OK} && (OK in t <==> t <= {OK, Linked})
    ensures Rfc5733(t)
  {
    hide Busy;
    assert forall g :: g != OK ==> (g in t <==> g in t - {OK});
    assert forall g :: g != OK ==> (g in t <==> g in st || g == f);
  }

  /**
   * For any flags at all, the check at the end of a change can only fail when setting `linked` on a
   * contact that failed it before, and `pendingUpdate` is never refused for an update prohibition
   * inside the switch, only for another pending action.
   */
  lemma FinalCheckExact(st: ContactStatus, f: ContactFlag)
    ensures !Clashes(st, f) ==> (!IsValidContactStatus(Assigned(st, f)) <==> f == Linked && !IsValidContactStatus(st))
    ensures SetContactStatus(st, Named(PendingUpdate)).outcome == Fail(InvalidStatusCombination)
            <==> CanBeUpdated(st) && st * {PendingCreate, PendingTransfer, PendingDelete} != {}
  {
    var others := {PendingCreate, PendingTransfer, PendingDelete};
    assert forall g :: g in st * others <==> g in st && g in others;
  }

  /** A status that nobody knows is refused, as an update first and as a status then. */
  lemma UnknownIsRefused(st: ContactStatus, text: string)
    ensures var because := if st !! {ClientUpdateProhibited, ServerUpdateProhibited} then InvalidStatusCombination else UpdateNotAllowed;
            && SetContactStatus(st, Unknown(text)) == ContactStep(st, Fail(because))
            && UnSetContactStatus(st, Unknown(text)) == ContactStep(st, Fail(because))
  {
  }

  lemma UnSetStatusExact(st: ContactStatus, f: ContactFlag)
    requires Rfc5733(st)
    ensures var after := UnSetContactStatus(st, Named(f));
            && (after.outcome.Done? <==>
                  && (st !! {ClientUpdateProhibited, ServerUpdateProhibited} || f in {ClientUpdateProhibited, ServerUpdateProhibited})
                  && (f == OK ==> OK !in st))
            && (after.outcome.Done? ==> Rfc5733(after.status) && after.status - {OK} == st - {f} - {OK})
            && (after.outcome.Fail? ==> after.status == st)
  {
    BusyMeansFlag(st);
    BusyMeansFlag(st - {f});
    hide Busy;
  }

  /** Valid statuses are determined by the flags other than `ok`. */
  lemma OKIsDetermined(st: ContactStatus, t: ContactStatus)
    requires Rfc5733(st) && Rfc5733(t) && st - {OK} == t - {OK}
    ensures st == t
  {
    assert forall g :: g != OK ==> (g in st <==> g in st - {OK});
    assert forall g :: g != OK ==> (g in t <==> g in t - {OK});
    assert st <= {OK, Linked} <==> st - {OK} <= {Linked};
    assert t <= {OK, Linked} <==> t - {OK} <= {Linked};
  }

  lemma UnSetUndoesSet(st: ContactStatus, f: ContactFlag)
    requires Rfc5733(st) && SetContactStatus(st, Named(f)).outcome.Done?
    requires UnSetContactStatus(SetContactStatus(st, Named(f)).status, Named(f)).outcome.Done?
    ensures UnSetContactStatus(SetContactStatus(st, Named(f)).status, Named(f)).status == st <==> f !in st
  {
    hide SetContactStatus, UnSetContactStatus;
    SetStatusExact(st, f);
    var t := SetContactStatus(st, Named(f)).status;
    UnSetStatusExact(t, f);
    var u := UnSetContactStatus(t, Named(f)).status;
    if f !in st {
      assert t - {OK} - {f} == st + {f} - {OK} - {f} == st - {OK};
      assert t - {f} - {OK} == t - {OK} - {f};
      OKIsDetermined(u, st);
    } else {
      assert f == OK ==> t - {OK} == st - {OK};
      if f == OK {
        OKIsDetermined(t, st);
      }
      assert f !in u - {OK} && (f != OK ==> f in st - {OK});
    }
  }

  // --- Runs -----------------------------------------------------------------------------------

  datatype Event = Set(s: StatusValue) | UnSet(s: StatusValue)

  function Next(st: ContactStatus, e: Event): ContactStatus {
    match e
    case Set(s) => SetContactStatus(st, s).status
    case UnSet(s) => UnSetContactStatus(st, s).status
  }

  function Run(st: ContactStatus, events: seq<Event>): ContactStatus {
    if events == [] then st else Next(Run(st, events[..|events| - 1]), events[|events| - 1])
  }

  predicate BothUpdateProhibitions(st: ContactStatus) {
    ClientUpdateProhibited in st && ServerUpdateProhibited in st
  }

  /** Successful or not, no call takes a contact out of the rules, nor to both update prohibitions. */
  lemma {:induction false} EveryRunKeepsRules(st: ContactStatus, events: seq<Event>)
    requires Rfc5733(st)
    ensures Rfc5733(Run(st, events))
    ensures !BothUpdateProhibitions(st) ==> !BothUpdateProhibitions(Run(st, events))
  {
    hide SetContactStatus, UnSetContactStatus, Rfc5733;
    if events != [] {
      EveryRunKeepsRules(st, events[..|events| - 1]);
      StepKeepsRules(Run(st, events[..|events| - 1]), events[|events| - 1]);
    }
  }

  lemma StepKeepsRules(st: ContactStatus, e: Event)
    requires Rfc5733(st)
    ensures Rfc5733(Next(st, e))
    ensures !BothUpdateProhibitions(st) ==> !BothUpdateProhibitions(Next(st, e))
  {
    hide Rfc5733, Fits;
    if e.s.Named? {
      SetStatusExact(st, e.s.flag);
      UnSetStatusExact(st, e.s.flag);
      hide Clashes, Busy;
    }
  }

  /** The valid status with a flag less. */
  function Without(st: ContactStatus, f: ContactFlag): ContactStatus {
    if st - {f} <= {OK, Linked} then st - {f} + {OK} else st - {f}
  }

  /**
   * The statuses a contact can have are exactly the valid ones that do not hold both update
   * prohibitions: each prohibition refuses the other.
   */
  lemma ReachableExactly(st: ContactStatus)
    ensures (exists events :: Run({OK}, events) == st) <==> Rfc5733(st) && !BothUpdateProhibitions(st)
  {
    if events :| Run({OK}, events) == st {
      EveryRunKeepsRules({OK}, events);
    }
    if Rfc5733(st) && !BothUpdateProhibitions(st) {
      var events := Reach(st);
    }
  }

  /** Sets the flags one by one, an update prohibition last. */
  lemma {:induction false} Reach(st: ContactStatus) returns (events: seq<Event>)
    requires Rfc5733(st) && !BothUpdateProhibitions(st)
    ensures Run({OK}, events) == st
    decreases |st - {OK}|
  {
    hide Rfc5733, SetContactStatus, IsUpdateProhibition, BothUpdateProhibitions, Without;
    if st == {OK} {
      return [];
    }
    var f := LastToSet(st);
    SettingIsLast(st, f);
    var earlier := Reach(Without(st, f));
    events := earlier + [Set(Named(f))];
    assert events[..|events| - 1] == earlier;
  }

  lemma LastToSet(st: ContactStatus) returns (f: ContactFlag)
    requires Rfc5733(st) && st != {OK}
    ensures f in st && f != OK
    ensures (exists g :: g in st && IsUpdateProhibition(g)) ==> IsUpdateProhibition(f)
  {
    if g :| g in st && IsUpdateProhibition(g) {
      return g;
    }
    assert exists g :: g in st && g != OK;
    f :| f in st && f != OK;
  }

  lemma OneLessIsValid(st: ContactStatus, f: ContactFlag)
    requires Rfc5733(st) && !BothUpdateProhibitions(st) && f in st && f != OK
    requires (exists g :: g in st && IsUpdateProhibition(g)) ==> IsUpdateProhibition(f)
    ensures Rfc5733(Without(st, f)) && !BothUpdateProhibitions(Without(st, f))
    ensures CanBeUpdated(Without(st, f)) && Fits(Without(st, f), f)
  {
    assert forall g :: g in Without(st, f) ==> g == OK || (g in st && g != f);
    assert OK in st ==> st == {OK} || st == {OK, Linked};
  }

  lemma SettingIsLast(st: ContactStatus, f: ContactFlag)
    requires Rfc5733(st) && !BothUpdateProhibitions(st) && f in st && f != OK
    requires (exists g :: g in st && IsUpdateProhibition(g)) ==> IsUpdateProhibition(f)
    ensures Rfc5733(Without(st, f)) && !BothUpdateProhibitions(Without(st, f))
    ensures |Without(st, f) - {OK}| < |st - {OK}|
    ensures SetContactStatus(Without(st, f), Named(f)).status == st
  {
    hide Rfc5733, Fits, SetContactStatus, BothUpdateProhibitions, CanBeUpdated, IsUpdateProhibition;
    OneLessIsValid(st, f);
    OneLess(st, f);
    hide Without;
    var before := Without(st, f);
    SetStatusExact(before, f);
    OKIsDetermined(SetContactStatus(before, Named(f)).status, st);
  }

  lemma OneLess(st: ContactStatus, f: ContactFlag)
    requires f in st && f != OK
    ensures var before := Without(st, f);
            f !in before && before + {f} - {OK} == st - {OK} && |before - {OK}| < |st - {OK}|
  {
    var before := Without(st, f);
    assert before - {OK} == st - {OK} - {f};
    assert f in st - {OK};
  }
}
