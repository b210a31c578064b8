/**
 * What each operation of a domain object does to it, as functions on values. Operations change the
 * object first and report an error afterwards, so a `Step` carries the changed value even when the
 * outcome is a failure; the callers that persist domains drop it in that case.
 *
 * Every reading of the clock that the code takes is a parameter of its own.
 */
module Lifecycle {
  import opened Outcomes
  import opened Calendar
  import opened DomainStatuses
  import H = Hosts

  const MAX_HOSTS_PER_DOMAIN := 10

  datatype RGPStatus = RGPStatus(
    addPeriodEnd: Instant,
    renewPeriodEnd: Instant,
    autoRenewPeriodEnd: Instant,
    transferLockPeriodEnd: Instant,
    redemptionPeriodEnd: Instant,
    purgeDate: Instant)

  const NO_RGP := RGPStatus(ZERO_TIME, ZERO_TIME, ZERO_TIME, ZERO_TIME, ZERO_TIME, ZERO_TIME)

  /** The part of a phase's policy that the domain lifecycle reads. Periods are in days. */
  datatype Policy = Policy(
    registrationGP: int,
    renewalGP: int,
    autoRenewalGP: int,
    redemptionGP: int,
    pendingDeleteGP: int,
    transferLockPeriod: int,
    maxHorizon: int,
    allowAutoRenew: Option<bool>,
    requiresValidation: Option<bool>)

  datatype Life = Life(
    name: string,
    clID: string,
    upRr: string,
    createdAt: Instant,
    expiryDate: Instant,
    renewedYears: int,
    status: DomainStatus,
    rgp: RGPStatus,
    hosts: seq<H.Host>)

  datatype Step = Step(life: Life, outcome: Outcome)

  // --- Creation -------------------------------------------------------------------------------

  function NewLife(name: string, clID: string, now: Instant): Life {
    Life(name, clID, "", now, ZERO_TIME, 0, NEW_STATUS, NO_RGP, [])
  }

  /** A registration for the given number of years; `t0 <= t1 <= t2` are its clock readings. */
  function Register(name: string, clID: string, phase: Option<Policy>, years: int,
                    t0: Instant, t1: Instant, t2: Instant): Step
  {
    var born := NewLife(name, clID, t0);
    if years == 0 then Step(born, Fail(ZeroRenewalPeriod))
    else if phase.None? then Step(born, Fail(PhaseNotProvided))
    else
      var checked := if phase.value.requiresValidation == Some(true)
                     then SetStatusStep(born, Named(PendingCreate)) else Step(born, Done);
      if checked.outcome.Fail? then checked
      else Step(checked.life.(
                  rgp := checked.life.rgp.(
                    addPeriodEnd := AddDays(t1, phase.value.registrationGP),
                    transferLockPeriodEnd := AddDays(t2, phase.value.transferLockPeriod)),
                  expiryDate := AddYears(t0, years),
                  renewedYears := years - 1),
                Done)
  }

  // --- Status ---------------------------------------------------------------------------------

  predicate HasHosts(l: Life) { |l.hosts| > 0 }

  function SetStatusStep(l: Life, s: StatusValue): Step {
    var r := SetStatus(l.status, s, HasHosts(l));
    Step(l.(status := r.status), r.outcome)
  }

  function UnSetStatusStep(l: Life, s: StatusValue): Step {
    var r := UnSetStatus(l.status, s, HasHosts(l));
    Step(l.(status := r.status), r.outcome)
  }

  // --- Hosts ----------------------------------------------------------------------------------

  predicate CanBeUpdated(l: Life) {
    ClientUpdateProhibited !in l.status && ServerUpdateProhibited !in l.status && PendingUpdate !in l.status
  }

  /** Position of the first host with this name, or the length of the list. */
  function IndexOf(hosts: seq<H.Host>, name: string): (i: nat)
    ensures i <= |hosts|
    ensures i < |hosts| ==> hosts[i].name == name
    ensures forall j :: 0 <= j < i ==> hosts[j].name != name
  {
    if hosts == [] || hosts[0].name == name then 0 else 1 + IndexOf(hosts[1..], name)
  }

  /** Everything after the first label of a domain name. */
  function ParentDomain(name: string): string {
    if name == "" then "" else if name[0] == '.' then name[1..] else ParentDomain(name[1..])
  }

  /** Why a host cannot be added; `linking` is the outcome of marking the host as linked. */
  function AddHostRefusal(l: Life, host: H.Host, hasAddress: bool, ignoreUpdateProhibitions: bool, linking: Outcome): Outcome {
    if !CanBeUpdated(l) && !ignoreUpdateProhibitions then Fail(UpdateNotAllowed)
    else if IndexOf(l.hosts, host.name) < |l.hosts| then Fail(DuplicateHost)
    else if |l.hosts| >= MAX_HOSTS_PER_DOMAIN then Fail(MaxHostsExceeded)
    else if l.clID != host.clID then Fail(HostSponsorMismatch)
    else if ParentDomain(host.name) == l.name && !hasAddress then Fail(InBailiwickHostNeedsAddress)
    else linking
  }

  function AddHostStep(l: Life, host: H.Host, hasAddress: bool, ignoreUpdateProhibitions: bool, linking: Outcome): Step {
    var refusal := AddHostRefusal(l, host, hasAddress, ignoreUpdateProhibitions, linking);
    if refusal.Fail? then Step(l, refusal)
    else Step(l.(hosts := l.hosts + [host], status := SetOKIfNeeded(FollowHosts(l.status, true))), Done)
  }

  function RemoveHostStep(l: Life, name: string): Step {
    var i := IndexOf(l.hosts, name);
    if i == |l.hosts| then Step(l, Fail(HostNotFound))
    else
      var left := l.hosts[..i] + l.hosts[i + 1..];
      Step(l.(hosts := left, status := FollowHosts(l.status, |left| > 0)), Done)
  }

  // --- Renewal --------------------------------------------------------------------------------

  predicate CanBeRenewed(l: Life) {
    ClientRenewProhibited !in l.status && ServerRenewProhibited !in l.status && !HasPendings(l.status)
  }

  function Extended(l: Life, years: int, isAutoRenew: bool, policy: Policy, now: Instant): Life {
    l.(expiryDate := AddYears(l.expiryDate, years),
       renewedYears := l.renewedYears + years,
       upRr := l.clID,
       rgp := if isAutoRenew then l.rgp.(autoRenewPeriodEnd := AddDays(now, policy.autoRenewalGP))
              else l.rgp.(renewPeriodEnd := AddDays(now, policy.renewalGP)))
  }

  function RenewStep(l: Life, years: int, isAutoRenew: bool, phase: Option<Policy>, t0: Instant, t1: Instant): Step {
    if phase.None? then Step(l, Fail(PhaseNotProvided))
    else if years == 0 then Step(l, Fail(ZeroRenewalPeriod))
    else if !CanBeRenewed(l) then Step(l, Fail(RenewNotAllowed))
    else if AddYears(l.expiryDate, years) > AddYears(t0, phase.value.maxHorizon) then Step(l, Fail(RenewExceedsMaxHorizon))
    else Step(Extended(l, years, isAutoRenew, phase.value, t1), Done)
  }

  function ForceRenewStep(l: Life, years: int, isAutoRenew: bool, phase: Option<Policy>, now: Instant): Step {
    if phase.None? then Step(l, Fail(PhaseNotProvided))
    else if years == 0 then Step(l, Fail(ZeroRenewalPeriod))
    else Step(Extended(l, years, isAutoRenew, phase.value, now), Done)
  }

  // --- End of life ----------------------------------------------------------------------------

  predicate CanBeDeleted(l: Life) {
    ClientDeleteProhibited !in l.status && ServerDeleteProhibited !in l.status && PendingDelete !in l.status
  }

  predicate CanBePurged(l: Life, now: Instant) { now > l.rgp.purgeDate }

  predicate CanBeRestored(l: Life, now: Instant) { now < l.rgp.redemptionPeriodEnd && PendingDelete in l.status }

  function EndDates(l: Life, redemptionEnd: Instant, purge: Instant): Life {
    l.(rgp := l.rgp.(redemptionPeriodEnd := redemptionEnd, purgeDate := purge))
  }

  /** A user's delete command; `t0 <= t1 <= t2` are its clock readings. */
  function MarkForDeletionStep(l: Life, policy: Policy, t0: Instant, t1: Instant, t2: Instant): Step {
    if !CanBeDeleted(l) then Step(l, Fail(DeleteNotAllowed))
    else
      var marked := SetStatusStep(l, Named(PendingDelete));
      if marked.outcome.Fail? then Step(marked.life, Fail(DeleteNotAllowed))
      else
        var m := marked.life.(upRr := l.clID);
        if t0 < l.rgp.addPeriodEnd then Step(EndDates(m, t1, t2), Done)
        else
          var redemptionEnd := AddDays(t1, policy.redemptionGP);
          Step(EndDates(m, redemptionEnd, AddDays(redemptionEnd, policy.pendingDeleteGP)), Done)
  }

  /** Unsets the listed flags one after the other and stops at the first refusal. */
  function UnSetEach(l: Life, flags: seq<Flag>): Step
    decreases |flags|
  {
    if flags == [] then Step(l, Done)
    else
      var first := UnSetStatusStep(l, Named(flags[0]));
      if first.outcome.Fail? then first else UnSetEach(first.life, flags[1..])
  }

  const CONFLICTS_WITH_EXPIRY: seq<Flag> := [ClientUpdateProhibited, ServerUpdateProhibited, ClientDeleteProhibited]

  function ExpireStep(l: Life, policy: Policy, now: Instant): Step {
    if now < l.expiryDate then Step(l, Fail(ExpiryTooEarly))
    else if ServerDeleteProhibited in l.status then Step(l, Fail(ExpiryNotAllowed))
    else
      var cleared := UnSetEach(l, CONFLICTS_WITH_EXPIRY);
      if cleared.outcome.Fail? then Step(cleared.life, Fail(ExpiryFailed))
      else
        var marked := SetStatusStep(cleared.life, Named(PendingDelete));
        if marked.outcome.Fail? then Step(marked.life, Fail(ExpiryFailed))
        else
          var redemptionEnd := AddDays(l.expiryDate, policy.redemptionGP);
          Step(EndDates(marked.life, redemptionEnd, AddDays(redemptionEnd, policy.pendingDeleteGP)), Done)
  }

  function RestoreStep(l: Life, now: Instant): Step {
    if !CanBeRestored(l, now) then Step(l, Fail(RestoreNotAllowed))
    else
      var unset := UnSetStatusStep(l, Named(PendingDelete));
      if unset.outcome.Fail? then Step(unset.life, Fail(RestoreNotAllowed))
      else
        var marked := SetStatusStep(unset.life, Named(PendingRestore));
        if marked.outcome.Fail? then Step(marked.life, Fail(RestoreNotAllowed))
        else Step(marked.life.(upRr := l.clID), Done)
  }

  // --- What single operations promise ---------------------------------------------------------

  /** Exactly when a registration succeeds, and every field of the new domain. */
  lemma RegisterExact(name: string, clID: string, phase: Option<Policy>, years: int, t0: Instant, t1: Instant, t2: Instant)
    ensures var r := Register(name, clID, phase, years, t0, t1, t2);
            && (r.outcome == Fail(ZeroRenewalPeriod) <==> years == 0)
            && (r.outcome == Fail(PhaseNotProvided) <==> years != 0 && phase.None?)
            && (r.outcome.Done? <==> years != 0 && phase.Some?)
            && (r.outcome.Done? ==>
                  r.life == Life(name, clID, "", t0, AddYears(t0, years), years - 1,
                                 if phase.value.requiresValidation == Some(true) then {PendingCreate, Inactive} else {Inactive},
                                 RGPStatus(t1 + phase.value.registrationGP * DAY, ZERO_TIME, ZERO_TIME,
                                           t2 + phase.value.transferLockPeriod * DAY, ZERO_TIME, ZERO_TIME),
                                 []))
  {
    hide AddYears, SetStatus;
    PendingCreateOnNew();
  }

  lemma PendingCreateOnNew()
    ensures SetStatus(NEW_STATUS, Named(PendingCreate), false) == StatusStep({PendingCreate, Inactive}, Done)
  {
    assert UnSetOKIfNeeded(FollowHosts(Put(NEW_STATUS, PendingCreate, true), false)) == {PendingCreate, Inactive};
  }

  /** The parent of a name is what follows its first dot. */
  lemma {:induction false} ParentDomainExact(first: string, rest: string)
    requires '.' !in first
    ensures ParentDomain(first) == "" && ParentDomain(first + "." + rest) == rest
  {
    if first != "" {
      ParentDomainExact(first[1..], rest);
      assert (first + "." + rest)[1..] == first[1..] + "." + rest;
    }
  }

  lemma UpdatableMeans(l: Life)
    ensures CanBeUpdated(l) <==> l.status !! {ClientUpdateProhibited, ServerUpdateProhibited, PendingUpdate}
  {
    var against := {ClientUpdateProhibited, ServerUpdateProhibited, PendingUpdate};
    assert forall f :: f in against <==> f == ClientUpdateProhibited || f == ServerUpdateProhibited || f == PendingUpdate;
  }

  /** Exactly when a host can be added, and what that changes. */
  lemma AddHostExact(l: Life, host: H.Host, hasAddress: bool, ignoreUpdateProhibitions: bool, linking: Outcome)
    ensures var r := AddHostStep(l, host, hasAddress, ignoreUpdateProhibitions, linking);
            var allowed := ignoreUpdateProhibitions || l.status !! {ClientUpdateProhibited, ServerUpdateProhibited, PendingUpdate};
            var taken := exists i :: 0 <= i < |l.hosts| && l.hosts[i].name == host.name;
            && (r.outcome.Done? <==>
                  && allowed && !taken && |l.hosts| < 10 && host.clID == l.clID
                  && (ParentDomain(host.name) == l.name ==> hasAddress)
                  && linking.Done?)
            && (!allowed ==> r.outcome == Fail(UpdateNotAllowed))
            && (allowed && taken ==> r.outcome == Fail(DuplicateHost))
            && (r.outcome.Fail? ==> r.life == l)
            && (r.outcome.Done? ==>
                  && r.life == l.(hosts := l.hosts + [host], status := r.life.status)
                  && Inactive !in r.life.status && Core(r.life.status) == Core(l.status)
                  && (OK in r.life.status <==> OK in l.status || Core(l.status) == {}))
  {
    hide ParentDomain, HasPendings, HasProhibitions, SetOKIfNeeded, FollowHosts;
    AttachedFlags(l.status);
    UpdatableMeans(l);
  }

  /** Exactly when a host can be removed, and what that changes. */
  lemma RemoveHostExact(l: Life, name: string, i: nat)
    requires i <= |l.hosts| && (forall j :: 0 <= j < i ==> l.hosts[j].name != name) && (i < |l.hosts| ==> l.hosts[i].name == name)
    ensures var r := RemoveHostStep(l, name);
            && (r.outcome.Done? <==> i < |l.hosts|)
            && (r.outcome.Fail? ==> r.outcome == Fail(HostNotFound) && r.life == l)
            && (r.outcome.Done? ==>
                  && r.life == l.(hosts := l.hosts[..i] + l.hosts[i + 1..], status := r.life.status)
                  && forall f :: f in r.life.status <==> if f == Inactive then |l.hosts| == 1 else f in l.status)
  {
    assert IndexOf(l.hosts, name) == i;
  }

  /** Nothing pending and no renew prohibition. */
  predicate Renewable(l: Life) {
    && ClientRenewProhibited !in l.status && ServerRenewProhibited !in l.status
    && forall f | f in l.status :: !IsPending(f)
  }

  /** Field by field, what a renewal does. */
  predicate ExtendedBy(l: Life, after: Life, years: int, isAutoRenew: bool, policy: Policy, now: Instant) {
    && after.expiryDate == AddYears(l.expiryDate, years)
    && after.renewedYears == l.renewedYears + years
    && after.upRr == l.clID
    && after.rgp.autoRenewPeriodEnd == (if isAutoRenew then now + policy.autoRenewalGP * DAY else l.rgp.autoRenewPeriodEnd)
    && after.rgp.renewPeriodEnd == (if isAutoRenew then l.rgp.renewPeriodEnd else now + policy.renewalGP * DAY)
    && after.rgp.addPeriodEnd == l.rgp.addPeriodEnd && after.rgp.transferLockPeriodEnd == l.rgp.transferLockPeriodEnd
    && after.rgp.redemptionPeriodEnd == l.rgp.redemptionPeriodEnd && after.rgp.purgeDate == l.rgp.purgeDate
    && after.name == l.name && after.clID == l.clID && after.createdAt == l.createdAt
    && after.status == l.status && after.hosts == l.hosts
  }

  /** Exactly when a domain is renewed, and exactly what that changes. */
  lemma RenewExact(l: Life, years: int, isAutoRenew: bool, phase: Option<Policy>, t0: Instant, t1: Instant)
    ensures var r := RenewStep(l, years, isAutoRenew, phase, t0, t1);
            && (r.outcome.Done? <==>
                  && phase.Some? && years != 0 && Renewable(l)
                  && AddYears(l.expiryDate, years) <= AddYears(t0, phase.value.maxHorizon))
            && (r.outcome.Done? ==> ExtendedBy(l, r.life, years, isAutoRenew, phase.value, t1))
            && (r.outcome.Fail? ==> r.life == l)
  {
    hide AddYears;
    BusyMeansFlag(l.status);
  }

  /** A forced renewal changes the same fields, whatever the flags and the horizon. */
  lemma ForceRenewExact(l: Life, years: int, isAutoRenew: bool, phase: Option<Policy>, now: Instant)
    ensures var r := ForceRenewStep(l, years, isAutoRenew, phase, now);
            && (r.outcome.Done? <==> phase.Some? && years != 0)
            && (r.outcome.Done? ==> ExtendedBy(l, r.life, years, isAutoRenew, phase.value, now))
            && (r.outcome.Fail? ==> r.life == l)
  {
    hide AddYears;
  }

  /** From any valid status, and whatever its other flags, expiring succeeds exactly under this condition. */
  predicate Expirable(l: Life, now: Instant) {
    && now >= l.expiryDate
    && ServerDeleteProhibited !in l.status
    && (forall f | f in l.status :: IsPending(f) ==> f == PendingDelete)
  }

  /** Clearing the conflicting flags of a valid status never fails and clears nothing else. */
  lemma ClearingConflicts(l: Life)
    requires Validate(l.status)
    ensures var r := UnSetEach(l, CONFLICTS_WITH_EXPIRY);
            && r.outcome.Done?
            && r.life == l.(status := r.life.status)
            && Validate(r.life.status)
            && Core(r.life.status) == Core(l.status) - {ClientUpdateProhibited, ServerUpdateProhibited, ClientDeleteProhibited}
  {
    hide UnSetStatusStep, UnSetEach, Validate, Settled, Core, HasHosts;
    var flags := CONFLICTS_WITH_EXPIRY;
    UnSettingOne(l, flags);
    var a := UnSetStatusStep(l, Named(ClientUpdateProhibited)).life;
    UnSettingOne(a, flags[1..]);
    var b := UnSetStatusStep(a, Named(ServerUpdateProhibited)).life;
    InCore(b.status, ClientUpdateProhibited);
    InCore(b.status, ServerUpdateProhibited);
    assert flags[2..][0] == ClientDeleteProhibited;
    UnSettingOne(b, flags[2..]);
    assert flags[1..][1..] == flags[2..] && flags[2..][1..] == [];
    NothingToUnSet(UnSetStatusStep(b, Named(ClientDeleteProhibited)).life);
  }

  lemma NothingToUnSet(l: Life)
    ensures UnSetEach(l, []) == Step(l, Done)
  {
  }

  lemma UnSettingOne(l: Life, flags: seq<Flag>)
    requires Validate(l.status) && flags != [] && Refusal(l.status, Named(flags[0])).Done?
    ensures var next := UnSetStatusStep(l, Named(flags[0]));
            && next.outcome.Done? && next.life == l.(status := next.life.status)
            && Validate(next.life.status) && Core(next.life.status) == Core(l.status) - {flags[0]}
            && UnSetEach(l, flags) == UnSetEach(next.life, flags[1..])
  {
    hide Validate, Settled, Refusal, Core;
    UnSetStatusExact(l.status, Named(flags[0]), HasHosts(l));
  }

  /** Exactly when a domain expires, and exactly what expiry changes. */
  lemma ExpireExact(l: Life, policy: Policy, now: Instant)
    requires Validate(l.status)
    ensures var r := ExpireStep(l, policy, now);
            && (r.outcome.Done? <==> Expirable(l, now))
            && (r.outcome.Done? ==>
                  && Validate(r.life.status) && Settled(r.life.status, HasHosts(l))
                  && Core(r.life.status)
                     == Core(l.status) - {ClientUpdateProhibited, ServerUpdateProhibited, ClientDeleteProhibited} + {PendingDelete}
                  && r.life == l.(status := r.life.status,
                                  rgp := l.rgp.(redemptionPeriodEnd := l.expiryDate + policy.redemptionGP * DAY,
                                                purgeDate := l.expiryDate + (policy.redemptionGP + policy.pendingDeleteGP) * DAY)))
  {
    hide SetStatus, UnSetEach, Validate, Settled;
    if now >= l.expiryDate && ServerDeleteProhibited !in l.status {
      ClearingConflicts(l);
      var c := UnSetEach(l, CONFLICTS_WITH_EXPIRY).life;
      SetStatusExact(c.status, Named(PendingDelete), HasHosts(l));
      assert forall f :: f in Core(c.status) <==>
        f in Core(l.status) && f !in {ClientUpdateProhibited, ServerUpdateProhibited, ClientDeleteProhibited};
      PendingDeleteFits(l, c);
    }
  }

  lemma PendingDeleteFits(l: Life, c: Life)
    requires ServerDeleteProhibited !in l.status
    requires forall f :: f in Core(c.status) <==>
               f in Core(l.status) && f !in {ClientUpdateProhibited, ServerUpdateProhibited, ClientDeleteProhibited}
    ensures Refusal(c.status, Named(PendingDelete)).Done?
    ensures Fits(c.status, PendingDelete) <==> forall f | f in l.status :: IsPending(f) ==> f == PendingDelete
  {
    forall f | f != OK && f != Inactive
      ensures f in c.status <==>
              f in l.status && f !in {ClientUpdateProhibited, ServerUpdateProhibited, ClientDeleteProhibited}
    {
      assert f in Core(c.status) <==> f in c.status;
      assert f in Core(l.status) <==> f in l.status;
    }
  }

  /** Expiring an expired domain again under the same policy changes nothing. */
  lemma ExpireTwice(l: Life, policy: Policy, now: Instant, later: Instant)
    requires Validate(l.status) && now <= later
    ensures var once := ExpireStep(l, policy, now);
            once.outcome.Done? ==> ExpireStep(once.life, policy, later) == Step(once.life, Done)
  {
    hide ExpireStep, HasPendings, HasProhibitions, Validate, Settled;
    ExpireExact(l, policy, now);
    if ExpireStep(l, policy, now).outcome.Done? {
      ExpiredStays(l, ExpireStep(l, policy, now).life, policy, now, later);
    }
  }

  lemma ExpiredStays(l: Life, once: Life, policy: Policy, now: Instant, later: Instant)
    requires Validate(l.status) && now <= later && ExpireStep(l, policy, now) == Step(once, Done)
    ensures ExpireStep(once, policy, later) == Step(once, Done)
  {
    hide ExpireStep, HasPendings, HasProhibitions, Validate;
    ExpireExact(l, policy, now);
    forall f | f in once.status && IsPending(f)
      ensures f == PendingDelete
    {
      assert f in Core(once.status);
    }
    assert ServerDeleteProhibited !in Core(once.status);
    ExpireExact(once, policy, later);
    var twice := ExpireStep(once, policy, later).life;
    assert Core(twice.status) == Core(once.status);
    SettledIsDetermined(once.status, twice.status, HasHosts(l));
  }

  /** Exactly when a restore is accepted, and that it trades one pending flag for the other. */
  lemma RestoreExact(l: Life, now: Instant)
    requires Validate(l.status)
    ensures var r := RestoreStep(l, now);
            && (r.outcome.Done? <==>
                  && now < l.rgp.redemptionPeriodEnd && PendingDelete in l.status
                  && ClientUpdateProhibited !in l.status && ServerUpdateProhibited !in l.status)
            && (r.outcome.Done? ==>
                  && Validate(r.life.status) && Settled(r.life.status, HasHosts(l))
                  && r.life == l.(status := r.life.status, upRr := l.clID)
                  && Core(r.life.status) == Core(l.status) - {PendingDelete} + {PendingRestore})
  {
    hide Validate, Settled, SetStatus, UnSetStatus, HasPendings, HasProhibitions;
    ValidateIsRfc5731(l.status);
    UnSetStatusExact(l.status, Named(PendingDelete), HasHosts(l));
    var unset := UnSetStatusStep(l, Named(PendingDelete)).life;
    if CanBeRestored(l, now) && !UpdateProhibited(l.status) {
      RestoreFits(l.status, unset.status);
      hide Rfc5731, Fits;
      SetStatusExact(unset.status, Named(PendingRestore), HasHosts(l));
    }
  }

  /** Without its pending delete a valid status has room for a pending restore. */
  lemma RestoreFits(st: DomainStatus, unset: DomainStatus)
    requires Rfc5731(st) && PendingDelete in st && Core(unset) == Core(st) - {PendingDelete}
    ensures Fits(unset, PendingRestore)
    ensures UpdateProhibited(unset) <==> UpdateProhibited(st)
  {
    hide Core;
    forall f
      ensures f in unset && f != OK && f != Inactive <==> f in st && f != PendingDelete && f != OK && f != Inactive
    {
      InCore(unset, f);
      InCore(st, f);
    }
  }

  /**
   * Exactly when a delete command is accepted - `CanBeDeleted` alone does not decide it - and the
   * dates it sets: no waiting during the add period, the policy's periods afterwards.
   */
  lemma MarkForDeletionExact(l: Life, policy: Policy, t0: Instant, t1: Instant, t2: Instant)
    requires Validate(l.status)
    ensures var r := MarkForDeletionStep(l, policy, t0, t1, t2);
            && (r.outcome.Done? <==>
                  && ClientDeleteProhibited !in l.status && ServerDeleteProhibited !in l.status
                  && ClientUpdateProhibited !in l.status && ServerUpdateProhibited !in l.status
                  && forall f | f in l.status :: !IsPending(f))
            && (r.outcome.Done? ==>
                  && Validate(r.life.status) && Settled(r.life.status, HasHosts(l))
                  && Core(r.life.status) == Core(l.status) + {PendingDelete}
                  && r.life == l.(status := r.life.status, upRr := l.clID,
                                  rgp := l.rgp.(redemptionPeriodEnd := if t0 < l.rgp.addPeriodEnd then t1
                                                                       else t1 + policy.redemptionGP * DAY,
                                                purgeDate := if t0 < l.rgp.addPeriodEnd then t2
                                                             else t1 + (policy.redemptionGP + policy.pendingDeleteGP) * DAY)))
  {
    hide Validate, Settled, SetStatus, HasPendings, HasProhibitions;
    BusyMeansFlag(l.status);
    SetStatusExact(l.status, Named(PendingDelete), HasHosts(l));
    if CanBeDeleted(l) && !HasPendings(l.status) {
      assert forall g :: g in l.status ==> PendingDelete !in OwnProhibitions(g);
    }
  }
}
