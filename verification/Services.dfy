/**
 * The service operations that the workflows call: load a stored domain, let the domain object do the
 * work, and store the result only when it succeeded. These operations load the domain without its
 * hosts, which is why they can make a domain look inactive.
 */
module Services {
  import opened Outcomes
  import opened Calendar
  import opened DomainStatuses
  import opened Lifecycle
  import opened Domains

  /** What the operations read besides the domain: the policy of each TLD's current GA phase, each
      registrar's auto-renew choice, and the domains that can be quoted for a renewal and for an
      automatic renewal. */
  datatype Env = Env(policies: map<string, Policy>, autoRenew: map<string, bool>, quotable: set<string>, autoQuotable: set<string>)

  function PolicyOf(env: Env, l: Life): Option<Policy> {
    var tld := ParentDomain(l.name);
    if tld in env.policies then Some(env.policies[tld]) else None
  }

  function WithoutHosts(l: Life): Life { l.(hosts := []) }

  /** The record after an operation on the domain loaded without hosts. */
  function Committed(l: Life, r: Step): Life {
    if r.outcome.Done? then r.life.(hosts := l.hosts) else l
  }

  // --- The operations as functions on one record ----------------------------------------------

  datatype Check = Check(answer: bool, outcome: Outcome)

  function CanAutoRenew(env: Env, l: Life): Check {
    if !CanBeRenewed(l) then Check(false, Done)
    else if PolicyOf(env, l).None? then Check(false, Fail(NoActivePhase))
    else if PolicyOf(env, l).value.allowAutoRenew == Some(false) then Check(false, Done)
    else if l.clID !in env.autoRenew then Check(false, Fail(RegistrarNotFound))
    else Check(env.autoRenew[l.clID], Done)
  }

  function AutoRenewed(env: Env, l: Life, years: int, now: Instant): Step {
    var phase := PolicyOf(env, l);
    if phase.None? then Step(l, Fail(NoActivePhase))
    else if phase.value.allowAutoRenew == Some(false) then Step(l, Fail(AutoRenewNotEnabled))
    else if l.clID !in env.autoRenew then Step(l, Fail(RegistrarNotFound))
    else if !env.autoRenew[l.clID] then Step(l, Fail(AutoRenewNotEnabled))
    else if l.name !in env.autoQuotable then Step(l, Fail(QuoteFailed))
    else RenewStep(l, years, true, phase, now, now)
  }

  function Renewed(env: Env, l: Life, clID: string, years: int, force: bool, now: Instant): Step {
    var phase := PolicyOf(env, l);
    if l.clID != clID then Step(l, Fail(InvalidRegistrar))
    else if phase.None? then Step(l, Fail(NoActivePhase))
    else if l.name !in env.quotable then Step(l, Fail(QuoteFailed))
    else if force then ForceRenewStep(l, years, false, phase, now)
    else RenewStep(l, years, false, phase, now, now)
  }

  function Expired(env: Env, l: Life, now: Instant): Step {
    if PolicyOf(env, l).None? then Step(l, Fail(NoActivePhase))
    else ExpireStep(l, PolicyOf(env, l).value, now)
  }

  function Marked(env: Env, l: Life, t0: Instant, t1: Instant, t2: Instant): Step {
    if PolicyOf(env, l).None? then Step(l, Fail(NoActivePhase))
    else MarkForDeletionStep(l, PolicyOf(env, l).value, t0, t1, t2)
  }

  /** A restore is quoted as an automatic renewal. */
  function Restored(env: Env, l: Life, now: Instant): Step {
    if PolicyOf(env, l).None? then Step(l, Fail(NoActivePhase))
    else if l.name !in env.autoQuotable then Step(l, Fail(QuoteFailed))
    else RestoreStep(l, now)
  }

  // --- The service ----------------------------------------------------------------------------

  class DomainService {
    const env: Env
    var records: map<string, Life>

    constructor (env: Env, records: map<string, Life>)
      ensures this.env == env && this.records == records
    {
      this.env, this.records := env, records;
    }

    method Load(name: string) returns (dom: Domain)
      requires name in records
      ensures fresh(dom) && fresh(dom.backing) && dom.Valid()
      ensures dom.Value() == WithoutHosts(records[name])
    {
      dom := new Domain.Load(WithoutHosts(records[name]));
    }

    method Commit(name: string, dom: Domain)
      requires name in records && dom.Valid()
      modifies `records
      ensures records == old(records)[name := dom.Value().(hosts := old(records)[name].hosts)]
    {
      records := records[name := dom.Value().(hosts := records[name].hosts)];
    }

    method SetStatus(name: string, s: StatusValue) returns (outcome: Outcome)
      modifies `records
      ensures name !in old(records) ==> outcome.Fail? && records == old(records)
      ensures name in old(records) ==>
                var l := old(records)[name];
                && outcome == SetStatusStep(WithoutHosts(l), s).outcome
                && records == old(records)[name := Committed(l, SetStatusStep(WithoutHosts(l), s))]
    {
      if s.Unknown? {
        return Fail(if name in records then InvalidStatus else DomainNotFound);
      }
      if name !in records {
        return Fail(DomainNotFound);
      }
      var dom := Load(name);
      outcome := dom.SetStatus(s);
      if outcome.Done? {
        Commit(name, dom);
      }
    }

    method UnSetStatus(name: string, s: StatusValue) returns (outcome: Outcome)
      modifies `records
      ensures name !in old(records) ==> outcome.Fail? && records == old(records)
      ensures name in old(records) ==>
                var l := old(records)[name];
                && outcome == UnSetStatusStep(WithoutHosts(l), s).outcome
                && records == old(records)[name := Committed(l, UnSetStatusStep(WithoutHosts(l), s))]
    {
      if s.Unknown? {
        return Fail(if name in records then InvalidStatus else DomainNotFound);
      }
      if name !in records {
        return Fail(DomainNotFound);
      }
      var dom := Load(name);
      outcome := dom.UnSetStatus(s);
      if outcome.Done? {
        Commit(name, dom);
      }
    }

    method CheckAutoRenew(name: string) returns (answer: bool, outcome: Outcome)
      ensures name !in records ==> outcome == Fail(DomainNotFound)
      ensures name in records ==> Check(answer, outcome) == CanAutoRenew(env, WithoutHosts(records[name]))
    {
      if name !in records {
        return false, Fail(DomainNotFound);
      }
      var dom := Load(name);
      if ClientRenewProhibited in dom.status || ServerRenewProhibited in dom.status || HasPendings(dom.status) {
        return false, Done;
      }
      var phase := PolicyOf(env, dom.Value());
      if phase.None? {
        return false, Fail(NoActivePhase);
      }
      if phase.value.allowAutoRenew == Some(false) {
        return false, Done;
      }
      if dom.clID !in env.autoRenew {
        return false, Fail(RegistrarNotFound);
      }
      return env.autoRenew[dom.clID], Done;
    }

    method AutoRenewDomain(name: string, years: int, now: Instant) returns (outcome: Outcome)
      modifies `records
      ensures name !in old(records) ==> outcome.Fail? && records == old(records)
      ensures name in old(records) ==>
                var l := old(records)[name];
                && outcome == AutoRenewed(env, WithoutHosts(l), years, now).outcome
                && records == old(records)[name := Committed(l, AutoRenewed(env, WithoutHosts(l), years, now))]
    {
      if name !in records {
        return Fail(DomainNotFound);
      }
      var dom := Load(name);
      var phase := PolicyOf(env, dom.Value());
      if phase.None? {
        return Fail(NoActivePhase);
      }
      if phase.value.allowAutoRenew == Some(false) {
        return Fail(AutoRenewNotEnabled);
      }
      if dom.clID !in env.autoRenew {
        return Fail(RegistrarNotFound);
      }
      if !env.autoRenew[dom.clID] {
        return Fail(AutoRenewNotEnabled);
      }
      if dom.name !in env.autoQuotable {
        return Fail(QuoteFailed);
      }
      outcome := dom.Renew(years, true, phase, now, now);
      if outcome.Done? {
        Commit(name, dom);
      }
    }

    method RenewDomain(name: string, clID: string, years: int, force: bool, now: Instant) returns (outcome: Outcome)
      modifies `records
      ensures name !in old(records) ==> outcome.Fail? && records == old(records)
      ensures name in old(records) ==>
                var l := old(records)[name];
                && outcome == Renewed(env, WithoutHosts(l), clID, years, force, now).outcome
                && records == old(records)[name := Committed(l, Renewed(env, WithoutHosts(l), clID, years, force, now))]
    {
      if name !in records {
        return Fail(DomainNotFound);
      }
      var dom := Load(name);
      if dom.clID != clID {
        return Fail(InvalidRegistrar);
      }
      var phase := PolicyOf(env, dom.Value());
      if phase.None? {
        return Fail(NoActivePhase);
      }
      if dom.name !in env.quotable {
        return Fail(QuoteFailed);
      }
      if force {
        outcome := dom.ForceRenew(years, false, phase, now);
      } else {
        outcome := dom.Renew(years, false, phase, now, now);
      }
      if outcome.Done? {
        Commit(name, dom);
      }
    }

    method ExpireDomain(name: string, now: Instant) returns (outcome: Outcome)
      modifies `records
      ensures name !in old(records) ==> outcome.Fail? && records == old(records)
      ensures name in old(records) ==>
                var l := old(records)[name];
                && outcome == Expired(env, WithoutHosts(l), now).outcome
                && records == old(records)[name := Committed(l, Expired(env, WithoutHosts(l), now))]
    {
      if name !in records {
        return Fail(DomainNotFound);
      }
      var dom := Load(name);
      var phase := PolicyOf(env, dom.Value());
      if phase.None? {
        return Fail(NoActivePhase);
      }
      outcome := dom.Expire(phase.value, now);
      if outcome.Done? {
        Commit(name, dom);
      }
    }

    method MarkDomainForDeletion(name: string, t0: Instant, t1: Instant, t2: Instant) returns (outcome: Outcome)
      requires t0 <= t1 <= t2
      modifies `records
      ensures name !in old(records) ==> outcome.Fail? && records == old(records)
      ensures name in old(records) ==>
                var l := old(records)[name];
                && outcome == Marked(env, WithoutHosts(l), t0, t1, t2).outcome
                && records == old(records)[name := Committed(l, Marked(env, WithoutHosts(l), t0, t1, t2))]
    {
      if name !in records {
        return Fail(DomainNotFound);
      }
      var dom := Load(name);
      var phase := PolicyOf(env, dom.Value());
      if phase.None? {
        return Fail(NoActivePhase);
      }
      outcome := dom.MarkForDeletion(phase.value, t0, t1, t2);
      if outcome.Done? {
        Commit(name, dom);
      }
    }

    method RestoreDomain(name: string, now: Instant) returns (outcome: Outcome)
      modifies `records
      ensures name !in old(records) ==> outcome.Fail? && records == old(records)
      ensures name in old(records) ==>
                var l := old(records)[name];
                && outcome == Restored(env, WithoutHosts(l), now).outcome
                && records == old(records)[name := Committed(l, Restored(env, WithoutHosts(l), now))]
    {
      if name !in records {
        return Fail(DomainNotFound);
      }
      var dom := Load(name);
      var phase := PolicyOf(env, dom.Value());
      if phase.None? {
        return Fail(NoActivePhase);
      }
      if dom.name !in env.autoQuotable {
        return Fail(QuoteFailed);
      }
      outcome := dom.Restore(now);
      if outcome.Done? {
        Commit(name, dom);
      }
    }
  }

  // --- Exactly when the operations succeed ----------------------------------------------------

  /** The registrar wants automatic renewals and the policy does not forbid them. */
  predicate AutoRenewalWanted(env: Env, l: Life) {
    && PolicyOf(env, l).Some? && PolicyOf(env, l).value.allowAutoRenew != Some(false)
    && l.clID in env.autoRenew && env.autoRenew[l.clID]
  }

  /** Exactly when the check answers yes, and exactly when it fails. */
  lemma CanAutoRenewExact(env: Env, l: Life)
    ensures var c := CanAutoRenew(env, l);
            var policy := PolicyOf(env, l);
            && (c.answer <==> Renewable(l) && AutoRenewalWanted(env, l))
            && (c.outcome == Fail(NoActivePhase) <==> Renewable(l) && policy.None?)
            && (c.outcome == Fail(RegistrarNotFound) <==>
                  Renewable(l) && policy.Some? && policy.value.allowAutoRenew != Some(false) && l.clID !in env.autoRenew)
            && (c.outcome.Fail? ==> c.outcome.error in {NoActivePhase, RegistrarNotFound} && !c.answer)
  {
    hide ParentDomain;
    BusyMeansFlag(l.status);
  }

  /** An automatic renewal succeeds exactly when it is wanted, quoted and possible. */
  lemma AutoRenewedExact(env: Env, l: Life, years: int, now: Instant)
    ensures var r := AutoRenewed(env, l, years, now);
            && (r.outcome.Done? <==>
                  && AutoRenewalWanted(env, l) && l.name in env.autoQuotable && years != 0 && Renewable(l)
                  && AddYears(l.expiryDate, years) <= AddYears(now, PolicyOf(env, l).value.maxHorizon))
            && (r.outcome.Done? ==> ExtendedBy(l, r.life, years, true, PolicyOf(env, l).value, now))
            && (r.outcome.Fail? ==> r.life == l)
  {
    hide ParentDomain, AddYears, RenewStep, ExtendedBy;
    RenewExact(l, years, true, PolicyOf(env, l), now, now);
  }

  /** A registrar's renewal succeeds exactly for its own domains, quoted, and unless forced only when possible. */
  lemma RenewedExact(env: Env, l: Life, clID: string, years: int, force: bool, now: Instant)
    ensures var r := Renewed(env, l, clID, years, force, now);
            && (r.outcome.Done? <==>
                  && l.clID == clID && PolicyOf(env, l).Some? && l.name in env.quotable && years != 0
                  && (force || (Renewable(l) && AddYears(l.expiryDate, years) <= AddYears(now, PolicyOf(env, l).value.maxHorizon))))
            && (r.outcome.Done? ==> ExtendedBy(l, r.life, years, false, PolicyOf(env, l).value, now))
            && (r.outcome.Fail? ==> r.life == l)
  {
    hide ParentDomain, AddYears, RenewStep, ForceRenewStep, ExtendedBy;
    RenewExact(l, years, false, PolicyOf(env, l), now, now);
    ForceRenewExact(l, years, false, PolicyOf(env, l), now);
  }

  /** An expiry, a delete and a restore need a current phase, and a restore a quote, besides what the domain demands. */
  lemma EndOfLifeExact(env: Env, l: Life, now: Instant, t1: Instant, t2: Instant)
    requires Validate(l.status)
    ensures Expired(env, l, now).outcome.Done? <==> PolicyOf(env, l).Some? && Expirable(l, now)
    ensures Marked(env, l, now, t1, t2).outcome.Done? <==>
              && PolicyOf(env, l).Some?
              && l.status !! {ClientDeleteProhibited, ServerDeleteProhibited, ClientUpdateProhibited, ServerUpdateProhibited}
              && forall f | f in l.status :: !IsPending(f)
    ensures Restored(env, l, now).outcome.Done? <==>
              && PolicyOf(env, l).Some? && l.name in env.autoQuotable
              && now < l.rgp.redemptionPeriodEnd && PendingDelete in l.status
              && l.status !! {ClientUpdateProhibited, ServerUpdateProhibited}
    ensures PolicyOf(env, l).Some? ==>
              && Expired(env, l, now) == ExpireStep(l, PolicyOf(env, l).value, now)
              && Marked(env, l, now, t1, t2) == MarkForDeletionStep(l, PolicyOf(env, l).value, now, t1, t2)
    ensures Restored(env, l, now).outcome.Done? ==> Restored(env, l, now) == RestoreStep(l, now)
  {
    hide ParentDomain, ExpireStep, MarkForDeletionStep, RestoreStep, Validate, Settled, IsPending;
    RestoreExact(l, now);
    if PolicyOf(env, l).Some? {
      ExpireExact(l, PolicyOf(env, l).value, now);
      MarkForDeletionExact(l, PolicyOf(env, l).value, now, t1, t2);
    }
  }

  // --- What loading without hosts does-----------------------------------------------------

  /** `inactive` is set, which tells the truth exactly about domains without hosts. */
  predicate LooksInactive(l: Life) {
    Inactive in l.status && (Settled(l.status, HasHosts(l)) <==> !HasHosts(l))
  }

  /**
   * Whatever changes a flag through the service - set, unset, expiry, delete or restore - makes the
   * stored domain look inactive.
   */
  lemma ServiceForgetsHosts(env: Env, l: Life, s: StatusValue, now: Instant, t1: Instant, t2: Instant)
    requires Validate(l.status)
    ensures forall r | r in {SetStatusStep(WithoutHosts(l), s), UnSetStatusStep(WithoutHosts(l), s),
                             Expired(env, WithoutHosts(l), now), Marked(env, WithoutHosts(l), now, t1, t2),
                             Restored(env, WithoutHosts(l), now)} ::
              r.outcome.Done? ==> LooksInactive(Committed(l, r))
  {
    hide SetStatus, UnSetStatus, ExpireStep, RestoreStep, MarkForDeletionStep, Validate, HasPendings, HasProhibitions;
    SetStatusExact(l.status, s, false);
    UnSetStatusExact(l.status, s, false);
    RestoreExact(WithoutHosts(l), now);
    if PolicyOf(env, l).Some? {
      ExpireExact(WithoutHosts(l), PolicyOf(env, l).value, now);
      MarkForDeletionExact(WithoutHosts(l), PolicyOf(env, l).value, now, t1, t2);
    }
  }
}
