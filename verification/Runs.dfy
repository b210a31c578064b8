/**
 * Whole runs of a domain: any sequence of operations and clock ticks, each operation committed only
 * when it succeeds. What every such run keeps is proved here.
 */
module Runs {
  import opened Outcomes
  import opened Calendar
  import opened DomainStatuses
  import opened Lifecycle
  import H = Hosts

  /** An operation, with the time that passes before its later readings of the clock. */
  datatype Event =
    | Tick(dt: nat)
    | SetFlag(s: StatusValue)
    | UnSetFlag(s: StatusValue)
    | AddHost(host: H.Host, hasAddress: bool, ignoreUpdateProhibitions: bool, linking: Outcome)
    | RemoveHost(hostName: string)
    | Delete(policy: Policy, dt1: nat, dt2: nat)
    | Expire(policy: Policy)
    | Restore
    | Renew(years: int, isAutoRenew: bool, phase: Option<Policy>, dt: nat)
    | ForceRenew(years: int, isAutoRenew: bool, phase: Option<Policy>)

  datatype World = World(life: Life, now: Instant)

  function Attempt(w: World, e: Event): Step {
    match e
    case Tick(_) => Step(w.life, Done)
    case SetFlag(s) => SetStatusStep(w.life, s)
    case UnSetFlag(s) => UnSetStatusStep(w.life, s)
    case AddHost(host, hasAddress, ignore, linking) => AddHostStep(w.life, host, hasAddress, ignore, linking)
    case RemoveHost(name) => RemoveHostStep(w.life, name)
    case Delete(policy, dt1, dt2) => MarkForDeletionStep(w.life, policy, w.now, w.now + dt1, w.now + dt1 + dt2)
    case Expire(policy) => ExpireStep(w.life, policy, w.now)
    case Restore => RestoreStep(w.life, w.now)
    case Renew(years, auto, phase, dt) => RenewStep(w.life, years, auto, phase, w.now, w.now + dt)
    case ForceRenew(years, auto, phase) => ForceRenewStep(w.life, years, auto, phase, w.now)
  }

  function Elapsed(e: Event): nat {
    match e
    case Tick(dt) => dt
    case Delete(_, dt1, dt2) => dt1 + dt2
    case Renew(_, _, _, dt) => dt
    case _ => 0
  }

  /** The operation's effect as persisted: nothing when it failed. */
  function Next(w: World, e: Event): World {
    var r := Attempt(w, e);
    World(if r.outcome.Done? then r.life else w.life, w.now + Elapsed(e))
  }

  function Run(w: World, events: seq<Event>): World
    decreases |events|
  {
    if events == [] then w else Run(Next(w, events[0]), events[1..])
  }

  /** The domain as it is first stored. */
  function Registered(name: string, clID: string, policy: Policy, years: int, t0: Instant, dt1: nat, dt2: nat): World {
    World(Register(name, clID, Some(policy), years, t0, t0 + dt1, t0 + dt1 + dt2).life, t0 + dt1 + dt2)
  }

  // --- Status flags ---------------------------------------------------------------------------

  predicate Untouched(l: Life) { l.status == NEW_STATUS && l.hosts == [] }

  /** The invariant of the flags: valid, and settled unless nothing has happened to the domain yet. */
  predicate StatusInv(l: Life) {
    Validate(l.status) && (Untouched(l) || Settled(l.status, HasHosts(l)))
  }

  predicate TouchesStatus(e: Event) {
    e.SetFlag? || e.UnSetFlag? || e.AddHost? || e.RemoveHost? || e.Delete? || e.Expire? || e.Restore?
  }

  lemma AddHostSettles(l: Life, host: H.Host, hasAddress: bool, ignore: bool, linking: Outcome)
    requires StatusInv(l) && AddHostStep(l, host, hasAddress, ignore, linking).outcome.Done?
    ensures var after := AddHostStep(l, host, hasAddress, ignore, linking).life;
            Validate(after.status) && Settled(after.status, HasHosts(after))
  {
    hide IndexOf, ParentDomain, SetOKIfNeeded, FollowHosts, Validate, Settled;
    AttachingSettles(l.status);
  }

  lemma RemoveHostSettles(l: Life, name: string)
    requires StatusInv(l) && RemoveHostStep(l, name).outcome.Done?
    ensures var after := RemoveHostStep(l, name).life;
            Validate(after.status) && Settled(after.status, HasHosts(after))
  {
  }

  lemma StepKeepsStatus(w: World, e: Event)
    requires StatusInv(w.life)
    ensures StatusInv(Next(w, e).life)
    ensures TouchesStatus(e) && Attempt(w, e).outcome.Done? ==>
              Settled(Next(w, e).life.status, HasHosts(Next(w, e).life))
    ensures !TouchesStatus(e) ==> Next(w, e).life.status == w.life.status && Next(w, e).life.hosts == w.life.hosts
  {
    hide SetStatus, UnSetStatus, Validate, Settled, AddHostStep, RemoveHostStep, RestoreStep, ExpireStep;
    var l := w.life;
    if Attempt(w, e).outcome.Done? {
      match e
      case SetFlag(s) => SetStatusExact(l.status, s, HasHosts(l));
      case UnSetFlag(s) => UnSetStatusExact(l.status, s, HasHosts(l));
      case AddHost(host, hasAddress, ignore, linking) => AddHostSettles(l, host, hasAddress, ignore, linking);
      case RemoveHost(name) => RemoveHostSettles(l, name);
      case Delete(policy, dt1, dt2) => SetStatusExact(l.status, Named(PendingDelete), HasHosts(l));
      case Expire(policy) => ExpireExact(l, policy, w.now);
      case Restore => RestoreExact(l, w.now);
      case _ =>
    }
  }

  /** Whether the run contains a successful change of a flag or of the hosts. */
  predicate Touched(w: World, events: seq<Event>)
    decreases |events|
  {
    events != [] &&
    ((TouchesStatus(events[0]) && Attempt(w, events[0]).outcome.Done?) || Touched(Next(w, events[0]), events[1..]))
  }

  /**
   * Every status reached from a valid one obeys RFC 5731; once any flag or host has changed, `ok`
   * holds exactly when nothing is pending or prohibited and `inactive` exactly when there are no hosts.
   */
  lemma {:induction false} EveryRunKeepsStatus(w: World, events: seq<Event>)
    requires StatusInv(w.life)
    ensures var l := Run(w, events).life;
            && Rfc5731(l.status)
            && StatusInv(l)
            && (Touched(w, events) || Settled(w.life.status, HasHosts(w.life)) ==> Settled(l.status, HasHosts(l)))
    decreases |events|
  {
    hide Validate, Settled, Attempt;
    ValidateIsRfc5731(w.life.status);
    if events != [] {
      StepKeepsStatus(w, events[0]);
      EveryRunKeepsStatus(Next(w, events[0]), events[1..]);
    }
  }

  lemma NewStatusIsValid()
    ensures Validate(NEW_STATUS) && Fits(NEW_STATUS, PendingCreate) && Refusal(NEW_STATUS, Named(PendingCreate)).Done?
  {
  }

  /** A registration starts with a status that fits the runs below. */
  lemma RegistrationStartsValid(name: string, clID: string, policy: Policy, years: int, t0: Instant, dt1: nat, dt2: nat)
    requires years != 0
    ensures Register(name, clID, Some(policy), years, t0, t0 + dt1, t0 + dt1 + dt2).outcome.Done?
    ensures var l := Registered(name, clID, policy, years, t0, dt1, dt2).life;
            StatusInv(l) && l.hosts == [] && l.rgp.redemptionPeriodEnd <= l.rgp.purgeDate
  {
    hide SetStatus, Validate, Settled, Fits, Refusal, AddYears;
    NewStatusIsValid();
    SetStatusExact(NEW_STATUS, Named(PendingCreate), false);
  }

  // --- Hosts ----------------------------------------------------------------------------------

  predicate HostsInv(l: Life) {
    && |l.hosts| <= MAX_HOSTS_PER_DOMAIN
    && (forall i, j :: 0 <= i < j < |l.hosts| ==> l.hosts[i].name != l.hosts[j].name)
    && (forall i :: 0 <= i < |l.hosts| ==> l.hosts[i].clID == l.clID)
  }

  lemma StepKeepsHosts(w: World, e: Event)
    requires HostsInv(w.life)
    ensures HostsInv(Next(w, e).life)
  {
    hide SetStatus, UnSetStatus, AddHostStep, RemoveHostStep, HostsInv;
    var after := Next(w, e).life;
    if e.Expire? {
      UnSetEachKeeps(w.life, CONFLICTS_WITH_EXPIRY);
    }
    if e.AddHost? {
      AddingKeepsHosts(w.life, e.host, e.hasAddress, e.ignoreUpdateProhibitions, e.linking);
    } else if e.RemoveHost? {
      RemovingKeepsHosts(w.life, e.hostName);
    } else {
      assert after.hosts == w.life.hosts && after.clID == w.life.clID;
      SameHosts(w.life, after);
    }
  }

  lemma SameHosts(l: Life, after: Life)
    requires HostsInv(l) && after.hosts == l.hosts && after.clID == l.clID
    ensures HostsInv(after)
  {
  }

  lemma AddingKeepsHosts(l: Life, host: H.Host, hasAddress: bool, ignore: bool, linking: Outcome)
    requires HostsInv(l)
    ensures var r := AddHostStep(l, host, hasAddress, ignore, linking);
            r.outcome.Done? ==> HostsInv(r.life)
  {
    hide SetOKIfNeeded, FollowHosts, CanBeUpdated, ParentDomain;
  }

  lemma RemovingKeepsHosts(l: Life, name: string)
    requires HostsInv(l)
    ensures var r := RemoveHostStep(l, name);
            r.outcome.Done? ==> HostsInv(r.life)
  {
    hide FollowHosts;
  }

  lemma {:induction false} UnSetEachKeeps(l: Life, flags: seq<Flag>)
    ensures UnSetEach(l, flags).life == l.(status := UnSetEach(l, flags).life.status)
    decreases |flags|
  {
    hide UnSetStatus;
    if flags != [] {
      UnSetEachKeeps(UnSetStatusStep(l, Named(flags[0])).life, flags[1..]);
    }
  }

  /** A domain's hosts always have distinct names, are at most ten, and share its sponsor. */
  lemma {:induction false} EveryRunKeepsHosts(w: World, events: seq<Event>)
    requires HostsInv(w.life)
    ensures HostsInv(Run(w, events).life)
    decreases |events|
  {
    if events != [] {
      StepKeepsHosts(w, events[0]);
      EveryRunKeepsHosts(Next(w, events[0]), events[1..]);
    }
  }

  // --- End-of-life dates ----------------------------------------------------------------------

  predicate NonNegativeGrace(e: Event) {
    (e.Delete? || e.Expire?) ==> e.policy.pendingDeleteGP >= 0
  }

  lemma StepKeepsEndDates(w: World, e: Event)
    requires NonNegativeGrace(e)
    requires w.life.rgp.redemptionPeriodEnd <= w.life.rgp.purgeDate
    ensures Next(w, e).life.rgp.redemptionPeriodEnd <= Next(w, e).life.rgp.purgeDate
  {
    hide SetStatus, UnSetStatus, SetOKIfNeeded;
    if e.Expire? {
      UnSetEachKeeps(w.life, CONFLICTS_WITH_EXPIRY);
    }
  }

  /** The redemption period never outlasts the purge date, so no domain is both restorable and purgeable. */
  lemma {:induction false} EveryRunKeepsEndDates(w: World, events: seq<Event>)
    requires w.life.rgp.redemptionPeriodEnd <= w.life.rgp.purgeDate
    requires forall i :: 0 <= i < |events| ==> NonNegativeGrace(events[i])
    ensures var l := Run(w, events).life;
            && l.rgp.redemptionPeriodEnd <= l.rgp.purgeDate
            && forall now :: !(CanBeRestored(l, now) && CanBePurged(l, now))
    decreases |events|
  {
    if events != [] {
      StepKeepsEndDates(w, events[0]);
      EveryRunKeepsEndDates(Next(w, events[0]), events[1..]);
    }
  }

  /** The invariants above hold of every domain that was ever registered, whatever happened to it since. */
  lemma EveryReachableDomain(name: string, clID: string, policy: Policy, years: int,
                             t0: Instant, dt1: nat, dt2: nat, events: seq<Event>)
    requires years != 0
    ensures var l := Run(Registered(name, clID, policy, years, t0, dt1, dt2), events).life;
            && Rfc5731(l.status) && (Untouched(l) || Settled(l.status, HasHosts(l)))
            && (Touched(Registered(name, clID, policy, years, t0, dt1, dt2), events) ==> Settled(l.status, HasHosts(l)))
            && HostsInv(l)
            && ((forall i :: 0 <= i < |events| ==> NonNegativeGrace(events[i])) ==>
                  l.rgp.redemptionPeriodEnd <= l.rgp.purgeDate
                  && forall now :: !(CanBeRestored(l, now) && CanBePurged(l, now)))
  {
    hide Run, Validate, Settled, Touched;
    var start := Registered(name, clID, policy, years, t0, dt1, dt2);
    RegistrationStartsValid(name, clID, policy, years, t0, dt1, dt2);
    hide Registered, StatusInv;
    EveryRunKeepsStatus(start, events);
    InvUnfolds(Run(start, events).life);
    EveryRunKeepsHosts(start, events);
    if forall i :: 0 <= i < |events| ==> NonNegativeGrace(events[i]) {
      EveryRunKeepsEndDates(start, events);
    }
  }

  lemma InvUnfolds(l: Life)
    requires StatusInv(l)
    ensures Untouched(l) || Settled(l.status, HasHosts(l))
  {
  }

  // --- Renewed years --------------------------------------------------------------------------

  predicate YearsInv(l: Life) {
    l.renewedYears == Year(l.expiryDate) - Year(l.createdAt) - 1
  }

  lemma StepKeepsYears(w: World, e: Event)
    requires YearsInv(w.life)
    ensures YearsInv(Next(w, e).life)
  {
    hide SetStatus, UnSetStatus, SetOKIfNeeded, Year, AddYears;
    match e
    case Expire(_) => UnSetEachKeeps(w.life, CONFLICTS_WITH_EXPIRY);
    case Renew(years, _, _, _) => AddYearsLands(w.life.expiryDate, years);
    case ForceRenew(years, _, _) => AddYearsLands(w.life.expiryDate, years);
    case _ =>
  }

  lemma {:induction false} RunKeepsYears(w: World, events: seq<Event>)
    requires YearsInv(w.life)
    ensures YearsInv(Run(w, events).life)
    decreases |events|
  {
    if events != [] {
      StepKeepsYears(w, events[0]);
      RunKeepsYears(Next(w, events[0]), events[1..]);
    }
  }

  /**
   * From registration on, and whatever happens, the count of renewed years that the operations keep
   * is the number that an escrow import recomputes from the two dates.
   */
  lemma RenewedYearsAgreeWithImport(name: string, clID: string, policy: Policy, years: int,
                                    t0: Instant, dt1: nat, dt2: nat, events: seq<Event>)
    requires years != 0
    ensures var l := Run(Registered(name, clID, policy, years, t0, dt1, dt2), events).life;
            l.renewedYears == Year(l.expiryDate) - Year(l.createdAt) - 1
  {
    hide Year, AddYears;
    RegistrationStartsValid(name, clID, policy, years, t0, dt1, dt2);
    AddYearsLands(t0, years);
    RunKeepsYears(Registered(name, clID, policy, years, t0, dt1, dt2), events);
  }

  // --- The registration horizon ---------------------------------------------------------------

  /** Not a forced renewal, and checked against this horizon. */
  predicate WithinHorizon(e: Event, horizon: int) {
    && !e.ForceRenew?
    && (e.Renew? && e.phase.Some? ==> e.phase.value.maxHorizon == horizon)
  }

  lemma StepKeepsHorizon(w: World, e: Event, horizon: int, t: Instant) returns (u: Instant)
    requires t <= w.now && w.life.expiryDate <= AddYears(t, horizon) && WithinHorizon(e, horizon)
    ensures u <= Next(w, e).now && Next(w, e).life.expiryDate <= AddYears(u, horizon)
  {
    hide SetStatus, UnSetStatus, SetOKIfNeeded, AddYears;
    if e.Expire? {
      UnSetEachKeeps(w.life, CONFLICTS_WITH_EXPIRY);
    }
    u := if e.Renew? && Attempt(w, e).outcome.Done? then w.now else t;
  }

  /** The expiry date lies within the horizon as seen at some earlier moment of the run. */
  lemma {:induction false} RunKeepsHorizon(w: World, events: seq<Event>, horizon: int, t: Instant) returns (u: Instant)
    requires t <= w.now && w.life.expiryDate <= AddYears(t, horizon)
    requires forall i :: 0 <= i < |events| ==> WithinHorizon(events[i], horizon)
    ensures u <= Run(w, events).now && Run(w, events).life.expiryDate <= AddYears(u, horizon)
    decreases |events|
  {
    u := t;
    if events != [] {
      u := StepKeepsHorizon(w, events[0], horizon, t);
      u := RunKeepsHorizon(Next(w, events[0]), events[1..], horizon, u);
    }
  }

  /** The moments at which an earlier horizon can lie beyond the current one: 1 March after a leap day. */
  predicate HorizonSlips(now: Instant, horizon: int) {
    && OnFirstOfMarch(now) && IsLeap(Year(now)) && !IsLeap(Year(now) + horizon)
    && TimeOfDay(now) < DAY - 1
  }

  /**
   * Over every run without forced renewals an expiry date stays within the horizon, except that for
   * the rest of a 1 March it can exceed it, by less than a day.
   */
  lemma EveryRunKeepsHorizon(name: string, clID: string, policy: Policy, years: int,
                             t0: Instant, dt1: nat, dt2: nat, events: seq<Event>, horizon: int)
    requires years != 0 && years <= horizon
    requires forall i :: 0 <= i < |events| ==> WithinHorizon(events[i], horizon)
    ensures var w := Run(Registered(name, clID, policy, years, t0, dt1, dt2), events);
            && w.life.expiryDate < AddYears(w.now, horizon) + DAY
            && (!HorizonSlips(w.now, horizon) ==> w.life.expiryDate <= AddYears(w.now, horizon))
  {
    hide AddYears, Year, Month, DayOfMonth;
    var start := Registered(name, clID, policy, years, t0, dt1, dt2);
    RegistrationStartsValid(name, clID, policy, years, t0, dt1, dt2);
    if years < horizon {
      MoreYearsIsLater(t0, years, horizon);
    }
    var t := RunKeepsHorizon(start, events, horizon, t0);
    AddYearsKeepsOrder(t, Run(start, events).now, horizon);
    if Collide(t, Run(start, events).now, horizon) {
      LeapDayIsInLeapYear(t);
    }
  }

  lemma LeapDayIsInLeapYear(t: Instant)
    requires OnLeapDay(t)
    ensures IsLeap(Year(t))
  {
    MonthMoves(t, Year(t));
  }

  /** At such a moment the leap day before it still collides with it. */
  lemma SlipComesFromLeapDay(now: Instant, horizon: int)
    requires HorizonSlips(now, horizon)
    ensures var t := DayOf(now) * DAY - 1;
            t < now && Collide(t, now, horizon) && TimeOfDay(now) < TimeOfDay(t)
  {
    var t := DayOf(now) * DAY - 1;
    DayOfSum(DayOf(now) - 1, DAY - 1);
    MonthMoves(now, Year(now));
    YearUnique(t, Year(now));
  }

  /** The exception is real: at every such moment some run exceeds the horizon. */
  lemma HorizonDoesSlip(name: string, clID: string, policy: Policy, now: Instant, horizon: int)
    requires HorizonSlips(now, horizon)
    ensures exists t0: Instant, dt: nat ::
              var w := Run(Registered(name, clID, policy, horizon, t0, 0, 0), [Tick(dt)]);
              w.now == now && w.life.expiryDate > AddYears(now, horizon)
  {
    hide Collide, AddYears;
    SlipComesFromLeapDay(now, horizon);
    var t0 := DayOf(now) * DAY - 1;
    var dt: nat := now - t0;
    AddYearsKeepsOrder(t0, now, horizon);
    RegistrationStartsValid(name, clID, policy, horizon, t0, 0, 0);
    var start := Registered(name, clID, policy, horizon, t0, 0, 0);
    OneTick(start, dt);
    assert Run(start, [Tick(dt)]).now == now && Run(start, [Tick(dt)]).life.expiryDate > AddYears(now, horizon);
  }

  lemma OneTick(w: World, dt: nat)
    ensures Run(w, [Tick(dt)]) == World(w.life, w.now + dt)
  {
    assert Run(Next(w, Tick(dt)), []) == World(w.life, w.now + dt);
  }

  // --- From listing to purging ----------------------------------------------------------------

  /** Listed for purging at time t: pending deletion, with a purge date that has passed. */
  predicate Listed(l: Life, t: Instant) {
    PendingDelete in l.status && l.rgp.purgeDate <= t
  }

  /** Neither an expiry nor an explicit edit of `pendingDelete`. */
  predicate LeavesListingAlone(e: Event) {
    !e.Expire? && e != UnSetFlag(Named(PendingDelete))
  }

  lemma StepKeepsListing(w: World, e: Event, t: Instant)
    requires StatusInv(w.life) && Listed(w.life, t) && t <= w.now && LeavesListingAlone(e)
    requires w.life.rgp.redemptionPeriodEnd <= w.life.rgp.purgeDate
    ensures Listed(Next(w, e).life, t)
  {
    hide Validate, Settled;
    var l := w.life;
    if Attempt(w, e).outcome.Done? {
      match e
      case SetFlag(s) =>
        SetStatusExact(l.status, s, HasHosts(l));
        assert PendingDelete in Core(l.status);
      case UnSetFlag(s) =>
        UnSetStatusExact(l.status, s, HasHosts(l));
        assert PendingDelete in Core(l.status);
      case _ =>
    }
  }

  /** A listed domain is still pending deletion, with the same purge date passed, when the purge comes to it. */
  lemma {:induction false} ListedUntilPurged(w: World, events: seq<Event>, t: Instant)
    requires StatusInv(w.life) && Listed(w.life, t) && t <= w.now
    requires w.life.rgp.redemptionPeriodEnd <= w.life.rgp.purgeDate
    requires forall i :: 0 <= i < |events| ==> LeavesListingAlone(events[i]) && NonNegativeGrace(events[i])
    ensures Listed(Run(w, events).life, t)
    decreases |events|
  {
    if events != [] {
      StepKeepsListing(w, events[0], t);
      StepKeepsStatus(w, events[0]);
      StepKeepsEndDates(w, events[0]);
      ListedUntilPurged(Next(w, events[0]), events[1..], t);
    }
  }

  /** From registration to listing, and from there to the purge. */
  lemma RegisteredAndListed(name: string, clID: string, policy: Policy, years: int,
                            t0: Instant, dt1: nat, dt2: nat, before: seq<Event>, after: seq<Event>)
    requires years != 0
    requires forall i :: 0 <= i < |before| ==> NonNegativeGrace(before[i])
    requires forall i :: 0 <= i < |after| ==> LeavesListingAlone(after[i]) && NonNegativeGrace(after[i])
    ensures var w := Run(Registered(name, clID, policy, years, t0, dt1, dt2), before);
            Listed(w.life, w.now) ==>
              Listed(Run(w, after).life, w.now) && !CanBeRestored(Run(w, after).life, Run(w, after).now)
  {
    hide Run, Validate, Settled, StatusInv;
    var start := Registered(name, clID, policy, years, t0, dt1, dt2);
    var w := Run(start, before);
    RegistrationStartsValid(name, clID, policy, years, t0, dt1, dt2);
    EveryRunKeepsStatus(start, before);
    EveryRunKeepsEndDates(start, before);
    if Listed(w.life, w.now) {
      ListedUntilPurged(w, after, w.now);
      EveryRunKeepsEndDates(w, after);
      ClockNeverGoesBack(w, after);
    }
  }

  lemma {:induction false} ClockNeverGoesBack(w: World, events: seq<Event>)
    ensures w.now <= Run(w, events).now
    decreases |events|
  {
    hide Attempt;
    if events != [] {
      ClockNeverGoesBack(Next(w, events[0]), events[1..]);
    }
  }

  /** An expiry between listing and purging does matter: it can make a listed domain restorable again. */
  lemma ExpiryReopensListing(w: World, t: Instant, policy: Policy)
    requires StatusInv(w.life) && Listed(w.life, t) && Expirable(w.life, w.now)
    requires w.now < AddDays(w.life.expiryDate, policy.redemptionGP)
    ensures !Listed(Run(w, [Expire(policy), Restore]).life, t)
  {
    hide Validate, Settled, ExpireStep, RestoreStep, HasPendings, HasProhibitions;
    ExpireExact(w.life, policy, w.now);
    var e := Next(w, Expire(policy));
    assert ClientUpdateProhibited !in Core(e.life.status) && ServerUpdateProhibited !in Core(e.life.status);
    assert PendingDelete in Core(e.life.status);
    RestoreExact(e.life, w.now);
    var r := Next(e, Restore);
    assert PendingDelete !in Core(r.life.status);
    TwoSteps(w, Expire(policy), Restore);
  }

  lemma TwoSteps(w: World, e: Event, f: Event)
    ensures Run(w, [e, f]) == Next(Next(w, e), f)
  {
    hide Next;
    assert [e, f][1..] == [f];
    assert Run(Next(w, e), [f]) == Run(Next(Next(w, e), f), []);
  }
}
