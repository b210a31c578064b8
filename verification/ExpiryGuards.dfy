/**
 * Which domains the expiry loop can never get off its list, told by the guards of the code, and what
 * follows for the domains behind them.
 */
module ExpiryGuards {
  import opened Outcomes
  import opened Calendar
  import opened DomainStatuses
  import opened Lifecycle
  import opened Services
  import opened Workflows
  import opened ExpiryRuns
  import opened Listings
  import Q = Quotes
  import QL = QuoteLaws

  // --- The guards -----------------------------------------------------------------------------

  /** A flag stands against expiring. */
  predicate ExpiryBlocked(l: Life) {
    ServerDeleteProhibited in l.status || exists f | f in l.status :: IsPending(f) && f != PendingDelete
  }

  /**
   * What stands against a domain at any time: no current phase; or it is to be renewed, but its
   * registrar is unknown or it cannot be quoted; or it is to be expired, but a flag stands against that.
   */
  predicate Hopeless(env: Env, l: Life) {
    var policy := PolicyOf(env, l);
    || policy.None?
    || (if CanBeRenewed(l) && policy.value.allowAutoRenew != Some(false) then
          l.clID !in env.autoRenew || (if env.autoRenew[l.clID] then l.name !in env.autoQuotable else ExpiryBlocked(l))
        else ExpiryBlocked(l))
  }

  /** A whole number of years, one or more, from the expiry date; a leap day counts on from 1 March. */
  predicate OnAnniversary(expiry: Instant, now: Instant) {
    Year(expiry) < Year(now) && AddYears(AddYears(expiry, 1), Year(now) - Year(expiry) - 1) == now
  }

  /** What the horizon has against renewing an overdue domain up to the present, year by year. */
  predicate HorizonBlocks(expiry: Instant, now: Instant, horizon: int) {
    if horizon == 1 then Collide(expiry, now, 1) && TimeOfDay(now) < TimeOfDay(expiry)
    else if horizon == 0 then !OnAnniversary(expiry, now)
    else horizon < 0
  }

  predicate Blocked(env: Env, l: Life, now: Instant) {
    || Hopeless(env, l)
    || (CanAutoRenew(env, l).answer && HorizonBlocks(l.expiryDate, now, PolicyOf(env, l).value.maxHorizon))
  }

  /** A hopeless domain is left alone at every instant. */
  lemma HopelessIsUnchanged(env: Env, l: Life, now: Instant)
    requires Validate(l.status) && Hopeless(env, l)
    ensures RenewOrExpire(env, l, now) == l
  {
    hide Validate, ExpireStep, HasPendings, HasProhibitions;
    if PolicyOf(env, l).Some? {
      ExpireExact(WithoutHosts(l), PolicyOf(env, l).value, now);
    }
  }

  /** Any other listed domain is expired, or renewed by a year if the horizon allows it. */
  lemma OthersMove(env: Env, l: Life, now: Instant)
    requires Validate(l.status) && !Hopeless(env, l) && ListedForExpiry(l, now)
    ensures PolicyOf(env, l).Some?
    ensures var policy, after := PolicyOf(env, l).value, RenewOrExpire(env, l, now);
            if !CanAutoRenew(env, l).answer then !ListedForExpiry(after, now)
            else after == if AddYears(l.expiryDate, 1) <= AddYears(now, policy.maxHorizon)
                          then Extended(l, 1, true, policy, now) else l
  {
    hide Validate, ExpireStep, HasPendings, HasProhibitions, AddYears;
    var policy := PolicyOf(env, l).value;
    ExpireExact(WithoutHosts(l), policy, now);
    if !CanAutoRenew(env, l).answer {
      assert PendingDelete in Core(ExpireStep(WithoutHosts(l), policy, now).life.status);
    }
  }

  lemma RenewalKeepsGuards(env: Env, l: Life, policy: Policy, now: Instant)
    ensures var after := Extended(l, 1, true, policy, now);
            && Hopeless(env, after) == Hopeless(env, l)
            && CanAutoRenew(env, after) == CanAutoRenew(env, l)
            && PolicyOf(env, after) == PolicyOf(env, l) && after.status == l.status
  {
    hide AddYears, HasPendings, ParentDomain;
  }

  /** Whether the horizon lets the next renewal through, and that the verdict is the same after it. */
  lemma HorizonStep(expiry: Instant, now: Instant, horizon: int)
    requires expiry < now
    ensures var next := AddYears(expiry, 1);
            && (next > AddYears(now, horizon) ==> HorizonBlocks(expiry, now, horizon))
            && (next <= AddYears(now, horizon) ==>
                  if next < now then HorizonBlocks(next, now, horizon) == HorizonBlocks(expiry, now, horizon)
                  else !HorizonBlocks(expiry, now, horizon))
  {
    hide AddYears, Year, Month, DayOfMonth;
    var next := AddYears(expiry, 1);
    NoYearsStays(now);
    if horizon >= 1 {
      OverdueFitsHorizon(expiry, now, horizon);
      NeverOnLeapDay(expiry);
    } else if horizon == 0 {
      AnniversaryStep(expiry, now);
    } else {
      MoreYearsIsLater(now, horizon, 0);
    }
  }

  /** A year after any day is not a leap day. */
  lemma NeverOnLeapDay(expiry: Instant)
    ensures !OnLeapDay(AddYears(expiry, 1))
  {
    hide AddYears, Year, Month, DayOfMonth;
    AddYearsKeepsMonthAndDay(expiry, 1);
    MonthMoves(expiry, Year(expiry));
  }

  lemma AnniversaryStep(expiry: Instant, now: Instant)
    requires expiry < now
    ensures var next := AddYears(expiry, 1);
            && (next > now ==> !OnAnniversary(expiry, now))
            && (next == now ==> OnAnniversary(expiry, now))
            && (next < now ==> OnAnniversary(next, now) == OnAnniversary(expiry, now))
  {
    hide AddYears, Year, Month, DayOfMonth;
    var next := AddYears(expiry, 1);
    var rest := Year(now) - Year(expiry) - 1;
    AddYearsLands(expiry, 1);
    NoYearsStays(next);
    if next > now {
      if rest > 0 {
        MoreYearsIsLater(next, 0, rest);
      }
    } else if next < now {
      NeverOnLeapDay(expiry);
      LaterIsNotEarlierYear(next, now);
      TwoStepsAdd(next, 1, rest - 1);
    }
  }

  /** The guards decide which listed domains stay listed however often they are decided on. */
  lemma {:induction false} StubbornMeansBlocked(env: Env, l: Life, now: Instant)
    requires Validate(l.status) && ListedForExpiry(l, now)
    ensures Stubborn(env, l, now) <==> Blocked(env, l, now)
    decreases Lag(l, now)
  {
    hide Stubborn, Hopeless, HorizonBlocks, RenewOrExpire, AddYears, Year, Validate, CanAutoRenew;
    if Hopeless(env, l) {
      HopelessIsUnchanged(env, l, now);
      UnchangedIsStubborn(env, l, now);
    } else {
      var after := RenewOrExpire(env, l, now);
      OthersMove(env, l, now);
      DecisionProgress(env, l, now);
      if !CanAutoRenew(env, l).answer {
        UnlistedIsNotStubborn(env, after, now);
      } else {
        var policy := PolicyOf(env, l).value;
        HorizonStep(l.expiryDate, now, policy.maxHorizon);
        RenewalKeepsGuards(env, l, policy, now);
        if after == l {
          RenewalMoves(l, policy, now);
          UnchangedIsStubborn(env, l, now);
        } else if ListedForExpiry(after, now) {
          RenewalMoves(l, policy, now);
          ListedHasLag(l, now);
          StubbornMeansBlocked(env, after, now);
        } else {
          UnlistedIsNotStubborn(env, after, now);
        }
      }
    }
  }

  lemma RenewalMoves(l: Life, policy: Policy, now: Instant)
    requires ListedForExpiry(l, now)
    ensures Extended(l, 1, true, policy, now) != l
    ensures Lag(Extended(l, 1, true, policy, now), now) < Lag(l, now)
  {
    hide AddYears, Year;
    AddYearsLands(l.expiryDate, 1);
    ListedHasLag(l, now);
  }

  lemma UnchangedIsStubborn(env: Env, l: Life, now: Instant)
    requires ListedForExpiry(l, now) && RenewOrExpire(env, l, now) == l
    ensures Stubborn(env, l, now)
  {
    hide RenewOrExpire, Lag;
    UnchangedStays(env, l, now, Lag(l, now));
  }

  lemma UnlistedIsNotStubborn(env: Env, l: Life, now: Instant)
    requires !ListedForExpiry(l, now)
    ensures !Stubborn(env, l, now)
  {
    hide ListedForExpiry, Stubborn;
    if Stubborn(env, l, now) {
      StubbornIsListed(env, l, now);
    }
  }

  // --- All domains ----------------------------------------------------------------------------

  /** The stored statuses are valid, as every stored change leaves them. */
  ghost predicate AllValid(records: map<string, Life>) {
    forall n :: n in records ==> Validate(records[n].status)
  }

  predicate IsBlocked(env: Env, records: map<string, Life>, name: string, now: Instant) {
    IsListed(records, name, now) && Blocked(env, records[name], now)
  }

  function BlockedCount(env: Env, records: map<string, Life>, names: seq<string>, now: Instant): nat {
    if names == [] then 0
    else (if IsBlocked(env, records, names[0], now) then 1 else 0) + BlockedCount(env, records, names[1..], now)
  }

  lemma {:induction false} CountsAgree(env: Env, records: map<string, Life>, names: seq<string>, now: Instant)
    requires AllValid(records)
    ensures StubbornCount(env, records, names, now) == BlockedCount(env, records, names, now)
    ensures forall n :: n in names ==> (IsStubborn(env, records, n, now) <==> IsBlocked(env, records, n, now))
  {
    hide Stubborn, Blocked, ListedForExpiry, Validate;
    if names != [] {
      CountsAgree(env, records, names[1..], now);
      if names[0] in records {
        if IsListed(records, names[0], now) {
          StubbornMeansBlocked(env, records[names[0]], now);
        } else {
          UnlistedIsNotStubborn(env, records[names[0]], now);
        }
      }
    }
  }

  /**
   * A listed domain gets off the list after finitely many runs exactly when it is not blocked itself
   * and fewer than a page of blocked domains have smaller RoIDs.
   */
  lemma ServedExactly(env: Env, records: map<string, Life>, order: seq<string>, size: nat, now: Instant, p: nat)
    requires Indexes(order, records) && AllValid(records) && p < |order| && IsListed(records, order[p], now)
    ensures (exists k :: !IsListed(LoopRuns(env, records, order, size, now, k), order[p], now)) <==>
              !Blocked(env, records[order[p]], now) && BlockedCount(env, records, order[..p], now) < size
  {
    hide Blocked, Stubborn, LoopRuns, ListedForExpiry;
    CountsAgree(env, records, order, now);
    CountsAgree(env, records, order[..p], now);
    ServedUnlessStubborn(env, records, order, size, now, p);
  }

  /**
   * For an overdue unprotected domain: finitely many runs renew it past the present or set its
   * `pendingDelete` exactly when it is not stuck on a leap day and not behind a page of blocked domains.
   */
  lemma RunsDealExactly(env: Env, records: map<string, Life>, order: seq<string>, size: nat, now: Instant, p: nat)
    requires Indexes(order, records) && AllValid(records) && p < |order| && IsListed(records, order[p], now)
    requires Unprotected(env, records[order[p]])
    ensures (exists k :: var after := LoopRuns(env, records, order, size, now, k);
                         order[p] in after && Dealt(after[order[p]], now)) <==>
              !StuckOnLeapDay(env, records[order[p]], now) && BlockedCount(env, records, order[..p], now) < size
  {
    hide Blocked, Stubborn, LoopRuns, ListedForExpiry, StuckOnLeapDay;
    CountsAgree(env, records, order[..p], now);
    RunsDealUnlessStubborn(env, records, order, size, now, p);
  }

  // --- Later and later runs -------------------------------------------------------------------

  /** Runs of the loop at the given readings of the clock. */
  function RunsAt(env: Env, records: map<string, Life>, order: seq<string>, size: nat, clocks: seq<Instant>): map<string, Life>
    decreases |clocks|
  {
    if clocks == [] then records
    else RunsAt(env, Pass(env, records, order, size, clocks[0]), order, size, clocks[1..])
  }

  predicate IsHopeless(env: Env, records: map<string, Life>, name: string, now: Instant) {
    IsListed(records, name, now) && Validate(records[name].status) && Hopeless(env, records[name])
  }

  function HopelessCount(env: Env, records: map<string, Life>, names: seq<string>, now: Instant): nat {
    if names == [] then 0
    else (if IsHopeless(env, records, names[0], now) then 1 else 0) + HopelessCount(env, records, names[1..], now)
  }

  lemma {:induction false} HopelessAreListed(env: Env, records: map<string, Life>, names: seq<string>, now: Instant,
                                             later: Instant)
    requires now <= later
    ensures HopelessCount(env, records, names, now) <= ListedCount(records, names, later)
  {
    hide Hopeless, Validate;
    if names != [] {
      HopelessAreListed(env, records, names[1..], now, later);
    }
  }

  lemma {:induction false} HopelessRemain(env: Env, before: map<string, Life>, after: map<string, Life>, names: seq<string>,
                                          now: Instant)
    requires forall n :: IsHopeless(env, before, n, now) ==> n in after && after[n] == before[n]
    ensures HopelessCount(env, before, names, now) <= HopelessCount(env, after, names, now)
  {
    hide Hopeless, Validate;
    if names != [] {
      HopelessRemain(env, before, after, names[1..], now);
    }
  }

  /** Behind a full page of hopeless domains nothing ever happens to a domain, however late the runs are. */
  lemma {:induction false} StarvedAtAllTimes(env: Env, records: map<string, Life>, order: seq<string>, size: nat, now: Instant,
                                             p: nat, clocks: seq<Instant>)
    requires Indexes(order, records) && p < |order|
    requires HopelessCount(env, records, order[..p], now) >= size
    requires forall i :: 0 <= i < |clocks| ==> now <= clocks[i]
    ensures order[p] in records && order[p] in RunsAt(env, records, order, size, clocks)
            && RunsAt(env, records, order, size, clocks)[order[p]] == records[order[p]]
    decreases |clocks|
  {
    hide RenewOrExpire, Pass, Page, Hopeless, ListedForExpiry, Validate;
    assert order[p] in ToSet(order);
    if clocks != [] {
      var after := Pass(env, records, order, size, clocks[0]);
      PassIsExact(env, records, order, size, clocks[0]);
      PageMembers(records, order, size, clocks[0]);
      HopelessAreListed(env, records, order[..p], now, clocks[0]);
      if IsListed(records, order[p], clocks[0]) {
        OnThePage(records, order, size, clocks[0], p);
      }
      forall n | IsHopeless(env, records, n, now)
        ensures after[n] == records[n]
      {
        HopelessIsUnchanged(env, records[n], clocks[0]);
      }
      HopelessRemain(env, records, after, order[..p], now);
      StarvedAtAllTimes(env, after, order, size, now, p, clocks[1..]);
    }
  }

  // --- Such domains exist ---------------------------------------------------------------------

  /** As many names as there are numbers up to n, the empty one last. */
  function Names(n: nat): (names: seq<string>)
    ensures |names| == n + 1
  {
    seq(n + 1, i requires 0 <= i <= n => Letters(n - i))
  }

  function Letters(n: nat): string { seq(n, _ => 'a') }

  lemma NamesDiffer(n: nat)
    ensures NoRepeats(Names(n)) && Names(n)[n] == ""
    ensures forall i :: 0 <= i < n ==> Names(n)[i] != ""
  {
    forall i | 0 <= i <= n
      ensures |Names(n)[i]| == n - i
    {
      assert Names(n)[i] == Letters(n - i);
    }
  }

  /** A domain that may be neither renewed nor deleted. */
  function Guard(name: string, expiry: Instant): Life {
    NewLife(name, "", expiry).(expiryDate := expiry, status := {Inactive, ServerRenewProhibited, ServerDeleteProhibited})
  }

  lemma GuardIsHopeless(env: Env, name: string, now: Instant)
    ensures var l := Guard(name, now - 1);
            ListedForExpiry(l, now) && Validate(l.status) && Hopeless(env, l)
  {
    assert ServerRenewProhibited in Guard(name, now - 1).status;
  }

  /** Everyone but the domain without a name is guarded. */
  function Crowd(names: seq<string>, victim: Life, now: Instant): map<string, Life> {
    map n | n in ToSet(names) :: if n == "" then victim else Guard(n, now - 1)
  }

  lemma CrowdIsHopeless(env: Env, names: seq<string>, victim: Life, now: Instant, name: string)
    requires name in names && name != ""
    ensures IsHopeless(env, Crowd(names, victim, now), name, now) && Validate(Crowd(names, victim, now)[name].status)
  {
    GuardIsHopeless(env, name, now);
  }

  /** For a page of any size a domain can starve that the loop would expire if it came to it. */
  lemma SomeDomainStarves(size: nat, now: Instant)
    ensures exists env, records, order, p ::
              && Indexes(order, records) && AllValid(records) && 0 <= p < |order| && IsListed(records, order[p], now)
              && Unprotected(env, records[order[p]]) && !Blocked(env, records[order[p]], now)
              && HopelessCount(env, records, order[..p], now) >= size
  {
    hide Hopeless, Blocked, Validate, ListedForExpiry, Unprotected, Guard, Names, IsHopeless;
    var env := Env(map[ParentDomain("") := Policy(0, 0, 0, 0, 0, 0, 1, None, None)], map["" := false], {}, {""});
    var victim := NewLife("", "", now - 1).(expiryDate := now - 1);
    VictimIsFree(env, victim, now);
    var order := Names(size);
    var records := Crowd(order, victim, now);
    NamesDiffer(size);
    assert order[size] in ToSet(order);
    assert records.Keys == ToSet(order);
    forall n | n in order && n != ""
      ensures IsHopeless(env, records, n, now) && Validate(records[n].status)
    {
      CrowdIsHopeless(env, order, victim, now, n);
    }
    assert forall i :: 0 <= i < size ==> order[..size][i] == order[i] && order[i] in order;
    AllCount(env, records, order[..size], now);
    assert AllValid(records);
  }

  lemma VictimIsFree(env: Env, l: Life, now: Instant)
    requires PolicyOf(env, l).Some? && PolicyOf(env, l).value.maxHorizon == 1 && PolicyOf(env, l).value.allowAutoRenew.None?
    requires l.status == NEW_STATUS && l.expiryDate == now - 1
    requires l.clID in env.autoRenew && !env.autoRenew[l.clID] && l.name in env.autoQuotable
    ensures ListedForExpiry(l, now) && Validate(l.status) && Unprotected(env, l) && !Blocked(env, l, now)
  {
  }

  lemma {:induction false} AllCount(env: Env, records: map<string, Life>, names: seq<string>, now: Instant)
    requires forall n :: n in names ==> IsHopeless(env, records, n, now)
    ensures HopelessCount(env, records, names, now) == |names|
  {
    hide IsHopeless;
    if names != [] {
      AllCount(env, records, names[1..], now);
    }
  }

  // --- Premium domains ------------------------------------------------------------------------

  /**
   * A premium domain whose registrar has it renewed automatically is hopeless, since that renewal
   * cannot be quoted: it is never renewed nor expired and keeps its place on the page. And it cannot
   * be restored, since a restore asks for the same quote.
   */
  lemma PremiumIsHopeless(env: Env, l: Life, e: Q.PriceEngine, qr: Q.QuoteRequest, now: Instant)
    requires e.premiumEntries != [] && qr.transaction == Q.AutoRenewal
    requires l.name in env.autoQuotable ==> e.Quotable(qr)
    ensures CanAutoRenew(env, l).answer ==> Hopeless(env, l)
    ensures CanAutoRenew(env, l).answer && Validate(l.status) ==> RenewOrExpire(env, l, now) == l
    ensures Restored(env, WithoutHosts(l), now).outcome.Fail?
  {
    hide RenewOrExpire, Validate, HasPendings, RestoreStep;
    QL.PremiumAutoRenewalIsNeverQuoted(e, qr);
    if CanAutoRenew(env, l).answer && Validate(l.status) {
      HopelessIsUnchanged(env, l, now);
    }
  }
}
