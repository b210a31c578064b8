/** The expiry loop and the restore workflow. */
module Workflows {
  import opened Outcomes
  import opened Calendar
  import opened DomainStatuses
  import opened Lifecycle
  import opened Services
  import R = Runs

  // --- The expiry loop ------------------------------------------------------------------------

  /** What the list of expiring domains selects. */
  predicate ListedForExpiry(l: Life, now: Instant) {
    && l.expiryDate < now
    && PendingDelete !in l.status && PendingRenew !in l.status && PendingRestore !in l.status
  }

  /** What the loop does to one listed domain: renew it, expire it, or give up on it for this pass. */
  function RenewOrExpire(env: Env, l: Life, now: Instant): Life {
    var check := CanAutoRenew(env, WithoutHosts(l));
    if check.outcome.Fail? then l
    else if check.answer then Committed(l, AutoRenewed(env, WithoutHosts(l), 1, now))
    else Committed(l, Expired(env, WithoutHosts(l), now))
  }

  function RenewOrExpireAll(env: Env, records: map<string, Life>, names: seq<string>, now: Instant): map<string, Life>
    decreases |names|
  {
    if names == [] then records
    else
      var rest := if names[0] in records
                  then records[names[0] := RenewOrExpire(env, records[names[0]], now)] else records;
      RenewOrExpireAll(env, rest, names[1..], now)
  }

  /** The most domains that a list request asks for, and that a list answer holds. */
  const BATCHSIZE := 1000

  /** The first `size` listed domains, given all names in the order of their RoIDs. */
  function Page(records: map<string, Life>, order: seq<string>, size: nat, now: Instant): seq<string>
    decreases |order|
  {
    if order == [] || size == 0 then []
    else if order[0] in records && ListedForExpiry(records[order[0]], now)
      then [order[0]] + Page(records, order[1..], size - 1, now)
    else Page(records, order[1..], size, now)
  }

  /** What one run of the loop does to the stored domains. */
  function Pass(env: Env, records: map<string, Life>, order: seq<string>, size: nat, now: Instant): map<string, Life> {
    RenewOrExpireAll(env, records, Page(records, order, size, now), now)
  }

  /** One run over the first page of listed domains, which is the only one asked for; a failure skips to the next domain. */
  method ExpiryLoop(service: DomainService, order: seq<string>, now: Instant)
    modifies service`records
    ensures service.records == Pass(service.env, old(service.records), order, BATCHSIZE, now)
  {
    var names := Page(service.records, order, BATCHSIZE, now);
    var rest := names;
    while rest != []
      invariant RenewOrExpireAll(service.env, service.records, rest, now)
                == RenewOrExpireAll(service.env, old(service.records), names, now)
      decreases |rest|
    {
      var name := rest[0];
      rest := rest[1..];
      ghost var before := service.records;
      var canAutoRenew, outcome := service.CheckAutoRenew(name);
      if outcome.Fail? {
        assert name in before ==> before[name := before[name]] == before;
        continue;
      }
      if canAutoRenew {
        var _ := service.AutoRenewDomain(name, 1, now);
      } else {
        var _ := service.ExpireDomain(name, now);
      }
    }
  }

  /** With distinct names, each listed domain gets exactly its own decision and no other is touched. */
  lemma {:induction false} PassIsPointwise(env: Env, records: map<string, Life>, names: seq<string>, now: Instant)
    requires forall i, j :: 0 <= i < j < |names| ==> names[i] != names[j]
    ensures RenewOrExpireAll(env, records, names, now)
            == map n | n in records :: if n in names then RenewOrExpire(env, records[n], now) else records[n]
    decreases |names|
  {
    hide RenewOrExpire;
    if names != [] {
      var rest := if names[0] in records
                  then records[names[0] := RenewOrExpire(env, records[names[0]], now)] else records;
      PassIsPointwise(env, rest, names[1..], now);
      assert forall n :: n in names <==> n == names[0] || n in names[1..];
    }
  }

  /** Successive passes at the same instant, as one domain sees them. */
  function Passes(env: Env, l: Life, now: Instant, k: nat): Life
    decreases k
  {
    if k == 0 || !ListedForExpiry(l, now) then l
    else Passes(env, RenewOrExpire(env, l, now), now, k - 1)
  }

  /** Renewed past the present, or on its way out. */
  predicate Dealt(l: Life, now: Instant) {
    l.expiryDate >= now || PendingDelete in l.status
  }

  /** Both loops' surroundings are in place, and nothing protects the domain from expiring. */
  predicate Unprotected(env: Env, l: Life) {
    && Validate(WithoutHosts(l).status)
    && PolicyOf(env, l).Some? && PolicyOf(env, l).value.maxHorizon >= 1
    && l.clID in env.autoRenew && l.name in env.autoQuotable
    && ServerDeleteProhibited !in l.status
    && (forall f | f in l.status :: IsPending(f) ==> f == PendingDelete)
  }

  /** The registrar and the policy want it renewed, but a one-year horizon and a leap day stand against it. */
  predicate StuckOnLeapDay(env: Env, l: Life, now: Instant) {
    && CanAutoRenew(env, l).answer
    && PolicyOf(env, l).Some? && PolicyOf(env, l).value.maxHorizon == 1
    && Collide(l.expiryDate, now, 1) && TimeOfDay(now) < TimeOfDay(l.expiryDate)
  }

  lemma YearsAreFarApart(t: Instant, n: int, m: int)
    requires n < m
    ensures AddYears(t, n) + DAY <= AddYears(t, m)
  {
    hide AddYears, Year, YearDay;
    AddYearsDay(t, n);
    AddYearsDay(t, m);
    YearStep(Year(t) + n);
    YearsAscend(Year(t) + n + 1, Year(t) + m);
  }

  /** When the horizon check of a one-year renewal lets an overdue domain through. */
  lemma OverdueFitsHorizon(expiry: Instant, now: Instant, horizon: int)
    requires expiry <= now && horizon >= 1
    ensures AddYears(expiry, 1) <= AddYears(now, horizon) <==>
              !(horizon == 1 && Collide(expiry, now, 1) && TimeOfDay(now) < TimeOfDay(expiry))
  {
    hide AddYears, Year, Month, DayOfMonth;
    AddYearsKeepsOrder(expiry, now, 1);
    if horizon > 1 {
      YearsAreFarApart(now, 1, horizon);
    }
  }

  lemma CanAutoRenewIgnoresHosts(env: Env, l: Life)
    ensures CanAutoRenew(env, WithoutHosts(l)) == CanAutoRenew(env, l)
  {
  }

  /** One pass over an overdue unprotected domain: renewed by a year or expired, unless it is stuck. */
  lemma OnePassDeals(env: Env, l: Life, now: Instant)
    requires Unprotected(env, l) && ListedForExpiry(l, now)
    ensures var after := RenewOrExpire(env, l, now);
            if StuckOnLeapDay(env, l, now) then after == l
            else if CanAutoRenew(env, l).answer
            then after == Extended(l, 1, true, PolicyOf(env, l).value, now)
            else PendingDelete in after.status
  {
    hide AddYears, Validate, ExpireStep;
    var bare := WithoutHosts(l);
    CanAutoRenewIgnoresHosts(env, l);
    OverdueFitsHorizon(l.expiryDate, now, PolicyOf(env, l).value.maxHorizon);
    ExpireExact(bare, PolicyOf(env, l).value, now);
    assert Expirable(bare, now);
    var r := Expired(env, bare, now);
    assert PendingDelete in Core(r.life.status);
  }

  /** After one renewal an expiry date is never on a leap day, so a domain can only be stuck at the start. */
  lemma RenewalUnsticks(env: Env, l: Life, policy: Policy, now: Instant)
    ensures !StuckOnLeapDay(env, Extended(l, 1, true, policy, now), now)
  {
    hide AddYears, Year, Month, DayOfMonth;
    AddYearsKeepsMonthAndDay(l.expiryDate, 1);
    MonthMoves(l.expiryDate, Year(l.expiryDate));
  }

  /** As many passes as there are years to catch up on, and one more, deal with a domain that is not stuck. */
  lemma {:induction false} EnoughPasses(env: Env, l: Life, now: Instant, k: nat)
    requires Unprotected(env, l) && !StuckOnLeapDay(env, l, now)
    requires k > Year(now) - Year(l.expiryDate)
    ensures Dealt(Passes(env, l, now, k), now)
    decreases k
  {
    hide AddYears, Year, CanAutoRenew, RenewOrExpire, StuckOnLeapDay, Validate;
    if !ListedForExpiry(l, now) {
      assert Dealt(l, now) by { UnlistedIsDealt(env, l, now); }
    } else if k == 0 {
      LaterYearIsLater(now, l.expiryDate);
    } else {
      OnePassDeals(env, l, now);
      var after := RenewOrExpire(env, l, now);
      if CanAutoRenew(env, l).answer {
        AddYearsLands(l.expiryDate, 1);
        RenewalUnsticks(env, l, PolicyOf(env, l).value, now);
        EnoughPasses(env, after, now, k - 1);
      }
    }
  }

  lemma UnlistedIsDealt(env: Env, l: Life, now: Instant)
    requires Unprotected(env, l) && !ListedForExpiry(l, now)
    ensures Dealt(l, now)
  {
  }

  lemma {:induction false} StuckStays(env: Env, l: Life, now: Instant, k: nat)
    requires Unprotected(env, l) && StuckOnLeapDay(env, l, now) && ListedForExpiry(l, now)
    ensures Passes(env, l, now, k) == l
  {
    if k > 0 {
      OnePassDeals(env, l, now);
      StuckStays(env, l, now, k - 1);
    }
  }

  /** Finitely many passes deal with an overdue unprotected domain exactly when it is not stuck on a leap day. */
  lemma PassesDealExactly(env: Env, l: Life, now: Instant)
    requires Unprotected(env, l) && ListedForExpiry(l, now)
    ensures (exists k :: Dealt(Passes(env, l, now, k), now)) <==> !StuckOnLeapDay(env, l, now)
  {
    hide AddYears, Year, CanAutoRenew, RenewOrExpire, StuckOnLeapDay, Validate, Unprotected;
    if StuckOnLeapDay(env, l, now) {
      forall k: nat
        ensures Passes(env, l, now, k) == l
      {
        StuckStays(env, l, now, k);
      }
    } else {
      var k := if Year(now) < Year(l.expiryDate) then 0 else Year(now) - Year(l.expiryDate) + 1;
      EnoughPasses(env, l, now, k);
      assert Dealt(Passes(env, l, now, k), now);
    }
  }

  /** There are such domains: at every moment at which a one-year horizon can slip, one is stuck. */
  lemma SomeDomainIsStuck(now: Instant)
    requires R.HorizonSlips(now, 1)
    ensures exists env, l :: Unprotected(env, l) && ListedForExpiry(l, now) && StuckOnLeapDay(env, l, now)
  {
    hide Collide, AddYears, ParentDomain;
    R.SlipComesFromLeapDay(now, 1);
    var expiry := DayOf(now) * DAY - 1;
    var policy := Policy(0, 0, 0, 0, 0, 0, 1, None, None);
    var env := Env(map[ParentDomain("") := policy], map["" := true], {}, {""});
    var l := NewLife("", "", expiry).(expiryDate := expiry, status := {OK, Inactive});
    assert Unprotected(env, l) && ListedForExpiry(l, now) && StuckOnLeapDay(env, l, now);
  }

  // --- The restore workflow -------------------------------------------------------------------

  /** Which of the three activities get through; one that does not leaves everything as it was. */
  datatype Weather = Weather(unset: bool, renew: bool, reset: bool)

  function Tried(reached: bool, l: Life, r: Step): Step {
    if reached then r else Step(l, Fail(ActivityFailed))
  }

  /** One restored domain: unset the flag, renew by force, and set the flag again if the renewal failed. */
  function CompleteRestore(env: Env, l: Life, clID: string, now: Instant, weather: Weather): Life {
    var unset := Committed(l, Tried(weather.unset, l, UnSetStatusStep(WithoutHosts(l), Named(PendingRestore))));
    var renewal := Tried(weather.renew, unset, Renewed(env, WithoutHosts(unset), clID, 1, true, now));
    var renewed := Committed(unset, renewal);
    if renewal.outcome.Done? then renewed
    else Committed(renewed, Tried(weather.reset, renewed, SetStatusStep(WithoutHosts(renewed), Named(PendingRestore))))
  }

  /** A domain on the list, with the registrar it was listed under. */
  datatype RestoredItem = RestoredItem(name: string, clID: string)

  function CompleteRestores(env: Env, records: map<string, Life>, items: seq<RestoredItem>, weathers: seq<Weather>,
                            now: Instant): map<string, Life>
    requires |items| == |weathers|
    decreases |items|
  {
    if items == [] then records
    else
      var name := items[0].name;
      var rest := if name in records
                  then records[name := CompleteRestore(env, records[name], items[0].clID, now, weathers[0])] else records;
      CompleteRestores(env, rest, items[1..], weathers[1..], now)
  }

  method RestoreOne(service: DomainService, item: RestoredItem, weather: Weather, now: Instant)
    modifies service`records
    ensures service.records
            == if item.name in old(service.records)
               then old(service.records)[item.name :=
                      CompleteRestore(service.env, old(service.records)[item.name], item.clID, now, weather)]
               else old(service.records)
  {
    hide UnSetStatusStep, SetStatusStep, Renewed;
    ghost var records := service.records;
    assert item.name in records ==> records[item.name := records[item.name]] == records;
    if weather.unset {
      var _ := service.UnSetStatus(item.name, Named(PendingRestore));
    }
    var outcome := Fail(ActivityFailed);
    if weather.renew {
      outcome := service.RenewDomain(item.name, item.clID, 1, true, now);
    }
    if outcome.Fail? && weather.reset {
      var _ := service.SetStatus(item.name, Named(PendingRestore));
    }
  }

  /** One run of the workflow over the list; no failure stops it. */
  method RestoreWorkflow(service: DomainService, items: seq<RestoredItem>, weathers: seq<Weather>, now: Instant)
    requires |items| == |weathers|
    modifies service`records
    ensures service.records == CompleteRestores(service.env, old(service.records), items, weathers, now)
  {
    hide CompleteRestore;
    var rest, skies := items, weathers;
    while rest != []
      invariant |rest| == |skies|
      invariant CompleteRestores(service.env, service.records, rest, skies, now)
                == CompleteRestores(service.env, old(service.records), items, weathers, now)
      decreases |rest|
    {
      RestoreOne(service, rest[0], skies[0], now);
      rest, skies := rest[1..], skies[1..];
    }
  }

  /** Records that the rest of the list does not name stay as they are, and no record comes or goes. */
  lemma {:induction false} OthersUntouched(env: Env, records: map<string, Life>, items: seq<RestoredItem>, weathers: seq<Weather>,
                                           now: Instant, name: string)
    requires |items| == |weathers| && forall i :: 0 <= i < |items| ==> items[i].name != name
    ensures var after := CompleteRestores(env, records, items, weathers, now);
            && after.Keys == records.Keys
            && (name in records ==> after[name] == records[name])
    decreases |items|
  {
    hide CompleteRestore;
    if items != [] {
      var first := items[0].name;
      var rest := if first in records
                  then records[first := CompleteRestore(env, records[first], items[0].clID, now, weathers[0])] else records;
      OthersUntouched(env, rest, items[1..], weathers[1..], now, name);
    }
  }

  lemma {:induction false} KeysStay(env: Env, records: map<string, Life>, items: seq<RestoredItem>, weathers: seq<Weather>,
                                    now: Instant)
    requires |items| == |weathers|
    ensures CompleteRestores(env, records, items, weathers, now).Keys == records.Keys
    decreases |items|
  {
    hide CompleteRestore;
    if items != [] {
      var first := items[0].name;
      var rest := if first in records
                  then records[first := CompleteRestore(env, records[first], items[0].clID, now, weathers[0])] else records;
      KeysStay(env, rest, items[1..], weathers[1..], now);
    }
  }

  /** With distinct names every listed domain gets its own restore, with its own registrar and its own luck. */
  lemma {:induction false} EveryItemIsRestored(env: Env, records: map<string, Life>, items: seq<RestoredItem>,
                                               weathers: seq<Weather>, now: Instant, i: nat)
    requires |items| == |weathers| && i < |items| && items[i].name in records
    requires forall j, k :: 0 <= j < k < |items| ==> items[j].name != items[k].name
    ensures items[i].name in CompleteRestores(env, records, items, weathers, now)
    ensures CompleteRestores(env, records, items, weathers, now)[items[i].name]
            == CompleteRestore(env, records[items[i].name], items[i].clID, now, weathers[i])
    decreases |items|
  {
    hide CompleteRestore;
    var first := items[0].name;
    var rest := if first in records
                then records[first := CompleteRestore(env, records[first], items[0].clID, now, weathers[0])] else records;
    if i == 0 {
      OthersUntouched(env, rest, items[1..], weathers[1..], now, first);
    } else {
      EveryItemIsRestored(env, rest, items[1..], weathers[1..], now, i - 1);
    }
  }

  /** A run of the workflow, domain by domain: each listed one as its own item says, every other one untouched. */
  lemma RestoresArePointwise(env: Env, records: map<string, Life>, items: seq<RestoredItem>, weathers: seq<Weather>, now: Instant)
    requires |items| == |weathers|
    requires forall j, k :: 0 <= j < k < |items| ==> items[j].name != items[k].name
    ensures var after := CompleteRestores(env, records, items, weathers, now);
            && after.Keys == records.Keys
            && (forall i :: 0 <= i < |items| && items[i].name in records ==>
                  after[items[i].name] == CompleteRestore(env, records[items[i].name], items[i].clID, now, weathers[i]))
            && (forall n :: n in records && (forall i :: 0 <= i < |items| ==> items[i].name != n) ==> after[n] == records[n])
  {
    hide CompleteRestore, CompleteRestores;
    KeysStay(env, records, items, weathers, now);
    forall i | 0 <= i < |items| && items[i].name in records
      ensures CompleteRestores(env, records, items, weathers, now)[items[i].name]
              == CompleteRestore(env, records[items[i].name], items[i].clID, now, weathers[i])
    {
      EveryItemIsRestored(env, records, items, weathers, now, i);
    }
    forall n | n in records && (forall i :: 0 <= i < |items| ==> items[i].name != n)
      ensures CompleteRestores(env, records, items, weathers, now)[n] == records[n]
    {
      OthersUntouched(env, records, items, weathers, now, n);
    }
  }

  /** The renewal gets through: reached, for the right registrar, with an active phase and a quote. */
  predicate RenewalWorks(env: Env, l: Life, clID: string, weather: Weather) {
    weather.renew && l.clID == clID && PolicyOf(env, l).Some? && l.name in env.quotable
  }

  /** Unsetting the flag gets through: reached, and no update prohibition stands in the way. */
  predicate UnsetWorks(l: Life, weather: Weather) {
    weather.unset && !UpdateProhibited(l.status)
  }

  /** What the workflow leaves of a domain that is pending restore, in every case. */
  lemma RestoreOutcome(env: Env, l: Life, clID: string, now: Instant, weather: Weather)
    requires Validate(l.status) && PendingRestore in l.status
    ensures var after := CompleteRestore(env, l, clID, now, weather);
            && after == (if RenewalWorks(env, l, clID, weather) then Extended(l, 1, false, PolicyOf(env, l).value, now) else l)
                        .(status := after.status)
            && Validate(after.status)
            && (if UnsetWorks(l, weather) && (RenewalWorks(env, l, clID, weather) || !weather.reset)
                then Core(after.status) == Core(l.status) - {PendingRestore} && Settled(after.status, false)
                else after.status - {Inactive} == l.status - {Inactive})
  {
    hide Validate, SetStatus, UnSetStatus, HasPendings, HasProhibitions, Settled;
    var s := Named(PendingRestore);
    UnSetStatusExact(l.status, s, false);
    var unset := Committed(l, Tried(weather.unset, l, UnSetStatusStep(WithoutHosts(l), s)));
    SetStatusExact(unset.status, s, false);
    PendingRestoreFits(l.status, unset.status);
    assert UnsetWorks(l, weather) ==> Core(unset.status) == Core(l.status) - {PendingRestore};
    assert !UnsetWorks(l, weather) ==> unset == l;
    var after := CompleteRestore(env, l, clID, now, weather);
    if !(UnsetWorks(l, weather) && (RenewalWorks(env, l, clID, weather) || !weather.reset)) {
      assert Core(l.status) - {PendingRestore} + {PendingRestore} == Core(l.status);
      assert Core(l.status) + {PendingRestore} == Core(l.status);
      hide CompleteRestore;
      SameCoreSameStatus(l.status, after.status);
    }
  }

  /** While something is pending, `ok` cannot make a difference. */
  lemma SameCoreSameStatus(st: DomainStatus, t: DomainStatus)
    requires Validate(st) && Validate(t) && PendingRestore in st && Core(t) == Core(st)
    ensures t - {Inactive} == st - {Inactive}
  {
    InCore(st, PendingRestore);
    InCore(t, PendingRestore);
    hide Core;
    forall f
      ensures f in t - {Inactive} <==> f in st - {Inactive}
    {
      InCore(st, f);
      InCore(t, f);
    }
  }

  lemma PendingRestoreFits(st: DomainStatus, t: DomainStatus)
    requires Validate(st) && PendingRestore in st
    requires Core(t) == Core(st) || Core(t) == Core(st) - {PendingRestore}
    ensures Fits(t, PendingRestore)
    ensures UpdateProhibited(t) <==> UpdateProhibited(st)
  {
    hide Validate, HasPendings, HasProhibitions;
    ValidateIsRfc5731(st);
    forall f | f != OK && f != Inactive && f != PendingRestore
      ensures f in t <==> f in st
    {
      assert f in Core(t) <==> f in Core(st);
    }
  }

  /** Either renewed by exactly one year and no longer pending, or put back as it was, `inactive` aside. */
  predicate Compensated(l: Life, after: Life) {
    && Validate(after.status)
    && (|| (after.expiryDate == AddYears(l.expiryDate, 1) && PendingRestore !in after.status)
        || (after == l.(status := after.status) && after.status - {Inactive} == l.status - {Inactive}))
  }

  /** Exactly when the workflow compensates for a failed activity. */
  lemma RestoreCompensates(env: Env, l: Life, clID: string, now: Instant, weather: Weather)
    requires Validate(l.status) && PendingRestore in l.status
    ensures Compensated(l, CompleteRestore(env, l, clID, now, weather)) <==>
              if RenewalWorks(env, l, clID, weather) then UnsetWorks(l, weather)
              else UnsetWorks(l, weather) ==> weather.reset
  {
    hide CompleteRestore, Validate, AddYears, Core, Settled;
    RestoreOutcome(env, l, clID, now, weather);
    var after := CompleteRestore(env, l, clID, now, weather);
    InCore(l.status, PendingRestore);
    InCore(after.status, PendingRestore);
    assert PendingRestore in l.status - {Inactive};
    OneYearIsLater(l.expiryDate);
  }

  lemma OneYearIsLater(t: Instant)
    ensures AddYears(t, 1) > t
  {
    hide AddYears, Year;
    AddYearsLands(t, 1);
    LaterYearIsLater(t, AddYears(t, 1));
  }

  /** `k` runs of the workflow in which every activity gets through. */
  function RestoreRuns(env: Env, l: Life, now: Instant, k: nat): Life
    decreases k
  {
    if k == 0 then l
    else RestoreRuns(env, CompleteRestore(env, l, l.clID, now, Weather(true, true, true)), now, k - 1)
  }

  function Ones(k: nat): seq<int> { if k == 0 then [] else [1] + Ones(k - 1) }

  /**
   * A domain that got an update prohibition after its restore was accepted keeps `pendingRestore`,
   * and every run of the workflow renews it once more.
   */
  lemma {:induction false} ProhibitedRestoreRenewsForever(env: Env, l: Life, now: Instant, k: nat)
    requires Validate(l.status) && PendingRestore in l.status && UpdateProhibited(l.status)
    requires PolicyOf(env, l).Some? && l.name in env.quotable
    ensures var after := RestoreRuns(env, l, now, k);
            && PendingRestore in after.status
            && after.expiryDate == AddEach(l.expiryDate, Ones(k))
            && after.renewedYears == l.renewedYears + k
    decreases k
  {
    hide AddYears, Validate, HasPendings, HasProhibitions, SetStatus;
    if k > 0 {
      var after := CompleteRestore(env, l, l.clID, now, Weather(true, true, true));
      assert after.status == l.status;
      ProhibitedRestoreRenewsForever(env, after, now, k - 1);
      assert Ones(k)[1..] == Ones(k - 1);
    }
  }

  /** Such domains are reached: registered, expired, restored in time, and then prohibited from updates. */
  lemma ProhibitedRestoreIsReached(name: string, clID: string, policy: Policy, years: int, now: Instant)
    requires years > 0 && policy.requiresValidation != Some(true) && policy.redemptionGP > 0
    ensures exists dt: nat ::
              var w := R.Run(R.Registered(name, clID, policy, years, now, 0, 0),
                             [R.Tick(dt), R.Expire(policy), R.Restore, R.SetFlag(Named(ServerUpdateProhibited))]);
              Validate(w.life.status) && PendingRestore in w.life.status && UpdateProhibited(w.life.status)
  {
    hide AddYears, Year, Validate, Settled, ExpireStep, RestoreStep, SetStatusStep, HasPendings, HasProhibitions;
    var start := R.Registered(name, clID, policy, years, now, 0, 0);
    R.RegistrationStartsValid(name, clID, policy, years, now, 0, 0);
    AddYearsLands(now, years);
    LaterYearIsLater(now, start.life.expiryDate);
    var dt: nat := start.life.expiryDate - now;
    var prohibition := R.SetFlag(Named(ServerUpdateProhibited));
    RestoredAtExpiry(start.life, policy);
    FourSteps(start, R.Tick(dt), R.Expire(policy), R.Restore, prohibition);
    var w := R.Run(start, [R.Tick(dt), R.Expire(policy), R.Restore, prohibition]);
    assert Validate(w.life.status) && PendingRestore in w.life.status && UpdateProhibited(w.life.status);
  }

  /** A domain that expires the moment it can, is restored at once, and then prohibited from updates. */
  lemma RestoredAtExpiry(l: Life, policy: Policy)
    requires Validate(l.status) && Expirable(l, l.expiryDate) && policy.redemptionGP > 0
    ensures var expired := ExpireStep(l, policy, l.expiryDate);
            var restored := RestoreStep(expired.life, l.expiryDate);
            var prohibited := SetStatusStep(restored.life, Named(ServerUpdateProhibited));
            && expired.outcome.Done? && restored.outcome.Done? && prohibited.outcome.Done?
            && Validate(prohibited.life.status)
            && PendingRestore in prohibited.life.status && UpdateProhibited(prohibited.life.status)
  {
    hide Validate, Settled, ExpireStep, RestoreStep, SetStatusStep, HasPendings, HasProhibitions, Core;
    ExpireExact(l, policy, l.expiryDate);
    var expired := ExpireStep(l, policy, l.expiryDate).life;
    CoreFlags(expired.status);
    RestoreExact(expired, l.expiryDate);
    var restored := RestoreStep(expired, l.expiryDate).life;
    CoreFlags(restored.status);
    ProhibitingWorks(restored);
  }

  lemma ProhibitingWorks(l: Life)
    requires Validate(l.status) && PendingRestore in l.status
    ensures var r := SetStatusStep(l, Named(ServerUpdateProhibited));
            !UpdateProhibited(l.status) ==>
              r.outcome.Done? && Validate(r.life.status) && PendingRestore in r.life.status && UpdateProhibited(r.life.status)
  {
    hide Validate, SetStatus, HasPendings, HasProhibitions, Settled;
    SetStatusExact(l.status, Named(ServerUpdateProhibited), HasHosts(l));
    PendingRestoreFits(l.status, l.status);
    ValidateIsRfc5731(l.status);
    var t := SetStatusStep(l, Named(ServerUpdateProhibited)).life.status;
    CoreFlags(l.status);
    CoreFlags(t);
    if PendingUpdate in l.status {
      assert IsPending(PendingUpdate) && IsPending(PendingRestore);
    }
  }

  lemma FourSteps(w: R.World, a: R.Event, b: R.Event, c: R.Event, d: R.Event)
    ensures R.Run(w, [a, b, c, d]) == R.Next(R.Next(R.Next(R.Next(w, a), b), c), d)
  {
    hide R.Next;
    assert [a, b, c, d][1..] == [b, c, d] && [b, c, d][1..] == [c, d];
    R.TwoSteps(R.Next(R.Next(w, a), b), c, d);
  }
}
