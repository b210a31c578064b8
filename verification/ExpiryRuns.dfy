/**
 * Repeated runs of the expiry loop over all stored domains at one instant. Each run sees one page of
 * the listed domains in RoID order, so domains that never leave the list can keep others off the page.
 */
module ExpiryRuns {
  import opened Calendar
  import opened DomainStatuses
  import opened Lifecycle
  import opened Services
  import opened Workflows
  import opened Listings

  function LoopRuns(env: Env, records: map<string, Life>, order: seq<string>, size: nat, now: Instant, k: nat): map<string, Life>
    decreases k
  {
    if k == 0 then records else LoopRuns(env, Pass(env, records, order, size, now), order, size, now, k - 1)
  }

  /** All stored names, each once. */
  ghost predicate Indexes(order: seq<string>, records: map<string, Life>) {
    NoRepeats(order) && ToSet(order) == records.Keys
  }

  predicate IsListed(records: map<string, Life>, name: string, now: Instant) {
    name in records && ListedForExpiry(records[name], now)
  }

  // --- The page -------------------------------------------------------------------------------

  function ListedCount(records: map<string, Life>, names: seq<string>, now: Instant): nat {
    if names == [] then 0
    else (if IsListed(records, names[0], now) then 1 else 0) + ListedCount(records, names[1..], now)
  }

  lemma {:induction false} PageMembers(records: map<string, Life>, order: seq<string>, size: nat, now: Instant)
    requires NoRepeats(order)
    ensures NoRepeats(Page(records, order, size, now))
    ensures forall n :: n in Page(records, order, size, now) ==> n in order && IsListed(records, n, now)
    decreases |order|
  {
    if order != [] && size > 0 {
      var rest := order[1..];
      assert NoRepeats(rest) by {
        assert forall i, j :: 0 <= i < j < |rest| ==> rest[i] == order[i + 1] && rest[j] == order[j + 1];
      }
      assert order[0] !in rest;
      PageMembers(records, rest, size - 1, now);
      PageMembers(records, rest, size, now);
    }
  }

  /** A listed domain is on the page exactly when fewer than `size` listed domains come before it. */
  lemma {:induction false} OnThePage(records: map<string, Life>, order: seq<string>, size: nat, now: Instant, p: nat)
    requires NoRepeats(order) && p < |order| && IsListed(records, order[p], now)
    ensures order[p] in Page(records, order, size, now) <==> ListedCount(records, order[..p], now) < size
    decreases |order|
  {
    if size > 0 {
      var rest := order[1..];
      assert NoRepeats(rest) by {
        assert forall i, j :: 0 <= i < j < |rest| ==> rest[i] == order[i + 1] && rest[j] == order[j + 1];
      }
      if p > 0 {
        var less := if IsListed(records, order[0], now) then size - 1 else size;
        assert order[..p][1..] == rest[..p - 1] && order[p] == rest[p - 1];
        OnThePage(records, rest, less, now, p - 1);
      }
    }
  }

  /** A run changes exactly the domains on its page, each by its own decision. */
  lemma PassIsExact(env: Env, records: map<string, Life>, order: seq<string>, size: nat, now: Instant)
    requires Indexes(order, records)
    ensures var after := Pass(env, records, order, size, now);
            && Indexes(order, after)
            && forall n :: n in records ==>
                 after[n] == if n in Page(records, order, size, now) then RenewOrExpire(env, records[n], now) else records[n]
  {
    hide RenewOrExpire, Page;
    PageMembers(records, order, size, now);
    PassIsPointwise(env, records, Page(records, order, size, now), now);
  }

  /** A domain that is not overdue, or is waiting for a deletion, a renewal or a restore, is left alone. */
  lemma WaitingIsLeftAlone(env: Env, records: map<string, Life>, order: seq<string>, size: nat, now: Instant, n: string)
    requires Indexes(order, records) && n in records
    requires records[n].expiryDate >= now || !(records[n].status !! {PendingDelete, PendingRenew, PendingRestore})
    ensures n in Pass(env, records, order, size, now) && Pass(env, records, order, size, now)[n] == records[n]
  {
    hide Page, Pass, RenewOrExpire;
    PassIsExact(env, records, order, size, now);
    PageMembers(records, order, size, now);
  }

  /** Every other domain is on the page of a run that has room for it, and so gets its decision. */
  lemma OverdueIsDecided(env: Env, records: map<string, Life>, order: seq<string>, size: nat, now: Instant, p: nat)
    requires Indexes(order, records) && p < |order| && ListedCount(records, order[..p], now) < size
    requires order[p] in records && records[order[p]].expiryDate < now
    requires records[order[p]].status !! {PendingDelete, PendingRenew, PendingRestore}
    ensures order[p] in Pass(env, records, order, size, now)
    ensures Pass(env, records, order, size, now)[order[p]] == RenewOrExpire(env, records[order[p]], now)
  {
    hide Page, Pass, RenewOrExpire;
    PassIsExact(env, records, order, size, now);
    OnThePage(records, order, size, now, p);
  }

  // --- One domain -----------------------------------------------------------------------------

  /** One more than the years that an expiry date lies behind. */
  function Lag(l: Life, now: Instant): nat {
    if Year(now) < Year(l.expiryDate) then 0 else Year(now) - Year(l.expiryDate) + 1
  }

  /** Still listed after as many decisions as there are years to catch up on. */
  predicate Stubborn(env: Env, l: Life, now: Instant) {
    ListedForExpiry(Passes(env, l, now, Lag(l, now)), now)
  }

  /** The decisions it takes at most to get the domain off the list. */
  function Todo(env: Env, l: Life, now: Instant): nat {
    if ListedForExpiry(l, now) && !Stubborn(env, l, now) then Lag(l, now) else 0
  }

  /** A decision changes nothing, or takes the domain off the list, or catches up one year. */
  lemma DecisionShape(env: Env, l: Life, now: Instant)
    requires ListedForExpiry(l, now)
    ensures var after := RenewOrExpire(env, l, now);
            after == l || !ListedForExpiry(after, now) || after.expiryDate == AddYears(l.expiryDate, 1)
  {
    hide AddYears, UnSetEach, Validate, HasPendings, HasProhibitions;
  }

  lemma ListedHasLag(l: Life, now: Instant)
    requires ListedForExpiry(l, now)
    ensures Lag(l, now) > 0
  {
    hide Year;
    if Year(now) < Year(l.expiryDate) {
      LaterYearIsLater(now, l.expiryDate);
    }
  }

  lemma {:induction false} UnchangedStays(env: Env, l: Life, now: Instant, k: nat)
    requires !ListedForExpiry(l, now) || RenewOrExpire(env, l, now) == l
    ensures Passes(env, l, now, k) == l
  {
    hide RenewOrExpire;
    if k > 0 && ListedForExpiry(l, now) {
      UnchangedStays(env, l, now, k - 1);
    }
  }

  /** A decision leaves a stubborn domain stubborn and listed, and gets any other one closer to leaving the list. */
  lemma DecisionProgress(env: Env, l: Life, now: Instant)
    requires ListedForExpiry(l, now)
    ensures var after := RenewOrExpire(env, l, now);
            && (Stubborn(env, after, now) <==> Stubborn(env, l, now))
            && Todo(env, after, now) <= Todo(env, l, now)
            && (!Stubborn(env, l, now) ==> Todo(env, after, now) < Todo(env, l, now))
  {
    hide RenewOrExpire, Year, AddYears, ListedForExpiry;
    var after := RenewOrExpire(env, l, now);
    ListedHasLag(l, now);
    DecisionShape(env, l, now);
    if after == l {
      UnchangedStays(env, l, now, Lag(l, now));
    } else if !ListedForExpiry(after, now) {
      UnchangedStays(env, after, now, Lag(l, now) - 1);
      UnchangedStays(env, after, now, Lag(after, now));
    } else {
      AddYearsLands(l.expiryDate, 1);
    }
  }

  lemma StubbornIsListed(env: Env, l: Life, now: Instant)
    requires Stubborn(env, l, now)
    ensures ListedForExpiry(l, now)
  {
    hide RenewOrExpire, ListedForExpiry, Lag;
    if !ListedForExpiry(l, now) {
      UnchangedStays(env, l, now, Lag(l, now));
    }
  }

  /** An unprotected domain is stubborn exactly when it is stuck on a leap day. */
  lemma StubbornWhenUnprotected(env: Env, l: Life, now: Instant)
    requires Unprotected(env, l) && ListedForExpiry(l, now)
    ensures Stubborn(env, l, now) <==> StuckOnLeapDay(env, l, now)
  {
    hide Unprotected, StuckOnLeapDay, RenewOrExpire, Year, AddYears;
    if StuckOnLeapDay(env, l, now) {
      StuckStays(env, l, now, Lag(l, now));
    } else {
      EnoughPasses(env, l, now, Lag(l, now));
    }
  }

  /** A domain that may be neither renewed nor deleted is stubborn, and so stays on the page. */
  lemma ProtectedIsStubborn(env: Env, l: Life, now: Instant)
    requires ListedForExpiry(l, now) && !CanBeRenewed(l) && ServerDeleteProhibited in l.status
    ensures RenewOrExpire(env, l, now) == l && Stubborn(env, l, now)
  {
    hide HasPendings, HasProhibitions, Lag;
    UnchangedStays(env, l, now, Lag(l, now));
  }

  // --- All domains ----------------------------------------------------------------------------

  predicate IsStubborn(env: Env, records: map<string, Life>, name: string, now: Instant) {
    name in records && Stubborn(env, records[name], now)
  }

  function StubbornCount(env: Env, records: map<string, Life>, names: seq<string>, now: Instant): nat {
    if names == [] then 0
    else (if IsStubborn(env, records, names[0], now) then 1 else 0) + StubbornCount(env, records, names[1..], now)
  }

  lemma {:induction false} StubbornAreListed(env: Env, records: map<string, Life>, names: seq<string>, now: Instant)
    ensures StubbornCount(env, records, names, now) <= ListedCount(records, names, now)
    ensures (forall n :: n in names && IsListed(records, n, now) ==> IsStubborn(env, records, n, now)) ==>
              StubbornCount(env, records, names, now) == ListedCount(records, names, now)
  {
    hide Stubborn, ListedForExpiry;
    if names != [] {
      StubbornAreListed(env, records, names[1..], now);
      if IsStubborn(env, records, names[0], now) {
        StubbornIsListed(env, records[names[0]], now);
      }
    }
  }

  lemma {:induction false} CountsUpTo(env: Env, records: map<string, Life>, names: seq<string>, p: nat, now: Instant)
    requires p <= |names|
    ensures StubbornCount(env, records, names[..p], now) <= StubbornCount(env, records, names, now)
  {
    hide IsStubborn;
    if p > 0 {
      CountsUpTo(env, records, names[1..], p - 1, now);
      assert names[..p][1..] == names[1..][..p - 1];
    }
  }

  /** What a run does to the counts, domain by domain. */
  ghost predicate Follows(env: Env, before: map<string, Life>, after: map<string, Life>, now: Instant) {
    && before.Keys == after.Keys
    && forall n :: n in before ==>
         && (IsStubborn(env, after, n, now) <==> IsStubborn(env, before, n, now))
         && Todo(env, after[n], now) <= Todo(env, before[n], now)
         && (IsListed(after, n, now) ==> IsListed(before, n, now))
  }

  lemma PassFollows(env: Env, records: map<string, Life>, order: seq<string>, size: nat, now: Instant)
    requires Indexes(order, records)
    ensures Follows(env, records, Pass(env, records, order, size, now), now)
  {
    hide RenewOrExpire, Page, Pass, Stubborn, Todo, ListedForExpiry;
    PassIsExact(env, records, order, size, now);
    PageMembers(records, order, size, now);
    forall n | n in Page(records, order, size, now)
      ensures n in records && ListedForExpiry(records[n], now)
      ensures var after := RenewOrExpire(env, records[n], now);
              && (Stubborn(env, after, now) <==> Stubborn(env, records[n], now))
              && Todo(env, after, now) <= Todo(env, records[n], now)
    {
      DecisionProgress(env, records[n], now);
    }
  }

  lemma {:induction false} FollowingKeepsStubbornCount(env: Env, before: map<string, Life>, after: map<string, Life>,
                                                       names: seq<string>, now: Instant)
    requires Follows(env, before, after, now)
    ensures StubbornCount(env, after, names, now) == StubbornCount(env, before, names, now)
    ensures ListedCount(after, names, now) <= ListedCount(before, names, now)
  {
    hide Stubborn, ListedForExpiry, Todo;
    if names != [] {
      FollowingKeepsStubbornCount(env, before, after, names[1..], now);
    }
  }

  /** Behind a full page of stubborn domains nothing ever happens to a domain. */
  lemma {:induction false} StarvedForever(env: Env, records: map<string, Life>, order: seq<string>, size: nat, now: Instant,
                                          p: nat, k: nat)
    requires Indexes(order, records) && p < |order| && order[p] in records
    requires StubbornCount(env, records, order[..p], now) >= size
    ensures order[p] in LoopRuns(env, records, order, size, now, k)
            && LoopRuns(env, records, order, size, now, k)[order[p]] == records[order[p]]
    decreases k
  {
    hide RenewOrExpire, Pass, Page, Stubborn, ListedForExpiry;
    if k > 0 {
      var after := Pass(env, records, order, size, now);
      PassIsExact(env, records, order, size, now);
      PassFollows(env, records, order, size, now);
      FollowingKeepsStubbornCount(env, records, after, order[..p], now);
      StubbornAreListed(env, records, order[..p], now);
      PageMembers(records, order, size, now);
      if IsListed(records, order[p], now) {
        OnThePage(records, order, size, now, p);
      }
      StarvedForever(env, after, order, size, now, p, k - 1);
    }
  }

  lemma {:induction false} StubbornForever(env: Env, records: map<string, Life>, order: seq<string>, size: nat, now: Instant,
                                           n: string, k: nat)
    requires Indexes(order, records) && IsStubborn(env, records, n, now)
    ensures IsListed(LoopRuns(env, records, order, size, now, k), n, now)
    decreases k
  {
    hide RenewOrExpire, Pass, Page, Stubborn, ListedForExpiry;
    if k == 0 {
      StubbornIsListed(env, records[n], now);
    } else {
      PassIsExact(env, records, order, size, now);
      PassFollows(env, records, order, size, now);
      StubbornForever(env, Pass(env, records, order, size, now), order, size, now, n, k - 1);
    }
  }

  // --- Progress -------------------------------------------------------------------------------

  function Work(env: Env, records: map<string, Life>, names: seq<string>, now: Instant): nat {
    if names == [] then 0
    else (if names[0] in records then Todo(env, records[names[0]], now) else 0) + Work(env, records, names[1..], now)
  }

  lemma {:induction false} WorkShrinks(env: Env, before: map<string, Life>, after: map<string, Life>, names: seq<string>,
                                       now: Instant, q: int)
    requires Follows(env, before, after, now) && -1 <= q < |names|
    requires q >= 0 ==> names[q] in before && Todo(env, after[names[q]], now) < Todo(env, before[names[q]], now)
    ensures Work(env, after, names, now) <= Work(env, before, names, now)
    ensures q >= 0 ==> Work(env, after, names, now) < Work(env, before, names, now)
    decreases |names|
  {
    hide Todo, IsStubborn, IsListed;
    if names != [] {
      WorkShrinks(env, before, after, names[1..], now, if q > 0 then q - 1 else -1);
    }
  }

  /** The first domain that is listed but not stubborn. */
  lemma FirstWilling(env: Env, records: map<string, Life>, order: seq<string>, now: Instant, p: nat) returns (q: nat)
    requires p < |order| && IsListed(records, order[p], now) && !IsStubborn(env, records, order[p], now)
    ensures q <= p && IsListed(records, order[q], now) && !IsStubborn(env, records, order[q], now)
    ensures forall i :: 0 <= i < q && IsListed(records, order[i], now) ==> IsStubborn(env, records, order[i], now)
  {
    hide IsListed, IsStubborn;
    q := 0;
    while !(IsListed(records, order[q], now) && !IsStubborn(env, records, order[q], now))
      invariant q <= p
      invariant forall i :: 0 <= i < q && IsListed(records, order[i], now) ==> IsStubborn(env, records, order[i], now)
      decreases p - q
    {
      q := q + 1;
    }
  }

  /** While a willing domain has fewer than a page of stubborn ones before it, every run does some of the work. */
  lemma PassWorks(env: Env, records: map<string, Life>, order: seq<string>, size: nat, now: Instant, p: nat)
    requires Indexes(order, records) && p < |order|
    requires IsListed(records, order[p], now) && !IsStubborn(env, records, order[p], now)
    requires StubbornCount(env, records, order[..p], now) < size
    ensures Work(env, Pass(env, records, order, size, now), order, now) < Work(env, records, order, now)
  {
    hide RenewOrExpire, Pass, Page, Stubborn, ListedForExpiry, Todo;
    var q := FirstWilling(env, records, order, now, p);
    StubbornAreListed(env, records, order[..q], now);
    CountsUpTo(env, records, order[..p], q, now);
    assert order[..p][..q] == order[..q];
    OnThePage(records, order, size, now, q);
    PassIsExact(env, records, order, size, now);
    PassFollows(env, records, order, size, now);
    DecisionProgress(env, records[order[q]], now);
    WorkShrinks(env, records, Pass(env, records, order, size, now), order, now, q);
  }

  lemma {:induction false} EventuallyServed(env: Env, records: map<string, Life>, order: seq<string>, size: nat, now: Instant,
                                            p: nat) returns (k: nat)
    requires Indexes(order, records) && p < |order|
    requires !IsStubborn(env, records, order[p], now)
    requires StubbornCount(env, records, order[..p], now) < size
    ensures !IsListed(LoopRuns(env, records, order, size, now, k), order[p], now)
    decreases Work(env, records, order, now)
  {
    hide RenewOrExpire, Pass, Page, IsStubborn, IsListed, Todo, Work;
    if !IsListed(records, order[p], now) {
      k := 0;
    } else {
      var after := Pass(env, records, order, size, now);
      PassWorks(env, records, order, size, now, p);
      PassIsExact(env, records, order, size, now);
      PassFollows(env, records, order, size, now);
      FollowingKeepsStubbornCount(env, records, after, order[..p], now);
      assert order[p] in ToSet(order);
      var rest := EventuallyServed(env, after, order, size, now, p);
      k := rest + 1;
    }
  }

  /**
   * A stored domain gets off the list after finitely many runs exactly when it is not stubborn itself
   * and fewer than a page of stubborn domains have smaller RoIDs.
   */
  lemma ServedUnlessStubborn(env: Env, records: map<string, Life>, order: seq<string>, size: nat, now: Instant, p: nat)
    requires Indexes(order, records) && p < |order| && IsListed(records, order[p], now)
    ensures (exists k :: !IsListed(LoopRuns(env, records, order, size, now, k), order[p], now)) <==>
              !IsStubborn(env, records, order[p], now) && StubbornCount(env, records, order[..p], now) < size
  {
    hide LoopRuns, Stubborn, ListedForExpiry;
    if IsStubborn(env, records, order[p], now) {
      forall k: nat
        ensures IsListed(LoopRuns(env, records, order, size, now, k), order[p], now)
      {
        StubbornForever(env, records, order, size, now, order[p], k);
      }
    } else if StubbornCount(env, records, order[..p], now) >= size {
      forall k: nat
        ensures IsListed(LoopRuns(env, records, order, size, now, k), order[p], now)
      {
        StarvedForever(env, records, order, size, now, p, k);
      }
    } else {
      var k := EventuallyServed(env, records, order, size, now, p);
    }
  }

  /**
   * For an overdue unprotected domain: finitely many runs renew it past the present or set its
   * `pendingDelete` exactly when it is not stuck on a leap day and not behind a page of stubborn domains.
   */
  lemma RunsDealUnlessStubborn(env: Env, records: map<string, Life>, order: seq<string>, size: nat, now: Instant, p: nat)
    requires Indexes(order, records) && p < |order| && IsListed(records, order[p], now)
    requires Unprotected(env, records[order[p]])
    ensures (exists k :: var after := LoopRuns(env, records, order, size, now, k);
                         order[p] in after && Dealt(after[order[p]], now)) <==>
              !StuckOnLeapDay(env, records[order[p]], now) && StubbornCount(env, records, order[..p], now) < size
  {
    hide Unprotected, StuckOnLeapDay, Stubborn, StubbornCount, LoopRuns;
    StubbornWhenUnprotected(env, records[order[p]], now);
    ServedUnlessStubborn(env, records, order, size, now, p);
    forall k: nat
      ensures var after := LoopRuns(env, records, order, size, now, k);
              order[p] in after && (Dealt(after[order[p]], now) <==> !IsListed(after, order[p], now))
    {
      DealtIsUnlisted(env, records, order, size, now, order[p], k);
    }
  }

  /** Not kept off the list by a pending renewal or restore. */
  predicate Undisturbed(l: Life) { PendingRenew !in l.status && PendingRestore !in l.status }

  lemma {:induction false} UnSettingAddsNothing(l: Life, flags: seq<Flag>, f: Flag)
    requires f != OK && f != Inactive && f !in l.status
    ensures f !in UnSetEach(l, flags).life.status
    decreases |flags|
  {
    hide Validate, HasPendings, HasProhibitions, Refusal;
    if flags != [] {
      UnSettingAddsNothing(UnSetStatusStep(l, Named(flags[0])).life, flags[1..], f);
    }
  }

  lemma DecisionDisturbsNothing(env: Env, l: Life, now: Instant)
    requires Undisturbed(l)
    ensures Undisturbed(RenewOrExpire(env, l, now))
  {
    hide AddYears, UnSetEach, Validate, HasPendings, HasProhibitions;
    UnSettingAddsNothing(WithoutHosts(l), CONFLICTS_WITH_EXPIRY, PendingRenew);
    UnSettingAddsNothing(WithoutHosts(l), CONFLICTS_WITH_EXPIRY, PendingRestore);
  }

  lemma {:induction false} DealtIsUnlisted(env: Env, records: map<string, Life>, order: seq<string>, size: nat, now: Instant,
                                           n: string, k: nat)
    requires Indexes(order, records) && n in records && Undisturbed(records[n])
    ensures var after := LoopRuns(env, records, order, size, now, k);
            n in after && (Dealt(after[n], now) <==> !IsListed(after, n, now))
    decreases k
  {
    hide RenewOrExpire, Pass, Page;
    if k > 0 {
      PassIsExact(env, records, order, size, now);
      DecisionDisturbsNothing(env, records[n], now);
      DealtIsUnlisted(env, Pass(env, records, order, size, now), order, size, now, n, k - 1);
    }
  }

  // --- One page for all -----------------------------------------------------------------------

  lemma {:induction false} MoreAreListed(records: map<string, Life>, order: seq<string>, now: Instant, p: nat)
    requires p < |order| && IsListed(records, order[p], now)
    ensures ListedCount(records, order[..p], now) < ListedCount(records, order, now)
  {
    hide IsListed;
    if p > 0 {
      MoreAreListed(records, order[1..], now, p - 1);
      assert order[..p][1..] == order[1..][..p - 1];
    }
  }

  /** When the listed domains fit on one page, every run takes every domain one decision further. */
  lemma {:induction false} OnePageServesAll(env: Env, records: map<string, Life>, order: seq<string>, size: nat, now: Instant,
                                            k: nat)
    requires Indexes(order, records) && ListedCount(records, order, now) <= size
    ensures LoopRuns(env, records, order, size, now, k) == map n | n in records :: Passes(env, records[n], now, k)
    decreases k
  {
    hide RenewOrExpire, Pass, Page, ListedForExpiry, Stubborn, Todo;
    if k > 0 {
      var after := Pass(env, records, order, size, now);
      PassIsExact(env, records, order, size, now);
      PassFollows(env, records, order, size, now);
      FollowingKeepsStubbornCount(env, records, after, order, now);
      OnePageServesAll(env, after, order, size, now, k - 1);
      forall n | n in records
        ensures Passes(env, records[n], now, k) == Passes(env, after[n], now, k - 1)
      {
        OnePageServes(env, records, order, size, now, n);
        if !IsListed(records, n, now) {
          UnchangedStays(env, records[n], now, k - 1);
        }
      }
    }
  }

  lemma OnePageServes(env: Env, records: map<string, Life>, order: seq<string>, size: nat, now: Instant, n: string)
    requires Indexes(order, records) && ListedCount(records, order, now) <= size && n in records
    ensures Pass(env, records, order, size, now).Keys == records.Keys
    ensures Pass(env, records, order, size, now)[n]
            == if IsListed(records, n, now) then RenewOrExpire(env, records[n], now) else records[n]
  {
    hide RenewOrExpire, Pass, Page, ListedForExpiry;
    PassIsExact(env, records, order, size, now);
    PageMembers(records, order, size, now);
    if IsListed(records, n, now) {
      assert n in ToSet(order);
      var p :| 0 <= p < |order| && order[p] == n;
      MoreAreListed(records, order, now, p);
      OnThePage(records, order, size, now, p);
    }
  }
}
