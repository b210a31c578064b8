/**
 * The domain object. Its methods update the object step by step as the registry does; each one is
 * proved to do to the object's value what the functions of `Lifecycle` say. The host list is a Go
 * slice: a backing array of which the first `count` elements are in use, edited in place.
 */
module Domains {
  import opened Outcomes
  import opened Calendar
  import opened DomainStatuses
  import opened Lifecycle
  import H = Hosts

  /** What `append(s[:i], s[i+1:]...)` leaves in the backing array of a slice of length n: the last slot goes stale. */
  function Spliced<T>(a: seq<T>, i: nat, n: nat): (r: seq<T>)
    requires i < n <= |a|
    ensures |r| == |a|
  {
    a[..i] + a[i + 1..n] + a[n - 1..]
  }

  lemma SplicedPrefix<T>(a: seq<T>, i: nat, n: nat)
    requires i < n <= |a|
    ensures Spliced(a, i, n)[..n - 1] == a[..n][..i] + a[..n][i + 1..]
  {
  }

  class Domain {
    const name: string
    const clID: string
    const createdAt: Instant
    var upRr: string
    var expiryDate: Instant
    var renewedYears: int
    var status: DomainStatus
    var rgp: RGPStatus
    var backing: array<H.Host>
    var count: nat

    ghost predicate Valid()
      reads this
    {
      count <= backing.Length
    }

    function HostList(): seq<H.Host>
      requires Valid()
      reads this, backing
    {
      backing[..count]
    }

    function Value(): Life
      requires Valid()
      reads this, backing
    {
      Life(name, clID, upRr, createdAt, expiryDate, renewedYears, status, rgp, HostList())
    }

    /** The object as loaded from a stored record. */
    constructor Load(l: Life)
      ensures Valid() && Value() == l && fresh(backing)
      ensures count == backing.Length
    {
      name, clID, upRr, createdAt := l.name, l.clID, l.upRr, l.createdAt;
      expiryDate, renewedYears, status, rgp := l.expiryDate, l.renewedYears, l.status, l.rgp;
      backing := new H.Host[|l.hosts|](i requires 0 <= i < |l.hosts| => l.hosts[i]);
      count := |l.hosts|;
      new;
      assert backing[..count] == l.hosts;
    }

    method SetStatus(s: StatusValue) returns (outcome: Outcome)
      requires Valid()
      modifies `status
      ensures Step(Value(), outcome) == SetStatusStep(old(Value()), s)
    {
      outcome := Refusal(status, s);
      if outcome.Fail? {
        return;
      }
      status := Put(status, s.flag, true);
      status := FollowHosts(status, count > 0);
      status := UnSetOKIfNeeded(status);
      outcome := if Validate(status) then Done else Fail(InvalidStatusCombination);
    }

    method UnSetStatus(s: StatusValue) returns (outcome: Outcome)
      requires Valid()
      modifies `status
      ensures Step(Value(), outcome) == UnSetStatusStep(old(Value()), s)
    {
      outcome := Refusal(status, s);
      if outcome.Fail? {
        return;
      }
      status := Put(status, s.flag, false);
      status := FollowHosts(status, count > 0);
      status := SetOKIfNeeded(status);
      outcome := if Validate(status) then Done else Fail(InvalidStatusCombination);
    }

    // --- Hosts --------------------------------------------------------------------------------

    method ContainsHost(host: H.Host) returns (index: nat, found: bool)
      requires Valid()
      ensures found <==> IndexOf(HostList(), host.name) < count
      ensures found ==> index == IndexOf(HostList(), host.name)
    {
      index := 0;
      while index < count
        invariant index <= count
        invariant forall j :: 0 <= j < index ==> HostList()[j].name != host.name
      {
        if backing[index].name == host.name {
          return index, true;
        }
        index := index + 1;
      }
      return 0, false;
    }

    method AddHost(host: H.Host, ignoreUpdateProhibitions: bool) returns (index: nat, outcome: Outcome)
      requires Valid()
      modifies this, backing, host
      ensures Valid() && (outcome.Fail? || old(count) < old(backing.Length) ==> backing == old(backing))
      ensures outcome.Done? && old(count) == old(backing.Length) ==> fresh(backing)
      ensures Step(Value(), outcome)
              == AddHostStep(old(Value()), host, old(host.addresses) != [], ignoreUpdateProhibitions,
                             H.SetHostStatus(old(host.status), H.Linked).outcome)
      ensures host.addresses == old(host.addresses)
      ensures outcome.Done? ==>
                && index < count && HostList()[index] == host
                && host.status == H.SetHostStatus(old(host.status), H.Linked).status
                && host.inBailiwick == (old(host.inBailiwick) || ParentDomain(host.name) == name)
    {
      hide HasPendings, HasProhibitions, H.Validated, H.Busy, ParentDomain, H.SetHostStatus, SetOKIfNeeded, FollowHosts;
      index := 0;
      if (ClientUpdateProhibited in status || ServerUpdateProhibited in status || PendingUpdate in status)
         && !ignoreUpdateProhibitions {
        return 0, Fail(UpdateNotAllowed);
      }
      var _, duplicate := ContainsHost(host);
      if duplicate {
        return 0, Fail(DuplicateHost);
      }
      if count >= MAX_HOSTS_PER_DOMAIN {
        return 0, Fail(MaxHostsExceeded);
      }
      if clID != host.clID {
        return 0, Fail(HostSponsorMismatch);
      }
      if ParentDomain(host.name) == name {
        if |host.addresses| == 0 {
          return 0, Fail(InBailiwickHostNeedsAddress);
        }
        host.inBailiwick := true;
      }
      outcome := host.SetStatus(H.Linked);
      if outcome.Fail? {
        return;
      }
      Attach(host);
      index := count - 1;
    }

    method Attach(host: H.Host)
      requires Valid()
      modifies `backing, `count, `status, backing
      ensures Valid() && (if old(count) < old(backing.Length) then backing == old(backing) else fresh(backing))
      ensures HostList() == old(HostList()) + [host]
      ensures status == SetOKIfNeeded(FollowHosts(old(status), true))
    {
      hide SetOKIfNeeded;
      Append(host);
      status := FollowHosts(status, count > 0);
      status := SetOKIfNeeded(status);
    }

    /** Go's `append`: in place while there is room, into a larger array otherwise. */
    method Append(host: H.Host)
      requires Valid()
      modifies `backing, `count, backing
      ensures Valid() && (if old(count) < old(backing.Length) then backing == old(backing) else fresh(backing))
      ensures HostList() == old(HostList()) + [host]
    {
      if count == backing.Length {
        var larger := new H.Host[2 * count + 1](_ => host);
        for k := 0 to count
          modifies larger
          invariant forall j :: 0 <= j < k ==> larger[j] == backing[j]
        {
          larger[k] := backing[k];
        }
        backing := larger;
      }
      backing[count] := host;
      count := count + 1;
    }

    /** Removes a host by name, shifting the rest of the array in place. */
    method RemoveHost(host: H.Host) returns (outcome: Outcome)
      requires Valid()
      modifies `count, `status, backing
      ensures Valid() && Step(Value(), outcome) == RemoveHostStep(old(Value()), host.name)
      ensures var i := IndexOf(old(HostList()), host.name);
              && outcome == (if i < old(count) then Done else Fail(HostNotFound))
              && count == (if i < old(count) then old(count) - 1 else old(count))
              && backing[..] == (if i < old(count) then Spliced(old(backing[..]), i, old(count)) else old(backing[..]))
              && status == (if i < old(count) then FollowHosts(old(status), count > 0) else old(status))
    {
      hide Spliced, FollowHosts;
      if count == 0 {
        return Fail(HostNotFound);
      }
      var index, found := ContainsHost(host);
      if !found {
        return Fail(HostNotFound);
      }
      RemoveAt(index);
      outcome := Done;
    }

    method RemoveAt(index: nat)
      requires Valid() && index < count
      modifies `count, `status, backing
      ensures count == old(count) - 1
      ensures backing[..] == Spliced(old(backing[..]), index, old(count))
      ensures HostList() == old(HostList())[..index] + old(HostList())[index + 1..]
      ensures status == FollowHosts(old(status), count > 0)
    {
      hide Spliced, FollowHosts;
      SplicedPrefix(backing[..], index, count);
      ghost var before := backing[..];
      assert before[..count] == HostList();
      ShiftLeft(index);
      count := count - 1;
      assert backing[..count] == backing[..][..count];
      status := FollowHosts(status, count > 0);
    }

    /** The copy inside `append(d.Hosts[:index], d.Hosts[index+1:]...)`. */
    method ShiftLeft(index: nat)
      requires Valid() && index < count
      modifies backing
      ensures backing[..] == Spliced(old(backing[..]), index, count)
    {
      for k := index to count - 1
        invariant forall j :: 0 <= j < index ==> backing[j] == old(backing[j])
        invariant forall j :: index <= j < k ==> backing[j] == old(backing[j + 1])
        invariant forall j :: k <= j < backing.Length ==> backing[j] == old(backing[j])
      {
        backing[k] := backing[k + 1];
      }
    }

    // --- Renewal ------------------------------------------------------------------------------

    method Renew(years: int, isAutoRenew: bool, phase: Option<Policy>, t0: Instant, t1: Instant) returns (outcome: Outcome)
      requires Valid() && t0 <= t1
      modifies `expiryDate, `renewedYears, `upRr, `rgp
      ensures Step(Value(), outcome) == RenewStep(old(Value()), years, isAutoRenew, phase, t0, t1)
    {
      if phase.None? {
        return Fail(PhaseNotProvided);
      }
      if years == 0 {
        return Fail(ZeroRenewalPeriod);
      }
      if ClientRenewProhibited in status || ServerRenewProhibited in status || HasPendings(status) {
        return Fail(RenewNotAllowed);
      }
      if AddYears(expiryDate, years) > AddYears(t0, phase.value.maxHorizon) {
        return Fail(RenewExceedsMaxHorizon);
      }
      Extend(years, isAutoRenew, phase.value, t1);
      return Done;
    }

    method ForceRenew(years: int, isAutoRenew: bool, phase: Option<Policy>, now: Instant) returns (outcome: Outcome)
      requires Valid()
      modifies `expiryDate, `renewedYears, `upRr, `rgp
      ensures Step(Value(), outcome) == ForceRenewStep(old(Value()), years, isAutoRenew, phase, now)
    {
      if phase.None? {
        return Fail(PhaseNotProvided);
      }
      if years == 0 {
        return Fail(ZeroRenewalPeriod);
      }
      Extend(years, isAutoRenew, phase.value, now);
      return Done;
    }

    method Extend(years: int, isAutoRenew: bool, policy: Policy, now: Instant)
      requires Valid()
      modifies `expiryDate, `renewedYears, `upRr, `rgp
      ensures Value() == Extended(old(Value()), years, isAutoRenew, policy, now)
    {
      expiryDate := AddYears(expiryDate, years);
      renewedYears := renewedYears + years;
      upRr := clID;
      if isAutoRenew {
        rgp := rgp.(autoRenewPeriodEnd := AddDays(now, policy.autoRenewalGP));
      } else {
        rgp := rgp.(renewPeriodEnd := AddDays(now, policy.renewalGP));
      }
    }

    // --- End of life --------------------------------------------------------------------------

    method MarkForDeletion(policy: Policy, t0: Instant, t1: Instant, t2: Instant) returns (outcome: Outcome)
      requires Valid() && t0 <= t1 <= t2
      modifies `status, `upRr, `rgp
      ensures Step(Value(), outcome) == MarkForDeletionStep(old(Value()), policy, t0, t1, t2)
    {
      hide HasPendings, HasProhibitions, Validate, DomainStatuses.SetStatus;
      if ClientDeleteProhibited in status || ServerDeleteProhibited in status || PendingDelete in status {
        return Fail(DeleteNotAllowed);
      }
      outcome := SetStatus(Named(PendingDelete));
      if outcome.Fail? {
        return Fail(DeleteNotAllowed);
      }
      upRr := clID;
      if t0 < rgp.addPeriodEnd {
        rgp := rgp.(redemptionPeriodEnd := t1);
        rgp := rgp.(purgeDate := t2);
        return Done;
      }
      rgp := rgp.(redemptionPeriodEnd := AddDays(t1, policy.redemptionGP));
      rgp := rgp.(purgeDate := AddDays(rgp.redemptionPeriodEnd, policy.pendingDeleteGP));
      return Done;
    }

    method Expire(policy: Policy, now: Instant) returns (outcome: Outcome)
      requires Valid()
      modifies `status, `rgp
      ensures Step(Value(), outcome) == ExpireStep(old(Value()), policy, now)
    {
      if now < expiryDate {
        return Fail(ExpiryTooEarly);
      }
      if ServerDeleteProhibited in status {
        return Fail(ExpiryNotAllowed);
      }
      var flags := CONFLICTS_WITH_EXPIRY;
      while flags != []
        invariant Value() == old(Value()).(status := status)
        invariant UnSetEach(Value(), flags) == UnSetEach(old(Value()), CONFLICTS_WITH_EXPIRY)
        decreases |flags|
      {
        outcome := UnSetStatus(Named(flags[0]));
        if outcome.Fail? {
          return Fail(ExpiryFailed);
        }
        flags := flags[1..];
      }
      outcome := SetStatus(Named(PendingDelete));
      if outcome.Fail? {
        return Fail(ExpiryFailed);
      }
      rgp := rgp.(redemptionPeriodEnd := AddDays(expiryDate, policy.redemptionGP));
      rgp := rgp.(purgeDate := AddDays(rgp.redemptionPeriodEnd, policy.pendingDeleteGP));
      return Done;
    }

    method Restore(now: Instant) returns (outcome: Outcome)
      requires Valid()
      modifies `status, `upRr
      ensures Step(Value(), outcome) == RestoreStep(old(Value()), now)
    {
      if PendingDelete !in status || !(now < rgp.redemptionPeriodEnd) {
        return Fail(RestoreNotAllowed);
      }
      outcome := UnSetStatus(Named(PendingDelete));
      if outcome.Fail? {
        return Fail(RestoreNotAllowed);
      }
      outcome := SetStatus(Named(PendingRestore));
      if outcome.Fail? {
        return Fail(RestoreNotAllowed);
      }
      upRr := clID;
      return Done;
    }
  }
}
