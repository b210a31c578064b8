/**
 * Removing all hosts of a domain, and purging it.
 *
 * `RemoveAllDomainHosts` ranges over the host list while `RemoveHost` shifts the very array it ranges
 * over, so every second host is skipped. What one pass leaves behind, and how many retried passes a
 * purge needs, is proved here.
 */
module Purge {
  import opened Outcomes
  import opened Calendar
  import opened DomainStatuses
  import opened Lifecycle
  import opened Domains
  import opened Listings
  import H = Hosts

  predicate DistinctNames(hosts: seq<H.Host>) {
    forall i, j :: 0 <= i < j < |hosts| ==> hosts[i].name != hosts[j].name
  }

  // --- The array during a pass ----------------------------------------------------------------

  /** Slot j of the array after the first k hosts with an even position have been removed. */
  function ShiftedAt<T>(a: seq<T>, k: nat, j: nat): T
    requires j < |a|
  {
    if j < k && 2 * j + 1 < |a| then a[2 * j + 1]
    else if j + k < |a| then a[j + k]
    else a[|a| - 1]
  }

  function Shifted<T>(a: seq<T>, k: nat): (r: seq<T>)
    ensures |r| == |a|
  {
    seq(|a|, j requires 0 <= j < |a| => ShiftedAt(a, k, j))
  }

  /** The elements at odd positions, without a last one that has nothing after it. */
  function Skipped<T>(a: seq<T>): (r: seq<T>)
    ensures |r| == if a == [] then 0 else (|a| - 1) / 2
  {
    seq(if a == [] then 0 else (|a| - 1) / 2, j requires 0 <= j < (|a| - 1) / 2 => a[2 * j + 1])
  }

  /** How far the pass still finds a host that nothing has been shifted over yet. */
  function Half(n: nat, i: nat): nat { if i <= (n + 1) / 2 then i else (n + 1) / 2 }

  lemma OnlyHostOfItsName(list: seq<H.Host>, name: string, q: nat)
    requires q < |list| && list[q].name == name
    requires forall j :: 0 <= j < |list| && j != q ==> list[j].name != name
    ensures IndexOf(list, name) == q
  {
  }

  /** Up to the middle no two of the hosts that are left have the same name. */
  lemma LeftNamesDiffer(a: seq<H.Host>, i: nat, q: nat)
    requires DistinctNames(a) && 2 * i <= |a| && q < |a| - i
    ensures forall j :: 0 <= j < |a| - i && j != q ==> Shifted(a, i)[j].name != Shifted(a, i)[q].name
  {
    var s := if q < i then 2 * q + 1 else q + i;
    forall j | 0 <= j < |a| - i && j != q
      ensures Shifted(a, i)[j].name != Shifted(a, i)[q].name
    {
      var r := if j < i then 2 * j + 1 else j + i;
      assert Shifted(a, i)[j] == a[r] && Shifted(a, i)[q] == a[s];
      assert r < s || s < r;
    }
  }

  /** Removing slot i moves the array on by one iteration: slots below i stay, those behind move up, the rest stays. */
  lemma IterationMovesOn<T>(a: seq<T>, i: nat)
    requires 2 * i < |a|
    ensures Spliced(Shifted(a, i), i, |a| - i) == Shifted(a, i + 1)
  {
    hide ShiftedAt;
    var before, after := Shifted(a, i), Shifted(a, i + 1);
    var spliced := Spliced(before, i, |a| - i);
    forall j | 0 <= j < |a|
      ensures spliced[j] == after[j]
    {
      SlotMovesOn(a, i, j);
      assert spliced[j] == if j < i then before[j] else if j < |a| - i - 1 then before[j + 1] else before[j];
    }
  }

  lemma SlotMovesOn<T>(a: seq<T>, i: nat, j: nat)
    requires 2 * i < |a| && j < |a|
    ensures ShiftedAt(a, i + 1, j)
            == if j < i then ShiftedAt(a, i, j)
               else if j < |a| - i - 1 then ShiftedAt(a, i, j + 1)
               else ShiftedAt(a, i, j)
  {
  }

  /** One iteration of the first half: slot i holds host 2i, which is the i-th of those left. */
  lemma IterationShifts(a: seq<H.Host>, i: nat)
    requires DistinctNames(a) && 2 * i < |a|
    ensures IndexOf(Shifted(a, i)[..|a| - i], Shifted(a, i)[i].name) == i
    ensures Spliced(Shifted(a, i), i, |a| - i) == Shifted(a, i + 1)
  {
    hide Shifted, Spliced, DistinctNames, IndexOf;
    LeftNamesDiffer(a, i, i);
    OnlyHostOfItsName(Shifted(a, i)[..|a| - i], Shifted(a, i)[i].name, i);
    IterationMovesOn(a, i);
  }

  /** With an even number of hosts the next slot is stale, but the last host it repeats is still there. */
  lemma MiddleIteration(a: seq<H.Host>, i: nat)
    requires DistinctNames(a) && 0 < 2 * i == |a|
    ensures IndexOf(Shifted(a, i)[..|a| - i], Shifted(a, i)[i].name) == i - 1
    ensures Shifted(a, i)[i - 1] == Shifted(a, i)[i]
    ensures Spliced(Shifted(a, i), i - 1, |a| - i) == Shifted(a, i)
  {
    LeftNamesDiffer(a, i, i - 1);
    OnlyHostOfItsName(Shifted(a, i)[..|a| - i], Shifted(a, i)[i].name, i - 1);
  }

  /** Past the middle only a stale slot is left to look at, and its host is gone. */
  lemma StaleSlotIsGone(a: seq<H.Host>, i: nat)
    requires DistinctNames(a) && |a| / 2 < i < |a|
    ensures IndexOf(Skipped(a), Shifted(a, (|a| + 1) / 2)[i].name) == |Skipped(a)|
  {
  }

  lemma NothingShifted<T>(a: seq<T>)
    ensures Shifted(a, 0) == a
    ensures a == [] ==> Skipped(a) == a
  {
  }

  lemma WhatIsLeft<T>(a: seq<T>)
    requires a != []
    ensures Shifted(a, (|a| + 1) / 2)[..|a| - |a| / 2 - 1] == Skipped(a)
  {
  }

  /** Every slot up to the middle still finds a host, and removing it moves the array on by one iteration. */
  lemma SlotFound(a: seq<H.Host>, i: nat)
    requires DistinctNames(a) && i < |a| && i <= |a| / 2 + 1
    ensures var slots := Shifted(a, Half(|a|, i));
            var left := slots[..|a| - i];
            var p := IndexOf(left, slots[i].name);
            if i <= |a| / 2 then
              p < |left| && left[p] == slots[i] && Spliced(slots, p, |a| - i) == Shifted(a, Half(|a|, i + 1))
            else p == |left|
  {
    hide Skipped, Shifted, IndexOf, Spliced, DistinctNames;
    if 2 * i < |a| {
      IterationShifts(a, i);
    } else if 2 * i == |a| {
      MiddleIteration(a, i);
    } else {
      WhatIsLeft(a);
      StaleSlotIsGone(a, i);
    }
  }

  // --- The stored associations ----------------------------------------------------------------

  /** The rows that link one domain to its hosts. */
  class Associations {
    var linked: set<H.Host>

    constructor (linked: set<H.Host>)
      ensures this.linked == linked
    {
      this.linked := linked;
    }

    /** Loading lists every linked host once, in no particular order. */
    method Load() returns (hosts: seq<H.Host>)
      ensures ToSet(hosts) == linked && |hosts| == |linked|
    {
      hosts := [];
      var rest := linked;
      while rest != {}
        invariant rest <= linked && ToSet(hosts) == linked - rest
        invariant |hosts| + |rest| == |linked|
        decreases rest
      {
        var h :| h in rest;
        rest := rest - {h};
        AppendToSet(hosts, h);
        hosts := hosts + [h];
      }
    }

    method Delete(host: H.Host)
      modifies this
      ensures linked == old(linked) - {host}
    {
      linked := linked - {host};
    }
  }

  lemma AppendToSet(hosts: seq<H.Host>, h: H.Host)
    ensures ToSet(hosts + [h]) == ToSet(hosts) + {h}
    ensures h in hosts ==> ToSet(hosts + [h]) == ToSet(hosts)
  {
    assert forall g :: g in hosts + [h] <==> g in hosts || g == h;
  }

  ghost predicate SetOfDistinctNames(hosts: set<H.Host>) {
    forall g, h :: g in hosts && h in hosts && g.name == h.name ==> g == h
  }

  lemma ListingIsDistinct(hosts: seq<H.Host>)
    requires SetOfDistinctNames(ToSet(hosts)) && |hosts| == |ToSet(hosts)|
    ensures DistinctNames(hosts)
  {
    AsLongAsItsSet(hosts);
    forall i, j | 0 <= i < j < |hosts|
      ensures hosts[i].name != hosts[j].name
    {
      assert hosts[i] in ToSet(hosts) && hosts[j] in ToSet(hosts) && hosts[i] != hosts[j];
    }
  }

  // --- One pass -------------------------------------------------------------------------------

  lemma RemovingDropsOne(list: seq<H.Host>, p: nat)
    requires p < |list| && DistinctNames(list)
    ensures ToSet(list[..p] + list[p + 1..]) == ToSet(list) - {list[p]}
    ensures DistinctNames(list[..p] + list[p + 1..])
  {
  }

  /** The state of a pass over the hosts `a` before its i-th iteration. */
  ghost predicate Passing(dom: Domain, store: Associations, a: seq<H.Host>, i: nat)
    reads dom, dom.backing, store
  {
    && dom.Valid() && DistinctNames(a)
    && i <= |a| <= dom.backing.Length && i <= |a| / 2 + 1 && dom.count == |a| - i
    && dom.backing[..|a|] == Shifted(a, Half(|a|, i))
    && DistinctNames(dom.HostList()) && store.linked == ToSet(dom.HostList())
  }

  /** The body of the loop: takes the host in slot i off the domain and out of the stored associations. */
  method DetachSlot(dom: Domain, store: Associations, i: nat, ghost a: seq<H.Host>) returns (outcome: Outcome)
    requires i < |a| && Passing(dom, store, a, i)
    modifies dom`count, dom`status, dom.backing, store
    ensures i <= |a| / 2 ==>
              outcome.Done? && Passing(dom, store, a, i + 1) && dom.status == FollowHosts(old(dom.status), dom.count > 0)
    ensures i > |a| / 2 ==>
              outcome == Fail(HostNotFound) && Passing(dom, store, a, i) && dom.status == old(dom.status)
  {
    hide Skipped, RemoveHostStep, Shifted, IndexOf, Spliced, ToSet, DistinctNames, Domain.Value, FollowHosts;
    var host := dom.backing[i];
    ghost var all, left := dom.backing[..], dom.HostList();
    ghost var current := all[..|a|];
    assert current == dom.backing[..|a|];
    assert left == current[..|a| - i];
    ghost var p := IndexOf(left, host.name);
    SlotFound(a, i);
    hide Half;
    outcome := dom.RemoveHost(host);
    if outcome.Done? {
      SplicedPrefix(all, p, |a| - i);
      SplicedWithin(all, p, |a| - i, |a|);
      RemovingDropsOne(left, p);
      store.Delete(host);
    }
  }

  lemma SplicedWithin<T>(all: seq<T>, p: nat, n: nat, m: nat)
    requires p < n <= m <= |all|
    ensures Spliced(all, p, n)[..m] == Spliced(all[..m], p, n)
  {
    assert all[..m][..p] == all[..p] && all[..m][p + 1..n] == all[p + 1..n];
    assert all[..m][n - 1..] == all[n - 1..][..m - n + 1];
  }

  /**
   * One pass over a domain with n hosts leaves exactly (n - 1) / 2 of them, the ones it skipped, and
   * fails exactly when n is at least 3; the associations it deleted stay deleted even then. Without
   * hosts there is nothing to remove, and not even `inactive` is looked at.
   */
  method RemoveAllDomainHosts(dom: Domain, store: Associations) returns (outcome: Outcome)
    requires dom.Valid() && DistinctNames(dom.HostList()) && store.linked == ToSet(dom.HostList())
    modifies dom`count, dom`status, dom.backing, store
    ensures dom.Valid()
    ensures dom.HostList() == Skipped(old(dom.HostList()))
    ensures store.linked == ToSet(Skipped(old(dom.HostList())))
    ensures dom.status == if old(dom.count) == 0 then old(dom.status) else FollowHosts(old(dom.status), dom.count > 0)
    ensures dom.Value() == old(dom.Value()).(status := dom.status, hosts := dom.HostList())
    ensures outcome == if old(dom.count) >= 3 then Fail(HostNotFound) else Done
  {
    hide ToSet, Shifted, Skipped;
    ghost var a := dom.HostList();
    NothingShifted(a);
    var n, i := dom.count, 0;
    outcome := Done;
    if n > 0 {
      WhatIsLeft(a);
    }
    while i < n
      invariant outcome.Done? && Passing(dom, store, a, i)
      invariant dom.status == if i == 0 then old(dom.status) else FollowHosts(old(dom.status), dom.count > 0)
    {
      outcome := DetachSlot(dom, store, i, a);
      if outcome.Fail? {
        return;
      }
      i := i + 1;
    }
  }

  // --- Purging with retries -------------------------------------------------------------------

  /** The stored rows of one domain. */
  class DomainStore {
    var record: Option<Life>
    var blocked: bool
    const dropCatch: bool
    const associations: Associations

    constructor (record: Life, dropCatch: bool, associations: Associations)
      ensures this.record == Some(record) && !blocked
      ensures this.dropCatch == dropCatch && this.associations == associations
    {
      this.record, this.blocked, this.dropCatch, this.associations := Some(record), false, dropCatch, associations;
    }

    ghost predicate Consistent()
      reads this, associations
    {
      SetOfDistinctNames(associations.linked) && (record.None? ==> associations.linked == {})
    }

    /** The domain with its hosts. */
    method Load() returns (dom: Domain)
      requires record.Some? && Consistent()
      ensures fresh(dom) && fresh(dom.backing) && dom.Valid()
      ensures dom.Value() == record.value.(hosts := dom.HostList())
      ensures DistinctNames(dom.HostList()) && ToSet(dom.HostList()) == associations.linked
      ensures dom.count == |associations.linked|
    {
      var hosts := associations.Load();
      ListingIsDistinct(hosts);
      dom := new Domain.Load(record.value.(hosts := hosts));
    }
  }

  lemma SkippedIsSubset(hosts: seq<H.Host>)
    requires DistinctNames(hosts)
    ensures ToSet(Skipped(hosts)) <= ToSet(hosts)
    ensures |ToSet(Skipped(hosts))| == |Skipped(hosts)|
  {
    assert DistinctNames(Skipped(hosts));
    AsLongAsItsSet(Skipped(hosts));
  }

  /** A purge: refused before the purge date, and otherwise stopped by three hosts or more. */
  method PurgeDomain(store: DomainStore, now: Instant) returns (outcome: Outcome)
    requires store.Consistent()
    modifies store, store.associations
    ensures store.Consistent()
    ensures old(store.record).None? ==> outcome == Fail(DomainNotFound)
    ensures old(store.record).Some? && now <= old(store.record).value.rgp.purgeDate ==>
              outcome == Fail(DeleteNotAllowed) && store.associations.linked == old(store.associations.linked)
    ensures old(store.record).Some? && now > old(store.record).value.rgp.purgeDate ==>
              var n := |old(store.associations.linked)|;
              && outcome == (if n <= 2 then Done else Fail(HostNotFound))
              && |store.associations.linked| == (if n == 0 then 0 else (n - 1) / 2)
    ensures outcome.Done? ==> store.record.None? && store.blocked == (old(store.blocked) || store.dropCatch)
    ensures outcome.Fail? ==> store.record == old(store.record) && store.blocked == old(store.blocked)
    ensures store.associations.linked <= old(store.associations.linked)
  {
    if store.record.None? {
      return Fail(DomainNotFound);
    }
    var dom := store.Load();
    if !(now > dom.rgp.purgeDate) {
      return Fail(DeleteNotAllowed);
    }
    if dom.count > 0 {
      // the host removal loads the domain afresh
      var again := store.Load();
      SkippedIsSubset(again.HostList());
      outcome := RemoveAllDomainHosts(again, store.associations);
      if outcome.Fail? {
        return;
      }
      store.record := Some(again.Value());
    }
    if store.dropCatch {
      store.blocked := true;
    }
    store.record := None;
    return Done;
  }

  function PowerOfTwo(k: nat): (r: nat)
    ensures r >= if k == 0 then 1 else if k == 1 then 2 else 4
  {
    if k == 0 then 1 else 2 * PowerOfTwo(k - 1)
  }

  /** The first reading after a date, or the number of readings if there is none. */
  function FirstPast(clocks: seq<Instant>, date: Instant): (d: nat)
    ensures d <= |clocks|
    ensures forall i :: 0 <= i < d ==> clocks[i] <= date
    ensures d < |clocks| ==> clocks[d] > date
  {
    if clocks == [] || clocks[0] > date then 0 else 1 + FirstPast(clocks[1..], date)
  }

  /** The most hosts that the given number of passes can clear. */
  function Budget(passes: nat): nat { PowerOfTwo(passes + 1) - 2 }

  /**
   * A purge is attempted once for each reading of the clock until it goes through. It does so exactly
   * when some reading is past the purge date and the attempts from the first such reading on can clear
   * the hosts: k attempts clear up to 2^(k + 1) - 2.
   */
  method PurgeWithRetries(store: DomainStore, clocks: seq<Instant>) returns (outcome: Outcome)
    requires clocks != [] && Nondecreasing(clocks) && store.Consistent()
    modifies store, store.associations
    ensures store.Consistent()
    ensures outcome.Done? <==>
              && old(store.record).Some?
              && var d := FirstPast(clocks, old(store.record).value.rgp.purgeDate);
                 d < |clocks| && |old(store.associations.linked)| <= Budget(|clocks| - d)
    ensures outcome.Done? ==> store.record.None? && store.associations.linked == {}
    ensures outcome.Fail? ==> store.record == old(store.record)
  {
    hide FirstPast;
    ghost var record, n := store.record, |store.associations.linked|;
    ghost var d := if record.Some? then FirstPast(clocks, record.value.rgp.purgeDate) else 0;
    var i := 0;
    while true
      invariant i < |clocks| && store.Consistent() && store.record == record
      invariant record.Some? && i <= d ==> |store.associations.linked| == n
      invariant record.Some? && d < i ==> (n <= Budget(|clocks| - d) <==> |store.associations.linked| <= Budget(|clocks| - i))
      decreases |clocks| - i
    {
      ghost var m := |store.associations.linked|;
      assert record.Some? ==> (CanBePurged(record.value, clocks[i]) <==> d <= i);
      outcome := PurgeDomain(store, clocks[i]);
      if outcome.Done? || i + 1 == |clocks| {
        break;
      }
      HalvingBudget(m, |clocks| - i - 1);
      i := i + 1;
    }
  }

  lemma HalvingBudget(m: nat, left: nat)
    requires left > 0
    ensures (if m == 0 then 0 else (m - 1) / 2) <= Budget(left) <==> m <= Budget(left + 1)
  {
  }

  /**
   * The purge loop allows three attempts. Once the purge date has passed that is enough for the ten
   * hosts a domain may have; when it passes between two attempts, those that are left decide.
   */
  method PurgeActivity(store: DomainStore, clocks: seq<Instant>) returns (outcome: Outcome)
    requires |clocks| == 3 && Nondecreasing(clocks)
    requires store.Consistent() && |store.associations.linked| <= MAX_HOSTS_PER_DOMAIN
    modifies store, store.associations
    ensures outcome.Done? <==>
              && old(store.record).Some?
              && var n, l := |old(store.associations.linked)|, old(store.record).value;
                 || clocks[0] > l.rgp.purgeDate
                 || (clocks[1] > l.rgp.purgeDate && n <= 6)
                 || (clocks[2] > l.rgp.purgeDate && n <= 2)
    ensures outcome.Done? ==> store.record.None? && store.associations.linked == {}
  {
    assert Budget(1) == 2 && Budget(2) == 6 && Budget(3) == 14;
    outcome := PurgeWithRetries(store, clocks);
  }
}
