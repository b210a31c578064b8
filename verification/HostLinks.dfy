/**
 * The service's host operations on stored domains, hosts and the rows that link them. Loading lists
 * the linked hosts in no particular order; a removal also stores the links that are left in memory.
 */
module HostLinks {
  import opened Outcomes
  import opened DomainStatuses
  import opened Lifecycle
  import opened Domains
  import opened Listings
  import opened Purge
  import H = Hosts

  datatype Store = Store(domains: map<string, Life>, links: map<string, set<int>>, hosts: map<int, H.HostRow>)

  datatype StoreStep = StoreStep(store: Store, outcome: Outcome)

  /** The rows refer to each other. */
  predicate WellFormed(s: Store) {
    && s.links.Keys == s.domains.Keys
    && (forall d | d in s.links :: forall r | r in s.links[d] :: r in s.hosts)
    && (forall d | d in s.domains :: s.domains[d].hosts == [])
  }

  predicate NameTaken(s: Store, d: string, name: string)
    requires WellFormed(s) && d in s.links
  {
    exists r | r in s.links[d] :: s.hosts[r].name == name
  }

  /** The linked hosts with another name than the given one. */
  function OthersThan(s: Store, d: string, name: string): set<int>
    requires WellFormed(s) && d in s.links
  {
    set r | r in s.links[d] && s.hosts[r].name != name
  }

  function AddRefusal(s: Store, d: string, r: int, ignoreUpdateProhibitions: bool): Outcome
    requires WellFormed(s) && d in s.domains && r in s.hosts
  {
    var l, host := s.domains[d], s.hosts[r];
    if !CanBeUpdated(l) && !ignoreUpdateProhibitions then Fail(UpdateNotAllowed)
    else if NameTaken(s, d, host.name) then Fail(DuplicateHost)
    else if |s.links[d]| >= MAX_HOSTS_PER_DOMAIN then Fail(MaxHostsExceeded)
    else if l.clID != host.clID then Fail(HostSponsorMismatch)
    else if ParentDomain(host.name) == l.name && host.addresses == [] then Fail(InBailiwickHostNeedsAddress)
    else H.SetHostStatus(host.status, H.Linked).outcome
  }

  /** Adding a host that is already there is not an error. */
  function AddHost(s: Store, d: string, r: int, ignoreUpdateProhibitions: bool): StoreStep
    requires WellFormed(s)
  {
    if d !in s.domains then StoreStep(s, Fail(DomainNotFound))
    else if r !in s.hosts then StoreStep(s, Fail(HostNotFound))
    else
      var refusal := AddRefusal(s, d, r, ignoreUpdateProhibitions);
      if refusal == Fail(DuplicateHost) then StoreStep(s, Done)
      else if refusal.Fail? then StoreStep(s, refusal)
      else
        var l, host := s.domains[d], s.hosts[r];
        var linked := host.(status := H.SetHostStatus(host.status, H.Linked).status,
                            inBailiwick := host.inBailiwick || ParentDomain(host.name) == l.name);
        StoreStep(Store(s.domains[d := l.(status := SetOKIfNeeded(FollowHosts(l.status, true)))],
                        s.links[d := s.links[d] + {r}],
                        s.hosts[r := linked]),
                  Done)
  }

  predicate Associated(links: map<string, set<int>>, r: int) {
    exists d | d in links :: r in links[d]
  }

  function RemoveHost(s: Store, d: string, r: int): StoreStep
    requires WellFormed(s)
  {
    if d !in s.domains then StoreStep(s, Fail(DomainNotFound))
    else if r !in s.hosts then StoreStep(s, Fail(HostNotFound))
    else
      var l, host := s.domains[d], s.hosts[r];
      if !NameTaken(s, d, host.name) then StoreStep(s, Fail(HostNotFound))
      else
        var left := OthersThan(s, d, host.name);
        var links := s.links[d := (s.links[d] - {r}) + left];
        StoreStep(Store(s.domains[d := l.(status := FollowHosts(l.status, left != {}))],
                        links,
                        if Associated(links, r) then s.hosts
                        else s.hosts[r := host.(status := H.UnsetHostStatus(host.status, H.Linked).status)]),
                  Done)
  }

  /** The linked hosts, each once, in some order. */
  predicate IsListing(linked: set<int>, listing: seq<int>) {
    ToSet(listing) == linked && |listing| == |linked|
  }

  /**
   * Removing all hosts takes away the links of the hosts that its loop does not skip. The domain is
   * stored only when the loop gets through, and is touched only when there was something to remove.
   */
  function RemoveAll(s: Store, d: string, listing: seq<int>): StoreStep
    requires WellFormed(s) && (d in s.links ==> IsListing(s.links[d], listing))
  {
    if d !in s.domains then StoreStep(s, Fail(DomainNotFound))
    else
      var stripped := s.(links := s.links[d := ToSet(Skipped(listing))]);
      if |listing| >= 3 then StoreStep(stripped, Fail(HostNotFound))
      else if listing == [] then StoreStep(stripped, Done)
      else
        var l := s.domains[d];
        StoreStep(stripped.(domains := s.domains[d := l.(status := FollowHosts(l.status, false))]), Done)
  }

  // --- The service ----------------------------------------------------------------------------

  /** The loaded host objects are exactly the linked rows. */
  ghost predicate Lists(hosts: seq<H.Host>, s: Store, linked: set<int>) {
    && |hosts| == |linked|
    && (forall i :: 0 <= i < |hosts| ==> hosts[i].roid in linked && hosts[i].roid in s.hosts && hosts[i].name == s.hosts[hosts[i].roid].name)
    && (forall r :: r in linked ==> exists i :: 0 <= i < |hosts| && hosts[i].roid == r)
  }

  lemma EmptyIfNone(roids: set<int>)
    ensures (forall r :: r !in roids) ==> roids == {}
  {
    if forall r :: r !in roids {
      assert roids == {};
    }
  }

  class HostService {
    var s: Store

    constructor (s: Store)
      ensures this.s == s
    {
      this.s := s;
    }

    method LoadHosts(d: string) returns (hosts: seq<H.Host>)
      requires WellFormed(s) && d in s.domains
      ensures Lists(hosts, s, s.links[d])
    {
      StoredWithoutHosts(s, d);
      hide Lists, WellFormed;
      hosts := [];
      var rest := s.links[d];
      NoneListed(s);
      assert s.links[d] - rest == {};
      while rest != {}
        invariant rest <= s.links[d] && Lists(hosts, s, s.links[d] - rest)
        decreases rest
      {
        EmptyIfNone(rest);
        var r :| r in rest;
        var h := new H.Host.Load(r, s.hosts[r]);
        OneMoreListed(hosts, s, s.links[d] - rest, h);
        assert s.links[d] - (rest - {r}) == s.links[d] - rest + {r};
        rest := rest - {r};
        hosts := hosts + [h];
      }
      assert s.links[d] - {} == s.links[d];
    }

    method LoadDomain(d: string) returns (dom: Domain)
      requires WellFormed(s) && d in s.domains
      ensures fresh(dom) && fresh(dom.backing) && dom.Valid()
      ensures dom.Value() == s.domains[d].(hosts := dom.HostList())
      ensures Lists(dom.HostList(), s, s.links[d])
    {
      StoredWithoutHosts(s, d);
      hide Lists, WellFormed;
      var hosts := LoadHosts(d);
      dom := new Domain.Load(s.domains[d].(hosts := hosts));
    }

    method AddHostToDomain(d: string, r: int, ignoreUpdateProhibitions: bool) returns (outcome: Outcome)
      requires WellFormed(s)
      modifies this
      ensures StoreStep(s, outcome) == AddHost(old(s), d, r, ignoreUpdateProhibitions)
    {
      hide HasPendings, HasProhibitions, SetOKIfNeeded, FollowHosts, AddHostRefusal, AddRefusal, Lists, WellFormed;
      if d !in s.domains {
        return Fail(DomainNotFound);
      }
      var dom := LoadDomain(d);
      if r !in s.hosts {
        return Fail(HostNotFound);
      }
      var host := new H.Host.Load(r, s.hosts[r]);
      RefusalsAgree(s, d, r, ignoreUpdateProhibitions, dom.HostList(), host);
      StoredWithoutHosts(s, d);
      var index;
      index, outcome := dom.AddHost(host, ignoreUpdateProhibitions);
      if outcome == Fail(DuplicateHost) {
        return Done;
      }
      if outcome.Fail? {
        return;
      }
      Save(d, dom, s.links[d] + {r});
      s := s.(hosts := s.hosts[r := host.Row()]);
    }

    /** Stores a domain and the links of its hosts. */
    method Save(d: string, dom: Domain, links: set<int>)
      requires dom.Valid()
      modifies this
      ensures s == old(s).(domains := old(s).domains[d := dom.Value().(hosts := [])], links := old(s).links[d := links])
    {
      s := s.(domains := s.domains[d := dom.Value().(hosts := [])], links := s.links[d := links]);
    }

    method RemoveHostFromDomain(d: string, r: int) returns (outcome: Outcome)
      requires WellFormed(s) && DistinctLinkNames(s)
      modifies this
      ensures StoreStep(s, outcome) == RemoveHost(old(s), d, r)
    {
      hide HasPendings, HasProhibitions, FollowHosts, Lists, WellFormed, OthersThan, DistinctLinkNames, NameTaken;
      if d !in s.domains {
        return Fail(DomainNotFound);
      }
      var dom := LoadDomain(d);
      if r !in s.hosts {
        return Fail(HostNotFound);
      }
      var host := new H.Host.Load(r, s.hosts[r]);
      StoredWithoutHosts(s, d);
      RemovalsAgree(s, d, host.name, dom.HostList());
      outcome := dom.RemoveHost(host);
      if outcome.Fail? {
        return;
      }
      Save(d, dom, s.links[d] - {r} + Roids(dom.HostList()));
      if !Associated(s.links, r) {
        var _ := host.UnsetStatus(H.Linked);
        s := s.(hosts := s.hosts[r := host.Row()]);
      }
    }

    /** The listing is the order in which the hosts were loaded. */
    method RemoveAllDomainHosts(d: string) returns (outcome: Outcome, ghost listing: seq<int>)
      requires WellFormed(s) && DistinctLinkNames(s)
      modifies this
      ensures d in old(s).links ==> IsListing(old(s).links[d], listing)
      ensures StoreStep(s, outcome) == RemoveAll(old(s), d, listing)
    {
      hide Lists, WellFormed, DistinctLinkNames, Skipped, FollowHosts, IsListing, ToSet, DistinctNames;
      listing := [];
      if d !in s.domains {
        KeysAgree(s);
        return Fail(DomainNotFound), [];
      }
      StoredWithoutHosts(s, d);
      var dom := LoadDomain(d);
      ghost var hosts := dom.HostList();
      listing := RoidList(hosts);
      assert |listing| == dom.count && dom.status == s.domains[d].status;
      hide Domain.Value, RoidList;
      ListingOfLoaded(hosts, s, d);
      var rows := new Associations(ToSet(dom.HostList()));
      outcome := Purge.RemoveAllDomainHosts(dom, rows);
      SkippedRoids(hosts);
      s := s.(links := s.links[d := set h | h in rows.linked :: h.roid]);
      if outcome.Fail? {
        return;
      }
      assert dom.count == |dom.HostList()| == 0;
      ghost var was := s.domains;
      assert dom.Value().(hosts := []) == was[d].(status := dom.status);
      assert was[d := was[d]] == was;
      Save(d, dom, s.links[d]);
    }
  }

  function Roids(hosts: seq<H.Host>): set<int> { set h | h in hosts :: h.roid }

  function RoidList(hosts: seq<H.Host>): seq<int> { seq(|hosts|, i requires 0 <= i < |hosts| => hosts[i].roid) }

  lemma StoredWithoutHosts(s: Store, d: string)
    requires WellFormed(s) && d in s.domains
    ensures d in s.links && s.domains[d].hosts == [] && forall r :: r in s.links[d] ==> r in s.hosts
  {
  }

  /** The checks on the loaded objects come out as the checks on the rows. */
  lemma RefusalsAgree(s: Store, d: string, r: int, ignore: bool, listed: seq<H.Host>, host: H.Host)
    requires WellFormed(s) && d in s.domains && r in s.hosts && Lists(listed, s, s.links[d])
    requires host.name == s.hosts[r].name && host.clID == s.hosts[r].clID
    ensures AddHostRefusal(s.domains[d].(hosts := listed), host, s.hosts[r].addresses != [], ignore,
                           H.SetHostStatus(s.hosts[r].status, H.Linked).outcome)
            == AddRefusal(s, d, r, ignore)
  {
    hide HasPendings, HasProhibitions, ParentDomain, H.SetHostStatus, IndexOf;
    NameIsListed(listed, s, s.links[d], host.name);
  }

  lemma RemovalsAgree(s: Store, d: string, name: string, listed: seq<H.Host>)
    requires WellFormed(s) && DistinctLinkNames(s) && d in s.links && Lists(listed, s, s.links[d])
    ensures IndexOf(listed, name) < |listed| <==> NameTaken(s, d, name)
    ensures var i := IndexOf(listed, name);
            i < |listed| ==>
              var left := listed[..i] + listed[i + 1..];
              Roids(left) == OthersThan(s, d, name) && (left == [] <==> OthersThan(s, d, name) == {})
  {
    NameIsListed(listed, s, s.links[d], name);
    var i := IndexOf(listed, name);
    if i < |listed| {
      OthersAreListed(listed, s, d, name, listed[..i] + listed[i + 1..]);
    }
  }

  lemma NoneListed(s: Store)
    ensures Lists([], s, {})
  {
  }

  lemma OneMoreListed(hosts: seq<H.Host>, s: Store, linked: set<int>, h: H.Host)
    requires Lists(hosts, s, linked) && h.roid !in linked && h.roid in s.hosts && h.name == s.hosts[h.roid].name
    ensures Lists(hosts + [h], s, linked + {h.roid})
  {
    var more := hosts + [h];
    forall r | r in linked + {h.roid}
      ensures exists i :: 0 <= i < |more| && more[i].roid == r
    {
      if r == h.roid {
        assert more[|hosts|].roid == r;
      } else {
        var i :| 0 <= i < |hosts| && hosts[i].roid == r;
        assert more[i].roid == r;
      }
    }
  }

  lemma NameIsListed(hosts: seq<H.Host>, s: Store, linked: set<int>, name: string)
    requires Lists(hosts, s, linked) && forall r :: r in linked ==> r in s.hosts
    ensures IndexOf(hosts, name) < |hosts| <==> exists r :: r in linked && s.hosts[r].name == name
  {
    if r :| r in linked && s.hosts[r].name == name {
      var i :| 0 <= i < |hosts| && hosts[i].roid == r;
      assert hosts[i].name == name;
    }
  }

  /** Each domain's linked hosts have different names. */
  predicate DistinctLinkNames(s: Store)
    requires WellFormed(s)
  {
    forall d | d in s.links :: forall q, r | q in s.links[d] && r in s.links[d] :: s.hosts[q].name == s.hosts[r].name ==> q == r
  }

  /** Removing by name leaves the hosts with the other names. */
  lemma OthersAreListed(hosts: seq<H.Host>, s: Store, d: string, name: string, left: seq<H.Host>)
    requires WellFormed(s) && DistinctLinkNames(s) && d in s.links && Lists(hosts, s, s.links[d])
    requires var i := IndexOf(hosts, name); i < |hosts| && left == hosts[..i] + hosts[i + 1..]
    ensures Roids(left) == OthersThan(s, d, name)
    ensures left == [] <==> OthersThan(s, d, name) == {}
  {
    var i := IndexOf(hosts, name);
    ListIsInjective(hosts, s, s.links[d]);
    OneRoidLess(hosts, i);
    ListsRoids(hosts, s, s.links[d]);
    OnlyOneLeaves(s, d, hosts[i].roid);
    assert left != [] ==> left[0].roid in Roids(left);
    hide Lists, WellFormed, DistinctLinkNames, OthersThan;
  }

  lemma ListsRoids(hosts: seq<H.Host>, s: Store, linked: set<int>)
    requires Lists(hosts, s, linked)
    ensures Roids(hosts) == linked
  {
    forall r
      ensures r in Roids(hosts) <==> r in linked
    {
      if r in linked {
        var i :| 0 <= i < |hosts| && hosts[i].roid == r;
        assert hosts[i] in hosts;
      }
    }
  }

  lemma OneRoidLess(hosts: seq<H.Host>, i: nat)
    requires i < |hosts| && forall j, k :: 0 <= j < k < |hosts| ==> hosts[j].roid != hosts[k].roid
    ensures Roids(hosts[..i] + hosts[i + 1..]) == Roids(hosts) - {hosts[i].roid}
  {
    assert hosts == hosts[..i] + [hosts[i]] + hosts[i + 1..];
    var before, after := hosts[..i], hosts[i + 1..];
    assert forall j :: 0 <= j < |before| ==> before[j].roid != hosts[i].roid;
    assert forall j :: 0 <= j < |after| ==> after[j].roid != hosts[i].roid;
  }

  lemma OnlyOneLeaves(s: Store, d: string, r: int)
    requires WellFormed(s) && DistinctLinkNames(s) && d in s.links && r in s.links[d]
    ensures OthersThan(s, d, s.hosts[r].name) == s.links[d] - {r}
  {
    forall q | q in s.links[d]
      ensures s.hosts[q].name == s.hosts[r].name <==> q == r
    {
    }
  }

  /** A list as long as the set of its roids holds no roid twice. */
  lemma ListIsInjective(hosts: seq<H.Host>, s: Store, linked: set<int>)
    requires Lists(hosts, s, linked)
    ensures forall i, j :: 0 <= i < j < |hosts| ==> hosts[i].roid != hosts[j].roid
  {
    var roids := RoidList(hosts);
    assert ToSet(roids) == linked by {
      forall r
        ensures r in roids <==> r in linked
      {
        if r in linked {
          var i :| 0 <= i < |hosts| && hosts[i].roid == r;
          assert roids[i] == r;
        }
      }
    }
    AsLongAsItsSet(roids);
    forall i, j | 0 <= i < j < |hosts|
      ensures hosts[i].roid != hosts[j].roid
    {
      assert roids[i] != roids[j];
    }
  }

  lemma KeysAgree(s: Store)
    requires WellFormed(s)
    ensures s.links.Keys == s.domains.Keys
  {
  }

  lemma ListingOfLoaded(hosts: seq<H.Host>, s: Store, d: string)
    requires WellFormed(s) && DistinctLinkNames(s) && d in s.links && Lists(hosts, s, s.links[d])
    ensures DistinctNames(hosts) && IsListing(s.links[d], RoidList(hosts))
  {
    ListIsInjective(hosts, s, s.links[d]);
    ListsRoids(hosts, s, s.links[d]);
    RoidsAreListed(hosts);
    forall i, j | 0 <= i < j < |hosts|
      ensures hosts[i].name != hosts[j].name
    {
      assert hosts[i].roid in s.links[d] && hosts[j].roid in s.links[d];
    }
  }

  lemma RoidsAreListed(hosts: seq<H.Host>)
    ensures ToSet(RoidList(hosts)) == Roids(hosts)
  {
    forall r
      ensures r in RoidList(hosts) <==> r in Roids(hosts)
    {
      if r in RoidList(hosts) {
        var i :| 0 <= i < |hosts| && RoidList(hosts)[i] == r;
        assert hosts[i] in hosts;
      }
      if r in Roids(hosts) {
        var i :| 0 <= i < |hosts| && hosts[i].roid == r;
        assert RoidList(hosts)[i] == r;
      }
    }
  }

  lemma SkippedRoids(hosts: seq<H.Host>)
    ensures (set h | h in ToSet(Skipped(hosts)) :: h.roid) == ToSet(Skipped(RoidList(hosts)))
  {
    assert Skipped(RoidList(hosts)) == RoidList(Skipped(hosts));
    RoidsAreListed(Skipped(hosts));
  }

  // --- Runs -----------------------------------------------------------------------------------

  /** What the three operations keep. */
  ghost predicate LinkInv(s: Store) {
    && WellFormed(s)
    && (forall r :: r in s.hosts ==> H.Validated(s.hosts[r].status).Done?)
    && (forall d :: d in s.links ==> |s.links[d]| <= MAX_HOSTS_PER_DOMAIN)
    && DistinctLinkNames(s)
    && (forall d, r :: d in s.links && r in s.links[d] ==>
          H.Linked in s.hosts[r].status && s.hosts[r].clID == s.domains[d].clID)
  }

  lemma AddKeepsLinks(s: Store, d: string, r: int, ignore: bool)
    requires LinkInv(s)
    ensures LinkInv(AddHost(s, d, r, ignore).store)
  {
    hide H.Validated, ParentDomain, SetOKIfNeeded, FollowHosts, CanBeUpdated;
    if r in s.hosts {
      H.LinkingIsSafe(s.hosts[r].status);
      LinkedStaysValid(s.hosts[r].status);
    }
  }

  lemma LinkedStaysValid(st: H.HostStatus)
    requires H.Validated(st).Done?
    ensures H.Validated(st + {H.Linked}).Done?
    ensures H.CanBeUpdated(st) ==> H.Validated(st - {H.Linked}).Done?
  {
  }

  /** Taking links of one domain away is safe, whatever happens to hosts nobody links any more. */
  lemma FewerLinks(s: Store, t: Store, d: string)
    requires LinkInv(s) && WellFormed(t) && d in s.links && d in t.links
    requires t.links[d] <= s.links[d] && t.links == s.links[d := t.links[d]]
    requires forall e :: e in s.domains ==> e in t.domains && t.domains[e].clID == s.domains[e].clID
    requires forall r :: r in t.hosts ==> r in s.hosts && t.hosts[r].name == s.hosts[r].name
    requires forall r :: r in t.hosts ==> H.Validated(t.hosts[r].status).Done?
    requires forall r :: r in t.hosts && Associated(t.links, r) ==> t.hosts[r] == s.hosts[r]
    ensures LinkInv(t)
  {
    hide H.Validated;
    SubsetIsSmaller(t.links[d], s.links[d]);
    forall e, r | e in t.links && r in t.links[e]
      ensures H.Linked in t.hosts[r].status && t.hosts[r].clID == t.domains[e].clID
    {
      assert Associated(t.links, r);
      assert r in s.links[e];
    }
  }

  /** A removal drops links of one domain, and touches at most the host's own row. */
  lemma RemovalShape(s: Store, d: string, r: int)
    requires WellFormed(s) && RemoveHost(s, d, r).outcome.Done?
    ensures var after := RemoveHost(s, d, r).store;
            && d in s.links && d in after.links && r in s.hosts
            && after.links[d] <= s.links[d] && after.links == s.links[d := after.links[d]]
            && after.domains.Keys == s.domains.Keys && (forall e :: e in s.domains ==> after.domains[e].clID == s.domains[e].clID)
            && (after.hosts == s.hosts
                || (!Associated(after.links, r)
                    && after.hosts == s.hosts[r := s.hosts[r].(status := H.UnsetHostStatus(s.hosts[r].status, H.Linked).status)]))
  {
    hide FollowHosts, Associated, NameTaken, H.UnsetHostStatus;
  }

  lemma RemoveKeepsLinks(s: Store, d: string, r: int)
    requires LinkInv(s)
    ensures LinkInv(RemoveHost(s, d, r).store)
  {
    hide H.Validated, Associated, DistinctLinkNames, H.SetHostStatus, H.UnsetHostStatus;
    if RemoveHost(s, d, r).outcome.Done? {
      OperationsKeepWellFormed(s, Removing(d, r));
      RemovalShape(s, d, r);
      hide RemoveHost;
      H.LinkingIsSafe(s.hosts[r].status);
      LinkedStaysValid(s.hosts[r].status);
      FewerLinks(s, RemoveHost(s, d, r).store, d);
    }
  }

  lemma RemoveAllKeepsLinks(s: Store, d: string, listing: seq<int>)
    requires LinkInv(s) && (d in s.links ==> IsListing(s.links[d], listing))
    ensures LinkInv(RemoveAll(s, d, listing).store)
  {
    hide H.Validated, FollowHosts;
    if d in s.domains {
      assert forall r :: r in Skipped(listing) ==> r in ToSet(listing);
      FewerLinks(s, RemoveAll(s, d, listing).store, d);
    }
  }

  datatype Event =
    | Adding(d: string, r: int, ignoreUpdateProhibitions: bool)
    | Removing(d: string, r: int)
    | RemovingAll(d: string, listing: seq<int>)

  lemma OperationsKeepWellFormed(s: Store, e: Event)
    requires WellFormed(s)
    ensures WellFormed(Next(s, e))
  {
    hide AddRefusal, H.SetHostStatus, H.UnsetHostStatus, FollowHosts, SetOKIfNeeded, ParentDomain;
    assert e.RemovingAll? ==> forall r :: r in Skipped(e.listing) ==> r in ToSet(e.listing);
  }

  /** The hosts of a domain are listed each once; what is listed otherwise is no event. */
  function Next(s: Store, e: Event): Store
    requires WellFormed(s)
  {
    match e
    case Adding(d, r, ignore) => AddHost(s, d, r, ignore).store
    case Removing(d, r) => RemoveHost(s, d, r).store
    case RemovingAll(d, listing) =>
      if d in s.links && !IsListing(s.links[d], listing) then s else RemoveAll(s, d, listing).store
  }

  function Run(s: Store, events: seq<Event>): Store
    requires WellFormed(s)
    decreases |events|
  {
    if events == [] then s
    else
      OperationsKeepWellFormed(s, events[0]);
      Run(Next(s, events[0]), events[1..])
  }

  /**
   * Over every run of the service's host operations each linked host has its `linked` flag, and each
   * domain's hosts have distinct names, are at most ten, and share the domain's sponsor.
   */
  lemma {:induction false} EveryRunKeepsLinks(s: Store, events: seq<Event>)
    requires LinkInv(s)
    ensures LinkInv(Run(s, events))
    decreases |events|
  {
    hide LinkInv, AddHost, RemoveHost, RemoveAll;
    LinkInvIsWellFormed(s);
    if events != [] {
      match events[0]
      case Adding(d, r, ignore) => AddKeepsLinks(s, d, r, ignore);
      case Removing(d, r) => RemoveKeepsLinks(s, d, r);
      case RemovingAll(d, listing) =>
        if d !in s.links || IsListing(s.links[d], listing) {
          RemoveAllKeepsLinks(s, d, listing);
        }
    }
    if events != [] {
      EveryRunKeepsLinks(Next(s, events[0]), events[1..]);
    }
  }

  lemma LinkInvIsWellFormed(s: Store)
    requires LinkInv(s)
    ensures WellFormed(s)
  {
  }

  // --- Exactly what an addition and a removal do ----------------------------------------------

  /**
   * A host is added exactly when updates are allowed or ignored and the name is already linked or the
   * domain has room, the same sponsor, and an address for a host of its own. An addition links the
   * host, sets its `linked` and follows with the domain's flags; everything else stays.
   */
  lemma AddHostExact(s: Store, d: string, r: int, ignore: bool)
    requires WellFormed(s) && d in s.domains && r in s.hosts && H.Validated(s.hosts[r].status).Done?
    ensures var l, host, added := s.domains[d], s.hosts[r], AddHost(s, d, r, ignore);
            var allowed := ignore || l.status !! {ClientUpdateProhibited, ServerUpdateProhibited, PendingUpdate};
            var taken := NameTaken(s, d, host.name);
            && (added.outcome.Done? <==>
                  allowed && (taken || (|s.links[d]| < 10 && host.clID == l.clID
                                        && (ParentDomain(host.name) == l.name ==> host.addresses != []))))
            && (added.outcome.Fail? || taken ==> added.store == s)
            && (added.outcome.Done? && !taken ==>
                  && added.store.links == s.links[d := s.links[d] + {r}]
                  && added.store.hosts == s.hosts[r := host.(status := host.status + {H.Linked},
                                                             inBailiwick := host.inBailiwick || ParentDomain(host.name) == l.name)]
                  && d in added.store.domains
                  && var after := added.store.domains[d];
                     && added.store.domains == s.domains[d := after] && after == l.(status := after.status)
                     && Inactive !in after.status && Core(after.status) == Core(l.status)
                     && (OK in after.status <==> OK in l.status || Core(l.status) == {}))
  {
    hide H.Validated, H.SetHostStatus, ParentDomain, SetOKIfNeeded, FollowHosts, NameTaken;
    H.LinkingIsSafe(s.hosts[r].status);
    AttachedFlags(s.domains[d].status);
    RefusalMeans(s, d, r, ignore);
    hide AddRefusal;
  }

  lemma RefusalMeans(s: Store, d: string, r: int, ignore: bool)
    requires WellFormed(s) && d in s.domains && r in s.hosts && H.Validated(s.hosts[r].status).Done?
    ensures var l, host, refusal := s.domains[d], s.hosts[r], AddRefusal(s, d, r, ignore);
            var allowed := ignore || l.status !! {ClientUpdateProhibited, ServerUpdateProhibited, PendingUpdate};
            && (refusal == Fail(DuplicateHost) <==> allowed && NameTaken(s, d, host.name))
            && (refusal.Done? <==>
                  && allowed && !NameTaken(s, d, host.name) && |s.links[d]| < 10 && host.clID == l.clID
                  && (ParentDomain(host.name) == l.name ==> host.addresses != []))
  {
    hide H.Validated, H.SetHostStatus, ParentDomain, NameTaken, CanBeUpdated;
    H.LinkingIsSafe(s.hosts[r].status);
    UpdatableMeans(s.domains[d]);
  }

  lemma NameTakenMeans(s: Store, d: string, name: string)
    requires WellFormed(s) && d in s.links
    ensures NameTaken(s, d, name) <==> exists q :: q in s.links[d] && s.hosts[q].name == name
  {
  }

  /**
   * A host is removed exactly when its name is linked. Its `linked` goes with the last link, unless an
   * update prohibition of the host keeps it; the domain becomes inactive with its last host.
   */
  lemma RemoveHostExact(s: Store, d: string, r: int)
    requires WellFormed(s) && DistinctLinkNames(s) && d in s.domains && r in s.links[d]
    requires H.Validated(s.hosts[r].status).Done?
    ensures var removed := RemoveHost(s, d, r);
            var host, elsewhere := s.hosts[r], exists e :: e in s.links && e != d && r in s.links[e];
            && removed.outcome.Done?
            && removed.store.links == s.links[d := s.links[d] - {r}]
            && removed.store.hosts
               == (if elsewhere || !(host.status !! {H.ClientUpdateProhibited, H.ServerUpdateProhibited}) then s.hosts
                   else s.hosts[r := host.(status := host.status - {H.Linked})])
            && d in removed.store.domains
            && var after := removed.store.domains[d];
               && removed.store.domains == s.domains[d := after] && after == s.domains[d].(status := after.status)
               && forall f :: f in after.status <==> if f == Inactive then s.links[d] == {r} else f in s.domains[d].status
  {
    hide H.Validated, H.UnsetHostStatus, OthersThan, DistinctLinkNames;
    H.LinkingIsSafe(s.hosts[r].status);
    OnlyOneLeaves(s, d, r);
    UsedElsewhere(s.links, d, r);
    hide Associated;
    assert s.links[d] - {r} + (s.links[d] - {r}) == s.links[d] - {r};
    assert s.links[d] - {r} == {} <==> s.links[d] == {r};
    assert s.hosts[r := s.hosts[r]] == s.hosts;
  }

  lemma UsedElsewhere(links: map<string, set<int>>, d: string, r: int)
    requires d in links
    ensures Associated(links[d := links[d] - {r}], r) <==> exists e :: e in links && e != d && r in links[e]
  {
    var fewer := links[d := links[d] - {r}];
    if e :| e in links && e != d && r in links[e] {
      assert r in fewer[e];
    }
    if e :| e in fewer && r in fewer[e] {
      assert e != d && r in links[e];
    }
  }

  /** Removing a host whose name is not linked is an error, and changes nothing. */
  lemma RemovingAStranger(s: Store, d: string, r: int)
    requires WellFormed(s) && d in s.domains && r in s.hosts
    requires forall q :: q in s.links[d] ==> s.hosts[q].name != s.hosts[r].name
    ensures RemoveHost(s, d, r) == StoreStep(s, Fail(HostNotFound))
  {
  }

  /** Removing all hosts leaves (n - 1) / 2 links; the domain is touched exactly with one or two hosts, and is inactive then. */
  lemma RemoveAllExact(s: Store, d: string, listing: seq<int>)
    requires WellFormed(s) && d in s.domains && IsListing(s.links[d], listing)
    ensures var n, stripped := |s.links[d]|, RemoveAll(s, d, listing);
            && stripped.outcome == (if n >= 3 then Fail(HostNotFound) else Done)
            && d in stripped.store.links && d in stripped.store.domains && stripped.store.hosts == s.hosts
            && stripped.store.links == s.links[d := stripped.store.links[d]]
            && stripped.store.links[d] <= s.links[d] && |stripped.store.links[d]| == (if n == 0 then 0 else (n - 1) / 2)
            && (if 1 <= n <= 2
                then stripped.store.domains == s.domains[d := s.domains[d].(status := s.domains[d].status + {Inactive})]
                else stripped.store.domains == s.domains)
  {
    var left := Skipped(listing);
    AsLongAsItsSet(listing);
    assert NoRepeats(left) by {
      assert forall i :: 0 <= i < |left| ==> left[i] == listing[2 * i + 1];
    }
    AsLongAsItsSet(left);
    assert forall r :: r in left ==> r in ToSet(listing);
  }

  /** The runs have a start: valid hosts that no domain uses yet. */
  lemma StartsWithoutLinks(s: Store)
    requires WellFormed(s) && (forall d :: d in s.links ==> s.links[d] == {})
    requires forall r :: r in s.hosts ==> H.Rfc5732(s.hosts[r].status)
    ensures LinkInv(s)
  {
    hide H.Validated, H.Rfc5732;
    forall r | r in s.hosts
      ensures H.Validated(s.hosts[r].status).Done?
    {
      H.ValidatedIsRfc5732(s.hosts[r].status);
    }
  }

  /** What a host that was really added looked like, and that taking it off again restores every link. */
  lemma AddThenRemove(s: Store, d: string, r: int, ignore: bool)
    requires LinkInv(s) && d in s.domains && r in s.hosts && AddHost(s, d, r, ignore).outcome.Done?
    requires !NameTaken(s, d, s.hosts[r].name)
    ensures ParentDomain(s.hosts[r].name) == s.domains[d].name ==> s.hosts[r].addresses != []
    ensures var added := AddHost(s, d, r, ignore).store;
            && WellFormed(added)
            && H.Linked in added.hosts[r].status
            && RemoveHost(added, d, r).outcome.Done?
            && RemoveHost(added, d, r).store.links == s.links
  {
    hide RemoveHost, LinkInv, OthersThan, NameTaken, AddRefusal, H.SetHostStatus, SetOKIfNeeded, FollowHosts;
    LinkInvIsWellFormed(s);
    var name, added := s.hosts[r].name, AddHost(s, d, r, ignore).store;
    OperationsKeepWellFormed(s, Adding(d, r, ignore));
    AdditionShape(s, d, r, ignore);
    hide AddHost, WellFormed, ParentDomain;
    RemovingRelinks(added, d, r);
    assert added.links[d] - {r} + s.links[d] == s.links[d];
    BackAgain(s.links, d, added.links[d]);
  }

  lemma BackAgain(m: map<string, set<int>>, d: string, x: set<int>)
    requires d in m
    ensures m[d := x][d := m[d]] == m
  {
  }

  lemma AdditionShape(s: Store, d: string, r: int, ignore: bool)
    requires LinkInv(s) && d in s.domains && r in s.hosts && AddHost(s, d, r, ignore).outcome.Done?
    requires !NameTaken(s, d, s.hosts[r].name) && WellFormed(AddHost(s, d, r, ignore).store)
    ensures ParentDomain(s.hosts[r].name) == s.domains[d].name ==> s.hosts[r].addresses != []
    ensures var added := AddHost(s, d, r, ignore).store;
            && added.links == s.links[d := s.links[d] + {r}] && r !in s.links[d]
            && d in added.domains && r in added.hosts
            && added.hosts[r].name == s.hosts[r].name && H.Linked in added.hosts[r].status
            && OthersThan(added, d, s.hosts[r].name) == s.links[d]
  {
    hide H.Validated, ParentDomain, SetOKIfNeeded, FollowHosts, CanBeUpdated, DistinctLinkNames;
    var name, added := s.hosts[r].name, AddHost(s, d, r, ignore).store;
    H.LinkingIsSafe(s.hosts[r].status);
    assert added.hosts[r].name == name && forall q :: q in s.hosts && q != r ==> added.hosts[q] == s.hosts[q];
    assert forall q :: q in s.links[d] ==> s.hosts[q].name != name;
  }

  lemma RemovingRelinks(s: Store, d: string, r: int)
    requires WellFormed(s) && d in s.domains && r in s.links[d]
    ensures RemoveHost(s, d, r).outcome.Done?
    ensures RemoveHost(s, d, r).store.links == s.links[d := s.links[d] - {r} + OthersThan(s, d, s.hosts[r].name)]
  {
    hide FollowHosts, H.UnsetHostStatus, OthersThan, Associated;
  }
}
