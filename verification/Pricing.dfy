/** The prices and fees of a phase: how they are edited and how they are looked up. */
module Pricing {
  import opened Outcomes
  import opened Calendar
  import opened Phases

  // --- Currency codes -------------------------------------------------------------------------

  function UpperChar(c: char): char {
    if 'a' <= c <= 'z' then c - 'a' + 'A' else c
  }

  function Upper(s: string): (r: string)
    ensures |r| == |s| && forall i :: 0 <= i < |s| ==> r[i] == UpperChar(s[i])
  {
    if s == "" then "" else [UpperChar(s[0])] + Upper(s[1..])
  }

  lemma UpperTwice(s: string)
    ensures Upper(Upper(s)) == Upper(s)
  {
  }

  // --- Looking up -----------------------------------------------------------------------------

  /** Position of the first price in a currency, or the length of the list. */
  function PriceIndex(prices: seq<Price>, currency: string): (i: nat)
    ensures i <= |prices|
    ensures i < |prices| ==> prices[i].currency == currency
    ensures forall j :: 0 <= j < i ==> prices[j].currency != currency
  {
    if prices == [] || prices[0].currency == currency then 0 else 1 + PriceIndex(prices[1..], currency)
  }

  function GetPrice(prices: seq<Price>, currency: string): Option<Price> {
    var i := PriceIndex(prices, Upper(currency));
    if i < |prices| then Some(prices[i]) else None
  }

  function FeeIndex(fees: seq<Fee>, name: string, currency: string): (i: nat)
    ensures i <= |fees|
    ensures i < |fees| ==> fees[i].currency == currency && fees[i].name == name
    ensures forall j :: 0 <= j < i ==> !(fees[j].currency == currency && fees[j].name == name)
  {
    if fees == [] || (fees[0].currency == currency && fees[0].name == name) then 0
    else 1 + FeeIndex(fees[1..], name, currency)
  }

  /** The fees in one currency, in list order. */
  function FeesIn(fees: seq<Fee>, currency: string): (r: seq<Fee>)
    ensures |r| <= |fees|
    ensures forall i :: 0 <= i < |r| ==> r[i].currency == currency && r[i] in fees
  {
    if fees == [] then []
    else if fees[0].currency == currency then [fees[0]] + FeesIn(fees[1..], currency)
    else FeesIn(fees[1..], currency)
  }

  function GetFees(fees: seq<Fee>, currency: string): seq<Fee> {
    FeesIn(fees, Upper(currency))
  }

  // --- Editing --------------------------------------------------------------------------------

  datatype PhaseEdit = PhaseEdit(phase: Phase, outcome: Outcome)

  function PriceAdded(p: Phase, price: Price): PhaseEdit {
    if PriceIndex(p.prices, price.currency) < |p.prices| then PhaseEdit(p, Fail(DuplicatePriceEntry))
    else PhaseEdit(p.(prices := p.prices + [price]), Done)
  }

  function PriceDeleted(p: Phase, currency: string, now: Instant): PhaseEdit {
    var i := PriceIndex(p.prices, Upper(currency));
    if Historic(p, now) then PhaseEdit(p, Fail(UpdateHistoricPhase))
    else if i == |p.prices| then PhaseEdit(p, Done)
    else PhaseEdit(p.(prices := p.prices[..i] + p.prices[i + 1..]), Done)
  }

  function FeeAdded(p: Phase, fee: Fee): PhaseEdit {
    if FeeIndex(p.fees, fee.name, fee.currency) < |p.fees| then PhaseEdit(p, Fail(DuplicateFeeEntry))
    else PhaseEdit(p.(fees := p.fees + [fee]), Done)
  }

  function FeeDeleted(p: Phase, name: string, currency: string, now: Instant): PhaseEdit {
    var i := FeeIndex(p.fees, name, Upper(currency));
    if Historic(p, now) then PhaseEdit(p, Fail(UpdateHistoricPhase))
    else if i == |p.fees| then PhaseEdit(p, Done)
    else PhaseEdit(p.(fees := p.fees[..i] + p.fees[i + 1..]), Done)
  }

  // --- Exactly what is found and edited -------------------------------------------------------

  /** The first price in a currency, which is looked for in upper case. */
  predicate FirstPrice(prices: seq<Price>, currency: string, i: int) {
    0 <= i < |prices| && prices[i].currency == currency && forall j :: 0 <= j < i ==> prices[j].currency != currency
  }

  predicate FirstFee(fees: seq<Fee>, name: string, currency: string, i: int) {
    && 0 <= i < |fees| && fees[i].name == name && fees[i].currency == currency
    && forall j :: 0 <= j < i ==> !(fees[j].name == name && fees[j].currency == currency)
  }

  lemma GetPriceExact(prices: seq<Price>, currency: string, i: nat)
    ensures FirstPrice(prices, Upper(currency), i) ==> GetPrice(prices, currency) == Some(prices[i])
    ensures GetPrice(prices, currency).None? <==> forall j :: 0 <= j < |prices| ==> prices[j].currency != Upper(currency)
  {
  }

  /** The fees found are those in the currency, in list order. */
  lemma {:induction false} GetFeesExact(fees: seq<Fee>, currency: string, f: Fee)
    ensures GetFees([], currency) == []
    ensures GetFees(fees + [f], currency) == GetFees(fees, currency) + (if f.currency == Upper(currency) then [f] else [])
  {
    if fees != [] {
      GetFeesExact(fees[1..], currency, f);
      assert (fees + [f])[1..] == fees[1..] + [f];
    } else {
      assert [] + [f] == [f];
    }
  }

  /** A price is added unless there is one in its currency, and deleted by upper-cased currency unless the phase is over. */
  lemma PriceEditsExact(p: Phase, price: Price, currency: string, now: Instant, i: nat)
    ensures PriceAdded(p, price)
            == if exists j :: 0 <= j < |p.prices| && p.prices[j].currency == price.currency
               then PhaseEdit(p, Fail(DuplicatePriceEntry)) else PhaseEdit(p.(prices := p.prices + [price]), Done)
    ensures PriceDeleted(p, currency, now).outcome.Done? <==> (p.ends.Some? ==> now <= p.ends.value)
    ensures FirstPrice(p.prices, Upper(currency), i) && PriceDeleted(p, currency, now).outcome.Done? ==>
              PriceDeleted(p, currency, now).phase == p.(prices := p.prices[..i] + p.prices[i + 1..])
    ensures (forall j :: !FirstPrice(p.prices, Upper(currency), j)) || PriceDeleted(p, currency, now).outcome.Fail? ==>
              PriceDeleted(p, currency, now).phase == p
  {
    var k, d := PriceIndex(p.prices, price.currency), PriceIndex(p.prices, Upper(currency));
    assert d < |p.prices| ==> FirstPrice(p.prices, Upper(currency), d);
  }

  /** The same for fees, which are known by name and currency. */
  lemma FeeEditsExact(p: Phase, fee: Fee, name: string, currency: string, now: Instant, i: nat)
    ensures FeeAdded(p, fee)
            == if exists j :: 0 <= j < |p.fees| && p.fees[j].name == fee.name && p.fees[j].currency == fee.currency
               then PhaseEdit(p, Fail(DuplicateFeeEntry)) else PhaseEdit(p.(fees := p.fees + [fee]), Done)
    ensures FeeDeleted(p, name, currency, now).outcome.Done? <==> (p.ends.Some? ==> now <= p.ends.value)
    ensures FirstFee(p.fees, name, Upper(currency), i) && FeeDeleted(p, name, currency, now).outcome.Done? ==>
              FeeDeleted(p, name, currency, now).phase == p.(fees := p.fees[..i] + p.fees[i + 1..])
    ensures (forall j :: !FirstFee(p.fees, name, Upper(currency), j)) || FeeDeleted(p, name, currency, now).outcome.Fail? ==>
              FeeDeleted(p, name, currency, now).phase == p
  {
    var k, d := FeeIndex(p.fees, fee.name, fee.currency), FeeIndex(p.fees, name, Upper(currency));
    assert d < |p.fees| ==> FirstFee(p.fees, name, Upper(currency), d);
  }

  /** An addressable phase, edited in place. */
  class PhaseRef {
    var phase: Phase

    constructor (phase: Phase)
      ensures this.phase == phase
    {
      this.phase := phase;
    }

    method AddPrice(price: Price) returns (index: nat, outcome: Outcome)
      modifies this
      ensures PhaseEdit(phase, outcome) == PriceAdded(old(phase), price)
      ensures outcome.Done? ==> index < |phase.prices| && phase.prices[index] == price
    {
      for i := 0 to |phase.prices|
        invariant forall j :: 0 <= j < i ==> phase.prices[j].currency != price.currency
      {
        if phase.prices[i].currency == price.currency {
          return 0, Fail(DuplicatePriceEntry);
        }
      }
      index := |phase.prices|;
      phase := phase.(prices := phase.prices + [price]);
      outcome := Done;
    }

    method DeletePrice(currency: string, now: Instant) returns (outcome: Outcome)
      modifies this
      ensures PhaseEdit(phase, outcome) == PriceDeleted(old(phase), currency, now)
    {
      if phase.ends.Some? && phase.ends.value < now {
        return Fail(UpdateHistoricPhase);
      }
      for i := 0 to |phase.prices|
        invariant phase == old(phase)
        invariant forall j :: 0 <= j < i ==> phase.prices[j].currency != Upper(currency)
      {
        if phase.prices[i].currency == Upper(currency) {
          phase := phase.(prices := phase.prices[..i] + phase.prices[i + 1..]);
          return Done;
        }
      }
      outcome := Done;
    }

    method AddFee(fee: Fee) returns (index: nat, outcome: Outcome)
      modifies this
      ensures PhaseEdit(phase, outcome) == FeeAdded(old(phase), fee)
      ensures outcome.Done? ==> index < |phase.fees| && phase.fees[index] == fee
    {
      for i := 0 to |phase.fees|
        invariant forall j :: 0 <= j < i ==> !(phase.fees[j].currency == fee.currency && phase.fees[j].name == fee.name)
      {
        if phase.fees[i].currency == fee.currency && phase.fees[i].name == fee.name {
          return 0, Fail(DuplicateFeeEntry);
        }
      }
      index := |phase.fees|;
      phase := phase.(fees := phase.fees + [fee]);
      outcome := Done;
    }

    method DeleteFee(name: string, currency: string, now: Instant) returns (outcome: Outcome)
      modifies this
      ensures PhaseEdit(phase, outcome) == FeeDeleted(old(phase), name, currency, now)
    {
      if phase.ends.Some? && phase.ends.value < now {
        return Fail(UpdateHistoricPhase);
      }
      for i := 0 to |phase.fees|
        invariant phase == old(phase)
        invariant forall j :: 0 <= j < i ==> !(phase.fees[j].currency == Upper(currency) && phase.fees[j].name == name)
      {
        if phase.fees[i].currency == Upper(currency) && phase.fees[i].name == name {
          phase := phase.(fees := phase.fees[..i] + phase.fees[i + 1..]);
          return Done;
        }
      }
      outcome := Done;
    }
  }

  // --- Runs of edits --------------------------------------------------------------------------

  datatype Event =
    | AddPrice(price: Price)
    | DeletePrice(currency: string, now: Instant)
    | AddFee(fee: Fee)
    | DeleteFee(name: string, feeCurrency: string, at: Instant)

  function Next(p: Phase, e: Event): Phase {
    match e
    case AddPrice(price) => PriceAdded(p, price).phase
    case DeletePrice(currency, now) => PriceDeleted(p, currency, now).phase
    case AddFee(fee) => FeeAdded(p, fee).phase
    case DeleteFee(name, currency, now) => FeeDeleted(p, name, currency, now).phase
  }

  function Run(p: Phase, events: seq<Event>): Phase
    decreases |events|
  {
    if events == [] then p else Run(Next(p, events[0]), events[1..])
  }

  predicate OnePricePerCurrency(prices: seq<Price>) {
    forall i, j :: 0 <= i < j < |prices| ==> prices[i].currency != prices[j].currency
  }

  predicate OneFeePerNameAndCurrency(fees: seq<Fee>) {
    forall i, j :: 0 <= i < j < |fees| ==> !(fees[i].currency == fees[j].currency && fees[i].name == fees[j].name)
  }

  /** Whatever the sequence of edits, a phase keeps one price per currency and one fee per name and currency. */
  lemma {:induction false} EveryRunKeepsEntriesUnique(p: Phase, events: seq<Event>)
    requires OnePricePerCurrency(p.prices) && OneFeePerNameAndCurrency(p.fees)
    ensures OnePricePerCurrency(Run(p, events).prices) && OneFeePerNameAndCurrency(Run(p, events).fees)
    decreases |events|
  {
    if events != [] {
      EveryRunKeepsEntriesUnique(Next(p, events[0]), events[1..]);
    }
  }

  // --- The order of the lists -----------------------------------------------------------------

  /** With one price per currency, the order of the prices does not matter to a lookup. */
  lemma PriceOrderDoesNotMatter(a: seq<Price>, b: seq<Price>, currency: string)
    requires multiset(a) == multiset(b) && OnePricePerCurrency(a)
    ensures GetPrice(a, currency) == GetPrice(b, currency)
  {
    forall x
      ensures x in a <==> x in b
    {
      assert x in multiset(a) <==> x in multiset(b);
    }
    var i, j := PriceIndex(a, Upper(currency)), PriceIndex(b, Upper(currency));
    if i < |a| {
      assert a[i] in b;
    }
    if j < |b| {
      assert b[j] in a;
    }
  }

  lemma {:induction false} FeesInCounts(fees: seq<Fee>, currency: string, f: Fee)
    ensures multiset(FeesIn(fees, currency))[f] == if f.currency == currency then multiset(fees)[f] else 0
  {
    if fees != [] {
      FeesInCounts(fees[1..], currency, f);
      var rest := FeesIn(fees[1..], currency);
      assert FeesIn(fees, currency) == if fees[0].currency == currency then [fees[0]] + rest else rest;
      hide FeesIn;
      assert fees == [fees[0]] + fees[1..];
      OneMoreCounted(fees[0], fees[1..], f);
      OneMoreCounted(fees[0], rest, f);
    }
  }

  lemma OneMoreCounted(first: Fee, rest: seq<Fee>, f: Fee)
    ensures multiset([first] + rest)[f] == multiset(rest)[f] + if f == first then 1 else 0
  {
  }

  /** Reordering the fees of a phase only reorders the fees found in a currency. */
  lemma FeeOrderOnlyReorders(a: seq<Fee>, b: seq<Fee>, currency: string)
    requires multiset(a) == multiset(b)
    ensures multiset(GetFees(a, currency)) == multiset(GetFees(b, currency))
  {
    forall f: Fee
      ensures multiset(GetFees(a, currency))[f] == multiset(GetFees(b, currency))[f]
    {
      FeesInCounts(a, Upper(currency), f);
      FeesInCounts(b, Upper(currency), f);
    }
  }
}
