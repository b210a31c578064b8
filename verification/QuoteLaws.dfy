/** What a quote's price is: linear in the years, exact within 64 bits, and independent of list order. */
module QuoteLaws {
  import opened Outcomes
  import opened Phases
  import opened Pricing
  import opened Quotes

  // --- Linearity ------------------------------------------------------------------------------

  /** What the yearly fee of a request comes to in the requested currency. */
  function UnitPrice(e: PriceEngine, qr: QuoteRequest): int {
    var s := e.Selected(qr.transaction, Upper(qr.currency));
    if s.Yearly? then AmountIn(e.fx, s.fee, Upper(qr.currency)) else 0
  }

  /** The items add up to the phase fees and, for every year, the unit price. */
  lemma PriceIsLinear(e: PriceEngine, qr: QuoteRequest)
    requires e.Quotable(qr)
    ensures Total(e.fx, e.Items(qr), Upper(qr.currency))
            == Total(e.fx, PhaseFees(e.phase, Upper(qr.currency)), Upper(qr.currency)) + qr.years * UnitPrice(e, qr)
  {
    var currency := Upper(qr.currency);
    var s := e.Selected(qr.transaction, currency);
    if s.Yearly? {
      TotalOfConcat(e.fx, PhaseFees(e.phase, currency), Copies(s.fee, qr.years), currency);
      TotalOfCopies(e.fx, s.fee, qr.years, currency);
    } else {
      assert e.Items(qr) == PhaseFees(e.phase, currency);
    }
  }

  // --- What is charged ------------------------------------------------------------------------

  /** What an amount is worth in the currency of the quote: itself, or exchanged at the given rate. */
  function Worth(fx: FX, amount: int, currency: string, target: string): int {
    if Upper(currency) == target then Wrap(amount) else Wrap(fx.rate(Wrap(amount)))
  }

  /** A fee counts exactly when it is in the currency of the quote or the exchange leads from its own to that one. */
  lemma ContributionExact(fx: FX, fee: Fee, target: string)
    ensures InCurrency(fx, fee, target).Some? <==>
              Upper(fee.currency) == target || (Upper(fee.currency) == fx.base && Upper(fx.target) == target)
    ensures InCurrency(fx, fee, target).Some? ==> AmountIn(fx, fee, target) == Worth(fx, fee.amount, fee.currency, target)
  {
    hide Wrap, Upper;
  }

  /** The amount that a price list names for a transaction. */
  predicate Names(p: Price, t: TransactionType, amount: int) {
    && (t == Registration ==> amount == p.registrationAmount)
    && (t == Renewal || t == AutoRenewal ==> amount == p.renewalAmount)
    && (t == Transfer ==> amount == p.transferAmount)
    && (t == RestoreTransaction ==> amount == p.restoreAmount)
  }

  /** The price in the requested currency, or else the one in the base currency. */
  predicate PriceFor(phase: Phase, currency: string, i: int) {
    || FirstPrice(phase.prices, Upper(currency), i)
    || ((forall j :: 0 <= j < |phase.prices| ==> phase.prices[j].currency != Upper(currency))
        && FirstPrice(phase.prices, Upper(phase.baseCurrency), i))
  }

  lemma StoredAmount(amount: nat)
    ensures Wrap(Unsigned(Wrap(amount))) == Wrap(amount)
  {
    var w := Wrap(amount);
    assert Unsigned(w) == w + (if w < 0 then TWO_64 else 0);
    WrapForgetsMultiples(w, if w < 0 then 1 else 0);
    WrapIsExactInRange(w);
  }

  /** The yearly part of a quote, once the applicable amount and its currency are known. */
  lemma YearlyWorth(e: PriceEngine, qr: QuoteRequest, amount: nat, currency: string)
    requires e.Quotable(qr)
    requires var s := e.Selected(qr.transaction, Upper(qr.currency));
             s.Yearly? && Upper(s.fee.currency) == Upper(currency) && Wrap(s.fee.amount) == Wrap(amount)
    ensures Total(e.fx, e.Items(qr), Upper(qr.currency))
            == Total(e.fx, PhaseFees(e.phase, Upper(qr.currency)), Upper(qr.currency))
               + qr.years * Worth(e.fx, amount, currency, Upper(qr.currency))
  {
    hide Wrap, Total, PhaseFees, Upper, InCurrency;
    var fee := e.Selected(qr.transaction, Upper(qr.currency)).fee;
    e.QuotableParts(qr);
    ContributionExact(e.fx, fee, Upper(qr.currency));
    PriceIsLinear(e, qr);
  }

  /**
   * Without premium entries every year costs the amount that the phase's price names for the
   * transaction: the registration amount for a registration, the renewal amount for a renewal, and so on.
   */
  lemma PhasePriceIsCharged(e: PriceEngine, qr: QuoteRequest, i: nat, amount: nat)
    requires e.Quotable(qr) && e.premiumEntries == []
    requires !(qr.transaction == Renewal && (e.gfAmount != 0 || e.gfCurrency != ""))
    requires PriceFor(e.phase, Upper(qr.currency), i) && Names(e.phase.prices[i], qr.transaction, amount)
    ensures Total(e.fx, e.Items(qr), Upper(qr.currency))
            == Total(e.fx, PhaseFees(e.phase, Upper(qr.currency)), Upper(qr.currency))
               + qr.years * Worth(e.fx, amount, e.phase.prices[i].currency, Upper(qr.currency))
  {
    hide Wrap, Total, PhaseFees, Upper, Worth, InCurrency, Convertible;
    var c := Upper(qr.currency);
    GetPriceExact(e.phase.prices, c, i);
    GetPriceExact(e.phase.prices, e.phase.baseCurrency, i);
    StoredAmount(amount);
    YearlyWorth(e, qr, amount, e.phase.prices[i].currency);
  }

  /** Without premium entries and without a price in either currency only the phase's fees are charged. */
  lemma NoPriceIsFree(e: PriceEngine, qr: QuoteRequest)
    requires e.Quotable(qr) && e.premiumEntries == []
    requires !(qr.transaction == Renewal && (e.gfAmount != 0 || e.gfCurrency != ""))
    requires forall i :: !PriceFor(e.phase, Upper(qr.currency), i)
    ensures e.Items(qr) == PhaseFees(e.phase, Upper(qr.currency))
  {
    hide PhaseFees, Upper, Convertible;
    var c := Upper(qr.currency);
    var k, b := PriceIndex(e.phase.prices, Upper(c)), PriceIndex(e.phase.prices, Upper(e.phase.baseCurrency));
    assert !PriceFor(e.phase, c, k) && !PriceFor(e.phase, c, b);
  }

  /** A grandfathered domain is renewed at its own amount, whatever the phase and the premium entries say. */
  lemma GrandfatheredIsCharged(e: PriceEngine, qr: QuoteRequest)
    requires e.Quotable(qr) && qr.transaction == Renewal && (e.gfAmount != 0 || e.gfCurrency != "")
    ensures Total(e.fx, e.Items(qr), Upper(qr.currency))
            == Total(e.fx, PhaseFees(e.phase, Upper(qr.currency)), Upper(qr.currency))
               + qr.years * Worth(e.fx, e.gfAmount, e.gfCurrency, Upper(qr.currency))
  {
    hide Wrap, Total, PhaseFees, Upper, Worth, InCurrency, Convertible;
    YearlyWorth(e, qr, e.gfAmount, e.gfCurrency);
  }

  /** The last premium entry for the domain's label in a currency. */
  predicate PremiumIn(e: PriceEngine, currency: string, i: int) {
    && 0 <= i < |e.premiumEntries|
    && e.premiumEntries[i].domainLabel == e.domainLabel && e.premiumEntries[i].price.currency == currency
    && forall j :: i < j < |e.premiumEntries| ==>
         !(e.premiumEntries[j].domainLabel == e.domainLabel && e.premiumEntries[j].price.currency == currency)
  }

  /** The entry in the requested currency, or else the one in the base currency. */
  ghost predicate PremiumFor(e: PriceEngine, currency: string, i: int) {
    PremiumIn(e, currency, i) || ((forall j :: !PremiumIn(e, currency, j)) && PremiumIn(e, e.phase.baseCurrency, i))
  }

  lemma {:induction false} LastPremiumExact(entries: seq<PremiumLabel>, domainLabel: string, currency: string)
    ensures LastPremium(entries, domainLabel, currency).None? <==>
              forall j :: 0 <= j < |entries| ==> !(entries[j].domainLabel == domainLabel && entries[j].price.currency == currency)
    ensures forall i :: 0 <= i < |entries| && entries[i].domainLabel == domainLabel && entries[i].price.currency == currency
              && (forall j :: i < j < |entries| ==> !(entries[j].domainLabel == domainLabel && entries[j].price.currency == currency))
              ==> LastPremium(entries, domainLabel, currency) == Some(entries[i])
  {
    if entries != [] {
      var init := entries[..|entries| - 1];
      LastPremiumExact(init, domainLabel, currency);
      assert forall j :: 0 <= j < |init| ==> entries[j] == init[j];
    }
  }

  /** With premium entries every year costs what the entry for the label names, in the requested or else the base currency. */
  lemma PremiumIsCharged(e: PriceEngine, qr: QuoteRequest, i: nat, amount: nat)
    requires e.Quotable(qr) && e.premiumEntries != []
    requires !(qr.transaction == Renewal && (e.gfAmount != 0 || e.gfCurrency != ""))
    requires PremiumFor(e, Upper(qr.currency), i)
    requires Names(e.premiumEntries[i].price, qr.transaction, amount)
    ensures Total(e.fx, e.Items(qr), Upper(qr.currency))
            == Total(e.fx, PhaseFees(e.phase, Upper(qr.currency)), Upper(qr.currency))
               + qr.years * Worth(e.fx, amount, e.premiumEntries[i].price.currency, Upper(qr.currency))
  {
    hide Wrap, Total, PhaseFees, Upper, Worth, InCurrency, Convertible;
    var c := Upper(qr.currency);
    LastPremiumExact(e.premiumEntries, e.domainLabel, c);
    LastPremiumExact(e.premiumEntries, e.domainLabel, e.phase.baseCurrency);
    if !PremiumIn(e, c, i) {
      NoPremiumIn(e, c);
    }
    StoredAmount(amount);
    UpperTwice(e.premiumEntries[i].price.currency);
    YearlyWorth(e, qr, amount, e.premiumEntries[i].price.currency);
  }

  lemma NoPremiumIn(e: PriceEngine, currency: string)
    requires forall j :: !PremiumIn(e, currency, j)
    ensures LastPremium(e.premiumEntries, e.domainLabel, currency).None?
  {
    NoneWithoutLast(e, currency, |e.premiumEntries|);
    LastPremiumExact(e.premiumEntries, e.domainLabel, currency);
  }

  /** An entry with none behind it would be the last one. */
  lemma {:induction false} NoneWithoutLast(e: PriceEngine, currency: string, n: nat)
    requires (forall j :: !PremiumIn(e, currency, j)) && n <= |e.premiumEntries|
    ensures forall j :: |e.premiumEntries| - n <= j < |e.premiumEntries| ==>
              !(e.premiumEntries[j].domainLabel == e.domainLabel && e.premiumEntries[j].price.currency == currency)
  {
    if n > 0 {
      NoneWithoutLast(e, currency, n - 1);
      assert !PremiumIn(e, currency, |e.premiumEntries| - n);
    }
  }

  /** Already in the currency, or exchanged into it. */
  predicate Reaches(fx: FX, currency: string, target: string) {
    Upper(currency) == target || (Upper(currency) == fx.base && Upper(fx.target) == target)
  }

  /** What is asked for yearly can be charged: there is an amount for it, in a currency that leads to that of the quote. */
  ghost predicate Chargeable(e: PriceEngine, t: TransactionType, c: string) {
    if t == Renewal && (e.gfAmount != 0 || e.gfCurrency != "") then Reaches(e.fx, e.gfCurrency, c)
    else if e.premiumEntries != [] then
      t != AutoRenewal && exists i :: PremiumFor(e, c, i) && Reaches(e.fx, e.premiumEntries[i].price.currency, c)
    else forall i :: PriceFor(e.phase, c, i) ==> Reaches(e.fx, e.phase.prices[i].currency, c)
  }

  /** Exactly the requests that get a quote, told without the steps that make it. */
  lemma QuotableExact(e: PriceEngine, qr: QuoteRequest)
    ensures e.Quotable(qr) <==>
              && (qr.phaseName == e.phase.name || qr.phaseName == "")
              && qr.wellFormed && qr.transaction != OtherTransaction
              && Upper(qr.currency) in e.currencies && 1 <= qr.years <= 10
              && (forall f | f in PhaseFees(e.phase, Upper(qr.currency)) :: Reaches(e.fx, f.currency, Upper(qr.currency)))
              && Chargeable(e, qr.transaction, Upper(qr.currency))
  {
    hide PhaseFees, Upper, Wrap, Chargeable;
    var c := Upper(qr.currency);
    e.QuotableParts(qr);
    forall f
      ensures InCurrency(e.fx, f, c).Some? <==> Reaches(e.fx, f.currency, c)
    {
      ContributionExact(e.fx, f, c);
    }
    hide InCurrency, Reaches;
    if qr.transaction != OtherTransaction {
      UpperTwice(qr.currency);
      ChargeableIsSelected(e, qr.transaction, c);
    }
  }

  lemma ChargeableIsSelected(e: PriceEngine, t: TransactionType, c: string)
    requires t != OtherTransaction
    ensures Chargeable(e, t, c) <==>
              match e.Selected(t, c)
              case Nothing => true
              case Refused(_) => false
              case Yearly(fee) => Reaches(e.fx, fee.currency, c)
  {
    hide Upper, Reaches, PremiumIn;
    if !(t == Renewal && (e.gfAmount != 0 || e.gfCurrency != "")) {
      if e.premiumEntries != [] {
        ChargeablePremium(e, t, c);
      } else {
        ChargeablePrice(e, t, c);
      }
    }
  }

  lemma ChargeablePremium(e: PriceEngine, t: TransactionType, c: string)
    requires t != OtherTransaction && e.premiumEntries != [] && !(t == Renewal && (e.gfAmount != 0 || e.gfCurrency != ""))
    ensures Chargeable(e, t, c) <==> e.Selected(t, c).Yearly? && Reaches(e.fx, e.Selected(t, c).fee.currency, c)
    ensures !e.Selected(t, c).Nothing?
  {
    hide Upper, Wrap;
    var exact := PremiumIndex(e, c);
    var base := PremiumIndex(e, e.phase.baseCurrency);
    var i := if exact < |e.premiumEntries| then exact else base;
    if i < |e.premiumEntries| {
      UpperTwice(e.premiumEntries[i].price.currency);
      assert PremiumFor(e, c, i);
    }
  }

  /** Position of the last premium entry in a currency, or the length of the list. */
  lemma PremiumIndex(e: PriceEngine, currency: string) returns (i: nat)
    ensures i <= |e.premiumEntries|
    ensures if i < |e.premiumEntries|
            then (forall j :: PremiumIn(e, currency, j) <==> j == i)
                 && LastPremium(e.premiumEntries, e.domainLabel, currency) == Some(e.premiumEntries[i])
            else (forall j :: !PremiumIn(e, currency, j)) && LastPremium(e.premiumEntries, e.domainLabel, currency).None?
  {
    LastPremiumExact(e.premiumEntries, e.domainLabel, currency);
    if j :| PremiumIn(e, currency, j) {
      return j;
    }
    NoPremiumIn(e, currency);
    i := |e.premiumEntries|;
  }

  lemma ChargeablePrice(e: PriceEngine, t: TransactionType, c: string)
    requires t != OtherTransaction && e.premiumEntries == [] && !(t == Renewal && (e.gfAmount != 0 || e.gfCurrency != ""))
    ensures Chargeable(e, t, c) <==>
              match e.Selected(t, c)
              case Nothing => true
              case Refused(_) => false
              case Yearly(fee) => Reaches(e.fx, fee.currency, c)
  {
    hide Upper, Wrap, Reaches;
    var k, b := PriceIndex(e.phase.prices, Upper(c)), PriceIndex(e.phase.prices, Upper(e.phase.baseCurrency));
    var i := if k < |e.phase.prices| then k else b;
    assert forall j :: PriceFor(e.phase, c, j) <==> j == i < |e.phase.prices|;
  }

  /** The fees of a quote are those in the requested currency or, if there are none, those in the base currency. */
  lemma PhaseFeesExact(phase: Phase, currency: string)
    ensures PhaseFees(phase, currency)
            == if exists f :: f in phase.fees && f.currency == Upper(currency)
               then GetFees(phase.fees, currency) else GetFees(phase.fees, phase.baseCurrency)
  {
    if f :| f in phase.fees && f.currency == Upper(currency) {
      FeesInCounts(phase.fees, Upper(currency), f);
      assert multiset(phase.fees)[f] > 0;
      assert f in multiset(GetFees(phase.fees, currency));
    }
    FoundIsThere(phase.fees, currency);
  }

  lemma FoundIsThere(fees: seq<Fee>, currency: string)
    ensures GetFees(fees, currency) != [] ==> exists f :: f in fees && f.currency == Upper(currency)
  {
    var found := GetFees(fees, currency);
    if found != [] {
      assert found[0] in fees && found[0].currency == Upper(currency);
    }
  }

  // --- Overflow -------------------------------------------------------------------------------

  predicate Within(x: int, bound: int) { -bound <= x <= bound }

  predicate Bounded(fx: FX, fees: seq<Fee>, currency: string, bound: nat) {
    forall i :: 0 <= i < |fees| ==> Within(AmountIn(fx, fees[i], currency), bound)
  }

  lemma {:induction false} TotalIsBounded(fx: FX, fees: seq<Fee>, currency: string, bound: nat)
    requires Bounded(fx, fees, currency, bound)
    ensures Within(Total(fx, fees, currency), bound * |fees|)
  {
    if fees != [] {
      assert Bounded(fx, fees[1..], currency, bound) by {
        assert forall i :: 0 <= i < |fees| - 1 ==> fees[1..][i] == fees[i + 1];
      }
      TotalIsBounded(fx, fees[1..], currency, bound);
      assert bound * |fees| == bound + bound * (|fees| - 1);
    }
  }

  /**
   * If every item is worth at most (2^63 - 1) / (number of phase fees + 10) in the requested currency,
   * no running total and no yearly product leaves 64 bits, and the price is the exact sum.
   */
  lemma NoStepOverflows(e: PriceEngine, qr: QuoteRequest, bound: nat)
    requires e.Quotable(qr)
    requires bound <= (TWO_63 - 1) / (|PhaseFees(e.phase, Upper(qr.currency))| + MAX_QUOTE_YEARS)
    requires Bounded(e.fx, e.Items(qr), Upper(qr.currency), bound)
    ensures var items := e.Items(qr);
            && (forall i :: 0 <= i <= |items| ==>
                  var t := Total(e.fx, items[..i], Upper(qr.currency));
                  -TWO_63 < t < TWO_63 && Wrap(t) == t)
            && (var p := qr.years * UnitPrice(e, qr); -TWO_63 < p < TWO_63 && Wrap(p) == p)
            && Wrap(Total(e.fx, items, Upper(qr.currency))) == Total(e.fx, items, Upper(qr.currency))
  {
    var currency := Upper(qr.currency);
    var items := e.Items(qr);
    var n := |PhaseFees(e.phase, currency)| + MAX_QUOTE_YEARS;
    assert bound * n < TWO_63 by { QuotientBound(bound, n); }
    assert |items| <= n;
    forall i | 0 <= i <= |items|
      ensures var t := Total(e.fx, items[..i], currency); -TWO_63 < t < TWO_63 && Wrap(t) == t
    {
      PartIsBounded(e.fx, items, currency, bound, i, n);
      WrapIsExactInRange(Total(e.fx, items[..i], currency));
    }
    assert items[..|items|] == items;
    var s := e.Selected(qr.transaction, currency);
    if s.Yearly? {
      assert items[|items| - 1] == s.fee;
      ProductIsBounded(qr.years, UnitPrice(e, qr), bound, n);
    }
    WrapIsExactInRange(qr.years * UnitPrice(e, qr));
  }

  lemma QuotientBound(bound: nat, n: nat)
    requires n > 0 && bound <= (TWO_63 - 1) / n
    ensures bound * n < TWO_63
  {
    var q := (TWO_63 - 1) / n;
    assert q * n <= TWO_63 - 1;
    assert bound * n <= q * n;
  }

  lemma PartIsBounded(fx: FX, items: seq<Fee>, currency: string, bound: nat, i: nat, n: nat)
    requires i <= |items| <= n && Bounded(fx, items, currency, bound)
    ensures Within(Total(fx, items[..i], currency), bound * n)
  {
    hide AmountIn;
    assert Bounded(fx, items[..i], currency, bound);
    TotalIsBounded(fx, items[..i], currency, bound);
    assert bound * i <= bound * n;
  }

  lemma ProductIsBounded(years: nat, unit: int, bound: nat, n: nat)
    requires years <= n && Within(unit, bound)
    ensures Within(years * unit, bound * n)
  {
    assert years * unit <= years * bound && -(years * bound) <= years * unit;
    assert years * bound <= n * bound;
  }

  // --- Order ----------------------------------------------------------------------------------

  lemma TotalWithoutOne(fx: FX, fees: seq<Fee>, i: nat, currency: string)
    requires i < |fees|
    ensures var rest := fees[..i] + fees[i + 1..];
            && Total(fx, fees, currency) == AmountIn(fx, fees[i], currency) + Total(fx, rest, currency)
            && multiset(fees) == multiset(rest) + multiset{fees[i]}
  {
    hide AmountIn;
    var tail := [fees[i]] + fees[i + 1..];
    assert fees == fees[..i] + tail;
    TotalOfConcat(fx, fees[..i], tail, currency);
    TotalOfConcat(fx, fees[..i], fees[i + 1..], currency);
    assert tail[1..] == fees[i + 1..];
  }

  lemma CancelOne<T>(m: multiset<T>, n: multiset<T>, x: T)
    requires m + multiset{x} == n + multiset{x}
    ensures m == n
  {
    assert m == m + multiset{x} - multiset{x};
    assert n == n + multiset{x} - multiset{x};
  }

  /** A sum does not depend on the order of its items. */
  lemma {:induction false} TotalIgnoresOrder(fx: FX, a: seq<Fee>, b: seq<Fee>, currency: string)
    requires multiset(a) == multiset(b)
    ensures Total(fx, a, currency) == Total(fx, b, currency)
  {
    hide AmountIn, Total;
    if a == [] {
      assert |multiset(b)| == 0;
      assert b == [];
    } else {
      assert a[0] in multiset(b);
      var i :| 0 <= i < |b| && b[i] == a[0];
      TotalWithoutOne(fx, b, i, currency);
      TotalWithoutOne(fx, a, 0, currency);
      assert a[..0] + a[1..] == a[1..];
      var rest := b[..i] + b[i + 1..];
      CancelOne(multiset(a[1..]), multiset(rest), a[0]);
      TotalIgnoresOrder(fx, a[1..], rest, currency);
    }
  }

  lemma ConvertibleIgnoresOrder(fx: FX, a: seq<Fee>, b: seq<Fee>, currency: string)
    requires multiset(a) == multiset(b) && Convertible(fx, a, currency)
    ensures Convertible(fx, b, currency)
  {
    forall i | 0 <= i < |b|
      ensures InCurrency(fx, b[i], currency).Some?
    {
      assert b[i] in multiset(a);
      var j :| 0 <= j < |a| && a[j] == b[i];
    }
  }

  /** The same surroundings, with the phase's lists in another order. */
  ghost predicate Reordered(e: PriceEngine, d: PriceEngine) {
    && multiset(e.phase.fees) == multiset(d.phase.fees)
    && multiset(e.phase.prices) == multiset(d.phase.prices)
    && OnePricePerCurrency(e.phase.prices)
    && d.phase == e.phase.(fees := d.phase.fees, prices := d.phase.prices)
    && d.premiumEntries == e.premiumEntries && d.fx == e.fx && d.domainLabel == e.domainLabel
    && d.gfAmount == e.gfAmount && d.gfCurrency == e.gfCurrency && d.currencies == e.currencies
  }

  lemma SelectionIgnoresOrder(e: PriceEngine, d: PriceEngine, t: TransactionType, currency: string)
    requires Reordered(e, d)
    ensures e.Selected(t, currency) == d.Selected(t, currency)
  {
    hide GetPrice, PremiumSelection, TransactionFee, OnePricePerCurrency;
    PriceOrderDoesNotMatter(e.phase.prices, d.phase.prices, currency);
    PriceOrderDoesNotMatter(e.phase.prices, d.phase.prices, e.phase.baseCurrency);
  }

  lemma PhaseFeesIgnoreOrder(p: Phase, q: Phase, currency: string)
    requires multiset(p.fees) == multiset(q.fees) && p.baseCurrency == q.baseCurrency
    ensures multiset(PhaseFees(p, currency)) == multiset(PhaseFees(q, currency))
  {
    hide GetFees;
    FeeOrderOnlyReorders(p.fees, q.fees, currency);
    FeeOrderOnlyReorders(p.fees, q.fees, p.baseCurrency);
    assert GetFees(p.fees, currency) == [] <==> |multiset(GetFees(p.fees, currency))| == 0;
    assert GetFees(q.fees, currency) == [] <==> |multiset(GetFees(q.fees, currency))| == 0;
  }

  lemma ItemsIgnoreOrder(e: PriceEngine, d: PriceEngine, qr: QuoteRequest)
    requires Reordered(e, d)
    ensures multiset(e.Items(qr)) == multiset(d.Items(qr))
    ensures e.Selected(qr.transaction, Upper(qr.currency)) == d.Selected(qr.transaction, Upper(qr.currency))
  {
    hide PhaseFees, OnePricePerCurrency, Copies;
    SelectionIgnoresOrder(e, d, qr.transaction, Upper(qr.currency));
    PhaseFeesIgnoreOrder(e.phase, d.phase, Upper(qr.currency));
  }

  /** Reordering the prices and fees of a phase changes neither who gets a quote nor its price. */
  lemma QuoteIgnoresOrder(e: PriceEngine, d: PriceEngine, qr: QuoteRequest)
    requires Reordered(e, d)
    ensures e.Quotable(qr) <==> d.Quotable(qr)
    ensures Total(e.fx, e.Items(qr), Upper(qr.currency)) == Total(d.fx, d.Items(qr), Upper(qr.currency))
  {
    ItemsIgnoreOrder(e, d, qr);
    TotalIgnoresOrder(e.fx, e.Items(qr), d.Items(qr), Upper(qr.currency));
    if e.Quotable(qr) {
      ConvertibleIgnoresOrder(e.fx, e.Items(qr), d.Items(qr), Upper(qr.currency));
    }
    if d.Quotable(qr) {
      ConvertibleIgnoresOrder(e.fx, d.Items(qr), e.Items(qr), Upper(qr.currency));
    }
  }

  // --- Premium entries and automatic renewals -------------------------------------------------

  /**
   * A domain with premium entries can never be quoted for an automatic renewal: the premium label has
   * no amount for it.
   */
  lemma PremiumAutoRenewalIsNeverQuoted(e: PriceEngine, qr: QuoteRequest)
    requires e.premiumEntries != [] && qr.transaction == AutoRenewal
    ensures !e.Quotable(qr)
  {
  }
}
