/**
 * The price engine: it itemises fees into a quote and keeps the total in the requested currency,
 * falling back on the phase's base currency and an exchange rate. Amounts are 64-bit and wrap around.
 */
module Quotes {
  import opened Outcomes
  import opened Phases
  import opened Pricing

  const MAX_QUOTE_YEARS := 10

  // --- 64-bit amounts -------------------------------------------------------------------------

  const TWO_63: int := 0x8000_0000_0000_0000
  const TWO_64: int := 0x1_0000_0000_0000_0000

  /** The signed 64-bit value of a number. */
  function Wrap(x: int): (r: int)
    ensures -TWO_63 <= r < TWO_63
  {
    (x + TWO_63) % TWO_64 - TWO_63
  }

  /** The unsigned 64-bit value of a number. */
  function Unsigned(x: int): nat { x % TWO_64 }

  lemma WrapIsExactInRange(x: int)
    requires -TWO_63 <= x < TWO_63
    ensures Wrap(x) == x
  {
  }

  lemma WrapForgetsMultiples(x: int, k: int)
    ensures Wrap(x + k * TWO_64) == Wrap(x)
  {
    var q, r := (x + TWO_63) / TWO_64, (x + TWO_63) % TWO_64;
    assert x + k * TWO_64 + TWO_63 == (q + k) * TWO_64 + r;
  }

  /** Wrapping the parts of a sum does not change what the sum wraps to. */
  lemma WrapOfSum(a: int, b: int)
    ensures Wrap(Wrap(a) + Wrap(b)) == Wrap(a + b)
  {
    var j, k := (a + TWO_63) / TWO_64, (b + TWO_63) / TWO_64;
    assert Wrap(a) == a - j * TWO_64 && Wrap(b) == b - k * TWO_64;
    WrapForgetsMultiples(a + b, -j - k);
    assert a + b + (-j - k) * TWO_64 == Wrap(a) + Wrap(b);
  }

  // --- Money and exchange ---------------------------------------------------------------------

  datatype Money = Money(amount: int, currency: string)

  /** An amount that is stored unsigned, as money. */
  function NewMoney(amount: nat, currency: string): Money { Money(Wrap(amount), Upper(currency)) }

  /** Nothing is assumed of the rate, which rounds and multiplies floating-point numbers. */
  datatype FX = FX(base: string, target: string, rate: int -> int)

  function Convert(fx: FX, m: Money): Option<Money> {
    if m.currency != fx.base then None else Some(Money(Wrap(fx.rate(m.amount)), Upper(fx.target)))
  }

  /** What a fee contributes to a total in the given currency, if it can be brought there at all. */
  function InCurrency(fx: FX, fee: Fee, currency: string): (r: Option<int>)
    ensures r.Some? ==> -TWO_63 <= r.value < TWO_63
  {
    var m := NewMoney(fee.amount, fee.currency);
    if m.currency == currency then Some(m.amount)
    else match Convert(fx, m)
      case None => None
      case Some(c) => if c.currency == currency then Some(c.amount) else None
  }

  function AmountIn(fx: FX, fee: Fee, currency: string): int {
    match InCurrency(fx, fee, currency) case Some(x) => x case None => 0
  }

  /** The exact sum of what the fees contribute. */
  function Total(fx: FX, fees: seq<Fee>, currency: string): int {
    if fees == [] then 0 else AmountIn(fx, fees[0], currency) + Total(fx, fees[1..], currency)
  }

  predicate Convertible(fx: FX, fees: seq<Fee>, currency: string) {
    forall i :: 0 <= i < |fees| ==> InCurrency(fx, fees[i], currency).Some?
  }

  lemma {:induction false} TotalOfConcat(fx: FX, a: seq<Fee>, b: seq<Fee>, currency: string)
    ensures Total(fx, a + b, currency) == Total(fx, a, currency) + Total(fx, b, currency)
  {
    if a == [] {
      assert a + b == b;
    } else {
      TotalOfConcat(fx, a[1..], b, currency);
      assert (a + b)[1..] == a[1..] + b;
    }
  }

  function Copies(fee: Fee, n: nat): (r: seq<Fee>)
    ensures |r| == n && forall i :: 0 <= i < n ==> r[i] == fee
  {
    if n == 0 then [] else [fee] + Copies(fee, n - 1)
  }

  lemma {:induction false} TotalOfCopies(fx: FX, fee: Fee, n: nat, currency: string)
    ensures Total(fx, Copies(fee, n), currency) == n * AmountIn(fx, fee, currency)
  {
    if n > 0 {
      TotalOfCopies(fx, fee, n - 1, currency);
      assert Copies(fee, n)[1..] == Copies(fee, n - 1);
    }
  }

  lemma ConvertibleConcat(fx: FX, a: seq<Fee>, b: seq<Fee>, currency: string)
    ensures Convertible(fx, a + b, currency) <==> Convertible(fx, a, currency) && Convertible(fx, b, currency)
  {
    if Convertible(fx, a + b, currency) {
      assert forall i :: 0 <= i < |a| ==> (a + b)[i] == a[i];
      assert forall i :: 0 <= i < |b| ==> (a + b)[|a| + i] == b[i];
    }
  }

  /** Adding n copies of a fee moves the wrapped total by the wrapped product. */
  lemma TotalMoves(fx: FX, fees: seq<Fee>, fee: Fee, n: nat, currency: string)
    ensures Wrap(Wrap(Total(fx, fees, currency)) + Wrap(n * AmountIn(fx, fee, currency)))
            == Wrap(Total(fx, fees + Copies(fee, n), currency))
    ensures Convertible(fx, fees, currency) && InCurrency(fx, fee, currency).Some? ==>
              Convertible(fx, fees + Copies(fee, n), currency)
  {
    hide Wrap, InCurrency;
    ConvertibleConcat(fx, fees, Copies(fee, n), currency);
    TotalOfConcat(fx, fees, Copies(fee, n), currency);
    TotalOfCopies(fx, fee, n, currency);
    WrapOfSum(Total(fx, fees, currency), n * AmountIn(fx, fee, currency));
  }

  lemma ConversionSteps(fx: FX, fee: Fee, currency: string)
    ensures var m := NewMoney(fee.amount, fee.currency);
            InCurrency(fx, fee, currency) ==
              if m.currency == currency then Some(m.amount)
              else if Convert(fx, m).None? || Convert(fx, m).value.currency != currency then None
              else Some(Convert(fx, m).value.amount)
    ensures InCurrency(fx, fee, currency).Some? ==>
              var x := AmountIn(fx, fee, currency);
              InCurrency(fx, fee, currency) == Some(x) && x == Wrap(1 * x)
  {
    hide Wrap;
    if InCurrency(fx, fee, currency).Some? {
      WrapIsExactInRange(AmountIn(fx, fee, currency));
    }
  }

  // --- The quote ------------------------------------------------------------------------------

  class Quote {
    const years: int
    const fx: FX
    var fees: seq<Fee>
    var price: Money

    constructor (currency: string, years: int, fx: FX)
      ensures this.years == years && this.fx == fx && fees == [] && price == Money(0, Upper(currency)) && Conserved()
    {
      this.years, this.fx := years, fx;
      fees, price := [], Money(0, Upper(currency));
    }

    /** The price is what the itemised fees add up to. */
    ghost predicate Conserved()
      reads this
    {
      Convertible(fx, fees, price.currency) && price.amount == Wrap(Total(fx, fees, price.currency))
    }

    /** Itemises a fee, once or for every year, and adds it to the price. */
    method AddFeeAndUpdatePrice(fee: Fee, yearlyFee: bool) returns (outcome: Outcome)
      requires years >= 1 && Conserved()
      modifies `fees, `price
      ensures price.currency == old(price.currency)
      ensures outcome.Done? <==> InCurrency(fx, fee, price.currency).Some?
      ensures outcome.Done? ==> Conserved() && fees == old(fees) + Copies(fee, if yearlyFee then years else 1)
    {
      hide Wrap, Total, Copies, Convertible, InCurrency, AmountIn;
      ghost var before, n, x := fees, if yearlyFee then years else 1, AmountIn(fx, fee, price.currency);
      fees := fees + [fee];
      var feeMoney;
      feeMoney, outcome := ConvertFee(fee);
      if outcome.Fail? {
        return;
      }
      if yearlyFee {
        feeMoney := feeMoney.(amount := Wrap(feeMoney.amount * years));
      }
      if feeMoney.currency != price.currency {
        return Fail(CurrencyMismatch);
      }
      assert feeMoney.amount == Wrap(n * x);
      price := price.(amount := Wrap(price.amount + feeMoney.amount));
      if yearlyFee {
        RepeatFee(fee);
      }
      FirstCopy(before, fee, n);
      TotalMoves(fx, before, fee, n, price.currency);
    }

    /** The fee in the currency of the price if it can be brought there. */
    method ConvertFee(fee: Fee) returns (m: Money, outcome: Outcome)
      ensures outcome.Done? && m.currency == price.currency <==> InCurrency(fx, fee, price.currency).Some?
      ensures outcome.Done? && m.currency == price.currency ==>
                m.amount == AmountIn(fx, fee, price.currency) == Wrap(1 * m.amount)
    {
      hide Wrap, NewMoney, Convert, InCurrency, AmountIn;
      ConversionSteps(fx, fee, price.currency);
      m := NewMoney(fee.amount, fee.currency);
      if m.currency != price.currency {
        var converted := Convert(fx, m);
        if converted.None? {
          return m, Fail(CurrencyConversion);
        }
        m := converted.value;
      }
      outcome := Done;
    }

    /** Itemises the fee for the years after the first. */
    method RepeatFee(fee: Fee)
      requires years >= 1
      modifies `fees
      ensures fees == old(fees) + Copies(fee, years - 1)
    {
      for i := 1 to years
        invariant fees == old(fees) + Copies(fee, i - 1)
      {
        MoreCopies(fee, i - 1);
        fees := fees + [fee];
      }
    }
  }

  lemma FirstCopy(before: seq<Fee>, fee: Fee, n: nat)
    requires n >= 1
    ensures before + [fee] + Copies(fee, n - 1) == before + Copies(fee, n)
    ensures before + [fee] + Copies(fee, 0) == before + [fee]
  {
  }

  lemma {:induction false} MoreCopies(fee: Fee, n: nat)
    ensures Copies(fee, n) + [fee] == Copies(fee, n + 1)
  {
  }

  // --- What is charged ------------------------------------------------------------------------

  datatype TransactionType = Registration | Renewal | AutoRenewal | Transfer | RestoreTransaction | OtherTransaction

  /** A premium label carries its amounts like a price, but has none for automatic renewals. */
  datatype PremiumLabel = PremiumLabel(domainLabel: string, price: Price)

  /** `wellFormed` stands for the domain name and the client identifier being valid. */
  datatype QuoteRequest = QuoteRequest(wellFormed: bool, transaction: TransactionType, currency: string, years: int, phaseName: string)

  function PriceAmount(p: Price, t: TransactionType): Option<nat> {
    match t
    case Registration => Some(p.registrationAmount)
    case Renewal => Some(p.renewalAmount)
    case AutoRenewal => Some(p.renewalAmount)
    case Transfer => Some(p.transferAmount)
    case RestoreTransaction => Some(p.restoreAmount)
    case OtherTransaction => None
  }

  function PremiumAmount(p: Price, t: TransactionType): Option<nat> {
    if t == AutoRenewal then None else PriceAmount(p, t)
  }

  function TransactionFee(t: TransactionType, amount: nat, currency: string): Fee {
    var name := match t
      case Registration => "registration fee"
      case Renewal => "renewal fee"
      case AutoRenewal => "auto_renewal fee"
      case Transfer => "transfer fee"
      case RestoreTransaction => "restore fee"
      case OtherTransaction => "fee";
    Fee(name, currency, Unsigned(Wrap(amount)), Some(true))
  }

  /** The last premium entry for the label in the currency. */
  function LastPremium(entries: seq<PremiumLabel>, domainLabel: string, currency: string): Option<PremiumLabel> {
    if entries == [] then None
    else
      var last := entries[|entries| - 1];
      if last.domainLabel == domainLabel && last.price.currency == currency then Some(last)
      else LastPremium(entries[..|entries| - 1], domainLabel, currency)
  }

  /** The fee that is charged for every year, if any. */
  datatype Selection = Nothing | Yearly(fee: Fee) | Refused(error: Error)

  function PremiumSelection(entry: Option<PremiumLabel>, t: TransactionType): Selection {
    if entry.None? then Nothing
    else if PremiumAmount(entry.value.price, t).None? then Refused(NilMoneyPanic)
    else Yearly(TransactionFee(t, PremiumAmount(entry.value.price, t).value, Upper(entry.value.price.currency)))
  }

  predicate GrandFathered(gfAmount: nat, gfCurrency: string) {
    !(gfAmount == 0 && gfCurrency == "")
  }

  /** What is itemised once: the fees in the requested currency or else those in the base currency. */
  function PhaseFees(phase: Phase, currency: string): seq<Fee> {
    var fees := GetFees(phase.fees, currency);
    if fees != [] then fees else GetFees(phase.fees, phase.baseCurrency)
  }

  class PriceEngine {
    const phase: Phase
    const premiumEntries: seq<PremiumLabel>
    const fx: FX
    const domainLabel: string
    const gfAmount: nat
    const gfCurrency: string
    const currencies: set<string>
    var quote: Quote

    constructor (phase: Phase, premiumEntries: seq<PremiumLabel>, fx: FX, domainLabel: string, gfAmount: nat, gfCurrency: string,
                 currencies: set<string>)
      ensures this.phase == phase && this.premiumEntries == premiumEntries && this.fx == fx && this.domainLabel == domainLabel
      ensures this.gfAmount == gfAmount && this.gfCurrency == gfCurrency && this.currencies == currencies
      ensures fresh(quote)
    {
      this.phase, this.premiumEntries, this.fx, this.domainLabel := phase, premiumEntries, fx, domainLabel;
      this.gfAmount, this.gfCurrency, this.currencies := gfAmount, gfCurrency, currencies;
      quote := new Quote("", 1, fx);
    }

    predicate ValidRequest(qr: QuoteRequest) {
      && qr.wellFormed && !qr.transaction.OtherTransaction?
      && Upper(qr.currency) in currencies
      && 1 <= qr.years <= MAX_QUOTE_YEARS
    }

    /** Grandfathered renewals first, then premium entries, then the phase's price; each in the
        requested currency or else in the base currency. `currency` is in upper case. */
    function Selected(t: TransactionType, currency: string): Selection {
      if GrandFathered(gfAmount, gfCurrency) && t == Renewal then
        Yearly(Fee("grandfathered renewal fee", gfCurrency, gfAmount, Some(true)))
      else if premiumEntries != [] then
        var exact := PremiumSelection(LastPremium(premiumEntries, domainLabel, currency), t);
        var fallback := PremiumSelection(LastPremium(premiumEntries, domainLabel, phase.baseCurrency), t);
        if exact != Nothing then exact else if fallback != Nothing then fallback else Refused(NoPremiumPrice)
      else
        var exact := GetPrice(phase.prices, currency);
        var price := if exact.Some? then exact else GetPrice(phase.prices, phase.baseCurrency);
        if price.None? then Nothing
        else if PriceAmount(price.value, t).None? then Refused(InvalidTransactionType)
        else Yearly(TransactionFee(t, PriceAmount(price.value, t).value, price.value.currency))
    }

    /** The fees of a quote, item by item. */
    function Items(qr: QuoteRequest): seq<Fee> {
      var s := Selected(qr.transaction, Upper(qr.currency));
      PhaseFees(phase, Upper(qr.currency)) + (if s.Yearly? && qr.years >= 0 then Copies(s.fee, qr.years) else [])
    }

    /** Exactly the requests that get a quote. */
    predicate Quotable(qr: QuoteRequest) {
      && (qr.phaseName == phase.name || qr.phaseName == "")
      && ValidRequest(qr)
      && Convertible(fx, Items(qr), Upper(qr.currency))
      && !Selected(qr.transaction, Upper(qr.currency)).Refused?
    }

    method AddFees(fees: seq<Fee>) returns (outcome: Outcome)
      requires quote.years >= 1 && quote.fx == fx && quote.Conserved()
      modifies quote
      ensures quote.price.currency == old(quote.price.currency)
      ensures outcome.Done? <==> Convertible(fx, fees, quote.price.currency)
      ensures outcome.Done? ==> quote.Conserved() && quote.fees == old(quote.fees) + fees
    {
      ghost var before := quote.fees;
      for i := 0 to |fees|
        invariant quote.price.currency == old(quote.price.currency) && quote.Conserved()
        invariant Convertible(fx, fees[..i], quote.price.currency) && quote.fees == before + fees[..i]
      {
        outcome := quote.AddFeeAndUpdatePrice(fees[i], false);
        if outcome.Fail? {
          return;
        }
        assert Copies(fees[i], 1) == [fees[i]];
        assert fees[..i + 1] == fees[..i] + [fees[i]];
      }
      assert fees[..|fees|] == fees;
      outcome := Done;
    }

    /** The fees of the phase, in the requested currency or else in the base currency. */
    method AddPhaseFees(currency: string) returns (outcome: Outcome)
      requires quote.years >= 1 && quote.fx == fx && quote.fees == [] && quote.Conserved()
      modifies quote
      ensures quote.price.currency == old(quote.price.currency)
      ensures outcome.Done? <==> Convertible(fx, PhaseFees(phase, currency), quote.price.currency)
      ensures outcome.Done? ==> quote.Conserved() && quote.fees == PhaseFees(phase, currency)
    {
      var fees := GetFees(phase.fees, currency);
      outcome := AddFees(fees);
      if outcome.Fail? {
        return;
      }
      if |fees| == 0 {
        fees := GetFees(phase.fees, phase.baseCurrency);
        outcome := AddFees(fees);
      }
    }

    /** Looks for a premium entry; a nil amount is dereferenced for transactions a premium label does not price. */
    method FindPremium(t: TransactionType, currency: string) returns (s: Selection)
      ensures s == PremiumSelection(LastPremium(premiumEntries, domainLabel, currency), t)
    {
      s := Nothing;
      for i := 0 to |premiumEntries|
        invariant s == PremiumSelection(LastPremium(premiumEntries[..i], domainLabel, currency), t)
        invariant !s.Refused?
      {
        var pl := premiumEntries[i];
        assert premiumEntries[..i + 1][..i] == premiumEntries[..i];
        if pl.domainLabel == domainLabel && pl.price.currency == currency {
          var amount := PremiumAmount(pl.price, t);
          if amount.None? {
            AMatchRemains(premiumEntries, i + 1, domainLabel, currency);
            return Refused(NilMoneyPanic);
          }
          s := Yearly(TransactionFee(t, amount.value, Upper(pl.price.currency)));
        }
      }
      assert premiumEntries[..|premiumEntries|] == premiumEntries;
    }

    /** Whether a request is quotable, item by item. */
    lemma QuotableParts(qr: QuoteRequest)
      ensures var c := Upper(qr.currency);
              Quotable(qr) <==>
                && (qr.phaseName == phase.name || qr.phaseName == "")
                && ValidRequest(qr)
                && Convertible(fx, PhaseFees(phase, c), c)
                && match Selected(qr.transaction, c)
                   case Nothing => true
                   case Refused(_) => false
                   case Yearly(fee) => InCurrency(fx, fee, c).Some?
      ensures ValidRequest(qr) ==>
                match Selected(qr.transaction, Upper(qr.currency))
                case Yearly(fee) => Items(qr) == PhaseFees(phase, Upper(qr.currency)) + Copies(fee, qr.years)
                case _ => Items(qr) == PhaseFees(phase, Upper(qr.currency))
    {
      hide Selected, PhaseFees, InCurrency;
      var c := Upper(qr.currency);
      var s := Selected(qr.transaction, c);
      if ValidRequest(qr) {
        if s.Yearly? {
          ConvertibleConcat(fx, PhaseFees(phase, c), Copies(s.fee, qr.years), c);
          assert Convertible(fx, Copies(s.fee, qr.years), c) <==> InCurrency(fx, s.fee, c).Some? by {
            assert Copies(s.fee, qr.years)[0] == s.fee;
          }
        } else {
          assert Items(qr) == PhaseFees(phase, c) + [];
        }
      }
    }

    method GetQuote(qr: QuoteRequest) returns (outcome: Outcome)
      modifies this`quote
      ensures outcome.Done? <==> Quotable(qr)
      ensures outcome.Done? ==>
                && fresh(quote) && quote.Conserved() && quote.fx == fx
                && quote.fees == Items(qr)
                && quote.price.currency == Upper(qr.currency)
    {
      hide Selected, Convertible, PhaseFees, InCurrency, Copies, Total, Wrap, Quotable, Items;
      QuotableParts(qr);
      if qr.phaseName != phase.name && qr.phaseName != "" {
        return Fail(InvalidPhaseName);
      }
      var currency := Upper(qr.currency);
      UpperTwice(qr.currency);
      if !qr.wellFormed || qr.transaction.OtherTransaction? || Upper(currency) !in currencies
         || qr.years < 1 || qr.years > MAX_QUOTE_YEARS {
        return Fail(InvalidQuoteRequest);
      }
      quote := new Quote(currency, qr.years, fx);
      outcome := AddPhaseFees(currency);
      if outcome.Fail? {
        return;
      }
      var selection := Select(qr.transaction, currency);
      match selection
      case Nothing =>
      case Refused(error) => outcome := Fail(error);
      case Yearly(fee) => outcome := quote.AddFeeAndUpdatePrice(fee, true);
    }

    /** Which yearly fee applies. */
    method Select(t: TransactionType, currency: string) returns (s: Selection)
      requires Upper(currency) == currency
      ensures s == Selected(t, currency)
    {
      if GrandFathered(gfAmount, gfCurrency) && t == Renewal {
        return Yearly(Fee("grandfathered renewal fee", gfCurrency, gfAmount, Some(true)));
      }
      if |premiumEntries| > 0 {
        s := FindPremium(t, currency);
        if s == Nothing {
          s := FindPremium(t, phase.baseCurrency);
        }
        if s == Nothing {
          s := Refused(NoPremiumPrice);
        }
        return;
      }
      var price := GetPrice(phase.prices, currency);
      if price.None? {
        price := GetPrice(phase.prices, phase.baseCurrency);
        if price.None? {
          return Nothing;
        }
      }
      var amount := PriceAmount(price.value, t);
      if amount.None? {
        return Refused(InvalidTransactionType);
      }
      return Yearly(TransactionFee(t, amount.value, price.value.currency));
    }
  }

  /** A matching entry among the first n leaves some match in the whole list. */
  lemma {:induction false} AMatchRemains(entries: seq<PremiumLabel>, n: nat, domainLabel: string, currency: string)
    requires n <= |entries| && LastPremium(entries[..n], domainLabel, currency).Some?
    ensures LastPremium(entries, domainLabel, currency).Some?
    decreases |entries|
  {
    if n == |entries| {
      assert entries[..n] == entries;
    } else {
      assert entries[..|entries| - 1][..n] == entries[..n];
      AMatchRemains(entries[..|entries| - 1], n, domainLabel, currency);
    }
  }
}
