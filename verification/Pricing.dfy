/** Authoritative pricing, computed in binary64 as the program computes it, and proved exact. */
module Pricing {
  import opened Prelude
  import opened Binary64

  datatype PricingConfig = PricingConfig(
    version: int, serviceCode: string, countryCode: string, operatorCode: string, currency: string,
    minBasePriceIdr: int, maxBasePriceIdr: int, fixedFeeIdr: int, markupBps: int, roundToIdr: int)

  datatype Price = Price(retailPriceIdr: nat, payoutIdr: nat, platformMarginIdr: nat)

  datatype PricingError = InvalidConfig | PriceOutOfGuardrail

  datatype Pricing = Ok(price: Price) | Err(error: PricingError)

  predicate SafeAtLeast(value: int, minimum: int) { minimum <= value <= MAX_SAFE_INTEGER }

  predicate ValidConfig(c: PricingConfig) {
    && SafeAtLeast(c.version, 1)
    && SafeAtLeast(c.minBasePriceIdr, 0) && SafeAtLeast(c.maxBasePriceIdr, 0)
    && SafeAtLeast(c.fixedFeeIdr, 0) && SafeAtLeast(c.markupBps, 0) && SafeAtLeast(c.roundToIdr, 1)
    && c.minBasePriceIdr <= c.maxBasePriceIdr
    && |c.serviceCode| > 0 && |c.countryCode| == 2 && |c.operatorCode| > 0 && |c.currency| == 3
  }

  // ---------------------------------------------------------------------------
  // Double operations on safe integers
  // ---------------------------------------------------------------------------

  lemma ProductInRange(a: nat, b: nat)
    requires a <= MAX_SAFE_INTEGER && b <= MAX_SAFE_INTEGER
    ensures InRange((a * b) as real)
  {
    ProductAtMost(a, b);
    assert (MAX_SAFE_INTEGER * MAX_SAFE_INTEGER) as real <= TWO_106;
  }

  lemma ProductAtMost(a: nat, b: nat)
    requires a <= MAX_SAFE_INTEGER && b <= MAX_SAFE_INTEGER
    ensures 0 <= a * b <= MAX_SAFE_INTEGER * MAX_SAFE_INTEGER
  {
    MulMonotoneInt(a, MAX_SAFE_INTEGER, b);
    MulMonotoneInt(b, MAX_SAFE_INTEGER, MAX_SAFE_INTEGER);
  }

  lemma MulMonotoneInt(a: nat, b: nat, c: nat)
    requires a <= b
    ensures a * c <= b * c
  {
  }

  function Multiply(a: nat, b: nat): (r: real)
    requires a <= MAX_SAFE_INTEGER && b <= MAX_SAFE_INTEGER
    ensures IsSafeInteger(r) <==> a * b <= MAX_SAFE_INTEGER
    ensures a * b <= MAX_SAFE_INTEGER ==> r == (a * b) as real
  {
    ProductInRange(a, b);
    SafetyCheckIsExact(a * b);
    Rnd((a * b) as real)
  }

  function Add(a: nat, b: nat): (r: real)
    requires a <= MAX_SAFE_INTEGER && b <= MAX_SAFE_INTEGER
    ensures 0.0 <= r <= (2 * TWO_53) as real
    ensures a + b <= MAX_SAFE_INTEGER ==> r == (a + b) as real
    ensures a + b > MAX_SAFE_INTEGER ==> r >= TWO_53 as real
  {
    SafetyCheckIsExact(a + b);
    if a + b > MAX_SAFE_INTEGER then LargeStaysLarge((a + b) as real); AtMostTwo54((a + b) as real); Rnd((a + b) as real)
    else Rnd((a + b) as real)
  }

  lemma AtMostTwo54(x: real)
    requires InRange(x) && x <= (2 * TWO_53) as real
    ensures Rnd(x) <= (2 * TWO_53) as real
  {
    assert Pow2(2) == 4.0;
    assert Times((TWO_53 / 2) as real, Pow2(2)) == (2 * TWO_53) as real;
    RndIsNearest(x, TWO_53 / 2, 2);
  }

  /** `a + b + c`, rounded after each addition. */
  function AddThree(a: nat, b: nat, c: nat): (r: real)
    requires a <= MAX_SAFE_INTEGER && b <= MAX_SAFE_INTEGER && c <= MAX_SAFE_INTEGER
    ensures IsSafeInteger(r) <==> a + b + c <= MAX_SAFE_INTEGER
    ensures a + b + c <= MAX_SAFE_INTEGER ==> r == (a + b + c) as real
  {
    var partial := Add(a, b) + c as real;
    if a + b > MAX_SAFE_INTEGER then LargeStaysLarge(partial); Rnd(partial)
    else SafetyCheckIsExact(a + b + c); Rnd(partial)
  }

  function CeilOfQuotient(a: nat, b: nat): (k: nat)
    requires a <= MAX_SAFE_INTEGER && 1 <= b <= MAX_SAFE_INTEGER
    ensures k == CeilDiv(a, b) && k <= a
  {
    CeilOfRoundedQuotient(a, b);
    CeilDivAtMost(a, b);
    Ceil(Rnd(a as real / b as real))
  }

  function CeilTo(value: nat, unit: nat): (r: Option<nat>)
    requires value <= MAX_SAFE_INTEGER && 1 <= unit <= MAX_SAFE_INTEGER
    ensures r.Some? <==> CeilDiv(value, unit) * unit <= MAX_SAFE_INTEGER
    ensures r.Some? ==> r.value == CeilDiv(value, unit) * unit
  {
    var result := Multiply(CeilOfQuotient(value, unit), unit);
    if IsSafeInteger(result) then Some(result.Floor) else None
  }

  // ---------------------------------------------------------------------------
  // The pricing function
  // ---------------------------------------------------------------------------

  function Calculate(basePriceIdr: real, c: PricingConfig): Pricing {
    if !ValidConfig(c) then Err(InvalidConfig)
    else if !IsSafeInteger(basePriceIdr) || basePriceIdr < c.minBasePriceIdr as real || basePriceIdr > c.maxBasePriceIdr as real
    then Err(PriceOutOfGuardrail)
    else
      var base: nat := basePriceIdr.Floor;
      var markupNumerator := Multiply(base, c.markupBps);
      if !IsSafeInteger(markupNumerator) then Err(InvalidConfig)
      else
        var markup := CeilOfQuotient(markupNumerator.Floor, 10_000);
        var subtotal := AddThree(base, c.fixedFeeIdr, markup);
        if !IsSafeInteger(subtotal) then Err(InvalidConfig)
        else
          match CeilTo(subtotal.Floor, c.roundToIdr)
          case None => Err(InvalidConfig)
          case Some(retail) =>
            CeilDivAtMost(subtotal.Floor, c.roundToIdr);
            Ok(Price(retail, base, retail - base))
  }

  // ---------------------------------------------------------------------------
  // The exact meaning
  // ---------------------------------------------------------------------------

  function Markup(base: nat, c: PricingConfig): nat
    requires ValidConfig(c)
  {
    CeilDiv(base * c.markupBps, 10_000)
  }

  function Subtotal(base: nat, c: PricingConfig): nat
    requires ValidConfig(c)
  {
    base + c.fixedFeeIdr + Markup(base, c)
  }

  function Retail(base: nat, c: PricingConfig): nat
    requires ValidConfig(c)
  {
    CeilDiv(Subtotal(base, c), c.roundToIdr) * c.roundToIdr
  }

  /** Despite binary64 every accepted price is the exact integer formula, and a price is refused
      exactly when the configuration or the base price is, or when an exact intermediate value is
      not a safe integer. */
  lemma PricingIsExact(base: nat, c: PricingConfig)
    requires ValidConfig(c)
    ensures Calculate(base as real, c) ==
              if base < c.minBasePriceIdr || base > c.maxBasePriceIdr then Err(PriceOutOfGuardrail)
              else if base * c.markupBps > MAX_SAFE_INTEGER || Subtotal(base, c) > MAX_SAFE_INTEGER || Retail(base, c) > MAX_SAFE_INTEGER
              then Err(InvalidConfig)
              else Ok(Price(Retail(base, c), base, Retail(base, c) - base))
  {
    if c.minBasePriceIdr <= base <= c.maxBasePriceIdr {
      var product := Multiply(base, c.markupBps);
      if base * c.markupBps <= MAX_SAFE_INTEGER {
        assert product.Floor == base * c.markupBps;
        var sum := AddThree(base, c.fixedFeeIdr, Markup(base, c));
        if Subtotal(base, c) <= MAX_SAFE_INTEGER { assert sum.Floor == Subtotal(base, c); }
      }
    }
  }

  /** The same with the arithmetic written out: an accepted price is the least multiple of the rounding
      unit that covers base price, fixed fee and a markup in hundredths of a percent, rounded up; the
      partner gets the base price and the platform the rest. */
  lemma AcceptedPriceIs(base: nat, c: PricingConfig)
    requires ValidConfig(c) && Calculate(base as real, c).Ok?
    ensures var p := Calculate(base as real, c).price;
            var exact := base + c.fixedFeeIdr + (base * c.markupBps + 9_999) / 10_000;
            && exact <= p.retailPriceIdr < exact + c.roundToIdr
            && p.retailPriceIdr % c.roundToIdr == 0
            && p.payoutIdr == base && p.platformMarginIdr == p.retailPriceIdr - base
            && c.minBasePriceIdr <= base <= c.maxBasePriceIdr
  {
    PricingIsExact(base, c);
    AcceptedPriceIsSound(base, c);
    ExactAmounts(base, c);
  }

  /** What can be wrong with a configuration. */
  predicate Defective(c: PricingConfig) {
    || c.version < 1 || c.fixedFeeIdr < 0 || c.markupBps < 0 || c.roundToIdr < 1
    || c.minBasePriceIdr < 0 || c.maxBasePriceIdr < c.minBasePriceIdr
    || c.version > 0x1F_FFFF_FFFF_FFFF || c.fixedFeeIdr > 0x1F_FFFF_FFFF_FFFF || c.markupBps > 0x1F_FFFF_FFFF_FFFF
    || c.roundToIdr > 0x1F_FFFF_FFFF_FFFF || c.maxBasePriceIdr > 0x1F_FFFF_FFFF_FFFF
    || c.serviceCode == "" || c.operatorCode == "" || |c.countryCode| != 2 || |c.currency| != 3
  }

  /** Under a defective configuration nothing is priced. Under any other a base price is out of bounds
      exactly when it is no whole number within them, and only amounts beyond the safe integers refuse
      one within them. */
  lemma OutOfGuardrailExactlyWhen(basePriceIdr: real, c: PricingConfig)
    ensures Defective(c) ==> Calculate(basePriceIdr, c) == Err(InvalidConfig)
    ensures var base := basePriceIdr.Floor;
            !Defective(c) ==>
              (Calculate(basePriceIdr, c) == Err(PriceOutOfGuardrail)
               <==> !(base as real == basePriceIdr && c.minBasePriceIdr <= base <= c.maxBasePriceIdr))
  {
  }

  lemma ExactAmounts(base: nat, c: PricingConfig)
    requires ValidConfig(c)
    ensures Markup(base, c) == (base * c.markupBps + 9_999) / 10_000
    ensures Subtotal(base, c) == base + c.fixedFeeIdr + (base * c.markupBps + 9_999) / 10_000
  {
    assert CeilDiv(base * c.markupBps, 10_000) == (base * c.markupBps + 9_999) / 10_000;
  }

  /** An accepted price is a multiple of the rounding unit, at least the subtotal and less than a
      unit above it; the partner gets the base price and the margin covers fee and markup. */
  lemma AcceptedPriceIsSound(base: nat, c: PricingConfig)
    requires ValidConfig(c) && Calculate(base as real, c).Ok?
    ensures var p := Calculate(base as real, c).price;
            && p.retailPriceIdr % c.roundToIdr == 0
            && Subtotal(base, c) <= p.retailPriceIdr < Subtotal(base, c) + c.roundToIdr
            && p.payoutIdr == base && p.payoutIdr + p.platformMarginIdr == p.retailPriceIdr
            && p.platformMarginIdr >= c.fixedFeeIdr + Markup(base, c)
            && 10_000 * Markup(base, c) >= base * c.markupBps > 10_000 * (Markup(base, c) - 1)
  {
    PricingIsExact(base, c);
    MultipleOf(CeilDiv(Subtotal(base, c), c.roundToIdr), c.roundToIdr);
  }

  lemma MultipleOf(k: nat, unit: nat)
    requires unit > 0
    ensures k * unit % unit == 0
  {
    RemainderIsUnique(k * unit, unit, k, (k * unit) / unit, (k * unit) % unit);
  }

  lemma RemainderIsUnique(x: nat, unit: nat, k: nat, d: nat, r: nat)
    requires unit > 0 && x == k * unit && x == unit * d + r && r < unit
    ensures r == 0
  {
    if d < k { MulMonotoneInt(d + 1, k, unit); }
    if k < d { MulMonotoneInt(k + 1, d, unit); }
  }

  lemma CeilDivMonotone(a: nat, b: nat, unit: nat)
    requires a <= b && unit > 0
    ensures CeilDiv(a, unit) <= CeilDiv(b, unit)
  {
    var j, k := CeilDiv(a, unit), CeilDiv(b, unit);
    if j > k { MulMonotoneInt(k, j - 1, unit); }
  }

  /** A higher base price never gets a lower retail price. */
  lemma PriceIsMonotone(low: nat, high: nat, c: PricingConfig)
    requires ValidConfig(c) && low <= high
    requires Calculate(low as real, c).Ok? && Calculate(high as real, c).Ok?
    ensures Calculate(low as real, c).price.retailPriceIdr <= Calculate(high as real, c).price.retailPriceIdr
  {
    PricingIsExact(low, c);
    PricingIsExact(high, c);
    MulMonotoneInt(low, high, c.markupBps);
    CeilDivMonotone(low * c.markupBps, high * c.markupBps, 10_000);
    CeilDivMonotone(Subtotal(low, c), Subtotal(high, c), c.roundToIdr);
    MulMonotoneInt(CeilDiv(Subtotal(low, c), c.roundToIdr), CeilDiv(Subtotal(high, c), c.roundToIdr), c.roundToIdr);
  }
}
