/**
 * The list-price formulas shared by the pricing tests: a price in USD is the
 * base price times the region's USD factor, and a price in local currency is
 * the base price times the region's local factor times its exchange rate.
 */
module ListPricing {
  import opened JsNumber

  /** Base price × USD factor. */
  function UsdPrice(base: Number, factorUsd: Number): (r: Number)
    ensures r.Num? <==> base.Num? && factorUsd.Num?
    ensures r.Num? ==> r.v == base.v * factorUsd.v
  {
    Mul(base, factorUsd)
  }

  /** Base price × local factor × exchange rate, multiplied left to right. */
  function LocalPrice(base: Number, factorLocal: Number, rate: Number): (r: Number)
    ensures r.Num? <==> base.Num? && factorLocal.Num? && rate.Num?
    ensures r.Num? ==> r.v == base.v * factorLocal.v * rate.v
  {
    Mul(Mul(base, factorLocal), rate)
  }

  /** With equal factors, the local price is the USD price converted at the exchange rate. */
  lemma LocalIsConvertedUsd(base: Number, factor: Number, rate: Number)
    ensures LocalPrice(base, factor, rate) == Mul(UsdPrice(base, factor), rate)
  {
  }

  /** A rate of 1 leaves the local price equal to the base price times the local factor. */
  lemma UnitRate(base: Number, factorLocal: Number)
    ensures LocalPrice(base, factorLocal, Num(1.0)) == Mul(base, factorLocal)
  {
  }

  /** `!price`-style seeding: a falsy base price (0 or NaN) is replaced by 100; any other is kept. */
  function SeedBase(base: Number): (r: Number)
    ensures r.Truthy()
    ensures base.Truthy() ==> r == base
    ensures !base.Truthy() ==> r == Num(100.0)
  {
    if base.Truthy() then base else Num(100.0)
  }

  /** Seeding twice is seeding once. */
  lemma SeedBaseIdempotent(base: Number)
    ensures SeedBase(SeedBase(base)) == SeedBase(base)
  {
  }
}
