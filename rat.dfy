/**
 * `rat::ratio<T>`, the draft that sits beside `frac::fraction<T>` and behaves
 * the same way under another name: no validation, truncating integer
 * multiplication.
 */
module Rat {
  import opened Arith
  import Frac
  import UltimaRatio

  /** `num` and `denom` are the accessors `num()` and `denom()`. */
  datatype Ratio = Ratio(num: int, denom: int)

  /** The same pair as a `frac::fraction`. */
  function AsFraction(r: Ratio): (f: Frac.Fraction)
  {
    Frac.Fraction(r.num, r.denom)
  }

  /** The defaulted constructor: both members keep their initialiser 1. */
  function Default(): (r: Ratio)
    ensures r.num == 1 && r.denom == 1
  {
    Ratio(1, 1)
  }

  /** The two-argument constructor stores the pair whatever it is. */
  function Make(n: int, d: int): (r: Ratio)
    ensures r.num == n && r.denom == d
  {
    Ratio(n, d)
  }

  /**
   * `ratio * integer`: `k * num / denom` with C++ truncation, no remainder
   * reported; a zero denominator is a division by zero.
   */
  function MulInt(r: Ratio, k: int): (q: int)
    requires r.denom != 0
    ensures TruncatedQuotient(q, k * r.num, r.denom)
  {
    TruncDiv(k * r.num, r.denom)
  }

  /** `integer * ratio`, which forwards to `ratio * integer`. */
  function IntMul(k: int, r: Ratio): (q: int)
    requires r.denom != 0
    ensures TruncatedQuotient(q, k * r.num, r.denom)
  {
    MulInt(r, k)
  }

  /** Both operand orders give the same integer. */
  lemma MulIntOrdersAgree(r: Ratio, k: int)
    requires r.denom != 0
    ensures IntMul(k, r) == MulInt(r, k)
  {
  }

  /** `ratio * ratio`: the componentwise product, through the unvalidating constructor. */
  function MulRatio(a: Ratio, b: Ratio): (r: Ratio)
    ensures r.num == a.num * b.num && r.denom == a.denom * b.denom
  {
    Make(a.num * b.num, a.denom * b.denom)
  }

  /** The two drafts agree operation by operation. */
  lemma AgreesWithFraction(a: Ratio, b: Ratio, k: int)
    ensures AsFraction(Default()) == Frac.Default()
    ensures AsFraction(Make(a.num, a.denom)) == Frac.Make(a.num, a.denom)
    ensures a.denom != 0 ==> MulInt(a, k) == Frac.MulInt(AsFraction(a), k)
    ensures a.denom != 0 ==> IntMul(k, a) == Frac.IntMul(k, AsFraction(a))
    ensures AsFraction(MulRatio(a, b)) == Frac.MulFraction(AsFraction(a), AsFraction(b))
  {
  }

  /**
   * On a pair the final version accepts, this draft's product is the final
   * version's exact product whenever that exists.
   */
  lemma MulIntAgreesWhenExact(r: Ratio, k: int)
    requires r.num >= 0 && r.denom > 0
    ensures var u := UltimaRatio.Ratio(UltimaRatio.Plain, r.num, r.denom);
      UltimaRatio.MulInt(u, k).Ok? ==> MulInt(r, k) == UltimaRatio.MulInt(u, k).value
  {
    Frac.MulIntAgreesWhenExact(AsFraction(r), k);
  }
}
