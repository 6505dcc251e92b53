/**
 * `frac::fraction<T>`, an earlier draft of the rational type. It has no
 * modifiers and does no validation: the constructor's zero and negative
 * denominator branches are empty, and integer multiplication truncates where
 * the final version throws `Remainder`.
 */
module Frac {
  import opened Arith
  import UltimaRatio

  /** `num` and `denom` are the accessors `num()` and `denom()`. */
  datatype Fraction = Fraction(num: int, denom: int)

  /** The defaulted constructor: both members keep their initialiser 1. */
  function Default(): (f: Fraction)
    ensures f.num == 1 && f.denom == 1
  {
    Fraction(1, 1)
  }

  /** The two-argument constructor stores the pair whatever it is. */
  function Make(n: int, d: int): (f: Fraction)
    ensures f.num == n && f.denom == d
  {
    Fraction(n, d)
  }

  /**
   * The draft accepts every pair; where the final, validating constructor
   * accepts one too, both store it unchanged.
   */
  lemma MakeSkipsValidation(n: int, d: int)
    ensures UltimaRatio.Make(UltimaRatio.Plain, n, d).Ok? ==>
      UltimaRatio.Make(UltimaRatio.Plain, n, d).value == UltimaRatio.Ratio(UltimaRatio.Plain, Make(n, d).num, Make(n, d).denom)
    ensures UltimaRatio.Make(UltimaRatio.Plain, n, d).Err? <==> d <= 0 || n < 0
  {
  }

  /**
   * `fraction * integer`: `k * num / denom` with C++ truncation. The
   * remainder check has an empty body, so nothing is ever reported; a zero
   * denominator is a division by zero.
   */
  function MulInt(f: Fraction, k: int): (r: int)
    requires f.denom != 0
    ensures TruncatedQuotient(r, k * f.num, f.denom)
  {
    TruncDiv(k * f.num, f.denom)
  }

  /** `integer * fraction`, which forwards to `fraction * integer`. */
  function IntMul(k: int, f: Fraction): (r: int)
    requires f.denom != 0
    ensures TruncatedQuotient(r, k * f.num, f.denom)
  {
    MulInt(f, k)
  }

  /** Both operand orders give the same integer. */
  lemma MulIntOrdersAgree(f: Fraction, k: int)
    requires f.denom != 0
    ensures IntMul(k, f) == MulInt(f, k)
  {
  }

  /**
   * On a pair the final version accepts, the draft's product is the final
   * version's exact product whenever that exists; otherwise the draft still
   * answers, with the truncated quotient.
   */
  lemma MulIntAgreesWhenExact(f: Fraction, k: int)
    requires f.num >= 0 && f.denom > 0
    ensures var r := UltimaRatio.Ratio(UltimaRatio.Plain, f.num, f.denom);
      UltimaRatio.MulInt(r, k).Ok? ==> MulInt(f, k) == UltimaRatio.MulInt(r, k).value
  {
    var r := UltimaRatio.Ratio(UltimaRatio.Plain, f.num, f.denom);
    if UltimaRatio.MulInt(r, k).Ok? {
      TruncDivOfExact(UltimaRatio.MulInt(r, k).value, k * f.num, f.denom);
    }
  }

  /**
   * 3/2 * 1 is 1 here where the final version throws; negative values
   * truncate toward zero (-3/2 * 1 is -1, not -2); a zero-denominator
   * fraction is built without complaint.
   */
  lemma MulIntTruncates()
    ensures MulInt(Fraction(3, 2), 1) == 1
    ensures UltimaRatio.MulInt(UltimaRatio.Ratio(UltimaRatio.Plain, 3, 2), 1).Err?
    ensures MulInt(Fraction(-3, 2), 1) == -1
    ensures IntMul(1, Fraction(3, -2)) == -1
    ensures MulInt(Fraction(2, 1), 5) == 10 && MulInt(Fraction(1, 2), 10) == 5
    ensures Make(1, 0) == Fraction(1, 0)
  {
  }

  /** `fraction * fraction`: the componentwise product, through the unvalidating constructor. */
  function MulFraction(a: Fraction, b: Fraction): (r: Fraction)
    ensures r.num == a.num * b.num && r.denom == a.denom * b.denom
  {
    Make(a.num * b.num, a.denom * b.denom)
  }

  /**
   * On pairs the final version accepts, the draft's product is the final
   * version's; on others it silently produces, e.g., a zero denominator.
   */
  lemma MulFractionAgrees(a: Fraction, b: Fraction)
    requires a.num >= 0 && a.denom > 0 && b.num >= 0 && b.denom > 0
    ensures
      var p := UltimaRatio.MulRatio(UltimaRatio.Ratio(UltimaRatio.Plain, a.num, a.denom),
                                    UltimaRatio.Ratio(UltimaRatio.Plain, b.num, b.denom));
      p == UltimaRatio.Ok(UltimaRatio.Ratio(UltimaRatio.Plain, MulFraction(a, b).num, MulFraction(a, b).denom))
    ensures MulFraction(Fraction(1, 0), Fraction(1, 1)).denom == 0
  {
  }
}
