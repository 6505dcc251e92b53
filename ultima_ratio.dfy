/**
 * The exact rational value type `ultima_ratio::ratio<T, modifiers...>`.
 *
 * A value is a `(num, denom)` pair over an integral type `T`, tagged with the
 * modifier pack it was instantiated with. In C++ the modifiers are part of
 * the type; here they are a field, and an operator that the type system only
 * offers for some modifier packs `requires` those modifiers.
 */
module UltimaRatio {
  import opened Arith

  /** The leaf kinds of `ur_exception`. */
  datatype ErrorKind = DenomZero | Negative | Remainder

  /** A value, or the kind of exception thrown instead of producing it. */
  datatype Result<+T> = Ok(value: T) | Err(error: ErrorKind)

  /** Which of the four modifier tags appear in the instantiation. */
  datatype Modifiers = Modifiers(
    intComparable: bool,
    heteroComparable: bool,
    normalized: bool,
    implicitConvertible: bool)

  /** `ratio<T>` with no modifiers. */
  const Plain := Modifiers(false, false, false, false)

  /** `ratio<T, make_normalized>`. */
  const Normalized := Modifiers(false, false, true, false)

  /** `num` and `denom` are the accessors `num()` and `denom()`. */
  datatype Ratio = Ratio(mods: Modifiers, num: int, denom: int)
  {
    /**
     * What every way of obtaining a ratio establishes: the pair is
     * non-negative with a positive denominator, and in lowest terms when the
     * type is normalised.
     */
    predicate Valid()
    {
      num >= 0 && denom > 0 && (mods.normalized ==> Gcd(num, denom) == 1)
    }

    /** `n/d` denotes the same number as this ratio. */
    predicate SameValue(n: int, d: int)
    {
      num * d == n * denom
    }
  }

  // ---------------------------------------------------------------------
  // Construction

  /** The defaulted constructor: both members keep their initialiser 1. */
  function Default(mods: Modifiers): (r: Ratio)
    ensures r.Valid() && r.mods == mods
    ensures r.num == 1 && r.denom == 1
  {
    Ratio(mods, 1, 1)
  }

  /**
   * The private tag constructors the public one delegates to: the normalising
   * one divides both arguments by `std::gcd(num, denom)` (which works on
   * magnitudes) with C++ truncating division, the other stores them as given.
   * `std::gcd(0, 0)` is 0, so normalising `(0, 0)` divides by zero.
   */
  function TagConstruct(mods: Modifiers, n: int, d: int): (r: Ratio)
    requires !(mods.normalized && n == 0 && d == 0)
    ensures r.mods == mods
    ensures !mods.normalized ==> r.num == n && r.denom == d
    ensures mods.normalized && n >= 0 && d > 0 ==>
      && Gcd(n, d) > 0
      && r.num * Gcd(n, d) == n && r.denom * Gcd(n, d) == d
      && Gcd(r.num, r.denom) == 1
      && r.SameValue(n, d)
  {
    if mods.normalized then
      GcdDivides(Abs(n), Abs(d));
      var g := Gcd(Abs(n), Abs(d));
      var r := Ratio(mods, TruncDiv(n, g), TruncDiv(d, g));
      if n >= 0 && d > 0 then
        ReducedIsCoprime(n, d);
        ReduceExact(n, d, g);
        r
      else
        r
    else
      Ratio(mods, n, d)
  }

  /**
   * The public two-argument constructor. The delegated tag constructor runs
   * first; only then are the ARGUMENTS checked, a zero denominator before a
   * negative component.
   */
  function Make(mods: Modifiers, n: int, d: int): (r: Result<Ratio>)
    requires !(mods.normalized && n == 0 && d == 0)
    ensures d == 0 ==> r == Err(DenomZero)
    ensures d != 0 && (n < 0 || d < 0) ==> r == Err(Negative)
    ensures r.Ok? <==> n >= 0 && d > 0
    ensures r.Ok? ==> r.value.Valid() && r.value.mods == mods && r.value.SameValue(n, d)
    ensures r.Ok? && !mods.normalized ==> r.value.num == n && r.value.denom == d
    ensures r.Ok? && mods.normalized && n >= 0 ==>
      r.value.num * Gcd(n, d) == n && r.value.denom * Gcd(n, d) == d
  {
    var stored := TagConstruct(mods, n, d);
    if d == 0 then Err(DenomZero)
    else if n < 0 || d < 0 then Err(Negative)
    else Ok(stored)
  }

  /** The default value is the one the constructor builds from `(1, 1)`. */
  lemma DefaultIsOneOverOne(mods: Modifiers)
    ensures Make(mods, 1, 1) == Ok(Default(mods))
  {
    assert Gcd(1, 1) == 1;
  }

  /**
   * Normalised construction is canonical: pairs that denote the same number
   * are stored identically.
   */
  lemma NormalizedIsCanonical(mods: Modifiers, n1: int, d1: int, n2: int, d2: int)
    requires mods.normalized
    requires n1 >= 0 && d1 > 0 && n2 >= 0 && d2 > 0
    requires n1 * d2 == n2 * d1
    ensures Make(mods, n1, d1) == Make(mods, n2, d2)
  {
    var r1, r2 := Make(mods, n1, d1).value, Make(mods, n2, d2).value;
    var g1, g2 := Gcd(n1, d1), Gcd(n2, d2);
    ScaledDownCrossEqual(r1.num, r1.denom, g1, r2.num, r2.denom, g2);
    CoprimeUnique(r1.num, r1.denom, r2.num, r2.denom);
  }

  /** Construction on the values the test program pins down. */
  lemma ConstructionExamples()
    ensures Make(Plain, 8, 2) == Ok(Ratio(Plain, 8, 2))
    ensures Make(Normalized, 8, 2) == Ok(Ratio(Normalized, 4, 1))
    ensures Make(Normalized, 0, 5) == Ok(Ratio(Normalized, 0, 1))
    ensures Make(Plain, -1, 0) == Err(DenomZero)
    ensures Make(Plain, -1, 2) == Err(Negative)
    ensures Make(Normalized, 1, -2) == Err(Negative)
  {
    assert Gcd(8, 2) == 2;
    assert Gcd(0, 5) == 5;
  }

  // ---------------------------------------------------------------------
  // Multiplication

  /** `ratio * integer`: exact or `Remainder`. */
  function MulInt(r: Ratio, k: int): (res: Result<int>)
    requires r.Valid()
    ensures res.Ok? ==> ExactQuotient(res.value, k * r.num, r.denom)
    ensures res.Err? ==> res.error == Remainder
    ensures res.Err? ==> forall q :: !ExactQuotient(q, k * r.num, r.denom)
  {
    if (k * r.num) % r.denom != 0 then
      NoExactQuotient(k * r.num, r.denom);
      Err(Remainder)
    else
      Ok(k * r.num / r.denom)
  }

  /** `integer * ratio`, which forwards to `ratio * integer`. */
  function IntMul(k: int, r: Ratio): (res: Result<int>)
    requires r.Valid()
    ensures res.Ok? ==> ExactQuotient(res.value, k * r.num, r.denom)
    ensures res.Err? ==> res.error == Remainder
    ensures res.Err? ==> forall q :: !ExactQuotient(q, k * r.num, r.denom)
  {
    MulInt(r, k)
  }

  /** Both operand orders give the same integer or the same exception. */
  lemma MulIntOrdersAgree(r: Ratio, k: int)
    requires r.Valid()
    ensures IntMul(k, r) == MulInt(r, k)
  {
  }

  /**
   * `ratio * ratio`, for the modifier-free instantiation only: the result is
   * built by `ratio(...)`, whose deduced type carries no modifiers and is not
   * convertible to a modified return type. The product pair goes through the
   * public constructor unreduced, and valid operands never make it throw.
   */
  function MulRatio(a: Ratio, b: Ratio): (res: Result<Ratio>)
    requires a.Valid() && b.Valid() && a.mods == Plain && b.mods == Plain
    ensures res.Ok? && res.value.Valid() && res.value.mods == Plain
    ensures res.value.num == a.num * b.num && res.value.denom == a.denom * b.denom
  {
    Make(Plain, a.num * b.num, a.denom * b.denom)
  }

  /**
   * Scaling an integer by `b` and then by `a` is scaling it by `a * b`: when
   * both steps are exact, so is the product's, with the same result.
   */
  lemma MulRatioThenInt(a: Ratio, b: Ratio, k: int)
    requires a.Valid() && b.Valid() && a.mods == Plain && b.mods == Plain
    requires MulInt(b, k).Ok? && MulInt(a, MulInt(b, k).value).Ok?
    ensures MulInt(MulRatio(a, b).value, k) == MulInt(a, MulInt(b, k).value)
  {
    var m := MulInt(b, k).value;
    var p := MulInt(a, m).value;
    var ab := MulRatio(a, b).value;
    assert m * b.denom == k * b.num;
    assert p * a.denom == m * a.num;
    assert p * ab.denom == (p * a.denom) * b.denom == (m * b.denom) * a.num;
    assert ExactQuotient(p, k * ab.num, ab.denom);
    ExactQuotientIsDiv(p, k * ab.num, ab.denom);
  }

  /** The exact products the test program checks, and the ones it expects to throw. */
  lemma MulExamples()
    ensures MulInt(Ratio(Plain, 2, 1), 5) == Ok(10)
    ensures IntMul(5, Ratio(Plain, 2, 1)) == Ok(10)
    ensures MulInt(Ratio(Plain, 1, 2), 10) == Ok(5)
    ensures MulInt(Ratio(Plain, 3, 2), 1) == Err(Remainder)
    ensures IntMul(1, Ratio(Plain, 3, 2)) == Err(Remainder)
    ensures MulRatio(Ratio(Plain, 2, 1), Ratio(Plain, 2, 1)) == Ok(Ratio(Plain, 4, 1))
    ensures MulRatio(Ratio(Plain, 6, 3), Ratio(Plain, 6, 2)) == Ok(Ratio(Plain, 36, 6))
  {
  }

  // ---------------------------------------------------------------------
  // Division

  /**
   * `integer / ratio`: `k * denom / num`, exact or `Remainder`. The check
   * takes `% num`, so a zero numerator is a division by zero.
   */
  function IntDiv(k: int, r: Ratio): (res: Result<int>)
    requires r.Valid() && r.num > 0
    ensures res.Ok? ==> ExactQuotient(res.value, k * r.denom, r.num)
    ensures res.Err? ==> res.error == Remainder
    ensures res.Err? ==> forall q :: !ExactQuotient(q, k * r.denom, r.num)
  {
    if (k * r.denom) % r.num != 0 then
      NoExactQuotient(k * r.denom, r.num);
      Err(Remainder)
    else
      Ok(k * r.denom / r.num)
  }

  /**
   * `ratio / integer` as written: it returns `k / r`, so it computes
   * `k * denom / num`, the integer divided by the ratio.
   */
  function DivInt(r: Ratio, k: int): (res: Result<int>)
    requires r.Valid() && r.num > 0
    ensures res.Ok? ==> ExactQuotient(res.value, k * r.denom, r.num)
    ensures res.Err? ==> res.error == Remainder
    ensures res.Err? ==> forall q :: !ExactQuotient(q, k * r.denom, r.num)
  {
    IntDiv(k, r)
  }

  /**
   * `ratio / integer` as evidently intended: `num / (denom * k)`, exact or
   * `Remainder`. A zero divisor is a division by zero.
   */
  function DivIntIntended(r: Ratio, k: int): (res: Result<int>)
    requires r.Valid() && k != 0
    ensures res.Ok? ==> ExactQuotient(res.value, r.num, r.denom * k)
    ensures res.Err? ==> res.error == Remainder
    ensures res.Err? ==> forall q :: !ExactQuotient(q, r.num, r.denom * k)
  {
    if r.num % (r.denom * k) != 0 then
      NoExactQuotient(r.num, r.denom * k);
      Err(Remainder)
    else
      Ok(r.num / (r.denom * k))
  }

  /**
   * The intended quotient undoes integer multiplication: when `r * k` is an
   * exact integer `m`, then `r` divided by `k` and then multiplied by `k*k`
   * is `m` again whenever the division is exact.
   */
  lemma DivIntIntendedUndoesMul(r: Ratio, k: int)
    requires r.Valid() && k != 0
    requires DivIntIntended(r, k).Ok?
    ensures MulInt(r, k).Ok?
    ensures MulInt(r, k).value == DivIntIntended(r, k).value * k * k
  {
    var q := DivIntIntended(r, k).value;
    assert q * (r.denom * k) == r.num;
    assert (q * k * k) * r.denom == k * r.num;
    ExactQuotientIsDiv(q * k * k, k * r.num, r.denom);
  }

  /**
   * The operand swap in `ratio / integer` is visible: (1/1) / 2 yields 2
   * instead of throwing, and (4/1) / 2 throws instead of yielding 2. The
   * test program's cases happen to agree.
   */
  lemma DivIntSwapsOperands()
    ensures DivInt(Ratio(Plain, 1, 1), 2) == Ok(2)
    ensures DivIntIntended(Ratio(Plain, 1, 1), 2) == Err(Remainder)
    ensures DivInt(Ratio(Plain, 4, 1), 2) == Err(Remainder)
    ensures DivIntIntended(Ratio(Plain, 4, 1), 2) == Ok(2)
    ensures DivInt(Ratio(Plain, 2, 1), 2) == DivIntIntended(Ratio(Plain, 2, 1), 2) == Ok(1)
    ensures DivInt(Ratio(Plain, 4, 2), 3) == DivIntIntended(Ratio(Plain, 4, 2), 3) == Err(Remainder)
  {
  }

  /** The integer divisions the test program checks. */
  lemma DivExamples()
    ensures IntDiv(4, Ratio(Plain, 2, 1)) == Ok(2)
    ensures DivInt(Ratio(Plain, 2, 1), 2) == Ok(1)
    ensures IntDiv(4, Ratio(Plain, 3, 2)) == Err(Remainder)
    ensures DivInt(Ratio(Plain, 4, 2), 3) == Err(Remainder)
  {
  }

  // ---------------------------------------------------------------------
  // Comparison between ratios of the same type

  /** `==`: the stored pairs are compared, not the numbers they denote. */
  function Eq(a: Ratio, b: Ratio): (e: bool)
    requires a.mods == b.mods
    ensures e <==> a == b
  {
    a.num == b.num && a.denom == b.denom
  }

  /**
   * `<`: both numerators are brought to `std::lcm` of the denominators and
   * compared; this is the order of the numbers the pairs denote.
   */
  function Less(a: Ratio, b: Ratio): (lt: bool)
    requires a.Valid() && b.Valid() && a.mods == b.mods
    ensures lt <==> a.num * b.denom < b.num * a.denom
  {
    var lcm := Lcm(a.denom, b.denom);
    var leftNormalized := a.num * lcm / a.denom;
    var rightNormalized := b.num * lcm / b.denom;
    ScaledCompare(a.num, a.denom, b.num, b.denom, lcm);
    leftNormalized < rightNormalized
  }

  /** `>`: `<` with the operands swapped. */
  function Greater(a: Ratio, b: Ratio): (gt: bool)
    requires a.Valid() && b.Valid() && a.mods == b.mods
    ensures gt <==> b.num * a.denom < a.num * b.denom
  {
    Less(b, a)
  }

  /** `<=`: strictly smaller, or the same stored pair. */
  function LessEq(a: Ratio, b: Ratio): (le: bool)
    requires a.Valid() && b.Valid() && a.mods == b.mods
    ensures le <==> a.num * b.denom < b.num * a.denom || a == b
  {
    Less(a, b) || Eq(a, b)
  }

  /** `>=`: strictly greater, or the same stored pair. */
  function GreaterEq(a: Ratio, b: Ratio): (ge: bool)
    requires a.Valid() && b.Valid() && a.mods == b.mods
    ensures ge <==> b.num * a.denom < a.num * b.denom || a == b
  {
    Greater(a, b) || Eq(a, b)
  }

  /** `<` is a strict order, total on the numbers the ratios denote. */
  lemma LessIsStrictOrder(a: Ratio, b: Ratio, c: Ratio)
    requires a.Valid() && b.Valid() && c.Valid()
    requires a.mods == b.mods == c.mods
    ensures !Less(a, a)
    ensures Less(a, b) ==> !Less(b, a)
    ensures Less(a, b) && Less(b, c) ==> Less(a, c)
    ensures !Less(a, b) && !Less(b, a) <==> a.SameValue(b.num, b.denom)
  {
    if Less(a, b) && Less(b, c) {
      CrossLessTransitive(a.num, a.denom, b.num, b.denom, c.num, c.denom);
    }
  }

  /**
   * Equal stored pairs denote equal numbers, but not conversely: `==` and the
   * equality half of `<=` and `>=` are structural, so 1/2 and 2/4 are
   * neither equal nor `<=` nor `>=` each other.
   */
  lemma EqIsStructural()
    ensures Ratio(Plain, 1, 2).SameValue(2, 4)
    ensures !Eq(Ratio(Plain, 1, 2), Ratio(Plain, 2, 4))
    ensures !LessEq(Ratio(Plain, 1, 2), Ratio(Plain, 2, 4))
    ensures !GreaterEq(Ratio(Plain, 1, 2), Ratio(Plain, 2, 4))
    ensures !Eq(Ratio(Plain, 2, 1), Ratio(Plain, 2, 2))
  {
  }

  /** Under normalisation, `==` is equality of the numbers denoted. */
  lemma NormalizedEqIsValueEq(a: Ratio, b: Ratio)
    requires a.Valid() && b.Valid() && a.mods == b.mods && a.mods.normalized
    ensures Eq(a, b) <==> a.SameValue(b.num, b.denom)
  {
    if a.SameValue(b.num, b.denom) {
      CoprimeUnique(a.num, a.denom, b.num, b.denom);
    }
  }

  /** Under normalisation, `<=` and `>=` are the order of the numbers denoted. */
  lemma NormalizedLessEqIsValueOrder(a: Ratio, b: Ratio)
    requires a.Valid() && b.Valid() && a.mods == b.mods && a.mods.normalized
    ensures LessEq(a, b) <==> a.num * b.denom <= b.num * a.denom
    ensures GreaterEq(a, b) <==> b.num * a.denom <= a.num * b.denom
  {
    NormalizedEqIsValueEq(a, b);
  }

  /** The comparisons the test program checks. */
  lemma ComparisonExamples()
    ensures Less(Ratio(Plain, 1, 4), Ratio(Plain, 1, 3))
    ensures Greater(Ratio(Plain, 1, 3), Ratio(Plain, 1, 4))
    ensures GreaterEq(Ratio(Plain, 1, 3), Ratio(Plain, 1, 4))
    ensures GreaterEq(Ratio(Plain, 1, 3), Ratio(Plain, 1, 3))
    ensures !Less(Ratio(Plain, 1, 4), Ratio(Plain, 1, 4))
    ensures !Greater(Ratio(Plain, 1, 4), Ratio(Plain, 1, 4))
  {
  }

  // ---------------------------------------------------------------------
  // Comparison between ratios of different types

  /**
   * `==` between two hetero-comparable ratios, as written: the second
   * conjunct compares the right-hand denominator with itself, so only the
   * numerators decide.
   */
  function HeteroEq(a: Ratio, b: Ratio): (e: bool)
    requires a.mods.heteroComparable && b.mods.heteroComparable
    ensures e <==> a.num == b.num
  {
    a.num == b.num && b.denom == b.denom
  }

  /** `==` between two hetero-comparable ratios as evidently intended: both components. */
  function HeteroEqIntended(a: Ratio, b: Ratio): (e: bool)
    requires a.mods.heteroComparable && b.mods.heteroComparable
    ensures e <==> HeteroEq(a, b) && a.denom == b.denom
    ensures e ==> a.SameValue(b.num, b.denom)
  {
    a.num == b.num && a.denom == b.denom
  }

  /** With both sides normalised, the intended comparison is equality of the numbers denoted. */
  lemma HeteroEqIntendedIsValueEq(a: Ratio, b: Ratio)
    requires a.Valid() && b.Valid()
    requires a.mods.heteroComparable && b.mods.heteroComparable
    requires a.mods.normalized && b.mods.normalized
    ensures HeteroEqIntended(a, b) <==> a.SameValue(b.num, b.denom)
  {
    if a.SameValue(b.num, b.denom) {
      CoprimeUnique(a.num, a.denom, b.num, b.denom);
    }
  }

  /** As written, 1/2 equals 1/3; the test program only compares 1/1 with 1/1. */
  lemma HeteroEqIgnoresDenominators()
    ensures var h := Modifiers(false, true, false, false);
      && HeteroEq(Ratio(h, 1, 2), Ratio(h, 1, 3))
      && !HeteroEqIntended(Ratio(h, 1, 2), Ratio(h, 1, 3))
      && HeteroEq(Ratio(h, 1, 1), Ratio(h, 1, 1))
      && HeteroEqIntended(Ratio(h, 1, 1), Ratio(h, 1, 1))
  {
  }

  // ---------------------------------------------------------------------
  // Comparison with an integer

  /**
   * `ratio == integer` for an int-comparable ratio: the ratio must be stored
   * with denominator 1 and numerator `k`.
   */
  function IntEq(r: Ratio, k: int): (e: bool)
    requires r.mods.intComparable
    ensures e ==> r.SameValue(k, 1)
    ensures r.denom == 1 ==> (e <==> r.num == k)
    ensures r.denom != 1 ==> !e
  {
    r.denom == 1 && r.num == k
  }

  /** Under normalisation, the integer comparison is equality of the numbers denoted. */
  lemma NormalizedIntEqIsValueEq(r: Ratio, k: int)
    requires r.Valid() && r.mods.intComparable && r.mods.normalized
    ensures IntEq(r, k) <==> r.SameValue(k, 1)
  {
    if r.SameValue(k, 1) {
      assert Gcd(k, 1) == 1;
      CoprimeUnique(r.num, r.denom, k, 1);
    }
  }

  /** 2/1 equals 2, but the unreduced 4/2 does not. */
  lemma IntEqExamples()
    ensures var i := Modifiers(true, false, false, false);
      && IntEq(Ratio(i, 2, 1), 2)
      && Ratio(i, 4, 2).SameValue(2, 1)
      && !IntEq(Ratio(i, 4, 2), 2)
  {
  }
}
