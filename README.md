# ultima-ratio in Dafny

A model of `ultima_ratio::ratio<T, modifiers...>`, a header-only exact rational
type. A value is a `(num, denom)` pair with `num >= 0` and `denom > 0`. The type
can be instantiated with modifier tags (`make_normalized`,
`make_int_comparable`, `make_hetero_comparable`, `make_implicit_convertible`).
Construction validates its arguments and throws `ur_ex_denom_zero` or
`ur_ex_negative`. Integer-producing multiplication and division throw
`ur_ex_remainder` when the result is not exact. Comparisons are
free operators, and some of them are gated by modifiers. Two earlier drafts of
the same type, `frac::fraction` and `rat::ratio`, are modelled as well. They
do no validation, and their integer multiplication truncates.

Modules:

- `Arith` holds helpers: exact and C++-truncating quotients, `std::gcd` (as
  Euclid's algorithm, with Bezout coefficients), and `std::lcm`.
- `UltimaRatio` models `ultima_ratio.h`. Exceptions become
  `Result<T> = Ok(value) | Err(ErrorKind)`. The modifier pack is a record of
  four booleans stored in each `Ratio`. An operator that C++ only offers for
  some modifier packs `requires` those modifiers. The accessors `num()` and
  `denom()` are the datatype's fields. `Ratio.Valid()` is the invariant every
  way of obtaining a ratio establishes: `num >= 0`, `denom > 0`, and for a
  normalised type `gcd(num, denom) == 1`.
- `Frac` models `fraction.h`, and `Rat` models `ratio.h`. `Rat.AgreesWithFraction`
  proves the two drafts behave identically.

Integers are unbounded. C++ `/` truncates toward zero, and `Arith.TruncDiv`
models that wherever operands may be negative. In `ultima_ratio.h`, `/` is only
reached with a positive divisor and an exact quotient. `%` is only reached with
a positive divisor, and its result is only compared with 0. C++'s `%` and
Dafny's `%` can differ for a negative dividend (C++ gives `-3 % 2 == -1`,
Dafny gives 1), but they are zero on the same inputs, so Dafny's own operators
give the same answers there.

Where the code does something other than what its operator evidently means, the model
follows the code:

- The integer comparison (ultima_ratio.h:215) is `denom == 1 && num == k`,
  not `num == denom * k`. So an unreduced 4/2 is not equal to 2.
- `ratio * ratio` (ultima_ratio.h:147) does not re-apply normalisation. It builds a modifier-free
  `ratio<T>` through class template argument deduction, so for a modified type
  the return does not compile. It is modelled for `ratio<T>` only.
- `ratio / integer` (ultima_ratio.h:165) computes `integer / ratio`, and
  heterogeneous `==` (ultima_ratio.h:206) never compares the left denominator
  (see Findings).
- The constructor runs the normalising tag constructor before it validates.
  Normalising `(0, 0)` divides by `gcd(0, 0) == 0`, which is undefined
  behaviour, so `Make` excludes that input. The checks look at the arguments,
  not at the stored pair, and a zero denominator is reported before a negative
  component.

## Model

| member | source | states |
|---|---|---|
| `UltimaRatio.Default` | ultima_ratio.h:39-49 | the defaulted constructor yields the ratio 1/1 of its type, which is valid |
| `UltimaRatio.DefaultIsOneOverOne` | tests.cpp:25 | for every modifier pack, the default value is what the constructor builds from `(1, 1)` |
| `UltimaRatio.TagConstruct` | ultima_ratio.h:92-99 | the plain tag constructor stores the pair as given; for `n >= 0` and `d > 0`, the normalising one stores `(n/g, d/g)` with `g = gcd(n, d)`, which is coprime, satisfies `stored * g == input` and denotes the same number |
| `UltimaRatio.Make` | ultima_ratio.h:51-62 | `denom == 0` gives DenomZero, checked first, so (-1, 0) is DenomZero; otherwise a negative component gives Negative; success iff `n >= 0 && d > 0`, and the result is then valid and denotes `n/d`; without `make_normalized` it stores `(n, d)` unchanged, with it `(n/gcd, d/gcd)` |
| `UltimaRatio.NormalizedIsCanonical` | ultima_ratio.h:92-95 | under `make_normalized`, two pairs that denote the same number construct identical ratios |
| `UltimaRatio.ConstructionExamples` | tests.cpp:34-39 | 8/2 stays 8/2 unnormalised and becomes 4/1 normalised; 0/5 normalises to 0/1; (-1, 0) is DenomZero; (-1, 2) and (1, -2) are Negative |
| `UltimaRatio.MulInt` | ultima_ratio.h:114-122 | `r * k` succeeds iff some integer `q` has `q * denom == k * num`, and then returns that `q`; otherwise it raises Remainder |
| `UltimaRatio.IntMul` | ultima_ratio.h:123-127 | `k * r` succeeds exactly when the product `k*num/denom` is an exact integer and returns it; otherwise Remainder |
| `UltimaRatio.MulIntOrdersAgree` | ultima_ratio.h:123-127 | `k * r` and `r * k` give the same integer or the same error |
| `UltimaRatio.MulRatio` | ultima_ratio.h:144-148 | for modifier-free ratios the product is the unreduced pair `(n1*n2, d1*d2)`, valid, and never raises |
| `UltimaRatio.MulRatioThenInt` | ultima_ratio.h:144-148 | if `b * k` is exact (`m`) and `a * m` is exact (`p`), then `(a*b) * k` is exact and equals `p` |
| `UltimaRatio.MulExamples` | tests.cpp:42-48 | 2/1*5 = 5*2/1 = 10, 1/2*10 = 5, 3/2*1 and 1*3/2 raise Remainder, 2/1*2/1 = 4/1, 6/3*6/2 = 36/6 |
| `UltimaRatio.IntDiv` | ultima_ratio.h:153-161 | `k / r` (with `num > 0`) succeeds iff some integer `q` has `q * num == k * denom`, and then returns that `q`; otherwise Remainder |
| `UltimaRatio.DivInt` | ultima_ratio.h:162-166 | as written, `r / k` has the same exactness condition and result as `k / r`: `k*denom/num`, or Remainder |
| `UltimaRatio.DivIntIntended` | ultima_ratio.h:162-166 | corrected `r / k` (with `k != 0`): succeeds iff some integer `q` has `q * (denom*k) == num`, and returns that `q`; otherwise Remainder |
| `UltimaRatio.DivIntIntendedUndoesMul` | ultima_ratio.h:162-166 | when the corrected `r / k` is exact with result `q`, then `r * k` is exact and equals `q*k*k` |
| `UltimaRatio.DivIntSwapsOperands` | ultima_ratio.h:165 | (1/1)/2 yields 2 and (4/1)/2 raises Remainder as written, the reverse of the intended results; 2/1 / 2 = 1 and 4/2 / 3 raising agree |
| `UltimaRatio.DivExamples` | tests.cpp:55-56 | 4 / (2/1) = 2, (2/1) / 2 = 1, 4 / (3/2) and (4/2) / 3 raise Remainder |
| `UltimaRatio.Eq` | ultima_ratio.h:170-174 | same-type `==` holds iff the stored pairs are identical |
| `UltimaRatio.Less` | ultima_ratio.h:175-182 | comparing numerators scaled to `lcm(d1, d2)` is the cross-product order `n1*d2 < n2*d1` |
| `UltimaRatio.Greater` | ultima_ratio.h:183-187 | `a > b` iff `b.num*a.denom < a.num*b.denom`, i.e. `b < a` |
| `UltimaRatio.LessEq` | ultima_ratio.h:188-192 | `a <= b` iff `a < b` in value or the stored pairs are identical |
| `UltimaRatio.GreaterEq` | ultima_ratio.h:193-197 | `a >= b` iff `a > b` in value or the stored pairs are identical |
| `UltimaRatio.LessIsStrictOrder` | ultima_ratio.h:175-187 | `<` is irreflexive, asymmetric and transitive, and neither `a < b` nor `b < a` iff they denote the same number |
| `UltimaRatio.EqIsStructural` | ultima_ratio.h:188-197 | 1/2 and 2/4 denote the same number, yet they are not `==`, not `<=` and not `>=`; 2/1 != 2/2 |
| `UltimaRatio.NormalizedEqIsValueEq` | ultima_ratio.h:170-174 | for normalised ratios, `==` holds iff they denote the same number |
| `UltimaRatio.NormalizedLessEqIsValueOrder` | ultima_ratio.h:188-197 | for normalised ratios, `<=` and `>=` are the non-strict order of the numbers denoted |
| `UltimaRatio.ComparisonExamples` | tests.cpp:59-65 | 1/4 < 1/3, 1/3 > 1/4, 1/3 >= 1/4, 1/3 >= 1/3, not 1/4 < 1/4, not 1/4 > 1/4 |
| `UltimaRatio.HeteroEq` | ultima_ratio.h:200-207 | as written, hetero-comparable `==` holds iff the numerators are equal; denominators are ignored |
| `UltimaRatio.HeteroEqIntended` | ultima_ratio.h:200-207 | corrected hetero `==` holds iff the as-written one holds and the denominators are equal too, i.e. both components are compared; when it holds, the two ratios denote the same number |
| `UltimaRatio.HeteroEqIntendedIsValueEq` | ultima_ratio.h:201-207 | for two normalised hetero-comparable ratios, the corrected `==` holds iff they denote the same number |
| `UltimaRatio.HeteroEqIgnoresDenominators` | ultima_ratio.h:205-206 | as written, 1/2 == 1/3 holds where the corrected comparison fails; 1/1 == 1/1 (tests.cpp:16) holds under both |
| `UltimaRatio.IntEq` | ultima_ratio.h:210-216 | `r == k` is false unless `denom == 1`, and with `denom == 1` it holds iff `num == k`; when it holds, `r` denotes `k` |
| `UltimaRatio.NormalizedIntEqIsValueEq` | ultima_ratio.h:211-216 | for a normalised int-comparable ratio, `r == k` holds iff `r` denotes `k` |
| `UltimaRatio.IntEqExamples` | tests.cpp:9-10 | 2/1 == 2, while 4/2 denotes 2 but is not `== 2` |
| `Frac.Default` | fraction.h:14-20 | the default fraction is 1/1 |
| `Frac.Make` | fraction.h:21-33 | the constructor stores `(n, d)` whatever it is; the zero and negative branches do nothing |
| `Frac.MakeSkipsValidation` | fraction.h:21-33 | the final constructor rejects exactly `d <= 0 or n < 0`, and where it accepts, it stores the same pair the draft does |
| `Frac.MulInt` | fraction.h:69-78 | `f * k` (with `denom != 0`) is `k*num/denom` truncated toward zero: the remainder is smaller than `denom` in magnitude and has the sign of `k*num`; nothing is reported |
| `Frac.IntMul` | fraction.h:81-85 | `k * f` is the truncated quotient of `k*num` by `denom` |
| `Frac.MulIntOrdersAgree` | fraction.h:81-85 | `k * f` equals `f * k` |
| `Frac.MulIntAgreesWhenExact` | fraction.h:69-78 | on a valid pair, whenever the final `r * k` is exact, the draft returns the same integer |
| `Frac.MulIntTruncates` | fraction.h:69-78 | 3/2*1 = 1 where the final version raises Remainder; -3/2*1 = -1 and 1*(3/-2) = -1 (toward zero); 1/0 is constructed |
| `Frac.MulFraction` | fraction.h:88-95 | `f1 * f2` is the componentwise pair `(n1*n2, d1*d2)` |
| `Frac.MulFractionAgrees` | fraction.h:88-95 | on valid pairs the draft product equals the final `ratio * ratio`; 1/0 * 1/1 silently has denominator 0 |
| `Rat.Default` | ratio.h:14-20 | the default value is 1/1 |
| `Rat.Make` | ratio.h:21-33 | the constructor stores `(n, d)` whatever it is |
| `Rat.MulInt` | ratio.h:69-78 | `r * k` (with `denom != 0`) is `k*num/denom` truncated toward zero; nothing is reported |
| `Rat.IntMul` | ratio.h:81-85 | `k * r` is the truncated quotient of `k*num` by `denom` |
| `Rat.MulIntOrdersAgree` | ratio.h:81-85 | `k * r` equals `r * k` |
| `Rat.MulRatio` | ratio.h:88-95 | `r1 * r2` is the componentwise pair `(n1*n2, d1*d2)` |
| `Rat.AgreesWithFraction` | ratio.h:14-95 | `rat::ratio` and `frac::fraction` agree on the default value, construction, both integer products and the pair product |
| `Rat.MulIntAgreesWhenExact` | ratio.h:69-78 | on a valid pair, whenever the final `r * k` is exact, this draft returns the same integer |

## Findings

| source | as written | input that shows it | evidently intended | confidence | as-written member | corrected member |
|---|---|---|---|---|---|---|
| ultima_ratio.h:165 | `ratio / integer` returns `integer / ratio`, i.e. `k*denom/num` | `ratio(1,1) / 2` yields 2; `ratio(4,1) / 2` throws Remainder | `num / (denom*k)`, exact or Remainder | not executed; high | `UltimaRatio.DivInt`, shown by `UltimaRatio.DivIntSwapsOperands` | `UltimaRatio.DivIntIntended` |
| ultima_ratio.h:206 | compares `right.denom()` with itself | two hetero-comparable ratios 1/2 and 1/3 compare equal | compare `left.denom()` with `right.denom()` | not executed; high | `UltimaRatio.HeteroEq`, shown by `UltimaRatio.HeteroEqIgnoresDenominators` | `UltimaRatio.HeteroEqIntended` |

## Left out

- Floating point is not modelled. This covers `get_fp`, the implicit `float` and `double` conversions gated by `make_implicit_convertible`, `ratio * float` in both orders, and in the drafts `get_ratio` and the `double`-based `operator==`. Dafny has no IEEE floating-point model here.
- The `std::ratio` literal constructors and the deduction guides are not modelled. They are compile-time type machinery, and the literal constructor only forwards to the two-argument constructor (`UltimaRatio.Make`, `Frac.Make`, `Rat.Make`).
- The concepts and traits (`t_in_types`, `init_tag_v`, `is_ratio`, `ratio_c`) are not modelled as such. They only select overloads at compile time, so they appear as the `Modifiers` record and as `requires` clauses.
- Fixed-width integer effects are not modelled: overflow, unsigned wrap-around, the usual arithmetic conversions between `T` and the other integer type, and the `static_cast<int>` narrowing in heterogeneous `==`. All arithmetic is on unbounded integers.
- `UltimaRatio.HeteroEq`, `UltimaRatio.Eq`, `UltimaRatio.Less`, `UltimaRatio.Greater`, `UltimaRatio.LessEq` and `UltimaRatio.GreaterEq` stand in for C++ types by the `Modifiers` record. That record ignores the representation type `T` and the order in which the tags are listed. So the same-type operators accept, as long as `a.mods == b.mods`, pairs that are different C++ types (another `T`, or the same tags in another order), for which C++ offers no same-type operator and, when both are hetero-comparable, resolves `==` to the heterogeneous one. Conversely, `HeteroEq` applies to any two hetero-comparable ratios, and the model does not encode that overload resolution prefers the same-type `==` when both operands have the same type.
- The reversed form `integer == ratio` (tests.cpp:10) is not a separate member. C++20 rewrites it to `ratio == integer`, which is `UltimaRatio.IntEq`.
- Exception messages are not modelled, only the exception kind. The messages are inaccurate; for example "denominator is negative" is also used for a negative numerator.
- The test harness in tests.cpp (`expect_throw`, `main`) is not modelled. Its assertions appear only as expected values in the `...Examples` lemmas.
- `UltimaRatio.MulRatio` is modelled only for the modifier-free instantiation. For a modified type its return statement does not compile.
- `UltimaRatio.IntDiv` and `UltimaRatio.DivInt` require `num > 0`. The source takes `% right.num()` (ultima_ratio.h:156), and a ratio with numerator 0, which the constructor accepts, makes that a division by zero, which is undefined behaviour.
- `Frac.MulInt`, `Frac.IntMul`, `Rat.MulInt` and `Rat.IntMul` require `denom != 0`. The drafts construct 1/0 without complaint, but their integer products then divide by zero (fraction.h:72 and 77, ratio.h:72 and 77), which is undefined behaviour.
