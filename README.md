# Aggregated monetary policy v3: the rate formula, verified

This project models `AggMonetaryPolicy3.calculate_rate`. It is the
interest-rate formula of a stablecoin lending protocol, written to reproduce
the on-chain contract's `calculate_rate`. The formula is integer arithmetic at
scale 10^18 (`WAD`). It takes the oracle price, the volatility divisor
`sigma`, the base rate `rate0`, the peg-keeper debt and a market's use of its
debt ceiling, and returns a per-second borrow rate in four steps:

1. `PegPower`: `(10^18 - price) * 10^18 // sigma`. This is the deviation of the price from the peg.
2. `Skew`: subtracted from the power when both the peg-keeper debt and the
   total debt are positive. It is `pk_debt * 10^18 // total_debt * 10^18 // target_debt_fraction`, evaluated left to right.
3. `BaseRate`: `rate0 * min(exp(power), MAX_EXP) // 10^18`. Here `exp` is 0
   at or below -41.44 (scaled), `MAX_EXP` (1000.0) at or above 135.3, and a
   native exponential capped at `MAX_EXP` in between.
4. `CeilingAdjusted`: applies when `ceiling > 0` and `debt_for > 0`. The
   utilisation `f` is clamped at `1 - 10^-4`. The rate is multiplied by
   `0.9 + 0.1 / (1 - f)` and capped at `MAX_RATE`.

Files:

- `FixedPoint.dfy`: `WAD`, Python's `min`, and Python's floor division `//` as
  `FloorDiv`. Dafny's `/` is Euclidean, so `FloorDiv` spells out the negative
  divisor case. It also holds the lemmas on floor division used by the proofs:
  uniqueness, sign, and monotonicity in the numerator and the divisor.
- `AggMonetaryPolicy3.dfy`: the constants, `Exp`, the four steps, `Rate` (the
  formula for inputs with no zero divisor), the keyword defaults
  (`InputsFromKwargs`), and `CalculateRate`/`CheckedRate`. `CheckedRate`
  returns the rate or the division by zero that Python would raise.
- `RateProperties.dfy`: lemmas about each step and about the whole formula.
  They cover bounds, saturation, the ceiling cap, monotonicity in price, in
  debt and in the peg-keeper skew, the scenario at the peg, and two
  counterexamples that show where the formula is not capped or not monotone.

The floating-point middle branch of `exp` is a parameter, `nativeExp: int -> nat`.
Two facts about the native exponential are used only as explicit hypotheses
of the lemmas that need them:

- `NativeExpAtZeroIsOne`: e^0 = 1.
- `NativeExpMonotone`: the native exponential never decreases from one integer power to the next. `NativeExpOrdered` derives from this that it is non-decreasing over any distance.

They are never assumed by the model itself.

Three behaviours of the code that a reader might not expect, all kept in the model:

- The code caps the rate at `MAX_RATE` only inside the ceiling branch
  (lines 61-67). Outside that branch nothing caps it, and the rate can reach
  `1000 * rate0`: `UncappedWithoutCeiling` exhibits `1000 * MAX_RATE`.
- The rate is non-decreasing in `debt_for` only for positive debts
  (`RateMonotoneInDebt`). Going from `debt_for = 0` to a positive debt can
  lower a rate above `MAX_RATE` to `MAX_RATE` (`RateFromNoDebt`,
  `FirstDebtCanLowerRate`).
- `calculate_rate` itself checks neither the range of `sigma` (`MIN_SIGMA`
  to `MAX_SIGMA`) nor that of `target_debt_fraction` (up to
  `MAX_TARGET_DEBT_FRACTION`). Inside the policy they appear only in the
  display strings of `required_parameters` (lines 22-24). The caller
  `main.py` reads `MIN_SIGMA` and `MAX_SIGMA` as the bounds of its sigma
  slider (main.py:40-41), so `ZeroSigma` cannot be reached from the page.
  `ZeroTargetDebtFraction` can: the target slider goes down to 0
  (main.py:59-65), and peg-keeper debt can be positive. Apart from the
  float overflow listed under "## Left out", the only errors `calculate_rate`
  raises are those zero divisors. The model does the same: `FloorDiv`
  handles negative divisors as Python does, and `CheckedRate` fails exactly
  on a zero divisor.

## Model

| member | source | states |
|---|---|---|
| FixedPoint.Min | src/policies/agg_monetary_policy3.py:37-67 | Python's `min`: the result is at most both arguments and is one of them |
| FixedPoint.FloorDiv | src/policies/agg_monetary_policy3.py:53-65 | Python's `//`: for a positive divisor `q*b <= a < q*b + b`, for a negative one `q*b + b < a <= q*b`; a zero divisor is outside its domain (Python raises) |
| AggMonetaryPolicy3.Exp | src/policies/agg_monetary_policy3.py:31-37 | 0 at or below -41446531673892821376, `MAX_EXP` at or above 135305999368893231589, never above `MAX_EXP`; in between, never above the native value, equal to it when it is at most `MAX_EXP`, and `MAX_EXP` when it is at least `MAX_EXP` |
| AggMonetaryPolicy3.Utilization | src/policies/agg_monetary_policy3.py:62 | the utilisation is at most `10^18 - TARGET_REMAINDER // 1000`, so the divisor `10^18 - f` of line 65 is at least `10^14`; it is non-negative for non-negative debt under a positive ceiling, and equals the clamp once `debt_for >= ceiling` |
| AggMonetaryPolicy3.CeilingAdjusted | src/policies/agg_monetary_policy3.py:61-67 | the rate is unchanged unless `ceiling > 0 and debt_for > 0`; then it is at most `MAX_RATE`, and a non-negative rate is not lowered below `min(rate, MAX_RATE)` |
| AggMonetaryPolicy3.CheckedRate | src/policies/agg_monetary_policy3.py:52-69 | fails with `ZeroSigma` exactly when `sigma == 0`, with `ZeroTargetDebtFraction` exactly when sigma is non-zero, both debts are positive and `target_debt_fraction == 0`, succeeds exactly when no divisor of the formula is zero, and then returns `Rate` of its inputs |
| RateProperties.ExpAtZero | src/policies/agg_monetary_policy3.py:31-37 | `exp(0) == 10^18`, given a native exponential with e^0 = 1 |
| RateProperties.NativeExpOrdered | src/policies/agg_monetary_policy3.py:37 | a native exponential that never decreases between consecutive integer powers is non-decreasing: `p1 <= p2` gives `nativeExp(p1) <= nativeExp(p2)` |
| RateProperties.ExpNonDecreasing | src/policies/agg_monetary_policy3.py:31-37 | the saturated `exp` is non-decreasing, given a non-decreasing native exponential |
| AggMonetaryPolicy3.PegPower | src/policies/agg_monetary_policy3.py:53 | the power is 0 at the peg; for `sigma > 0` it is non-negative exactly when the price is at or below the peg, and non-positive above it |
| RateProperties.PegPowerAntitone | src/policies/agg_monetary_policy3.py:53 | for `sigma > 0` the power is non-increasing in the price |
| AggMonetaryPolicy3.Skew | src/policies/agg_monetary_policy3.py:55-56 | the skew is 0 unless `pk_debt > 0 and total_debt > 0`, and is never negative for a positive target |
| RateProperties.FullPegKeeperShare | src/policies/agg_monetary_policy3.py:55-56 | with `pk_debt == total_debt > 0` and `0 < target_debt_fraction <= 10^18`, the skew is at least `10^18`, and more than `10^18` when the target is below `10^18` |
| AggMonetaryPolicy3.BaseRate | src/policies/agg_monetary_policy3.py:58 | with `rate0 >= 0`, `0 <= rate <= rate0 * MAX_EXP // 10^18 = 1000 * rate0`; where `exp` saturates the rate is 0 (low power) or exactly `1000 * rate0` (high power); at power 0 it is `rate0` (e^0 = 1 assumed) |
| RateProperties.BaseRateMonotone | src/policies/agg_monetary_policy3.py:58 | with `rate0 >= 0` and a non-decreasing native exponential, the rate after line 58 is non-decreasing in the power |
| RateProperties.UtilizationMonotone | src/policies/agg_monetary_policy3.py:62 | utilisation is non-decreasing in `debt_for` |
| AggMonetaryPolicy3.CeilingMultiplier | src/policies/agg_monetary_policy3.py:64-65 | for `0 <= f <= 10^18 - 10^14` the multiplier lies in `[10^18, 1000.9 * 10^18]` |
| RateProperties.CeilingMultiplierMonotone | src/policies/agg_monetary_policy3.py:64-65 | the multiplier is non-decreasing in `f` |
| RateProperties.CeilingAdjustedMonotoneInRate | src/policies/agg_monetary_policy3.py:61-67 | the adjustment preserves the order of two rates |
| RateProperties.CeilingAdjustedMonotoneInDebt | src/policies/agg_monetary_policy3.py:61-67 | for a non-negative rate and `ceiling > 0`, the adjusted rate is non-decreasing in a positive `debt_for` |
| RateProperties.FullUtilization | src/policies/agg_monetary_policy3.py:62-67 | at `debt_for >= ceiling > 0` the result is `min(rate * 1000.9e18 // 10^18, MAX_RATE)` |
| AggMonetaryPolicy3.Power | src/policies/agg_monetary_policy3.py:53-56 | for a positive target the power is at most the peg power of line 53, and equals it when the skew does not apply |
| AggMonetaryPolicy3.Rate | src/policies/agg_monetary_policy3.py:52-69 | with `rate0 >= 0` the rate is non-negative, at most `MAX_RATE` when the ceiling branch runs, at most `1000 * rate0` otherwise, and 0 when `rate0 == 0` |
| RateProperties.UncappedWithoutCeiling | src/policies/agg_monetary_policy3.py:58-69 | price 0, `sigma = MIN_SIGMA`, `rate0 = MAX_RATE` and no ceiling return `1000 * MAX_RATE`, above `MAX_RATE` |
| RateProperties.RateAtPeg | src/policies/agg_monetary_policy3.py:53-58 | at the peg, with no skew and no ceiling adjustment, the power is 0 and the model returns exactly `rate0` (e^0 = 1 assumed) |
| RateProperties.RateAroundPeg | src/policies/agg_monetary_policy3.py:53-58 | with no skew and no ceiling adjustment, the rate is at least `rate0` below the peg and at most `rate0` above it |
| RateProperties.SkewLowersRate | src/policies/agg_monetary_policy3.py:53-67 | with a positive target, the power and the rate with peg-keeper debt are at most those of the same inputs with `pk_debt = 0` |
| RateProperties.RateMonotoneInPrice | src/policies/agg_monetary_policy3.py:53-67 | with `sigma > 0` and `rate0 >= 0`, the rate is non-increasing in the price |
| RateProperties.RateMonotoneInDebt | src/policies/agg_monetary_policy3.py:58-67 | with `ceiling > 0` and `rate0 >= 0`, the rate is non-decreasing in a positive `debt_for` |
| RateProperties.RateFromNoDebt | src/policies/agg_monetary_policy3.py:58-67 | with `ceiling > 0`, any positive `debt_for` gives at least `min(rate at debt_for = 0, MAX_RATE)` |
| RateProperties.FirstDebtCanLowerRate | src/policies/agg_monetary_policy3.py:58-67 | a rate of `1000 * MAX_RATE` at `debt_for = 0` becomes `MAX_RATE` at `debt_for = 1`, so the rate is not monotone in the debt from 0 |
| AggMonetaryPolicy3.Arg | src/policies/agg_monetary_policy3.py:43-50 | Python's `kwargs.get(key, default)`: the given value when the key is present, the default otherwise |
| AggMonetaryPolicy3.InputsFromKwargs | src/policies/agg_monetary_policy3.py:43-50 | every keyword given is used as it is; an omitted price is the peg, an omitted sigma is `2 * 10**16` and an omitted target debt fraction `10**17` (both positive), an omitted `rate0` is 0, and omitting either debt of a pair (`pk_debt`/`total_debt`, `debt_for`/`ceiling`) switches its term off |
| AggMonetaryPolicy3.CalculateRate | src/policies/agg_monetary_policy3.py:39-69 | fails with `ZeroSigma` exactly when `sigma=0` is passed, with `ZeroTargetDebtFraction` only when `target_debt_fraction=0` is passed, succeeds exactly when no divisor the formula actually divides by is zero (so `target_debt_fraction=0` without peg-keeper debt still succeeds), and then returns `Rate` of the inputs read from the keyword arguments |
| RateProperties.DefaultArguments | src/policies/agg_monetary_policy3.py:43-50 | with no keyword arguments the inputs are price `10**18`, sigma `2 * 10**16`, rate0 0, target `10**17` and zero debts and ceiling, and no division by zero occurs |
| RateProperties.OmittedBaseRate | src/policies/agg_monetary_policy3.py:45 | a call that omits `rate0` returns 0 whenever it returns |
| RateProperties.CalculateRateAtPeg | src/policies/agg_monetary_policy3.py:43-58 | in the model, `calculate_rate(price=1e18, sigma=2e16, rate0=r, target_debt_fraction=5e17)` returns exactly `r` (e^0 = 1 assumed) |

## Left out

- The middle branch of `exp` (line 37) calls the floating-point `np.exp`. It is the parameter `nativeExp`. The facts e^0 = 1 and monotonicity are hypotheses of the lemmas that use them.
- When `exp` takes its middle branch, the source's `rate` becomes a Python float, and later `//` operations round in floating point. The model keeps `rate` an integer throughout. The results can then differ: at the peg `exp` returns the float `1e18`, so with `rate0 = 3022265980` the source returns `3022265979.0`, because the double nearest to `3022265980 * 10^18` lies below it, while the model returns `3022265980` (`RateAtPeg`, `CalculateRateAtPeg`). In that branch line 58 also multiplies `rate0` by a float, so for `|rate0| >= 2^1024` Python raises OverflowError, while the model returns an integer.
- Keyword argument values are modelled as integers. The source would also accept floats.
- `policy_name` and `required_parameters` (lines 14-29) only return display strings. `MAX_TARGET_DEBT_FRACTION` appears only in those strings. `MIN_SIGMA` and `MAX_SIGMA` appear there too, and `main.py` uses them as the sigma slider bounds. `calculate_rate` enforces none of them, and neither does the model.
- `main.py` is not part of this model. It is the interactive page, the plots and the parameter sweeps. It reads `policy_name`, `MIN_SIGMA` and `MAX_SIGMA` (main.py:22, 40-41), bounds the inputs through its sliders, and calls `calculate_rate`.
- `src/utils/calculations.py` is not part of this model. It covers `to_wei`, `from_wei` and `calculate_annual_rate`, which are floating-point conversions and annualisation for display.
- `src/policies/policy_base.py` is not part of this model. It is an abstract base class with no behaviour.
- RateAroundPeg: proves the rate is at least `rate0` below the peg, not strictly greater. The native exponential is assumed only non-decreasing, not strictly increasing.
- SkewLowersRate: proves the rate with a full peg-keeper share is at most the rate without skew, not strictly lower, for the same reason. `FullPegKeeperShare` proves that the power itself drops strictly.
