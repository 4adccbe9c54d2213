/** The rate formula of the aggregated monetary policy, version 3.

    `calculate_rate` turns the oracle price of the stablecoin, the peg-keeper
    debt and a market's utilisation of its debt ceiling into a per-second
    borrow rate at scale 10^18, in four steps:
      1. the peg-deviation power (PegPower),
      2. minus the peg-keeper skew (Skew),
      3. the base rate scaled by exp(power) (BaseRate),
      4. the utilisation-based ceiling adjustment (CeilingAdjusted).
    Rate composes them; CalculateRate adds the keyword defaults and the
    ZeroDivisionError that Python raises when a divisor is zero. */
module AggMonetaryPolicy3 {
  import opened FixedPoint

  // Policy constants.

  /** Per-second rate cap, about 300% a year. */
  const MAX_RATE: int := 43959106799
  const MAX_EXP: int := 1000 * WAD
  const MIN_SIGMA: int := 100_000_000_000_000
  const MAX_SIGMA: int := WAD
  const TARGET_REMAINDER: int := 100_000_000_000_000_000
  const MAX_TARGET_DEBT_FRACTION: int := WAD

  /** At or below this power, exp returns 0. */
  const EXP_ZERO_BELOW: int := -41446531673892821376
  /** At or above this power, exp returns MAX_EXP. */
  const EXP_SATURATE_ABOVE: int := 135305999368893231589

  /** The largest utilisation the ceiling adjustment uses: 1 - 10^-4. */
  const MAX_UTILIZATION: int := WAD - TARGET_REMAINDER / 1000

  // Inputs, errors and results.

  /** The keyword arguments of calculate_rate, all at scale 10^18. */
  datatype RateInputs = RateInputs(
    price: int,
    sigma: int,
    rate0: int,
    targetDebtFraction: int,
    debtFor: int,
    totalDebt: int,
    pkDebt: int,
    ceiling: int)

  /** The division by zero Python would raise, named by its divisor. */
  datatype Error = ZeroSigma | ZeroTargetDebtFraction

  datatype Result<T> = Success(value: T) | Failure(error: Error)

  // The exponential.

  /** Fixed-point exp with saturation. `nativeExp` stands for the
      floating-point middle branch, e^(power / 10^18) * 10^18, which is not
      modelled; only the saturation and the cap are. */
  function Exp(power: int, nativeExp: int -> nat): (e: nat)
    ensures power <= EXP_ZERO_BELOW ==> e == 0
    ensures power >= EXP_SATURATE_ABOVE ==> e == MAX_EXP
    ensures e <= MAX_EXP
    ensures EXP_ZERO_BELOW < power < EXP_SATURATE_ABOVE ==> e <= nativeExp(power)
    ensures EXP_ZERO_BELOW < power < EXP_SATURATE_ABOVE && nativeExp(power) <= MAX_EXP ==> e == nativeExp(power)
    ensures EXP_ZERO_BELOW < power < EXP_SATURATE_ABOVE && nativeExp(power) >= MAX_EXP ==> e == MAX_EXP
  {
    if power <= EXP_ZERO_BELOW then 0
    else if power >= EXP_SATURATE_ABOVE then MAX_EXP
    else Min(nativeExp(power), MAX_EXP)
  }

  /** The assumption e^0 == 1 about the native exponential. */
  ghost predicate NativeExpAtZeroIsOne(nativeExp: int -> nat) {
    nativeExp(0) == WAD
  }

  /** The assumption that the native exponential is non-decreasing, stated
      on its domain, the integer powers at scale 10^18: it never decreases
      from one power to the next. */
  ghost predicate NativeExpMonotone(nativeExp: int -> nat) {
    forall x, y :: y == x + 1 ==> nativeExp(x) <= nativeExp(y)
  }

  // The four steps.

  /** Step 1: (1 - price) / sigma at scale 10^18. For a positive sigma the
      power is non-negative exactly when the price is at or below the peg, and
      non-positive above it; at the peg it is 0 whatever sigma is. */
  function PegPower(price: int, sigma: int): (p: int)
    requires sigma != 0
    ensures price == WAD ==> p == 0
    ensures sigma > 0 ==> (price <= WAD <==> p >= 0)
    ensures sigma > 0 && price >= WAD ==> p <= 0
  {
    PegPowerSign(price, sigma);
    FloorDiv((WAD - price) * WAD, sigma)
  }

  /** The sign argument behind PegPower's contract. */
  lemma PegPowerSign(price: int, sigma: int)
    requires sigma != 0
    ensures sigma > 0 && price <= WAD ==> FloorDiv((WAD - price) * WAD, sigma) >= 0
    ensures sigma > 0 && price > WAD ==> FloorDiv((WAD - price) * WAD, sigma) < 0
  {
    if sigma > 0 && price <= WAD {
      FloorDivNonNegative((WAD - price) * WAD, sigma);
    }
    if sigma > 0 && price > WAD {
      FloorDivNegative((WAD - price) * WAD, sigma);
    }
  }

  /** Whether the peg-keeper skew is subtracted. */
  predicate SkewApplies(pkDebt: int, totalDebt: int) {
    pkDebt > 0 && totalDebt > 0
  }

  /** Step 2: the peg-keeper share of the total debt over the target
      fraction. It is 0 unless both debts are positive, and never negative
      for a positive target, so subtracting it never raises the power. */
  function Skew(pkDebt: int, totalDebt: int, targetDebtFraction: int): (s: int)
    requires SkewApplies(pkDebt, totalDebt) ==> targetDebtFraction != 0
    ensures !SkewApplies(pkDebt, totalDebt) ==> s == 0
    ensures targetDebtFraction > 0 ==> s >= 0
  {
    if SkewApplies(pkDebt, totalDebt) then
      SkewSign(pkDebt, totalDebt, targetDebtFraction);
      FloorDiv(FloorDiv(pkDebt * WAD, totalDebt) * WAD, targetDebtFraction)
    else 0
  }

  /** The sign argument behind Skew's contract. */
  lemma SkewSign(pkDebt: int, totalDebt: int, targetDebtFraction: int)
    requires SkewApplies(pkDebt, totalDebt) && targetDebtFraction != 0
    ensures targetDebtFraction > 0 ==>
              FloorDiv(FloorDiv(pkDebt * WAD, totalDebt) * WAD, targetDebtFraction) >= 0
  {
    FloorDivNonNegative(pkDebt * WAD, totalDebt);
    if targetDebtFraction > 0 {
      FloorDivNonNegative(FloorDiv(pkDebt * WAD, totalDebt) * WAD, targetDebtFraction);
    }
  }

  /** Step 3: rate0 scaled by the capped exponential of the power. With a
      non-negative rate0 it lies in [0, rate0 * MAX_EXP / 10^18], that is in
      [0, 1000 * rate0]; where exp saturates it is 0 below and 1000 * rate0
      above; and it is rate0 itself at power 0 when e^0 == 1. */
  function BaseRate(rate0: int, power: int, nativeExp: int -> nat): (r: int)
    ensures rate0 >= 0 ==> 0 <= r <= 1000 * rate0
    ensures power <= EXP_ZERO_BELOW ==> r == 0
    ensures power >= EXP_SATURATE_ABOVE ==> r == 1000 * rate0
    ensures power == 0 && NativeExpAtZeroIsOne(nativeExp) ==> r == rate0
  {
    var e := Min(Exp(power, nativeExp), MAX_EXP);
    ScaleByExp(rate0, e);
    FloorDiv(rate0 * e, WAD)
  }

  /** The arithmetic behind BaseRate's contract, for a factor e in [0, MAX_EXP]. */
  lemma ScaleByExp(x: int, e: int)
    requires 0 <= e <= MAX_EXP
    ensures x >= 0 ==> 0 <= FloorDiv(x * e, WAD) <= 1000 * x
    ensures e == 0 ==> FloorDiv(x * e, WAD) == 0
    ensures e == MAX_EXP ==> FloorDiv(x * e, WAD) == 1000 * x
    ensures e == WAD ==> FloorDiv(x * e, WAD) == x
  {
    FloorDivOfMultiple(1000 * x, WAD);
    FloorDivOfMultiple(x, WAD);
    FloorDivOfMultiple(0, WAD);
    if x >= 0 {
      MulMonotone(0, e, x);
      MulMonotone(e, MAX_EXP, x);
      FloorDivNonNegative(x * e, WAD);
      FloorDivMonotone(x * e, x * MAX_EXP, WAD);
    }
  }

  /** Whether the ceiling adjustment applies. */
  predicate CeilingApplies(debtFor: int, ceiling: int) {
    ceiling > 0 && debtFor > 0
  }

  /** The market's utilisation of its ceiling, clamped at MAX_UTILIZATION
      so that the multiplier's divisor stays at least 10^14. It is
      non-negative for non-negative debt under a positive ceiling, and
      reaches the clamp once the debt reaches the ceiling. */
  function Utilization(debtFor: int, ceiling: int): (f: int)
    requires ceiling != 0
    ensures f <= MAX_UTILIZATION
    ensures WAD - f >= TARGET_REMAINDER / 1000
    ensures ceiling > 0 && debtFor >= 0 ==> 0 <= f
    ensures 0 < ceiling <= debtFor ==> f == MAX_UTILIZATION
  {
    UtilizationSign(debtFor, ceiling);
    Min(FloorDiv(debtFor * WAD, ceiling), MAX_UTILIZATION)
  }

  /** The arithmetic behind Utilization's contract. */
  lemma UtilizationSign(debtFor: int, ceiling: int)
    requires ceiling != 0
    ensures ceiling > 0 && debtFor >= 0 ==> 0 <= FloorDiv(debtFor * WAD, ceiling)
    ensures 0 < ceiling <= debtFor ==> WAD <= FloorDiv(debtFor * WAD, ceiling)
  {
    if ceiling > 0 && debtFor >= 0 {
      FloorDivNonNegative(debtFor * WAD, ceiling);
    }
    if 0 < ceiling <= debtFor {
      FloorDivMonotone(ceiling * WAD, debtFor * WAD, ceiling);
      FloorDivOfMultiple(WAD, ceiling);
      assert FloorDiv(ceiling * WAD, ceiling) == WAD;
    }
  }

  /** The ceiling multiplier (1 - r) + r / (1 - f), r = TARGET_REMAINDER.
      For a utilisation in [0, MAX_UTILIZATION] it lies in
      [1.0, 0.9 + 0.1 / 10^-4] = [1.0, 1000.9]. */
  function CeilingMultiplier(f: int): (m: int)
    requires f <= MAX_UTILIZATION
    ensures 0 <= f ==> WAD <= m <= 1000_900_000_000_000_000_000
  {
    CeilingBonusBounds(f);
    (WAD - TARGET_REMAINDER) + FloorDiv(TARGET_REMAINDER * WAD, WAD - f)
  }

  /** The arithmetic behind CeilingMultiplier's contract. */
  lemma CeilingBonusBounds(f: int)
    requires f <= MAX_UTILIZATION
    ensures 0 <= f ==>
              TARGET_REMAINDER <= FloorDiv(TARGET_REMAINDER * WAD, WAD - f) <= 1000 * WAD
  {
    if 0 <= f {
      FloorDivAntitone(TARGET_REMAINDER * WAD, WAD - f, WAD);
      FloorDivOfMultiple(TARGET_REMAINDER, WAD);
      FloorDivAntitone(TARGET_REMAINDER * WAD, TARGET_REMAINDER / 1000, WAD - f);
      FloorDivOfMultiple(1000 * WAD, TARGET_REMAINDER / 1000);
    }
  }

  /** Step 4: when the market has a ceiling and debt, the rate is multiplied
      by the ceiling multiplier and capped at MAX_RATE; otherwise it is kept.
      A non-negative rate is never lowered below min(rate, MAX_RATE). */
  function CeilingAdjusted(rate: int, debtFor: int, ceiling: int): (r: int)
    ensures !CeilingApplies(debtFor, ceiling) ==> r == rate
    ensures CeilingApplies(debtFor, ceiling) ==> r <= MAX_RATE
    ensures CeilingApplies(debtFor, ceiling) && rate >= 0 ==> Min(rate, MAX_RATE) <= r
  {
    if CeilingApplies(debtFor, ceiling) then
      var m := CeilingMultiplier(Utilization(debtFor, ceiling));
      ScaleUp(rate, m);
      Min(FloorDiv(rate * m, WAD), MAX_RATE)
    else rate
  }

  /** The arithmetic behind CeilingAdjusted's lower bound: a multiplier of
      at least 1.0 does not shrink a non-negative rate. */
  lemma ScaleUp(rate: int, m: int)
    ensures rate >= 0 && m >= WAD ==> rate <= FloorDiv(rate * m, WAD)
  {
    if rate >= 0 && m >= WAD {
      MulMonotone(WAD, m, rate);
      FloorDivOfMultiple(rate, WAD);
      FloorDivMonotone(rate * WAD, rate * m, WAD);
    }
  }

  // The whole formula.

  /** No divisor of the formula is zero. */
  predicate DivisorsNonZero(inputs: RateInputs) {
    inputs.sigma != 0 &&
    (SkewApplies(inputs.pkDebt, inputs.totalDebt) ==> inputs.targetDebtFraction != 0)
  }

  /** Steps 1 and 2: the power passed to exp. The skew only ever lowers it
      (for a positive target), and without peg-keeper debt it is the peg
      power itself. */
  function Power(inputs: RateInputs): (p: int)
    requires DivisorsNonZero(inputs)
    ensures inputs.targetDebtFraction > 0 ==> p <= PegPower(inputs.price, inputs.sigma)
    ensures !SkewApplies(inputs.pkDebt, inputs.totalDebt) ==> p == PegPower(inputs.price, inputs.sigma)
  {
    PegPower(inputs.price, inputs.sigma) - Skew(inputs.pkDebt, inputs.totalDebt, inputs.targetDebtFraction)
  }

  /** The rate for inputs whose divisors are not zero. With a non-negative
      rate0 it is non-negative; it is at most MAX_RATE when the ceiling
      adjustment applies and at most 1000 * rate0 otherwise; rate0 == 0
      gives rate 0. */
  function Rate(inputs: RateInputs, nativeExp: int -> nat): (r: int)
    requires DivisorsNonZero(inputs)
    ensures inputs.rate0 >= 0 ==> 0 <= r
    ensures CeilingApplies(inputs.debtFor, inputs.ceiling) ==> r <= MAX_RATE
    ensures inputs.rate0 >= 0 && !CeilingApplies(inputs.debtFor, inputs.ceiling) ==> r <= 1000 * inputs.rate0
    ensures inputs.rate0 == 0 ==> r == 0
  {
    CeilingAdjusted(BaseRate(inputs.rate0, Power(inputs), nativeExp), inputs.debtFor, inputs.ceiling)
  }

  // Keyword arguments.

  const DEFAULT_PRICE: int := WAD
  const DEFAULT_SIGMA: int := 20_000_000_000_000_000
  const DEFAULT_RATE0: int := 0
  const DEFAULT_TARGET_DEBT_FRACTION: int := 100_000_000_000_000_000

  /** Python's `kwargs.get(key, default)`. */
  function Arg(kwargs: map<string, int>, key: string, default: int): (v: int)
    ensures key in kwargs ==> v == kwargs[key]
    ensures key !in kwargs ==> v == default
  {
    if key in kwargs then kwargs[key] else default
  }

  /** The inputs calculate_rate reads from its keyword arguments, with their
      defaults: a given keyword is used as it is; an omitted price is the peg, an omitted sigma or target debt
      fraction is never a zero divisor, an omitted rate0 is 0, and omitting
      either debt of a pair switches its term off. */
  function InputsFromKwargs(kwargs: map<string, int>): (inputs: RateInputs)
    ensures "price" in kwargs ==> inputs.price == kwargs["price"]
    ensures "sigma" in kwargs ==> inputs.sigma == kwargs["sigma"]
    ensures "rate0" in kwargs ==> inputs.rate0 == kwargs["rate0"]
    ensures "target_debt_fraction" in kwargs ==> inputs.targetDebtFraction == kwargs["target_debt_fraction"]
    ensures "debt_for" in kwargs ==> inputs.debtFor == kwargs["debt_for"]
    ensures "total_debt" in kwargs ==> inputs.totalDebt == kwargs["total_debt"]
    ensures "pk_debt" in kwargs ==> inputs.pkDebt == kwargs["pk_debt"]
    ensures "ceiling" in kwargs ==> inputs.ceiling == kwargs["ceiling"]
    ensures "price" !in kwargs ==> inputs.price == WAD
    ensures "sigma" !in kwargs ==> inputs.sigma == DEFAULT_SIGMA > 0
    ensures "target_debt_fraction" !in kwargs ==> inputs.targetDebtFraction == DEFAULT_TARGET_DEBT_FRACTION > 0
    ensures "rate0" !in kwargs ==> inputs.rate0 == 0
    ensures "pk_debt" !in kwargs || "total_debt" !in kwargs ==> !SkewApplies(inputs.pkDebt, inputs.totalDebt)
    ensures "debt_for" !in kwargs || "ceiling" !in kwargs ==> !CeilingApplies(inputs.debtFor, inputs.ceiling)
  {
    RateInputs(
      price := Arg(kwargs, "price", DEFAULT_PRICE),
      sigma := Arg(kwargs, "sigma", DEFAULT_SIGMA),
      rate0 := Arg(kwargs, "rate0", DEFAULT_RATE0),
      targetDebtFraction := Arg(kwargs, "target_debt_fraction", DEFAULT_TARGET_DEBT_FRACTION),
      debtFor := Arg(kwargs, "debt_for", 0),
      totalDebt := Arg(kwargs, "total_debt", 0),
      pkDebt := Arg(kwargs, "pk_debt", 0),
      ceiling := Arg(kwargs, "ceiling", 0))
  }

  /** The rate, or the division by zero Python raises (sigma is divided by
      first, the target debt fraction second). */
  function CheckedRate(inputs: RateInputs, nativeExp: int -> nat): (r: Result<int>)
    ensures r == Failure(ZeroSigma) <==> inputs.sigma == 0
    ensures r == Failure(ZeroTargetDebtFraction) <==>
              inputs.sigma != 0 && SkewApplies(inputs.pkDebt, inputs.totalDebt) && inputs.targetDebtFraction == 0
    ensures r.Success? <==> DivisorsNonZero(inputs)
    ensures r.Success? ==> DivisorsNonZero(inputs) && r.value == Rate(inputs, nativeExp)
  {
    if inputs.sigma == 0 then Failure(ZeroSigma)
    else if SkewApplies(inputs.pkDebt, inputs.totalDebt) && inputs.targetDebtFraction == 0 then
      Failure(ZeroTargetDebtFraction)
    else
      Success(Rate(inputs, nativeExp))
  }

  /** calculate_rate(**kwargs): it fails only on a zero divisor that was
      passed explicitly and is actually divided by, and otherwise returns
      the rate of the inputs read from the keyword arguments. */
  function CalculateRate(kwargs: map<string, int>, nativeExp: int -> nat): (r: Result<int>)
    ensures r == Failure(ZeroSigma) <==> "sigma" in kwargs && kwargs["sigma"] == 0
    ensures r == Failure(ZeroTargetDebtFraction) ==>
              "target_debt_fraction" in kwargs && kwargs["target_debt_fraction"] == 0
    ensures r.Success? <==> DivisorsNonZero(InputsFromKwargs(kwargs))
    ensures r.Success? ==>
              DivisorsNonZero(InputsFromKwargs(kwargs)) && r.value == Rate(InputsFromKwargs(kwargs), nativeExp)
  {
    CheckedRate(InputsFromKwargs(kwargs), nativeExp)
  }
}
