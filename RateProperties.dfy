/** What the rate formula of AggMonetaryPolicy3 guarantees: where each step
    is zero, bounded or capped, which way it moves when one input moves, and
    the behaviour at the peg. Facts about the native
    exponential (e^0 == 1, monotonicity) are hypotheses of the lemmas that
    need them, never built into the model. */
module RateProperties {
  import opened FixedPoint
  import opened AggMonetaryPolicy3

  // The exponential.

  /** exp(0) is 1.0 when the native exponential gives 1.0 at 0. */
  lemma ExpAtZero(nativeExp: int -> nat)
    requires NativeExpAtZeroIsOne(nativeExp)
    ensures Exp(0, nativeExp) == WAD
  {
  }

  /** A native exponential that never decreases from one power to the next
      is non-decreasing over any distance. */
  lemma {:induction false} NativeExpOrdered(nativeExp: int -> nat, p1: int, p2: int)
    requires NativeExpMonotone(nativeExp)
    requires p1 <= p2
    ensures nativeExp(p1) <= nativeExp(p2)
    decreases p2 - p1
  {
    if p1 < p2 {
      NativeExpOrdered(nativeExp, p1, p2 - 1);
      assert nativeExp(p2 - 1) <= nativeExp(p2);
    }
  }

  /** The saturated exp is non-decreasing when the native exponential is. */
  lemma ExpNonDecreasing(nativeExp: int -> nat, p1: int, p2: int)
    requires NativeExpMonotone(nativeExp)
    requires p1 <= p2
    ensures Exp(p1, nativeExp) <= Exp(p2, nativeExp)
  {
    if EXP_ZERO_BELOW < p1 && p2 < EXP_SATURATE_ABOVE {
      NativeExpOrdered(nativeExp, p1, p2);
    }
  }

  // Step 1: the peg-deviation power.

  /** The power does not grow as the price grows. */
  lemma PegPowerAntitone(p1: int, p2: int, sigma: int)
    requires sigma > 0 && p1 <= p2
    ensures PegPower(p2, sigma) <= PegPower(p1, sigma)
  {
    FloorDivMonotone((WAD - p2) * WAD, (WAD - p1) * WAD, sigma);
  }

  // Step 2: the peg-keeper skew.

  /** When the peg keepers hold all the debt and the target fraction is at
      most 1.0, the skew takes at least 1.0 off the power, and more than 1.0
      when the target is below 1.0. */
  lemma FullPegKeeperShare(debt: int, targetDebtFraction: int)
    requires debt > 0 && 0 < targetDebtFraction <= MAX_TARGET_DEBT_FRACTION
    ensures Skew(debt, debt, targetDebtFraction) >= WAD
    ensures targetDebtFraction < WAD ==> Skew(debt, debt, targetDebtFraction) > WAD
  {
    FloorDivOfMultiple(WAD, debt);
    assert FloorDiv(debt * WAD, debt) == WAD;
    FloorDivOfMultiple(WAD, WAD);
    FloorDivAntitone(WAD * WAD, targetDebtFraction, WAD);
    if targetDebtFraction < WAD {
      FloorDivUnique(WAD * WAD, WAD - 1, WAD + 1);
      FloorDivAntitone(WAD * WAD, targetDebtFraction, WAD - 1);
    }
  }

  // Step 3: the base rate scaled by exp.

  /** With a monotone native exponential, the scaled rate grows with the power. */
  lemma BaseRateMonotone(rate0: int, p1: int, p2: int, nativeExp: int -> nat)
    requires rate0 >= 0 && p1 <= p2
    requires NativeExpMonotone(nativeExp)
    ensures BaseRate(rate0, p1, nativeExp) <= BaseRate(rate0, p2, nativeExp)
  {
    ExpNonDecreasing(nativeExp, p1, p2);
    var e1, e2 := Min(Exp(p1, nativeExp), MAX_EXP), Min(Exp(p2, nativeExp), MAX_EXP);
    MulMonotone(e1, e2, rate0);
    FloorDivMonotone(rate0 * e1, rate0 * e2, WAD);
  }

  // Step 4: the ceiling adjustment.

  /** Utilisation grows with the market's debt. */
  lemma UtilizationMonotone(d1: int, d2: int, ceiling: int)
    requires ceiling > 0 && d1 <= d2
    ensures Utilization(d1, ceiling) <= Utilization(d2, ceiling)
  {
    FloorDivMonotone(d1 * WAD, d2 * WAD, ceiling);
  }

  /** The multiplier grows with the utilisation. */
  lemma CeilingMultiplierMonotone(f1: int, f2: int)
    requires f1 <= f2 <= MAX_UTILIZATION
    ensures CeilingMultiplier(f1) <= CeilingMultiplier(f2)
  {
    FloorDivAntitone(TARGET_REMAINDER * WAD, WAD - f2, WAD - f1);
  }

  /** The adjustment keeps the order of two rates. */
  lemma CeilingAdjustedMonotoneInRate(r1: int, r2: int, debtFor: int, ceiling: int)
    requires r1 <= r2
    ensures CeilingAdjusted(r1, debtFor, ceiling) <= CeilingAdjusted(r2, debtFor, ceiling)
  {
    if CeilingApplies(debtFor, ceiling) {
      var f := Utilization(debtFor, ceiling);
      var m := CeilingMultiplier(f);
      MulMonotone(r1, r2, m);
      FloorDivMonotone(r1 * m, r2 * m, WAD);
    }
  }

  /** For a non-negative rate, the adjusted rate grows with the market's debt. */
  lemma CeilingAdjustedMonotoneInDebt(rate: int, d1: int, d2: int, ceiling: int)
    requires rate >= 0 && ceiling > 0 && 0 < d1 <= d2
    ensures CeilingAdjusted(rate, d1, ceiling) <= CeilingAdjusted(rate, d2, ceiling)
  {
    var f1, f2 := Utilization(d1, ceiling), Utilization(d2, ceiling);
    UtilizationMonotone(d1, d2, ceiling);
    CeilingMultiplierMonotone(f1, f2);
    var m1, m2 := CeilingMultiplier(f1), CeilingMultiplier(f2);
    MulMonotone(m1, m2, rate);
    FloorDivMonotone(rate * m1, rate * m2, WAD);
  }

  /** At or above full utilisation the clamp fixes the multiplier at 1000.9. */
  lemma FullUtilization(rate: int, debtFor: int, ceiling: int)
    requires 0 < ceiling <= debtFor
    ensures CeilingAdjusted(rate, debtFor, ceiling)
              == Min(FloorDiv(rate * 1000_900_000_000_000_000_000, WAD), MAX_RATE)
  {
    FloorDivOfMultiple(1000 * WAD, TARGET_REMAINDER / 1000);
    assert CeilingMultiplier(MAX_UTILIZATION) == 1000_900_000_000_000_000_000;
  }

  // The whole formula.

  /** Without the ceiling adjustment nothing caps the rate at MAX_RATE: far
      below the peg, exp saturates and the rate is 1000 times rate0. */
  lemma UncappedWithoutCeiling(nativeExp: int -> nat)
    ensures var inputs := RateInputs(0, MIN_SIGMA, MAX_RATE, MAX_TARGET_DEBT_FRACTION, 0, 0, 0, 0);
            Rate(inputs, nativeExp) == 1000 * MAX_RATE > MAX_RATE
  {
    var inputs := RateInputs(0, MIN_SIGMA, MAX_RATE, MAX_TARGET_DEBT_FRACTION, 0, 0, 0, 0);
    FloorDivOfMultiple(10_000 * WAD, MIN_SIGMA);
    assert Power(inputs) == 10_000 * WAD;
  }

  /** At the peg, with no peg-keeper skew and no ceiling adjustment, the
      power is 0 and the rate is exactly rate0. */
  lemma RateAtPeg(inputs: RateInputs, nativeExp: int -> nat)
    requires DivisorsNonZero(inputs)
    requires inputs.price == WAD
    requires !SkewApplies(inputs.pkDebt, inputs.totalDebt)
    requires !CeilingApplies(inputs.debtFor, inputs.ceiling)
    requires NativeExpAtZeroIsOne(nativeExp)
    ensures Power(inputs) == 0
    ensures Rate(inputs, nativeExp) == inputs.rate0
  {
    assert PegPower(WAD, inputs.sigma) == 0;
    FloorDivOfMultiple(inputs.rate0, WAD);
  }

  /** Away from the peg (no skew, no ceiling adjustment, a monotone native
      exponential with e^0 == 1): below the peg the rate is at least rate0,
      above it at most rate0. */
  lemma RateAroundPeg(inputs: RateInputs, nativeExp: int -> nat)
    requires DivisorsNonZero(inputs) && inputs.sigma > 0 && inputs.rate0 >= 0
    requires !SkewApplies(inputs.pkDebt, inputs.totalDebt)
    requires !CeilingApplies(inputs.debtFor, inputs.ceiling)
    requires NativeExpAtZeroIsOne(nativeExp) && NativeExpMonotone(nativeExp)
    ensures inputs.price <= WAD ==> Rate(inputs, nativeExp) >= inputs.rate0
    ensures inputs.price >= WAD ==> Rate(inputs, nativeExp) <= inputs.rate0
  {
    FloorDivOfMultiple(inputs.rate0, WAD);
    assert BaseRate(inputs.rate0, 0, nativeExp) == inputs.rate0;
    if inputs.price <= WAD {
      BaseRateMonotone(inputs.rate0, 0, Power(inputs), nativeExp);
    }
    if inputs.price >= WAD {
      BaseRateMonotone(inputs.rate0, Power(inputs), 0, nativeExp);
    }
  }

  /** The peg-keeper skew never raises the rate: the rate with peg-keeper
      debt is at most the rate of the same inputs without it. */
  lemma SkewLowersRate(inputs: RateInputs, nativeExp: int -> nat)
    requires DivisorsNonZero(inputs) && inputs.targetDebtFraction > 0 && inputs.rate0 >= 0
    requires NativeExpMonotone(nativeExp)
    ensures Power(inputs) <= Power(inputs.(pkDebt := 0))
    ensures Rate(inputs, nativeExp) <= Rate(inputs.(pkDebt := 0), nativeExp)
  {
    var without := inputs.(pkDebt := 0);
    assert Power(without) == PegPower(inputs.price, inputs.sigma);
    BaseRateMonotone(inputs.rate0, Power(inputs), Power(without), nativeExp);
    CeilingAdjustedMonotoneInRate(
      BaseRate(inputs.rate0, Power(inputs), nativeExp),
      BaseRate(inputs.rate0, Power(without), nativeExp),
      inputs.debtFor, inputs.ceiling);
  }

  /** The rate does not grow as the price grows (a monotone native exponential assumed). */
  lemma RateMonotoneInPrice(inputs: RateInputs, p1: int, p2: int, nativeExp: int -> nat)
    requires DivisorsNonZero(inputs) && inputs.sigma > 0 && inputs.rate0 >= 0
    requires NativeExpMonotone(nativeExp)
    requires p1 <= p2
    ensures Rate(inputs.(price := p2), nativeExp) <= Rate(inputs.(price := p1), nativeExp)
  {
    var low, high := inputs.(price := p1), inputs.(price := p2);
    PegPowerAntitone(p1, p2, inputs.sigma);
    assert Power(high) <= Power(low);
    BaseRateMonotone(inputs.rate0, Power(high), Power(low), nativeExp);
    CeilingAdjustedMonotoneInRate(
      BaseRate(inputs.rate0, Power(high), nativeExp),
      BaseRate(inputs.rate0, Power(low), nativeExp),
      inputs.debtFor, inputs.ceiling);
  }

  /** With a ceiling, the rate grows with the market's (positive) debt. */
  lemma RateMonotoneInDebt(inputs: RateInputs, d1: int, d2: int, nativeExp: int -> nat)
    requires DivisorsNonZero(inputs) && inputs.rate0 >= 0 && inputs.ceiling > 0
    requires 0 < d1 <= d2
    ensures Rate(inputs.(debtFor := d1), nativeExp) <= Rate(inputs.(debtFor := d2), nativeExp)
  {
    var pre := BaseRate(inputs.rate0, Power(inputs), nativeExp);
    assert Power(inputs.(debtFor := d1)) == Power(inputs) == Power(inputs.(debtFor := d2));
    CeilingAdjustedMonotoneInDebt(pre, d1, d2, inputs.ceiling);
  }

  /** Going from no debt to some debt under a ceiling never lowers a rate
      below MAX_RATE; it does lower a rate above MAX_RATE to MAX_RATE. */
  lemma RateFromNoDebt(inputs: RateInputs, debt: int, nativeExp: int -> nat)
    requires DivisorsNonZero(inputs) && inputs.rate0 >= 0 && inputs.ceiling > 0 && debt > 0
    ensures Min(Rate(inputs.(debtFor := 0), nativeExp), MAX_RATE) <= Rate(inputs.(debtFor := debt), nativeExp)
  {
    assert Power(inputs.(debtFor := 0)) == Power(inputs) == Power(inputs.(debtFor := debt));
  }

  /** So the rate is not monotone in the debt from 0 on: a rate of
      1000 * MAX_RATE without debt falls to MAX_RATE with the smallest debt. */
  lemma FirstDebtCanLowerRate(nativeExp: int -> nat)
    ensures var inputs := RateInputs(0, MIN_SIGMA, MAX_RATE, MAX_TARGET_DEBT_FRACTION, 0, 0, 0, WAD);
            Rate(inputs, nativeExp) == 1000 * MAX_RATE && Rate(inputs.(debtFor := 1), nativeExp) == MAX_RATE
  {
    var inputs := RateInputs(0, MIN_SIGMA, MAX_RATE, MAX_TARGET_DEBT_FRACTION, 0, 0, 0, WAD);
    FloorDivOfMultiple(10_000 * WAD, MIN_SIGMA);
    assert Power(inputs) == 10_000 * WAD;
  }

  // Keyword arguments and the error path.

  /** Called without arguments, calculate_rate uses the defaults, none of
      which is a zero divisor. */
  lemma DefaultArguments(nativeExp: int -> nat)
    ensures InputsFromKwargs(map[]) == RateInputs(DEFAULT_PRICE, DEFAULT_SIGMA, DEFAULT_RATE0, DEFAULT_TARGET_DEBT_FRACTION, 0, 0, 0, 0)
    ensures CalculateRate(map[], nativeExp).Success?
  {
  }

  /** rate0 defaults to 0, so a call that does not give it returns 0
      whenever it returns. */
  lemma OmittedBaseRate(kwargs: map<string, int>, nativeExp: int -> nat)
    requires "rate0" !in kwargs
    ensures CalculateRate(kwargs, nativeExp).Success? ==> CalculateRate(kwargs, nativeExp).value == 0
  {
  }

  /** At the peg, with only the policy parameters given, calculate_rate
      returns rate0 exactly. */
  lemma CalculateRateAtPeg(rate0: int, nativeExp: int -> nat)
    requires NativeExpAtZeroIsOne(nativeExp)
    ensures CalculateRate(map["price" := WAD, "sigma" := 2 * 10_000_000_000_000_000,
                              "rate0" := rate0, "target_debt_fraction" := 5 * TARGET_REMAINDER],
                          nativeExp) == Success(rate0)
  {
    var kwargs := map["price" := WAD, "sigma" := 2 * 10_000_000_000_000_000,
                      "rate0" := rate0, "target_debt_fraction" := 5 * TARGET_REMAINDER];
    var inputs := InputsFromKwargs(kwargs);
    assert inputs == RateInputs(WAD, 2 * 10_000_000_000_000_000, rate0, 5 * TARGET_REMAINDER, 0, 0, 0, 0);
    RateAtPeg(inputs, nativeExp);
  }
}
