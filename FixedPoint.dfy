/** Integer arithmetic at scale 10^18, with Python's rounding rules.

    Every quantity of the monetary policy is an integer standing for a real
    number multiplied by WAD = 10^18. Python's `//` rounds the exact quotient
    toward minus infinity; Dafny's `/` on `int` is Euclidean. The two agree
    for a positive divisor, and FloorDiv below spells out the negative one. */
module FixedPoint {

  /** One unit (1.0) at scale 10^18. */
  const WAD: int := 1_000_000_000_000_000_000

  /** Python's `min(a, b)` on integers. */
  function Min(a: int, b: int): (m: int)
    ensures m <= a && m <= b
    ensures m == a || m == b
  {
    if a <= b then a else b
  }

  /** Python's `a // b`: the greatest integer not above the exact quotient a / b.
      Python raises ZeroDivisionError when b == 0, hence the precondition. */
  function FloorDiv(a: int, b: int): (q: int)
    requires b != 0
    ensures b > 0 ==> q * b <= a < q * b + b
    ensures b < 0 ==> q * b + b < a <= q * b
  {
    if b > 0 then a / b else (-a) / (-b)
  }

  /** x <= y is kept when both sides are multiplied by a non-negative c. */
  lemma MulMonotone(x: int, y: int, c: int)
    requires x <= y && 0 <= c
    ensures x * c <= y * c
  {
    assert y * c - x * c == (y - x) * c;
  }

  /** The quotient FloorDiv describes is unique: any q with q * b <= a < q * b + b is it. */
  lemma FloorDivUnique(a: int, b: int, q: int)
    requires b > 0
    requires q * b <= a < q * b + b
    ensures FloorDiv(a, b) == q
  {
    var r := FloorDiv(a, b);
    if r < q {
      MulMonotone(r + 1, q, b);
    } else if r > q {
      MulMonotone(q + 1, r, b);
    }
  }

  /** Dividing a scaled product by its scale gives the factor back exactly. */
  lemma FloorDivOfMultiple(x: int, b: int)
    requires b > 0
    ensures FloorDiv(x * b, b) == x
  {
    FloorDivUnique(x * b, b, x);
  }

  /** A non-negative numerator over a positive divisor gives a non-negative quotient. */
  lemma FloorDivNonNegative(a: int, b: int)
    requires a >= 0 && b > 0
    ensures FloorDiv(a, b) >= 0
  {
    var q := FloorDiv(a, b);
    if q < 0 {
      MulMonotone(q + 1, 0, b);
    }
  }

  /** A negative numerator over a positive divisor gives a negative quotient. */
  lemma FloorDivNegative(a: int, b: int)
    requires a < 0 && b > 0
    ensures FloorDiv(a, b) < 0
  {
    var q := FloorDiv(a, b);
    if q >= 0 {
      MulMonotone(0, q, b);
    }
  }

  /** Floor division by a positive divisor is non-decreasing in the numerator. */
  lemma FloorDivMonotone(a1: int, a2: int, b: int)
    requires a1 <= a2 && b > 0
    ensures FloorDiv(a1, b) <= FloorDiv(a2, b)
  {
    var q1, q2 := FloorDiv(a1, b), FloorDiv(a2, b);
    if q1 > q2 {
      MulMonotone(q2 + 1, q1, b);
    }
  }

  /** For a non-negative numerator, floor division is non-increasing in a positive divisor. */
  lemma FloorDivAntitone(a: int, b1: int, b2: int)
    requires a >= 0 && 0 < b1 <= b2
    ensures FloorDiv(a, b2) <= FloorDiv(a, b1)
  {
    var q1, q2 := FloorDiv(a, b1), FloorDiv(a, b2);
    FloorDivNonNegative(a, b2);
    if q2 > q1 {
      MulMonotone(b1, b2, q2);
      MulMonotone(q1 + 1, q2, b1);
    }
  }
}
