/**
 * Integer helpers of the beacon chain: the floor square root computed by Newton's
 * iteration in `integer_squareroot`, and small facts about floor division.
 */
module IntegerMath {

  /** `x` is the floor square root of `n`: the largest x with x*x <= n. */
  predicate IsFloorSqrt(n: nat, x: nat) {
    x * x <= n < (x + 1) * (x + 1)
  }

  lemma SquareMonotone(a: nat, b: nat)
    requires a <= b
    ensures a * a <= b * b
  {
    assert a * a <= a * b by { MulLeMonotone(a, a, b); }
    assert a * b <= b * b by { MulLeMonotone(b, a, b); }
  }

  lemma MulLeMonotone(k: nat, a: nat, b: nat)
    requires a <= b
    ensures k * a <= k * b && a * k <= b * k
  {
  }

  /** The floor square root is unique. */
  lemma FloorSqrtUnique(n: nat, a: nat, b: nat)
    requires IsFloorSqrt(n, a) && IsFloorSqrt(n, b)
    ensures a == b
  {
    if a < b {
      SquareMonotone(a + 1, b);
    } else if b < a {
      SquareMonotone(b + 1, a);
    }
  }

  /**
   * Reference definition of the floor square root, by counting up from 0.
   * It is the function the rest of the model uses wherever the source calls
   * `integer_squareroot` from an expression.
   */
  function FloorSqrt(n: nat): (r: nat)
    ensures IsFloorSqrt(n, r)
  {
    if n == 0 then 0
    else
      var r := FloorSqrt(n - 1);
      if (r + 1) * (r + 1) <= n then
        assert n <= (r + 1) * (r + 1);
        SquareMonotone(r + 1, r + 2);
        assert (r + 1) * (r + 1) < (r + 2) * (r + 2);
        r + 1
      else r
  }

  lemma SquareExpansion(x: int, q: int)
    ensures (x + q + 1) * (x + q + 1) == (x - q - 1) * (x - q - 1) + 4 * (q * x + x - 1) + 4
  {
  }

  lemma DoubleSquare(y: int)
    ensures (2 * y) * (2 * y) == 4 * (y * y)
  {
  }

  /** One Newton step y = (x + n/x)/2 never goes below the floor square root of n. */
  lemma {:induction false} NewtonStepStaysAbove(n: nat, x: nat)
    requires x > 0
    ensures n < ((x + n / x) / 2 + 1) * ((x + n / x) / 2 + 1)
  {
    var q := n / x;
    var y := (x + q) / 2;
    DivModParts(n, x);
    assert n <= q * x + x - 1;
    var t := x + q + 1;
    var u := 2 * (y + 1);
    assert t <= u;
    SquareMonotone(t, u);
    SquareExpansion(x, q);
    SquareNonNegative(x - q - 1);
    assert t * t > 4 * n;
    DoubleSquare(y + 1);
  }

  lemma SquareNonNegative(z: int)
    ensures z * z >= 0
  {
    if z < 0 {
      MulLeMonotone(-z, 0, -z);
      assert z * z == (-z) * (-z);
    } else {
      MulLeMonotone(z, 0, z);
    }
  }

  /** For n > 0 a Newton step from a positive x stays positive, so n/x stays defined. */
  lemma NewtonStepPositive(n: nat, x: nat)
    requires n > 0 && x > 0
    ensures (x + n / x) / 2 > 0
  {
    if x == 1 {
      assert n / x == n;
    }
  }

  /** When a Newton step no longer decreases x, x is at most the square root. */
  lemma NewtonStepStalls(n: nat, x: nat)
    requires x > 0 && x <= (x + n / x) / 2
    ensures x * x <= n
  {
    assert x <= n / x;
    MulLeMonotone(x, x, n / x);
    assert n == x * (n / x) + n % x;
  }

  /**
   * `integer_squareroot`: Newton's iteration from x = n. Each pass moves x down
   * to y = (x + n/x)/2 while that is smaller; the loop stops at the floor square root.
   */
  method IntegerSquareRoot(n: nat) returns (x: nat)
    ensures IsFloorSqrt(n, x)
    ensures x == FloorSqrt(n)
  {
    x := n;
    var y := (x + 1) / 2;
    if n > 0 {
      assert n / n == 1;
    }
    while y < x
      invariant n < (x + 1) * (x + 1)
      invariant n == 0 ==> x == 0 && y == 0
      invariant n > 0 ==> x > 0 && y > 0 && y == (x + n / x) / 2
      decreases x
    {
      NewtonStepStaysAbove(n, x);
      x := y;
      NewtonStepPositive(n, x);
      y := (x + n / x) / 2;
    }
    if n > 0 {
      NewtonStepStalls(n, x);
    }
    FloorSqrtUnique(n, x, FloorSqrt(n));
  }

  /** Floor division is monotone in the dividend. */
  lemma DivMonotone(a: nat, b: nat, d: nat)
    requires a <= b && d > 0
    ensures a / d <= b / d
  {
    DivLowerBound(b, d, a / d);
  }

  /** Floor division is antitone in the divisor. */
  lemma DivAntitone(a: nat, d1: nat, d2: nat)
    requires 0 < d1 <= d2
    ensures a / d2 <= a / d1
  {
    var q := a / d2;
    MulLeMonotone(q, d1, d2);
    DivLowerBound(a, d1, q);
  }

  /** The quotient times the divisor is a natural number no larger than the dividend. */
  lemma DivMulBelow(a: nat, d: nat)
    requires d > 0
    ensures 0 <= (a / d) * d <= a
  {
    MulLeMonotone(d, 0, a / d);
  }

  /** Floor division splits the dividend into the quotient times the divisor and a remainder below the divisor. */
  lemma DivModParts(a: nat, d: nat)
    requires d > 0
    ensures a == (a / d) * d + a % d && 0 <= a % d < d
  {
  }

  /** Multiplication distributes over addition. */
  lemma MulAddDistributes(x: int, y: int, d: int)
    ensures (x + y) * d == x * d + y * d
  {
  }

  /** If q*d <= a then q <= a/d. */
  lemma DivLowerBound(a: nat, d: nat, q: nat)
    requires d > 0 && q * d <= a
    ensures q <= a / d
  {
    var m := a / d;
    assert a < (m + 1) * d;
    if q > m {
      MulLeMonotone(d, m + 1, q);
    }
  }

  /** If a < q*d then a/d < q. */
  lemma DivUpperBound(a: nat, d: nat, q: nat)
    requires d > 0 && a < q * d
    ensures a / d < q
  {
    var m := a / d;
    assert m * d <= a;
    if m >= q {
      MulLeMonotone(d, q, m);
    }
  }

  lemma DivUnique(a: nat, d: nat, q: nat, r: nat)
    requires d > 0 && r < d && a == q * d + r
    ensures a / d == q && a % d == r
  {
    DivLowerBound(a, d, q);
    assert a < (q + 1) * d;
    DivUpperBound(a, d, q + 1);
  }

  /** A remainder between d and 2d carries one more into the quotient. */
  lemma DivUniqueCarry(a: nat, d: nat, q: nat, r: nat)
    requires d > 0 && d <= r < 2 * d && a == q * d + r
    ensures a / d == q + 1
  {
    MulAddDistributes(q, 1, d);
    DivUnique(a, d, q + 1, r - d);
  }

  function Min(a: int, b: int): int { if a <= b then a else b }
  function Max(a: int, b: int): int { if a >= b then a else b }
}
