/** The `System.Math` helpers the vector types call on doubles, over exact reals
    (finite values only: no NaN, no infinities, no rounding). */
module RealArith {

  /** `Math.Clamp(value, min, max)` for `min <= max`. */
  function Clamp(value: real, min: real, max: real): (r: real)
    requires min <= max
    ensures min <= r <= max
    ensures min <= value <= max ==> r == value
    ensures value < min ==> r == min
    ensures max < value ==> r == max
  {
    if value < min then min else if value > max then max else value
  }

  /** `Math.Min` on doubles. */
  function Min(a: real, b: real): (r: real)
    ensures r <= a && r <= b
    ensures r == a || r == b
  {
    if a <= b then a else b
  }

  /** `Math.Max` on doubles. */
  function Max(a: real, b: real): (r: real)
    ensures a <= r && b <= r
    ensures r == a || r == b
  {
    if a >= b then a else b
  }

  /** `Math.Sign` on a double, as a real. */
  function Sign(x: real): (r: real)
    ensures r == -1.0 || r == 0.0 || r == 1.0
    ensures (r == 0.0) == (x == 0.0)
    ensures (r == 1.0) == (x > 0.0)
  {
    if x > 0.0 then 1.0 else if x < 0.0 then -1.0 else 0.0
  }

  /** `root` is what `Math.Sqrt(s)` returns. The square root is a foreign call,
      so the operations that need it take its value as a parameter constrained by
      this predicate. */
  predicate IsRoot(root: real, s: real)
  {
    0.0 <= root && root * root == s
  }

  // Small facts about products, each proved on its own so that the vector
  // proofs only need to combine them linearly.

  lemma MulPositive(a: real, b: real)
    requires 0.0 < a && 0.0 < b
    ensures 0.0 < a * b
  {
  }

  lemma MulNonNegative(a: real, b: real)
    requires 0.0 <= a && 0.0 <= b
    ensures 0.0 <= a * b
  {
    if a != 0.0 && b != 0.0 {
      MulPositive(a, b);
    }
  }

  /** A square is never negative, and it is positive away from zero. */
  lemma Square(x: real)
    ensures 0.0 <= x * x
    ensures x != 0.0 ==> 0.0 < x * x
  {
    if x > 0.0 {
      MulPositive(x, x);
    } else if x < 0.0 {
      var y := -x;
      MulPositive(y, y);
      assert y * y == x * x;
    }
  }

  /** A sum of three squares is never negative, and it is zero only when all
      three numbers are. */
  lemma SumOfSquares(a: real, b: real, c: real)
    ensures 0.0 <= a * a + b * b + c * c
    ensures a * a + b * b + c * c == 0.0 <==> a == 0.0 && b == 0.0 && c == 0.0
  {
    Square(a);
    Square(b);
    Square(c);
    var s := a * a + b * b + c * c;
    calc { s; == a * a + b * b + c * c; >= 0.0; }
    if a != 0.0 {
      calc { s; == a * a + b * b + c * c; >= a * a; > 0.0; }
    } else if b != 0.0 {
      calc { s; == a * a + b * b + c * c; >= b * b; > 0.0; }
    } else if c != 0.0 {
      calc { s; == a * a + b * b + c * c; >= c * c; > 0.0; }
    }
  }

  /** The same for two squares. */
  lemma SumOfTwoSquares(a: real, b: real)
    ensures 0.0 <= a * a + b * b
    ensures a * a + b * b == 0.0 <==> a == 0.0 && b == 0.0
  {
    Square(a);
    Square(b);
    var s := a * a + b * b;
    calc { s; == a * a + b * b; >= 0.0; }
    if a != 0.0 {
      calc { s; == a * a + b * b; >= a * a; > 0.0; }
    } else if b != 0.0 {
      calc { s; == a * a + b * b; >= b * b; > 0.0; }
    }
  }

  /** A difference squares to the same value in either order. */
  lemma SquaredDifference(x: real, y: real)
    ensures (x - y) * (x - y) == (y - x) * (y - x)
  {
  }

  /** A product of two non-negative numbers is zero exactly when one of them is. */
  lemma ProductZero(a: real, b: real)
    requires 0.0 <= a && 0.0 <= b
    ensures a * b == 0.0 <==> a == 0.0 || b == 0.0
  {
    if a != 0.0 && b != 0.0 {
      MulPositive(a, b);
    }
  }

  /** Scaling a non-negative number by a factor in [0, 1] keeps it between zero and itself. */
  lemma ScaledBetween(a: real, t: real)
    requires 0.0 <= a && 0.0 <= t <= 1.0
    ensures 0.0 <= a * t <= a
  {
    MulNonNegative(a, t);
    MulNonNegative(a, 1.0 - t);
    assert a * (1.0 - t) == a - a * t;
  }

  /** `a + (b - a) * t`: the scalar step of every `Lerp`. */
  function Interpolate(a: real, b: real, t: real): real
  {
    a + (b - a) * t
  }

  /** For `t` in [0, 1], interpolation stays between its two end points. */
  lemma BetweenEnds(a: real, b: real, t: real)
    requires 0.0 <= t <= 1.0
    ensures Min(a, b) <= Interpolate(a, b, t) <= Max(a, b)
  {
    var step := (b - a) * t;
    assert Interpolate(a, b, t) == a + step;
    if a <= b {
      ScaledBetween(b - a, t);
      assert Min(a, b) == a && Max(a, b) == b;
    } else {
      ScaledBetween(a - b, t);
      assert step == -((a - b) * t);
      assert Min(a, b) == b && Max(a, b) == a;
    }
  }

  lemma DivMulCancel(x: real, b: real)
    requires b != 0.0
    ensures x / b * b == x
  {
  }

  /** A number whose square is at most `root * root` for a positive `root`
      lies within [-root, root], so its ratio to `root` lies within [-1, 1]. */
  lemma RatioBounded(d: real, root: real)
    requires 0.0 < root && d * d <= root * root
    ensures -1.0 <= d / root <= 1.0
  {
    if d > root {
      MulPositive(d - root, d + root);
    }
    if d < -root {
      MulPositive(-root - d, root - d);
    }
    var q := d / root;
    assert q * root == d;
    if q > 1.0 {
      MulPositive(q - 1.0, root);
    }
    if q < -1.0 {
      MulPositive(-1.0 - q, root);
    }
  }

  /** A square root is zero exactly when its square is. */
  lemma RootZero(root: real, s: real)
    requires IsRoot(root, s)
    ensures (root == 0.0) == (s == 0.0)
  {
    if root != 0.0 {
      Square(root);
      calc { s; == root * root; > 0.0; }
    }
  }
}
