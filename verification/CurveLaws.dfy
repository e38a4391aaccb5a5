/** Closure, identity, inverses and commutativity of the affine addition, for every odd prime modulus. */
module CurveLaws {
  import opened Arithmetic
  import opened ModularInverse
  import opened Wrappers
  import opened Curve

  lemma SlopeCongruent(p: int, dx: int, dy: int, x: int, y: int, inv: int, slope: int)
    requires Congruent(dx, x, p) && Congruent(dy, y, p)
    requires Congruent(dx * inv, 1, p) && Congruent(slope, dy * inv, p)
    ensures Congruent(slope * x, y, p)
  {
    DividesCombination(p, x, slope - dy * inv, -dy * inv, dx - x);
    var a := x * (slope - dy * inv) + -dy * inv * (dx - x);
    DividesCombination(p, dy, dx * inv - 1, 1, dy - y);
    var b := dy * (dx * inv - 1) + 1 * (dy - y);
    DividesCombination(p, 1, a, 1, b);
    assert a == slope * x - x * (dy * inv) - dy * inv * dx + dy * inv * x;
    assert b == dy * inv * dx - y;
  }

  lemma SecantOfChord(p: int, x1: int, y1: int, x2: int, y2: int, slope: int, inv: int)
    requires Congruent(y1 * y1, x1 * x1 * x1 + 7, p) && Congruent(y2 * y2, x2 * x2 * x2 + 7, p)
    requires Congruent(slope * (x2 - x1), y2 - y1, p)
    requires Congruent((x2 - x1) * inv, 1, p)
    ensures Divides(p, Secant(x1, y1, slope, x2))
  {
    var t := slope * (x2 - x1) + y1;
    LineMinusCurveFactors(x1, y1, slope, x2);
    // t is congruent to y2
    DividesCombination(p, t + y2, t - y2, 1, y2 * y2 - (x2 * x2 * x2 + 7));
    assert (t + y2) * (t - y2) == t * t - y2 * y2;
    var e := t * t - x2 * x2 * x2 - 7;
    DividesCombination(p, 1, e, -1, y1 * y1 - (x1 * x1 * x1 + 7));
    Cancel(p, x2 - x1, inv, Secant(x1, y1, slope, x2));
  }

  lemma RunNotDivisible(p: int, x1: int, x2: int, dx: int)
    requires 0 <= x1 < p && 0 <= x2 < p && x1 != x2 && 0 <= dx < p && Congruent(dx, x2 - x1, p)
    ensures dx >= 1 && !Divides(p, dx)
  {
    if dx == 0 {
      CongruentSymmetric(dx, x2 - x1, p);
      SmallMultipleIsZero(p, x2 - x1);
    }
    if Divides(p, dx) {
      SmallMultipleIsZero(p, dx);
    }
  }

  /** The inverse of the reduced run is an inverse of the run. */
  lemma RunInverse(p: int, dx: int, x: int, inv: int)
    requires Congruent(dx, x, p) && Congruent(dx * inv, 1, p)
    ensures Congruent(x * inv, 1, p)
  {
    hide Divides;
    DividesCombination(p, -inv, dx - x, 1, dx * inv - 1);
    assert -inv * (dx - x) + 1 * (dx * inv - 1) == x * inv - 1;
  }

  /** A slope by the inverse of the reduced run solves the equation of the chord. */
  lemma ChordSlope(p: int, run: int, rise: int, inv: int, slope: int)
    requires p > 1 && IsInverse(Mod(run, p), p, inv) && slope == Mod(Mod(rise, p) * inv, p)
    ensures Congruent(slope * run, rise, p) && Congruent(run * inv, 1, p)
  {
    hide Divides, Mod;
    SlopeCongruent(p, Mod(run, p), Mod(rise, p), run, rise, inv, slope);
    RunInverse(p, Mod(run, p), run, inv);
  }

  /** What a completed chord addition computed. */
  lemma AddGeneric(p: int, a: Point, b: Point) returns (slope: int, inv: int, r: Point)
    requires Prime(p) && OnCurve(p, a) && OnCurve(p, b) && a.x != b.x
    requires !a.IsInfinity() && !b.IsInfinity()
    ensures EcAdd(p, a, b) == Ok(r) && 0 <= r.x < p && 0 <= r.y < p && 0 <= slope < p
    ensures Congruent(slope * (b.x - a.x), b.y - a.y, p) && Congruent((b.x - a.x) * inv, 1, p)
    ensures Congruent(r.x, slope * slope - a.x - b.x, p)
    ensures Congruent(r.y, slope * (a.x - r.x) - a.y, p)
  {
    hide Congruent, EcDouble, Mod, IsInverse;
    var dx := Mod(b.x - a.x, p);
    RunNotDivisible(p, a.x, b.x, dx);
    inv := InverseModPrime(dx, p);
    slope := Mod(Mod(b.y - a.y, p) * inv, p);
    ChordSlope(p, b.x - a.x, b.y - a.y, inv, slope);
    r := EcAdd(p, a, b).value;
  }

  /** What a completed doubling computed, when y is not zero. */
  lemma DoubleGeneric(p: int, a: Point) returns (slope: int, r: Point)
    requires Prime(p) && p > 2 && OnCurve(p, a) && a.y != 0
    ensures EcDouble(p, a) == Ok(r) && 0 <= r.x < p && 0 <= r.y < p
    ensures Congruent(slope * (2 * a.y), 3 * (a.x * a.x), p)
    ensures Congruent(r.x, slope * slope - a.x - a.x, p)
    ensures Congruent(r.y, slope * (a.x - r.x) - a.y, p)
  {
    if Divides(p, 2 * a.y) {
      PrimeProduct(p, 2, a.y);
      SmallMultipleIsZero(p, if Divides(p, 2) then 2 else a.y);
    }
    var inv := InverseModPrime(2 * a.y, p);
    var num := Mod(3 * (a.x * a.x), p);
    slope := Mod(num * inv, p);
    DividesIntro(p, 2 * a.y - 2 * a.y, 0);
    SlopeCongruent(p, 2 * a.y, num, 2 * a.y, 3 * (a.x * a.x), inv, slope);
    r := EcDouble(p, a).value;
  }

  // ----- closure -----

  lemma VanishingSecantOnCurve(p: int, r: Point, k: int, s: int)
    requires 0 <= r.x < p && 0 <= r.y < p
    requires Divides(p, s) && Congruent(r.y * r.y - (r.x * r.x * r.x + 7), k * s, p)
    ensures OnCurve(p, r)
  {
    DividesCombination(p, 1, r.y * r.y - (r.x * r.x * r.x + 7) - k * s, k, s);
  }

  /** Doubling a point with y != 0 succeeds and stays on the curve. */
  lemma EcDoubleClosed(p: int, a: Point)
    requires Prime(p) && p > 2 && OnCurve(p, a) && a.y != 0
    ensures EcDouble(p, a).Ok? && OnCurve(p, EcDouble(p, a).value)
  {
    hide Divides, EcDouble, Secant;
    var slope, r := DoubleGeneric(p, a);
    ThirdPoint(p, a.x, a.y, a.x, slope, r.x, r.y);
    TangentSecant(a.x, a.y, slope);
    VanishingSecantOnCurve(p, r, r.x - a.x, Secant(a.x, a.y, slope, a.x));
  }

  /** The secant at the point itself vanishes when the slope is that of the tangent. */
  lemma TangentSecant(x: int, y: int, slope: int)
    ensures Secant(x, y, slope, x) == slope * (2 * y) - 3 * (x * x)
  {
  }

  /** Adding any two valid points succeeds with a valid point, unless a point with y = 0 is doubled. */
  lemma EcAddClosed(p: int, a: Point, b: Point)
    requires Prime(p) && p > 2 && Valid(p, a) && Valid(p, b)
    requires a == b ==> a.y != 0 || a.IsInfinity()
    ensures EcAdd(p, a, b).Ok? && Valid(p, EcAdd(p, a, b).value)
  {
    if a.IsInfinity() || b.IsInfinity() {
    } else if a == b {
      EcDoubleClosed(p, a);
    } else if a.x != b.x {
      var slope, inv, r := AddGeneric(p, a, b);
      SecantOfChord(p, a.x, a.y, b.x, b.y, slope, inv);
      ThirdPoint(p, a.x, a.y, b.x, slope, r.x, r.y);
      VanishingSecantOnCurve(p, r, r.x - a.x, Secant(a.x, a.y, slope, b.x));
    }
  }

  // ----- doubling a point with y = 0 -----

  /** Doubling a point with y = 0 asks for the inverse of 0, is given 1, and so uses 3x^2 as the slope. */
  lemma DoubleOfOrderTwo(p: int, a: Point) returns (slope: int, r: Point)
    requires p > 2 && OnCurve(p, a) && a.y == 0 && a.x != 0
    ensures EcDouble(p, a) == Ok(r) && 0 <= r.x < p && 0 <= r.y < p
    ensures Congruent(slope, 3 * (a.x * a.x), p)
    ensures Congruent(r.x, slope * slope - a.x - a.x, p)
    ensures Congruent(r.y, slope * (a.x - r.x) - a.y, p)
  {
    slope := Mod(Mod(3 * (a.x * a.x), p) * 1, p);
    CongruentTransitive(slope, Mod(3 * (a.x * a.x), p), 3 * (a.x * a.x), p);
    r := EcDouble(p, a).value;
  }

  /** A prime dividing 22 is 2 or 11, and one dividing 3 is 3. */
  lemma SmallPrimes(p: int)
    requires Prime(p) && p > 2
    ensures Divides(p, 22) ==> p == 11
    ensures Divides(p, 3) ==> p == 3
  {
    if Divides(p, 22) {
      PrimeProduct(p, 2, 11);
      DividesBound(p, if Divides(p, 2) then 2 else 11);
    }
    if Divides(p, 3) {
      DividesBound(p, 3);
    }
  }

  lemma PrimeProductOfFour(p: int, a: int, x: int, b: int)
    requires Prime(p) && Divides(p, a * (x * x) * b)
    ensures Divides(p, a) || Divides(p, x) || Divides(p, b)
  {
    PrimeProduct(p, a * (x * x), b);
    if !Divides(p, b) {
      PrimeProduct(p, a, x * x);
      if !Divides(p, a) {
        PrimeProduct(p, x, x);
      }
    }
  }

  /** If the abscissa of the doubled point comes back to x, then p divides 66x. */
  lemma FixedAbscissaMultiple(p: int, x: int, slope: int, x3: int)
    requires Congruent(0, x * x * x + 7, p)
    requires Congruent(slope, 3 * (x * x), p) && Congruent(x3, slope * slope - x - x, p)
    requires Divides(p, x3 - x)
    ensures Divides(p, -66 * x)
  {
    hide Divides;
    var c, m, k := x * x * x + 7, slope * slope, slope + 3 * (x * x);
    var l := slope - 3 * (x * x);
    DividesCombination(p, 1, x3 - x, -1, x3 - (m - x - x));
    DividesCombination(p, -k, l, 9 * x, 0 - c);
    FixedAbscissaAlgebra(x, slope);
    DividesCombination(p, 1, m - 3 * x, 1, -m - 63 * x);
  }

  lemma FixedAbscissaAlgebra(x: int, slope: int)
    ensures var k, l := slope + 3 * (x * x), slope - 3 * (x * x);
            -k * l + 9 * x * (0 - (x * x * x + 7)) == -(slope * slope) - 63 * x
  {
    FourthPower(x, slope);
    assert 9 * x * (0 - (x * x * x + 7)) == -9 * (x * (x * x * x)) - 63 * x;
  }

  lemma FixedAbscissa(p: int, x: int, slope: int, x3: int)
    requires Prime(p) && p > 2 && 0 < x < p
    requires Congruent(0, x * x * x + 7, p)
    requires Congruent(slope, 3 * (x * x), p) && Congruent(x3, slope * slope - x - x, p)
    requires Divides(p, x3 - x)
    ensures p == 3 || p == 11
  {
    FixedAbscissaMultiple(p, x, slope, x3);
    PrimeProduct(p, -66, x);
    if Divides(p, x) {
      DividesBound(p, x);
    }
    DividesCombination(p, -1, -66, 0, 0);
    PrimeProduct(p, 3, 22);
    SmallPrimes(p);
  }

  lemma FourthPower(x: int, slope: int)
    ensures (slope + 3 * (x * x)) * (slope - 3 * (x * x)) == slope * slope - 9 * (x * (x * x * x))
  {
    var t := x * x;
    assert (slope + 3 * t) * (slope - 3 * t) == slope * slope - 9 * (t * t);
    assert t * t == x * (x * x * x);
  }

  /** The doubled point cannot be (0, 0) either, unless p is 3. */
  lemma OrderTwoNotInfinity(p: int, x: int, slope: int)
    requires Prime(p) && p > 2 && 0 < x < p
    requires Congruent(slope, 3 * (x * x), p) && Divides(p, slope * x)
    ensures p == 3
  {
    DividesCombination(p, 1, slope * x, -x, slope - 3 * (x * x));
    assert 1 * (slope * x) + -x * (slope - 3 * (x * x)) == 3 * (x * x) * x;
    PrimeProductOfFour(p, 3, x, x);
    if Divides(p, x) {
      DividesBound(p, x);
    }
    SmallPrimes(p);
  }

  lemma RootsOfTheCubic(p: int, x: int)
    requires (p == 3 || p == 11) && 0 <= x < p && Congruent(0, x * x * x + 7, p)
    ensures x == if p == 3 then 2 else 5
  {
    if x == 0 {} else if x == 1 {} else if x == 2 {} else if x == 3 {} else if x == 4 {}
    else if x == 6 {} else if x == 7 {} else if x == 8 {} else if x == 9 {} else if x == 10 {}
  }

  lemma SlopeSquare(p: int, x: int, slope: int, m: int)
    requires Congruent(slope, m, p) && Divides(p, m * m - 3 * x)
    ensures Divides(p, slope * slope - 3 * x)
  {
    hide Divides;
    DividesCombination(p, slope + m, slope - m, 1, m * m - 3 * x);
    assert (slope + m) * (slope - m) == slope * slope - m * m;
  }

  /** With a slope whose square is 3x, a point with y = 0 doubles to itself. */
  lemma DoublesToItself(p: int, a: Point, slope: int, r: Point, m: int)
    requires 0 <= a.x < p && a.y == 0 && 0 <= r.x < p && 0 <= r.y < p
    requires Congruent(slope, m, p) && Divides(p, m * m - 3 * a.x)
    requires Congruent(r.x, slope * slope - a.x - a.x, p)
    requires Congruent(r.y, slope * (a.x - r.x) - a.y, p)
    ensures r == a
  {
    hide Divides;
    SlopeSquare(p, a.x, slope, m);
    DividesCombination(p, 1, r.x - (slope * slope - a.x - a.x), 1, slope * slope - 3 * a.x);
    CongruentInRange(r.x, a.x, p);
    assert slope * (a.x - r.x) == 0;
    CongruentInRange(r.y, 0, p);
  }

  /** On p = 3 and p = 11 the only points with y = 0 double to themselves. */
  lemma OrderTwoExceptions(p: int, a: Point)
    requires (p == 3 || p == 11) && OnCurve(p, a) && a.y == 0
    ensures EcDouble(p, a) == Ok(a)
  {
    hide Divides, EcDouble;
    RootsOfTheCubic(p, a.x);
    var slope, r := DoubleOfOrderTwo(p, a);
    if p == 3 {
      DividesIntro(3, 138, 46);
      DoublesToItself(3, a, slope, r, 12);
    } else {
      DividesIntro(11, 5610, 510);
      DoublesToItself(11, a, slope, r, 75);
    }
  }

  /**
   * On a point of the curve, doubling always returns a result; the result is valid exactly when y is not
   * zero, apart from the moduli 3 and 11.
   */
  lemma EcDoubleClosedIff(p: int, a: Point)
    requires Prime(p) && p > 2 && OnCurve(p, a) && !a.IsInfinity()
    ensures EcDouble(p, a).Ok?
    ensures Valid(p, EcDouble(p, a).value) <==> a.y != 0 || p == 3 || p == 11
  {
    if a.y != 0 {
      EcDoubleClosed(p, a);
    } else if p == 3 || p == 11 {
      OrderTwoExceptions(p, a);
    } else {
      var slope, r := DoubleOfOrderTwo(p, a);
      if Valid(p, r) {
        DoubleOfOrderTwoInvalid(p, a, slope, r);
      }
    }
  }

  lemma PrimeFive()
    ensures Prime(5)
  {
    forall d | 1 < d < 5
      ensures !Divides(d, 5)
    {
      if d == 2 {} else if d == 3 {} else if d == 4 {}
    }
  }

  /** Such a point: modulo 5 the double of (2, 0) is (0, 4), which is not on the curve. */
  lemma DoubleLeavesCurve()
    ensures Prime(5) && OnCurve(5, Point(2, 0))
    ensures EcDouble(5, Point(2, 0)) == Ok(Point(0, 4)) && !Valid(5, Point(0, 4))
  {
    PrimeFive();
    hide Divides, Prime, ModInverse, Mod;
    DividesIntro(5, 0 - 15, -3);
    ModInverseOutsideLoop(0, 5);
    if Divides(5, 16 - 7) {
      var k := DividesElim(5, 9);
    }
  }

  lemma DoubleOfOrderTwoInvalid(p: int, a: Point, slope: int, r: Point)
    requires Prime(p) && p > 2 && OnCurve(p, a) && a.y == 0 && a.x != 0 && Valid(p, r)
    requires Congruent(slope, 3 * (a.x * a.x), p)
    requires Congruent(r.x, slope * slope - a.x - a.x, p)
    requires Congruent(r.y, slope * (a.x - r.x) - a.y, p)
    ensures p == 3 || p == 11
  {
    if r == INFINITY {
      DividesCombination(p, -1, 0 - (slope * (a.x - 0) - 0), 0, 0);
      OrderTwoNotInfinity(p, a.x, slope);
    } else {
      ThirdPoint(p, a.x, 0, a.x, slope, r.x, r.y);
      var d, s := r.x - a.x, Secant(a.x, 0, slope, a.x);
      var e := r.y * r.y - (r.x * r.x * r.x + 7);
      DividesCombination(p, 1, e, -1, e - d * s);
      assert s == -3 * (a.x * a.x);
      assert d * s == -3 * (a.x * a.x) * d;
      PrimeProductOfFour(p, -3, a.x, d);
      if Divides(p, a.x) {
        DividesBound(p, a.x);
      } else if Divides(p, -3) {
        DividesCombination(p, -1, -3, 0, 0 - 3);
        SmallPrimes(p);
      } else {
        FixedAbscissa(p, a.x, slope, r.x);
      }
    }
  }

  // ----- group laws that hold on any such curve -----

  /** Infinity is the identity, on either side and for any point. */
  lemma EcAddIdentity(p: int, a: Point)
    requires p > 1
    ensures EcAdd(p, INFINITY, a) == Ok(a) && EcAdd(p, a, INFINITY) == Ok(a)
  {
  }

  /** The mirror image of a point is valid and is its inverse. */
  lemma EcAddInverse(p: int, a: Point)
    requires Prime(p) && p > 2 && OnCurve(p, a) && a.y != 0
    ensures OnCurve(p, Point(a.x, p - a.y))
    ensures EcAdd(p, a, Point(a.x, p - a.y)) == Ok(INFINITY)
  {
    var y := p - a.y;
    DividesIntro(p, p * (p - 2 * a.y), p - 2 * a.y);
    DividesCombination(p, 1, a.y * a.y - (a.x * a.x * a.x + 7), 1, p * (p - 2 * a.y));
    assert y * y == a.y * a.y + p * (p - 2 * a.y);
    if y == a.y {
      DividesIntro(2, p, a.y);
    }
  }

  /** Both slopes satisfy the same linear congruence. */
  lemma SameSlope(p: int, dx: int, dy: int, l: int, l': int, i: int)
    requires Congruent(l * dx, dy, p) && Congruent(l' * -dx, -dy, p) && Congruent(dx * i, 1, p)
    requires 0 <= l < p && 0 <= l' < p
    ensures l == l'
  {
    hide Divides;
    DividesCombination(p, 1, l * dx - dy, 1, l' * -dx - -dy);
    assert l * dx + l' * -dx == dx * (l - l');
    Cancel(p, dx, i, l - l');
    CongruentInRange(l, l', p);
  }

  lemma EcAddCommutative(p: int, a: Point, b: Point)
    requires Prime(p) && p > 2 && Valid(p, a) && Valid(p, b)
    ensures EcAdd(p, a, b) == EcAdd(p, b, a)
  {
    if !a.IsInfinity() && !b.IsInfinity() && a.x != b.x {
      hide EcAdd, Divides;
      var l, i, r := AddGeneric(p, a, b);
      var l', i', r' := AddGeneric(p, b, a);
      SameSlope(p, b.x - a.x, b.y - a.y, l, l', i);
      CommuteCoordinates(p, a, b, l, r, r');
    }
  }

  lemma CommuteCoordinates(p: int, a: Point, b: Point, l: int, r: Point, r': Point)
    requires Congruent(l * (b.x - a.x), b.y - a.y, p)
    requires Congruent(r.x, l * l - a.x - b.x, p) && Congruent(r.y, l * (a.x - r.x) - a.y, p)
    requires Congruent(r'.x, l * l - b.x - a.x, p) && Congruent(r'.y, l * (b.x - r'.x) - b.y, p)
    requires 0 <= r.x < p && 0 <= r'.x < p && 0 <= r.y < p && 0 <= r'.y < p
    ensures r == r'
  {
    DividesCombination(p, 1, r.x - (l * l - a.x - b.x), -1, r'.x - (l * l - b.x - a.x));
    CongruentInRange(r.x, r'.x, p);
    var u, u' := l * (a.x - r.x) - a.y, l * (b.x - r.x) - b.y;
    assert u' - u == l * (b.x - a.x) - (b.y - a.y);
    DividesCombination(p, 1, r.y - u, -1, r'.y - u');
    DividesCombination(p, 1, (r.y - u) - (r'.y - u'), -1, u' - u);
    CongruentInRange(r.y, r'.y, p);
  }
}
