/** Points of y^2 = x^3 + 7 modulo p, their addition and doubling, and the laws these keep. */
module Curve {
  import opened Arithmetic
  import opened ModularInverse
  import opened Wrappers

  datatype Point = Point(x: int, y: int) {
    predicate IsInfinity() {
      x == 0 && y == 0
    }
  }

  const INFINITY := Point(0, 0)

  function EcDouble(p: int, pnt: Point): Result<Point, Error>
    requires p > 1
  {
    if pnt.IsInfinity() then Ok(INFINITY)
    else
      var inverse :- ModInverse(2 * pnt.y, p);
      var slope := Mod(Mod(3 * (pnt.x * pnt.x), p) * inverse, p);
      var x3 := Mod(slope * slope - 2 * pnt.x, p);
      Ok(Point(x3, Mod(slope * (pnt.x - x3) - pnt.y, p)))
  }

  function EcAdd(p: int, pnt1: Point, pnt2: Point): Result<Point, Error>
    requires p > 1
  {
    if pnt1.IsInfinity() then Ok(pnt2)
    else if pnt2.IsInfinity() then Ok(pnt1)
    else if pnt1 == pnt2 then EcDouble(p, pnt1)
    else if pnt1.x == pnt2.x then Ok(INFINITY)
    else
      var deltaY := Mod(pnt2.y - pnt1.y, p);
      var deltaX := Mod(pnt2.x - pnt1.x, p);
      var inverse :- ModInverse(deltaX, p);
      var slope := Mod(deltaY * inverse, p);
      var x3 := Mod(slope * slope - pnt1.x - pnt2.x, p);
      Ok(Point(x3, Mod(slope * (pnt1.x - x3) - pnt1.y, p)))
  }

  // ----- validity -----

  ghost predicate OnCurve(p: int, pnt: Point) {
    && 0 <= pnt.x < p && 0 <= pnt.y < p
    && Congruent(pnt.y * pnt.y, pnt.x * pnt.x * pnt.x + 7, p)
  }

  /** Infinity or a point of the curve with both coordinates reduced. */
  ghost predicate Valid(p: int, pnt: Point) {
    pnt == INFINITY || OnCurve(p, pnt)
  }

  /** Some point of the curve other than infinity has y = 0. */
  ghost predicate HasPointOfOrderTwo(p: int) {
    exists x :: x != 0 && OnCurve(p, Point(x, 0))
  }

  /** The setting of the laws: an odd prime and no point that is its own inverse. */
  ghost predicate GoodCurve(p: int) {
    Prime(p) && p > 2 && !HasPointOfOrderTwo(p)
  }

  // ----- the line through two points meets the curve once more -----

  /** Vanishes modulo p when the line of the given slope through (x1, y1) meets the curve again at abscissa x. */
  function Secant(x1: int, y1: int, slope: int, x: int): int {
    slope * slope * (x - x1) + 2 * slope * y1 - (x * x + x * x1 + x1 * x1)
  }

  function LineMinusCurve(x1: int, y1: int, slope: int, x: int): int {
    (slope * (x - x1) + y1) * (slope * (x - x1) + y1) - x * x * x - 7
  }

  lemma LineMinusCurveFactors(x1: int, y1: int, slope: int, x: int)
    ensures LineMinusCurve(x1, y1, slope, x)
         == (y1 * y1 - x1 * x1 * x1 - 7) + (x - x1) * Secant(x1, y1, slope, x)
  {
    var d := x - x1;
    assert (slope * d + y1) * (slope * d + y1) == d * (slope * slope * d + 2 * slope * y1) + y1 * y1;
    assert x * x * x - x1 * x1 * x1 == d * (x * x + x * x1 + x1 * x1) by {
      assert d * (x * x) == x * x * x - x1 * (x * x);
      assert d * (x * x1) == x * x * x1 - x1 * (x * x1);
      assert d * (x1 * x1) == x * (x1 * x1) - x1 * x1 * x1;
    }
  }

  lemma SecantDifference(x1: int, y1: int, slope: int, x2: int, x3: int)
    ensures Secant(x1, y1, slope, x3) - Secant(x1, y1, slope, x2)
         == (x3 - x2) * (slope * slope - x1 - x2 - x3)
  {
    assert (x3 - x2) * (x3 + x2 + x1) == x3 * x3 + x3 * x1 - x2 * x2 - x2 * x1;
  }

  /** The reflected third point of the line has the secant value it inherits from x2, times x3 - x1. */
  lemma ThirdPoint(p: int, x1: int, y1: int, x2: int, slope: int, x3: int, y3: int)
    requires Congruent(y1 * y1, x1 * x1 * x1 + 7, p)
    requires Congruent(x3, slope * slope - x1 - x2, p)
    requires Congruent(y3, slope * (x1 - x3) - y1, p)
    ensures Congruent(y3 * y3 - (x3 * x3 * x3 + 7), (x3 - x1) * Secant(x1, y1, slope, x2), p)
  {
    var t := slope * (x3 - x1) + y1;
    var s2, s3 := Secant(x1, y1, slope, x2), Secant(x1, y1, slope, x3);
    var z := y1 * y1 - x1 * x1 * x1 - 7;
    LineMinusCurveFactors(x1, y1, slope, x3);
    SecantDifference(x1, y1, slope, x2, x3);
    assert slope * (x1 - x3) - y1 == -t;
    // y3 is congruent to -t, so the squares agree
    DividesCombination(p, y3 - t, y3 + t, 1, z);
    assert (y3 - t) * (y3 + t) == y3 * y3 - t * t;
    var w := y3 * y3 - t * t + z;
    var c := x3 - (slope * slope - x1 - x2);
    DividesCombination(p, 1, w, -(x3 - x1) * (x3 - x2), c);
    ThirdPointAlgebra(x1, x2, x3, s2, s3, c);
    assert y3 * y3 - (x3 * x3 * x3 + 7) - (x3 - x1) * s2 == 1 * w + -(x3 - x1) * (x3 - x2) * c;
  }

  lemma ThirdPointAlgebra(x1: int, x2: int, x3: int, s2: int, s3: int, c: int)
    requires s3 - s2 == (x3 - x2) * -c
    ensures (x3 - x1) * s3 - (x3 - x1) * s2 == -(x3 - x1) * (x3 - x2) * c
  {
    assert (x3 - x1) * s3 - (x3 - x1) * s2 == (x3 - x1) * (s3 - s2);
    assert (x3 - x1) * ((x3 - x2) * -c) == -(x3 - x1) * (x3 - x2) * c;
  }
}
