/**
 * Double-and-add. On any curve of CurveLaws whose addition is associative, the loop computes the k-fold
 * sum of its point; even without associativity every point it handles is valid.
 */
module ScalarMultiplication {
  import opened Arithmetic
  import opened ModularInverse
  import opened Wrappers
  import opened Curve
  import opened CurveLaws

  // ----- the group -----

  ghost function Plus(p: int, a: Point, b: Point): (r: Point)
    requires GoodCurve(p) && Valid(p, a) && Valid(p, b)
    ensures EcAdd(p, a, b) == Ok(r) && Valid(p, r)
  {
    PlusDefined(p, a, b);
    EcAdd(p, a, b).value
  }

  lemma PlusDefined(p: int, a: Point, b: Point)
    requires GoodCurve(p) && Valid(p, a) && Valid(p, b)
    ensures EcAdd(p, a, b).Ok? && Valid(p, EcAdd(p, a, b).value)
  {
    assert a == Point(a.x, a.y);
    EcAddClosed(p, a, b);
  }

  /** The one law of the group that is not proved of the curve. */
  ghost predicate Associative(p: int)
    requires GoodCurve(p)
  {
    forall a, b, c | Valid(p, a) && Valid(p, b) && Valid(p, c) ::
      Plus(p, Plus(p, a, b), c) == Plus(p, a, Plus(p, b, c))
  }

  ghost predicate GroupLaw(p: int) {
    GoodCurve(p) && Associative(p)
  }

  lemma Reassociate(p: int, a: Point, b: Point, c: Point)
    requires GroupLaw(p) && Valid(p, a) && Valid(p, b) && Valid(p, c)
    ensures Plus(p, Plus(p, a, b), c) == Plus(p, a, Plus(p, b, c))
  {
  }

  lemma PlusIdentity(p: int, a: Point)
    requires GoodCurve(p) && Valid(p, a)
    ensures Plus(p, a, INFINITY) == a == Plus(p, INFINITY, a)
  {
  }

  /** The k-fold sum of a. */
  ghost function Times(p: int, k: nat, a: Point): (r: Point)
    requires GoodCurve(p) && Valid(p, a)
    ensures Valid(p, r)
  {
    if k == 0 then INFINITY else Plus(p, Times(p, k - 1, a), a)
  }

  lemma {:induction false} TimesAdd(p: int, j: nat, k: nat, a: Point)
    requires GroupLaw(p) && Valid(p, a)
    ensures Times(p, j + k, a) == Plus(p, Times(p, j, a), Times(p, k, a))
  {
    hide EcAdd, EcDouble, OnCurve, Divides, HasPointOfOrderTwo, Associative;
    if k == 0 {
      PlusIdentity(p, Times(p, j, a));
    } else {
      TimesAdd(p, j, k - 1, a);
      Reassociate(p, Times(p, j, a), Times(p, k - 1, a), a);
      assert j + k - 1 == j + (k - 1);
    }
  }

  lemma {:induction false} TimesTimes(p: int, j: nat, k: nat, a: Point)
    requires GroupLaw(p) && Valid(p, a)
    ensures j * k >= 0 && Times(p, j, Times(p, k, a)) == Times(p, j * k, a)
  {
    hide EcAdd, EcDouble, OnCurve, Divides, HasPointOfOrderTwo, Associative;
    if j != 0 {
      TimesTimes(p, j - 1, k, a);
      assert (j - 1) * k + k == j * k;
      TimesAdd(p, (j - 1) * k, k, a);
    }
  }

  lemma {:induction false} TimesInfinity(p: int, k: nat)
    requires GoodCurve(p)
    ensures Times(p, k, INFINITY) == INFINITY
  {
    if k != 0 {
      TimesInfinity(p, k - 1);
    }
  }

  lemma TimesMultiplePlus(p: int, n: nat, q: nat, r: nat, a: Point)
    requires GroupLaw(p) && Valid(p, a) && Times(p, n, a) == INFINITY
    ensures q * n + r >= 0 && Times(p, q * n + r, a) == Times(p, r, a)
  {
    hide EcAdd, EcDouble, OnCurve, Divides, HasPointOfOrderTwo, Associative;
    TimesTimes(p, q, n, a);
    TimesInfinity(p, q);
    TimesAdd(p, q * n, r, a);
    PlusIdentity(p, Times(p, r, a));
  }

  /** A point of order n only sees its factor modulo n. */
  lemma TimesModOrder(p: int, n: int, k: nat, a: Point)
    requires GroupLaw(p) && Valid(p, a) && n > 0 && Times(p, n, a) == INFINITY
    ensures Times(p, k, a) == Times(p, k % n, a)
  {
    hide *;
    TimesMultiplePlus(p, n, k / n, k % n, a);
    assert k == (k / n) * n + k % n;
  }

  lemma DoubleIsPlus(p: int, a: Point)
    requires GoodCurve(p) && Valid(p, a)
    ensures EcDouble(p, a) == Ok(Plus(p, a, a)) && Plus(p, a, a) == Times(p, 2, a)
  {
    assert Times(p, 1, a) == Plus(p, Times(p, 0, a), a) == a;
    assert Times(p, 2, a) == Plus(p, Times(p, 1, a), a);
  }

  // ----- the loop -----

  /** Integer division truncates toward zero. */
  function Half(k: int): int {
    if k >= 0 then k / 2 else -((-k) / 2)
  }

  function Magnitude(k: int): nat {
    if k >= 0 then k else -k
  }

  function DoubleAndAdd(p: int, k: int, q: Point, pnt: Point): Result<Point, Error>
    requires p > 1
    decreases Magnitude(k)
  {
    if k == 0 then Ok(q)
    else
      var q' :- if k % 2 != 0 then EcAdd(p, q, pnt) else Ok(q);
      var pnt' :- EcDouble(p, pnt);
      DoubleAndAdd(p, Half(k), q', pnt')
  }

  function EcMul(p: int, n: int, privKey: int, point: Point): Result<Point, Error>
    requires p > 1
  {
    if privKey == 0 || privKey > n then Err(InvalidPrivateKey)
    else DoubleAndAdd(p, privKey, INFINITY, point)
  }

  /** The loop adds |k| times its point to Q; a negative factor counts as its magnitude. */
  lemma {:induction false} DoubleAndAddCorrect(p: int, k: int, q: Point, pnt: Point)
    requires GroupLaw(p) && Valid(p, q) && Valid(p, pnt)
    ensures DoubleAndAdd(p, k, q, pnt) == Ok(Plus(p, q, Times(p, Magnitude(k), pnt)))
    decreases Magnitude(k)
  {
    hide EcAdd, EcDouble, OnCurve, Divides, HasPointOfOrderTwo, Associative;
    if k == 0 {
      PlusIdentity(p, q);
    } else {
      var h := Magnitude(Half(k));
      DoubleIsPlus(p, pnt);
      var double := Plus(p, pnt, pnt);
      TimesTimes(p, h, 2, pnt);
      if k % 2 != 0 {
        DoubleAndAddCorrect(p, Half(k), Plus(p, q, pnt), double);
        var t := Times(p, h * 2, pnt);
        assert Plus(p, pnt, t) == Plus(p, t, pnt) by { EcAddCommutative(p, pnt, t); }
        Reassociate(p, q, pnt, t);
        assert Magnitude(k) - 1 == h * 2;
      } else {
        DoubleAndAddCorrect(p, Half(k), q, double);
        assert Magnitude(k) == h * 2;
      }
    }
  }

  /** Multiplication accepts exactly the factors it does not reject, and returns the |k|-fold sum. */
  lemma EcMulCorrect(p: int, n: int, k: int, a: Point)
    requires GroupLaw(p) && Valid(p, a)
    ensures EcMul(p, n, k, a) ==
            if k == 0 || k > n then Err(InvalidPrivateKey) else Ok(Times(p, Magnitude(k), a))
  {
    DoubleAndAddCorrect(p, k, INFINITY, a);
  }

  /** Without associativity: from valid points the loop ends with a valid point and never divides by zero. */
  lemma {:induction false} DoubleAndAddValid(p: int, k: int, q: Point, pnt: Point)
    requires GoodCurve(p) && Valid(p, q) && Valid(p, pnt)
    ensures DoubleAndAdd(p, k, q, pnt).Ok? && Valid(p, DoubleAndAdd(p, k, q, pnt).value)
    decreases Magnitude(k)
  {
    if k != 0 {
      DoubleIsPlus(p, pnt);
      PlusDefined(p, q, pnt);
      DoubleAndAddValid(p, Half(k), if k % 2 != 0 then Plus(p, q, pnt) else q, Plus(p, pnt, pnt));
    }
  }

  /** The loop of the source; on a good curve Q and the doubled point are valid at every turn. */
  method ComputeEcMul(p: int, n: int, privKey: int, point: Point) returns (r: Result<Point, Error>)
    requires p > 1
    ensures r == EcMul(p, n, privKey, point)
    ensures GoodCurve(p) && Valid(p, point) ==> (r.Ok? <==> privKey != 0 && privKey <= n)
    ensures GoodCurve(p) && Valid(p, point) && r.Ok? ==> Valid(p, r.value)
    ensures GroupLaw(p) && Valid(p, point) && r.Ok? ==> r.value == Times(p, Magnitude(privKey), point)
  {
    hide EcAdd, EcDouble, OnCurve, Divides, HasPointOfOrderTwo, Associative;
    if GroupLaw(p) && Valid(p, point) {
      EcMulCorrect(p, n, privKey, point);
    }
    if privKey == 0 || privKey > n {
      return Err(InvalidPrivateKey);
    }
    var q, pnt, k := INFINITY, point, privKey;
    while k != 0
      invariant DoubleAndAdd(p, k, q, pnt) == DoubleAndAdd(p, privKey, INFINITY, point)
      invariant GoodCurve(p) && Valid(p, point) ==> Valid(p, q) && Valid(p, pnt)
      decreases Magnitude(k)
    {
      if GoodCurve(p) && Valid(p, point) {
        DoubleIsPlus(p, pnt);
        PlusDefined(p, q, pnt);
      }
      if k % 2 != 0 {
        q :- EcAdd(p, q, pnt);
      }
      pnt :- EcDouble(p, pnt);
      k := Half(k);
    }
    return Ok(q);
  }
}
