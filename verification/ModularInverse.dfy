/** The modular helpers of the key generator: the non-negative remainder and the extended Euclid loop. */
module ModularInverse {
  import opened Arithmetic
  import opened Wrappers

  /** What the arithmetic of the key generator throws. */
  datatype Error = DivisionByZero | InvalidPrivateKey

  /** The C++ remainder, which takes the sign of the dividend. */
  function TruncatedRemainder(a: int, m: int): int
    requires m > 0
  {
    if a >= 0 then a % m else -((-a) % m)
  }

  /** Adding m before the second remainder turns the truncated remainder into the one of [0, m). */
  function Mod(a: int, m: int): (r: int)
    requires m > 0
    ensures 0 <= r < m && Congruent(r, a, m)
    ensures r == a % m
  {
    var r := TruncatedRemainder(TruncatedRemainder(a, m) + m, m);
    TruncatedTwice(a, m);
    RemainderCongruent(a, m);
    r
  }

  lemma TruncatedTwice(a: int, m: int)
    requires m > 0
    ensures TruncatedRemainder(a, m) + m >= 0
    ensures TruncatedRemainder(TruncatedRemainder(a, m) + m, m) == a % m
  {
    var t := TruncatedRemainder(a, m);
    if a >= 0 {
      DivisionUnique(t + m, m, 1, t);
    } else {
      var k, r := (-a) / m, (-a) % m;
      if r == 0 {
        DivisionUnique(t + m, m, 1, 0);
        DivisionUnique(a, m, -k, 0);
      } else {
        DivisionUnique(t + m, m, 0, m - r);
        assert a == (-k - 1) * m + (m - r);
        DivisionUnique(a, m, -k - 1, m - r);
      }
    }
  }

  /** The extended Euclid loop from a given state, up to the final x1. A zero m is divided by, and that throws. */
  function EuclidLoop(a: int, m: int, x0: int, x1: int): Result<int, Error>
    requires m >= 0
    decreases m
  {
    if a <= 1 then Ok(x1)
    else if m == 0 then Err(DivisionByZero)
    else EuclidLoop(m, Mod(a, m), x1 - (a / m) * x0, x0)
  }

  function ModInverse(a: int, m: int): Result<int, Error>
    requires m >= 0
  {
    if m == 1 then Ok(0)
    else
      var x1 :- EuclidLoop(a, m, 0, 1);
      Ok(if x1 < 0 then x1 + m else x1)
  }

  /** The coefficients of x0 and x1 alternate in sign (s is the sign of x0) and exactly balance m0. */
  ghost predicate Balanced(a: int, m: int, x0: int, x1: int, s: int, m0: int) {
    && (s == 1 || s == -1)
    && s * x0 >= 0 && -s * x1 >= 0
    && s * x0 * a + -s * x1 * m == m0
    && -m0 < x1 < m0
  }

  lemma BalancedValues(a: int, m: int, q: int, r: int, u: int, v: int, m0: int)
    requires a > 1 && m > 0 && m0 > 1 && a == q * m + r && q >= 0
    requires u >= 0 && v >= 0 && u * a + v * m == m0
    ensures v + q * u >= 0 && (v + q * u) * m + u * r == m0 && u < m0
  {
    QuotientNonNegative(q, u);
    assert (v + q * u) * m + u * r == v * m + u * (q * m + r);
    QuotientNonNegative(v, m);
    SmallFactor(u, a, m0);
  }

  lemma BalancedStep(a: int, m: int, x0: int, x1: int, s: int, m0: int)
    requires a > 1 && m > 0 && m0 > 1 && Balanced(a, m, x0, x1, s, m0)
    ensures Balanced(m, a % m, x1 - (a / m) * x0, x0, -s, m0)
  {
    var q, r, u, v := a / m, a % m, s * x0, -s * x1;
    BalancedValues(a, m, q, r, u, v, m0);
    assert -s * (x1 - q * x0) == v + q * u by {
      assert s * (q * x0) == q * u;
    }
    assert s == 1 ==> x0 == u;
    assert s == -1 ==> x0 == -u;
  }

  lemma QuotientNonNegative(q: int, u: int)
    requires q >= 0 && u >= 0
    ensures q * u >= 0
  {
  }

  lemma SmallFactor(u: int, a: int, m0: int)
    requires u >= 0 && a > 1 && u * a <= m0 && m0 > 0
    ensures u < m0
  {
    assert u * a == u * (a - 2) + 2 * u;
    QuotientNonNegative(u, a - 2);
  }

  /** From any balanced state the loop ends: with an inverse of a0 when a and m are coprime, by dividing by zero otherwise. */
  lemma {:induction false} EuclidLoopCorrect(a: int, m: int, x0: int, x1: int, s: int, a0: int, m0: int)
    requires a >= 1 && m >= 0 && m0 > 1 && Balanced(a, m, x0, x1, s, m0)
    requires Congruent(x1 * a0, a, m0) && Congruent(x0 * a0, m, m0)
    ensures EuclidLoop(a, m, x0, x1).Ok? <==> Coprime(a, m)
    ensures var r := EuclidLoop(a, m, x0, x1);
            match r
            case Ok(x) => -m0 < x < m0 && Congruent(x * a0, 1, m0)
            case Err(e) => e == DivisionByZero
    decreases m
  {
    hide Divides, Coprime, TruncatedRemainder;
    if a == 1 {
      CoprimeToOne(m);
      assert -m0 < x1 < m0;
    } else if m == 0 {
      NotCoprimeToZero(a);
    } else {
      hide Balanced;
      BalancedStep(a, m, x0, x1, s, m0);
      CoefficientStep(a, m, x0, x1, a0, m0);
      EuclidLoopCorrect(m, a % m, x1 - (a / m) * x0, x0, -s, a0, m0);
      CoprimeStep(a, m);
    }
  }

  /** The new coefficient belongs to the remainder. */
  lemma CoefficientStep(a: int, m: int, x0: int, x1: int, a0: int, m0: int)
    requires m > 0 && Congruent(x1 * a0, a, m0) && Congruent(x0 * a0, m, m0)
    ensures Congruent((x1 - (a / m) * x0) * a0, a % m, m0)
  {
    hide Divides;
    var q, r := a / m, a % m;
    assert a == q * m + r;
    DividesCombination(m0, 1, x1 * a0 - a, -q, x0 * a0 - m);
    assert -q * (x0 * a0 - m) == q * m - q * x0 * a0;
    assert (x1 - q * x0) * a0 == x1 * a0 - q * x0 * a0;
  }

  lemma NotCoprimeToZero(a: int)
    requires a > 1
    ensures !Coprime(a, 0)
  {
    DividesIntro(a, a, 1);
    DividesIntro(a, 0, 0);
  }

  lemma CoprimeToOne(m: int)
    ensures Coprime(1, m)
  {
    forall d | d > 1
      ensures !Divides(d, 1)
    {
      if Divides(d, 1) {
        DividesBound(d, 1);
      }
    }
  }

  lemma CoprimeStep(a: int, m: int)
    requires m > 0
    ensures Coprime(a, m) <==> Coprime(m, a % m)
  {
    forall d | d > 1
      ensures Divides(d, a) && Divides(d, m) <==> Divides(d, m) && Divides(d, a % m)
    {
      CommonDivisorsOfStep(a, m, d);
    }
  }

  /** From the initial coefficients, one correction by m makes the result an inverse in range. */
  lemma ModInverseOutcome(a: int, m: int)
    requires a >= 1 && m > 1
    ensures ModInverse(a, m).Ok? <==> Coprime(a, m)
    ensures match ModInverse(a, m)
            case Ok(x) => IsInverse(a, m, x)
            case Err(e) => e == DivisionByZero
  {
    DividesIntro(m, 1 * a - a, 0);
    DividesIntro(m, 0 * a - m, -1);
    EuclidLoopCorrect(a, m, 0, 1, -1, a, m);
    var r := EuclidLoop(a, m, 0, 1);
    if r.Ok? {
      InverseShift(a, m, r.value);
    }
  }

  lemma InverseShift(a: int, m: int, x: int)
    requires m > 1 && -m < x < m && Congruent(x * a, 1, m)
    ensures IsInverse(a, m, if x < 0 then x + m else x)
  {
    assert x * a == a * x;
    if x < 0 {
      DividesIntro(m, m, 1);
      DividesCombination(m, 1, x * a - 1, a, m);
      assert 1 * (x * a - 1) + a * m == a * (x + m) - 1;
    }
  }

  /**
   * For a positive argument and a modulus above 1, the result is the only inverse in range exactly when
   * one exists, which is when the arguments are coprime; otherwise the loop divides by zero.
   */
  lemma ModInverseCorrect(a: int, m: int)
    requires a >= 1 && m > 1
    ensures ModInverse(a, m).Ok? <==> Coprime(a, m)
    ensures ModInverse(a, m).Err? ==> ModInverse(a, m).error == DivisionByZero
    ensures forall x :: IsInverse(a, m, x) <==> ModInverse(a, m) == Ok(x)
  {
    ModInverseOutcome(a, m);
    forall x | IsInverse(a, m, x)
      ensures ModInverse(a, m) == Ok(x)
    {
      InverseCoprime(a, m, x);
      InverseUnique(a, m, x, ModInverse(a, m).value);
    }
  }

  /** The remaining arguments never enter the loop: the result is then not an inverse unless a is 1 modulo m. */
  lemma ModInverseOutsideLoop(a: int, m: int)
    requires m > 1 && a <= 1
    ensures ModInverse(a, m) == Ok(1)
    ensures IsInverse(a, m, 1) <==> Congruent(a, 1, m)
  {
    assert a * 1 == a;
  }

  /** The loop of the source. It returns what ModInverse says, and for a >= 1 and m > 1 an inverse exactly when there is one. */
  method ComputeModInverse(a: int, m: int) returns (r: Result<int, Error>)
    requires m >= 0
    ensures r == ModInverse(a, m)
    ensures a >= 1 && m > 1 ==> forall x :: IsInverse(a, m, x) <==> r == Ok(x)
    ensures a >= 1 && m > 1 ==> (r == Err(DivisionByZero) <==> !Coprime(a, m))
  {
    if a >= 1 && m > 1 {
      ModInverseCorrect(a, m);
    }
    var m0 := m;
    var x0, x1 := 0, 1;
    if m == 1 {
      return Ok(0);
    }
    var a', m' := a, m;
    while a' > 1
      invariant m' >= 0
      invariant EuclidLoop(a', m', x0, x1) == EuclidLoop(a, m, 0, 1)
      decreases m'
    {
      if m' == 0 {
        return Err(DivisionByZero);
      }
      var q := a' / m';
      var t := m';
      m' := Mod(a', m');
      a' := t;
      t := x0;
      x0 := x1 - q * x0;
      x1 := t;
    }
    if x1 < 0 {
      x1 := x1 + m0;
    }
    return Ok(x1);
  }

  /** An inverse modulo a prime exists for every positive number the prime does not divide. */
  lemma InverseModPrime(a: int, p: int) returns (x: int)
    requires Prime(p) && a >= 1 && !Divides(p, a)
    ensures ModInverse(a, p) == Ok(x) && IsInverse(a, p, x)
  {
    PrimeCoprime(p, a);
    ModInverseCorrect(a, p);
    x := ModInverse(a, p).value;
  }
}
