/** Divisibility, congruence and primes: the number theory under the key generator and the signer. */
module Arithmetic {

  /** m divides x; the statement is kept behind a name so that proofs combine facts, not remainders. */
  ghost predicate Divides(m: int, x: int) {
    m > 0 && x % m == 0
  }

  ghost predicate Congruent(a: int, b: int, m: int) {
    Divides(m, a - b)
  }

  /** No number above 1 divides both a and m. */
  ghost predicate Coprime(a: int, m: int) {
    forall d :: d > 1 ==> !(Divides(d, a) && Divides(d, m))
  }

  ghost predicate Prime(p: int) {
    p > 1 && forall d :: 1 < d < p ==> !Divides(d, p)
  }

  /** The unique representative in [0, m) of an inverse of a modulo m. */
  ghost predicate IsInverse(a: int, m: int, x: int) {
    0 <= x < m && Congruent(a * x, 1, m)
  }

  // ----- quotients and remainders -----

  lemma DivisionUnique(x: int, m: int, q: int, r: int)
    requires m > 0 && x == q * m + r && 0 <= r < m
    ensures x / m == q && x % m == r
  {
    var q', r' := x / m, x % m;
    assert x == q' * m + r';
    assert (q - q') * m == r' - r && (q' - q) * m == r - r';
    if q > q' {
      MulLower(q - q', m);
    } else if q < q' {
      MulLower(q' - q, m);
    }
  }

  lemma MulLower(k: int, m: int)
    requires k >= 1 && m > 0
    ensures k * m >= m
  {
  }

  lemma MulMonotone(a: int, b: int, c: int)
    requires a <= b && c >= 0
    ensures a * c <= b * c
  {
  }

  lemma DividesIntro(m: int, x: int, k: int)
    requires m > 0 && x == k * m
    ensures Divides(m, x)
  {
    DivisionUnique(x, m, k, 0);
  }

  lemma DividesElim(m: int, x: int) returns (k: int)
    requires Divides(m, x)
    ensures x == k * m
  {
    k := x / m;
  }

  /** Multiples of m are closed under integer combinations. */
  lemma DividesCombination(m: int, a: int, x: int, b: int, y: int)
    requires Divides(m, x) && Divides(m, y)
    ensures Divides(m, a * x + b * y)
  {
    var j := DividesElim(m, x);
    var k := DividesElim(m, y);
    assert a * (j * m) + b * (k * m) == (a * j + b * k) * m;
    DividesIntro(m, a * x + b * y, a * j + b * k);
  }

  lemma DividesTransitive(d: int, m: int, x: int)
    requires Divides(d, m) && Divides(m, x)
    ensures Divides(d, x)
  {
    var j := DividesElim(d, m);
    var k := DividesElim(m, x);
    assert k * (j * d) == (k * j) * d;
    DividesIntro(d, x, k * j);
  }

  lemma DividesBound(d: int, x: int)
    requires Divides(d, x) && x > 0
    ensures d <= x
  {
    var k := DividesElim(d, x);
    if k > 0 {
      MulLower(k, d);
    }
  }

  lemma SmallMultipleIsZero(m: int, x: int)
    requires Divides(m, x) && -m < x < m
    ensures x == 0
  {
    if x > 0 {
      DividesBound(m, x);
    } else if x < 0 {
      DividesCombination(m, -1, x, 0, x);
      DividesBound(m, -x);
    }
  }

  /** Remainders are congruent to what they are remainders of. */
  lemma RemainderCongruent(x: int, m: int)
    requires m > 0
    ensures Congruent(x, x % m, m) && Congruent(x % m, x, m)
  {
    DividesIntro(m, x - x % m, x / m);
    DividesIntro(m, x % m - x, -(x / m));
  }

  lemma CongruentRemainders(a: int, b: int, m: int)
    requires m > 0
    ensures Congruent(a, b, m) <==> a % m == b % m
  {
    if a % m == b % m {
      DividesIntro(m, a - b, a / m - b / m);
    }
    if Congruent(a, b, m) {
      var k := DividesElim(m, a - b);
      assert a == (b / m + k) * m + b % m;
      DivisionUnique(a, m, b / m + k, b % m);
    }
  }

  /** Reducing a summand first does not change a reduced sum. */
  lemma ReduceSummand(a: int, b: int, m: int)
    requires m > 0
    ensures (a % m + b) % m == (a + b) % m
  {
    DivisionUnique(a + b, m, a / m + (a % m + b) / m, (a % m + b) % m);
  }

  lemma CongruentTransitive(a: int, b: int, c: int, m: int)
    requires Congruent(a, b, m) && Congruent(b, c, m)
    ensures Congruent(a, c, m)
  {
    DividesCombination(m, 1, a - b, 1, b - c);
  }

  lemma CongruentSymmetric(a: int, b: int, m: int)
    requires Congruent(a, b, m)
    ensures Congruent(b, a, m)
  {
    DividesCombination(m, -1, a - b, 0, a - b);
  }

  lemma CongruentMul(a: int, b: int, c: int, d: int, m: int)
    requires Congruent(a, b, m) && Congruent(c, d, m)
    ensures Congruent(a * c, b * d, m)
  {
    DividesCombination(m, c, a - b, b, c - d);
    assert c * (a - b) + b * (c - d) == a * c - b * d;
  }

  /** Two congruent numbers of [0, m) are equal. */
  lemma CongruentInRange(a: int, b: int, m: int)
    requires Congruent(a, b, m) && 0 <= a < m && 0 <= b < m
    ensures a == b
  {
    SmallMultipleIsZero(m, a - b);
  }

  // ----- primes and inverses -----

  lemma PrimeCoprime(p: int, a: int)
    requires Prime(p) && !Divides(p, a)
    ensures Coprime(a, p)
  {
    forall d | d > 1 && Divides(d, p)
      ensures !Divides(d, a)
    {
      DividesBound(d, p);
    }
  }

  lemma CommonDivisorsOfStep(a: int, m: int, d: int)
    requires m > 0 && d > 0
    ensures Divides(d, a) && Divides(d, m) <==> Divides(d, m) && Divides(d, a % m)
  {
    if Divides(d, m) {
      if Divides(d, a) {
        DividesCombination(d, 1, a, -(a / m), m);
        assert 1 * a + -(a / m) * m == a % m;
      }
      if Divides(d, a % m) {
        DividesCombination(d, 1, a % m, a / m, m);
        assert 1 * (a % m) + (a / m) * m == a;
      }
    }
  }

  lemma {:induction false} Bezout(a: nat, m: nat) returns (x: int, y: int)
    requires Coprime(a, m)
    ensures a * x + m * y == 1
    decreases m
  {
    if m == 0 {
      if a != 1 {
        var d := if a == 0 then 2 else a;
        DividesIntro(d, a, if a == 0 then 0 else 1);
        DividesIntro(d, m, 0);
      }
      x, y := 1, 0;
    } else {
      forall d | d > 1
        ensures !(Divides(d, m) && Divides(d, a % m))
      {
        CommonDivisorsOfStep(a, m, d);
      }
      var u, v := Bezout(m, a % m);
      x, y := v, u - (a / m) * v;
      BezoutStep(a, m, a / m, a % m, u, v);
    }
  }

  lemma BezoutStep(a: int, m: int, q: int, r: int, u: int, v: int)
    requires a == q * m + r && m * u + r * v == 1
    ensures a * v + m * (u - q * v) == 1
  {
    assert a * v == (q * m) * v + r * v;
    assert m * (u - q * v) == m * u - (q * m) * v;
  }

  lemma InverseExists(a: int, m: int) returns (x: int)
    requires a >= 0 && m > 1 && Coprime(a, m)
    ensures IsInverse(a, m, x)
  {
    var u, v := Bezout(a, m);
    x := u % m;
    RemainderCongruent(u, m);
    DividesIntro(m, a - a, 0);
    CongruentMul(a, a, x, u, m);
    DividesIntro(m, a * u - 1, -v);
    CongruentTransitive(a * x, a * u, 1, m);
  }

  lemma InverseUnique(a: int, m: int, x: int, y: int)
    requires IsInverse(a, m, x) && IsInverse(a, m, y)
    ensures x == y
  {
    // x - y == x (1 - a y) + y (a x - 1)
    DividesCombination(m, -x, a * y - 1, y, a * x - 1);
    assert -x * (a * y - 1) + y * (a * x - 1) == x - y;
    CongruentInRange(x, y, m);
  }

  /** An inverse rules out a common divisor. */
  lemma InverseCoprime(a: int, m: int, x: int)
    requires m > 1 && IsInverse(a, m, x)
    ensures Coprime(a, m)
  {
    forall d | d > 1 && Divides(d, m)
      ensures !Divides(d, a)
    {
      if Divides(d, a) {
        DividesTransitive(d, m, a * x - 1);
        DividesCombination(d, x, a, -1, a * x - 1);
        assert x * a + -1 * (a * x - 1) == 1;
        DividesBound(d, 1);
      }
    }
  }

  /** An invertible factor can be cancelled. */
  lemma Cancel(m: int, d: int, inv: int, t: int)
    requires Congruent(d * inv, 1, m) && Divides(m, d * t)
    ensures Divides(m, t)
  {
    DividesCombination(m, inv, d * t, -t, d * inv - 1);
    assert inv * (d * t) + -t * (d * inv - 1) == t;
  }

  /** Euclid's lemma. */
  lemma PrimeProduct(p: int, a: int, b: int)
    requires Prime(p) && Divides(p, a * b)
    ensures Divides(p, a) || Divides(p, b)
  {
    if !Divides(p, a) {
      RemainderCongruent(a, p);
      var r := a % p;
      PrimeCoprime(p, r) by {
        if Divides(p, r) {
          DividesCombination(p, 1, a - r, 1, r);
        }
      }
      var inv := InverseExists(r, p);
      DividesCombination(p, b, r - a, 1, a * b);
      assert b * (r - a) + 1 * (a * b) == r * b;
      Cancel(p, r, inv, b);
    }
  }
}
