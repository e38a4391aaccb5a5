/**
 * The hypotheses of the signer can be met: y^2 = x^3 + 7 modulo 13 has seven points, no point with y = 0,
 * and its addition is the addition of exponents modulo 7.
 */
module SevenPoints {
  import opened Arithmetic
  import opened ModularInverse
  import opened Wrappers
  import opened Curve
  import opened CurveLaws
  import opened ScalarMultiplication
  import EcdsaSigner

  function Point7(k: nat): Point {
    var i := k % 7;
    if i == 0 then Point(0, 0)
    else if i == 1 then Point(7, 5)
    else if i == 2 then Point(8, 5)
    else if i == 3 then Point(11, 8)
    else if i == 4 then Point(11, 5)
    else if i == 5 then Point(8, 8)
    else Point(7, 8)
  }

  lemma PrimeThirteen()
    ensures Prime(13) && Prime(7)
  {
    forall d | 1 < d < 13
      ensures !Divides(d, 13) && (d < 7 ==> !Divides(d, 7))
    {
      if d == 2 {} else if d == 3 {} else if d == 4 {} else if d == 5 {} else if d == 6 {} else if d == 7 {}
      else if d == 8 {} else if d == 9 {} else if d == 10 {} else if d == 11 {}
    }
  }

  /** Modulo 13 the right-hand side is one of five residues, each at known abscissas. */
  function CubicModThirteen(x: int): int
    requires 0 <= x < 13
  {
    [7, 8, 2, 8, 6, 2, 2, 12, 12, 8, 6, 12, 6][x]
  }

  lemma CubicModThirteenCorrect(x: int)
    requires 0 <= x < 13
    ensures Divides(13, x * x * x + 7 - CubicModThirteen(x))
  {
    if x == 0 {} else if x == 1 {} else if x == 2 {} else if x == 3 {} else if x == 4 {} else if x == 5 {}
    else if x == 6 {} else if x == 7 {} else if x == 8 {} else if x == 9 {} else if x == 10 {} else if x == 11 {}
  }

  function SquareModThirteen(y: int): int
    requires 0 <= y < 13
  {
    [0, 1, 4, 9, 3, 12, 10, 10, 12, 3, 9, 4, 1][y]
  }

  lemma SquareModThirteenCorrect(y: int)
    requires 0 <= y < 13
    ensures Divides(13, y * y - SquareModThirteen(y))
  {
    if y == 0 {} else if y == 1 {} else if y == 2 {} else if y == 3 {} else if y == 4 {} else if y == 5 {}
    else if y == 6 {} else if y == 7 {} else if y == 8 {} else if y == 9 {} else if y == 10 {} else if y == 11 {}
  }

  /** The valid points are the seven of the table. */
  lemma Enumeration(a: Point)
    requires Valid(13, a)
    ensures a != INFINITY ==> a.y == 5 || a.y == 8
    ensures exists k: nat :: k < 7 && a == Point7(k)
  {
    if a == INFINITY {
      assert a == Point7(0);
    } else {
      var s, c := SquareModThirteen(a.y), CubicModThirteen(a.x);
      SquareModThirteenCorrect(a.y);
      CubicModThirteenCorrect(a.x);
      DividesCombination(13, 1, a.y * a.y - (a.x * a.x * a.x + 7), -1, a.y * a.y - s);
      DividesCombination(13, 1, a.x * a.x * a.x + 7 - c, 1, s - (a.x * a.x * a.x + 7));
      SmallMultipleIsZero(13, s - c);
      assert a.x == 7 || a.x == 8 || a.x == 11;
      assert Point7(1) == Point(7, 5) && Point7(2) == Point(8, 5) && Point7(3) == Point(11, 8);
      assert Point7(4) == Point(11, 5) && Point7(5) == Point(8, 8) && Point7(6) == Point(7, 8);
    }
  }

  lemma Good()
    ensures GoodCurve(13)
  {
    PrimeThirteen();
    if HasPointOfOrderTwo(13) {
      var x :| x != 0 && OnCurve(13, Point(x, 0));
      Enumeration(Point(x, 0));
    }
  }

  lemma TableOnCurve(k: nat)
    ensures Valid(13, Point7(k))
  {
    hide Divides;
    DividesIntro(13, 25 - 350, -25);
    DividesIntro(13, 25 - 519, -38);
    DividesIntro(13, 64 - 1338, -98);
    DividesIntro(13, 25 - 1338, -101);
    DividesIntro(13, 64 - 519, -35);
    DividesIntro(13, 64 - 350, -22);
  }

  /** A chord, from the inverse of its run and its slope. */
  lemma Chord(a: Point, b: Point, inv: int, slope: int, r: Point)
    requires !a.IsInfinity() && !b.IsInfinity() && a.x != b.x
    requires IsInverse((b.x - a.x) % 13, 13, inv) && (b.x - a.x) % 13 >= 1
    requires slope == ((b.y - a.y) % 13 * inv) % 13
    requires r.x == (slope * slope - a.x - b.x) % 13
    requires r.y == (slope * (a.x - r.x) - a.y) % 13
    ensures EcAdd(13, a, b) == Ok(r)
  {
    hide ModInverse, Mod, IsInverse;
    ModInverseCorrect((b.x - a.x) % 13, 13);
  }

  lemma Vertical(a: Point, b: Point)
    requires !a.IsInfinity() && !b.IsInfinity() && a.x == b.x && a.y != b.y
    ensures EcAdd(13, a, b) == Ok(INFINITY)
  {
  }

  /** A tangent, from the inverse of 2y and its slope. */
  lemma Tangent(a: Point, inv: int, slope: int, r: Point)
    requires !a.IsInfinity() && a.y > 0 && IsInverse(2 * a.y, 13, inv)
    requires slope == ((3 * (a.x * a.x)) % 13 * inv) % 13
    requires r.x == (slope * slope - 2 * a.x) % 13
    requires r.y == (slope * (a.x - r.x) - a.y) % 13
    ensures EcAdd(13, a, a) == Ok(r)
  {
    hide ModInverse, Mod, IsInverse;
    ModInverseCorrect(2 * a.y, 13);
  }

  lemma Row1()
    ensures EcAdd(13, Point(7, 5), Point(7, 5)) == Ok(Point(8, 5))
    ensures EcAdd(13, Point(7, 5), Point(8, 5)) == Ok(Point(11, 8))
    ensures EcAdd(13, Point(7, 5), Point(11, 8)) == Ok(Point(11, 5))
    ensures EcAdd(13, Point(7, 5), Point(11, 5)) == Ok(Point(8, 8))
    ensures EcAdd(13, Point(7, 5), Point(8, 8)) == Ok(Point(7, 8))
    ensures EcAdd(13, Point(7, 5), Point(7, 8)) == Ok(Point(0, 0))
  {
    hide EcAdd, EcDouble;
    Tangent(Point(7, 5), 4, 3, Point(8, 5));
    Chord(Point(7, 5), Point(8, 5), 1, 0, Point(11, 8));
    Chord(Point(7, 5), Point(11, 8), 10, 4, Point(11, 5));
    Chord(Point(7, 5), Point(11, 5), 10, 0, Point(8, 8));
    Chord(Point(7, 5), Point(8, 8), 1, 3, Point(7, 8));
    Vertical(Point(7, 5), Point(7, 8));
  }

  lemma Row2()
    ensures EcAdd(13, Point(8, 5), Point(8, 5)) == Ok(Point(11, 5))
    ensures EcAdd(13, Point(8, 5), Point(11, 8)) == Ok(Point(8, 8))
    ensures EcAdd(13, Point(8, 5), Point(11, 5)) == Ok(Point(7, 8))
    ensures EcAdd(13, Point(8, 5), Point(8, 8)) == Ok(Point(0, 0))
    ensures EcAdd(13, Point(8, 5), Point(7, 8)) == Ok(Point(7, 5))
  {
    hide EcAdd, EcDouble;
    Tangent(Point(8, 5), 4, 1, Point(11, 5));
    Chord(Point(8, 5), Point(11, 8), 9, 1, Point(8, 8));
    Chord(Point(8, 5), Point(11, 5), 9, 0, Point(7, 8));
    Vertical(Point(8, 5), Point(8, 8));
    Chord(Point(8, 5), Point(7, 8), 12, 10, Point(7, 5));
  }

  lemma Row3()
    ensures EcAdd(13, Point(11, 8), Point(11, 8)) == Ok(Point(7, 8))
    ensures EcAdd(13, Point(11, 8), Point(11, 5)) == Ok(Point(0, 0))
    ensures EcAdd(13, Point(11, 8), Point(8, 8)) == Ok(Point(7, 5))
    ensures EcAdd(13, Point(11, 8), Point(7, 8)) == Ok(Point(8, 5))
  {
    hide EcAdd, EcDouble;
    Tangent(Point(11, 8), 9, 4, Point(7, 8));
    Vertical(Point(11, 8), Point(11, 5));
    Chord(Point(11, 8), Point(8, 8), 4, 0, Point(7, 5));
    Chord(Point(11, 8), Point(7, 8), 3, 0, Point(8, 5));
  }

  lemma Row4()
    ensures EcAdd(13, Point(11, 5), Point(11, 5)) == Ok(Point(7, 5))
    ensures EcAdd(13, Point(11, 5), Point(8, 8)) == Ok(Point(8, 5))
    ensures EcAdd(13, Point(11, 5), Point(7, 8)) == Ok(Point(11, 8))
  {
    hide EcAdd, EcDouble;
    Tangent(Point(11, 5), 4, 9, Point(7, 5));
    Chord(Point(11, 5), Point(8, 8), 4, 12, Point(8, 5));
    Chord(Point(11, 5), Point(7, 8), 3, 9, Point(11, 8));
  }

  lemma Row5()
    ensures EcAdd(13, Point(8, 8), Point(8, 8)) == Ok(Point(11, 8))
    ensures EcAdd(13, Point(8, 8), Point(7, 8)) == Ok(Point(11, 5))
  {
    hide EcAdd, EcDouble;
    Tangent(Point(8, 8), 9, 12, Point(11, 8));
    Chord(Point(8, 8), Point(7, 8), 12, 0, Point(11, 5));
  }

  lemma Row6()
    ensures EcAdd(13, Point(7, 8), Point(7, 8)) == Ok(Point(8, 8))
  {
    hide EcAdd, EcDouble;
    Tangent(Point(7, 8), 9, 10, Point(8, 8));
  }

  /** The addition table above its diagonal. */
  lemma UpperTable(j: nat, k: nat)
    requires j <= k < 7
    ensures EcAdd(13, Point7(j), Point7(k)) == Ok(Point7(j + k))
  {
    hide EcAdd;
    if j == 0 { EcAddIdentity(13, Point7(k)); } else if j == 1 { Row1(); } else if j == 2 { Row2(); } else if j == 3 { Row3(); }
    else if j == 4 { Row4(); } else if j == 5 { Row5(); } else if j == 6 { Row6(); }
  }

  lemma Table(j: nat, k: nat)
    requires j < 7 && k < 7
    ensures EcAdd(13, Point7(j), Point7(k)) == Ok(Point7(j + k))
  {
    if j <= k {
      UpperTable(j, k);
    } else {
      UpperTable(k, j);
      PrimeThirteen();
      TableOnCurve(j);
      TableOnCurve(k);
      EcAddCommutative(13, Point7(j), Point7(k));
    }
  }

  lemma Reduce(k: nat)
    ensures Point7(k) == Point7(k % 7)
  {
  }

  /** The group law holds, so every result about it applies to at least this curve. */
  lemma GroupLawHolds()
    ensures GroupLaw(13)
  {
    Good();
    forall a, b, c | Valid(13, a) && Valid(13, b) && Valid(13, c)
      ensures Plus(13, Plus(13, a, b), c) == Plus(13, a, Plus(13, b, c))
    {
      Enumeration(a);
      Enumeration(b);
      Enumeration(c);
      var i: nat :| i < 7 && a == Point7(i);
      var j: nat :| j < 7 && b == Point7(j);
      var k: nat :| k < 7 && c == Point7(k);
      Triple(i, j, k);
    }
  }

  /** The sum of two tabulated points, by the index of the result. */
  lemma PlusTable(j: nat, k: nat)
    requires j < 7 && k < 7 && GoodCurve(13) && Valid(13, Point7(j)) && Valid(13, Point7(k))
    ensures Plus(13, Point7(j), Point7(k)) == Point7((j + k) % 7)
  {
    hide Point7, EcAdd, GoodCurve, OnCurve;
    Table(j, k);
    Reduce(j + k);
  }

  lemma Triple(i: nat, j: nat, k: nat)
    requires i < 7 && j < 7 && k < 7 && GoodCurve(13)
    requires Valid(13, Point7(i)) && Valid(13, Point7(j)) && Valid(13, Point7(k))
    ensures Plus(13, Plus(13, Point7(i), Point7(j)), Point7(k)) == Plus(13, Point7(i), Plus(13, Point7(j), Point7(k)))
  {
    hide Point7, EcAdd, GoodCurve, OnCurve, Valid;
    var ij, jk := (i + j) % 7, (j + k) % 7;
    PlusTable(i, j);
    PlusTable(j, k);
    PlusTable(ij, k);
    PlusTable(i, jk);
    assert (ij + k) % 7 == (i + jk) % 7 by {
      ReduceSummand(i + j, k, 7);
      ReduceSummand(j + k, i, 7);
    }
  }

  /** The base point (7, 5) has order seven: the whole setting of the signer is satisfiable. */
  lemma DomainExists()
    ensures EcdsaSigner.Domain(EcdsaSigner.KeyGenerator(13, 7, Point(7, 5)))
  {
    GroupLawHolds();
    PrimeThirteen();
    TableOnCurve(1);
    assert Point7(1) == Point(7, 5);
    TimesTable(7);
    assert Point7(7) == INFINITY;
  }

  lemma {:induction false} TimesTable(k: nat)
    requires GoodCurve(13) && Valid(13, Point7(1))
    ensures Times(13, k, Point7(1)) == Point7(k)
  {
    hide EcAdd, GoodCurve, OnCurve;
    if k != 0 {
      TimesTable(k - 1);
      Reduce(k - 1);
      Table((k - 1) % 7, 1);
      Reduce((k - 1) % 7 + 1);
    }
  }

  // ----- the three outcomes of the round trip -----

  const KEY := EcdsaSigner.KeyGenerator(13, 7, Point(7, 5))

  lemma SignedWith(e: int, k: nat)
    requires 1 <= k <= 2
    ensures EcdsaSigner.Domain(KEY)
    ensures EcdsaSigner.SignMessage(KEY, 1, e, [k]).Ok? && EcdsaSigner.SignMessage(KEY, 1, e, [k]).value.Some?
    ensures EcdsaSigner.SignMessage(KEY, 1, e, [k]).value.value.x == if k == 1 then 7 else 8
    ensures Times(13, 1, Point(7, 5)) == Point(7, 5)
  {
    hide EcMul, EcdsaSigner.Domain, GroupLaw, Times, IsInverse, ModInverse;
    DomainExists();
    DomainParts();
    TableOnCurve(1);
    TimesTable(1);
    TimesTable(k);
    assert [k][0] == k && Point7(1) == Point(7, 5) && Point7(2) == Point(8, 5);
    EcMulCorrect(13, 7, k, Point(7, 5));
    EcdsaSigner.NotDivides(7, k);
    var inverse := InverseModPrime(k, 7);
  }

  lemma DomainParts()
    requires EcdsaSigner.Domain(KEY)
    ensures GroupLaw(13) && GoodCurve(13) && Prime(7) && Valid(13, Point(7, 5))
  {
  }

  /** With key 1 on this curve: one signature is accepted, one makes the verifier throw, and one is refused. */
  lemma OutcomesOccur()
    ensures Verdict(1, 2) == Ok(true)
    ensures Verdict(0, 2) == Err(InvalidPrivateKey) == Verdict(1, 1)
    ensures Verdict(6, 2) == Ok(false)
  {
    hide EcdsaSigner.Domain, EcdsaSigner.SignMessage, EcdsaSigner.VerifySignature, Times, EcMul;
    forall e, k: nat | 1 <= k <= 2
      ensures Verdict(e, k) == EcdsaSigner.RoundTripOutcome(7, e, if k == 1 then 7 else 8, 1)
    {
      SignedWith(e, k);
      EcdsaSigner.SignThenVerify(KEY, 1, e, [k]);
    }
  }

  /** A received pair whose s is a multiple of the order makes the verifier divide by zero. */
  lemma ReceivedPairThrows()
    ensures EcdsaSigner.VerifySignature(KEY, Point(8, 7), 1, Point(7, 5)) == Err(DivisionByZero)
  {
    hide EcdsaSigner.VerifySignature, Times;
    SignedWith(1, 2);
    var w := EcdsaSigner.VerifyReceived(KEY, Point(8, 7), 1, 1);
  }

  /** The verifier's answer to the signature of e with nonce k; signing itself does not fail for these. */
  function Verdict(e: int, k: nat): Result<bool, Error> {
    var signature := EcdsaSigner.SignMessage(KEY, 1, e, [k]);
    if signature.Ok? && signature.value.Some?
    then EcdsaSigner.VerifySignature(KEY, signature.value.value, e, Point(7, 5))
    else Err(DivisionByZero)
  }
}
