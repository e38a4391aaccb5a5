/** Signing and verifying, and exactly when a signature just made is accepted. */
module EcdsaSigner {
  import opened Arithmetic
  import opened ModularInverse
  import opened Wrappers
  import opened Curve
  import opened ScalarMultiplication

  /** The constants of the key generator: field prime, group order and base point. */
  datatype KeyGenerator = KeyGenerator(p: int, n: int, g: Point)

  /** The base point has prime order n in the group of the curve. */
  ghost predicate Domain(key: KeyGenerator) {
    && GroupLaw(key.p) && Prime(key.n)
    && OnCurve(key.p, key.g) && Times(key.p, key.n, key.g) == INFINITY
  }

  function SignatureWith(key: KeyGenerator, privKey: int, e: int, k: int, r: int): Result<Point, Error>
    requires key.n > 0
  {
    var inverse :- ModInverse(k, key.n);
    Ok(Point(r, Mod(inverse * (e + r * privKey), key.n)))
  }

  /** Signing with the random numbers drawn in order; None when all of them were drawn and refused. */
  function SignMessage(key: KeyGenerator, privKey: int, e: int, draws: seq<nat>): Result<Option<Point>, Error>
    requires key.p > 1 && key.n > 0
  {
    if draws == [] then Ok(None)
    else
      var point :- EcMul(key.p, key.n, draws[0], key.g);
      if point.x == 0 then SignMessage(key, privKey, e, draws[1..])
      else
        var signature :- SignatureWith(key, privKey, e, draws[0], point.x);
        Ok(Some(signature))
  }

  /** The do-while loop of the source, on the sequence of random draws. */
  method ComputeSignMessage(key: KeyGenerator, privKey: int, e: int, draws: seq<nat>)
    returns (r: Result<Option<Point>, Error>)
    requires key.p > 1 && key.n > 0
    ensures r == SignMessage(key, privKey, e, draws)
  {
    var i := 0;
    while i < |draws|
      invariant 0 <= i <= |draws|
      invariant SignMessage(key, privKey, e, draws[i..]) == SignMessage(key, privKey, e, draws)
    {
      var k := draws[i];
      assert draws[i..][1..] == draws[i + 1..];
      var point :- ComputeEcMul(key.p, key.n, k, key.g);
      if point.x != 0 {
        var inverse :- ComputeModInverse(k, key.n);
        return Ok(Some(Point(point.x, Mod(inverse * (e + point.x * privKey), key.n))));
      }
      i := i + 1;
    }
    return Ok(None);
  }

  function VerifySignature(key: KeyGenerator, rs: Point, e: int, publicKey: Point): Result<bool, Error>
    requires key.p > 1 && key.n > 0
  {
    var inverse :- ModInverse(rs.y, key.n);
    var s1 := Mod(inverse, key.n);
    var u1 := Mod(e * s1, key.n);
    var u2 := Mod(rs.x * s1, key.n);
    var left :- EcMul(key.p, key.n, u1, key.g);
    var right :- EcMul(key.p, key.n, u2, publicKey);
    var pnt :- EcAdd(key.p, left, right);
    Ok(pnt.x == rs.x)
  }

  // ----- exponents -----

  lemma NonceTimesSignature(n: int, t: int, k: int, inv: int, s: int)
    requires Congruent(k * inv, 1, n) && Congruent(s, inv * t, n)
    ensures Congruent(k * s, t, n)
  {
    hide Divides;
    DividesCombination(n, k, s - inv * t, t, k * inv - 1);
    assert k * (s - inv * t) == k * s - k * inv * t;
    assert t * (k * inv - 1) == k * inv * t - t;
  }

  lemma FactorsAdded(n: int, e: int, r: int, d: int, w: int, u1: int, u2: int)
    requires Congruent(u1, e * w, n) && Congruent(u2, r * w, n)
    ensures Congruent(u1 + u2 * d, w * (e + r * d), n)
  {
    hide Divides;
    DividesCombination(n, 1, u1 - e * w, d, u2 - r * w);
    assert d * (u2 - r * w) == u2 * d - r * w * d;
    assert w * (e + r * d) == e * w + r * w * d;
  }

  /** With k s = t and w s = 1 modulo n, the multiple w t is the nonce k. */
  lemma VerifierExponentInverse(n: int, t: int, k: int, s: int, w: int)
    requires Congruent(k * s, t, n) && Congruent(w * s, 1, n)
    ensures Congruent(w * t, k, n)
  {
    hide Divides;
    DividesCombination(n, -w, k * s - t, k, w * s - 1);
    assert -w * (k * s - t) == w * t - w * (k * s);
    assert k * (w * s - 1) == w * (k * s) - k;
  }

  /** A multiple by an invertible factor vanishes exactly when the number does. */
  lemma FactorVanishes(n: int, e: int, w: int, s: int, u: int)
    requires n > 1 && Congruent(w * s, 1, n) && Congruent(u, e * w, n) && 0 <= u < n
    ensures u == 0 <==> Divides(n, e)
  {
    if u == 0 {
      DividesCombination(n, -1, u - e * w, 0, 0) by { DividesIntro(n, 0, 0); }
      assert w * e == e * w;
      Cancel(n, w, s, e);
    }
    if Divides(n, e) {
      DividesCombination(n, 1, u - e * w, w, e);
      SmallMultipleIsZero(n, u);
    }
  }

  /** The sum the verifier forms is the (u1 + u2 d)-fold base point. */
  lemma VerifierPoint(key: KeyGenerator, d: nat, u1: nat, u2: nat)
    requires Domain(key)
    ensures u1 + u2 * d >= 0
    ensures Plus(key.p, Times(key.p, u1, key.g), Times(key.p, u2, Times(key.p, d, key.g)))
         == Times(key.p, (u1 + u2 * d) % key.n, key.g)
  {
    hide EcAdd, EcDouble, OnCurve, Divides, HasPointOfOrderTwo, Associative, Times;
    TimesTimes(key.p, u2, d, key.g);
    TimesAdd(key.p, u1, u2 * d, key.g);
    TimesModOrder(key.p, key.n, u1 + u2 * d, key.g);
  }

  lemma Remainder(n: int, x: int)
    requires n > 0
    ensures Divides(n, x) <==> x % n == 0
  {
  }

  lemma MultipleNotCoprime(n: int, s: int)
    requires n > 1 && s % n == 0
    ensures !Coprime(s, n)
  {
    Remainder(n, s);
    DividesIntro(n, n, 1);
  }

  /** The verifier's inverse of s: none for a multiple of n other than 0, 1 for 0, and otherwise a true inverse. */
  lemma VerifierInverse(n: int, s: int) returns (w: int)
    requires Prime(n) && s >= 0
    ensures s > 0 && s % n == 0 ==> ModInverse(s, n) == Err(DivisionByZero)
    ensures s == 0 || s % n != 0 ==>
              ModInverse(s, n) == Ok(w) && 0 < w < n && Congruent(w * (if s == 0 then 1 else s), 1, n)
    ensures s == 0 ==> w == 1
  {
    hide Divides, ModInverse;
    if s == 0 {
      w := 1;
      ModInverseOutsideLoop(0, n);
      DividesIntro(n, 1 * 1 - 1, 0);
    } else if s % n == 0 {
      MultipleNotCoprime(n, s);
      ModInverseCorrect(s, n);
      w := 0;
    } else {
      Remainder(n, s);
      w := InverseModPrime(s, n);
      assert s * w == w * s;
      if w == 0 {
        SmallMultipleIsZero(n, 0 - 1);
      }
    }
  }

  // ----- any received pair -----

  /** What the verifier answers once it has the inverse of s. */
  lemma VerdictWithInverse(key: KeyGenerator, rs: Point, e: int, d: nat, w: int)
    requires Domain(key) && 0 < d <= key.n && ModInverse(rs.y, key.n) == Ok(w) && 0 < w < key.n
    ensures var u1, u2 := Mod(e * w, key.n), Mod(rs.x * w, key.n);
            VerifySignature(key, rs, e, Times(key.p, d, key.g)) ==
            if u1 == 0 || u2 == 0 then Err(InvalidPrivateKey)
            else Ok(Times(key.p, (u1 + u2 * d) % key.n, key.g).x == rs.x)
  {
    hide EcAdd, EcDouble, OnCurve, Divides, HasPointOfOrderTwo, Associative, Times, EcMul, ModInverse;
    assert Mod(w, key.n) == w by { DivisionUnique(w, key.n, 0, w); }
    var u1, u2 := Mod(e * w, key.n), Mod(rs.x * w, key.n);
    EcMulCorrect(key.p, key.n, u1, key.g);
    EcMulCorrect(key.p, key.n, u2, Times(key.p, d, key.g));
    VerifierPoint(key, d, u1, u2);
  }

  /**
   * The verdict on every received pair: it throws when s is a multiple of n other than 0, and when e or r is 0
   * modulo n; otherwise r is compared with the abscissa of the w (e + r d)-fold base point, w being the inverse
   * taken for s.
   */
  lemma VerifyReceived(key: KeyGenerator, rs: Point, e: int, d: nat) returns (w: int)
    requires Domain(key) && 0 < d <= key.n && rs.y >= 0
    ensures rs.y == 0 || rs.y % key.n != 0 ==>
              ModInverse(rs.y, key.n) == Ok(w) && Congruent(w * (if rs.y == 0 then 1 else rs.y), 1, key.n)
    ensures VerifySignature(key, rs, e, Times(key.p, d, key.g)) ==
            if rs.y > 0 && rs.y % key.n == 0 then Err(DivisionByZero)
            else if e % key.n == 0 || rs.x % key.n == 0 then Err(InvalidPrivateKey)
            else Ok(Times(key.p, (w * (e + rs.x * d)) % key.n, key.g).x == rs.x)
  {
    hide EcAdd, OnCurve, Divides, HasPointOfOrderTwo, Associative, Times, EcMul, ModInverse, Congruent;
    var n := key.n;
    w := VerifierInverse(n, rs.y);
    if rs.y == 0 || rs.y % n != 0 {
      var u1, u2 := Mod(e * w, n), Mod(rs.x * w, n);
      VerdictWithInverse(key, rs, e, d, w);
      FactorVanishes(n, e, w, if rs.y == 0 then 1 else rs.y, u1);
      FactorVanishes(n, rs.x, w, if rs.y == 0 then 1 else rs.y, u2);
      Remainder(n, e);
      Remainder(n, rs.x);
      FactorsAdded(n, e, rs.x, d, w, u1, u2);
      CongruentRemainders(u1 + u2 * d, w * (e + rs.x * d), n);
    }
  }

  // ----- the round trip -----

  /** A finished signature comes from a drawn k of 1..n-1 whose point has the nonzero abscissa r. */
  lemma {:induction false} SignatureOrigin(key: KeyGenerator, privKey: int, e: int, draws: seq<nat>)
      returns (k: nat, inverse: int)
    requires Domain(key) && SignMessage(key, privKey, e, draws).Ok?
    requires SignMessage(key, privKey, e, draws).value.Some?
    ensures k in draws && 0 < k < key.n
    ensures var rs := SignMessage(key, privKey, e, draws).value.value;
            && rs.x == Times(key.p, k, key.g).x != 0 && 0 <= rs.y < key.n
            && Congruent(k * inverse, 1, key.n)
            && Congruent(rs.y, inverse * (e + rs.x * privKey), key.n)
  {
    hide EcAdd, EcDouble, OnCurve, Divides, HasPointOfOrderTwo, Associative, Times, EcMul;
    EcMulCorrect(key.p, key.n, draws[0], key.g);
    if EcMul(key.p, key.n, draws[0], key.g).value.x == 0 {
      k, inverse := SignatureOrigin(key, privKey, e, draws[1..]);
    } else {
      k := draws[0];
      NotDivides(key.n, k);
      inverse := InverseModPrime(k, key.n);
    }
  }

  /** With every draw in 1..n-1 signing never throws, and it succeeds as soon as one draw gives a nonzero abscissa. */
  lemma {:induction false} SigningSucceedsIff(key: KeyGenerator, privKey: int, e: int, draws: seq<nat>)
    requires Domain(key) && forall i | 0 <= i < |draws| :: 0 < draws[i] < key.n
    ensures SignMessage(key, privKey, e, draws).Ok?
    ensures SignMessage(key, privKey, e, draws).value.Some? <==>
              exists i | 0 <= i < |draws| :: Times(key.p, draws[i], key.g).x != 0
  {
    hide EcAdd, EcDouble, OnCurve, Divides, HasPointOfOrderTwo, Associative, Times, EcMul;
    if draws != [] {
      EcMulCorrect(key.p, key.n, draws[0], key.g);
      if Times(key.p, draws[0], key.g).x == 0 {
        SigningSucceedsIff(key, privKey, e, draws[1..]);
        assert forall i | 1 <= i < |draws| :: draws[i] == draws[1..][i - 1];
      } else {
        NotDivides(key.n, draws[0]);
        var inverse := InverseModPrime(draws[0], key.n);
      }
    }
  }

  lemma NotDivides(n: int, k: int)
    requires 0 < k < n
    ensures !Divides(n, k)
  {
    if Divides(n, k) {
      SmallMultipleIsZero(n, k);
    }
  }

  /** What the verifier answers to a signature the signer just made, case by case. */
  function RoundTripOutcome(n: int, e: int, r: int, privKey: int): Result<bool, Error>
    requires n > 0
  {
    if e % n == 0 || r % n == 0 then Err(InvalidPrivateKey)
    else Ok((e + r * privKey) % n != 0)
  }

  /**
   * The round trip: a signature made with key d on e is accepted against d * G exactly when e, r and
   * e + r d are all nonzero modulo n. When e or r vanishes the verifier throws; otherwise it refuses.
   */
  lemma SignThenVerify(key: KeyGenerator, d: nat, e: int, draws: seq<nat>)
    requires Domain(key) && 0 < d <= key.n
    requires SignMessage(key, d, e, draws).Ok? && SignMessage(key, d, e, draws).value.Some?
    ensures EcMul(key.p, key.n, d, key.g) == Ok(Times(key.p, d, key.g))
    ensures var rs := SignMessage(key, d, e, draws).value.value;
            VerifySignature(key, rs, e, Times(key.p, d, key.g)) == RoundTripOutcome(key.n, e, rs.x, d)
  {
    hide EcAdd, EcDouble, OnCurve, Divides, HasPointOfOrderTwo, Associative, Times, EcMul, ModInverse, SignMessage;
    EcMulCorrect(key.p, key.n, d, key.g);
    var rs := SignMessage(key, d, e, draws).value.value;
    var k, inverse := SignatureOrigin(key, d, e, draws);
    var w := VerifyReceived(key, rs, e, d);
    assert rs.y > 0 ==> rs.y % key.n != 0 by { DivisionUnique(rs.y, key.n, 0, rs.y); }
    SignedPoint(key, e, d, k, inverse, rs, w);
  }

  /** The point compared is the nonce's own, unless e + r d vanishes; then it is infinity. */
  lemma SignedPoint(key: KeyGenerator, e: int, d: nat, k: nat, inverse: int, rs: Point, w: int)
    requires Domain(key) && 0 < k < key.n && 0 <= rs.y < key.n
    requires rs.x == Times(key.p, k, key.g).x != 0
    requires Congruent(k * inverse, 1, key.n) && Congruent(rs.y, inverse * (e + rs.x * d), key.n)
    requires rs.y != 0 ==> Congruent(w * rs.y, 1, key.n)
    ensures Times(key.p, (w * (e + rs.x * d)) % key.n, key.g).x == rs.x <==> (e + rs.x * d) % key.n != 0
  {
    hide OnCurve, HasPointOfOrderTwo, Associative, Divides, EcAdd;
    var n, t := key.n, e + rs.x * d;
    NonceTimesSignature(n, t, k, inverse, rs.y);
    if rs.y == 0 {
      assert k * rs.y == 0;
      CongruentSymmetric(0, t, n);
      CongruentRemainders(t, 0, n);
      MultipleVanishes(n, w, t);
    } else {
      VerifierExponentInverse(n, t, k, rs.y, w);
      CongruentRemainders(w * t, k, n);
      SumNotZero(n, k, rs.y, t);
    }
  }

  lemma MultipleVanishes(n: int, w: int, t: int)
    requires n > 0 && t % n == 0
    ensures (w * t) % n == 0
  {
    Remainder(n, t);
    DividesCombination(n, w, t, 0, 0) by { DividesIntro(n, 0, 0); }
    Remainder(n, w * t);
  }

  lemma SumNotZero(n: int, k: int, s: int, t: int)
    requires Prime(n) && 0 < k < n && 0 < s < n && Congruent(k * s, t, n)
    ensures t % n != 0 && k % n == k
  {
    DivisionUnique(k, n, 0, k);
    if t % n == 0 {
      DividesCombination(n, 1, k * s - t, 1, t);
      PrimeProduct(n, k, s);
      NotDivides(n, k);
      NotDivides(n, s);
    }
  }
}
