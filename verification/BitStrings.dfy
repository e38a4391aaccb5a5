/** Strings of binary digits, most significant first, and the numbers they denote. */
module BitStrings {
  import Arithmetic
  import opened Sequences

  type Bit = b: nat | b < 2

  type Bits = seq<Bit>

  function Zeros(n: nat): (z: Bits)
    ensures |z| == n && forall i | 0 <= i < n :: z[i] == 0
  {
    Repeat(0, n)
  }

  /** The lowest bits of a number, most significant first. */
  function BitsOf(n: nat, width: nat): (bits: Bits)
    ensures |bits| == width
  {
    if width == 0 then [] else BitsOf(n / 2, width - 1) + [n % 2]
  }

  /** The number a string of binary digits denotes; none denote zero. */
  function ValueOf(bits: Bits): nat {
    if bits == [] then 0 else 2 * ValueOf(bits[..|bits| - 1]) + bits[|bits| - 1]
  }

  function Power2(n: nat): (p: nat)
    ensures p > 0
  {
    if n == 0 then 1 else 2 * Power2(n - 1)
  }

  lemma {:induction false} ValueBound(bits: Bits)
    ensures ValueOf(bits) < Power2(|bits|)
  {
    if bits != [] {
      ValueBound(bits[..|bits| - 1]);
    }
  }

  lemma {:induction false} LeadingZero(bits: Bits)
    ensures ValueOf([0] + bits) == ValueOf(bits)
  {
    var n := |bits|;
    if n == 0 {
      assert ([0] + bits)[..0] == [];
    } else {
      LeadingZero(bits[..n - 1]);
      assert ([0] + bits)[..n] == [0] + bits[..n - 1];
    }
  }

  lemma {:induction false} ZerosAreZero(bits: Bits)
    requires forall i | 0 <= i < |bits| :: bits[i] == 0
    ensures ValueOf(bits) == 0
  {
    if bits != [] {
      ZerosAreZero(bits[..|bits| - 1]);
    }
  }

  lemma {:induction false} SmallNumberBits(n: nat, v: nat, width: nat)
    requires v <= width && n < Power2(v)
    ensures BitsOf(n, width) == Zeros(width - v) + BitsOf(n, v)
  {
    if v == 0 {
      ZeroBits(width);
      assert BitsOf(n, width) == Zeros(width) + [];
    } else {
      SmallNumberBits(n / 2, v - 1, width - 1);
      assert Zeros(width - v) + BitsOf(n / 2, v - 1) + [n % 2] == Zeros(width - v) + (BitsOf(n / 2, v - 1) + [n % 2]);
    }
  }

  lemma {:induction false} ZeroBits(width: nat)
    ensures BitsOf(0, width) == Zeros(width)
  {
    if width > 0 {
      ZeroBits(width - 1);
      assert Zeros(width - 1) + [0] == Zeros(width);
    }
  }

  lemma {:induction false} PowerMonotone(a: nat, b: nat)
    requires a <= b
    ensures Power2(a) <= Power2(b)
  {
    if a < b {
      PowerMonotone(a, b - 1);
    }
  }

  lemma {:induction false} ValueOfBits(n: nat, width: nat)
    requires n < Power2(width)
    ensures ValueOf(BitsOf(n, width)) == n
  {
    if width > 0 {
      ValueOfBits(n / 2, width - 1);
      assert BitsOf(n, width)[..width - 1] == BitsOf(n / 2, width - 1);
    }
  }

  lemma {:induction false} BitsOfValue(bits: Bits)
    ensures BitsOf(ValueOf(bits), |bits|) == bits
  {
    if bits != [] {
      var n := |bits| - 1;
      BitsOfValue(bits[..n]);
      assert ValueOf(bits) / 2 == ValueOf(bits[..n]) && ValueOf(bits) % 2 == bits[n];
    }
  }

  // ----- digits in powers of two -----

  lemma PowerSum(a: nat, b: nat)
    ensures Power2(a + b) == Power2(a) * Power2(b)
  {
    if a > 0 {
      PowerSum(a - 1, b);
    }
  }

  /** Dividing twice is dividing by the product. */
  lemma DivideTwice(n: nat, a: nat, b: nat)
    requires a > 0 && b > 0
    ensures n / a / b == n / (a * b)
  {
    var m, c := n / a, n % a;
    var q, r := m / b, m % b;
    Quotients(n, a, b, m, c, q, r);
  }

  lemma Quotients(n: nat, a: nat, b: nat, m: nat, c: nat, q: nat, r: nat)
    requires n == m * a + c && m == q * b + r && c < a && r < b
    ensures a * b > 0 && n / (a * b) == q
  {
    Arithmetic.MulMonotone(r + 1, b, a);
    Products(n, a, b, m, c, q, r);
    Arithmetic.MulMonotone(0, r, a);
    Arithmetic.DivisionUnique(n, a * b, q, r * a + c);
  }

  lemma Products(n: nat, a: nat, b: nat, m: nat, c: nat, q: nat, r: nat)
    requires n == m * a + c && m == q * b + r
    ensures n == q * (a * b) + (r * a + c)
  {
    assert m * a == (q * b) * a + r * a;
    assert (q * b) * a == q * (a * b);
  }

  /** Digit i of a number written with so many digits. */
  lemma {:induction false} BitAt(n: nat, width: nat, i: nat)
    requires i < width
    ensures BitsOf(n, width)[i] == n / Power2(width - 1 - i) % 2
  {
    if i < width - 1 {
      BitAt(n / 2, width - 1, i);
      DivideTwice(n, 2, Power2(width - 2 - i));
    }
  }

  lemma DoubledProduct(x: nat, p: nat)
    ensures x * (2 * p) == 2 * (x * p)
  {
  }

  lemma {:induction false} ValueOfConcat(a: Bits, b: Bits)
    ensures ValueOf(a + b) == ValueOf(a) * Power2(|b|) + ValueOf(b)
  {
    if b == [] {
      assert a + b == a;
    } else {
      var n := |b| - 1;
      assert (a + b)[..|a| + n] == a + b[..n];
      ValueOfConcat(a, b[..n]);
      DoubledProduct(ValueOf(a), Power2(n));
    }
  }

  lemma {:induction false} BitsPrefix(n: nat, width: nat, k: nat)
    requires k <= width
    ensures BitsOf(n, width)[..k] == BitsOf(n / Power2(width - k), k)
  {
    if k < width {
      BitsPrefix(n / 2, width - 1, k);
      DivideTwice(n, 2, Power2(width - 1 - k));
      assert BitsOf(n, width)[..k] == BitsOf(n / 2, width - 1)[..k];
    } else {
      assert Power2(0) == 1;
    }
  }

  /** Halving before or after taking the remainder. */
  lemma HalfOfRemainder(n: nat, p: nat)
    requires p > 0
    ensures n % (2 * p) == 2 * (n / 2 % p) + n % 2
    ensures n % (2 * p) / 2 == n / 2 % p && n % (2 * p) % 2 == n % 2
  {
    var q, r := n / 2 / p, n / 2 % p;
    assert n / 2 == q * p + r;
    assert n == q * (2 * p) + (2 * r + n % 2);
    Arithmetic.DivisionUnique(n, 2 * p, q, 2 * r + n % 2);
    Arithmetic.DivisionUnique(2 * r + n % 2, 2, r, n % 2);
  }

  lemma {:induction false} BitsSuffix(n: nat, width: nat, k: nat)
    requires k <= width
    ensures BitsOf(n, width)[width - k..] == BitsOf(n % Power2(k), k)
  {
    if k > 0 {
      BitsSuffix(n / 2, width - 1, k - 1);
      HalfOfRemainder(n, Power2(k - 1));
      assert Power2(k) == 2 * Power2(k - 1);
      hide Power2;
      assert BitsOf(n, width)[width - k..] == BitsOf(n / 2, width - 1)[width - k..] + [n % 2];
    }
  }

  /** The number that some consecutive digits of a number denote. */
  lemma ValueOfSlice(n: nat, width: nat, start: nat, count: nat)
    requires start + count <= width
    ensures ValueOf(BitsOf(n, width)[start..start + count]) == n / Power2(width - start - count) % Power2(count)
  {
    hide BitsOf, ValueOf, Power2;
    var m := n / Power2(width - start - count);
    BitsPrefix(n, width, start + count);
    BitsSuffix(m, start + count, count);
    assert BitsOf(n, width)[start..start + count] == BitsOf(n, width)[..start + count][start..];
    ValueOfBits(m % Power2(count), count);
  }
}
