/** Multiplication of bytes in the field of AES, and the two column matrices. */
module AesField {
  import opened AesBits

  /** Doubling: shift out the high bit and reduce by 0x1B when it was set. */
  function XTime(a: bv8): bv8 {
    if HighBit(a) then Xor(ShiftLeft(a), 0x1B) else ShiftLeft(a)
  }

  /** The loop of the multiplication from round i on. */
  function GMulFrom(a: bv8, b: bv8, i: nat, result: bv8): bv8
    requires i <= 8
    decreases 8 - i
  {
    if i == 8 then result
    else GMulFrom(XTime(a), ShiftRight(b), i + 1, if LowBit(b) then Xor(result, a) else result)
  }

  function GMul(a: bv8, b: bv8): bv8 {
    GMulFrom(a, b, 0, 0)
  }

  /** The loop of the source: add a for every low bit of b, double a, halve b. */
  method ComputeGMul(a: bv8, b: bv8) returns (result: bv8)
    ensures result == GMul(a, b)
  {
    hide Xor, ShiftLeft, ShiftRight, LowBit, HighBit;
    result := 0;
    var a', b' := a, b;
    for i := 0 to 8
      invariant GMulFrom(a', b', i, result) == GMul(a, b)
    {
      if LowBit(b') {
        result := Xor(result, a');
      }
      var highBit := HighBit(a');
      a' := ShiftLeft(a');
      if highBit {
        a' := Xor(a', 0x1B);
      }
      b' := ShiftRight(b');
    }
  }

  lemma XTimeLinear(a: bv8, b: bv8)
    ensures XTime(Xor(a, b)) == Xor(XTime(a), XTime(b))
  {
    hide Xor, ShiftLeft, HighBit;
    ShiftsLinear(a, b);
    BitsOfXor(a, b);
    var s, t, m := ShiftLeft(a), ShiftLeft(b), 0x1B;
    XorInterchange(s, m, t, m);
    XorInterchange(s, m, t, 0);
    XorUnit(m);
    XorUnit(t);
    XorUnit(Xor(s, t));
    XorAssociative(s, t, m);
  }

  // ----- multiplication is linear in both arguments -----

  lemma {:induction false} GMulFromLinear(a: bv8, a': bv8, b: bv8, i: nat, r: bv8, r': bv8)
    requires i <= 8
    ensures GMulFrom(Xor(a, a'), b, i, Xor(r, r')) == Xor(GMulFrom(a, b, i, r), GMulFrom(a', b, i, r'))
    decreases 8 - i
  {
    hide XTime, Xor, ShiftRight, LowBit;
    if i < 8 {
      XTimeLinear(a, a');
      if LowBit(b) {
        GMulFromLinear(XTime(a), XTime(a'), ShiftRight(b), i + 1, Xor(r, a), Xor(r', a'));
        XorInterchange(r, a, r', a');
      } else {
        GMulFromLinear(XTime(a), XTime(a'), ShiftRight(b), i + 1, r, r');
      }
    }
  }

  /** Multiplication by any fixed byte respects XOR. */
  lemma GMulLinear(a: bv8, a': bv8, b: bv8)
    ensures GMul(Xor(a, a'), b) == Xor(GMul(a, b), GMul(a', b))
  {
    hide GMulFrom, Xor;
    GMulFromLinear(a, a', b, 0, 0, 0);
    XorUnit(0);
  }

  lemma {:induction false} GMulFromLinearSecond(a: bv8, b: bv8, b': bv8, i: nat, r: bv8, r': bv8)
    requires i <= 8
    ensures GMulFrom(a, Xor(b, b'), i, Xor(r, r')) == Xor(GMulFrom(a, b, i, r), GMulFrom(a, b', i, r'))
    decreases 8 - i
  {
    hide XTime, Xor, ShiftRight, LowBit;
    if i < 8 {
      ShiftsLinear(b, b');
      BitsOfXor(b, b');
      var s, s' := if LowBit(b) then Xor(r, a) else r, if LowBit(b') then Xor(r', a) else r';
      GMulFromLinearSecond(XTime(a), ShiftRight(b), ShiftRight(b'), i + 1, s, s');
      XorInterchange(r, a, r', a);
      XorUnit(a);
      XorUnit(Xor(r, r'));
      XorAssociative(r, r', a);
      XorAssociative(r, a, r');
      XorCommutes(a, r');
    }
  }

  /** And any byte, multiplied by a sum, gives the sum of the products. */
  lemma GMulLinearSecond(a: bv8, b: bv8, b': bv8)
    ensures GMul(a, Xor(b, b')) == Xor(GMul(a, b), GMul(a, b'))
  {
    hide GMulFrom, Xor;
    GMulFromLinearSecond(a, b, b', 0, 0, 0);
    XorUnit(0);
  }

  // ----- columns -----

  type Column = c: seq<bv8> | |c| == 4 witness [0, 0, 0, 0]

  function XorColumns(s: Column, t: Column): Column {
    [Xor(s[0], t[0]), Xor(s[1], t[1]), Xor(s[2], t[2]), Xor(s[3], t[3])]
  }

  /** One entry of the product of a matrix row and a column. */
  function Dot(row: Column, s: Column): bv8 {
    Xor(Xor(Xor(GMul(s[0], row[0]), GMul(s[1], row[1])), GMul(s[2], row[2])), GMul(s[3], row[3]))
  }

  datatype Matrix4 = Matrix4(m0: Column, m1: Column, m2: Column, m3: Column)

  const MIX := Matrix4([2, 3, 1, 1], [1, 2, 3, 1], [1, 1, 2, 3], [3, 1, 1, 2])

  const INV_MIX := Matrix4([0x0E, 0x0B, 0x0D, 0x09], [0x09, 0x0E, 0x0B, 0x0D],
                           [0x0D, 0x09, 0x0E, 0x0B], [0x0B, 0x0D, 0x09, 0x0E])

  function MixSingleColumn(m: Matrix4, s: Column): Column {
    [Dot(m.m0, s), Dot(m.m1, s), Dot(m.m2, s), Dot(m.m3, s)]
  }

  lemma DotLinear(row: Column, s: Column, t: Column)
    ensures Dot(row, XorColumns(s, t)) == Xor(Dot(row, s), Dot(row, t))
  {
    hide Xor, GMul;
    GMulLinear(s[0], t[0], row[0]);
    GMulLinear(s[1], t[1], row[1]);
    GMulLinear(s[2], t[2], row[2]);
    GMulLinear(s[3], t[3], row[3]);
    var u, v := Xor(GMul(s[0], row[0]), GMul(s[1], row[1])), Xor(GMul(t[0], row[0]), GMul(t[1], row[1]));
    XorInterchange(GMul(s[0], row[0]), GMul(t[0], row[0]), GMul(s[1], row[1]), GMul(t[1], row[1]));
    XorInterchange(u, v, GMul(s[2], row[2]), GMul(t[2], row[2]));
    XorInterchange(Xor(u, GMul(s[2], row[2])), Xor(v, GMul(t[2], row[2])), GMul(s[3], row[3]), GMul(t[3], row[3]));
  }

  /** Any matrix acts linearly on columns. */
  lemma MixLinear(m: Matrix4, s: Column, t: Column)
    ensures MixSingleColumn(m, XorColumns(s, t)) == XorColumns(MixSingleColumn(m, s), MixSingleColumn(m, t))
  {
    hide Dot, Xor;
    DotLinear(m.m0, s, t);
    DotLinear(m.m1, s, t);
    DotLinear(m.m2, s, t);
    DotLinear(m.m3, s, t);
  }

  // ----- the two matrices are inverse on unit columns -----

  function Unit(i: nat, x: bv8): Column
    requires i < 4
  {
    [0, 0, 0, 0][i := x]
  }

  lemma Decompose(s: Column)
    ensures s == XorColumns(XorColumns(Unit(0, s[0]), Unit(1, s[1])), XorColumns(Unit(2, s[2]), Unit(3, s[3])))
  {
    hide Xor;
    XorUnit(s[0]);
    XorUnit(s[1]);
    XorUnit(s[2]);
    XorUnit(s[3]);
    XorUnit(0);
  }

  lemma {:induction false} GMulZero(b: bv8, i: nat)
    requires i <= 8
    ensures GMulFrom(0, b, i, 0) == 0
    decreases 8 - i
  {
    hide ShiftRight, LowBit;
    if i < 8 {
      GMulZero(ShiftRight(b), i + 1);
    }
  }

  /** A unit column picks one column of a matrix. */
  lemma DotUnit(row: Column, i: nat, x: bv8)
    requires i < 4
    ensures Dot(row, Unit(i, x)) == GMul(x, row[i])
  {
    hide GMulFrom, Xor;
    GMulZero(row[0], 0);
    GMulZero(row[1], 0);
    GMulZero(row[2], 0);
    GMulZero(row[3], 0);
    XorUnit(GMul(x, row[i]));
    XorUnit(0);
  }

  lemma MixUnit(m: Matrix4, i: nat, x: bv8)
    requires i < 4
    ensures MixSingleColumn(m, Unit(i, x)) == [GMul(x, m.m0[i]), GMul(x, m.m1[i]), GMul(x, m.m2[i]), GMul(x, m.m3[i])]
  {
    hide Dot, GMul;
    DotUnit(m.m0, i, x);
    DotUnit(m.m1, i, x);
    DotUnit(m.m2, i, x);
    DotUnit(m.m3, i, x);
  }

  /** The factors 0 to 3. */
  lemma SmallFactors(x: bv8)
    ensures GMul(x, 0) == 0 && GMul(x, 1) == x && GMul(x, 2) == XTime(x) && GMul(x, 3) == Xor(x, XTime(x))
  {
    hide XTime, Xor;
    XorUnit(x);
    XorUnit(XTime(x));
  }

  /** A factor of at most n bits. */
  predicate Fits(b: bv8, n: nat) {
    if n == 0 then b == 0 else Fits(ShiftRight(b), n - 1)
  }

  /** The last round of the loop does nothing for a factor of at most seven bits. */
  lemma {:induction false} IdleRound(a: bv8, b: bv8, i: nat, r: bv8)
    requires i < 8 && Fits(b, 7 - i)
    ensures GMulFrom(a, b, i, r) == GMulFrom(a, b, i + 1, r)
    decreases 8 - i
  {
    hide XTime, Xor;
    if i < 7 {
      hide ShiftRight, LowBit;
      IdleRound(XTime(a), ShiftRight(b), i + 1, if LowBit(b) then Xor(r, a) else r);
    }
  }

  /** Doubling a byte doubles the factor, as long as that does not reach its high bit. */
  lemma DoubledFactor(x: bv8, k: bv8)
    requires !HighBit(k)
    ensures GMul(XTime(x), k) == GMul(x, ShiftLeft(k))
  {
    hide XTime, Xor, ShiftRight, ShiftLeft, LowBit, HighBit;
    SevenBits(k);
    var k3 := ShiftRight(ShiftRight(ShiftRight(k)));
    var k6 := ShiftRight(ShiftRight(ShiftRight(k3)));
    assert Fits(k6, 1) by { assert Fits(ShiftRight(k6), 0); }
    assert Fits(ShiftRight(k3), 3);
    assert Fits(ShiftRight(k), 6) by { assert Fits(k3, 4); }
    IdleRound(XTime(x), k, 0, 0);
  }

  /** Factors of 1, 2 and 3 multiply with those of the inverse matrix as polynomials do. */
  lemma FactorsMultiply(x: bv8, m: bv8, k: bv8)
    requires m in [1, 2, 3] && k in [0x09, 0x0B, 0x0D, 0x0E]
    ensures GMul(GMul(x, m), k) == GMul(x, Xor(if m == 2 then 0 else k, if m == 1 then 0 else ShiftLeft(k)))
  {
    hide GMul, Xor, XTime, ShiftLeft;
    SmallFactors(x);
    assert !HighBit(0x09) && !HighBit(0x0B) && !HighBit(0x0D) && !HighBit(0x0E);
    DoubledFactor(x, k);
    GMulLinear(x, XTime(x), k);
    GMulLinearSecond(x, k, ShiftLeft(k));
    XorUnit(k);
    XorUnit(ShiftLeft(k));
  }

  lemma FourProducts(x: bv8, c0: bv8, c1: bv8, c2: bv8, c3: bv8)
    ensures Xor(Xor(Xor(GMul(x, c0), GMul(x, c1)), GMul(x, c2)), GMul(x, c3))
         == GMul(x, Xor(Xor(Xor(c0, c1), c2), c3))
  {
    hide GMul, Xor;
    GMulLinearSecond(x, c0, c1);
    GMulLinearSecond(x, Xor(c0, c1), c2);
    GMulLinearSecond(x, Xor(Xor(c0, c1), c2), c3);
  }

  /** An inverse row times a mixed unit column is the byte times one factor. */
  lemma RowTimesMixed(row: Column, m: Column, x: bv8)
    requires m[0] in [1, 2, 3] && m[1] in [1, 2, 3] && m[2] in [1, 2, 3] && m[3] in [1, 2, 3]
    requires row[0] in [0x09, 0x0B, 0x0D, 0x0E] && row[1] in [0x09, 0x0B, 0x0D, 0x0E]
    requires row[2] in [0x09, 0x0B, 0x0D, 0x0E] && row[3] in [0x09, 0x0B, 0x0D, 0x0E]
    ensures Dot(row, [GMul(x, m[0]), GMul(x, m[1]), GMul(x, m[2]), GMul(x, m[3])]) == GMul(x, TotalFactor(row, m))
  {
    hide GMul, Xor, ShiftLeft;
    FactorsMultiply(x, m[0], row[0]);
    FactorsMultiply(x, m[1], row[1]);
    FactorsMultiply(x, m[2], row[2]);
    FactorsMultiply(x, m[3], row[3]);
    FourProducts(x, Factor(row[0], m[0]), Factor(row[1], m[1]), Factor(row[2], m[2]), Factor(row[3], m[3]));
  }

  function Factor(k: bv8, m: bv8): bv8 {
    Xor(if m == 2 then 0 else k, if m == 1 then 0 else ShiftLeft(k))
  }

  function TotalFactor(row: Column, m: Column): bv8 {
    Xor(Xor(Xor(Factor(row[0], m[0]), Factor(row[1], m[1])), Factor(row[2], m[2])), Factor(row[3], m[3]))
  }

  /** The product of the two constant matrices is the identity. */
  lemma ConstantsInverse()
    ensures TotalFactor(INV_MIX.m0, [2, 1, 1, 3]) == 1
    ensures TotalFactor(INV_MIX.m1, [2, 1, 1, 3]) == 0
    ensures TotalFactor(INV_MIX.m2, [2, 1, 1, 3]) == 0
    ensures TotalFactor(INV_MIX.m3, [2, 1, 1, 3]) == 0
    ensures TotalFactor(INV_MIX.m0, [3, 2, 1, 1]) == 0
    ensures TotalFactor(INV_MIX.m1, [3, 2, 1, 1]) == 1
    ensures TotalFactor(INV_MIX.m2, [3, 2, 1, 1]) == 0
    ensures TotalFactor(INV_MIX.m3, [3, 2, 1, 1]) == 0
    ensures TotalFactor(INV_MIX.m0, [1, 3, 2, 1]) == 0
    ensures TotalFactor(INV_MIX.m1, [1, 3, 2, 1]) == 0
    ensures TotalFactor(INV_MIX.m2, [1, 3, 2, 1]) == 1
    ensures TotalFactor(INV_MIX.m3, [1, 3, 2, 1]) == 0
    ensures TotalFactor(INV_MIX.m0, [1, 1, 3, 2]) == 0
    ensures TotalFactor(INV_MIX.m1, [1, 1, 3, 2]) == 0
    ensures TotalFactor(INV_MIX.m2, [1, 1, 3, 2]) == 0
    ensures TotalFactor(INV_MIX.m3, [1, 1, 3, 2]) == 1
  {
  }

  lemma InvertsUnit(i: nat, x: bv8)
    requires i < 4
    ensures MixSingleColumn(INV_MIX, MixSingleColumn(MIX, Unit(i, x))) == Unit(i, x)
  {
    hide GMul, TotalFactor;
    MixUnit(MIX, i, x);
    var m: Column := [MIX.m0[i], MIX.m1[i], MIX.m2[i], MIX.m3[i]];
    ConstantsInverse();
    RowTimesMixed(INV_MIX.m0, m, x);
    RowTimesMixed(INV_MIX.m1, m, x);
    RowTimesMixed(INV_MIX.m2, m, x);
    RowTimesMixed(INV_MIX.m3, m, x);
    SmallFactors(x);
  }

  /** The inverse matrix undoes the mixing of any column: both are linear, and they are inverse on unit columns. */
  lemma InvMixInverts(s: Column)
    ensures MixSingleColumn(INV_MIX, MixSingleColumn(MIX, s)) == s
  {
    hide Dot, Xor, Unit, MixSingleColumn, XorColumns;
    InvMixOfSum(Unit(0, s[0]), Unit(1, s[1]));
    InvMixOfSum(Unit(2, s[2]), Unit(3, s[3]));
    InvMixOfSum(XorColumns(Unit(0, s[0]), Unit(1, s[1])), XorColumns(Unit(2, s[2]), Unit(3, s[3])));
    InvertsUnit(0, s[0]);
    InvertsUnit(1, s[1]);
    InvertsUnit(2, s[2]);
    InvertsUnit(3, s[3]);
    Decompose(s);
  }

  lemma InvMixOfSum(s: Column, t: Column)
    ensures MixSingleColumn(INV_MIX, MixSingleColumn(MIX, XorColumns(s, t)))
         == XorColumns(MixSingleColumn(INV_MIX, MixSingleColumn(MIX, s)), MixSingleColumn(INV_MIX, MixSingleColumn(MIX, t)))
  {
    hide MixSingleColumn, XorColumns;
    MixLinear(MIX, s, t);
    MixLinear(INV_MIX, MixSingleColumn(MIX, s), MixSingleColumn(MIX, t));
  }
}
