/** The field and the substitution table of AES as sections 4.2 and 5.1.1 of FIPS 197 define them. */
module AesReference {
  import opened AesBits
  import opened AesTables
  import opened AesField
  import opened AesBlock

  // ----- the field -----

  /** The polynomial of the field: x^8 + x^4 + x^3 + x + 1. */
  const MODULUS: bv16 := 0x11B

  /** Multiplication by x: of the polynomials x a and x a + MODULUS, doubling takes the one of degree below 8. */
  lemma DoublingIsReduced(a: bv8)
    ensures var moved := (a as bv16) << 1;
            var reduced := XTime(a) as bv16;
            && (reduced == moved || reduced == moved ^ MODULUS)
            && ((moved < 0x100) != (moved ^ MODULUS < 0x100))
  {
  }

  /** Horner's scheme over the lowest n bits of a factor, the highest of them first. */
  function Horner(a: bv8, b: bv8, n: nat): bv8 {
    if n == 0 then 0
    else
      var upper := XTime(Horner(a, ShiftRight(b), n - 1));
      if LowBit(b) then Xor(upper, a) else upper
  }

  lemma {:induction false} DoublingFirst(a: bv8, b: bv8, i: nat, r: bv8)
    requires i <= 8
    ensures GMulFrom(XTime(a), b, i, XTime(r)) == XTime(GMulFrom(a, b, i, r))
    decreases 8 - i
  {
    hide XTime, Xor, ShiftRight, LowBit;
    if i < 8 {
      XTimeLinear(r, a);
      DoublingFirst(XTime(a), ShiftRight(b), i + 1, if LowBit(b) then Xor(r, a) else r);
    }
  }

  /** A partial result can be added at the end. */
  lemma ResultLast(a: bv8, b: bv8, i: nat, r: bv8)
    requires i <= 8
    ensures GMulFrom(a, b, i, r) == Xor(GMulFrom(a, b, i, 0), r)
  {
    hide GMulFrom, Xor;
    GMulFromLinear(a, 0, b, i, 0, r);
    GMulOfNothing(b, i, r);
    XorUnit(a);
    XorUnit(r);
  }

  lemma {:induction false} GMulOfNothing(b: bv8, i: nat, r: bv8)
    requires i <= 8
    ensures GMulFrom(0, b, i, r) == r
    decreases 8 - i
  {
    assert XTime(0) == 0 by { assert !HighBit(0) && ShiftLeft(0) == 0; }
    XorUnit(r);
    hide XTime, Xor, ShiftRight, LowBit;
    if i < 8 {
      GMulOfNothing(ShiftRight(b), i + 1, r);
    }
  }

  lemma {:induction false} RoundsAreHorner(a: bv8, b: bv8, i: nat)
    requires i <= 8
    ensures GMulFrom(a, b, i, 0) == Horner(a, b, 8 - i)
    decreases 8 - i
  {
    if i < 8 {
      assert XTime(0) == 0 by { assert !HighBit(0) && ShiftLeft(0) == 0; }
      XorUnit(a);
      hide XTime, Xor, ShiftRight, LowBit;
      RoundsAreHorner(a, ShiftRight(b), i + 1);
      DoublingFirst(a, ShiftRight(b), i + 1, 0);
      ResultLast(XTime(a), ShiftRight(b), i + 1, a);
    }
  }

  /** For all bytes, the rounds of the source compute the product in the field. */
  lemma GMulIsProduct(a: bv8, b: bv8)
    ensures GMul(a, b) == Horner(a, b, 8)
  {
    hide Horner, GMulFrom;
    RoundsAreHorner(a, b, 0);
  }

  // ----- the substitution table -----

  /** The affine map of section 5.1.1: each bit is added to four others, and 0x63 to the sum. */
  function Affine(y: bv8): bv8 {
    y ^ ((y << 1) | (y >> 7)) ^ ((y << 2) | (y >> 6)) ^ ((y << 3) | (y >> 5)) ^ ((y << 4) | (y >> 4)) ^ 0x63
  }

  /** Its inverse. */
  function InvAffine(s: bv8): bv8 {
    ((s << 1) | (s >> 7)) ^ ((s << 3) | (s >> 5)) ^ ((s << 6) | (s >> 2)) ^ 0x05
  }

  lemma AffineInverts(s: bv8)
    ensures Affine(InvAffine(s)) == s
  {
  }

  lemma RoundUnfold(a: bv8, b: bv8, i: nat, r: bv8)
    requires i < 8
    ensures GMulFrom(a, b, i, r) == GMulFrom(XTime(a), ShiftRight(b), i + 1, if LowBit(b) then Xor(r, a) else r)
  {
    hide XTime, ShiftRight, LowBit, Xor;
  }

  /** One round in bit operations: a doubled, b halved, and a added for the lowest bit of b. */
  predicate RoundBits(a: bv8, b: bv8, r: bv8, a': bv8, b': bv8, r': bv8) {
    && a' == (a << 1) ^ (if a & 0x80 != 0 then 0x1B else 0)
    && b' == b >> 1
    && r' == r ^ (if b & 1 != 0 then a else 0)
  }

  lemma DoubledBits(a: bv8)
    ensures XTime(a) == (a << 1) ^ (if a & 0x80 != 0 then 0x1B else 0)
  {
  }

  lemma AddedBits(r: bv8, a: bv8, b: bv8)
    ensures (if LowBit(b) then Xor(r, a) else r) == r ^ (if b & 1 != 0 then a else 0)
  {
  }

  lemma RoundOf(a: bv8, b: bv8, i: nat, r: bv8, a': bv8, b': bv8, r': bv8)
    requires i < 8 && RoundBits(a, b, r, a', b', r')
    ensures GMulFrom(a, b, i, r) == GMulFrom(a', b', i + 1, r')
  {
    hide XTime, Xor, LowBit, GMulFrom;
    RoundUnfold(a, b, i, r);
    DoubledBits(a);
    AddedBits(r, a, b);
  }

  lemma EightRounds(a: bv8, b: bv8, a1: bv8, b1: bv8, r1: bv8, a2: bv8, b2: bv8, r2: bv8, a3: bv8, b3: bv8, r3: bv8,
                    a4: bv8, b4: bv8, r4: bv8, a5: bv8, b5: bv8, r5: bv8, a6: bv8, b6: bv8, r6: bv8,
                    a7: bv8, b7: bv8, r7: bv8, a8: bv8, b8: bv8, r8: bv8)
    requires RoundBits(a, b, 0, a1, b1, r1) && RoundBits(a1, b1, r1, a2, b2, r2) && RoundBits(a2, b2, r2, a3, b3, r3)
    requires RoundBits(a3, b3, r3, a4, b4, r4) && RoundBits(a4, b4, r4, a5, b5, r5) && RoundBits(a5, b5, r5, a6, b6, r6)
    requires RoundBits(a6, b6, r6, a7, b7, r7) && RoundBits(a7, b7, r7, a8, b8, r8)
    ensures GMul(a, b) == r8
  {
    hide RoundBits, GMulFrom;
    RoundOf(a, b, 0, 0, a1, b1, r1);
    RoundOf(a1, b1, 1, r1, a2, b2, r2);
    RoundOf(a2, b2, 2, r2, a3, b3, r3);
    RoundOf(a3, b3, 3, r3, a4, b4, r4);
    RoundOf(a4, b4, 4, r4, a5, b5, r5);
    RoundOf(a5, b5, 5, r5, a6, b6, r6);
    RoundOf(a6, b6, 6, r6, a7, b7, r7);
    RoundOf(a7, b7, 7, r7, a8, b8, r8);
    RoundsEnd(a8, b8, r8);
  }

  lemma RoundsEnd(a: bv8, b: bv8, r: bv8)
    ensures GMulFrom(a, b, 8, r) == r
  {
  }

  /** The inverse affine image of the entry for a byte, and the rounds of its product with the byte, which is 1. */
  lemma EntryRounds(b: bv8)
      returns (y: bv8, a1: bv8, y1: bv8, r1: bv8, a2: bv8, y2: bv8, r2: bv8, a3: bv8, y3: bv8, r3: bv8,
               a4: bv8, y4: bv8, r4: bv8, a5: bv8, y5: bv8, r5: bv8, a6: bv8, y6: bv8, r6: bv8,
               a7: bv8, y7: bv8, r7: bv8, a8: bv8, y8: bv8, r8: bv8)
    ensures y == InvAffine(SBox(b))
    ensures RoundBits(b, y, 0, a1, y1, r1) && RoundBits(a1, y1, r1, a2, y2, r2) && RoundBits(a2, y2, r2, a3, y3, r3)
    ensures RoundBits(a3, y3, r3, a4, y4, r4) && RoundBits(a4, y4, r4, a5, y5, r5) && RoundBits(a5, y5, r5, a6, y6, r6)
    ensures RoundBits(a6, y6, r6, a7, y7, r7) && RoundBits(a7, y7, r7, a8, y8, r8)
    ensures b != 0 ==> r8 == 1
  {
    var s := SBox(b);
    y := ((s << 1) | (s >> 7)) ^ ((s << 3) | (s >> 5)) ^ ((s << 6) | (s >> 2)) ^ 0x05;
    a1, y1, r1 := (b << 1) ^ (if b & 0x80 != 0 then 0x1B else 0), y >> 1, 0 ^ (if y & 1 != 0 then b else 0);
    a2, y2, r2 := (a1 << 1) ^ (if a1 & 0x80 != 0 then 0x1B else 0), y1 >> 1, r1 ^ (if y1 & 1 != 0 then a1 else 0);
    a3, y3, r3 := (a2 << 1) ^ (if a2 & 0x80 != 0 then 0x1B else 0), y2 >> 1, r2 ^ (if y2 & 1 != 0 then a2 else 0);
    a4, y4, r4 := (a3 << 1) ^ (if a3 & 0x80 != 0 then 0x1B else 0), y3 >> 1, r3 ^ (if y3 & 1 != 0 then a3 else 0);
    a5, y5, r5 := (a4 << 1) ^ (if a4 & 0x80 != 0 then 0x1B else 0), y4 >> 1, r4 ^ (if y4 & 1 != 0 then a4 else 0);
    a6, y6, r6 := (a5 << 1) ^ (if a5 & 0x80 != 0 then 0x1B else 0), y5 >> 1, r5 ^ (if y5 & 1 != 0 then a5 else 0);
    a7, y7, r7 := (a6 << 1) ^ (if a6 & 0x80 != 0 then 0x1B else 0), y6 >> 1, r6 ^ (if y6 & 1 != 0 then a6 else 0);
    a8, y8, r8 := (a7 << 1) ^ (if a7 & 0x80 != 0 then 0x1B else 0), y7 >> 1, r7 ^ (if y7 & 1 != 0 then a7 else 0);
  }

  lemma EntryOfZero()
    ensures InvAffine(SBox(0)) == 0
  {
    assert SBox(0) == 0x63;
  }

  /** Section 5.1.1: the entry for a byte is the affine image of its inverse in the field, that for 0 the image of 0. */
  lemma SBoxIsInverse(b: bv8)
    ensures SBox(b) == Affine(InvAffine(SBox(b)))
    ensures b != 0 ==> GMul(b, InvAffine(SBox(b))) == 1
    ensures InvAffine(SBox(0)) == 0
  {
    EntryOfZero();
    AffineInverts(SBox(b));
    hide *;
    var y, a1, y1, r1, a2, y2, r2, a3, y3, r3, a4, y4, r4, a5, y5, r5, a6, y6, r6, a7, y7, r7, a8, y8, r8 := EntryRounds(b);
    EightRounds(b, y, a1, y1, r1, a2, y2, r2, a3, y3, r3, a4, y4, r4, a5, y5, r5, a6, y6, r6, a7, y7, r7, a8, y8, r8);
  }

  // ----- the cipher, byte by byte -----

  function Entry(m: Matrix4, r: nat, c: nat): bv8
    requires r < 4 && c < 4
  {
    RowOf(m, r)[c]
  }

  function RowOf(m: Matrix4, r: nat): Column
    requires r < 4
  {
    if r == 0 then m.m0 else if r == 1 then m.m1 else if r == 2 then m.m2 else m.m3
  }

  lemma StepsOnRows(m: Matrix4, key: Matrix4, r: nat)
    requires r < 4
    ensures RowOf(SubBytes(m), r) == SubColumn(RowOf(m, r)) && RowOf(ShiftRows(m), r) == Rotate(RowOf(m, r), r)
    ensures RowOf(MixAll(MIX, m), r) == MixSingleColumn(MIX, RowOf(m, r))
    ensures RowOf(AddRoundKey(m, key), r) == XorColumns(RowOf(m, r), RowOf(key, r))
  {
    hide SubColumn, MixSingleColumn, XorColumns, Rotate;
    assert Rotate(m.m0, 0) == m.m0 by { RotateNone(m.m0); }
  }

  lemma RotateNone(c: Column)
    ensures Rotate(c, 0) == c
  {
  }

  lemma SubColumnAt(s: Column, c: nat)
    requires c < 4
    ensures SubColumn(s)[c] == SBox(s[c])
  {
    hide SBox;
  }

  lemma XorColumnsAt(s: Column, t: Column, c: nat)
    requires c < 4
    ensures XorColumns(s, t)[c] == Xor(s[c], t[c])
  {
    hide Xor;
  }

  lemma MixedAt(s: Column, c: nat)
    requires c < 4
    ensures MixSingleColumn(MIX, s)[c] == Dot([FACTORS[(4 - c) % 4], FACTORS[(5 - c) % 4], FACTORS[(6 - c) % 4], FACTORS[(7 - c) % 4]], s)
  {
    hide Dot;
    var row := [FACTORS[(4 - c) % 4], FACTORS[(5 - c) % 4], FACTORS[(6 - c) % 4], FACTORS[(7 - c) % 4]];
    assert row == if c == 0 then MIX.m0 else if c == 1 then MIX.m1 else if c == 2 then MIX.m2 else MIX.m3;
  }

  /** The factors of the mixing; those for the other columns are the same, rotated. */
  const FACTORS: seq<bv8> := [2, 3, 1, 1]

  /** A byte of the row after substitution and rotation, times its factor for column c. */
  function Summand(m: Matrix4, r: nat, c: nat, k: nat): bv8
    requires r < 4 && c < 4 && k < 4
  {
    GMul(SBox(Entry(m, r, (k + r) % 4)), FACTORS[(k + 4 - c) % 4])
  }

  lemma SubEntry(m: Matrix4, r: nat, c: nat)
    requires r < 4 && c < 4
    ensures Entry(SubBytes(m), r, c) == SBox(Entry(m, r, c))
  {
    hide SBox, RowOf, SubBytes, SubColumn;
    StepsOnRows(m, m, r);
    SubColumnAt(RowOf(m, r), c);
  }

  lemma ShiftEntry(m: Matrix4, r: nat, c: nat)
    requires r < 4 && c < 4
    ensures Entry(ShiftRows(m), r, c) == Entry(m, r, (c + r) % 4)
  {
    hide RowOf, ShiftRows, Rotate;
    StepsOnRows(m, m, r);
    RotateAt(RowOf(m, r), r, c);
  }

  lemma RotateAt(s: Column, k: nat, c: nat)
    requires k < 4 && c < 4
    ensures Rotate(s, k)[c] == s[(c + k) % 4]
  {
    assert s[k..] + s[..k] == Rotate(s, k);
    if c < 4 - k {
      assert (c + k) % 4 == c + k;
    } else {
      assert (c + k) % 4 == c + k - 4;
    }
  }

  lemma MixEntry(m: Matrix4, r: nat, c: nat)
    requires r < 4 && c < 4
    ensures Entry(MixAll(MIX, m), r, c) ==
            Xor(Xor(Xor(GMul(Entry(m, r, 0), FACTORS[(4 - c) % 4]), GMul(Entry(m, r, 1), FACTORS[(5 - c) % 4])),
                    GMul(Entry(m, r, 2), FACTORS[(6 - c) % 4])), GMul(Entry(m, r, 3), FACTORS[(7 - c) % 4]))
  {
    hide GMul, Xor, RowOf, MixAll, MixSingleColumn;
    StepsOnRows(m, m, r);
    MixedAt(RowOf(m, r), c);
  }

  lemma KeyEntry(m: Matrix4, key: Matrix4, r: nat, c: nat)
    requires r < 4 && c < 4
    ensures Entry(AddRoundKey(m, key), r, c) == Xor(Entry(m, r, c), Entry(key, r, c))
  {
    hide Xor, RowOf, AddRoundKey, XorColumns;
    StepsOnRows(m, key, r);
    XorColumnsAt(RowOf(m, r), RowOf(key, r), c);
  }

  /** One round, byte by byte. */
  lemma RoundEntry(m: Matrix4, key: Matrix4, r: nat, c: nat)
    requires r < 4 && c < 4
    ensures Entry(Round(m, key), r, c) ==
            Xor(Xor(Xor(Xor(Summand(m, r, c, 0), Summand(m, r, c, 1)), Summand(m, r, c, 2)), Summand(m, r, c, 3)),
                Entry(key, r, c))
  {
    hide SBox, GMul, Xor, Entry, SubBytes, ShiftRows, MixAll, AddRoundKey;
    KeyEntry(MixAll(MIX, ShiftRows(SubBytes(m))), key, r, c);
    MixEntry(ShiftRows(SubBytes(m)), r, c);
    forall k | 0 <= k < 4
      ensures Entry(ShiftRows(SubBytes(m)), r, k) == SBox(Entry(m, r, (k + r) % 4))
    {
      ShiftEntry(SubBytes(m), r, k);
      SubEntry(m, r, (k + r) % 4);
    }
  }

  /** Without the mixing in the last round. */
  lemma LastRoundEntry(m: Matrix4, key: Matrix4, r: nat, c: nat)
    requires r < 4 && c < 4
    ensures Entry(AddRoundKey(ShiftRows(SubBytes(m)), key), r, c) == Xor(SBox(Entry(m, r, (c + r) % 4)), Entry(key, r, c))
  {
    hide SBox, Xor, Entry, SubBytes, ShiftRows, AddRoundKey;
    KeyEntry(ShiftRows(SubBytes(m)), key, r, c);
    ShiftEntry(SubBytes(m), r, c);
    SubEntry(m, r, (c + r) % 4);
  }

  lemma BytesOfMatrix(m: Matrix4, r: nat, c: nat)
    requires r < 4 && c < 4
    ensures FromMatrix(m)[4 * r + c] == Entry(m, r, c)
  {
  }

  lemma FirstKeyEntry(b: Block, key: Matrix4, r: nat, c: nat)
    requires r < 4 && c < 4
    ensures Entry(AddRoundKey(ToMatrix(b), key), r, c) == Xor(b[4 * r + c], Entry(key, r, c))
  {
    hide Xor, AddRoundKey;
    KeyEntry(ToMatrix(b), key, r, c);
  }

  /** Twelve rounds between the first key and the last; the bytes of a block are the rows one after the other. */
  lemma CipherEntry(keys: RoundKeys, b: Block, r: nat, c: nat) returns (states: seq<Matrix4>)
    requires r < 4 && c < 4
    ensures |states| == 13
    ensures forall i | 1 <= i < 13 :: states[i] == Round(states[i - 1], keys[i])
    ensures forall r', c' | 0 <= r' < 4 && 0 <= c' < 4 :: Entry(states[0], r', c') == Xor(b[4 * r' + c'], Entry(keys[0], r', c'))
    ensures Encrypt(keys, b)[4 * r + c] == Xor(SBox(Entry(states[12], r, (c + r) % 4)), Entry(keys[14], r, c))
  {
    hide SBox, Xor, Round, Rounds, Entry, AddRoundKey, SubBytes, ShiftRows, FromMatrix, ToMatrix;
    var first := AddRoundKey(ToMatrix(b), keys[0]);
    states := seq(13, i requires 0 <= i < 13 => Rounds(keys, first, i));
    RoundsStates(keys, first, 0);
    assert states[0] == Rounds(keys, first, 0);
    forall i | 1 <= i < 13
      ensures states[i] == Round(states[i - 1], keys[i])
    {
      RoundsStates(keys, first, i);
    }
    forall r', c' | 0 <= r' < 4 && 0 <= c' < 4
      ensures Entry(states[0], r', c') == Xor(b[4 * r' + c'], Entry(keys[0], r', c'))
    {
      FirstKeyEntry(b, keys[0], r', c');
    }
    LastRoundEntry(states[12], keys[14], r, c);
    BytesOfMatrix(AddRoundKey(ShiftRows(SubBytes(states[12])), keys[14]), r, c);
  }

  lemma RoundsStates(keys: RoundKeys, m: Matrix4, i: nat)
    requires i <= 12
    ensures Rounds(keys, m, i) == if i == 0 then m else Round(Rounds(keys, m, i - 1), keys[i])
  {
  }
}
