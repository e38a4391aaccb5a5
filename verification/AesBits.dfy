/** XOR and shifts of bytes: what the solver decides bit by bit, in a module of its own. */
module AesBits {

  function Xor(a: bv8, b: bv8): bv8 {
    a ^ b
  }

  function ShiftLeft(a: bv8): bv8 {
    a << 1
  }

  function ShiftRight(a: bv8): bv8 {
    a >> 1
  }

  predicate LowBit(a: bv8) {
    a & 1 != 0
  }

  predicate HighBit(a: bv8) {
    a & 0x80 != 0
  }

  lemma XorAssociative(a: bv8, b: bv8, c: bv8)
    ensures Xor(Xor(a, b), c) == Xor(a, Xor(b, c))
  {
  }

  lemma XorCommutes(a: bv8, b: bv8)
    ensures Xor(a, b) == Xor(b, a)
  {
  }

  lemma XorUnit(a: bv8)
    ensures Xor(a, a) == 0 && Xor(a, 0) == a && Xor(0, a) == a
  {
  }

  lemma ShiftsLinear(a: bv8, b: bv8)
    ensures ShiftLeft(Xor(a, b)) == Xor(ShiftLeft(a), ShiftLeft(b))
    ensures ShiftRight(Xor(a, b)) == Xor(ShiftRight(a), ShiftRight(b))
  {
  }

  lemma BitsOfXor(a: bv8, b: bv8)
    ensures LowBit(Xor(a, b)) <==> LowBit(a) != LowBit(b)
    ensures HighBit(Xor(a, b)) <==> HighBit(a) != HighBit(b)
  {
  }

  /** Doubling a byte with a clear high bit can be undone, and seven shifts use such a byte up. */
  lemma SevenBits(k: bv8)
    requires !HighBit(k)
    ensures ShiftRight(ShiftLeft(k)) == k && !LowBit(ShiftLeft(k))
    ensures ShiftRight(ShiftRight(ShiftRight(ShiftRight(ShiftRight(ShiftRight(ShiftRight(k))))))) == 0
  {
  }

  lemma XorInterchange(a: bv8, b: bv8, c: bv8, d: bv8)
    ensures Xor(Xor(a, b), Xor(c, d)) == Xor(Xor(a, c), Xor(b, d))
  {
    hide Xor;
    XorAssociative(a, b, Xor(c, d));
    XorAssociative(b, c, d);
    XorCommutes(b, c);
    XorAssociative(c, b, d);
    XorAssociative(a, c, Xor(b, d));
  }

  /** XOR with the same byte twice restores the first. */
  lemma XorCancels(a: bv8, b: bv8)
    ensures Xor(Xor(a, b), b) == a
  {
    hide Xor;
    XorAssociative(a, b, b);
    XorUnit(b);
    XorUnit(a);
  }
}
