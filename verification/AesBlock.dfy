/** The steps of the block cipher on a 4x4 matrix, and that their inverses undo it. */
module AesBlock {
  import opened AesBits
  import opened AesTables
  import opened AesField

  type Block = b: seq<bv8> | |b| == 16 witness seq(16, _ => 0)

  const ZERO := Matrix4([0, 0, 0, 0], [0, 0, 0, 0], [0, 0, 0, 0], [0, 0, 0, 0])

  /** The fifteen round keys, whatever the key expansion made of them. */
  type RoundKeys = k: seq<Matrix4> | |k| == 15 witness seq(15, _ => ZERO)

  // ----- the steps, on values -----

  function SubColumn(c: Column): Column {
    [SBox(c[0]), SBox(c[1]), SBox(c[2]), SBox(c[3])]
  }

  function InvSubColumn(c: Column): Column {
    [InvSBox(c[0]), InvSBox(c[1]), InvSBox(c[2]), InvSBox(c[3])]
  }

  function SubBytes(m: Matrix4): Matrix4 {
    Matrix4(SubColumn(m.m0), SubColumn(m.m1), SubColumn(m.m2), SubColumn(m.m3))
  }

  function InvSubBytes(m: Matrix4): Matrix4 {
    Matrix4(InvSubColumn(m.m0), InvSubColumn(m.m1), InvSubColumn(m.m2), InvSubColumn(m.m3))
  }

  function Rotate(c: Column, k: nat): Column
    requires k <= 4
  {
    c[k..] + c[..k]
  }

  function ShiftRows(m: Matrix4): Matrix4 {
    Matrix4(m.m0, Rotate(m.m1, 1), Rotate(m.m2, 2), Rotate(m.m3, 3))
  }

  function InvShiftRows(m: Matrix4): Matrix4 {
    Matrix4(m.m0, Rotate(m.m1, 3), Rotate(m.m2, 2), Rotate(m.m3, 1))
  }

  function MixAll(c: Matrix4, m: Matrix4): Matrix4 {
    Matrix4(MixSingleColumn(c, m.m0), MixSingleColumn(c, m.m1), MixSingleColumn(c, m.m2), MixSingleColumn(c, m.m3))
  }

  function AddRoundKey(m: Matrix4, key: Matrix4): Matrix4 {
    Matrix4(XorColumns(m.m0, key.m0), XorColumns(m.m1, key.m1), XorColumns(m.m2, key.m2), XorColumns(m.m3, key.m3))
  }

  lemma SubColumnInverts(c: Column)
    ensures InvSubColumn(SubColumn(c)) == c
  {
    hide SBox, InvSBox;
    forall j | 0 <= j < 4
      ensures InvSBox(SBox(c[j])) == c[j]
    {
      InvSBoxInverts(c[j]);
    }
  }

  lemma SubBytesInverts(m: Matrix4)
    ensures InvSubBytes(SubBytes(m)) == m
  {
    hide SubColumn, InvSubColumn;
    SubColumnInverts(m.m0);
    SubColumnInverts(m.m1);
    SubColumnInverts(m.m2);
    SubColumnInverts(m.m3);
  }

  lemma RotateInverts(c: Column, k: nat)
    requires k <= 4
    ensures Rotate(Rotate(c, k), 4 - k) == c
  {
  }

  lemma ShiftRowsInverts(m: Matrix4)
    ensures InvShiftRows(ShiftRows(m)) == m
  {
    RotateInverts(m.m1, 1);
    RotateInverts(m.m2, 2);
    RotateInverts(m.m3, 3);
  }

  lemma MixColumnsInverts(m: Matrix4)
    ensures MixAll(INV_MIX, MixAll(MIX, m)) == m
  {
    hide MixSingleColumn;
    InvMixInverts(m.m0);
    InvMixInverts(m.m1);
    InvMixInverts(m.m2);
    InvMixInverts(m.m3);
  }

  lemma XorColumnsInverts(s: Column, t: Column)
    ensures XorColumns(XorColumns(s, t), t) == s
  {
    hide Xor;
    forall j | 0 <= j < 4
      ensures Xor(Xor(s[j], t[j]), t[j]) == s[j]
    {
      XorCancels(s[j], t[j]);
    }
  }

  lemma AddRoundKeyInverts(m: Matrix4, key: Matrix4)
    ensures AddRoundKey(AddRoundKey(m, key), key) == m
  {
    hide XorColumns;
    XorColumnsInverts(m.m0, key.m0);
    XorColumnsInverts(m.m1, key.m1);
    XorColumnsInverts(m.m2, key.m2);
    XorColumnsInverts(m.m3, key.m3);
  }

  // ----- the cipher, on values -----

  function ToMatrix(b: Block): Matrix4 {
    Matrix4(b[0..4], b[4..8], b[8..12], b[12..16])
  }

  function FromMatrix(m: Matrix4): Block {
    m.m0 + m.m1 + m.m2 + m.m3
  }

  function Round(m: Matrix4, key: Matrix4): Matrix4 {
    AddRoundKey(MixAll(MIX, ShiftRows(SubBytes(m))), key)
  }

  function InvRound(m: Matrix4, key: Matrix4): Matrix4 {
    InvSubBytes(InvShiftRows(MixAll(INV_MIX, AddRoundKey(m, key))))
  }

  /** Rounds 1 to n. */
  function Rounds(keys: RoundKeys, m: Matrix4, n: nat): Matrix4
    requires n <= 12
    decreases n
  {
    hide Round;
    if n == 0 then m else Round(Rounds(keys, m, n - 1), keys[n])
  }

  function InvRounds(keys: RoundKeys, m: Matrix4, n: nat): Matrix4
    requires n <= 12
    decreases n
  {
    hide InvRound;
    if n == 0 then m else InvRounds(keys, InvRound(m, keys[n]), n - 1)
  }

  /** Twelve full rounds and a last one: the loop bound leaves out the round of key 13. */
  function Encrypt(keys: RoundKeys, b: Block): Block {
    var m := Rounds(keys, AddRoundKey(ToMatrix(b), keys[0]), 12);
    FromMatrix(AddRoundKey(ShiftRows(SubBytes(m)), keys[14]))
  }

  /** The inverse steps and the round keys in reverse order. */
  function Decrypt(keys: RoundKeys, b: Block): Block {
    var m := InvSubBytes(InvShiftRows(AddRoundKey(ToMatrix(b), keys[14])));
    FromMatrix(AddRoundKey(InvRounds(keys, m, 12), keys[0]))
  }

  lemma RoundInverts(m: Matrix4, key: Matrix4)
    ensures InvRound(Round(m, key), key) == m
  {
    hide SubBytes, InvSubBytes, ShiftRows, InvShiftRows, MixAll, AddRoundKey;
    AddRoundKeyInverts(MixAll(MIX, ShiftRows(SubBytes(m))), key);
    MixColumnsInverts(ShiftRows(SubBytes(m)));
    ShiftRowsInverts(SubBytes(m));
    SubBytesInverts(m);
  }

  lemma {:induction false} RoundsInvert(keys: RoundKeys, m: Matrix4, n: nat)
    requires n <= 12
    ensures InvRounds(keys, Rounds(keys, m, n), n) == m
  {
    hide Round, InvRound;
    if n > 0 {
      RoundInverts(Rounds(keys, m, n - 1), keys[n]);
      RoundsInvert(keys, m, n - 1);
    }
  }

  lemma MatrixInverts(m: Matrix4)
    ensures ToMatrix(FromMatrix(m)) == m
  {
    var b := FromMatrix(m);
    assert b[0..4] == m.m0 && b[4..8] == m.m1 && b[8..12] == m.m2 && b[12..16] == m.m3;
  }

  lemma BlockInverts(b: Block)
    ensures FromMatrix(ToMatrix(b)) == b
  {
  }

  /** For every block and any fifteen round keys, the reversed inverse steps undo the cipher. */
  lemma DecryptInverts(keys: RoundKeys, b: Block)
    ensures Decrypt(keys, Encrypt(keys, b)) == b
  {
    hide SubBytes, InvSubBytes, ShiftRows, InvShiftRows, AddRoundKey, ToMatrix, FromMatrix, Rounds, InvRounds;
    var first := AddRoundKey(ToMatrix(b), keys[0]);
    var m := Rounds(keys, first, 12);
    MatrixInverts(AddRoundKey(ShiftRows(SubBytes(m)), keys[14]));
    AddRoundKeyInverts(ShiftRows(SubBytes(m)), keys[14]);
    ShiftRowsInverts(SubBytes(m));
    SubBytesInverts(m);
    RoundsInvert(keys, first, 12);
    AddRoundKeyInverts(ToMatrix(b), keys[0]);
    BlockInverts(b);
  }

  lemma {:induction false} RoundsIgnoreKey13(keys: RoundKeys, key: Matrix4, m: Matrix4, n: nat)
    requires n <= 12
    ensures Rounds(keys[13 := key], m, n) == Rounds(keys, m, n)
  {
    hide Round;
    if n > 0 {
      RoundsIgnoreKey13(keys, key, m, n - 1);
    }
  }

  /** The cipher of the source has one round fewer than the standard: round key 13 never matters. */
  lemma EncryptIgnoresKey13(keys: RoundKeys, key: Matrix4, b: Block)
    ensures Encrypt(keys[13 := key], b) == Encrypt(keys, b)
  {
    hide AddRoundKey, SubBytes, ShiftRows;
    RoundsIgnoreKey13(keys, key, AddRoundKey(ToMatrix(b), keys[0]), 12);
  }
}
