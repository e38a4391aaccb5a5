/** The cipher object: its steps change a 4x4 matrix in place; chaining and padding work on byte strings. */
module Aes256Cbc {
  import opened AesBits
  import opened AesTables
  import opened AesField
  import opened AesBlock

  // ----- chaining and padding, on values -----

  function XorBlocks(a: Block, b: Block): Block {
    seq(16, i requires 0 <= i < 16 => Xor(a[i], b[i]))
  }

  lemma XorBlocksInverts(a: Block, b: Block)
    ensures XorBlocks(XorBlocks(a, b), b) == a
  {
    hide Xor;
    forall i | 0 <= i < 16
      ensures Xor(Xor(a[i], b[i]), b[i]) == a[i]
    {
      XorCancels(a[i], b[i]);
    }
  }

  /** Each block is combined with the cipher block before it. */
  function Chain(keys: RoundKeys, blocks: seq<Block>, previous: Block): (cipher: seq<Block>)
    ensures |cipher| == |blocks|
  {
    hide Encrypt, XorBlocks;
    if blocks == [] then []
    else
      var c := Encrypt(keys, XorBlocks(blocks[0], previous));
      [c] + Chain(keys, blocks[1..], c)
  }

  lemma ChainStep(keys: RoundKeys, blocks: seq<Block>, i: nat, previous: Block)
    requires i < |blocks|
    ensures var c := Encrypt(keys, XorBlocks(blocks[i], previous));
            Chain(keys, blocks[i..], previous) == [c] + Chain(keys, blocks[i + 1..], c)
  {
    hide Encrypt, XorBlocks;
    assert blocks[i..][1..] == blocks[i + 1..];
  }

  function Unchain(keys: RoundKeys, cipher: seq<Block>, previous: Block): seq<Block> {
    if cipher == [] then []
    else [XorBlocks(Decrypt(keys, cipher[0]), previous)] + Unchain(keys, cipher[1..], cipher[0])
  }

  /** Chaining, block by block: each one is encrypted after it was combined with the cipher block before. */
  lemma {:induction false} ChainAt(keys: RoundKeys, blocks: seq<Block>, previous: Block, i: nat)
    requires i < |blocks|
    ensures var cipher := Chain(keys, blocks, previous);
            var before := if i == 0 then previous else cipher[i - 1];
            exists x: Block :: cipher[i] == Encrypt(keys, x) && forall k | 0 <= k < 16 :: x[k] == blocks[i][k] ^ before[k]
  {
    hide Encrypt;
    if i == 0 {
      var x := XorBlocks(blocks[0], previous);
      assert forall k | 0 <= k < 16 :: x[k] == blocks[0][k] ^ previous[k];
    } else {
      ChainAt(keys, blocks[1..], Encrypt(keys, XorBlocks(blocks[0], previous)), i - 1);
    }
  }

  lemma {:induction false} UnchainInverts(keys: RoundKeys, blocks: seq<Block>, previous: Block)
    ensures Unchain(keys, Chain(keys, blocks, previous), previous) == blocks
  {
    hide Encrypt, Decrypt, XorBlocks;
    if blocks != [] {
      var x := XorBlocks(blocks[0], previous);
      DecryptInverts(keys, x);
      XorBlocksInverts(blocks[0], previous);
      UnchainInverts(keys, blocks[1..], Encrypt(keys, x));
    }
  }

  /** Padding to the next multiple of sixteen, each byte telling how many were added. */
  function Pad(plain: seq<bv8>): (padded: seq<bv8>)
    ensures |padded| % 16 == 0 && |plain| < |padded| <= |plain| + 16
  {
    var n := 16 - |plain| % 16;
    plain + seq(n, _ => n as bv8)
  }

  /** The count and the value of the bytes added. */
  lemma PadBytes(plain: seq<bv8>, i: nat)
    requires i < |Pad(plain)|
    ensures if i < |plain| then Pad(plain)[i] == plain[i] else Pad(plain)[i] as nat == |Pad(plain)| - |plain|
  {
    SmallByte(16 - |plain| % 16);
  }

  function Unpad(padded: seq<bv8>): seq<bv8>
    requires padded != [] && padded[|padded| - 1] as nat <= |padded|
  {
    var n := padded[|padded| - 1] as nat;
    if forall i | |padded| - n <= i < |padded| :: padded[i] as nat == n then padded[..|padded| - n] else []
  }

  lemma SmallByte(n: nat)
    requires n <= 16
    ensures (n as bv8) as nat == n
  {
  }

  lemma UnpadInverts(plain: seq<bv8>)
    ensures var p := Pad(plain); p[|p| - 1] as nat <= |p| && Unpad(p) == plain
  {
    var n := 16 - |plain| % 16;
    SmallByte(n);
    var p := Pad(plain);
    assert forall i | |p| - n <= i < |p| :: p[i] == n as bv8;
    assert p[..|p| - n] == plain;
  }

  function Split(message: seq<bv8>): (blocks: seq<Block>)
    requires |message| % 16 == 0
    ensures |blocks| == |message| / 16
  {
    if message == [] then [] else [message[..16]] + Split(message[16..])
  }

  function Join(blocks: seq<Block>): seq<bv8> {
    if blocks == [] then [] else blocks[0] + Join(blocks[1..])
  }

  lemma {:induction false} SplitAt(message: seq<bv8>, i: nat)
    requires |message| % 16 == 0 && 16 * i < |message|
    ensures Split(message)[i] == message[16 * i..16 * i + 16]
  {
    hide Split;
    var rest := message[16..];
    SplitStep(message, 0);
    assert message[0..] == message;
    if i > 0 {
      var start := 16 * i;
      SplitAt(rest, i - 1);
      assert rest[start - 16..start] == message[start..start + 16];
    }
  }

  lemma {:induction false} JoinInverts(message: seq<bv8>)
    requires |message| % 16 == 0
    ensures Join(Split(message)) == message
  {
    if message != [] {
      JoinInverts(message[16..]);
    }
  }

  lemma SplitStep(message: seq<bv8>, i: nat)
    requires |message| % 16 == 0 && i % 16 == 0 && i < |message|
    ensures i + 16 <= |message|
    ensures Split(message[i..]) == [message[i..i + 16]] + Split(message[i + 16..])
  {
    assert message[i..][..16] == message[i..i + 16] && message[i..][16..] == message[i + 16..];
  }

  // ----- hexadecimal output -----

  function Digit(n: bv8): char {
    if n == 0 then '0' else if n == 1 then '1' else if n == 2 then '2' else if n == 3 then '3'
    else if n == 4 then '4' else if n == 5 then '5' else if n == 6 then '6' else if n == 7 then '7'
    else if n == 8 then '8' else if n == 9 then '9' else if n == 10 then 'a' else if n == 11 then 'b'
    else if n == 12 then 'c' else if n == 13 then 'd' else if n == 14 then 'e' else 'f'
  }

  function Nibble(c: char): bv8 {
    if c == '0' then 0 else if c == '1' then 1 else if c == '2' then 2 else if c == '3' then 3
    else if c == '4' then 4 else if c == '5' then 5 else if c == '6' then 6 else if c == '7' then 7
    else if c == '8' then 8 else if c == '9' then 9 else if c == 'a' then 10 else if c == 'b' then 11
    else if c == 'c' then 12 else if c == 'd' then 13 else if c == 'e' then 14 else 15
  }

  lemma NibbleInverts(n: bv8)
    requires n < 16
    ensures Nibble(Digit(n)) == n
  {
  }

  function HexByte(b: bv8): (s: string)
    ensures |s| == 2
  {
    [Digit(b >> 4), Digit(b & 0x0F)]
  }

  function UnhexByte(high: char, low: char): bv8 {
    (Nibble(high) << 4) | Nibble(low)
  }

  /** The digits 0 to 9 and a to f, in the order of their codes. */
  lemma DigitCode(n: bv8)
    requires n < 16
    ensures Digit(n) == if n < 10 then '0' + n as char else 'a' + (n - 10) as char
  {
  }

  lemma NibblesJoin(b: bv8)
    ensures b >> 4 < 16 && b & 0x0F < 16 && ((b >> 4) << 4) | (b & 0x0F) == b
  {
  }

  lemma HexByteInverts(b: bv8)
    ensures UnhexByte(HexByte(b)[0], HexByte(b)[1]) == b
  {
    hide Digit, Nibble;
    NibblesJoin(b);
    NibbleInverts(b >> 4);
    NibbleInverts(b & 0x0F);
  }

  function HexBytes(bytes: seq<bv8>): (s: string)
    ensures |s| == 2 * |bytes|
  {
    if bytes == [] then [] else HexByte(bytes[0]) + HexBytes(bytes[1..])
  }

  function HexBlocks(blocks: seq<Block>): (s: string)
    ensures |s| == 32 * |blocks|
  {
    if blocks == [] then [] else HexBytes(blocks[0]) + HexBlocks(blocks[1..])
  }

  function UnhexBytes(s: string): (bytes: seq<bv8>)
    ensures |bytes| == |s| / 2
  {
    if |s| < 2 then [] else [UnhexByte(s[0], s[1])] + UnhexBytes(s[2..])
  }

  function UnhexBlocks(s: string): seq<Block> {
    if |s| < 32 then [] else [UnhexBytes(s[..32])] + UnhexBlocks(s[32..])
  }

  /** Digit pairs, the high one first, in the order of the bytes. */
  lemma {:induction false} HexByteAt(bytes: seq<bv8>, i: nat)
    requires i < |bytes|
    ensures HexBytes(bytes)[2 * i] == Digit(bytes[i] >> 4) && HexBytes(bytes)[2 * i + 1] == Digit(bytes[i] & 0x0F)
  {
    hide Digit;
    if i > 0 {
      HexByteAt(bytes[1..], i - 1);
    }
  }

  lemma {:induction false} HexBytesInverts(bytes: seq<bv8>)
    ensures UnhexBytes(HexBytes(bytes)) == bytes
  {
    hide UnhexByte, HexByte;
    if bytes != [] {
      HexByteInverts(bytes[0]);
      var h := HexBytes(bytes);
      assert h[2..] == HexBytes(bytes[1..]);
      HexBytesInverts(bytes[1..]);
    }
  }

  lemma {:induction false} HexBlockAt(blocks: seq<Block>, i: nat)
    requires i < |blocks|
    ensures HexBlocks(blocks)[32 * i..32 * i + 32] == HexBytes(blocks[i])
  {
    hide HexBytes;
    if i > 0 {
      HexBlockAt(blocks[1..], i - 1);
      var h := HexBlocks(blocks);
      assert h[32..] == HexBlocks(blocks[1..]);
      assert h[32 * i..32 * i + 32] == h[32..][32 * i - 32..32 * i];
    }
  }

  lemma {:induction false} HexBlocksInverts(blocks: seq<Block>)
    ensures UnhexBlocks(HexBlocks(blocks)) == blocks
  {
    hide HexBytes, UnhexBytes;
    if blocks != [] {
      HexBytesInverts(blocks[0]);
      var h := HexBlocks(blocks);
      assert h[..32] == HexBytes(blocks[0]) && h[32..] == HexBlocks(blocks[1..]);
      HexBlocksInverts(blocks[1..]);
    }
  }

  /** Undoing the text form, the chaining and the padding. */
  function CbcDecrypt(keys: RoundKeys, text: string, iv: Block): seq<bv8> {
    var padded := Join(Unchain(keys, UnhexBlocks(text), iv));
    if padded != [] && padded[|padded| - 1] as nat <= |padded| then Unpad(padded) else []
  }

  /** What chained encryption writes for any plaintext decrypts to that plaintext. */
  lemma CbcRoundTrip(keys: RoundKeys, plain: seq<bv8>, iv: Block)
    ensures CbcDecrypt(keys, HexBlocks(Chain(keys, Split(Pad(plain)), iv)), iv) == plain
  {
    hide Chain, Unchain, HexBlocks, UnhexBlocks, Join, Split, Unpad;
    var blocks := Split(Pad(plain));
    HexBlocksInverts(Chain(keys, blocks, iv));
    UnchainInverts(keys, blocks, iv);
    JoinInverts(Pad(plain));
    UnpadInverts(plain);
  }

  // ----- the counter of the splitting loop -----

  /** The 8-bit counter after k increments by 16. */
  function Counter(k: nat): nat {
    (16 * k) % 256
  }

  /** A message of whole blocks leaves the loop exactly when it has at most 240 bytes; padding keeps that below 240. */
  lemma SplitTerminatesIff(message: seq<bv8>)
    requires |message| % 16 == 0
    ensures (exists k: nat :: Counter(k) >= |message|) <==> |message| <= 240
  {
    if |message| <= 240 {
      assert Counter(|message| / 16) >= |message|;
    }
  }

  lemma PadFitsIff(plain: seq<bv8>)
    ensures |Pad(plain)| <= 240 <==> |plain| < 240
  {
  }

  // ----- the class -----

  predicate Square(a: array2<bv8>) {
    a.Length0 == 4 && a.Length1 == 4
  }

  function Row(a: array2<bv8>, i: nat): Column
    requires Square(a) && i < 4
    reads a
  {
    [a[i, 0], a[i, 1], a[i, 2], a[i, 3]]
  }

  function Value(a: array2<bv8>): Matrix4
    requires Square(a)
    reads a
  {
    Matrix4(Row(a, 0), Row(a, 1), Row(a, 2), Row(a, 3))
  }

  class AES256CBC {
    const keyMatrix: RoundKeys

    constructor (keyMatrix: RoundKeys)
      ensures this.keyMatrix == keyMatrix
    {
      this.keyMatrix := keyMatrix;
    }

    method SubBytesInPlace(matrix: array2<bv8>)
      requires Square(matrix)
      modifies matrix
      ensures Value(matrix) == SubBytes(old(Value(matrix)))
    {
      hide SBox;
      for i := 0 to 4
        invariant forall r, c | 0 <= r < 4 && 0 <= c < 4 ::
                    matrix[r, c] == if r < i then SBox(old(matrix[r, c])) else old(matrix[r, c])
      {
        for j := 0 to 4
          invariant forall r, c | 0 <= r < 4 && 0 <= c < 4 ::
                      matrix[r, c] == if r < i || (r == i && c < j) then SBox(old(matrix[r, c])) else old(matrix[r, c])
        {
          matrix[i, j] := SBox(matrix[i, j]);
        }
      }
    }

    method InvSubBytesInPlace(matrix: array2<bv8>)
      requires Square(matrix)
      modifies matrix
      ensures Value(matrix) == InvSubBytes(old(Value(matrix)))
    {
      hide InvSBox;
      for i := 0 to 4
        invariant forall r, c | 0 <= r < 4 && 0 <= c < 4 ::
                    matrix[r, c] == if r < i then InvSBox(old(matrix[r, c])) else old(matrix[r, c])
      {
        for j := 0 to 4
          invariant forall r, c | 0 <= r < 4 && 0 <= c < 4 ::
                      matrix[r, c] == if r < i || (r == i && c < j) then InvSBox(old(matrix[r, c])) else old(matrix[r, c])
        {
          matrix[i, j] := InvSBox(matrix[i, j]);
        }
      }
    }

    method AddRoundKeyInPlace(matrix: array2<bv8>, key: Matrix4)
      requires Square(matrix)
      modifies matrix
      ensures Value(matrix) == AddRoundKey(old(Value(matrix)), key)
    {
      hide Xor;
      for i := 0 to 4
        invariant forall r, c | 0 <= r < 4 && 0 <= c < 4 ::
                    matrix[r, c] == if r < i then Xor(old(matrix[r, c]), KeyRow(key, r)[c]) else old(matrix[r, c])
      {
        for j := 0 to 4
          invariant forall r, c | 0 <= r < 4 && 0 <= c < 4 ::
                      matrix[r, c] == if r < i || (r == i && c < j) then Xor(old(matrix[r, c]), KeyRow(key, r)[c])
                                      else old(matrix[r, c])
        {
          matrix[i, j] := Xor(matrix[i, j], KeyRow(key, i)[j]);
        }
      }
    }

    function KeyRow(key: Matrix4, i: nat): Column
      requires i < 4
    {
      if i == 0 then key.m0 else if i == 1 then key.m1 else if i == 2 then key.m2 else key.m3
    }

    /** Rotates a row to the left. */
    method RotateRow(matrix: array2<bv8>, i: nat, k: nat)
      requires Square(matrix) && i < 4 && k <= 4
      modifies matrix
      ensures Row(matrix, i) == Rotate(old(Row(matrix, i)), k)
      ensures forall r | 0 <= r < 4 && r != i :: Row(matrix, r) == old(Row(matrix, r))
    {
      var row := Rotate(Row(matrix, i), k);
      matrix[i, 0], matrix[i, 1], matrix[i, 2], matrix[i, 3] := row[0], row[1], row[2], row[3];
    }

    method ShiftRowsInPlace(matrix: array2<bv8>)
      requires Square(matrix)
      modifies matrix
      ensures Value(matrix) == ShiftRows(old(Value(matrix)))
    {
      RotateRow(matrix, 1, 1);
      RotateRow(matrix, 2, 2);
      RotateRow(matrix, 3, 3);
    }

    method InvShiftRowsInPlace(matrix: array2<bv8>)
      requires Square(matrix)
      modifies matrix
      ensures Value(matrix) == InvShiftRows(old(Value(matrix)))
    {
      RotateRow(matrix, 1, 4 - 1);
      RotateRow(matrix, 2, 4 - 2);
      RotateRow(matrix, 3, 4 - 3);
    }

    /** One row of the matrix, times the given constants. */
    method MixSingleColumnInPlace(matrix: array2<bv8>, i: nat, m: Matrix4)
      requires Square(matrix) && i < 4
      modifies matrix
      ensures Row(matrix, i) == MixSingleColumn(m, old(Row(matrix, i)))
      ensures forall r | 0 <= r < 4 && r != i :: Row(matrix, r) == old(Row(matrix, r))
    {
      hide Dot;
      var s := Row(matrix, i);
      var t0 := ComputeDot(m.m0, s);
      var t1 := ComputeDot(m.m1, s);
      var t2 := ComputeDot(m.m2, s);
      var t3 := ComputeDot(m.m3, s);
      matrix[i, 0], matrix[i, 1], matrix[i, 2], matrix[i, 3] := t0, t1, t2, t3;
    }

    method ComputeDot(row: Column, s: Column) returns (d: bv8)
      ensures d == Dot(row, s)
    {
      hide GMul, Xor;
      var p0 := ComputeGMul(s[0], row[0]);
      var p1 := ComputeGMul(s[1], row[1]);
      var p2 := ComputeGMul(s[2], row[2]);
      var p3 := ComputeGMul(s[3], row[3]);
      return Xor(Xor(Xor(p0, p1), p2), p3);
    }

    /** Every row, times the constants of the mixing or of its inverse. */
    method MixAllInPlace(matrix: array2<bv8>, m: Matrix4)
      requires Square(matrix)
      modifies matrix
      ensures Value(matrix) == MixAll(m, old(Value(matrix)))
    {
      hide MixSingleColumn;
      for i := 0 to 4
        invariant forall r | 0 <= r < 4 ::
                    Row(matrix, r) == if r < i then MixSingleColumn(m, old(Row(matrix, r))) else old(Row(matrix, r))
      {
        MixSingleColumnInPlace(matrix, i, m);
      }
    }

    method MixColumnsInPlace(matrix: array2<bv8>)
      requires Square(matrix)
      modifies matrix
      ensures Value(matrix) == MixAll(MIX, old(Value(matrix)))
    {
      MixAllInPlace(matrix, MIX);
    }

    method InvMixColumnsInPlace(matrix: array2<bv8>)
      requires Square(matrix)
      modifies matrix
      ensures Value(matrix) == MixAll(INV_MIX, old(Value(matrix)))
    {
      MixAllInPlace(matrix, INV_MIX);
    }

    method ComputeEncrypt(block: Block) returns (cipher: Block)
      ensures cipher == Encrypt(keyMatrix, block)
    {
      hide SubBytes, ShiftRows, MixAll, AddRoundKey, Rounds;
      var matrix := new bv8[4, 4];
      LoadMatrix(matrix, block);
      AddRoundKeyInPlace(matrix, keyMatrix[0]);
      ghost var first := Value(matrix);
      RoundsZero(keyMatrix, first);
      var nround := 14;
      for i := 1 to nround - 1
        invariant Value(matrix) == Rounds(keyMatrix, first, i - 1)
      {
        RoundsStep(keyMatrix, first, i);
        SubBytesInPlace(matrix);
        ShiftRowsInPlace(matrix);
        MixColumnsInPlace(matrix);
        AddRoundKeyInPlace(matrix, keyMatrix[i]);
      }
      SubBytesInPlace(matrix);
      ShiftRowsInPlace(matrix);
      AddRoundKeyInPlace(matrix, keyMatrix[|keyMatrix| - 1]);
      return FromMatrix(Value(matrix));
    }

    method LoadMatrix(matrix: array2<bv8>, block: Block)
      requires Square(matrix)
      modifies matrix
      ensures Value(matrix) == ToMatrix(block)
    {
      for i := 0 to 16
        invariant forall r, c | 0 <= r < 4 && 0 <= c < 4 && 4 * r + c < i :: matrix[r, c] == block[4 * r + c]
      {
        matrix[i / 4, i % 4] := block[i];
      }
    }

    method SplitToBlocks(message: seq<bv8>) returns (blocks: seq<Block>)
      requires |message| % 16 == 0 && |message| <= 240
      ensures blocks == Split(message)
    {
      hide Split;
      blocks := [];
      var i := 0;
      assert message[0..] == message;
      while i < |message|
        invariant 0 <= i <= |message| && i % 16 == 0
        invariant blocks + Split(message[i..]) == Split(message)
        decreases |message| - i
      {
        SplitStep(message, i);
        blocks := blocks + [message[i..i + 16]];
        i := (i + 16) % 256;
      }
    }

    /** For fewer than 240 bytes the splitting loop ends; the text is the hexadecimal form of the chained blocks. */
    method CbcEncrypt(plain: seq<bv8>, iv: Block) returns (text: string)
      requires |plain| < 240
      ensures text == HexBlocks(Chain(keyMatrix, Split(Pad(plain)), iv))
    {
      hide Encrypt, XorBlocks, Pad, Split, HexBlocks, Chain;
      PadFitsIff(plain);
      var split := SplitToBlocks(Pad(plain));
      var blocks: seq<Block> := [];
      var previous := iv;
      assert split[0..] == split;
      for i := 0 to |split|
        invariant |blocks| == i
        invariant blocks + Chain(keyMatrix, split[i..], previous) == Chain(keyMatrix, split, iv)
      {
        ChainStep(keyMatrix, split, i, previous);
        var cipher := ComputeEncrypt(XorBlocks(split[i], previous));
        blocks := blocks + [cipher];
        previous := cipher;
      }
      assert Chain(keyMatrix, split[|split|..], previous) == [] && blocks + [] == blocks;
      text := WriteHex(blocks);
    }

    method WriteHex(blocks: seq<Block>) returns (text: string)
      ensures text == HexBlocks(blocks)
    {
      hide HexBytes;
      text := "";
      for i := 0 to |blocks|
        invariant text + HexBlocks(blocks[i..]) == HexBlocks(blocks)
      {
        assert blocks[i..][1..] == blocks[i + 1..];
        text := text + HexBytes(blocks[i]);
      }
    }
  }

  lemma RoundsZero(keys: RoundKeys, m: Matrix4)
    ensures Rounds(keys, m, 0) == m
  {
  }

  lemma RoundsStep(keys: RoundKeys, m: Matrix4, i: nat)
    requires 1 <= i <= 12
    ensures Rounds(keys, m, i) == AddRoundKey(MixAll(MIX, ShiftRows(SubBytes(Rounds(keys, m, i - 1)))), keys[i])
  {
    hide SubBytes, ShiftRows, MixAll, AddRoundKey;
  }
}
