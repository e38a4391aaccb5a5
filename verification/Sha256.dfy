/**
 * How the hash splits and pads a message into blocks of sixteen words, against sections 5.1.1 and 5.2.1 of
 * FIPS 180-4. The compression of one block is a parameter.
 */
module Sha256Padding {
  import Arithmetic
  import opened BitStrings
  import opened MachineWords

  // ----- the standard -----

  function MessageBits(message: seq<Byte>): (bits: Bits)
    ensures |bits| == 8 * |message|
  {
    if message == [] then [] else MessageBits(message[..|message| - 1]) + BitsOf(message[|message| - 1], 8)
  }

  /** Eight bits a byte in the order of the bytes, each with its highest bit first. */
  ghost predicate BitsOfBytes(message: seq<Byte>, bits: Bits) {
    && |bits| == 8 * |message|
    && forall k | 0 <= k < |bits| :: bits[k] == message[k / 8] / Power2(7 - k % 8) % 2
  }

  lemma {:induction false} MessageBitsAre(message: seq<Byte>)
    ensures BitsOfBytes(message, MessageBits(message))
  {
    if message != [] {
      var n := |message| - 1;
      MessageBitsAre(message[..n]);
      var bits := MessageBits(message);
      forall k | 0 <= k < |bits|
        ensures bits[k] == message[k / 8] / Power2(7 - k % 8) % 2
      {
        if k < 8 * n {
          assert MessageBits(message[..n])[k] == message[..n][k / 8] / Power2(7 - k % 8) % 2;
        } else {
          BitAt(message[n], 8, k - 8 * n);
        }
      }
    }
  }

  /** The least number of zeros that makes the length a multiple of 512 after a 1 and 64 bits of length. */
  function ZeroCount(l: nat): (k: nat)
    ensures k < 512 && (l + 1 + k) % 512 == 448
  {
    (959 - l % 512) % 512
  }

  lemma ZeroCountLeast(l: nat, k: nat)
    requires (l + 1 + k) % 512 == 448
    ensures k >= ZeroCount(l)
  {
    var q, r := l / 512, l % 512;
    Arithmetic.DivisionUnique(959 - r, 512, if r <= 447 then 1 else 0, ZeroCountOf(r));
    if k < ZeroCountOf(r) {
      var rest := r + 1 + k;
      Arithmetic.DivisionUnique(l + 1 + k, 512, if rest < 512 then q else q + 1, if rest < 512 then rest else rest - 512);
    }
  }

  function ZeroCountOf(r: int): int {
    if r <= 447 then 447 - r else 959 - r
  }

  /** The padded message: a 1, the zeros, and the length in 64 bits. */
  function Padded(m: Bits): Bits {
    m + [1] + Zeros(ZeroCount(|m|)) + BitsOf(|m|, 64)
  }

  /**
   * Section 5.1.1 of FIPS 180-4: the message, a 1, as few zeros as make the length a multiple of 512 with 64 bits
   * to come, and in these the length.
   */
  ghost predicate IsPadded(m: Bits, p: Bits) {
    && m <= p && |m| + 65 <= |p| < |m| + 65 + 512 && |p| % 512 == 0
    && p[|m|] == 1
    && (forall i | |m| < i < |p| - 64 :: p[i] == 0)
    && (forall i | |p| - 64 <= i < |p| :: p[i] == |m| / Power2(|p| - 1 - i) % 2)
  }

  lemma PaddedIs(m: Bits)
    ensures IsPadded(m, Padded(m))
  {
    hide BitsOf, Power2;
    var p, k := Padded(m), ZeroCount(|m|);
    var q := (|m| + 1 + k) / 512;
    Arithmetic.DivisionUnique(|m| + 65 + k, 512, q + 1, 0);
    hide ZeroCount;
    assert |p| == |m| + 65 + k && p[|m|] == 1 && p[..|m|] == m;
    assert forall i | |m| < i < |p| - 64 :: p[i] == Zeros(k)[i - |m| - 1];
    forall i | |p| - 64 <= i < |p|
      ensures p[i] == |m| / Power2(|p| - 1 - i) % 2
    {
      BitAt(|m|, 64, i - |p| + 64);
    }
  }

  lemma PaddedUnique(m: Bits, p: Bits, q: Bits)
    requires IsPadded(m, p) && IsPadded(m, q)
    ensures p == q
  {
    hide Power2;
    Arithmetic.DivisionUnique(|p|, 512, |p| / 512, 0);
    Arithmetic.DivisionUnique(|q|, 512, |q| / 512, 0);
    forall i | 0 <= i < |p|
      ensures p[i] == q[i]
    {
      if i < |m| {
        assert p[i] == m[i] == q[i];
      }
    }
  }

  /** The sixteen words of a block; the last may be cut short. */
  function Words(block: Bits): (words: seq<nat>)
    requires 480 <= |block| <= 512
    ensures |words| == 16
  {
    seq(16, t requires 0 <= t < 16 => ValueOf(block[32 * t..if t < 15 then 32 * t + 32 else |block|]))
  }

  function HashBlocks<State>(compress: (State, seq<nat>) -> State, h: State, padded: Bits): State
    decreases |padded|
  {
    if |padded| < 512 then h
    else HashBlocks(compress, compress(h, Words(padded[..512])), padded[512..])
  }

  /** Blocks are compressed one after the other. */
  lemma {:induction false} HashBlocksConcat<State>(compress: (State, seq<nat>) -> State, h: State, a: Bits, b: Bits)
    requires |a| % 512 == 0
    ensures HashBlocks(compress, h, a + b) == HashBlocks(compress, HashBlocks(compress, h, a), b)
    decreases |a|
  {
    if a == [] {
      assert a + b == b;
    } else {
      assert (a + b)[..512] == a[..512] && (a + b)[512..] == a[512..] + b;
      HashBlocksConcat(compress, compress(h, Words(a[..512])), a[512..], b);
    }
  }

  /** The number that four bytes denote, the highest first. */
  function BigEndian(bytes: seq<Byte>): nat
    requires |bytes| == 4
  {
    var a: nat, b: nat, c: nat, d: nat := bytes[0], bytes[1], bytes[2], bytes[3];
    ((a * 256 + b) * 256 + c) * 256 + d
  }

  lemma FourBytesValue(bytes: seq<Byte>)
    requires |bytes| == 4
    ensures ValueOf(BitsOf(bytes[0], 8) + BitsOf(bytes[1], 8) + BitsOf(bytes[2], 8) + BitsOf(bytes[3], 8)) == BigEndian(bytes)
  {
    hide BitsOf, ValueOf, Power2;
    var b0, b1, b2, b3 := BitsOf(bytes[0], 8), BitsOf(bytes[1], 8), BitsOf(bytes[2], 8), BitsOf(bytes[3], 8);
    PowerEight();
    ValueOfConcat(b0 + b1 + b2, b3);
    ValueOfConcat(b0 + b1, b2);
    ValueOfConcat(b0, b1);
    ValueOfBits(bytes[0], 8);
    ValueOfBits(bytes[1], 8);
    ValueOfBits(bytes[2], 8);
    ValueOfBits(bytes[3], 8);
  }

  /** The words of a block of bytes. */
  lemma BigEndianWords(bytes: seq<Byte>, t: nat)
    requires |bytes| == 64 && t < 16
    ensures Words(MessageBits(bytes))[t] == BigEndian(bytes[4 * t..4 * t + 4])
  {
    var bits := MessageBits(bytes);
    hide BitsOf, ValueOf, Power2, MessageBits, BigEndian;
    MessageBitsSlice(bytes, 4 * t);
    MessageBitsSlice(bytes, 4 * t + 1);
    MessageBitsSlice(bytes, 4 * t + 2);
    MessageBitsSlice(bytes, 4 * t + 3);
    var four := bytes[4 * t..4 * t + 4];
    FourBytesValue(four);
    assert Words(bits)[t] == ValueOf(bits[32 * t..32 * t + 32]);
    hide Words;
    assert bits[32 * t..32 * t + 32] ==
           bits[32 * t..32 * t + 8] + bits[32 * t + 8..32 * t + 16] + bits[32 * t + 16..32 * t + 24] + bits[32 * t + 24..32 * t + 32];
  }

  lemma PowerEight()
    ensures Power2(8) == 256
  {
  }

  lemma {:induction false} MessageBitsSlice(message: seq<Byte>, j: nat)
    requires j < |message|
    ensures MessageBits(message)[8 * j..8 * j + 8] == BitsOf(message[j], 8)
  {
    var n := |message| - 1;
    if j < n {
      MessageBitsSlice(message[..n], j);
      hide BitsOf;
      var front := MessageBits(message[..n]);
      assert MessageBits(message) == front + BitsOf(message[n], 8) && 8 * j + 8 <= |front|;
      assert (front + BitsOf(message[n], 8))[8 * j..8 * j + 8] == front[8 * j..8 * j + 8];
    }
  }

  /** Reading at most 32 digits never wraps a 32-bit word. */
  lemma WordFits(block: Bits, t: nat)
    requires 480 <= |block| <= 512 && t < 16
    ensures var end := if 32 * t + 32 <= |block| then 32 * t + 32 else |block|;
            32 * t <= end && Words(block)[t] == ValueOf(block[32 * t..end]) % 0x1_0000_0000
  {
    hide ValueOf, Power2;
    var end := if 32 * t + 32 <= |block| then 32 * t + 32 else |block|;
    ValueBound(block[32 * t..end]);
    PowerMonotone(end - 32 * t, 32);
    PowerThirtyOne();
  }

  // ----- the block of 511 characters -----

  /** When the 1 already went into the block before, the last block lacks one zero. */
  function ShortBlock(l: nat): Bits {
    Zeros(447) + BitsOf(l, 64)
  }

  lemma WordOfZeros(block: Bits, t: nat)
    requires 480 <= |block| <= 512 && t < 15
    requires forall i | 0 <= i < 480 :: block[i] == 0
    ensures Words(block)[t] == 0
  {
    ZerosAreZero(block[32 * t..32 * t + 32]);
  }

  /** The last word is what follows the first 480 bits; a zero in front of it does not change it. */
  lemma LastWord(low: Bits)
    requires |low| == 31
    ensures Words(Zeros(480) + low)[15] == Words(Zeros(481) + low)[15]
  {
    var short, full := Zeros(480) + low, Zeros(481) + low;
    assert short[480..511] == low;
    assert full[480..512] == [0] + low;
    LeadingZero(low);
  }

  /** It still parses to the words of the full block, because the length has at most 31 bits. */
  lemma ShortBlockWords(l: nat)
    requires l < 0x8000_0000
    ensures Words(ShortBlock(l)) == Words(Zeros(448) + BitsOf(l, 64))
  {
    assert l < Power2(31) by { PowerThirtyOne(); }
    var low := BitsOf(l, 31);
    SmallNumberBits(l, 31, 64);
    var short, full := ShortBlock(l), Zeros(448) + BitsOf(l, 64);
    assert short == Zeros(480) + low;
    assert full == Zeros(481) + low;
    hide *;
    LastWord(low);
    forall t | 0 <= t < 15
      ensures Words(short)[t] == Words(full)[t]
    {
      WordOfZeros(short, t);
      WordOfZeros(full, t);
    }
  }

  lemma PowerThirtyOne()
    ensures Power2(31) == 0x8000_0000 && Power2(32) == 0x1_0000_0000
  {
    assert Power2(8) == 256;
    assert Power2(16) == 65536;
    assert Power2(24) == 0x100_0000;
  }

  // ----- where the blocks of the padded message lie -----

  lemma FullBlock(m: Bits, pos: nat)
    requires pos + 512 <= |m|
    ensures pos + 512 <= |Padded(m)| && Padded(m)[pos..][..512] == m[pos..pos + 512]
    ensures Padded(m)[pos..][512..] == Padded(m)[pos + 512..]
  {
  }

  /** With 448 to 511 bits left, this block takes the 1 and the length goes into a block of its own. */
  lemma OverflowBlock(m: Bits, pos: nat)
    requires pos % 512 == 0 && pos + 448 <= |m| < pos + 512
    ensures |Padded(m)| == pos + 1024
    ensures Padded(m)[pos..][..512] == m[pos..] + [1] + Zeros(511 - (|m| - pos))
    ensures Padded(m)[pos..][512..] == Padded(m)[pos + 512..] == Zeros(448) + BitsOf(|m|, 64)
  {
    assert ZeroCount(|m|) == 959 - (|m| - pos);
    assert Padded(m)[pos..][..512] == m[pos..] + [1] + Zeros(511 - (|m| - pos));
  }

  /** With at most 447 bits left, this block is the last. */
  lemma FinalBlock(m: Bits, pos: nat)
    requires pos % 512 == 0 && pos <= |m| <= pos + 447
    ensures |Padded(m)| == pos + 512
    ensures Padded(m)[pos..] == m[pos..] + [1] + Zeros(447 - (|m| - pos)) + BitsOf(|m|, 64)
  {
    assert ZeroCount(|m|) == 447 - (|m| - pos);
  }

  /** A block of more than 447 message bits, as the padding routine makes it, and what follows it. */
  lemma LongBlock(m: Bits, pos: nat, temp: Bits)
    requires pos % 512 == 0 && pos <= |m| && 447 < |temp|
    requires temp == m[pos..if pos + 512 <= |m| then pos + 512 else |m|]
    ensures pos + 512 <= |Padded(m)|
    ensures Padded(m)[pos..][..512] == if |temp| == 512 then temp else temp + [1] + Zeros(511 - |temp|)
    ensures Padded(m)[pos..][512..] == Padded(m)[pos + 512..]
    ensures |temp| < 512 ==> Padded(m)[pos + 512..] == Zeros(448) + BitsOf(|m|, 64)
  {
    hide Padded;
    if |temp| == 512 {
      FullBlock(m, pos);
    } else {
      assert temp == m[pos..];
      OverflowBlock(m, pos);
    }
  }

  lemma HashStep<State>(compress: (State, seq<nat>) -> State, h: State, blocks: Bits)
    requires |blocks| >= 512
    ensures HashBlocks(compress, h, blocks) == HashBlocks(compress, compress(h, Words(blocks[..512])), blocks[512..])
  {
  }

  lemma OneBlock<State>(compress: (State, seq<nat>) -> State, h: State, block: Bits)
    requires |block| == 512
    ensures HashBlocks(compress, h, block) == compress(h, Words(block))
  {
    assert block[..512] == block && block[512..] == [];
  }

  // ----- the class -----

  class Sha256<State> {
    /** Whether the 1 after the message has been written; shared by all calls. */
    var is1: bool
    const compress: (State, seq<nat>) -> State
    const initial: State

    constructor (compress: (State, seq<nat>) -> State, initial: State)
      ensures !is1 && this.compress == compress && this.initial == initial
    {
      this.compress, this.initial := compress, initial;
      is1 := false;
    }

    method ConvertBinary(message: seq<Byte>) returns (bits: Bits)
      ensures bits == MessageBits(message) && BitsOfBytes(message, bits)
    {
      MessageBitsAre(message);
      hide BitsOfBytes;
      bits := [];
      for i := 0 to |message|
        invariant bits == MessageBits(message[..i])
      {
        bits := bits + BitsOf(message[i], 8);
        assert message[..i + 1][..i] == message[..i];
      }
      assert message[..|message|] == message;
    }

    /** A full block stays as it is; otherwise the 1 is written once, then zeros and, in the final block, the length. */
    method Pad512Bits(value: Bits, isFinalBlock: bool, extraLen: nat) returns (padded: Bits)
      requires if isFinalBlock then |value| <= 447 else |value| <= 512
      modifies this
      ensures is1 == (old(is1) || isFinalBlock || |value| < 512)
      ensures var one := if old(is1) then [] else [1];
              padded == if isFinalBlock then value + one + Zeros(447 - |value|) + BitsOf(|value| + extraLen, 64)
                        else if |value| < 512 then value + one + Zeros(511 - |value|)
                        else value
    {
      padded := value;
      if !isFinalBlock {
        if |value| != 512 {
          if !is1 {
            padded := padded + [1];
            is1 := true;
          }
          padded := padded + Zeros(511 - |value|);
        } else {
          padded := padded + Zeros(512 - |value|);
        }
      } else {
        var lengthBits := BitsOf(|value| + extraLen, 64);
        if !is1 {
          padded := padded + [1];
          is1 := true;
        }
        padded := padded + Zeros(447 - |value|);
        padded := padded + lengthBits;
      }
    }

    /** Parses the sixteen words and compresses them. */
    method ComputeHash(block: Bits, h: State) returns (h': State)
      requires 480 <= |block| <= 512
      ensures h' == compress(h, Words(block))
    {
      hide Words, ValueOf;
      var words: seq<nat> := [];
      var i := 0;
      while i < 512
        invariant 0 <= i <= 512 && i % 32 == 0 && |words| == i / 32
        invariant words == Words(block)[..i / 32]
      {
        var end := if i + 32 <= |block| then i + 32 else |block|;
        WordFits(block, i / 32);
        var word := ValueOf(block[i..end]) % 0x1_0000_0000;
        words := words + [word];
        i := i + 32;
      }
      assert words == Words(block);
      return compress(h, words);
    }

    /**
     * The hash of a message of fewer than 2^31 bits is the fold of the compression over the blocks of the
     * standard, and the shared flag is down again afterwards.
     */
    method Digest(message: seq<Byte>) returns (h: State)
      requires 8 * |message| < 0x8000_0000 && !is1
      modifies this
      ensures !is1
      ensures var bits, padded := MessageBits(message), Padded(MessageBits(message));
              BitsOfBytes(message, bits) && IsPadded(bits, padded) && h == HashBlocks(compress, initial, padded)
    {
      hide BitsOf, Words, HashBlocks, IsPadded, BitsOfBytes;
      var bin := ConvertBinary(message);
      PaddedIs(bin);
      if |message| > 55 {
        h := DigestLong(bin);
        is1 := false;
        return;
      }
      ghost var p := Padded(bin);
      FinalBlock(bin, 0);
      assert p[0..] == p && bin[0..] == bin;
      OneBlock(compress, initial, p);
      var pad := Pad512Bits(bin, true, 0);
      h := ComputeHash(pad, initial);
      is1 := false;
    }

    /** The loop over a long message: 512 bits at a time, until at most 447 are left. */
    method DigestLong(bin: Bits) returns (h: State)
      requires |bin| < 0x8000_0000 && |bin| % 8 == 0 && !is1
      modifies this
      ensures h == HashBlocks(compress, initial, Padded(bin))
    {
      hide HashBlocks, Padded, BitsOf, Words;
      ghost var p := Padded(bin);
      h := initial;
      var i := 0;
      ghost var pos := 0;
      assert p[0..] == p;
      var go := true;
      while go
        invariant 0 <= i <= |bin|
        invariant 0 <= pos <= |p| && pos % 512 == 0
        invariant go && !is1 ==> pos == i
        invariant go && is1 ==> i == |bin| && p[pos..] == Zeros(448) + BitsOf(|bin|, 64)
        invariant go ==> HashBlocks(compress, h, p[pos..]) == HashBlocks(compress, initial, p)
        invariant !go ==> h == HashBlocks(compress, initial, p)
        decreases go, |bin| - i
      {
        var temp := bin[i..if i + 512 <= |bin| then i + 512 else |bin|];
        if |temp| > 447 {
          LongBlock(bin, pos, temp);
          HashStep(compress, h, p[pos..]);
          i := i + |temp|;
          var pad := Pad512Bits(temp, false, 0);
          h := ComputeHash(pad, h);
          pos := pos + 512;
        } else {
          assert temp == bin[i..];
          LastBlock(bin, p, pos, i, is1);
          OneBlock(compress, h, p[pos..]);
          var pad := Pad512Bits(temp, true, i);
          h := ComputeHash(pad, h);
          go := false;
        }
      }
    }
  }

  /** The final block parses to the words of the last block of the padded message, whichever way it was reached. */
  lemma LastBlock(bin: Bits, p: Bits, pos: nat, i: nat, is1: bool)
    requires |bin| < 0x8000_0000 && i <= |bin| <= i + 447 && pos % 512 == 0 && pos <= |p|
    requires p == Padded(bin)
    requires if is1 then i == |bin| && p[pos..] == Zeros(448) + BitsOf(|bin|, 64) else pos == i
    ensures |p[pos..]| == 512
    ensures var one := if is1 then [] else [1];
            var block := bin[i..] + one + Zeros(447 - (|bin| - i)) + BitsOf(|bin|, 64);
            480 <= |block| <= 512 && Words(block) == Words(p[pos..])
  {
    if is1 {
      ShortBlockWords(|bin|);
      assert bin[i..] + [] + Zeros(447) + BitsOf(|bin|, 64) == ShortBlock(|bin|);
    } else {
      FinalBlock(bin, pos);
    }
  }
}
