/**
 * Mnemonics: a number becomes 128 bits, a checksum and words for groups of eleven bits; the words give the
 * number back in hexadecimal exactly when it fits into the 128 bits. The checksum hash is a parameter.
 */
module Bip39SeedMaker {
  import opened BitStrings
  import opened TextStreams
  import opened Wrappers

  // ----- hexadecimal -----

  type HexDigit = d: nat | d < 16

  /** The digits a hexadecimal stream prints: no leading zeros, and one digit for zero. */
  function HexDigits(v: nat): (digits: seq<HexDigit>)
    ensures |digits| >= 1
  {
    if v < 16 then [v] else HexDigits(v / 16) + [v % 16]
  }

  function HexValue(digits: seq<HexDigit>): nat {
    if digits == [] then 0 else 16 * HexValue(digits[..|digits| - 1]) + digits[|digits| - 1]
  }

  lemma {:induction false} HexValueInverts(v: nat)
    ensures HexValue(HexDigits(v)) == v
  {
    if v < 16 {
      assert HexDigits(v)[..0] == [];
    } else {
      HexValueInverts(v / 16);
      assert HexDigits(v)[..|HexDigits(v)| - 1] == HexDigits(v / 16);
    }
  }

  /** Each digit in powers of sixteen, and no zero in front. */
  lemma {:induction false} HexDigitAt(v: nat, i: nat)
    requires i < |HexDigits(v)|
    ensures HexDigits(v)[i] == v / Power2(4 * (|HexDigits(v)| - 1 - i)) % 16
    ensures |HexDigits(v)| > 1 ==> HexDigits(v)[0] > 0
  {
    if v >= 16 {
      var n := |HexDigits(v)|;
      HexDigitAt(v / 16, if i < n - 1 then i else 0);
      if i < n - 1 {
        PowerSixteen(n - 2 - i);
        DivideTwice(v, 16, Power2(4 * (n - 2 - i)));
      }
    }
  }

  // ----- bits of a number -----

  function NibbleBits(digits: seq<HexDigit>): (bits: Bits)
    ensures |bits| == 4 * |digits|
  {
    if digits == [] then [] else NibbleBits(digits[..|digits| - 1]) + BitsOf(digits[|digits| - 1], 4)
  }

  function PadBinary(bits: Bits, width: nat): Bits {
    if |bits| < width then Zeros(width - |bits|) + bits else bits
  }

  /** Four bits for each hexadecimal digit, padded to 128. */
  function Binary(v: nat): (bits: Bits)
    ensures |bits| >= 128
  {
    PadBinary(NibbleBits(HexDigits(v)), 128)
  }

  lemma FourHalvings(n: nat)
    ensures n / 2 / 2 / 2 / 2 == n / 16
    ensures n % 16 / 2 / 2 / 2 % 2 == n / 2 / 2 / 2 % 2 && n % 16 / 2 / 2 % 2 == n / 2 / 2 % 2
    ensures n % 16 / 2 % 2 == n / 2 % 2 && n % 16 % 2 == n % 2
  {
  }

  lemma FourBits(n: nat, width: nat)
    ensures BitsOf(n, width + 4) == BitsOf(n / 16, width) + BitsOf(n % 16, 4)
  {
    FourHalvings(n);
    var m := n % 16;
    assert BitsOf(m, 4) == [m / 2 / 2 / 2 % 2, m / 2 / 2 % 2, m / 2 % 2, m % 2] by {
      assert BitsOf(m / 2 / 2 / 2, 1) == [m / 2 / 2 / 2 % 2];
      assert BitsOf(m / 2 / 2, 2) == [m / 2 / 2 / 2 % 2, m / 2 / 2 % 2];
      assert BitsOf(m / 2, 3) == [m / 2 / 2 / 2 % 2, m / 2 / 2 % 2, m / 2 % 2];
    }
    assert BitsOf(n / 2 / 2 / 2, width + 1) == BitsOf(n / 16, width) + [n / 2 / 2 / 2 % 2];
    assert BitsOf(n / 2 / 2, width + 2) == BitsOf(n / 16, width) + [n / 2 / 2 / 2 % 2, n / 2 / 2 % 2];
    assert BitsOf(n / 2, width + 3) == BitsOf(n / 16, width) + [n / 2 / 2 / 2 % 2, n / 2 / 2 % 2, n / 2 % 2];
  }

  lemma {:induction false} NibbleBitsAreBits(v: nat)
    ensures NibbleBits(HexDigits(v)) == BitsOf(v, 4 * |HexDigits(v)|)
  {
    var digits := HexDigits(v);
    if v < 16 {
      assert digits[..0] == [];
      assert [] + BitsOf(v, 4) == BitsOf(v, 4);
    } else {
      hide BitsOf;
      NibbleBitsAreBits(v / 16);
      assert digits[..|digits| - 1] == HexDigits(v / 16);
      FourBits(v, 4 * |HexDigits(v / 16)|);
    }
  }

  /** The digits of v reach exactly as far as v does. */
  lemma {:induction false} DigitsFit(v: nat)
    ensures v < Power2(4 * |HexDigits(v)|)
    ensures |HexDigits(v)| > 1 ==> v >= Power2(4 * (|HexDigits(v)| - 1))
  {
    if v >= 16 {
      DigitsFit(v / 16);
      var n := |HexDigits(v / 16)|;
      PowerSixteen(n);
      if n > 1 {
        PowerSixteen(n - 1);
      } else {
        assert Power2(4) == 16;
      }
    } else {
      assert Power2(4) == 16;
    }
  }

  lemma PowerSixteen(n: nat)
    ensures Power2(4 * (n + 1)) == 16 * Power2(4 * n)
  {
    assert Power2(4 * n + 4) == 2 * Power2(4 * n + 3) == 4 * Power2(4 * n + 2) == 8 * Power2(4 * n + 1);
  }

  /** A number below 2^128 gets its 128 bits; a larger one gets four for each digit, which is more than 128. */
  lemma BinaryIs(v: nat)
    ensures v < Power2(128) ==> Binary(v) == BitsOf(v, 128)
    ensures v >= Power2(128) ==> |Binary(v)| == 4 * |HexDigits(v)| >= 132
  {
    hide HexDigits, NibbleBits, BitsOf, Power2;
    var n := |HexDigits(v)|;
    NibbleBitsAreBits(v);
    DigitsFit(v);
    if v < Power2(128) {
      if n > 32 {
        PowerMonotone(128, 4 * (n - 1));
      }
      SmallNumberBits(v, 4 * n, 128);
      assert Zeros(0) + BitsOf(v, 128) == BitsOf(v, 128);
    } else if n <= 32 {
      PowerMonotone(4 * n, 128);
    }
  }

  // ----- groups of eleven -----

  /** The numbers of consecutive groups of eleven bits; the last group may be shorter. */
  function SplitToGroups(bits: Bits): (groups: seq<nat>)
    decreases |bits|
  {
    if bits == [] then []
    else if |bits| <= 11 then [ValueOf(bits)]
    else [ValueOf(bits[..11])] + SplitToGroups(bits[11..])
  }

  lemma {:induction false} GroupCount(bits: Bits)
    ensures |SplitToGroups(bits)| == (|bits| + 10) / 11
    ensures forall i | 0 <= i < |SplitToGroups(bits)| :: SplitToGroups(bits)[i] < 2048
    decreases |bits|
  {
    assert Power2(11) == 2048 by { assert Power2(6) == 64; }
    if bits != [] {
      if |bits| <= 11 {
        ValueBound(bits);
        PowerMonotone(|bits|, 11);
      } else {
        ValueBound(bits[..11]);
        GroupCount(bits[11..]);
      }
    }
  }

  /** Eleven bits for each number. */
  function Ungroup(groups: seq<nat>): (bits: Bits)
    ensures |bits| == 11 * |groups|
  {
    if groups == [] then [] else BitsOf(groups[0], 11) + Ungroup(groups[1..])
  }

  lemma {:induction false} UngroupInverts(bits: Bits)
    requires |bits| % 11 == 0
    ensures Ungroup(SplitToGroups(bits)) == bits
    decreases |bits|
  {
    if bits != [] {
      if |bits| == 11 {
        BitsOfValue(bits);
        assert bits + [] == bits;
      } else {
        BitsOfValue(bits[..11]);
        UngroupInverts(bits[11..]);
        assert bits[..11] + bits[11..] == bits;
      }
    }
  }

  // ----- words and text -----

  /** 2048 distinct words, none empty and none with white space in it. */
  ghost predicate WordList(words: seq<string>) {
    && |words| == 2048
    && (forall i, j | 0 <= i < j < |words| :: words[i] != words[j])
    && (forall i | 0 <= i < |words| :: IsWord(words[i]))
  }

  /** The position of a word, or the length of the list. */
  function IndexOf(words: seq<string>, w: string): (i: nat)
    ensures i <= |words|
    ensures i < |words| ==> words[i] == w
    ensures i == |words| ==> w !in words
  {
    if words == [] then 0 else if words[0] == w then 0 else 1 + IndexOf(words[1..], w)
  }

  lemma {:induction false} IndexOfWord(words: seq<string>, i: nat)
    requires i < |words| && forall j, k | 0 <= j < k < |words| :: words[j] != words[k]
    ensures IndexOf(words, words[i]) == i
  {
    if i > 0 {
      IndexOfWord(words[1..], i - 1);
    }
  }

  // ----- the two directions -----

  function WordsOf(words: seq<string>, groups: seq<nat>): seq<string>
    requires forall i | 0 <= i < |groups| :: groups[i] < |words|
  {
    seq(|groups|, i requires 0 <= i < |groups| => words[groups[i]])
  }

  function TransformToSeed(words: seq<string>, checksum: nat -> Bits, v: nat): string
    requires |words| == 2048
  {
    GroupCount(Binary(v) + checksum(v));
    var text := Spaced(WordsOf(words, SplitToGroups(Binary(v) + checksum(v))));
    if text == "" then "" else text[..|text| - 1]
  }

  /** The low eleven bits of the position of each word. */
  function SeedBits(words: seq<string>, ws: seq<string>): Bits {
    if ws == [] then []
    else
      var index := Binary(IndexOf(words, ws[0]));
      index[|index| - 11..] + SeedBits(words, ws[1..])
  }

  datatype SeedError = TooShort

  /** The first 128 bits in hexadecimal; taking the checksum after them fails when there are fewer. */
  function ReverseSeed(words: seq<string>, seed: string): Result<seq<HexDigit>, SeedError> {
    var bits := SeedBits(words, ReadWords(seed));
    if |bits| < 128 then Err(TooShort) else Ok(HexDigits(ValueOf(bits[..128])))
  }

  lemma LowEleven(index: nat)
    requires index < 2048
    ensures Binary(index)[|Binary(index)| - 11..] == BitsOf(index, 11)
  {
    assert Power2(11) == 2048 by { assert Power2(6) == 64; }
    PowerMonotone(11, 128);
    BinaryIs(index);
    SmallNumberBits(index, 11, 128);
  }

  lemma DistinctWords(words: seq<string>)
    requires WordList(words)
    ensures |words| == 2048 && forall i, j | 0 <= i < j < 2048 :: words[i] != words[j]
  {
  }

  lemma {:induction false} SeedBitsOfWords(words: seq<string>, groups: seq<nat>)
    requires WordList(words) && forall i | 0 <= i < |groups| :: groups[i] < 2048
    ensures SeedBits(words, WordsOf(words, groups)) == Ungroup(groups)
  {
    hide Binary, BitsOf, IndexOf, IsWord, WordList;
    assert |words| == 2048 && forall i, j | 0 <= i < j < 2048 :: words[i] != words[j] by { DistinctWords(words); }
    if groups != [] {
      var ws := WordsOf(words, groups);
      assert ws[1..] == WordsOf(words, groups[1..]);
      IndexOfWord(words, groups[0]);
      LowEleven(groups[0]);
      SeedBitsOfWords(words, groups[1..]);
    }
  }

  /** Reading a mnemonic back gives the bits of its groups. */
  lemma ReverseOfTransform(words: seq<string>, checksum: nat -> Bits, v: nat)
    requires WordList(words)
    ensures var groups := SplitToGroups(Binary(v) + checksum(v));
            && |groups| >= 12 && |Ungroup(groups)| >= 128
            && ReverseSeed(words, TransformToSeed(words, checksum, v)) == Ok(HexDigits(ValueOf(Ungroup(groups)[..128])))
  {
    var groups := SplitToGroups(Binary(v) + checksum(v));
    GroupCount(Binary(v) + checksum(v));
    var ws := WordsOf(words, groups);
    assert forall w | w in ws :: IsWord(w);
    ReadSpaced(ws);
    SeedBitsOfWords(words, groups);
  }

  /** The digits of group j. */
  function Group(bits: Bits, j: nat): Bits
    requires 11 * j <= |bits|
  {
    bits[11 * j..if 11 * j + 11 <= |bits| then 11 * j + 11 else |bits|]
  }

  lemma GroupShift(bits: Bits, j: nat)
    requires j > 0 && 11 * j <= |bits|
    ensures Group(bits, j) == Group(bits[11..], j - 1)
  {
    var start, rest := 11 * j, bits[11..];
    var end := if start + 11 <= |bits| then start + 11 else |bits|;
    assert Group(rest, j - 1) == rest[start - 11..end - 11];
    assert rest[start - 11..end - 11] == bits[start..end];
  }

  lemma SplitFirst(bits: Bits)
    requires bits != []
    ensures SplitToGroups(bits) == [ValueOf(Group(bits, 0))] + if |bits| <= 11 then [] else SplitToGroups(bits[11..])
  {
    hide ValueOf;
    assert bits[0..|bits|] == bits && (|bits| > 11 ==> bits[0..11] == bits[..11]);
  }

  lemma {:induction false} GroupAt(bits: Bits, j: nat)
    requires j < |SplitToGroups(bits)|
    ensures 11 * j < |bits|
    ensures SplitToGroups(bits)[j] == ValueOf(Group(bits, j))
    decreases |bits|
  {
    assert bits != [];
    SplitFirst(bits);
    hide ValueOf, SplitToGroups, Group;
    if j > 0 {
      GroupAt(bits[11..], j - 1);
      GroupShift(bits, j);
    }
  }

  /** Group j of the first 121 digits of a number, and the last group of the remaining seven and the checksum. */
  lemma GroupsOf(v: nat, sum: Bits, bits: Bits, groups: seq<nat>)
    requires |sum| == 4 && bits == BitsOf(v, 128) + sum && groups == SplitToGroups(bits) && |groups| == 12
    ensures forall j | 0 <= j < 11 :: groups[j] == v / Power2(117 - 11 * j) % Power2(11)
    ensures groups[11] == v % Power2(7) * Power2(4) + ValueOf(sum)
  {
    hide BitsOf, ValueOf, Power2, SplitToGroups;
    forall j | 0 <= j < 11
      ensures groups[j] == v / Power2(117 - 11 * j) % Power2(11)
    {
      GroupAt(bits, j);
      assert bits[11 * j..11 * j + 11] == BitsOf(v, 128)[11 * j..11 * j + 11];
      ValueOfSlice(v, 128, 11 * j, 11);
    }
    GroupAt(bits, 11);
    assert bits[121..132] == BitsOf(v, 128)[121..121 + 7] + sum;
    ValueOfConcat(BitsOf(v, 128)[121..121 + 7], sum);
    ValueOfSlice(v, 128, 121, 7);
    SmallPowers();
  }

  /** The words of the text are those of the groups. */
  lemma WordsOfText(words: seq<string>, checksum: nat -> Bits, v: nat)
    requires WordList(words)
    ensures var groups := SplitToGroups(Binary(v) + checksum(v));
            |words| == 2048 && (forall i | 0 <= i < |groups| :: groups[i] < 2048)
            && ReadWords(TransformToSeed(words, checksum, v)) == WordsOf(words, groups)
  {
    hide Binary, SplitToGroups, ReadWords;
    GroupCount(Binary(v) + checksum(v));
    var ws := WordsOf(words, SplitToGroups(Binary(v) + checksum(v)));
    assert forall w | w in ws :: IsWord(w);
    ReadSpaced(ws);
  }

  /**
   * The twelve words of a number below 2^128: eleven for its upper 121 bits, eleven bits each from the highest
   * down, and the last for its lowest seven bits followed by the checksum.
   */
  lemma MnemonicWords(words: seq<string>, checksum: nat -> Bits, v: nat)
    requires WordList(words) && v < Power2(128) && |checksum(v)| == 4
    ensures var ws, last := ReadWords(TransformToSeed(words, checksum, v)), v % 128 * 16 + ValueOf(checksum(v));
            && |words| == 2048 && |ws| == 12
            && (forall j | 0 <= j < 11 :: ws[j] == words[v / Power2(117 - 11 * j) % 2048])
            && last < 2048 && ws[11] == words[last]
  {
    hide WordList, Binary, BitsOf, ValueOf, Power2, SplitToGroups, ReadWords, TransformToSeed;
    var bits := Binary(v) + checksum(v);
    BinaryIs(v);
    GroupCount(bits);
    WordsOfText(words, checksum, v);
    GroupsOf(v, checksum(v), bits, SplitToGroups(bits));
    SmallPowers();
  }

  lemma SmallPowers()
    ensures Power2(0) == 1 && Power2(4) == 16 && Power2(7) == 128 && Power2(11) == 2048 && Power2(12) == 4096
  {
    assert Power2(6) == 64;
  }

  /** Any text, word by word: eleven digits each, of its position, or those of 0 for a word that is not listed. */
  lemma {:induction false} SeedBitsAt(words: seq<string>, ws: seq<string>, t: nat)
    requires |words| == 2048 && t < |ws|
    ensures |SeedBits(words, ws)| == 11 * |ws|
    ensures SeedBits(words, ws)[11 * t..11 * t + 11] == BitsOf(if ws[t] in words then IndexOf(words, ws[t]) else 0, 11)
  {
    hide Binary, BitsOf, IndexOf;
    LowEleven(0);
    PositionBits(IndexOf(words, ws[0]));
    var rest := SeedBits(words, ws[1..]);
    if t > 0 {
      SeedBitsAt(words, ws[1..], t - 1);
      assert SeedBits(words, ws)[11 * t..11 * t + 11] == rest[11 * t - 11..11 * t];
    } else if |ws| > 1 {
      SeedBitsAt(words, ws[1..], 0);
    } else {
      assert rest == [];
    }
  }

  lemma PositionBits(index: nat)
    requires index <= 2048
    ensures Binary(index)[|Binary(index)| - 11..] == BitsOf(if index < 2048 then index else 0, 11)
  {
    hide Power2, BitsOf, Binary;
    if index < 2048 {
      LowEleven(index);
    } else {
      SmallPowers();
      PowerMonotone(12, 128);
      BinaryIs(index);
      BitsSuffix(index, 128, 11);
    }
  }

  /** Reading fails exactly on fewer than twelve words. */
  lemma TooShortIff(words: seq<string>, seed: string)
    requires |words| == 2048
    ensures ReverseSeed(words, seed) == Err(TooShort) <==> |ReadWords(seed)| < 12
  {
    var ws := ReadWords(seed);
    if ws != [] {
      SeedBitsAt(words, ws, 0);
    }
  }

  /**
   * The round trip. A number below 2^128, with one checksum bit for each 32 bits, becomes twelve words that give
   * its hexadecimal form back; a larger number never comes back, because only 128 bits are read.
   */
  lemma SeedRoundTripIff(words: seq<string>, checksum: nat -> Bits, v: nat)
    requires WordList(words) && (v < Power2(128) ==> |checksum(v)| == |Binary(v)| / 32)
    ensures v < Power2(128) ==> |SplitToGroups(Binary(v) + checksum(v))| == 12
    ensures ReverseSeed(words, TransformToSeed(words, checksum, v)) == Ok(HexDigits(v)) <==> v < Power2(128)
  {
    hide WordList, ReverseSeed, TransformToSeed, HexDigits, Binary, SplitToGroups, Ungroup, ValueOf, BitsOf, Power2;
    var bits := Binary(v) + checksum(v);
    ReverseOfTransform(words, checksum, v);
    var read := Ungroup(SplitToGroups(bits))[..128];
    GroupCount(bits);
    BinaryIs(v);
    if v < Power2(128) {
      UngroupInverts(bits);
      assert read == BitsOf(v, 128);
      ValueOfBits(v, 128);
    } else {
      ValueBound(read);
      HexValueInverts(ValueOf(read));
      HexValueInverts(v);
    }
  }

  // ----- the loops of the source -----

  method ComputeBinary(v: nat) returns (bits: Bits)
    ensures bits == Binary(v)
  {
    bits := [];
    var digits := HexDigits(v);
    for i := 0 to |digits|
      invariant bits == NibbleBits(digits[..i])
    {
      bits := bits + BitsOf(digits[i], 4);
      assert digits[..i + 1][..i] == digits[..i];
    }
    assert digits[..|digits|] == digits;
    return PadBinary(bits, 128);
  }

  method ComputeSplitToGroups(bits: Bits) returns (groups: seq<nat>)
    ensures groups == SplitToGroups(bits)
  {
    groups := [];
    var i := 0;
    while i < |bits|
      invariant 0 <= i && groups + SplitToGroups(if i < |bits| then bits[i..] else []) == SplitToGroups(bits)
    {
      var group := bits[i..if i + 11 <= |bits| then i + 11 else |bits|];
      assert if |bits[i..]| <= 11 then group == bits[i..] else group == bits[i..][..11];
      assert |bits[i..]| > 11 ==> bits[i..][11..] == bits[i + 11..];
      groups := groups + [ValueOf(group)];
      i := i + 11;
    }
  }

  method ComputeTransformToSeed(words: seq<string>, checksum: nat -> Bits, v: nat) returns (seed: string)
    requires |words| == 2048
    ensures seed == TransformToSeed(words, checksum, v)
  {
    GroupCount(Binary(v) + checksum(v));
    hide SplitToGroups, Binary;
    var bits := ComputeBinary(v);
    var groups := ComputeSplitToGroups(bits + checksum(v));
    var ws := WordsOf(words, groups);
    seed := "";
    for i := 0 to |groups|
      invariant seed + Spaced(ws[i..]) == Spaced(ws)
    {
      assert ws[i..][1..] == ws[i + 1..];
      seed := seed + words[groups[i]] + " ";
    }
    assert ws[|groups|..] == [] && seed + "" == seed;
    if seed != "" {
      seed := seed[..|seed| - 1];
    }
  }

  method BinToInt(bits: Bits) returns (num: nat)
    ensures num == ValueOf(bits)
  {
    num := 0;
    for i := 0 to |bits|
      invariant num == ValueOf(bits[..i])
    {
      num := num * 2 + bits[i];
      assert bits[..i + 1][..i] == bits[..i];
    }
    assert bits[..|bits|] == bits;
  }

  method ComputeReverseSeed(words: seq<string>, seed: string) returns (r: Result<seq<HexDigit>, SeedError>)
    ensures r == ReverseSeed(words, seed)
  {
    hide Binary, ReadWords, IndexOf, HexDigits, ValueOf;
    var ws := ReadWords(seed);
    var bits: Bits := [];
    for i := 0 to |ws|
      invariant bits + SeedBits(words, ws[i..]) == SeedBits(words, ws)
    {
      assert ws[i..][1..] == ws[i + 1..];
      var index := ComputeBinary(IndexOf(words, ws[i]));
      bits := bits + index[|index| - 11..];
    }
    assert ws[|ws|..] == [] && bits + [] == bits;
    if |bits| < 128 {
      return Err(TooShort);
    }
    var num := BinToInt(bits[..128]);
    return Ok(HexDigits(num));
  }
}
