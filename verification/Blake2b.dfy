/** The first chaining word of BLAKE2b without a key. */
module Blake2bParameters {

  const IV0: bv64 := 0x6a09e667f3bcc908

  /** The parameter word: digest length, no key, fanout and depth of one. */
  function ParameterWord(outlen: bv64): bv64 {
    (outlen & 0xFF) | (1 << 16) | (1 << 24)
  }

  /** It is the word that section 3.3 of RFC 7693 combines with the first initial value. */
  lemma ParameterWordIsStandard(outlen: bv64)
    requires outlen <= 64
    ensures IV0 ^ ParameterWord(outlen) == IV0 ^ 0x0101_0000 ^ outlen
  {
  }
}

/**
 * The buffered streaming of BLAKE2b without a key: what the calls of the compression function depend on, and
 * when they are those of section 3.3 of RFC 7693. The compression of one block is a parameter.
 */
module Blake2bStreaming {
  import Arithmetic
  import opened BitStrings
  import opened Blake2bParameters
  import opened MachineWords
  import opened Sequences

  const BLOCK_SIZE: nat := 128

  type State = h: seq<nat> | |h| == 8 witness [0, 0, 0, 0, 0, 0, 0, 0]

  /** One use of the compression function: a block, the byte counter and the finalisation flag. */
  datatype Call = Call(block: seq<Byte>, counter: nat, last: bool)

  type Compression = (State, Call) -> State

  function Fold(compress: Compression, h: State, calls: seq<Call>): State {
    if calls == [] then h
    else compress(Fold(compress, h, calls[..|calls| - 1]), calls[|calls| - 1])
  }

  // ----- the streaming state -----

  datatype Stream = Stream(state: State, total: nat, buffer: seq<Byte>)

  /** The copy loop: fill the buffer, and compress it as soon as it is full. */
  function Update(compress: Compression, s: Stream, data: seq<Byte>): (r: Stream)
    requires |s.buffer| < BLOCK_SIZE
    ensures |r.buffer| < BLOCK_SIZE
    decreases |data|
  {
    if data == [] then s
    else
      var space := BLOCK_SIZE - |s.buffer|;
      var n := if |data| < space then |data| else space;
      Update(compress, Copy(compress, s, data[..n]), data[n..])
  }

  function Copy(compress: Compression, s: Stream, part: seq<Byte>): (r: Stream)
    requires |s.buffer| + |part| <= BLOCK_SIZE
    ensures |r.buffer| < BLOCK_SIZE
  {
    var buffer := s.buffer + part;
    if |buffer| == BLOCK_SIZE then
      var total := (s.total + BLOCK_SIZE) % UINT64;
      Stream(compress(s.state, Call(buffer, total, false)), total, [])
    else s.(buffer := buffer)
  }

  /** The first n blocks of the data, each with the bytes counted up to its end. */
  function FullCalls(data: seq<Byte>, n: nat): (calls: seq<Call>)
    requires BLOCK_SIZE * n <= |data|
    ensures |calls| == n
  {
    if n == 0 then []
    else FullCalls(data, n - 1) + [Call(data[BLOCK_SIZE * (n - 1)..BLOCK_SIZE * n], (BLOCK_SIZE * n) % UINT64, false)]
  }

  /** The streaming state as a function of all the data so far. */
  function Absorbed(compress: Compression, h: State, data: seq<Byte>): (s: Stream)
    ensures |s.buffer| == |data| % BLOCK_SIZE
  {
    var n := |data| / BLOCK_SIZE;
    Stream(Fold(compress, h, FullCalls(data, n)), (BLOCK_SIZE * n) % UINT64, data[BLOCK_SIZE * n..])
  }

  lemma {:induction false} FullCallsPrefix(data: seq<Byte>, more: seq<Byte>, n: nat)
    requires BLOCK_SIZE * n <= |data|
    ensures FullCalls(data + more, n) == FullCalls(data, n)
  {
    if n > 0 {
      FullCallsPrefix(data, more, n - 1);
      assert (data + more)[BLOCK_SIZE * (n - 1)..BLOCK_SIZE * n] == data[BLOCK_SIZE * (n - 1)..BLOCK_SIZE * n];
    }
  }

  lemma FoldSnoc(compress: Compression, h: State, calls: seq<Call>, call: Call)
    ensures Fold(compress, h, calls + [call]) == compress(Fold(compress, h, calls), call)
  {
    assert (calls + [call])[..|calls|] == calls;
  }

  lemma CounterStep(n: nat)
    ensures ((BLOCK_SIZE * n) % UINT64 + BLOCK_SIZE) % UINT64 == (BLOCK_SIZE * (n + 1)) % UINT64
  {
    Arithmetic.ReduceSummand(BLOCK_SIZE * n, BLOCK_SIZE, UINT64);
  }

  /** A copy that leaves the buffer short of a block adds no call. */
  lemma CopyShort(compress: Compression, h: State, data: seq<Byte>, part: seq<Byte>)
    requires |data| % BLOCK_SIZE + |part| < BLOCK_SIZE
    ensures Copy(compress, Absorbed(compress, h, data), part) == Absorbed(compress, h, data + part)
  {
    hide Fold, FullCalls;
    var n := |data| / BLOCK_SIZE;
    assert |data + part| / BLOCK_SIZE == n;
    assert (data + part)[BLOCK_SIZE * n..] == data[BLOCK_SIZE * n..] + part;
    FullCallsPrefix(data, part, n);
  }

  lemma FullCallsNext(data: seq<Byte>, n: nat)
    requires BLOCK_SIZE * (n + 1) == |data|
    ensures FullCalls(data, n + 1) == FullCalls(data, n) + [Call(data[BLOCK_SIZE * n..], (BLOCK_SIZE * (n + 1)) % UINT64, false)]
  {
    assert data[BLOCK_SIZE * n..BLOCK_SIZE * (n + 1)] == data[BLOCK_SIZE * n..];
  }

  lemma BlockCompleted(length: nat, more: nat)
    requires length % BLOCK_SIZE + more == BLOCK_SIZE
    ensures length + more == BLOCK_SIZE * (length / BLOCK_SIZE + 1)
    ensures (length + more) / BLOCK_SIZE == length / BLOCK_SIZE + 1
  {
  }

  /** A copy that fills the buffer adds the call of one full block. */
  lemma CopyFull(compress: Compression, h: State, data: seq<Byte>, part: seq<Byte>)
    requires |data| % BLOCK_SIZE + |part| == BLOCK_SIZE
    ensures Copy(compress, Absorbed(compress, h, data), part) == Absorbed(compress, h, data + part)
  {
    hide Fold, FullCalls;
    var n := |data| / BLOCK_SIZE;
    var all := data + part;
    BlockCompleted(|data|, |part|);
    assert all[BLOCK_SIZE * n..] == data[BLOCK_SIZE * n..] + part;
    assert all[BLOCK_SIZE * (n + 1)..] == [];
    FullCallsPrefix(data, part, n);
    FullCallsNext(all, n);
    CounterStep(n);
    FoldSnoc(compress, h, FullCalls(data, n), Call(all[BLOCK_SIZE * n..], (BLOCK_SIZE * (n + 1)) % UINT64, false));
  }

  lemma {:induction false} UpdateAbsorbed(compress: Compression, h: State, data: seq<Byte>, more: seq<Byte>)
    ensures Update(compress, Absorbed(compress, h, data), more) == Absorbed(compress, h, data + more)
    decreases |more|
  {
    hide Absorbed, Copy;
    if more == [] {
      assert data + more == data;
    } else {
      var space := BLOCK_SIZE - |data| % BLOCK_SIZE;
      var n := if |more| < space then |more| else space;
      if n < space {
        CopyShort(compress, h, data, more[..n]);
      } else {
        CopyFull(compress, h, data, more[..n]);
      }
      UpdateAbsorbed(compress, h, data + more[..n], more[n..]);
      assert data + more[..n] + more[n..] == data + more;
    }
  }

  // ----- sequences of updates -----

  function UpdateAll(compress: Compression, s: Stream, chunks: seq<seq<Byte>>): Stream
    requires |s.buffer| < BLOCK_SIZE
    decreases chunks
  {
    if chunks == [] then s else UpdateAll(compress, Update(compress, s, chunks[0]), chunks[1..])
  }

  /** After any updates, the state, the counter and the buffer depend only on the concatenated input. */
  lemma {:induction false} SplitsDoNotMatter(compress: Compression, h: State, data: seq<Byte>, chunks: seq<seq<Byte>>)
    ensures UpdateAll(compress, Absorbed(compress, h, data), chunks) == Absorbed(compress, h, data + Concat(chunks))
    decreases chunks
  {
    hide Absorbed, Update;
    if chunks == [] {
      assert data + [] == data;
    } else {
      UpdateAbsorbed(compress, h, data, chunks[0]);
      SplitsDoNotMatter(compress, h, data + chunks[0], chunks[1..]);
      assert data + chunks[0] + Concat(chunks[1..]) == data + Concat(chunks);
    }
  }

  // ----- the calls of a whole hash -----

  /** What this implementation compresses: every full block eagerly, then the rest, possibly empty, as the last. */
  function CodeCalls(data: seq<Byte>): seq<Call> {
    var n := |data| / BLOCK_SIZE;
    var rest := data[BLOCK_SIZE * n..];
    FullCalls(data, n) + [Call(rest + Repeat(0, BLOCK_SIZE - |rest|), |data| % UINT64, true)]
  }

  /** What the standard compresses: at least one block, the last one padded with zeros and flagged. */
  function StandardCalls(data: seq<Byte>): seq<Call> {
    var dd := if data == [] then 1 else (|data| + BLOCK_SIZE - 1) / BLOCK_SIZE;
    seq(dd, i requires 0 <= i < dd =>
      if i < dd - 1 then Call(data[BLOCK_SIZE * i..BLOCK_SIZE * (i + 1)], BLOCK_SIZE * (i + 1), false)
      else Call(data[BLOCK_SIZE * i..] + Repeat(0, BLOCK_SIZE - |data[BLOCK_SIZE * i..]|), |data|, true))
  }

  lemma {:induction false} FullCallAt(data: seq<Byte>, n: nat, i: nat)
    requires BLOCK_SIZE * n <= |data| && i < n && |data| < UINT64
    ensures FullCalls(data, n)[i] == Call(data[BLOCK_SIZE * i..BLOCK_SIZE * (i + 1)], BLOCK_SIZE * (i + 1), false)
  {
    if i < n - 1 {
      FullCallAt(data, n - 1, i);
    }
  }

  lemma BlockCount(length: nat)
    ensures (length + BLOCK_SIZE - 1) / BLOCK_SIZE == length / BLOCK_SIZE + if length % BLOCK_SIZE == 0 then 0 else 1
  {
    var q, r := length / BLOCK_SIZE, length % BLOCK_SIZE;
    Arithmetic.DivisionUnique(length + BLOCK_SIZE - 1, BLOCK_SIZE, if r == 0 then q else q + 1,
                              if r == 0 then BLOCK_SIZE - 1 else r - 1);
  }

  /** Both make the same call of block i when the standard's last block is number n. */
  lemma SameCall(data: seq<Byte>, i: nat)
    requires |data| < UINT64 && |StandardCalls(data)| == |data| / BLOCK_SIZE + 1 && i <= |data| / BLOCK_SIZE
    ensures CodeCalls(data)[i] == StandardCalls(data)[i]
  {
    var n := |data| / BLOCK_SIZE;
    if i < n {
      FullCallAt(data, n, i);
    } else {
      FitsWord(|data|);
    }
    hide FullCalls;
  }

  /** The two agree exactly on the empty message and on lengths that are not a multiple of 128. */
  lemma StandardIff(data: seq<Byte>)
    requires |data| < UINT64
    ensures CodeCalls(data) == StandardCalls(data) <==> |data| == 0 || |data| % BLOCK_SIZE != 0
  {
    var n := |data| / BLOCK_SIZE;
    BlockCount(|data|);
    assert |CodeCalls(data)| == n + 1;
    assert |StandardCalls(data)| == if |data| == 0 || |data| % BLOCK_SIZE != 0 then n + 1 else n;
    hide CodeCalls, StandardCalls;
    if |data| == 0 || |data| % BLOCK_SIZE != 0 {
      forall i | 0 <= i < n + 1
        ensures CodeCalls(data)[i] == StandardCalls(data)[i]
      {
        SameCall(data, i);
      }
    }
  }

  // ----- the class -----

  function LittleEndian(word: nat, n: nat): (bytes: seq<Byte>)
    ensures |bytes| == n
  {
    if n == 0 then [] else [word % 256] + LittleEndian(word / 256, n - 1)
  }

  function Serialize(state: seq<nat>): (bytes: seq<Byte>)
    ensures |bytes| == 8 * |state|
  {
    if state == [] then [] else Serialize(state[..|state| - 1]) + LittleEndian(state[|state| - 1], 8)
  }

  /** Byte i of a word, the lowest first. */
  lemma {:induction false} LittleEndianAt(word: nat, n: nat, i: nat)
    requires i < n
    ensures LittleEndian(word, n)[i] == word / Power2(8 * i) % 256
  {
    if i > 0 {
      LittleEndianAt(word / 256, n - 1, i - 1);
      PowerSum(8, 8 * (i - 1));
      assert Power2(8) == 256;
      DivideTwice(word, 256, Power2(8 * (i - 1)));
    }
  }

  /** Byte j of the output belongs to word j / 8. */
  lemma {:induction false} SerializeAt(state: seq<nat>, j: nat)
    requires j < 8 * |state|
    ensures Serialize(state)[j] == state[j / 8] / Power2(8 * (j % 8)) % 256
  {
    var n := |state| - 1;
    if j < 8 * n {
      SerializeAt(state[..n], j);
    } else {
      LittleEndianAt(state[n], 8, j - 8 * n);
    }
  }

  lemma {:induction false} SerializePrefix(state: seq<nat>, k: nat)
    requires k <= |state|
    ensures Serialize(state)[..8 * k] == Serialize(state[..k])
  {
    if k < |state| {
      SerializePrefix(state[..|state| - 1], k);
      assert state[..|state| - 1][..k] == state[..k];
    } else {
      assert state[..k] == state;
    }
  }

  lemma UpdateUnfold(compress: Compression, s: Stream, data: seq<Byte>, n: nat)
    requires |s.buffer| < BLOCK_SIZE && |data| > 0
    requires n == if |data| < BLOCK_SIZE - |s.buffer| then |data| else BLOCK_SIZE - |s.buffer|
    ensures Update(compress, s, data) == Update(compress, Copy(compress, s, data[..n]), data[n..])
  {
    hide Copy;
  }

  /** One round of the copy loop. */
  lemma UpdateStep(compress: Compression, s: Stream, data: seq<Byte>, offset: nat, n: nat)
    requires |s.buffer| < BLOCK_SIZE && offset < |data|
    requires n == if |data| - offset < BLOCK_SIZE - |s.buffer| then |data| - offset else BLOCK_SIZE - |s.buffer|
    ensures Update(compress, s, data[offset..])
         == Update(compress, Copy(compress, s, data[offset..offset + n]), data[offset + n..])
  {
    hide Update, Copy;
    UpdateUnfold(compress, s, data[offset..], n);
    assert data[offset..][..n] == data[offset..offset + n];
    assert data[offset..][n..] == data[offset + n..];
  }

  lemma NothingToCopy(compress: Compression, s: Stream, data: seq<Byte>)
    requires |s.buffer| < BLOCK_SIZE && |data| == 0
    ensures Update(compress, s, data) == s
  {
  }

  /** The initial values, the first of them combined with the parameter word. */
  function InitialState(outlen: nat): State
    requires outlen <= 64
  {
    [(IV0 ^ ParameterWord(outlen as bv64)) as nat, 0xbb67ae8584caa73b, 0x3c6ef372fe94f82b, 0xa54ff53a5f1d36f1,
     0x510e527fade682d1, 0x9b05688c2b3e6c1f, 0x1f83d9abfb41bd6b, 0x5be0cd19137e2179]
  }

  /** The floor of the square root of p, scaled by 2^64: a whole part and a fraction. */
  predicate RootFraction(p: nat, whole: nat, fraction: nat) {
    && fraction < UINT64
    && (whole * UINT64 + fraction) * (whole * UINT64 + fraction) <= p * UINT64 * UINT64
    && p * UINT64 * UINT64 < (whole * UINT64 + fraction + 1) * (whole * UINT64 + fraction + 1)
  }

  /**
   * Section 2.6 of RFC 7693: the first 64 bits of the fractional parts of the square roots of the first eight primes;
   * section 3.3: the first one combined with the parameter word.
   */
  lemma InitialStateIsStandard(outlen: nat)
    requires outlen <= 64
    ensures var h := InitialState(outlen);
            && h[0] == (IV0 ^ 0x0101_0000 ^ (outlen as bv64)) as nat && RootFraction(2, 1, IV0 as nat)
            && RootFraction(3, 1, h[1]) && RootFraction(5, 2, h[2]) && RootFraction(7, 2, h[3])
            && RootFraction(11, 3, h[4]) && RootFraction(13, 3, h[5]) && RootFraction(17, 4, h[6]) && RootFraction(19, 4, h[7])
  {
    ParameterWordIsStandard(outlen as bv64);
  }

  class Blake2b {
    const compress: Compression
    const outlen: nat
    var state: State
    var totalBytes: nat
    var buffer: seq<Byte>

    constructor (compress: Compression, outlen: nat)
      requires outlen <= 64
      ensures Current() == Absorbed(compress, InitialState(outlen), [])
      ensures this.compress == compress && this.outlen == outlen
    {
      this.compress, this.outlen := compress, outlen;
      state, totalBytes, buffer := InitialState(outlen), 0, [];
    }

    function Current(): Stream
      reads this
    {
      Stream(state, totalBytes, buffer)
    }

    method UpdateWith(data: seq<Byte>)
      requires |buffer| < BLOCK_SIZE
      modifies this
      ensures Current() == Update(compress, old(Current()), data)
    {
      hide Update;
      var offset := 0;
      assert data[0..] == data;
      while offset < |data|
        invariant 0 <= offset <= |data| && |buffer| < BLOCK_SIZE
        invariant Update(compress, Current(), data[offset..]) == Update(compress, old(Current()), data)
      {
        var space := BLOCK_SIZE - |buffer|;
        var toCopy := if |data| - offset < space then |data| - offset else space;
        UpdateStep(compress, Current(), data, offset, toCopy);
        buffer := buffer + data[offset..offset + toCopy];
        offset := offset + toCopy;
        if |buffer| == BLOCK_SIZE {
          totalBytes := (totalBytes + BLOCK_SIZE) % UINT64;
          state := compress(state, Call(buffer, totalBytes, false));
          buffer := [];
        }
      }
      NothingToCopy(compress, Current(), data[offset..]);
    }

    /** Compresses what is left, padded with zeros, as the last block, and writes the first outlen bytes. */
    method Final() returns (hash: seq<Byte>)
      requires |buffer| < BLOCK_SIZE && outlen <= 64
      modifies this
      ensures state == compress(old(state), Call(old(buffer) + Repeat(0, BLOCK_SIZE - |old(buffer)|),
                                                 (old(totalBytes) + |old(buffer)|) % UINT64, true))
      ensures hash == Serialize(state)[..outlen]
    {
      totalBytes := (totalBytes + |buffer|) % UINT64;
      if |buffer| != 0 {
        buffer := buffer + Repeat(0, BLOCK_SIZE - |buffer|);
        state := compress(state, Call(buffer, totalBytes, true));
      } else {
        var empty := Repeat(0, BLOCK_SIZE);
        assert buffer + empty == empty;
        state := compress(state, Call(empty, totalBytes, true));
      }
      hash := WriteWords(state, outlen);
    }
  }

  /** The output loop: whole words first, then the bytes that remain. */
  method WriteWords(state: State, outlen: nat) returns (hash: seq<Byte>)
    requires outlen <= 64
    ensures hash == Serialize(state)[..outlen]
  {
    hide LittleEndian;
    hash := [];
    var fullWords, remaining := outlen / 8, outlen % 8;
    for i := 0 to fullWords
      invariant hash == Serialize(state[..i])
    {
      hash := hash + LittleEndian(state[i], 8);
      assert state[..i + 1][..i] == state[..i];
    }
    SerializePrefix(state, fullWords);
    if remaining > 0 {
      SerializePrefix(state, fullWords + 1);
      assert state[..fullWords + 1][..fullWords] == state[..fullWords];
      var temp := LittleEndian(state[fullWords], 8);
      hash := hash + temp[..remaining];
      assert Serialize(state)[..8 * (fullWords + 1)][..outlen] == Serialize(state)[..outlen];
    }
  }

  /** The one-shot hash: the fold of the calls above, cut to the length asked for. */
  method Hash(compress: Compression, data: seq<Byte>, outlen: nat) returns (hash: seq<Byte>)
    requires outlen <= 64
    ensures hash == Serialize(Fold(compress, InitialState(outlen), CodeCalls(data)))[..outlen]
  {
    hash := HashChunks(compress, [data], outlen);
    assert Concat([data]) == data by { assert [data][1..] == []; assert data + [] == data; }
  }

  /** However the data is cut into updates, the digest is that of the whole. */
  method HashChunks(compress: Compression, chunks: seq<seq<Byte>>, outlen: nat)
      returns (hash: seq<Byte>)
    requires outlen <= 64
    ensures hash == Serialize(Fold(compress, InitialState(outlen), CodeCalls(Concat(chunks))))[..outlen]
  {
    hide Update, Absorbed, InitialState, CodeCalls, Fold, Serialize, Concat;
    var blake := new Blake2b(compress, outlen);
    for i := 0 to |chunks|
      invariant |blake.buffer| < BLOCK_SIZE && blake.compress == compress && blake.outlen == outlen
      invariant UpdateAll(compress, blake.Current(), chunks[i..])
             == UpdateAll(compress, Absorbed(compress, InitialState(outlen), []), chunks)
    {
      assert chunks[i..][1..] == chunks[i + 1..];
      blake.UpdateWith(chunks[i]);
    }
    SplitsDoNotMatter(compress, InitialState(outlen), [], chunks);
    assert [] + Concat(chunks) == Concat(chunks);
    FinalCall(compress, InitialState(outlen), Concat(chunks));
    hash := blake.Final();
  }

  lemma FinalCall(compress: Compression, h: State, data: seq<Byte>)
    ensures var s := Absorbed(compress, h, data);
            var call := Call(s.buffer + Repeat(0, BLOCK_SIZE - |s.buffer|), (s.total + |s.buffer|) % UINT64, true);
            compress(s.state, call) == Fold(compress, h, CodeCalls(data))
  {
    var n := |data| / BLOCK_SIZE;
    var rest := data[BLOCK_SIZE * n..];
    Arithmetic.ReduceSummand(BLOCK_SIZE * n, |rest|, UINT64);
    FoldSnoc(compress, h, FullCalls(data, n), Call(rest + Repeat(0, BLOCK_SIZE - |rest|), |data| % UINT64, true));
  }
}
