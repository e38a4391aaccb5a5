/**
 * The order in which Argon2 fills its memory: which block each step writes, which two it reads, and which of
 * those were filled before. The mixing of two blocks is a parameter.
 */
module Argon2Schedule {
  import Arithmetic
  import opened MachineWords
  import opened Sequences

  datatype Variant = Argon2d | Argon2i | Argon2id

  type MemoryBlock = v: seq<nat> | |v| == 128 witness seq(128, _ => 0)

  const ZERO_BLOCK: MemoryBlock := Repeat(0, 128)

  // ----- sizes -----

  function RaiseMemory(memoryCost: nat, lanes: nat): nat {
    if memoryCost < 8 * lanes then 8 * lanes else memoryCost
  }

  /** The memory size is raised to eight blocks a lane and rounded up to a multiple of four blocks a lane. */
  function RoundMemory(memoryCost: nat, lanes: nat): nat
    requires lanes >= 1
  {
    var blocks := RaiseMemory(memoryCost, lanes);
    var multiple := 4 * lanes;
    if blocks % multiple != 0 then (blocks + multiple - 1) / multiple * multiple else blocks
  }

  /** The layout every index computation relies on. */
  ghost predicate Layout(lanes: nat, segmentLength: nat, laneLength: nat, memoryCost: nat) {
    && lanes >= 1 && segmentLength >= 2
    && laneLength == 4 * segmentLength
    && memoryCost == lanes * laneLength
  }

  /** Rounding yields a lawful size that is large enough and not four blocks a lane too large; dividing it gives the layout. */
  lemma RoundingGivesLayout(memoryCost: nat, lanes: nat)
    requires lanes >= 1
    ensures var m := RoundMemory(memoryCost, lanes);
            && Layout(lanes, m / lanes / 4, m / lanes, m)
            && m >= memoryCost && (if memoryCost < 8 * lanes then m == 8 * lanes else m < memoryCost + 4 * lanes)
  {
    hide Layout;
    var blocks := RaiseMemory(memoryCost, lanes);
    var multiple := 4 * lanes;
    RoundUp(blocks, multiple);
    Arithmetic.DivisionUnique(8 * lanes, multiple, 2, 0);
    var m := RoundMemory(memoryCost, lanes);
    var k := if blocks % multiple != 0 then (blocks + multiple - 1) / multiple else blocks / multiple;
    LayoutOf(k, lanes, m);
  }

  lemma LayoutOf(k: nat, lanes: nat, m: nat)
    requires lanes >= 1 && m == k * (4 * lanes) && m >= 8 * lanes
    ensures Layout(lanes, m / lanes / 4, m / lanes, m)
  {
    assert m == (4 * k) * lanes;
    Arithmetic.DivisionUnique(m, lanes, 4 * k, 0);
    Arithmetic.DivisionUnique(4 * k, 4, k, 0);
    if k < 2 {
      Arithmetic.MulMonotone(k, 1, 4 * lanes);
    }
  }

  lemma RoundUp(blocks: nat, multiple: nat)
    requires multiple > 0
    ensures blocks % multiple == 0 ==> blocks / multiple * multiple == blocks
    ensures blocks <= (blocks + multiple - 1) / multiple * multiple < blocks + multiple
  {
    var q, r := (blocks + multiple - 1) / multiple, (blocks + multiple - 1) % multiple;
    assert blocks + multiple - 1 == q * multiple + r;
  }

  // ----- the reference block -----

  /** The number of blocks a step may refer to; never zero and never more than a lane. */
  function ReferenceArea(pass: nat, segment: nat, segmentLength: nat, laneLength: nat, position: nat): (area: nat)
    requires position < segmentLength <= laneLength
    ensures 1 <= area <= laneLength
  {
    var size :=
      if pass == 0 then (if segment == 0 then position else segment * segmentLength + position)
      else laneLength - segmentLength + position;
    var bounded := if size < laneLength then size else laneLength;
    if bounded == 0 then 1 else bounded
  }

  function ReferenceLane(variant: Variant, lanes: nat, pseudoRandom: nat, pass: nat, lane: nat): (refLane: nat)
    requires lanes >= 1 && lane < lanes
    ensures refLane < lanes
  {
    if pass == 0 && variant != Argon2d then lane else (pseudoRandom / UINT32) % UINT32 % lanes
  }

  lemma ScaledBelow(relative: nat, area: nat)
    requires relative < UINT32 && area >= 1
    ensures (relative * area) / UINT32 < area
  {
    Arithmetic.MulMonotone(relative, UINT32 - 1, area);
  }

  function ReferenceIndex(pseudoRandom: nat, pass: nat, segment: nat, area: nat): (refIndex: nat)
    requires area >= 1
    ensures refIndex < area || (refIndex == 1 && pass == 0 && segment == 0)
    ensures pass == 0 && segment == 0 ==> refIndex >= 1
  {
    var relative := pseudoRandom % UINT32;
    ScaledBelow(relative, area);
    var refIndex := area - 1 - (relative * area) / UINT32;
    if pass == 0 && segment == 0 && refIndex == 0 then 1 else refIndex
  }

  // ----- what the reference is -----

  ghost function Range(first: nat, end: nat): (r: set<nat>)
    ensures forall x :: x in r <==> first <= x < end
    ensures |r| == if first < end then end - first else 0
  {
    if first < end then Range(first, end - 1) + {end - 1} else {}
  }

  /**
   * The blocks of its own lane that hold a value of this pass or, after the first pass, of the one before when a
   * step is about to run, without those that the rest of the segment will replace.
   */
  ghost function Held(pass: nat, segment: nat, segmentLength: nat, position: nat): set<nat> {
    if pass == 0 then Range(0, segment * segmentLength + position)
    else Range(0, 4 * segmentLength) - Range(segment * segmentLength + position, segment * segmentLength + segmentLength)
  }

  lemma RangeWithout(n: nat, from: nat, end: nat)
    requires from <= end <= n
    ensures |Range(0, n) - Range(from, end)| == n - (end - from)
  {
    assert Range(from, end) <= Range(0, n);
  }

  /** The area is their number, or 1 where there is none. */
  lemma ReferenceAreaCounts(pass: nat, segment: nat, segmentLength: nat, position: nat)
    requires position < segmentLength && segment < 4
    ensures ReferenceArea(pass, segment, segmentLength, 4 * segmentLength, position)
         == if |Held(pass, segment, segmentLength, position)| == 0 then 1 else |Held(pass, segment, segmentLength, position)|
  {
    SegmentEnd(segmentLength, segment, position);
    Arithmetic.MulMonotone(0, segment, segmentLength);
    Arithmetic.MulMonotone(if segment == 0 then 0 else 1, segment, segmentLength);
    RangeWithout(4 * segmentLength, segment * segmentLength + position, segment * segmentLength + segmentLength);
    hide Range;
  }

  /**
   * The low half of the random word, as a fraction of 2^32, divides the area into equal parts, counted from its
   * end; in the first segment the index 0 gives way to 1.
   */
  lemma ReferenceIndexIff(high: nat, low: nat, pass: nat, segment: nat, area: nat, k: nat)
    requires low < UINT32 && k < area && (pass > 0 || segment > 0)
    ensures ReferenceIndex(high * UINT32 + low, pass, segment, area) == k <==>
              (area - 1 - k) * UINT32 <= low * area < (area - k) * UINT32
    ensures ReferenceIndex(high * UINT32 + low, 0, 0, area) ==
              if ReferenceIndex(high * UINT32 + low, pass, segment, area) == 0 then 1
              else ReferenceIndex(high * UINT32 + low, pass, segment, area)
  {
    Arithmetic.DivisionUnique(high * UINT32 + low, UINT32, high, low);
    var q, r := (low * area) / UINT32, (low * area) % UINT32;
    assert low * area == q * UINT32 + r;
  }

  /** So every block of an area is the reference of some random word. */
  lemma ReferenceReached(pass: nat, segment: nat, area: nat, k: nat) returns (low: nat)
    requires k < area <= UINT32 && (pass > 0 || segment > 0)
    ensures low < UINT32 && ReferenceIndex(low, pass, segment, area) == k
  {
    var parts := area - 1 - k;
    low := (parts * UINT32 + area - 1) / area;
    var r := (parts * UINT32 + area - 1) % area;
    assert parts * UINT32 + area - 1 == low * area + r;
    assert (area - k) * UINT32 == parts * UINT32 + UINT32;
    if low >= UINT32 {
      Arithmetic.MulMonotone(UINT32, low, area);
      Arithmetic.MulMonotone(area - k, area, UINT32);
      assert false;
    }
    ReferenceIndexIff(0, low, pass, segment, area, k);
  }

  /** The high half of the random word picks the lane, except where the own lane is prescribed. */
  lemma ReferenceLaneOf(variant: Variant, lanes: nat, high: nat, low: nat, pass: nat, lane: nat)
    requires lanes >= 1 && lane < lanes && high < UINT32 && low < UINT32
    ensures ReferenceLane(variant, lanes, high * UINT32 + low, pass, lane)
         == if pass == 0 && variant in [Argon2i, Argon2id] then lane else high % lanes
  {
    Arithmetic.DivisionUnique(high * UINT32 + low, UINT32, high, low);
    Arithmetic.DivisionUnique(high, UINT32, 0, high);
  }

  // ----- what is filled when -----

  /** Block (l, x) is filled in a pass when step i of a segment is about to run in a lane; two are from the start. */
  ghost predicate FilledBefore(segmentLength: nat, pass: nat, segment: nat, lane: nat, i: nat, l: nat, x: nat) {
    || (pass == 0 && x < 2)
    || x < segment * segmentLength
    || (x < (segment + 1) * segmentLength && (l < lane || (l == lane && x < segment * segmentLength + i)))
  }

  /**
   * In the first pass of any variant the reference was filled before exactly when it is not in a later lane,
   * or lies in an earlier segment or among the two initial blocks.
   */
  lemma ReferenceFilledIff(segmentLength: nat, segment: nat, lane: nat, i: nat, pseudoRandom: nat, refLane: nat)
    requires segmentLength >= 2 && segment < 4 && i < segmentLength && (segment == 0 ==> i >= 2)
    ensures var x := ReferenceIndex(pseudoRandom, 0, segment,
                                    ReferenceArea(0, segment, segmentLength, 4 * segmentLength, i));
            FilledBefore(segmentLength, 0, segment, lane, i, refLane, x) <==>
              refLane <= lane || x < 2 || x < segment * segmentLength
  {
    assert segment * segmentLength + i < 4 * segmentLength by { SegmentEnd(segmentLength, segment, i); }
  }

  lemma SegmentEnd(segmentLength: nat, segment: nat, i: nat)
    requires segment < 4 && i < segmentLength
    ensures segment * segmentLength + i < (segment + 1) * segmentLength <= 4 * segmentLength
  {
    Arithmetic.MulMonotone(segment + 1, 4, segmentLength);
  }

  // ----- the trace -----

  /** One step: the block written, the one read before it, the random word and the reference taken from it. */
  datatype Write = Write(pass: nat, lane: nat, index: nat, previous: nat,
                         pseudoRandom: nat, refLane: nat, refIndex: nat)

  /** The position before a block, wrapping around the whole memory. */
  function Previous(lanes: nat, laneLength: nat, lane: nat, index: nat): int {
    if lane * laneLength + index == 0 then lanes * laneLength - 1 else lane * laneLength + index - 1
  }

  /** The next position after it, around the whole memory, is that of the block. */
  lemma PreviousNext(lanes: nat, laneLength: nat, lane: nat, index: nat)
    requires lane < lanes && index < laneLength
    ensures 0 <= Previous(lanes, laneLength, lane, index) < lanes * laneLength
    ensures (Previous(lanes, laneLength, lane, index) + 1) % (lanes * laneLength) == lane * laneLength + index
  {
    GlobalBound(lanes, laneLength, lane, index);
    Arithmetic.MulMonotone(0, lane, laneLength);
    var next := Previous(lanes, laneLength, lane, index) + 1;
    Arithmetic.DivisionUnique(next, lanes * laneLength, if next == lanes * laneLength then 1 else 0, lane * laneLength + index);
  }

  /**
   * The block before lies in the same lane except at the front of a lane: there, with several lanes, the last
   * block of another lane is read, where section 3.2 of RFC 9106 asks for the last one of the same lane.
   */
  lemma PreviousInOwnLaneIff(lanes: nat, laneLength: nat, lane: nat, index: nat)
    requires lane < lanes && index < laneLength
    ensures lane * laneLength <= Previous(lanes, laneLength, lane, index) < lane * laneLength + laneLength
       <==> index > 0 || lanes == 1
  {
    Arithmetic.MulMonotone(0, lane, laneLength);
    Arithmetic.MulMonotone(if lanes == 1 then 0 else 1, lanes - 1, laneLength);
    assert lanes * laneLength == (lanes - 1) * laneLength + laneLength;
  }

  /** The position whose first word the data-dependent variants take: a 32-bit computation of the one before. */
  function PreviousRead(memoryCost: nat, globalIndex: nat): (previous: nat)
    requires memoryCost > 0
    ensures previous < memoryCost
  {
    (globalIndex + UINT32 - 1 + memoryCost) % UINT32 % memoryCost
  }

  /** It is the block the step mixes in exactly when the 32-bit sum does not wrap. */
  lemma PreviousReadIff(lanes: nat, laneLength: nat, lane: nat, index: nat)
    requires lane < lanes && index < laneLength && lanes * laneLength < UINT32
    ensures var globalIndex := lane * laneLength + index;
            0 <= globalIndex < lanes * laneLength
            && (PreviousRead(lanes * laneLength, globalIndex) == Previous(lanes, laneLength, lane, index)
                <==> globalIndex == 0 || globalIndex + lanes * laneLength <= UINT32)
  {
    GlobalBound(lanes, laneLength, lane, index);
    Arithmetic.MulMonotone(0, lane, laneLength);
    PreviousReadValue(lanes * laneLength, lane * laneLength + index);
  }

  lemma PreviousReadValue(memoryCost: nat, globalIndex: nat)
    requires globalIndex < memoryCost < UINT32
    ensures PreviousRead(memoryCost, globalIndex) ==
            if globalIndex == 0 then memoryCost - 1
            else if globalIndex + memoryCost <= UINT32 then globalIndex - 1
            else globalIndex - 1 + memoryCost - UINT32
  {
    var sum := globalIndex + memoryCost - 1;
    if sum < UINT32 {
      Arithmetic.DivisionUnique(globalIndex + UINT32 - 1 + memoryCost, UINT32, 1, sum);
      if globalIndex == 0 {
        Arithmetic.DivisionUnique(sum, memoryCost, 0, sum);
      } else {
        Arithmetic.DivisionUnique(sum, memoryCost, 1, globalIndex - 1);
      }
    } else {
      Arithmetic.DivisionUnique(globalIndex + UINT32 - 1 + memoryCost, UINT32, 2, sum - UINT32);
      Arithmetic.DivisionUnique(sum - UINT32, memoryCost, 0, sum - UINT32);
    }
  }

  /** The variants and passes that take their random words from the memory itself. */
  predicate DataDependent(variant: Variant, pass: nat) {
    variant == Argon2d || (variant == Argon2id && pass != 0)
  }

  ghost function Initial(lanes: nat): set<(nat, nat)> {
    set l, x | 0 <= l < lanes && 0 <= x < 2 :: (l, x)
  }

  /** The blocks filled in one pass; the initial ones count for the first. */
  ghost function Filled(lanes: nat, trace: seq<Write>, pass: nat): set<(nat, nat)> {
    if trace == [] then (if pass == 0 then Initial(lanes) else {})
    else
      var w := trace[|trace| - 1];
      Filled(lanes, trace[..|trace| - 1], pass) + (if w.pass == pass then {(w.lane, w.index)} else {})
  }

  /** A step writes a block for the first time in its pass, after the one before it in the lane. */
  ghost predicate FirstWrite(lanes: nat, before: seq<Write>, w: Write) {
    && (w.lane, w.index) !in Filled(lanes, before, w.pass)
    && (w.index > 0 ==> (w.lane, w.index - 1) in Filled(lanes, before, w.pass))
  }

  /** The two blocks a step reads are those its place and its random word determine. */
  ghost predicate Lawful(variant: Variant, lanes: nat, segmentLength: nat, w: Write) {
    && w.lane < lanes && w.index < 4 * segmentLength
    && w.previous == Previous(lanes, 4 * segmentLength, w.lane, w.index)
    && w.refLane == ReferenceLane(variant, lanes, w.pseudoRandom, w.pass, w.lane)
    && w.refIndex == ReferenceIndex(w.pseudoRandom, w.pass, w.index / segmentLength,
                       ReferenceArea(w.pass, w.index / segmentLength, segmentLength, 4 * segmentLength,
                                     w.index % segmentLength))
  }

  /** Every step is lawful and a first write; data-independent ones of the first pass refer to filled blocks of their lane. */
  ghost predicate Sound(variant: Variant, lanes: nat, segmentLength: nat, trace: seq<Write>) {
    forall k | 0 <= k < |trace| ::
      && Lawful(variant, lanes, segmentLength, trace[k])
      && FirstWrite(lanes, trace[..k], trace[k])
      && (trace[k].pass == 0 && variant != Argon2d ==>
            trace[k].refLane == trace[k].lane && (trace[k].refLane, trace[k].refIndex) in Filled(lanes, trace[..k], 0))
  }

  ghost predicate InBounds(lanes: nat, laneLength: nat, w: Write) {
    w.lane < lanes && w.index < laneLength && w.previous < lanes * laneLength
    && w.refLane < lanes && w.refIndex < laneLength
  }

  lemma GlobalBound(lanes: nat, laneLength: nat, lane: nat, index: nat)
    requires lane < lanes && index < laneLength
    ensures lane * laneLength + index < lanes * laneLength
  {
    Arithmetic.MulMonotone(lane, lanes - 1, laneLength);
    assert lanes * laneLength == (lanes - 1) * laneLength + laneLength;
  }

  /** The memory after one step. */
  ghost function ApplyWrite(mix: (MemoryBlock, MemoryBlock) -> MemoryBlock, m: seq<MemoryBlock>,
                            lanes: nat, laneLength: nat, w: Write): (m': seq<MemoryBlock>)
    requires |m| == lanes * laneLength && InBounds(lanes, laneLength, w)
    ensures |m'| == |m|
  {
    GlobalBound(lanes, laneLength, w.lane, w.index);
    GlobalBound(lanes, laneLength, w.refLane, w.refIndex);
    m[w.lane * laneLength + w.index := mix(m[w.previous], m[w.refLane * laneLength + w.refIndex])]
  }

  /** The memory after the steps of a trace. */
  ghost function Replay(mix: (MemoryBlock, MemoryBlock) -> MemoryBlock, memory: seq<MemoryBlock>,
                        lanes: nat, laneLength: nat, trace: seq<Write>): (m: seq<MemoryBlock>)
    requires |memory| == lanes * laneLength
    requires forall w | w in trace :: InBounds(lanes, laneLength, w)
    ensures |m| == |memory|
  {
    hide InBounds, ApplyWrite;
    if trace == [] then memory
    else
      var before := Replay(mix, memory, lanes, laneLength, trace[..|trace| - 1]);
      ApplyWrite(mix, before, lanes, laneLength, trace[|trace| - 1])
  }

  /**
   * The random words of Argon2d, and of Argon2id after the first pass, are first words of blocks as the steps
   * before left them.
   */
  ghost predicate Drawn(variant: Variant, mix: (MemoryBlock, MemoryBlock) -> MemoryBlock, memory: seq<MemoryBlock>,
                        lanes: nat, laneLength: nat, trace: seq<Write>)
    requires |memory| == lanes * laneLength > 0
    requires forall w | w in trace :: InBounds(lanes, laneLength, w)
  {
    hide InBounds, Replay;
    trace != [] ==>
      var front, w := trace[..|trace| - 1], trace[|trace| - 1];
      && Drawn(variant, mix, memory, lanes, laneLength, front)
      && (variant == Argon2d || (variant == Argon2id && w.pass > 0) ==>
            var now := Replay(mix, memory, lanes, laneLength, front);
            w.pseudoRandom == now[PreviousRead(lanes * laneLength, w.lane * laneLength + w.index)][0])
  }

  lemma DrawnStep(variant: Variant, mix: (MemoryBlock, MemoryBlock) -> MemoryBlock, memory: seq<MemoryBlock>,
                  lanes: nat, laneLength: nat, trace: seq<Write>, w: Write, now: seq<MemoryBlock>)
    requires |memory| == lanes * laneLength > 0 && InBounds(lanes, laneLength, w)
    requires forall w' | w' in trace :: InBounds(lanes, laneLength, w')
    requires Drawn(variant, mix, memory, lanes, laneLength, trace)
    requires now == Replay(mix, memory, lanes, laneLength, trace)
    requires DataDependent(variant, w.pass) ==>
               w.pseudoRandom == now[PreviousRead(lanes * laneLength, w.lane * laneLength + w.index)][0]
    ensures forall w' | w' in trace + [w] :: InBounds(lanes, laneLength, w')
    ensures Drawn(variant, mix, memory, lanes, laneLength, trace + [w])
  {
    hide InBounds, Replay, PreviousRead;
    assert (trace + [w])[..|trace|] == trace;
  }

  // ----- progress -----

  /** A finished pass filled every block. */
  ghost predicate Complete(lanes: nat, segmentLength: nat, trace: seq<Write>, pass: nat) {
    forall l: nat, x: nat :: (l, x) in Filled(lanes, trace, pass) <==> l < lanes && x < 4 * segmentLength
  }

  /** The passes before are finished, and this one filled exactly what is due when step i of a segment is about to run in a lane. */
  ghost predicate Coverage(lanes: nat, segmentLength: nat, trace: seq<Write>, pass: nat, segment: nat, lane: nat, i: nat) {
    && (forall q: nat | q < pass :: Complete(lanes, segmentLength, trace, q))
    && (forall w | w in trace :: w.pass <= pass)
    && forall l: nat, x: nat :: (l, x) in Filled(lanes, trace, pass) <==>
         l < lanes && x < 4 * segmentLength && FilledBefore(segmentLength, pass, segment, lane, i, l, x)
  }

  function StartingIndex(pass: nat, segment: nat): nat {
    if pass == 0 && segment == 0 then 2 else 0
  }

  lemma InitialCoverage(lanes: nat, segmentLength: nat)
    requires segmentLength >= 2
    ensures Coverage(lanes, segmentLength, [], 0, 0, 0, 2)
  {
  }

  lemma FilledStep(lanes: nat, trace: seq<Write>, w: Write, pass: nat)
    ensures Filled(lanes, trace + [w], pass)
         == Filled(lanes, trace, pass) + (if w.pass == pass then {(w.lane, w.index)} else {})
  {
    assert (trace + [w])[..|trace|] == trace;
  }

  lemma StepCoverage(lanes: nat, segmentLength: nat, trace: seq<Write>, w: Write, segment: nat, i: nat)
    requires Coverage(lanes, segmentLength, trace, w.pass, segment, w.lane, i)
    requires segment < 4 && i < segmentLength && w.lane < lanes && w.index == segment * segmentLength + i
    ensures Coverage(lanes, segmentLength, trace + [w], w.pass, segment, w.lane, i + 1)
  {
    SegmentEnd(segmentLength, segment, i);
    hide Filled;
    FilledStep(lanes, trace, w, w.pass);
    forall q: nat | q < w.pass
      ensures Complete(lanes, segmentLength, trace + [w], q)
    {
      FilledStep(lanes, trace, w, q);
      assert Complete(lanes, segmentLength, trace, q);
    }
  }

  lemma NextLane(lanes: nat, segmentLength: nat, trace: seq<Write>, pass: nat, segment: nat, lane: nat)
    requires segmentLength >= 2 && segment < 4
    requires Coverage(lanes, segmentLength, trace, pass, segment, lane, segmentLength)
    ensures Coverage(lanes, segmentLength, trace, pass, segment, lane + 1, StartingIndex(pass, segment))
  {
    hide Filled, Complete;
    assert (segment + 1) * segmentLength == segment * segmentLength + segmentLength;
  }

  lemma NextSegment(lanes: nat, segmentLength: nat, trace: seq<Write>, pass: nat, segment: nat)
    requires segmentLength >= 2 && segment < 4
    requires Coverage(lanes, segmentLength, trace, pass, segment, lanes, StartingIndex(pass, segment))
    ensures Coverage(lanes, segmentLength, trace, pass, segment + 1, 0, 0)
  {
    hide Filled, Complete;
    Arithmetic.MulMonotone(segment, segment + 1, segmentLength);
    Arithmetic.MulMonotone(segment + 1, segment + 2, segmentLength);
    Arithmetic.MulMonotone(1, segment + 1, segmentLength);
  }

  lemma {:induction false} NothingYet(lanes: nat, trace: seq<Write>, pass: nat)
    requires pass > 0 && forall w | w in trace :: w.pass < pass
    ensures Filled(lanes, trace, pass) == {}
  {
    if trace != [] {
      NothingYet(lanes, trace[..|trace| - 1], pass);
    }
  }

  lemma NextPass(lanes: nat, segmentLength: nat, trace: seq<Write>, pass: nat)
    requires segmentLength >= 2 && Coverage(lanes, segmentLength, trace, pass, 4, 0, 0)
    ensures Coverage(lanes, segmentLength, trace, pass + 1, 0, 0, 0)
  {
    NothingYet(lanes, trace, pass + 1);
    hide Filled;
    assert Complete(lanes, segmentLength, trace, pass);
  }

  /** A step is lawful, a first write, and its reference is filled in the first pass of the data-independent variants. */
  lemma StepSound(variant: Variant, lanes: nat, segmentLength: nat, trace: seq<Write>, w: Write, segment: nat, i: nat)
    requires segmentLength >= 2 && segment < 4 && StartingIndex(w.pass, segment) <= i < segmentLength
    requires w.index == segment * segmentLength + i && Lawful(variant, lanes, segmentLength, w)
    requires Coverage(lanes, segmentLength, trace, w.pass, segment, w.lane, i)
    requires Sound(variant, lanes, segmentLength, trace)
    ensures Sound(variant, lanes, segmentLength, trace + [w])
  {
    var longer := trace + [w];
    StepIsFirst(lanes, segmentLength, trace, w, segment, i);
    if w.pass == 0 && variant != Argon2d {
      StepReference(variant, lanes, segmentLength, trace, w, segment, i);
    }
    hide Lawful, FirstWrite, Filled, Coverage, ReferenceIndex, ReferenceArea, ReferenceLane;
    forall k | 0 <= k < |longer|
      ensures Lawful(variant, lanes, segmentLength, longer[k]) && FirstWrite(lanes, longer[..k], longer[k])
      ensures longer[k].pass == 0 && variant != Argon2d ==>
                longer[k].refLane == longer[k].lane
                && (longer[k].refLane, longer[k].refIndex) in Filled(lanes, longer[..k], 0)
    {
      assert longer[..k] == if k < |trace| then trace[..k] else trace;
    }
  }

  lemma StepIsFirst(lanes: nat, segmentLength: nat, trace: seq<Write>, w: Write, segment: nat, i: nat)
    requires segmentLength >= 2 && segment < 4 && StartingIndex(w.pass, segment) <= i < segmentLength
    requires w.lane < lanes && w.index == segment * segmentLength + i
    requires Coverage(lanes, segmentLength, trace, w.pass, segment, w.lane, i)
    ensures FirstWrite(lanes, trace, w)
  {
    hide Filled, Complete;
    SegmentEnd(segmentLength, segment, i);
    Arithmetic.MulMonotone(if segment == 0 then 0 else 1, segment, segmentLength);
    assert !FilledBefore(segmentLength, w.pass, segment, w.lane, i, w.lane, w.index);
    if w.index > 0 {
      assert FilledBefore(segmentLength, w.pass, segment, w.lane, i, w.lane, w.index - 1);
    }
  }

  lemma StepReference(variant: Variant, lanes: nat, segmentLength: nat, trace: seq<Write>, w: Write, segment: nat, i: nat)
    requires segmentLength >= 2 && segment < 4 && StartingIndex(0, segment) <= i < segmentLength
    requires w.pass == 0 && variant != Argon2d
    requires w.index == segment * segmentLength + i && Lawful(variant, lanes, segmentLength, w)
    requires Coverage(lanes, segmentLength, trace, 0, segment, w.lane, i)
    ensures w.refLane == w.lane && (w.refLane, w.refIndex) in Filled(lanes, trace, 0)
  {
    hide Filled, Complete;
    Arithmetic.DivisionUnique(w.index, segmentLength, segment, i);
    ReferenceFilledIff(segmentLength, segment, w.lane, i, w.pseudoRandom, w.refLane);
  }

  /** The reference of a lawful step is in bounds. */
  lemma LawfulInBounds(variant: Variant, lanes: nat, segmentLength: nat, w: Write)
    requires segmentLength >= 2 && Lawful(variant, lanes, segmentLength, w)
    ensures InBounds(lanes, 4 * segmentLength, w)
  {
    hide ReferenceIndex, ReferenceArea, ReferenceLane;
    var area := ReferenceArea(w.pass, w.index / segmentLength, segmentLength, 4 * segmentLength, w.index % segmentLength);
    assert w.refIndex < area || w.refIndex == 1;
    GlobalBound(lanes, 4 * segmentLength, w.lane, w.index);
  }

  lemma ReplayStep(mix: (MemoryBlock, MemoryBlock) -> MemoryBlock, memory: seq<MemoryBlock>,
                   lanes: nat, laneLength: nat, trace: seq<Write>, w: Write, now: seq<MemoryBlock>)
    requires |memory| == lanes * laneLength && InBounds(lanes, laneLength, w)
    requires forall w' | w' in trace :: InBounds(lanes, laneLength, w')
    requires now == Replay(mix, memory, lanes, laneLength, trace)
    ensures forall w' | w' in trace + [w] :: InBounds(lanes, laneLength, w')
    ensures Replay(mix, memory, lanes, laneLength, trace + [w]) == ApplyWrite(mix, now, lanes, laneLength, w)
  {
    hide InBounds, ApplyWrite;
    assert (trace + [w])[..|trace|] == trace;
  }

  // ----- the address generator -----

  function TypeNumber(variant: Variant): nat {
    match variant
    case Argon2d => 0
    case Argon2i => 1
    case Argon2id => 2
  }

  /** The input of the addresses of one segment; its counter, word 6, starts at zero. */
  function InputBlock(variant: Variant, timeCost: nat, memoryCost: nat, pass: nat, lane: nat, segment: nat)
      : (input: MemoryBlock)
    ensures input[0] == pass && input[1] == lane && input[2] == segment && input[3] == memoryCost
    ensures input[4] == timeCost
    ensures input[5] == if variant == Argon2d then 0 else if variant == Argon2i then 1 else 2
    ensures forall k | 6 <= k < 128 :: input[k] == 0
  {
    ZERO_BLOCK[0 := pass][1 := lane][2 := segment][3 := memoryCost][4 := timeCost][5 := TypeNumber(variant)]
  }

  /** The generator's fields, and how often the address block was renewed. */
  datatype Generator = Generator(input: MemoryBlock, address: MemoryBlock, index: nat, renewals: nat)

  /** The block is renewed only when all of its 128 words were taken. */
  function Refreshed(mix: (MemoryBlock, MemoryBlock) -> MemoryBlock, g: Generator): (r: Generator)
    ensures r.index < 128
  {
    if g.index < 128 then g
    else Generator(g.input[6 := (g.input[6] + 1) % UINT64], mix(g.input, ZERO_BLOCK), 0, g.renewals + 1)
  }

  /** How often the block is renewed while n words are taken from its beginning. */
  function Renewals(n: nat): nat {
    if n == 0 then 0 else (n - 1) / 128
  }

  /** The address block after c renewals in a segment. */
  function AddressBlock(mix: (MemoryBlock, MemoryBlock) -> MemoryBlock, before: MemoryBlock, input: MemoryBlock, c: nat)
      : MemoryBlock
  {
    if c == 0 then before else mix(input[6 := (c - 1) % UINT64], ZERO_BLOCK)
  }

  /** Word t of a segment: the first 128 are those of the block left from before. */
  function AddressWord(mix: (MemoryBlock, MemoryBlock) -> MemoryBlock, before: MemoryBlock, input: MemoryBlock, t: nat): nat {
    AddressBlock(mix, before, input, t / 128)[t % 128]
  }

  /** After the first 128 words, those of the input mixed with zeros, whose counter goes up by one every 128 words. */
  lemma AddressWordIs(mix: (MemoryBlock, MemoryBlock) -> MemoryBlock, before: MemoryBlock, input: MemoryBlock, c: nat, k: nat)
    requires k < 128 && c < UINT64
    ensures AddressWord(mix, before, input, k) == before[k]
    ensures AddressWord(mix, before, input, 128 * (c + 1) + k) == mix(input[6 := c], ZERO_BLOCK)[k]
  {
    Arithmetic.DivisionUnique(128 * (c + 1) + k, 128, c + 1, k);
  }

  /** The generator after n words of a segment. */
  function Taken(mix: (MemoryBlock, MemoryBlock) -> MemoryBlock, before: MemoryBlock, input: MemoryBlock,
                 renewals: nat, n: nat): Generator
  {
    Generator(input[6 := Renewals(n) % UINT64], AddressBlock(mix, before, input, Renewals(n)),
              if n == 0 then 0 else (n - 1) % 128 + 1, renewals + Renewals(n))
  }

  lemma TakenNone(mix: (MemoryBlock, MemoryBlock) -> MemoryBlock, before: MemoryBlock, input: MemoryBlock, renewals: nat)
    requires input[6] == 0
    ensures Taken(mix, before, input, renewals, 0) == Generator(input, before, 0, renewals)
  {
    assert input[6 := 0] == input;
  }

  lemma TakeNext(mix: (MemoryBlock, MemoryBlock) -> MemoryBlock, before: MemoryBlock, input: MemoryBlock,
                 renewals: nat, n: nat)
    ensures var r := Refreshed(mix, Taken(mix, before, input, renewals, n));
            && r.address[r.index] == AddressWord(mix, before, input, n)
            && r.(index := r.index + 1) == Taken(mix, before, input, renewals, n + 1)
  {
    if n > 0 && n % 128 == 0 {
      assert Renewals(n) + 1 == n / 128 == Renewals(n + 1);
      Arithmetic.ReduceSummand(Renewals(n), 1, UINT64);
      assert input[6 := Renewals(n) % UINT64][6 := Renewals(n + 1) % UINT64] == input[6 := Renewals(n + 1) % UINT64];
    } else {
      assert Renewals(n) == n / 128 == Renewals(n + 1);
    }
  }

  // ----- the class -----

  class Argon2 {
    const variant: Variant
    const timeCost: nat
    const lanes: nat
    const segmentLength: nat
    const laneLength: nat
    const memoryCost: nat
    const mix: (MemoryBlock, MemoryBlock) -> MemoryBlock
    const memory: array<MemoryBlock>
    var inputBlock: MemoryBlock
    var addressBlock: MemoryBlock
    var addressBlockIndex: nat
    ghost var renewals: nat
    /** The steps since the first blocks were set, and the memory they started from. */
    ghost var trace: seq<Write>
    ghost var start: seq<MemoryBlock>

    ghost predicate Valid()
      reads this, memory
    {
      && Layout(lanes, segmentLength, laneLength, memoryCost) && memory.Length == memoryCost
      && |start| == lanes * laneLength
      && (forall w | w in trace :: InBounds(lanes, laneLength, w))
      && memory[..] == Replay(mix, start, lanes, laneLength, trace)
      && Sound(variant, lanes, segmentLength, trace)
      && |start| > 0 && Drawn(variant, mix, start, lanes, laneLength, trace)
    }

    /** The starting size and addresses are whatever uninitialised fields hold; 32-bit rounding must not wrap. */
    constructor (variant: Variant, timeCost: nat, startingMemory: nat, addresses: MemoryBlock, parallelism: nat,
                 mix: (MemoryBlock, MemoryBlock) -> MemoryBlock)
      requires parallelism >= 1 && startingMemory < UINT32 && 8 * parallelism < UINT32
      requires var blocks := RaiseMemory(startingMemory, parallelism);
               blocks % (4 * parallelism) == 0 || blocks + 4 * parallelism - 1 < UINT32
      ensures Valid() && fresh(memory) && trace == [] && renewals == 0 && lanes == parallelism
      ensures this.variant == variant && this.timeCost == timeCost && this.mix == mix && addressBlock == addresses
      ensures memoryCost == RoundMemory(startingMemory, parallelism)
    {
      RoundingGivesLayout(startingMemory, parallelism);
      var m := RoundMemory(startingMemory, parallelism);
      this.variant, this.timeCost, this.mix := variant, timeCost, mix;
      lanes, memoryCost := parallelism, m;
      laneLength := m / parallelism;
      segmentLength := m / parallelism / 4;
      inputBlock, addressBlock, addressBlockIndex := ZERO_BLOCK, addresses, 0;
      memory := new MemoryBlock[m](_ => ZERO_BLOCK);
      trace, start, renewals := [], [], 0;
      new;
      start := memory[..];
    }

    ghost function Addresses(): Generator
      reads this
    {
      Generator(inputBlock, addressBlock, addressBlockIndex, renewals)
    }

    function Input(pass: nat, lane: nat, segment: nat): MemoryBlock {
      InputBlock(variant, timeCost, memoryCost, pass, lane, segment)
    }

    method InitializeInputBlock(pass: nat, lane: nat, segment: nat)
      modifies this`inputBlock
      ensures inputBlock == Input(pass, lane, segment)
    {
      inputBlock := ZERO_BLOCK;
      inputBlock := inputBlock[0 := pass][1 := lane][2 := segment][3 := memoryCost][4 := timeCost];
      inputBlock := inputBlock[5 := TypeNumber(variant)];
    }

    /** The next word of the address block, which is mixed again once all of it was used. */
    method GenerateAddress() returns (pseudoRandom: nat)
      modifies this`inputBlock, this`addressBlock, this`addressBlockIndex, this`renewals
      ensures var r := Refreshed(mix, old(Addresses()));
              pseudoRandom == r.address[r.index] && Addresses() == r.(index := r.index + 1)
    {
      if addressBlockIndex >= 128 {
        addressBlock := mix(inputBlock, ZERO_BLOCK);
        inputBlock := inputBlock[6 := (inputBlock[6] + 1) % UINT64];
        addressBlockIndex := 0;
        renewals := renewals + 1;
      }
      pseudoRandom := addressBlock[addressBlockIndex];
      addressBlockIndex := addressBlockIndex + 1;
    }

    method ComputePseudoRandom(pass: nat, lane: nat, index: nat) returns (pseudoRandom: nat)
      requires Valid() && lane < lanes && index < laneLength
      modifies this`inputBlock, this`addressBlock, this`addressBlockIndex, this`renewals
      ensures memory.Length > 0
      ensures DataDependent(variant, pass) ==>
                && pseudoRandom == memory[PreviousRead(memory.Length, lane * laneLength + index)][0]
                && Addresses() == old(Addresses())
      ensures !DataDependent(variant, pass) ==>
                var r := Refreshed(mix, old(Addresses()));
                pseudoRandom == r.address[r.index] && Addresses() == r.(index := r.index + 1)
    {
      hide Replay, Sound;
      GlobalBound(lanes, laneLength, lane, index);
      if variant == Argon2d || (variant == Argon2id && pass != 0) {
        var globalIndex := (lane * laneLength + index) % memoryCost;
        Arithmetic.DivisionUnique(lane * laneLength + index, memoryCost, 0, lane * laneLength + index);
        var previous := memory[PreviousRead(memoryCost, globalIndex)];
        return previous[0];
      } else {
        pseudoRandom := GenerateAddress();
      }
    }

    /** The position of step i in its lane; the two modulo operations of the source change nothing. */
    lemma StepIndex(segment: nat, i: nat)
      requires Layout(lanes, segmentLength, laneLength, memoryCost) && segment < 4 && i < segmentLength
      ensures (segment * segmentLength + i) % laneLength == segment * segmentLength + i < laneLength
      ensures (segment * segmentLength + i) % segmentLength == i
    {
      SegmentEnd(segmentLength, segment, i);
      Arithmetic.DivisionUnique(segment * segmentLength + i, laneLength, 0, segment * segmentLength + i);
      Arithmetic.DivisionUnique(segment * segmentLength + i, segmentLength, segment, i);
    }

    method ComputeRefBlockIndices(pseudoRandom: nat, pass: nat, lane: nat, index: nat, segment: nat)
        returns (refLane: nat, refIndex: nat)
      requires Layout(lanes, segmentLength, laneLength, memoryCost) && lane < lanes && segment < 4
      ensures refLane == ReferenceLane(variant, lanes, pseudoRandom, pass, lane) < lanes
      ensures refIndex == ReferenceIndex(pseudoRandom, pass, segment,
                            ReferenceArea(pass, segment, segmentLength, laneLength, index % segmentLength))
      ensures refIndex < laneLength
    {
      var area := ReferenceArea(pass, segment, segmentLength, laneLength, index % segmentLength);
      refLane := ReferenceLane(variant, lanes, pseudoRandom, pass, lane);
      refIndex := ReferenceIndex(pseudoRandom, pass, segment, area);
    }

    /** Mixes two blocks into a third and records the step. */
    method WriteBlock(w: Write)
      requires Valid() && InBounds(lanes, laneLength, w) && Sound(variant, lanes, segmentLength, trace + [w])
      requires memory.Length > 0 && (DataDependent(variant, w.pass) ==>
                 w.pseudoRandom == memory[PreviousRead(memory.Length, w.lane * laneLength + w.index)][0])
      modifies this`trace, memory
      ensures Valid() && trace == old(trace) + [w]
      ensures var position, reference := w.lane * laneLength + w.index, w.refLane * laneLength + w.refIndex;
              && 0 <= position < memory.Length && 0 <= reference < memory.Length && w.previous < memory.Length
              && memory[..] == old(memory[..])[position := mix(old(memory[..])[w.previous], old(memory[..])[reference])]
    {
      hide Replay, Sound, Filled, Drawn, PreviousRead;
      ReplayStep(mix, start, lanes, laneLength, trace, w, memory[..]);
      DrawnStep(variant, mix, start, lanes, laneLength, trace, w, memory[..]);
      GlobalBound(lanes, laneLength, w.lane, w.index);
      GlobalBound(lanes, laneLength, w.refLane, w.refIndex);
      ghost var before := memory[..];
      var globalIndex, refGlobalIndex := w.lane * laneLength + w.index, w.refLane * laneLength + w.refIndex;
      memory[globalIndex] := mix(memory[w.previous], memory[refGlobalIndex]);
      assert memory[..] == before[globalIndex := mix(before[w.previous], before[refGlobalIndex])];
      trace := trace + [w];
    }

    /** The indices of step i of a segment, all in bounds and as its place and its random word determine. */
    method ComputeStep(pass: nat, lane: nat, segment: nat, i: nat) returns (w: Write)
      requires Valid() && lane < lanes && segment < 4 && i < segmentLength
      modifies this`inputBlock, this`addressBlock, this`addressBlockIndex, this`renewals
      ensures w.pass == pass && w.lane == lane && w.index == segment * segmentLength + i
      ensures Lawful(variant, lanes, segmentLength, w) && memory.Length > 0
      ensures DataDependent(variant, pass) ==>
                && w.pseudoRandom == memory[PreviousRead(memory.Length, lane * laneLength + w.index)][0]
                && Addresses() == old(Addresses())
      ensures !DataDependent(variant, pass) ==>
                var r := Refreshed(mix, old(Addresses()));
                w.pseudoRandom == r.address[r.index] && Addresses() == r.(index := r.index + 1)
    {
      hide Replay, Sound, ReferenceIndex, ReferenceArea, ReferenceLane, Lawful, PreviousRead;
      StepIndex(segment, i);
      var index := (segment * segmentLength + i) % laneLength;
      GlobalBound(lanes, laneLength, lane, index);
      var globalIndex := lane * laneLength + index;
      var pseudoRandom := ComputePseudoRandom(pass, lane, index);
      var refLane, refIndex := ComputeRefBlockIndices(pseudoRandom, pass, lane, index, segment);
      var previous := if globalIndex == 0 then memory.Length - 1 else globalIndex - 1;
      w := Write(pass, lane, index, previous, pseudoRandom, refLane, refIndex);
      StepIsLawful(w, segment, i);
    }

    /** One step of a segment: every index is in bounds, and the step continues the schedule. */
    method FillBlock(pass: nat, lane: nat, segment: nat, i: nat)
      requires Valid() && lane < lanes && segment < 4 && StartingIndex(pass, segment) <= i < segmentLength
      requires Coverage(lanes, segmentLength, trace, pass, segment, lane, i)
      modifies this`trace, this`inputBlock, this`addressBlock, this`addressBlockIndex, this`renewals, memory
      ensures Valid() && |trace| == |old(trace)| + 1 && old(trace) <= trace && memory.Length > 0
      ensures var w := trace[|old(trace)|];
              && w.pass == pass && w.lane == lane && w.index == segment * segmentLength + i
              && (DataDependent(variant, pass) ==>
                    && w.pseudoRandom == old(memory[..])[PreviousRead(memory.Length, lane * laneLength + w.index)][0]
                    && Addresses() == old(Addresses()))
              && (!DataDependent(variant, pass) ==>
                    var r := Refreshed(mix, old(Addresses()));
                    w.pseudoRandom == r.address[r.index] && Addresses() == r.(index := r.index + 1))
      ensures var w, before := trace[|old(trace)|], old(memory[..]);
              var position, reference := w.lane * laneLength + w.index, w.refLane * laneLength + w.refIndex;
              && 0 <= position < memory.Length && 0 <= reference < memory.Length && w.previous < memory.Length
              && memory[..] == before[position := mix(before[w.previous], before[reference])]
      ensures Coverage(lanes, segmentLength, trace, pass, segment, lane, i + 1)
    {
      hide Replay, Sound, Filled, Coverage, Lawful, PreviousRead;
      var w := ComputeStep(pass, lane, segment, i);
      StepSound(variant, lanes, segmentLength, trace, w, segment, i);
      StepCoverage(lanes, segmentLength, trace, w, segment, i);
      LawfulInBounds(variant, lanes, segmentLength, w);
      WriteBlock(w);
    }

    lemma StepIsLawful(w: Write, segment: nat, i: nat)
      requires Layout(lanes, segmentLength, laneLength, memoryCost) && segment < 4 && i < segmentLength
      requires w.lane < lanes && w.index == segment * segmentLength + i < laneLength
      requires w.previous == if w.lane * laneLength + w.index == 0 then memoryCost - 1 else w.lane * laneLength + w.index - 1
      requires w.refLane == ReferenceLane(variant, lanes, w.pseudoRandom, w.pass, w.lane)
      requires w.refIndex == ReferenceIndex(w.pseudoRandom, w.pass, segment,
                               ReferenceArea(w.pass, segment, segmentLength, laneLength, i))
      ensures Lawful(variant, lanes, segmentLength, w)
    {
      Arithmetic.DivisionUnique(w.index, segmentLength, segment, i);
    }

    /** The number of steps in a segment. */
    function Steps(pass: nat, segment: nat): int {
      segmentLength - StartingIndex(pass, segment)
    }

    /** Step t of a segment, where its random word is an address word. */
    ghost predicate IsStep(w: Write, before: MemoryBlock, pass: nat, lane: nat, segment: nat, t: nat) {
      && w.pass == pass && w.lane == lane && w.index == segment * segmentLength + StartingIndex(pass, segment) + t
      && (!DataDependent(variant, pass) ==> w.pseudoRandom == AddressWord(mix, before, Input(pass, lane, segment), t))
    }

    /**
     * A segment of a lane. Its address words start with the 128 of the block left from before, whatever the
     * length of the segment; the block is renewed only after every 128 words.
     */
    method FillSegment(pass: nat, lane: nat, segment: nat)
      requires Valid() && lane < lanes && segment < 4
      requires Coverage(lanes, segmentLength, trace, pass, segment, lane, StartingIndex(pass, segment))
      modifies this`trace, this`inputBlock, this`addressBlock, this`addressBlockIndex, this`renewals, memory
      ensures Valid() && old(trace) <= trace && Steps(pass, segment) >= 0
      ensures Coverage(lanes, segmentLength, trace, pass, segment, lane + 1, StartingIndex(pass, segment))
      ensures |trace| == |old(trace)| + Steps(pass, segment)
      ensures forall k | |old(trace)| <= k < |trace| ::
                IsStep(trace[k], old(addressBlock), pass, lane, segment, k - |old(trace)|)
      ensures Addresses() ==
              if DataDependent(variant, pass) then old(Addresses())
              else Taken(mix, old(addressBlock), Input(pass, lane, segment), old(renewals), Steps(pass, segment))
    {
      hide Coverage, Filled, Replay, Sound, Taken, AddressWord, Refreshed, InputBlock;
      if variant == Argon2i || (variant == Argon2id && pass == 0) {
        InitializeInputBlock(pass, lane, segment);
        addressBlockIndex := 0;
        TakenNone(mix, addressBlock, inputBlock, renewals);
      }
      var first := StartingIndex(pass, segment);
      var i := first;
      while i < segmentLength
        invariant first <= i <= segmentLength
        invariant Valid() && old(trace) <= trace && |trace| == |old(trace)| + i - first
        invariant Coverage(lanes, segmentLength, trace, pass, segment, lane, i)
        invariant forall k | |old(trace)| <= k < |trace| ::
                    IsStep(trace[k], old(addressBlock), pass, lane, segment, k - |old(trace)|)
        invariant DataDependent(variant, pass) ==> Addresses() == old(Addresses())
        invariant !DataDependent(variant, pass) ==>
                    Addresses() == Taken(mix, old(addressBlock), Input(pass, lane, segment), old(renewals), i - first)
      {
        TakeNext(mix, old(addressBlock), Input(pass, lane, segment), old(renewals), i - first);
        FillBlock(pass, lane, segment, i);
        i := i + 1;
      }
      NextLane(lanes, segmentLength, trace, pass, segment, lane);
    }

    /** Sets the first two blocks of every lane, from which the schedule starts. */
    method InitializeFirstBlocks(first: (nat, nat) -> MemoryBlock)
      requires Valid()
      modifies this`trace, this`start, memory
      ensures Valid() && trace == []
      ensures forall l | 0 <= l < lanes ::
                0 <= l * laneLength && l * laneLength + 1 < memory.Length
                && memory[l * laneLength] == first(l, 0) && memory[l * laneLength + 1] == first(l, 1)
    {
      hide Valid, Replay, Sound, Filled;
      assert Layout(lanes, segmentLength, laneLength, memoryCost) && memory.Length == memoryCost by { ValidLayout(); }
      for i := 0 to memory.Length {
        memory[i] := ZERO_BLOCK;
      }
      for l := 0 to lanes
        invariant forall k | 0 <= k < l ::
                    0 <= k * laneLength && k * laneLength + 1 < memory.Length
                    && memory[k * laneLength] == first(k, 0) && memory[k * laneLength + 1] == first(k, 1)
      {
        GlobalBound(lanes, laneLength, l, 1);
        LanesApart(l);
        memory[l * laneLength] := first(l, 0);
        memory[l * laneLength + 1] := first(l, 1);
      }
      trace, start := [], memory[..];
      assert Valid() by { StartValid(); }
    }

    lemma ValidLayout()
      requires Valid()
      ensures Layout(lanes, segmentLength, laneLength, memoryCost) && memory.Length == memoryCost
    {
    }

    lemma StartValid()
      requires Layout(lanes, segmentLength, laneLength, memoryCost) && memory.Length == memoryCost
      requires trace == [] && start == memory[..]
      ensures Valid()
    {
    }

    lemma LanesApart(l: nat)
      requires laneLength >= 2
      ensures forall k | 0 <= k < l :: k * laneLength + 1 < l * laneLength
    {
      forall k | 0 <= k < l
        ensures k * laneLength + 1 < l * laneLength
      {
        Arithmetic.MulMonotone(k + 1, l, laneLength);
      }
    }

    /** The address block when a segment of a lane is about to be filled, from the one before the first pass. */
    ghost function AddressBefore(first: MemoryBlock, pass: nat, segment: nat, lane: nat): MemoryBlock
      decreases pass, segment, lane
    {
      if lane > 0 then AddressAfter(AddressBefore(first, pass, segment, lane - 1), pass, segment, lane - 1)
      else if segment > 0 then AddressBefore(first, pass, segment - 1, lanes)
      else if pass > 0 then AddressBefore(first, pass - 1, 4, 0)
      else first
    }

    ghost function AddressAfter(before: MemoryBlock, pass: nat, segment: nat, lane: nat): MemoryBlock {
      if DataDependent(variant, pass) || Steps(pass, segment) <= 0 then before
      else AddressBlock(mix, before, Input(pass, lane, segment), Renewals(Steps(pass, segment)))
    }

    /** The random word of a data-independent step, from the address block before the first pass. */
    ghost predicate AddressDetermined(first: MemoryBlock, w: Write)
      requires segmentLength > 0
    {
      var segment := w.index / segmentLength;
      var t := w.index % segmentLength - StartingIndex(w.pass, segment);
      t >= 0 && (!DataDependent(variant, w.pass) ==>
        w.pseudoRandom == AddressWord(mix, AddressBefore(first, w.pass, segment, w.lane), Input(w.pass, w.lane, segment), t))
    }

    lemma StepDetermined(first: MemoryBlock, w: Write, pass: nat, lane: nat, segment: nat, t: nat)
      requires t < Steps(pass, segment) && IsStep(w, AddressBefore(first, pass, segment, lane), pass, lane, segment, t)
      ensures AddressDetermined(first, w)
    {
      hide AddressBefore, AddressWord, InputBlock;
      Arithmetic.DivisionUnique(w.index, segmentLength, segment, StartingIndex(pass, segment) + t);
    }

    /** The segments filled so far have renewed the address block. */
    ghost predicate Renewed(pass: nat, segment: nat, lane: nat) {
      variant != Argon2d && segmentLength > 128
      && (pass > 0 || segment > 1 || (segment == 1 && lane > 0) || (segment + lane > 0 && segmentLength > 130))
    }

    lemma RenewedStep(pass: nat, segment: nat, lane: nat)
      requires segmentLength >= 2
      ensures Renewed(pass, segment, lane + 1) ==
              (Renewed(pass, segment, lane) || (!DataDependent(variant, pass) && Renewals(Steps(pass, segment)) > 0))
    {
    }

    lemma RenewedNext(pass: nat, segment: nat)
      requires lanes >= 1 && segment < 4
      ensures Renewed(pass, segment + 1, 0) == Renewed(pass, segment, lanes)
      ensures Renewed(pass + 1, 0, 0) == Renewed(pass, 4, 0)
    {
    }

    /**
     * All passes. The memory is the replay of a sound schedule: every index of every step was in bounds, each
     * block is written once a pass after its predecessor in the lane, and in the first pass Argon2i and Argon2id
     * refer to filled blocks of the same lane only. Every pass fills every block, and there are no other steps.
     * Every address word is determined by the uninitialised address block, which is never renewed exactly when
     * the variant takes no addresses, there is no pass, or a segment has at most 128 blocks.
     */
    method FillMemoryBlocks()
      requires Valid() && trace == []
      modifies this`trace, this`inputBlock, this`addressBlock, this`addressBlockIndex, this`renewals, memory
      ensures Valid() && segmentLength > 0
      ensures forall pass: nat | pass < timeCost :: Complete(lanes, segmentLength, trace, pass)
      ensures forall w | w in trace :: w.pass < timeCost
      ensures forall w | w in trace :: AddressDetermined(old(addressBlock), w)
      ensures renewals >= old(renewals)
      ensures renewals == old(renewals) <==> variant == Argon2d || timeCost == 0 || segmentLength <= 128
    {
      hide Replay, Sound, Filled, Coverage, AddressDetermined, Renewed, AddressWord, AddressBefore;
      if variant == Argon2i || variant == Argon2id {
        inputBlock := ZERO_BLOCK;
      }
      InitialCoverage(lanes, segmentLength);
      FirstAddress(addressBlock);
      for pass := 0 to timeCost
        invariant Valid()
        invariant Coverage(lanes, segmentLength, trace, pass, 0, 0, StartingIndex(pass, 0))
        invariant pass == 0 ==> trace == []
        invariant AddressesKept(old(addressBlock), old(renewals), pass, 0, 0)
      {
        for segment := 0 to 4
          invariant Valid()
          invariant Coverage(lanes, segmentLength, trace, pass, segment, 0, StartingIndex(pass, segment))
          invariant AddressesKept(old(addressBlock), old(renewals), pass, segment, 0)
        {
          for lane := 0 to lanes
            invariant Valid()
            invariant Coverage(lanes, segmentLength, trace, pass, segment, lane, StartingIndex(pass, segment))
            invariant AddressesKept(old(addressBlock), old(renewals), pass, segment, lane)
          {
            FillLane(old(addressBlock), old(renewals), pass, segment, lane);
          }
          NextSegment(lanes, segmentLength, trace, pass, segment);
          SegmentAddress(old(addressBlock), old(renewals), pass, segment);
        }
        NextPass(lanes, segmentLength, trace, pass);
        PassAddress(old(addressBlock), old(renewals), pass);
      }
      AllPasses(lanes, segmentLength, trace, timeCost);
      assert Renewed(timeCost, 0, 0) <==> variant != Argon2d && timeCost > 0 && segmentLength > 128 by { RenewedAtEnd(); }
    }

    /** The addresses are as determined so far, and were renewed exactly when a segment so far asked for it. */
    ghost predicate AddressesKept(first: MemoryBlock, renewed: nat, pass: nat, segment: nat, lane: nat)
      reads this
    {
      && segmentLength > 0
      && addressBlock == AddressBefore(first, pass, segment, lane)
      && renewals >= renewed && (renewals > renewed <==> Renewed(pass, segment, lane))
      && forall w | w in trace :: AddressDetermined(first, w)
    }

    method FillLane(ghost first: MemoryBlock, ghost renewed: nat, pass: nat, segment: nat, lane: nat)
      requires Valid() && lane < lanes && segment < 4
      requires Coverage(lanes, segmentLength, trace, pass, segment, lane, StartingIndex(pass, segment))
      requires AddressesKept(first, renewed, pass, segment, lane)
      modifies this`trace, this`inputBlock, this`addressBlock, this`addressBlockIndex, this`renewals, memory
      ensures Valid()
      ensures Coverage(lanes, segmentLength, trace, pass, segment, lane + 1, StartingIndex(pass, segment))
      ensures AddressesKept(first, renewed, pass, segment, lane + 1)
    {
      hide Replay, Sound, Filled, Coverage, AddressDetermined, AddressWord, Renewed, IsStep, AddressBefore;
      ghost var before, n := addressBlock, |trace|;
      FillSegment(pass, lane, segment);
      RenewedStep(pass, segment, lane);
      LaneAddress(first, pass, segment, lane);
      forall w | w in trace
        ensures AddressDetermined(first, w)
      {
        var k :| 0 <= k < |trace| && trace[k] == w;
        if k < n {
          assert w == old(trace)[k];
        } else {
          assert IsStep(trace[k], before, pass, lane, segment, k - n);
          StepDetermined(first, w, pass, lane, segment, k - n);
        }
      }
    }

    lemma LaneAddress(first: MemoryBlock, pass: nat, segment: nat, lane: nat)
      ensures AddressBefore(first, pass, segment, lane + 1)
           == AddressAfter(AddressBefore(first, pass, segment, lane), pass, segment, lane)
    {
    }

    lemma FirstAddress(first: MemoryBlock)
      ensures AddressBefore(first, 0, 0, 0) == first && !Renewed(0, 0, 0)
    {
    }

    lemma SegmentAddress(first: MemoryBlock, renewed: nat, pass: nat, segment: nat)
      requires lanes >= 1 && segment < 4 && AddressesKept(first, renewed, pass, segment, lanes)
      ensures AddressesKept(first, renewed, pass, segment + 1, 0)
    {
      hide AddressDetermined;
      RenewedNext(pass, segment);
    }

    lemma PassAddress(first: MemoryBlock, renewed: nat, pass: nat)
      requires lanes >= 1 && AddressesKept(first, renewed, pass, 4, 0)
      ensures AddressesKept(first, renewed, pass + 1, 0, 0)
    {
      hide AddressDetermined;
      RenewedNext(pass, 0);
    }

    lemma RenewedAtEnd()
      ensures Renewed(timeCost, 0, 0) <==> variant != Argon2d && timeCost > 0 && segmentLength > 128
    {
    }
  }

  lemma {:induction false} WriteIsFilled(lanes: nat, trace: seq<Write>, w: Write)
    requires w in trace
    ensures (w.lane, w.index) in Filled(lanes, trace, w.pass)
  {
    if w != trace[|trace| - 1] {
      WriteIsFilled(lanes, trace[..|trace| - 1], w);
    }
  }

  lemma AllPasses(lanes: nat, segmentLength: nat, trace: seq<Write>, passes: nat)
    requires Coverage(lanes, segmentLength, trace, passes, 0, 0, StartingIndex(passes, 0))
    requires passes == 0 ==> trace == []
    ensures forall pass: nat | pass < passes :: Complete(lanes, segmentLength, trace, pass)
    ensures forall w | w in trace :: w.pass < passes
  {
    hide Filled, Complete;
    forall w | w in trace
      ensures w.pass < passes
    {
      WriteIsFilled(lanes, trace, w);
    }
  }
}
