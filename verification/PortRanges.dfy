/** Port ranges as value/mask pairs. */
module PortRanges {
  import opened Results
  import opened Bits

  // `BitwiseMatch` follows the original algorithm, with its loop, its recursion and its 16-bit
  // arithmetic. It is proved against `Cover`, which cuts the largest aligned block off the high
  // end of the range again and again, and the results about `Cover` state what the list is
  // for: an exact cover, in order, of minimal length, with at most 30 entries.

  datatype PortRange = PortRange(start: uint16, end: uint16)

  datatype BitRange = BitRange(value: uint16, mask: uint16)

  datatype Error = InvalidPortRange

  // ---------------------------------------------------------------- meaning of a match list

  /** Open vSwitch accepts port `p` for `value/mask`. */
  predicate Accepts(b: BitRange, p: uint16) {
    And(p, b.mask) == b.value
  }

  ghost predicate AcceptedBySome(bs: seq<BitRange>, p: uint16) {
    exists i :: 0 <= i < |bs| && Accepts(bs[i], p)
  }

  /** `bs` accepts the ports first..last and no other. */
  ghost predicate AcceptsExactly(bs: seq<BitRange>, first: int, last: int) {
    forall p: uint16 :: AcceptedBySome(bs, p) <==> first <= p <= last
  }

  /** No port is accepted twice. */
  ghost predicate AcceptsOnce(bs: seq<BitRange>) {
    forall p: uint16, i, j ::
      0 <= i < |bs| && 0 <= j < |bs| && Accepts(bs[i], p) && Accepts(bs[j], p) ==> i == j
  }

  /** The mask has its ones contiguous at the high end: `k` low bits are free. */
  ghost predicate HasFreeBits(b: BitRange, k: nat) {
    k <= 16 && b.mask == 0x1_0000 - Pow2(k)
  }

  ghost predicate PrefixMasked(b: BitRange) {
    exists k :: HasFreeBits(b, k)
  }

  ghost predicate AllPrefixMasked(bs: seq<BitRange>) {
    forall i :: 0 <= i < |bs| ==> PrefixMasked(bs[i])
  }

  /** The entries lie end to end, in ascending order, from `first` to `last`. */
  ghost predicate Adjacent(bs: seq<BitRange>, first: int, last: int) {
    && (bs == [] ==> first == last + 1)
    && (bs != [] ==> bs[0].value == first)
    && forall i :: 0 <= i < |bs| ==>
         bs[i].value + (0x1_0000 - bs[i].mask) == (if i + 1 < |bs| then bs[i + 1].value else last + 1)
  }

  /** Everything `BitwiseMatch` promises about its list. */
  ghost predicate MinimalExactCover(bs: seq<BitRange>, first: int, last: int) {
    && AcceptsExactly(bs, first, last)
    && AcceptsOnce(bs)
    && Adjacent(bs, first, last)
    && AllPrefixMasked(bs)
    && 1 <= |bs| <= 30
    && forall other :: AllPrefixMasked(other) && AcceptsExactly(other, first, last) ==> |bs| <= |other|
  }

  // ---------------------------------------------------------------- the original algorithm

  function GetMask(bitLength: nat): uint16 {
    Xor16(0xffff, ToUint16(Pow2(bitLength) - 1))
  }

  function Xor16(a: uint16, b: uint16): uint16 {
    ToUint16(Xor(a, b))
  }

  function GetRange(end: uint16, bitLength: nat): (uint16, uint16) {
    var rangeLength := ToUint16(Pow2(bitLength) - 1);
    var rangeStart := ToUint16(AndNot(end, rangeLength));
    (rangeStart, ToUint16(rangeStart + rangeLength))
  }

  /** Integer form of floor(log2(x)). */
  function FloorLog2(x: nat): (k: nat)
    requires x > 0
    ensures Pow2(k) <= x < Pow2(k + 1)
  {
    if x == 1 then 0 else 1 + FloorLog2(x / 2)
  }

  lemma MaskOfBits(bitLength: nat)
    requires bitLength <= 16
    ensures 1 <= Pow2(bitLength) <= 0x1_0000
    ensures GetMask(bitLength) == 0x1_0000 - Pow2(bitLength)
  {
    assert 1 <= Pow2(bitLength) <= 0x1_0000 by {
      Pow2Sixteen();
      Pow2Monotone(bitLength, 16);
    }
    assert Xor(0xffff, Pow2(bitLength) - 1) == 0x1_0000 - Pow2(bitLength) by {
      Pow2Sixteen();
      XorLowBits(16, bitLength);
    }
  }

  /** The range around `end` never wraps, contains `end`, and ends there exactly when `end + 1` is aligned. */
  lemma RangeAround(end: uint16, bitLength: nat)
    requires bitLength <= 16
    ensures var (rangeStart, rangeEnd) := GetRange(end, bitLength);
            && rangeEnd == rangeStart + Pow2(bitLength) - 1 >= end
            && (rangeEnd == end <==> Aligned(end + 1, bitLength))
  {
    hide AndNot, RoundDown, Aligned, Pow2, GetMask;
    MaskOfBits(bitLength);
    AndNotLowBits(end, bitLength);
    RoundDownFits(end, bitLength);
    EndsAligned(end, bitLength);
  }

  /** Rounding down to a multiple of 2^k leaves room for the whole block below 2^16. */
  lemma RoundDownFits(p: uint16, k: nat)
    requires k <= 16
    ensures RoundDown(p, k) + Pow2(k) <= 0x1_0000
  {
    Pow2Sixteen();
    Pow2Aligned(k, 16);
    RoundDownBounds(p, k);
    AlignedGap(RoundDown(p, k), 0x1_0000, k);
  }

  lemma WindowSize(start: uint16, end: uint16)
    requires 1 <= start <= end
    ensures ToUint16(ToUint16(end - start) + 1) == end - start + 1
  {
  }

  /** One turn of the narrowing loop keeps that nothing larger fits. */
  lemma Narrow(start: uint16, end: uint16, bitLength: nat)
    requires bitLength <= 15 && NoneFitAbove(start, end, bitLength) && !Aligned(end + 1, bitLength)
    ensures bitLength > 0 && Pow2(bitLength - 1) <= Pow2(bitLength) && NoneFitAbove(start, end, bitLength - 1)
  {
    AlignedZero(end + 1);
    Pow2Monotone(bitLength - 1, bitLength);
    NoneFitFrom(start, end, bitLength);
  }

  lemma LargestFound(start: uint16, end: uint16, bitLength: nat)
    requires bitLength <= 15 && Pow2(bitLength) <= end - start + 1
    requires Aligned(end + 1, bitLength) && NoneFitAbove(start, end, bitLength)
    ensures IsLargest(start, end, bitLength)
  {
  }

  /** The window, the first range and the loop that narrows it. */
  method FindBlock(r: PortRange) returns (bitLength: nat, rangeStart: uint16, rangeEnd: uint16)
    requires 1 <= r.start <= r.end
    ensures IsLargest(r.start, r.end, bitLength)
    ensures rangeStart == r.end + 1 - Pow2(bitLength) && rangeEnd == r.end
  {
    hide GetRange, NoneFitAbove, Aligned, IsLargest, Pow2, FloorLog2, ToUint16;
    WindowSize(r.start, r.end);
    var window := ToUint16(ToUint16(r.end - r.start) + 1);
    bitLength := FloorLog2(window);
    FewBits(r.start, r.end, bitLength);
    RangeAround(r.end, bitLength);
    var range := GetRange(r.end, bitLength);
    rangeStart, rangeEnd := range.0, range.1;
    while rangeEnd > r.end
      invariant bitLength <= 15 && Pow2(bitLength) <= window
      invariant rangeEnd == rangeStart + Pow2(bitLength) - 1 >= r.end
      invariant rangeEnd == r.end <==> Aligned(r.end + 1, bitLength)
      invariant NoneFitAbove(r.start, r.end, bitLength)
      decreases bitLength
    {
      Narrow(r.start, r.end, bitLength);
      bitLength := bitLength - 1;
      RangeAround(r.end, bitLength);
      range := GetRange(r.end, bitLength);
      rangeStart, rangeEnd := range.0, range.1;
    }
    LargestFound(r.start, r.end, bitLength);
  }

  method BitwiseMatch(r: PortRange) returns (res: Result<seq<BitRange>, Error>)
    ensures res.Err? <==> r.start == 0 || r.end == 0 || r.start > r.end
    ensures res.Ok? ==> res.value == Cover(r.start, r.end)
    ensures res.Ok? ==> MinimalExactCover(res.value, r.start, r.end)
    decreases r.end - r.start
  {
    hide MinimalExactCover, NoneFitAbove, GetMask, Pow2;
    if r.start <= 0 || r.end <= 0 {
      return Err(InvalidPortRange);
    }
    if r.start > r.end {
      return Err(InvalidPortRange);
    }
    if r.start == r.end {
      SinglePort(r.start);
      CoverMeetsContract(r.start, r.end);
      return Ok([BitRange(r.start, 0xffff)]);
    }
    var bitRanges := [];
    var bitLength, rangeStart, rangeEnd := FindBlock(r);
    var current := BitRange(rangeStart, GetMask(bitLength));
    CoverStep(r.start, r.end, bitLength);
    if r.start != rangeStart {
      var left := BitwiseMatch(PortRange(r.start, ToUint16(rangeStart - 1)));
      if left.Err? {
        return left;
      }
      bitRanges := bitRanges + left.value;
    }
    bitRanges := bitRanges + [current];
    if r.end != rangeEnd {
      // The block always ends at the end of the range, so nothing is left on its right.
      assert false;
    }
    CoverMeetsContract(r.start, r.end);
    return Ok(bitRanges);
  }

  // ---------------------------------------------------------------- the specification

  /** A block of 2^k ports ending at `last` is aligned and lies inside first..last. */
  ghost predicate Fits(first: int, last: int, k: nat) {
    Aligned(last + 1, k) && Pow2(k) <= last - first + 1
  }

  ghost predicate IsLargest(first: int, last: int, k: nat) {
    k <= 16 && Fits(first, last, k) && NoneFitAbove(first, last, k)
  }

  ghost predicate NoneFitAbove(first: int, last: int, k: nat) {
    forall j :: k < j <= 16 ==> !Fits(first, last, j)
  }

  /** The free bits of the largest aligned block that ends the range first..last. */
  ghost function LargestFit(first: int, last: int): (k: nat)
    requires first <= last
    ensures IsLargest(first, last, k)
  {
    LargestExists(first, last, 16);
    var k: nat :| IsLargest(first, last, k);
    k
  }

  lemma {:induction false} LargestExists(first: int, last: int, limit: nat)
    requires first <= last && limit <= 16
    requires forall j :: limit < j <= 16 ==> !Fits(first, last, j)
    ensures exists k: nat :: IsLargest(first, last, k)
    decreases limit
  {
    if Fits(first, last, limit) {
      assert IsLargest(first, last, limit);
    } else {
      assert limit > 0;
      LargestExists(first, last, limit - 1);
    }
  }

  ghost function Cover(first: nat, last: int): (bs: seq<BitRange>)
    requires -1 <= last < 0x1_0000
    decreases last - first + 1
  {
    if first > last then []
    else
      var k := LargestFit(first, last);
      Pow2Sixteen();
      Pow2Monotone(k, 16);
      Cover(first, last - Pow2(k)) + [BitRange(last + 1 - Pow2(k), 0x1_0000 - Pow2(k))]
  }

  // ---------------------------------------------------------------- blocks and the accepted ports

  /** A prefix-masked entry with an aligned value accepts a whole block; any other value accepts nothing. */
  lemma AcceptsBlock(b: BitRange, k: nat, p: uint16)
    requires HasFreeBits(b, k)
    ensures Accepts(b, p) <==> RoundDown(p, k) == b.value
    ensures Aligned(b.value, k) ==> (Accepts(b, p) <==> b.value <= p < b.value + Pow2(k))
    ensures Accepts(b, p) ==> Aligned(b.value, k) && b.value + Pow2(k) <= 0x1_0000
  {
    Pow2Sixteen();
    AndPrefixMask(p, 16, k);
    RoundDownBounds(p, k);
    RoundDownFits(p, k);
    if Aligned(b.value, k) {
      var v := RoundDown(p, k);
      if b.value < v {
        AlignedGap(b.value, v, k);
      } else if v < b.value {
        AlignedGap(v, b.value, k);
      }
    }
  }

  /**
    The key fact: a block inside first..last that reaches into the last block of the cover lies
    inside it, because the last block is the largest aligned one that ends at `last`.
   */
  lemma LastBlockAbsorbs(first: int, last: int, v: int, j: nat, p: int)
    requires first <= last && j <= 16
    requires Aligned(v, j) && first <= v && v + Pow2(j) - 1 <= last
    requires v <= p < v + Pow2(j)
    requires last + 1 - Pow2(LargestFit(first, last)) <= p
    ensures last + 1 - Pow2(LargestFit(first, last)) <= v
  {
    var k := LargestFit(first, last);
    var r := last + 1 - Pow2(k);
    if j <= k {
      AlignedWeaken(last + 1, j, k);
      Pow2Aligned(j, k);
      AlignedSum(last + 1, Pow2(k), j);
      if v < r {
        AlignedGap(v, r, j);
      }
    } else {
      LargerBlockFits(first, last, v, j, k, p);
    }
  }

  /** An aligned block that meets a smaller aligned block ending at `last`, and no port beyond it, ends there too. */
  lemma LargerBlockFits(first: int, last: int, v: int, j: nat, k: nat, p: int)
    requires k < j && Aligned(last + 1, k) && Aligned(v, j)
    requires first <= v && v + Pow2(j) - 1 <= last
    requires v <= p < v + Pow2(j) && last + 1 - Pow2(k) <= p
    ensures Fits(first, last, j)
  {
    AlignedWeaken(v, k, j);
    Pow2Aligned(k, j);
    AlignedSum(v, Pow2(j), k);
    Pow2Aligned(j, j);
    AlignedSum(v, Pow2(j), j);
    if v + Pow2(j) < last + 1 {
      AlignedGap(v + Pow2(j), last + 1, k);
    }
  }

  // ---------------------------------------------------------------- exact cover

  lemma {:induction false} CoverIsExact(first: nat, last: int)
    requires -1 <= last < 0x1_0000 && first <= last + 1
    ensures AllPrefixMasked(Cover(first, last))
    ensures Adjacent(Cover(first, last), first, last)
    ensures AcceptsExactly(Cover(first, last), first, last)
    ensures AcceptsOnce(Cover(first, last))
    decreases last - first + 1
  {
    if first <= last {
      var k := LargestFit(first, last);
      var rest, b := Cover(first, last - Pow2(k)), LastBlock(last, k);
      CoverIsExact(first, last - Pow2(k));
      assert Cover(first, last) == rest + [b];
      assert HasFreeBits(b, k);
      Pow2Aligned(k, k);
      AlignedSum(last + 1, Pow2(k), k);
      forall p: uint16
        ensures Accepts(b, p) <==> last + 1 - Pow2(k) <= p <= last
      {
        AcceptsBlock(b, k, p);
      }
      ExtendExact(rest, b, first, last - Pow2(k), last);
    }
  }

  ghost function LastBlock(last: int, k: nat): BitRange
    requires k <= 16 && Pow2(k) <= last + 1 <= 0x1_0000
  {
    BitRange(last + 1 - Pow2(k), 0x1_0000 - Pow2(k))
  }

  lemma ExtendExact(rest: seq<BitRange>, b: BitRange, first: int, mid: int, last: int)
    requires AcceptsExactly(rest, first, mid) && AcceptsOnce(rest) && first <= mid + 1 <= last + 1
    requires forall p: uint16 :: Accepts(b, p) <==> mid < p <= last
    ensures AcceptsExactly(rest + [b], first, last) && AcceptsOnce(rest + [b])
  {
    var bs := rest + [b];
    forall p: uint16 | AcceptedBySome(bs, p)
      ensures first <= p <= last
    {
      var i :| 0 <= i < |bs| && Accepts(bs[i], p);
      assert i < |rest| ==> AcceptedBySome(rest, p);
    }
    forall p: uint16 | first <= p <= last
      ensures AcceptedBySome(bs, p)
    {
      if p <= mid {
        assert AcceptedBySome(rest, p);
        var i :| 0 <= i < |rest| && Accepts(rest[i], p);
        assert Accepts(bs[i], p);
      } else {
        assert Accepts(bs[|rest|], p);
      }
    }
    forall p: uint16, i, j | 0 <= i < |bs| && 0 <= j < |bs| && Accepts(bs[i], p) && Accepts(bs[j], p)
      ensures i == j
    {
      assert i < |rest| ==> AcceptedBySome(rest, p);
      assert j < |rest| ==> AcceptedBySome(rest, p);
    }
  }

  /** An entry of an adjacent list that starts at port 1 or later cannot hold all ports, so its mask is not zero. */
  lemma EntryFits(bs: seq<BitRange>, first: int, last: int, i: int)
    requires 1 <= first <= last < 0x1_0000 && Adjacent(bs, first, last) && 0 <= i < |bs|
    ensures bs[i].mask != 0
  {
    var b := bs[i];
    EarlierValues(bs, first, last, i);
    if i + 1 < |bs| {
      var next := bs[i + 1];
      assert b.value + (0x1_0000 - b.mask) == next.value;
    }
  }

  lemma {:induction false} EarlierValues(bs: seq<BitRange>, first: int, last: int, i: int)
    requires Adjacent(bs, first, last) && 0 <= i < |bs|
    ensures bs[i].value >= first
    decreases i
  {
    if i > 0 {
      EarlierValues(bs, first, last, i - 1);
      var previous, b := bs[i - 1], bs[i];
      assert previous.value + (0x1_0000 - previous.mask) == b.value;
    }
  }

  // ---------------------------------------------------------------- minimality

  /** The entries of `bs` that accept no port from `bound` on, in order. */
  ghost function Below(bs: seq<BitRange>, bound: int): (r: seq<BitRange>)
    ensures |r| <= |bs|
    ensures forall b :: b in r <==> b in bs && !ReachesFrom(b, bound)
    ensures (exists b :: b in bs && ReachesFrom(b, bound)) ==> |r| < |bs|
  {
    if bs == [] then []
    else
      var tail := Below(bs[1..], bound);
      assert bs == [bs[0]] + bs[1..];
      if ReachesFrom(bs[0], bound) then tail else [bs[0]] + tail
  }

  ghost predicate ReachesFrom(b: BitRange, bound: int) {
    exists p: uint16 :: bound <= p && Accepts(b, p)
  }

  /** No list of prefix-masked entries that accepts exactly first..last is shorter than the cover. */
  lemma {:induction false} CoverIsMinimal(first: nat, last: int, other: seq<BitRange>)
    requires -1 <= last < 0x1_0000 && first <= last + 1
    requires AllPrefixMasked(other) && AcceptsExactly(other, first, last)
    ensures |Cover(first, last)| <= |other|
    decreases last - first + 1
  {
    if first <= last {
      var k := LargestFit(first, last);
      var bound := last + 1 - Pow2(k);
      var below := Below(other, bound);
      forall p: uint16
        ensures AcceptedBySome(below, p) <==> first <= p <= bound - 1
      {
        BelowAccepts(first, last, other, p);
      }
      assert AllPrefixMasked(below) by {
        forall i | 0 <= i < |below|
          ensures PrefixMasked(below[i])
        {
          assert below[i] in other;
        }
      }
      assert exists b :: b in other && ReachesFrom(b, bound) by {
        assert AcceptedBySome(other, last);
        var i :| 0 <= i < |other| && Accepts(other[i], last);
        assert other[i] in other && ReachesFrom(other[i], bound);
      }
      CoverIsMinimal(first, bound - 1, below);
    }
  }

  lemma BelowAccepts(first: nat, last: int, other: seq<BitRange>, p: uint16)
    requires first <= last < 0x1_0000
    requires AllPrefixMasked(other) && AcceptsExactly(other, first, last)
    ensures var bound := last + 1 - Pow2(LargestFit(first, last));
            AcceptedBySome(Below(other, bound), p) <==> first <= p <= bound - 1
  {
    var bound := last + 1 - Pow2(LargestFit(first, last));
    var below := Below(other, bound);
    if AcceptedBySome(below, p) {
      var i :| 0 <= i < |below| && Accepts(below[i], p);
      assert below[i] in other;
      var j :| 0 <= j < |other| && other[j] == below[i];
      assert AcceptedBySome(other, p);
    }
    if first <= p <= bound - 1 {
      assert AcceptedBySome(other, p);
      var i :| 0 <= i < |other| && Accepts(other[i], p);
      forall q: uint16 | bound <= q && Accepts(other[i], q)
        ensures false
      {
        BlockInside(first, last, other, i, p, q);
      }
      assert other[i] in below;
      var j :| 0 <= j < |below| && below[j] == other[i];
    }
  }

  /** An entry of an exact list that accepts a port of the last block accepts only ports of it. */
  lemma BlockInside(first: nat, last: int, other: seq<BitRange>, i: int, p: uint16, q: uint16)
    requires first <= last < 0x1_0000 && 0 <= i < |other|
    requires AllPrefixMasked(other) && AcceptsExactly(other, first, last)
    requires Accepts(other[i], p) && Accepts(other[i], q)
    requires last + 1 - Pow2(LargestFit(first, last)) <= q
    ensures last + 1 - Pow2(LargestFit(first, last)) <= p
  {
    var b := other[i];
    var k :| HasFreeBits(b, k);
    AcceptsBlock(b, k, p);
    AcceptsBlock(b, k, q);
    var v := b.value;
    AcceptsBlock(b, k, v);
    AcceptsBlock(b, k, v + Pow2(k) - 1);
    assert AcceptedBySome(other, v) && AcceptedBySome(other, v + Pow2(k) - 1);
    LastBlockAbsorbs(first, last, v, k, q);
  }

  /** Why minimality speaks of prefix masks: three other masks accept exactly the ports 1..6. */
  lemma ShorterWithOtherMasks()
    ensures var other := [BitRange(1, 0xfffd), BitRange(2, 0xfffb), BitRange(4, 0xfffe)];
            && AcceptsExactly(other, 1, 6)
            && |other| < |Cover(1, 6)|
  {
    var other := [BitRange(1, 0xfffd), BitRange(2, 0xfffb), BitRange(4, 0xfffe)];
    forall p: uint16
      ensures AcceptedBySome(other, p) <==> 1 <= p <= 6
    {
      LowBitsOf(p);
      assert Accepts(other[0], p) <==> p == 1 || p == 3;
      assert Accepts(other[1], p) <==> p == 2 || p == 6;
      assert Accepts(other[2], p) <==> p == 4 || p == 5;
    }
    CoverIsExact(1, 6);
    FourBlocks(Cover(1, 6));
  }

  lemma LowBitsOf(p: uint16)
    ensures And(p, 0xfffd) == p - 2 * (p / 2 % 2)
    ensures And(p, 0xfffb) == p - 4 * (p / 4 % 2)
    ensures And(p, 0xfffe) == p - p % 2
  {
    Pow2Sixteen();
    assert And(p, 2 * 0x7fff) == p - p % 2 by {
      AndAllOnes(p / 2, 15);
      AndEven(p, 0x7fff);
    }
    assert And(p / 2, 2 * 0x3fff) == p / 2 - p / 2 % 2 by {
      AndAllOnes(p / 2 / 2, 14);
      AndEven(p / 2, 0x3fff);
    }
    AndOdd(p, 0x7ffe);
    assert And(p / 2, 2 * 0x3ffe + 1) == p / 2 - 2 * (p / 4 % 2) by {
      AndAllOnes(p / 4 / 2, 13);
      AndEven(p / 4, 0x1fff);
      assert p / 2 / 2 == p / 4;
      AndOdd(p / 2, 0x3ffe);
    }
    AndOdd(p, 0x7ffd);
  }

  lemma FourBlocks(bs: seq<BitRange>)
    requires bs == Cover(1, 6)
    ensures |bs| == 4
  {
    assert Pow2(1) == 2 && Pow2(2) == 4;
    LargestIs(1, 6, 0);
    LargestIs(1, 5, 1);
    LargestIs(1, 3, 1);
    LargestIs(1, 1, 0);
    assert |Cover(1, 1)| == |Cover(1, 0)| + 1;
    assert |Cover(1, 3)| == |Cover(1, 1)| + 1;
    assert |Cover(1, 5)| == |Cover(1, 3)| + 1;
  }

  lemma LargestIs(first: int, last: int, k: nat)
    requires 1 <= first <= last <= 6 && k <= 2
    requires Fits(first, last, k) && !Fits(first, last, k + 1)
    ensures LargestFit(first, last) == k
  {
    var m := LargestFit(first, last);
    assert Pow2(1) == 2 && Pow2(2) == 4 && Pow2(3) == 8;
    if m >= k + 1 {
      AlignedWeaken(last + 1, k + 1, m);
      Pow2Monotone(k + 1, m);
    }
  }

  // ---------------------------------------------------------------- shape and size

  /** The number of free bits of each entry, read from the high end of the range. */
  ghost function Widths(first: nat, last: int): (ws: seq<nat>)
    requires -1 <= last < 0x1_0000
    decreases last - first + 1
  {
    if first > last then []
    else
      var k := LargestFit(first, last);
      [k] + Widths(first, last - Pow2(k))
  }

  lemma {:induction false} WidthsDescribeCover(first: nat, last: int)
    requires -1 <= last < 0x1_0000
    ensures var bs, ws := Cover(first, last), Widths(first, last);
            && |ws| == |bs|
            && forall i :: 0 <= i < |ws| ==> HasFreeBits(bs[|bs| - 1 - i], ws[i])
    decreases last - first + 1
  {
    if first <= last {
      var k := LargestFit(first, last);
      WidthsDescribeCover(first, last - Pow2(k));
      var bs, ws := Cover(first, last), Widths(first, last);
      forall i | 0 <= i < |ws|
        ensures HasFreeBits(bs[|bs| - 1 - i], ws[i])
      {
        if i > 0 {
          assert ws[i] == Widths(first, last - Pow2(k))[i - 1];
        }
      }
    }
  }

  ghost predicate StrictlyDecreasing(ws: seq<nat>) {
    forall i, j :: 0 <= i < j < |ws| ==> ws[i] > ws[j]
  }

  /** Strictly increasing up to index `peak`, then at most the same again, then strictly decreasing. */
  ghost predicate PeakedAt(ws: seq<nat>, peak: int) {
    && 0 <= peak < |ws|
    && (forall i, j :: 0 <= i < j <= peak ==> ws[i] < ws[j])
    && (forall i, j :: peak < i < j < |ws| ==> ws[i] > ws[j])
    && (forall i :: peak < i < |ws| ==> ws[i] <= ws[peak])
  }

  /** Once the remaining range is shorter than the alignment of its end, the widths only shrink. */
  lemma {:induction false} ShortRangeDecreases(first: nat, last: int, a: nat)
    requires -1 <= last < 0x1_0000 && first <= last + 1 && a <= 17
    requires Aligned(last + 1, a) && last - first + 1 < Pow2(a)
    ensures StrictlyDecreasing(Widths(first, last))
    ensures forall i :: 0 <= i < |Widths(first, last)| ==> Widths(first, last)[i] < a
    ensures |Widths(first, last)| <= a
    decreases last - first + 1
  {
    if first <= last {
      var k := LargestFit(first, last);
      if a <= k {
        Pow2Monotone(a, k);
      }
      assert k < a;
      if k + 1 < a {
        AlignedWeaken(last + 1, k + 1, a);
        assert !Fits(first, last, k + 1);
      }
      assert last - first + 1 < Pow2(k + 1);
      Pow2Aligned(k, k);
      AlignedSum(last + 1, Pow2(k), k);
      ShortRangeDecreases(first, last - Pow2(k), k);
    }
  }

  /** Reading from the high end, the block widths rise strictly, may repeat once and then fall strictly. */
  lemma {:induction false} WidthsArePeaked(first: nat, last: int) returns (peak: nat)
    requires 1 <= first <= last < 0x1_0000
    ensures PeakedAt(Widths(first, last), peak)
    decreases last - first + 1
  {
    var k := LargestFit(first, last);
    var rest := last - Pow2(k);
    var ws, tail := Widths(first, last), Widths(first, rest);
    assert ws == [k] + tail;
    if first > rest {
      return 0;
    }
    NextAlignment(first, last);
    if tail[0] > k {
      var p := WidthsArePeaked(first, rest);
      peak := p + 1;
      forall i, j | 0 <= i < j <= peak
        ensures ws[i] < ws[j]
      {
        if i == 0 && j > 1 {
          assert tail[0] < tail[j - 1];
        }
      }
    } else {
      peak := 0;
      TailDecreases(first, last, k, rest);
    }
  }

  /** After a block of width k is cut off, the end is aligned to 2^(k+1), unless the range is short. */
  lemma NextAlignment(first: nat, last: int)
    requires 1 <= first <= last < 0x1_0000
    ensures var k := LargestFit(first, last);
            && k <= 15
            && Aligned(last + 1 - Pow2(k), k)
            && (Aligned(last + 1 - Pow2(k), k + 1) || last - first + 1 - Pow2(k) < Pow2(k))
  {
    var k := LargestFit(first, last);
    Pow2Sixteen();
    Pow2Aligned(k, k);
    AlignedSum(last + 1, Pow2(k), k);
    if Aligned(last + 1, k + 1) {
      assert !Fits(first, last, k + 1);
    } else {
      OddMultiple(last + 1, k);
    }
  }

  lemma TailDecreases(first: nat, last: int, k: nat, rest: int)
    requires 1 <= first <= last < 0x1_0000
    requires k == LargestFit(first, last) && rest == last - Pow2(k)
    requires first <= rest && LargestFit(first, rest) <= k
    ensures StrictlyDecreasing(Widths(first, rest))
    ensures forall i :: 0 <= i < |Widths(first, rest)| ==> Widths(first, rest)[i] <= k
  {
    NextAlignment(first, last);
    if Aligned(rest + 1, k + 1) {
      assert !Fits(first, rest, k + 1);
      ShortRangeDecreases(first, rest, k + 1);
    } else {
      ShortRangeDecreases(first, rest, k);
    }
  }

  /** The only block of 2^15 ports without port 0 ends at 0xffff. */
  lemma BlockOf15(last: int)
    requires Aligned(last + 1, 15) && 0x8000 < last + 1
    ensures last + 1 >= 0x1_0000
  {
    Pow2Sixteen();
    Pow2Aligned(15, 15);
    AlignedGap(0x8000, last + 1, 15);
  }

  lemma WidthBelow15(first: nat, last: int)
    requires 1 <= first <= last < 0xffff
    ensures LargestFit(first, last) <= 14
  {
    var k := LargestFit(first, last);
    if k >= 15 {
      Pow2Sixteen();
      Pow2Monotone(15, k);
      AlignedWeaken(last + 1, 15, k);
      BlockOf15(last);
    }
  }

  lemma {:induction false} CountByAlignment(first: nat, last: int, j: nat)
    requires 1 <= first <= last + 1 <= 0xffff && j <= 15
    requires Aligned(last + 1, j)
    ensures |Widths(first, last)| <= 30 - j
    decreases last - first + 1
  {
    if last - first + 1 < Pow2(j) {
      ShortRangeDecreases(first, last, j);
    } else {
      assert Fits(first, last, j);
      var k := LargestFit(first, last);
      assert j <= k;
      WidthBelow15(first, last);
      NextAlignment(first, last);
      if Aligned(last + 1 - Pow2(k), k + 1) {
        CountByAlignment(first, last - Pow2(k), k + 1);
      } else {
        ShortRangeDecreases(first, last - Pow2(k), k);
      }
    }
  }

  /** No valid range needs more than 30 entries. */
  lemma CoverHasAtMost30(first: nat, last: int)
    requires 1 <= first <= last < 0x1_0000
    ensures 1 <= |Cover(first, last)| <= 30
  {
    WidthsDescribeCover(first, last);
    Pow2Sixteen();
    if last == 0xffff {
      Pow2Aligned(16, 16);
      ShortRangeDecreases(first, last, 16);
    } else {
      CountByAlignment(first, last, 0);
    }
  }

  // ---------------------------------------------------------------- steps of the method's proof

  lemma CoverMeetsContract(first: nat, last: int)
    requires 1 <= first <= last < 0x1_0000
    ensures MinimalExactCover(Cover(first, last), first, last)
  {
    CoverIsExact(first, last);
    CoverHasAtMost30(first, last);
    forall other | AllPrefixMasked(other) && AcceptsExactly(other, first, last)
      ensures |Cover(first, last)| <= |other|
    {
      CoverIsMinimal(first, last, other);
    }
  }

  lemma SinglePort(p: uint16)
    requires p > 0
    ensures Cover(p, p) == [BitRange(p, 0xffff)]
  {
    var k := LargestFit(p, p);
    Pow2Monotone(0, k);
    assert Cover(p, p - 1) == [];
  }

  lemma NoneFitFrom(first: int, last: int, k: nat)
    requires k > 0 && NoneFitAbove(first, last, k) && !Aligned(last + 1, k)
    ensures NoneFitAbove(first, last, k - 1)
  {
    assert !Fits(first, last, k);
  }

  lemma FewBits(first: int, last: int, bitLength: nat)
    requires 0 < last - first + 1 < 0x1_0000
    requires Pow2(bitLength) <= last - first + 1 < Pow2(bitLength + 1)
    ensures bitLength <= 15
    ensures NoneFitAbove(first, last, bitLength)
  {
    Pow2Sixteen();
    if bitLength >= 16 {
      Pow2Monotone(16, bitLength);
    }
    forall k | bitLength < k <= 16
      ensures !Fits(first, last, k)
    {
      Pow2Monotone(bitLength + 1, k);
    }
  }

  /** The block around `end` ends at `end` exactly when `end + 1` is aligned. */
  lemma EndsAligned(end: uint16, k: nat)
    ensures RoundDown(end, k) + Pow2(k) - 1 >= end
    ensures RoundDown(end, k) + Pow2(k) - 1 == end <==> Aligned(end + 1, k)
  {
    RoundDownBounds(end, k);
    Pow2Aligned(k, k);
    AlignedSum(RoundDown(end, k), Pow2(k), k);
    if Aligned(end + 1, k) && end + 1 < RoundDown(end, k) + Pow2(k) {
      AlignedGap(RoundDown(end, k), end + 1, k);
    }
  }

  lemma LargestIsUnique(first: int, last: int, k: nat)
    requires first <= last && IsLargest(first, last, k)
    ensures LargestFit(first, last) == k
  {
    assert Fits(first, last, k);
  }

  lemma CoverStep(first: nat, last: int, k: nat)
    requires first <= last < 0x1_0000 && IsLargest(first, last, k)
    ensures 0 <= last + 1 - Pow2(k) && 1 <= Pow2(k) <= 0x1_0000
    ensures Cover(first, last) ==
            Cover(first, last - Pow2(k)) + [BitRange(last + 1 - Pow2(k), GetMask(k))]
    ensures first == last + 1 - Pow2(k) ==> Cover(first, last - Pow2(k)) == []
  {
    hide GetMask;
    LargestIsUnique(first, last, k);
    MaskOfBits(k);
  }
}
