/** When the prefix cover of a port range is minimal among all lists of value/mask entries, whatever their masks. */
module AllMasks {
  import opened Bits
  import opened BitPositions
  import opened PortRanges

  // Let `s` be the port before the range and `e` the port after it, and compare their bits position
  // by position from the top. The answer depends on the positions at which `e` has a one and `s` a
  // zero, counted up to the first position at which it is the other way round.

  // ---------------------------------------------------------------- the columns of s and e

  predicate Up(s: nat, e: nat, k: nat) {
    !Bit(s, k) && Bit(e, k)
  }

  predicate Down(s: nat, e: nat, k: nat) {
    Bit(s, k) && !Bit(e, k)
  }

  /** The ups among the low `n` positions, read from the top to the first down. */
  function Ups(s: nat, e: nat, n: nat): nat {
    if n == 0 || Down(s, e, n - 1) then 0
    else (if Up(s, e, n - 1) then 1 else 0) + Ups(s, e, n - 1)
  }

  /** The ports strictly between `s` and `e`, which first differ at position `top`. */
  ghost predicate SplitAt(s: nat, e: nat, top: nat) {
    && s < 0x1_0000 && e <= 0x1_0000 && top <= 16
    && Up(s, e, top)
    && forall k: nat :: k > top ==> (Bit(s, k) <==> Bit(e, k))
  }

  lemma SmallBits(s: nat, k: nat)
    requires s < 0x1_0000 && Bit(s, k)
    ensures k < 16
  {
    Pow2Sixteen();
    if k >= 16 {
      HighBits(s, 16, k);
    }
  }

  /** If the split is at position 16, `e` is 2^16 and has no other one. */
  lemma EndBits(s: nat, e: nat, top: nat, k: nat)
    requires SplitAt(s, e, top) && Bit(e, k) && k < top
    ensures top < 16
  {
    Pow2Sixteen();
    if top == 16 {
      PowBits(16, k);
      forall i: nat | i > k && Bit(0x1_0000, i)
        ensures Bit(e, i)
      {
        PowBits(16, i);
      }
      LessAt(0x1_0000, e, k);
    }
  }

  lemma {:induction false} OneUp(s: nat, e: nat, n: nat, v: nat) returns (k: nat)
    requires v < n && Up(s, e, v) && Ups(s, e, n) == 0
    ensures v < k < n && Down(s, e, k)
    decreases n
  {
    if Down(s, e, n - 1) {
      k := n - 1;
    } else {
      k := OneUp(s, e, n - 1, v);
    }
  }

  /** Of two ups that are not both counted, the lower one has a down above it. */
  lemma {:induction false} TwoUps(s: nat, e: nat, n: nat, u: nat, v: nat) returns (k: nat)
    requires v < u < n && Up(s, e, u) && Up(s, e, v) && Ups(s, e, n) <= 1
    ensures v < k < n && Down(s, e, k)
    decreases n
  {
    if Down(s, e, n - 1) {
      k := n - 1;
    } else if Up(s, e, n - 1) {
      k := OneUp(s, e, n - 1, v);
    } else {
      k := TwoUps(s, e, n - 1, u, v);
    }
  }

  /** The next up that counts: above it the columns agree. */
  lemma {:induction false} NextUp(s: nat, e: nat, n: nat) returns (t: nat)
    requires Ups(s, e, n) > 0
    ensures t < n && Up(s, e, t) && Ups(s, e, n) == 1 + Ups(s, e, t)
    ensures forall k :: t < k < n ==> (Bit(s, k) <==> Bit(e, k))
    decreases n
  {
    if Up(s, e, n - 1) {
      t := n - 1;
    } else {
      t := NextUp(s, e, n - 1);
    }
  }

  lemma {:induction false} AgreeingColumns(s: nat, e: nat, top: nat, n: nat)
    requires top < n && Up(s, e, top)
    requires forall k :: top < k < n ==> (Bit(s, k) <==> Bit(e, k))
    ensures Ups(s, e, n) == 1 + Ups(s, e, top)
    decreases n
  {
    if top < n - 1 {
      AgreeingColumns(s, e, top, n - 1);
    }
  }

  // ---------------------------------------------------------------- slots

  /**
    A zero of `s` or a one of `e` below the split. Each stands for one entry of the cover: the ports that
    leave `s` upwards at that position, or `e` downwards.
   */
  datatype Slot = Left(k: nat) | Right(k: nat)

  ghost predicate IsSlot(s: nat, e: nat, n: nat, x: Slot) {
    x.k < n && if x.Left? then !Bit(s, x.k) else Bit(e, x.k)
  }

  function Slots(s: nat, e: nat, n: nat): seq<Slot> {
    if n == 0 then []
    else
      Slots(s, e, n - 1)
      + (if Bit(s, n - 1) then [] else [Left(n - 1)])
      + (if Bit(e, n - 1) then [Right(n - 1)] else [])
  }

  ghost predicate Distinct(xs: seq<Slot>) {
    forall i, j :: 0 <= i < j < |xs| ==> xs[i] != xs[j]
  }

  lemma {:induction false} SlotsMeaning(s: nat, e: nat, n: nat)
    ensures forall x :: x in Slots(s, e, n) <==> IsSlot(s, e, n, x)
    ensures Distinct(Slots(s, e, n))
  {
    if n > 0 {
      SlotsMeaning(s, e, n - 1);
      var front := Slots(s, e, n - 1);
      assert forall i :: 0 <= i < |front| ==> front[i] in front;
      forall x
        ensures x in Slots(s, e, n) <==> IsSlot(s, e, n, x)
      {
        assert x in front <==> IsSlot(s, e, n - 1, x);
      }
    }
  }

  // ---------------------------------------------------------------- entries and their ports, bit by bit

  /** The entry and the port agree in the bits of the mask, and the value has no others. */
  ghost predicate Agree(b: BitRange, p: uint16) {
    forall k: nat :: Bit(p, k) && Bit(b.mask, k) <==> Bit(b.value, k)
  }

  lemma AcceptsBits(b: BitRange, p: uint16)
    ensures Accepts(b, p) <==> Agree(b, p)
  {
    forall k: nat
      ensures Bit(And(p, b.mask), k) <==> Bit(p, k) && Bit(b.mask, k)
    {
      AndBits(p, b.mask, k);
    }
    if Accepts(b, p) {
      assert forall k: nat :: Bit(b.value, k) <==> Bit(And(p, b.mask), k);
    }
    if Agree(b, p) {
      SameBits(And(p, b.mask), b.value);
    }
  }

  lemma MaskBits(b: BitRange, free: nat)
    requires HasFreeBits(b, free)
    ensures forall k: nat :: Bit(b.mask, k) <==> free <= k < 16
  {
    hide Pow2;
    Pow2Sixteen();
    forall k: nat
      ensures Bit(b.mask, k) <==> free <= k < 16
    {
      PrefixBits(16, free, k);
    }
  }

  ghost predicate AgreeFrom(b: BitRange, free: nat, p: uint16) {
    && (forall k: nat :: free <= k < 16 ==> (Bit(p, k) <==> Bit(b.value, k)))
    && (forall k: nat :: Bit(b.value, k) ==> free <= k < 16)
  }

  /** A prefix-masked entry compares the high bits. */
  lemma PrefixAccepts(b: BitRange, free: nat, p: uint16)
    requires HasFreeBits(b, free)
    ensures Accepts(b, p) <==> AgreeFrom(b, free, p)
  {
    hide Accepts;
    AcceptsBits(b, p);
    MaskBits(b, free);
    if Agree(b, p) {
      assert AgreeFrom(b, free, p);
    }
    if AgreeFrom(b, free, p) {
      assert Agree(b, p);
    }
  }

  /** An entry that accepts two ports accepts their conjunction and their disjunction. */
  lemma AcceptsBetween(b: BitRange, x: uint16, y: uint16)
    requires Accepts(b, x) && Accepts(b, y)
    ensures And(x, y) < 0x1_0000 && Accepts(b, And(x, y))
    ensures Or(x, y) < 0x1_0000 && Accepts(b, Or(x, y))
  {
    Pow2Sixteen();
    AndAtMost(x, y);
    OrBelow(x, y, 16);
    AcceptsBits(b, x);
    AcceptsBits(b, y);
    forall k: nat
      ensures (Bit(And(x, y), k) && Bit(b.mask, k)) <==> Bit(b.value, k)
      ensures (Bit(Or(x, y), k) && Bit(b.mask, k)) <==> Bit(b.value, k)
    {
      AndBits(x, y, k);
      OrBits(x, y, k);
    }
    AcceptsBits(b, And(x, y));
    AcceptsBits(b, Or(x, y));
  }

  // ---------------------------------------------------------------- lower bounds

  /** The port that stands for a slot: `s` with the bit set, or `e` with the bit cleared. */
  function Point(s: nat, e: nat, x: Slot): (p: uint16)
    ensures forall k: nat :: Bit(p, k) <==>
              k < 16 && if x.Left? then k == x.k || Bit(s, k) else k != x.k && Bit(e, k)
  {
    match x
    case Left(z) => Number((k: nat) => k == z || Bit(s, k))
    case Right(j) => Number((k: nat) => k != j && Bit(e, k))
  }

  lemma PointInside(s: nat, e: nat, top: nat, x: Slot)
    requires SplitAt(s, e, top) && IsSlot(s, e, top, x)
    ensures s < Point(s, e, x) < e
  {
    var p := Point(s, e, x);
    forall k: nat | Bit(s, k)
      ensures k < 16
    {
      SmallBits(s, k);
    }
    if x.Left? {
      LessAt(s, p, x.k);
      LessAt(p, e, top);
    } else {
      EndBits(s, e, top, x.k);
      LessAt(s, p, top);
      LessAt(p, e, x.k);
    }
  }

  /** Two ports whose conjunction or disjunction leaves the range cannot share an entry. */
  ghost predicate Apart(s: nat, e: nat, p: uint16, q: uint16) {
    And(p, q) <= s || Or(p, q) >= e
  }

  lemma LeftsApart(s: nat, e: nat, y: nat, z: nat)
    requires y != z && y < 16 && z < 16 && s < 0x1_0000
    ensures Apart(s, e, Point(s, e, Left(y)), Point(s, e, Left(z)))
  {
    var p, q := Point(s, e, Left(y)), Point(s, e, Left(z));
    forall k: nat | Bit(And(p, q), k)
      ensures Bit(s, k)
    {
      AndBits(p, q, k);
    }
    SubsetAtMost(And(p, q), s);
  }

  lemma RightsApart(s: nat, e: nat, i: nat, j: nat)
    requires i != j && forall k: nat :: Bit(e, k) ==> k < 16
    ensures Apart(s, e, Point(s, e, Right(i)), Point(s, e, Right(j)))
  {
    var p, q := Point(s, e, Right(i)), Point(s, e, Right(j));
    forall k: nat | Bit(e, k)
      ensures Bit(Or(p, q), k)
    {
      OrBits(p, q, k);
    }
    SubsetAtMost(e, Or(p, q));
  }

  lemma SameSideApart(s: nat, e: nat, top: nat, x: Slot, y: Slot)
    requires SplitAt(s, e, top) && IsSlot(s, e, top, x) && IsSlot(s, e, top, y)
    requires x != y && (x.Left? <==> y.Left?)
    ensures Apart(s, e, Point(s, e, x), Point(s, e, y))
  {
    hide Apart, Point;
    if x.Left? {
      LeftsApart(s, e, x.k, y.k);
    } else {
      SixteenBits(s, e, top, x, 0);
      RightsApart(s, e, x.k, y.k);
    }
  }

  /** With at most one up below the split, a left and a right slot are apart too. */
  lemma SidesApart(s: nat, e: nat, top: nat, z: nat, j: nat)
    requires SplitAt(s, e, top) && Ups(s, e, top) <= 1
    requires IsSlot(s, e, top, Left(z)) && IsSlot(s, e, top, Right(j))
    ensures Apart(s, e, Point(s, e, Left(z)), Point(s, e, Right(j)))
  {
    var p, q := Point(s, e, Left(z)), Point(s, e, Right(j));
    EndBits(s, e, top, j);
    forall k: nat
      ensures Bit(And(p, q), k) <==> Bit(p, k) && Bit(q, k)
      ensures Bit(Or(p, q), k) <==> Bit(p, k) || Bit(q, k)
    {
      AndBits(p, q, k);
      OrBits(p, q, k);
    }
    forall k: nat | Bit(e, k)
      ensures k < 16
    {
      if k > top {
        SmallBits(s, k);
      }
    }
    forall k: nat | Bit(s, k)
      ensures k < 16
    {
      SmallBits(s, k);
    }
    if z == j || !Bit(e, z) {
      SubsetAtMost(And(p, q), s);
    } else if Bit(s, j) {
      SubsetAtMost(e, Or(p, q));
    } else if z < j {
      var k := TwoUps(s, e, top, j, z);
      LessAt(And(p, q), s, k);
    } else {
      var k := TwoUps(s, e, top, z, j);
      LessAt(e, Or(p, q), k);
    }
  }

  /** A prefix-masked entry that accepts ports on both sides of the split accepts `s`. */
  lemma PrefixSidesApart(s: nat, e: nat, top: nat, z: nat, j: nat, b: BitRange)
    requires SplitAt(s, e, top) && IsSlot(s, e, top, Left(z)) && IsSlot(s, e, top, Right(j))
    requires PrefixMasked(b) && Accepts(b, Point(s, e, Left(z))) && Accepts(b, Point(s, e, Right(j)))
    ensures Accepts(b, s)
  {
    var p, q := Point(s, e, Left(z)), Point(s, e, Right(j));
    EndBits(s, e, top, j);
    var free :| HasFreeBits(b, free);
    PrefixAccepts(b, free, p);
    PrefixAccepts(b, free, q);
    PrefixAccepts(b, free, s);
    assert !Bit(p, top) && Bit(q, top);
    assert forall k: nat :: top < k < 16 ==> (Bit(p, k) <==> Bit(s, k));
  }

  /** Slots whose ports are accepted, no two by the same entry, are no more than the entries. */
  lemma {:induction false} Pigeonhole(s: nat, e: nat, xs: seq<Slot>, bs: seq<BitRange>)
    requires Distinct(xs)
    requires forall x :: x in xs ==> AcceptedBySome(bs, Point(s, e, x))
    requires forall b, x, y :: b in bs && x in xs && y in xs && x != y ==>
               !(Accepts(b, Point(s, e, x)) && Accepts(b, Point(s, e, y)))
    ensures |xs| <= |bs|
    decreases |xs|
  {
    hide Accepts, Point;
    if xs != [] {
      var n := |xs| - 1;
      var last := xs[n];
      assert last in xs;
      var i :| 0 <= i < |bs| && Accepts(bs[i], Point(s, e, last));
      var rest := bs[..i] + bs[i + 1..];
      forall x | x in xs[..n]
        ensures AcceptedBySome(rest, Point(s, e, x))
      {
        var j :| 0 <= j < |bs| && Accepts(bs[j], Point(s, e, x));
        var at :| 0 <= at < n && xs[..n][at] == x;
        assert xs[at] != last && bs[i] in bs;
        assert j != i;
        assert rest[if j < i then j else j - 1] == bs[j];
      }
      forall b | b in rest
        ensures b in bs
      {
      }
      Pigeonhole(s, e, xs[..n], rest);
    }
  }

  lemma PointsAccepted(s: nat, e: nat, top: nat, bs: seq<BitRange>, x: Slot)
    requires SplitAt(s, e, top) && AcceptsExactly(bs, s + 1, e - 1) && IsSlot(s, e, top, x)
    ensures AcceptedBySome(bs, Point(s, e, x))
  {
    PointInside(s, e, top, x);
  }

  /** Ports that are apart share no entry of a list that accepts exactly the range. */
  lemma ApartMeans(s: nat, e: nat, bs: seq<BitRange>, b: BitRange, p: uint16, q: uint16)
    requires AcceptsExactly(bs, s + 1, e - 1) && b in bs && Apart(s, e, p, q)
    ensures !(Accepts(b, p) && Accepts(b, q))
  {
    if Accepts(b, p) && Accepts(b, q) {
      AcceptsBetween(b, p, q);
      EntryInside(s, e, bs, b, And(p, q));
      EntryInside(s, e, bs, b, Or(p, q));
    }
  }

  lemma EntryInside(s: nat, e: nat, bs: seq<BitRange>, b: BitRange, p: uint16)
    requires AcceptsExactly(bs, s + 1, e - 1) && b in bs && Accepts(b, p)
    ensures s < p < e
  {
    var i :| 0 <= i < |bs| && bs[i] == b;
    assert AcceptedBySome(bs, p);
  }

  /** With at most one up below the split, every list needs as many entries as there are slots. */
  lemma AnyListHasSlots(s: nat, e: nat, top: nat, bs: seq<BitRange>)
    requires SplitAt(s, e, top) && Ups(s, e, top) <= 1 && AcceptsExactly(bs, s + 1, e - 1)
    ensures |Slots(s, e, top)| <= |bs|
  {
    hide Point, Ups, AcceptsExactly, SplitAt;
    var xs := Slots(s, e, top);
    SlotsMeaning(s, e, top);
    forall x | x in xs
      ensures AcceptedBySome(bs, Point(s, e, x))
    {
      PointsAccepted(s, e, top, bs, x);
    }
    forall b, x, y | b in bs && x in xs && y in xs && x != y
      ensures !(Accepts(b, Point(s, e, x)) && Accepts(b, Point(s, e, y)))
    {
      if x.Left? <==> y.Left? {
        SameSideApart(s, e, top, x, y);
        ApartMeans(s, e, bs, b, Point(s, e, x), Point(s, e, y));
      } else if x.Left? {
        SidesApart(s, e, top, x.k, y.k);
        ApartMeans(s, e, bs, b, Point(s, e, x), Point(s, e, y));
      } else {
        SidesApart(s, e, top, y.k, x.k);
        ApartMeans(s, e, bs, b, Point(s, e, y), Point(s, e, x));
      }
    }
    Pigeonhole(s, e, xs, bs);
  }

  /** Every list of prefix-masked entries needs as many entries as there are slots. */
  lemma PrefixListHasSlots(s: nat, e: nat, top: nat, bs: seq<BitRange>)
    requires SplitAt(s, e, top) && AllPrefixMasked(bs) && AcceptsExactly(bs, s + 1, e - 1)
    ensures |Slots(s, e, top)| <= |bs|
  {
    hide Point, AcceptsExactly;
    var xs := Slots(s, e, top);
    SlotsMeaning(s, e, top);
    forall x | x in xs
      ensures AcceptedBySome(bs, Point(s, e, x))
    {
      PointsAccepted(s, e, top, bs, x);
    }
    forall b, x, y | b in bs && x in xs && y in xs && x != y
      ensures !(Accepts(b, Point(s, e, x)) && Accepts(b, Point(s, e, y)))
    {
      if x.Left? <==> y.Left? {
        SameSideApart(s, e, top, x, y);
        ApartMeans(s, e, bs, b, Point(s, e, x), Point(s, e, y));
      } else {
        var z, j := if x.Left? then x.k else y.k, if x.Left? then y.k else x.k;
        if Accepts(b, Point(s, e, Left(z))) && Accepts(b, Point(s, e, Right(j))) {
          PrefixSidesApart(s, e, top, z, j, b);
          EntryInside(s, e, bs, b, s);
        }
      }
    }
    Pigeonhole(s, e, xs, bs);
  }

  // ---------------------------------------------------------------- where a port leaves s or e

  /** `p` agrees with `s` above the slot and exceeds it there, or agrees with `e` and stays below it there. */
  ghost predicate Leaves(s: nat, e: nat, x: Slot, p: uint16) {
    if x.Left? then Bit(p, x.k) && forall k: nat :: k > x.k ==> (Bit(p, k) <==> Bit(s, k))
    else !Bit(p, x.k) && forall k: nat :: k > x.k ==> (Bit(p, k) <==> Bit(e, k))
  }

  lemma AboveSplit(s: nat, e: nat, top: nat, k: nat)
    requires SplitAt(s, e, top)
    ensures k > top ==> (Bit(s, k) <==> Bit(e, k))
  {
  }

  /** Every port of the range leaves `s` or `e` at some slot. */
  lemma FindSlot(s: nat, e: nat, top: nat, p: uint16) returns (x: Slot)
    requires SplitAt(s, e, top) && s < p < e
    ensures IsSlot(s, e, top, x) && Leaves(s, e, x, p)
  {
    var a := TopDifference(s, p);
    var b := TopDifference(p, e);
    AboveSplit(s, e, top, a);
    AboveSplit(s, e, top, b);
    x := if a < top then Left(a) else Right(b);
  }

  lemma LeavesInside(s: nat, e: nat, top: nat, x: Slot, p: uint16)
    requires SplitAt(s, e, top) && IsSlot(s, e, top, x) && Leaves(s, e, x, p)
    ensures s < p < e
  {
    if x.Left? {
      LessAt(s, p, x.k);
      LessAt(p, e, top);
    } else {
      LessAt(s, p, top);
      LessAt(p, e, x.k);
    }
  }

  /** Above the range of 16 bits there is nothing to compare. */
  lemma SixteenBits(s: nat, e: nat, top: nat, x: Slot, p: uint16)
    requires SplitAt(s, e, top) && IsSlot(s, e, top, x)
    ensures forall k: nat :: Bit(s, k) || Bit(p, k) ==> k < 16
    ensures x.Right? ==> top < 16 && forall k: nat :: Bit(e, k) ==> k < 16
  {
    forall k: nat | Bit(s, k) || Bit(p, k)
      ensures k < 16
    {
      SmallBits(if Bit(s, k) then s else p, k);
    }
    if x.Right? {
      EndBits(s, e, top, x.k);
      forall k: nat | Bit(e, k)
        ensures k < 16
      {
        assert k > top ==> Bit(s, k);
      }
    }
  }

  // ---------------------------------------------------------------- the prefix blocks of the slots

  /** The block of the ports that leave at a slot. */
  ghost function Block(s: nat, e: nat, x: Slot): (b: BitRange)
    requires x.k < 16
    ensures HasFreeBits(b, x.k)
    ensures forall k: nat :: Bit(b.value, k) <==>
              k < 16 && if x.Left? then k == x.k || (k > x.k && Bit(s, k)) else k > x.k && Bit(e, k)
  {
    Pow2Sixteen();
    Pow2Monotone(x.k, 16);
    var value :=
      match x {
        case Left(z) => Number((k: nat) => k == z || (k > z && Bit(s, k)))
        case Right(j) => Number((k: nat) => k > j && Bit(e, k))
      };
    BitRange(value, 0x1_0000 - Pow2(x.k))
  }

  lemma SlotBelow16(s: nat, e: nat, top: nat, x: Slot)
    requires SplitAt(s, e, top) && IsSlot(s, e, top, x)
    ensures x.k < 16
  {
  }

  lemma BlockAccepts(s: nat, e: nat, top: nat, x: Slot, p: uint16)
    requires SplitAt(s, e, top) && IsSlot(s, e, top, x)
    ensures x.k < 16 && (Accepts(Block(s, e, x), p) <==> Leaves(s, e, x, p))
  {
    hide Block, SplitAt, HasFreeBits, Accepts;
    SixteenBits(s, e, top, x, p);
    SlotBelow16(s, e, top, x);
    PrefixAccepts(Block(s, e, x), x.k, p);
  }

  ghost function Blocks(s: nat, e: nat, xs: seq<Slot>): (bs: seq<BitRange>)
    requires forall x :: x in xs ==> x.k < 16
    ensures |bs| == |xs| && forall i :: 0 <= i < |xs| ==> bs[i] == Block(s, e, xs[i])
  {
    seq(|xs|, i requires 0 <= i < |xs| => assert xs[i] in xs; Block(s, e, xs[i]))
  }

  /** One prefix-masked entry for each slot accepts exactly the range. */
  lemma BlocksAreExact(s: nat, e: nat, top: nat) returns (bs: seq<BitRange>)
    requires SplitAt(s, e, top)
    ensures AllPrefixMasked(bs) && AcceptsExactly(bs, s + 1, e - 1) && |bs| == |Slots(s, e, top)|
  {
    hide Accepts, Leaves, SplitAt, Block, IsSlot, Slots, HasFreeBits;
    var xs := Slots(s, e, top);
    SlotsMeaning(s, e, top);
    forall x | x in xs
      ensures x.k < 16
    {
      BlockAccepts(s, e, top, x, 0);
    }
    bs := Blocks(s, e, xs);
    forall i | 0 <= i < |bs|
      ensures PrefixMasked(bs[i])
    {
      assert xs[i] in xs && HasFreeBits(bs[i], xs[i].k);
    }
    forall p: uint16 | AcceptedBySome(bs, p)
      ensures s + 1 <= p <= e - 1
    {
      var i :| 0 <= i < |bs| && Accepts(bs[i], p);
      assert xs[i] in xs;
      BlockAccepts(s, e, top, xs[i], p);
      LeavesInside(s, e, top, xs[i], p);
    }
    forall p: uint16 | s + 1 <= p <= e - 1
      ensures AcceptedBySome(bs, p)
    {
      var x := FindSlot(s, e, top, p);
      BlockAccepts(s, e, top, x, p);
      var i :| 0 <= i < |xs| && xs[i] == x;
      assert Accepts(bs[i], p);
    }
  }

  // ---------------------------------------------------------------- a shorter list

  /**
    Two ups below the split, with agreeing columns between them and no down above the lower one. The
    entries of the right slots from `lo` up to below `hi` can then reach across the split, and the left
    slot `hi` is not needed.
   */
  ghost predicate TwoSteps(s: nat, e: nat, top: nat, hi: nat, lo: nat) {
    && SplitAt(s, e, top) && lo < hi < top && Up(s, e, hi) && Up(s, e, lo)
    && (forall k: nat :: lo < k < hi ==> (Bit(s, k) <==> Bit(e, k)))
    && (forall k: nat :: hi < k < top ==> (Bit(s, k) <==> Bit(e, k)))
  }

  predicate Across(x: Slot, hi: nat, lo: nat) {
    x.Right? && lo <= x.k < hi
  }

  /** The ports that the wide entry of a slot accepts. */
  ghost predicate WideFits(s: nat, e: nat, top: nat, hi: nat, lo: nat, x: Slot, p: uint16) {
    if x.Left? then
      && Bit(p, x.k)
      && (forall k: nat :: k >= top ==> (Bit(p, k) <==> Bit(s, k)))
      && (forall k: nat :: x.k < k < top && Bit(s, k) ==> Bit(p, k))
    else if Across(x, hi, lo) then
      && Bit(p, hi) && !Bit(p, x.k)
      && (forall k: nat :: k > top ==> (Bit(p, k) <==> Bit(s, k)))
      && (forall k: nat :: hi < k < top && Bit(s, k) ==> Bit(p, k))
      && (forall k: nat :: x.k < k < top && !Bit(e, k) ==> !Bit(p, k))
    else
      && !Bit(p, x.k)
      && (forall k: nat :: k >= top ==> (Bit(p, k) <==> Bit(e, k)))
      && (forall k: nat :: x.k < k < top && !Bit(e, k) ==> !Bit(p, k))
  }

  ghost predicate InMask(s: nat, e: nat, top: nat, hi: nat, lo: nat, x: Slot, k: nat) {
    if x.Left? then k >= top || k == x.k || (x.k < k < top && Bit(s, k))
    else if Across(x, hi, lo) then
      k > top || k == hi || (hi < k < top && Bit(s, k)) || k == x.k || (x.k < k < top && !Bit(e, k))
    else k >= top || k == x.k || (x.k < k < top && !Bit(e, k))
  }

  ghost predicate InValue(s: nat, e: nat, top: nat, hi: nat, lo: nat, x: Slot, k: nat) {
    if x.Left? then k == x.k || (k > x.k && Bit(s, k))
    else if Across(x, hi, lo) then k == hi || (k > hi && Bit(s, k))
    else k >= top && Bit(e, k)
  }

  ghost function Wide(s: nat, e: nat, top: nat, hi: nat, lo: nat, x: Slot): (b: BitRange)
    ensures forall k: nat :: Bit(b.mask, k) <==> k < 16 && InMask(s, e, top, hi, lo, x, k)
    ensures forall k: nat :: Bit(b.value, k) <==> k < 16 && InValue(s, e, top, hi, lo, x, k)
  {
    BitRange(Number((k: nat) => InValue(s, e, top, hi, lo, x, k)), Number((k: nat) => InMask(s, e, top, hi, lo, x, k)))
  }

  lemma WideAccepts(s: nat, e: nat, top: nat, hi: nat, lo: nat, x: Slot, p: uint16)
    requires TwoSteps(s, e, top, hi, lo) && IsSlot(s, e, top, x)
    ensures Accepts(Wide(s, e, top, hi, lo, x), p) <==> WideFits(s, e, top, hi, lo, x, p)
  {
    hide Accepts, InMask, InValue, WideFits, Wide, IsSlot;
    var b := Wide(s, e, top, hi, lo, x);
    AcceptsBits(b, p);
    if Agree(b, p) {
      AgreeFits(s, e, top, hi, lo, x, p);
    }
    if WideFits(s, e, top, hi, lo, x, p) {
      FitsAgree(s, e, top, hi, lo, x, p);
    }
  }

  lemma AgreeFits(s: nat, e: nat, top: nat, hi: nat, lo: nat, x: Slot, p: uint16)
    requires TwoSteps(s, e, top, hi, lo) && IsSlot(s, e, top, x) && Agree(Wide(s, e, top, hi, lo, x), p)
    ensures WideFits(s, e, top, hi, lo, x, p)
  {
    hide Wide, Agree;
    SixteenBits(s, e, top, x, p);
    SixteenBits(s, e, top, Right(hi), p);
    forall k: nat
      ensures k < 16 && InMask(s, e, top, hi, lo, x, k) ==> (Bit(p, k) <==> InValue(s, e, top, hi, lo, x, k))
    {
      AgreesAt(s, e, top, hi, lo, x, p, k);
    }
  }

  lemma AgreesAt(s: nat, e: nat, top: nat, hi: nat, lo: nat, x: Slot, p: uint16, k: nat)
    requires Agree(Wide(s, e, top, hi, lo, x), p)
    ensures k < 16 && InMask(s, e, top, hi, lo, x, k) ==> (Bit(p, k) <==> InValue(s, e, top, hi, lo, x, k))
  {
    hide InMask, InValue;
    var b := Wide(s, e, top, hi, lo, x);
    assert Bit(p, k) && Bit(b.mask, k) <==> Bit(b.value, k);
  }

  lemma FitsAgree(s: nat, e: nat, top: nat, hi: nat, lo: nat, x: Slot, p: uint16)
    requires TwoSteps(s, e, top, hi, lo) && IsSlot(s, e, top, x) && WideFits(s, e, top, hi, lo, x, p)
    ensures Agree(Wide(s, e, top, hi, lo, x), p)
  {
    hide Wide;
    SixteenBits(s, e, top, x, p);
    SixteenBits(s, e, top, Right(hi), p);
    var b := Wide(s, e, top, hi, lo, x);
    forall k: nat
      ensures Bit(p, k) && Bit(b.mask, k) <==> Bit(b.value, k)
    {
      assert InValue(s, e, top, hi, lo, x, k) ==> InMask(s, e, top, hi, lo, x, k);
    }
  }

  lemma FitsInside(s: nat, e: nat, top: nat, hi: nat, lo: nat, x: Slot, p: uint16)
    requires TwoSteps(s, e, top, hi, lo) && IsSlot(s, e, top, x) && WideFits(s, e, top, hi, lo, x, p)
    ensures s < p < e
  {
    if x.Left? {
      LessAt(s, p, x.k);
      LessAt(p, e, top);
    } else if Across(x, hi, lo) {
      LessAt(s, p, hi);
      LessAt(p, e, x.k);
    } else {
      LessAt(s, p, top);
      LessAt(p, e, x.k);
    }
  }

  /** The highest position below `hi`, and not below `lo`, at which `p` differs from `s`; `lo` if there is none. */
  lemma {:induction false} NextChange(s: nat, p: nat, hi: nat, lo: nat) returns (t: nat)
    requires lo < hi
    ensures lo <= t < hi && (t == lo || (Bit(p, t) <==> !Bit(s, t)))
    ensures forall k: nat :: t < k < hi ==> (Bit(p, k) <==> Bit(s, k))
    decreases hi
  {
    if hi - 1 == lo || (Bit(p, hi - 1) <==> !Bit(s, hi - 1)) {
      t := hi - 1;
    } else {
      t := NextChange(s, p, hi - 1, lo);
    }
  }

  /** Every port of the range fits a slot other than the left slot `hi`. */
  lemma FitsSome(s: nat, e: nat, top: nat, hi: nat, lo: nat, p: uint16) returns (x: Slot)
    requires TwoSteps(s, e, top, hi, lo) && s < p < e
    ensures x != Left(hi) && IsSlot(s, e, top, x) && WideFits(s, e, top, hi, lo, x, p)
  {
    x := FindSlot(s, e, top, p);
    if x == Left(hi) {
      var t := NextChange(s, p, hi, lo);
      x := if Bit(p, t) then Left(t) else Right(t);
    }
  }

  ghost function Wides(s: nat, e: nat, top: nat, hi: nat, lo: nat, xs: seq<Slot>): (bs: seq<BitRange>)
    ensures |bs| == |xs| && forall i :: 0 <= i < |xs| ==> bs[i] == Wide(s, e, top, hi, lo, xs[i])
  {
    seq(|xs|, i requires 0 <= i < |xs| => Wide(s, e, top, hi, lo, xs[i]))
  }

  /** One entry for each slot but one accepts exactly the range. */
  lemma ShorterList(s: nat, e: nat, top: nat, hi: nat, lo: nat) returns (bs: seq<BitRange>)
    requires TwoSteps(s, e, top, hi, lo)
    ensures AcceptsExactly(bs, s + 1, e - 1) && |bs| == |Slots(s, e, top)| - 1
  {
    hide Accepts, WideFits, TwoSteps, Wide;
    var xs := Slots(s, e, top);
    SlotsMeaning(s, e, top);
    var at := SlotOfStep(s, e, top, hi, lo);
    var ys := xs[..at] + xs[at + 1..];
    bs := Wides(s, e, top, hi, lo, ys);
    forall y | y in ys
      ensures y in xs
    {
    }
    forall p: uint16 | AcceptedBySome(bs, p)
      ensures s + 1 <= p <= e - 1
    {
      var i :| 0 <= i < |bs| && Accepts(bs[i], p);
      assert ys[i] in ys;
      WideAccepts(s, e, top, hi, lo, ys[i], p);
      FitsInside(s, e, top, hi, lo, ys[i], p);
    }
    forall p: uint16 | s + 1 <= p <= e - 1
      ensures AcceptedBySome(bs, p)
    {
      var x := FitsSome(s, e, top, hi, lo, p);
      WideAccepts(s, e, top, hi, lo, x, p);
      var i :| 0 <= i < |xs| && xs[i] == x;
      assert ys[if i < at then i else i - 1] == x;
      assert Accepts(bs[if i < at then i else i - 1], p);
    }
  }

  lemma SlotOfStep(s: nat, e: nat, top: nat, hi: nat, lo: nat) returns (at: nat)
    requires TwoSteps(s, e, top, hi, lo)
    ensures at < |Slots(s, e, top)| && Slots(s, e, top)[at] == Left(hi)
  {
    SlotsMeaning(s, e, top);
    assert IsSlot(s, e, top, Left(hi));
    at :| 0 <= at < |Slots(s, e, top)| && Slots(s, e, top)[at] == Left(hi);
  }

  // ---------------------------------------------------------------- the theorem

  /** The prefix cover has one entry for each slot. */
  lemma CoverHasSlots(first: int, last: int, top: nat)
    requires 1 <= first <= last < 0x1_0000 && SplitAt(first - 1, last + 1, top)
    ensures |Cover(first, last)| == |Slots(first - 1, last + 1, top)|
  {
    hide SplitAt, AcceptsExactly, AllPrefixMasked, Cover, Slots;
    CoverIsExact(first, last);
    PrefixListHasSlots(first - 1, last + 1, top, Cover(first, last));
    var bs := BlocksAreExact(first - 1, last + 1, top);
    CoverIsMinimal(first, last, bs);
  }

  /** The split of a range, and the ups below it. */
  lemma FindSplit(s: nat, e: nat) returns (top: nat)
    requires s < e <= 0x1_0000
    ensures SplitAt(s, e, top) && Ups(s, e, 17) == 1 + Ups(s, e, top)
  {
    top := TopDifference(s, e);
    assert 0x1_0000 < Pow2(17) by {
      Pow2Sixteen();
    }
    if top >= 17 {
      HighBits(e, 17, top);
    }
    AgreeingColumns(s, e, top, 17);
  }

  ghost predicate MinimalAmongAll(first: int, last: int)
    requires 1 <= first <= last < 0x1_0000
  {
    forall other :: AcceptsExactly(other, first, last) ==> |Cover(first, last)| <= |other|
  }

  /**
    The prefix cover of first..last is minimal among all lists of value/mask entries if and only if
    `last + 1` has at most two ones that `first - 1` lacks, read from the top to the first one that
    `first - 1` has and `last + 1` lacks.
   */
  lemma MinimalExactly(first: int, last: int)
    requires 1 <= first <= last < 0x1_0000
    ensures MinimalAmongAll(first, last) <==> Ups(first - 1, last + 1, 17) <= 2
  {
    hide SplitAt, AcceptsExactly, Cover, Slots, Ups;
    var s, e := first - 1, last + 1;
    var top := FindSplit(s, e);
    CoverHasSlots(first, last, top);
    if Ups(s, e, 17) <= 2 {
      forall other | AcceptsExactly(other, first, last)
        ensures |Cover(first, last)| <= |other|
      {
        AnyListHasSlots(s, e, top, other);
      }
    } else {
      var hi := NextUp(s, e, top);
      var lo := NextUp(s, e, hi);
      StepsFound(s, e, top, hi, lo);
      var other := ShorterList(s, e, top, hi, lo);
      assert AcceptsExactly(other, first, last) && |other| < |Cover(first, last)|;
    }
  }

  lemma StepsFound(s: nat, e: nat, top: nat, hi: nat, lo: nat)
    requires SplitAt(s, e, top) && lo < hi < top && Up(s, e, hi) && Up(s, e, lo)
    requires forall k :: hi < k < top ==> (Bit(s, k) <==> Bit(e, k))
    requires forall k :: lo < k < hi ==> (Bit(s, k) <==> Bit(e, k))
    ensures TwoSteps(s, e, top, hi, lo)
  {
  }

  // ---------------------------------------------------------------- the smallest range

  /** The number that the low `n` bits of `x` write. */
  function Low(x: nat, n: nat): nat {
    if n == 0 then 0 else Low(x, n - 1) + if Bit(x, n - 1) then Pow2(n - 1) else 0
  }

  lemma {:induction false} LowHalf(x: nat, n: nat)
    requires n > 0
    ensures Low(x, n) == 2 * Low(x / 2, n - 1) + x % 2
  {
    if n > 1 {
      LowHalf(x, n - 1);
    }
  }

  lemma {:induction false} LowWhole(x: nat, n: nat)
    requires x < Pow2(n)
    ensures Low(x, n) == x
    decreases n
  {
    if n > 0 {
      LowHalf(x, n);
      LowWhole(x / 2, n - 1);
    }
  }

  /** `u` counted ups put `e` at least 2^u - 1 above `s`. */
  lemma {:induction false} UpsGap(s: nat, e: nat, n: nat)
    ensures var u := Ups(s, e, n);
            u <= n && Low(e, n) - Low(s, n) >= if u == 0 then 1 - Pow2(n) else Pow2(u) - 1
  {
    if n > 0 {
      LowBound(s, n);
      UpsGap(s, e, n - 1);
      if Up(s, e, n - 1) {
        Pow2Monotone(Ups(s, e, n - 1), n - 1);
      }
    }
  }

  lemma {:induction false} LowBound(x: nat, n: nat)
    ensures Low(x, n) < Pow2(n)
  {
    if n > 0 {
      LowBound(x, n - 1);
    }
  }

  /** A range whose cover is not minimal among all masks holds at least six ports; ports 1 to 6 are such a range. */
  lemma SmallestRange(first: int, last: int)
    requires 1 <= first <= last < 0x1_0000
    ensures !MinimalAmongAll(first, last) ==> last - first >= 5 && last >= 6
    ensures !MinimalAmongAll(1, 6)
  {
    hide MinimalAmongAll, Ups;
    MinimalExactly(first, last);
    var s, e := first - 1, last + 1;
    var u := Ups(s, e, 17);
    Pow2Sixteen();
    assert Pow2(17) == 2 * Pow2(16);
    LowWhole(s, 17);
    LowWhole(e, 17);
    UpsGap(s, e, 17);
    if u >= 3 {
      Pow2Monotone(3, u);
      assert Pow2(3) == 8;
    }
    OneToSix();
  }

  lemma OneToSix()
    ensures !MinimalAmongAll(1, 6)
  {
    ShorterWithOtherMasks();
  }
}
