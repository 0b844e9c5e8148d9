/** The learning switch: an array of learned addresses, filled from the front, and a packet counter. */
module LearningSwitch {
  import opened Results
  import opened Bits

  // `Forward` handles one frame in place; `Step` specifies it, and the results about `Run` say what the
  // table, the outputs and the counter are after any sequence of frames.

  const MAC_ENTRIES := 20

  /** A six-byte address; 0 is the all-zero address of an unused entry. */
  type Mac = x: int | 0 <= x < 0x1_0000_0000_0000

  datatype EntryType = Static | Dynamic

  datatype Entry = Entry(addr: Mac, kind: EntryType, port: nat)

  const UNUSED := Entry(0, Static, 0)

  datatype Frame = Frame(dst: Mac, src: Mac, ingress: nat)

  // ---------------------------------------------------------------- one frame

  /** The ports of the entries for `addr`, in table order. */
  function Hits(table: seq<Entry>, addr: Mac): seq<nat> {
    if table == [] then []
    else Hits(table[..|table| - 1], addr) + if table[|table| - 1].addr == addr then [table[|table| - 1].port] else []
  }

  predicate Known(table: seq<Entry>, addr: Mac) {
    exists i :: 0 <= i < |table| && table[i].addr == addr
  }

  /** All ports below `n` but `ingress`. */
  function Others(n: nat, ingress: nat): seq<nat> {
    if n == 0 then [] else Others(n - 1, ingress) + if n - 1 != ingress then [n - 1] else []
  }

  /** The table, the number of learned entries, and the packet counter. */
  datatype State = State(table: seq<Entry>, learned: nat, packets: uint32)

  predicate Shaped(s: State) {
    |s.table| == MAC_ENTRIES
  }

  /** There is room to learn the source of the frame, or no need to; past that the original writes outside its table. */
  predicate Fits(s: State, f: Frame) {
    Known(s.table, f.src) || s.learned < MAC_ENTRIES
  }

  /** The ports the frame is enqueued on. */
  function Sent(ports: nat, s: State, f: Frame): seq<nat> {
    if Hits(s.table, f.dst) == [] then Others(ports, f.ingress) else Hits(s.table, f.dst)
  }

  predicate Floods(s: State, f: Frame) {
    Hits(s.table, f.dst) == []
  }

  function Step(s: State, f: Frame): State
    requires Shaped(s) && Fits(s, f)
  {
    var packets := ToUint32(s.packets + if Floods(s, f) then 3 else |Hits(s.table, f.dst)|);
    if Known(s.table, f.src) then State(s.table, s.learned, packets)
    else State(s.table[s.learned := Entry(f.src, Dynamic, f.ingress)], s.learned + 1, packets)
  }

  lemma HitsSome(table: seq<Entry>, addr: Mac)
    ensures Hits(table, addr) != [] <==> Known(table, addr)
  {
    if table != [] {
      var n := |table| - 1;
      HitsSome(table[..n], addr);
      if Known(table, addr) {
        var i :| 0 <= i < |table| && table[i].addr == addr;
        assert i < n ==> table[..n][i].addr == addr;
      }
      if Known(table[..n], addr) {
        var i :| 0 <= i < n && table[..n][i].addr == addr;
        assert table[i].addr == addr;
      }
    }
  }

  class Switch {
    const ports: nat
    const table: array<Entry>
    var learned: nat
    var packets: uint32

    ghost predicate Valid()
      reads this
    {
      table.Length == MAC_ENTRIES
    }

    ghost function Value(): State
      reads this, table
    {
      State(table[..], learned, packets)
    }

    constructor (ports: nat)
      ensures Valid() && this.ports == ports && fresh(table)
      ensures Value() == Initial()
    {
      this.ports := ports;
      table := new Entry[MAC_ENTRIES](_ => UNUSED);
      learned, packets := 0, 0;
      new;
      assert table[..] == Initial().table;
    }

    /** Scan the table for both addresses; enqueue on the port of every entry for the destination. */
    method Scan(f: Frame) returns (known: bool, found: bool, sent: seq<nat>)
      requires Valid()
      modifies this`packets
      ensures known == Known(table[..], f.src)
      ensures found == Known(table[..], f.dst)
      ensures sent == Hits(table[..], f.dst)
      ensures packets == ToUint32(old(packets) + |sent|)
    {
      known, found, sent := false, false, [];
      for i := 0 to MAC_ENTRIES
        invariant known == Known(table[..i], f.src)
        invariant found == Known(table[..i], f.dst)
        invariant sent == Hits(table[..i], f.dst)
        invariant packets == ToUint32(old(packets) + |sent|)
      {
        KnownNext(table[..], i, f.src);
        KnownNext(table[..], i, f.dst);
        assert table[..i + 1][..i] == table[..i];
        if table[i].addr == f.src {
          known := true;
        }
        if table[i].addr == f.dst {
          sent := sent + [table[i].port];
          found := true;
          packets := ToUint32(packets + 1);
        }
      }
      assert table[..MAC_ENTRIES] == table[..];
    }

    method Forward(f: Frame) returns (sent: seq<nat>)
      requires Valid() && Fits(Value(), f)
      modifies this, table
      ensures Valid()
      ensures sent == Sent(ports, old(Value()), f)
      ensures Value() == Step(old(Value()), f)
    {
      var known, found;
      known, found, sent := Scan(f);
      HitsSome(table[..], f.dst);
      if !found {
        for port := 0 to ports
          invariant sent == Others(port, f.ingress)
        {
          if port != f.ingress {
            sent := sent + [port];
          }
        }
        packets := ToUint32(packets + 3);
      }
      if !known {
        table[learned] := Entry(f.src, Dynamic, f.ingress);
        learned := learned + 1;
      }
    }
  }

  lemma KnownNext(table: seq<Entry>, i: nat, addr: Mac)
    requires i < |table|
    ensures Known(table[..i + 1], addr) <==> Known(table[..i], addr) || table[i].addr == addr
  {
    var next, now := table[..i + 1], table[..i];
    if Known(now, addr) {
      var k :| 0 <= k < |now| && now[k].addr == addr;
      assert next[k].addr == addr;
    }
    if Known(next, addr) {
      var k :| 0 <= k < |next| && next[k].addr == addr;
      assert k < i ==> now[k].addr == addr;
    }
    if table[i].addr == addr {
      assert next[i].addr == addr;
    }
  }

  // ---------------------------------------------------------------- every run

  function Initial(): (s: State)
    ensures |s.table| == MAC_ENTRIES && forall i :: 0 <= i < MAC_ENTRIES ==> s.table[i] == UNUSED
  {
    State(seq(MAC_ENTRIES, _ => UNUSED), 0, 0)
  }

  /** The sources of the frames. */
  function Sources(frames: seq<Frame>): set<Mac> {
    set i | 0 <= i < |frames| :: frames[i].src
  }

  /** The runs the program is for: non-zero addresses and at most as many sources as the table has entries. */
  predicate Proper(frames: seq<Frame>) {
    && (forall i :: 0 <= i < |frames| ==> frames[i].src != 0 && frames[i].dst != 0)
    && |Sources(frames)| <= 20
  }

  /** The ingress port of the first frame from `addr`. */
  function FirstIngress(frames: seq<Frame>, addr: Mac): Option<nat> {
    if frames == [] then None
    else if frames[0].src == addr then Some(frames[0].ingress)
    else FirstIngress(frames[1..], addr)
  }

  /** A distinct, non-zero prefix and an unused suffix. */
  ghost predicate Inv(s: State) {
    && Shaped(s) && s.learned <= MAC_ENTRIES
    && (forall i :: 0 <= i < s.learned ==> s.table[i].addr != 0 && s.table[i].kind.Dynamic?)
    && (forall i, j :: 0 <= i < j < s.learned ==> s.table[i].addr != s.table[j].addr)
    && (forall i :: s.learned <= i < MAC_ENTRIES ==> s.table[i] == UNUSED)
  }

  /** The table, read as a map. */
  function Lookup(s: State, addr: Mac): Option<nat> {
    var hits := Hits(s.table, addr);
    if |hits| == 1 then Some(hits[0]) else None
  }

  /** The table holds the first ingress port of every source, and nothing else. */
  ghost predicate Agrees(s: State, frames: seq<Frame>) {
    && s.learned == |Sources(frames)| && s.learned <= |s.table|
    && (forall i :: 0 <= i < s.learned ==> FirstIngress(frames, s.table[i].addr) == Some(s.table[i].port))
    && (forall a: Mac :: FirstIngress(frames, a).Some? ==> exists i :: 0 <= i < s.learned && s.table[i].addr == a)
  }

  ghost function Run(frames: seq<Frame>): (s: State)
    requires Proper(frames)
    ensures Inv(s) && Agrees(s, frames)
  {
    if frames == [] then Initial()
    else
      var n := |frames| - 1;
      ProperPrefix(frames);
      var s := Run(frames[..n]);
      StepAgrees(s, frames);
      Step(s, frames[n])
  }

  lemma SourcesNext(frames: seq<Frame>)
    requires frames != []
    ensures var n := |frames| - 1; Sources(frames) == Sources(frames[..n]) + {frames[n].src}
  {
    var n := |frames| - 1;
    assert frames == frames[..n] + [frames[n]];
    forall a | a in Sources(frames)
      ensures a in Sources(frames[..n]) + {frames[n].src}
    {
      var i :| 0 <= i < |frames| && frames[i].src == a;
      assert i < n ==> frames[..n][i].src == a;
    }
    forall a | a in Sources(frames[..n])
      ensures a in Sources(frames)
    {
      var i :| 0 <= i < n && frames[..n][i].src == a;
      assert frames[i].src == a;
    }
  }

  lemma ProperPrefix(frames: seq<Frame>)
    requires Proper(frames) && frames != []
    ensures Proper(frames[..|frames| - 1])
    ensures var n := |frames| - 1;
            |Sources(frames)| == |Sources(frames[..n])| + if frames[n].src in Sources(frames[..n]) then 0 else 1
  {
    SourcesNext(frames);
    var n := |frames| - 1;
    var seen := Sources(frames[..n]);
    if frames[n].src in seen {
      assert seen + {frames[n].src} == seen;
    }
  }

  lemma {:induction false} FirstIngressNext(frames: seq<Frame>, f: Frame, addr: Mac)
    ensures FirstIngress(frames + [f], addr) ==
            if FirstIngress(frames, addr).Some? then FirstIngress(frames, addr)
            else if f.src == addr then Some(f.ingress) else None
  {
    var all := frames + [f];
    if frames != [] {
      assert all[0] == frames[0] && all[1..] == frames[1..] + [f];
      FirstIngressNext(frames[1..], f, addr);
    }
  }

  lemma {:induction false} FirstIngressSources(frames: seq<Frame>, addr: Mac)
    ensures FirstIngress(frames, addr).Some? <==> addr in Sources(frames)
  {
    if frames != [] {
      FirstIngressSources(frames[1..], addr);
      if addr in Sources(frames[1..]) {
        var i :| 0 <= i < |frames[1..]| && frames[1..][i].src == addr;
        assert frames[i + 1].src == addr;
      }
      if addr in Sources(frames) && frames[0].src != addr {
        var i :| 0 <= i < |frames| && frames[i].src == addr;
        assert frames[1..][i - 1].src == addr;
      }
    }
  }

  /** Under the invariant the table knows exactly the sources so far. */
  lemma KnownIsSource(s: State, frames: seq<Frame>, a: Mac)
    requires Inv(s) && Agrees(s, frames) && a != 0
    ensures Known(s.table, a) <==> a in Sources(frames)
  {
    FirstIngressSources(frames, a);
    if Known(s.table, a) {
      var i :| 0 <= i < |s.table| && s.table[i].addr == a;
      assert i < s.learned;
    }
    if FirstIngress(frames, a).Some? {
      var i :| 0 <= i < s.learned && s.table[i].addr == a;
      assert Known(s.table, a);
    }
  }

  /** One frame keeps the invariant and the agreement with the frames seen. */
  lemma StepAgrees(s: State, frames: seq<Frame>)
    requires Proper(frames) && frames != []
    requires Inv(s) && Agrees(s, frames[..|frames| - 1])
    ensures var f := frames[|frames| - 1]; Fits(s, f) && Inv(Step(s, f)) && Agrees(Step(s, f), frames)
  {
    var n := |frames| - 1;
    var before, f := frames[..n], frames[n];
    assert frames == before + [f];
    ProperPrefix(frames);
    KnownIsSource(s, before, f.src);
    FirstIngressSources(before, f.src);
    forall a: Mac
      ensures FirstIngress(frames, a) ==
              if FirstIngress(before, a).Some? then FirstIngress(before, a)
              else if f.src == a then Some(f.ingress) else None
    {
      FirstIngressNext(before, f, a);
    }
    assert Fits(s, f);
    var t := Step(s, f);
    if !Known(s.table, f.src) {
      assert forall i :: 0 <= i < s.learned ==> t.table[i] == s.table[i] && s.table[i].addr != f.src;
      forall a: Mac | FirstIngress(frames, a).Some?
        ensures exists i :: 0 <= i < t.learned && t.table[i].addr == a
      {
        if a == f.src {
          assert t.table[s.learned].addr == a;
        } else {
          var i :| 0 <= i < s.learned && s.table[i].addr == a;
          assert t.table[i].addr == a;
        }
      }
    }
  }

  lemma {:induction false} HitsOnce(table: seq<Entry>, i: nat)
    requires i < |table| && forall j :: 0 <= j < |table| && j != i ==> table[j].addr != table[i].addr
    ensures Hits(table, table[i].addr) == [table[i].port]
  {
    var n := |table| - 1;
    if i < n {
      HitsOnce(table[..n], i);
    } else {
      if Hits(table[..n], table[i].addr) != [] {
        HitsSome(table[..n], table[i].addr);
        KnownBelow(table, n, table[i].addr);
      }
    }
  }

  lemma KnownBelow(table: seq<Entry>, n: nat, addr: Mac)
    requires n <= |table| && Known(table[..n], addr)
    ensures exists i :: 0 <= i < n && table[i].addr == addr
  {
    var i :| 0 <= i < n && table[..n][i].addr == addr;
    assert table[i].addr == addr;
  }

  /** The array, read as a map, is the map from each source to the ingress port of its first frame. */
  lemma TableIsFirstIngress(frames: seq<Frame>, addr: Mac)
    requires Proper(frames) && addr != 0
    ensures |Run(frames).table| == 20
    ensures Lookup(Run(frames), addr) == FirstIngress(frames, addr)
    ensures Hits(Run(frames).table, addr) == if FirstIngress(frames, addr).Some? then [FirstIngress(frames, addr).value] else []
  {
    var s := Run(frames);
    KnownIsSource(s, frames, addr);
    FirstIngressSources(frames, addr);
    HitsSome(s.table, addr);
    if FirstIngress(frames, addr).Some? {
      var i :| 0 <= i < s.learned && s.table[i].addr == addr;
      HitsOnce(s.table, i);
    }
  }

  lemma {:induction false} OthersMeaning(n: nat, ingress: nat)
    ensures |Others(n, ingress)| == if ingress < n then n - 1 else n
    ensures forall p :: p in Others(n, ingress) <==> 0 <= p < n && p != ingress
    ensures forall i, j :: 0 <= i < j < |Others(n, ingress)| ==> Others(n, ingress)[i] < Others(n, ingress)[j]
  {
    if n > 0 {
      OthersMeaning(n - 1, ingress);
      var front := Others(n - 1, ingress);
      assert forall i :: 0 <= i < |front| ==> front[i] in front;
    }
  }

  /**
    The frame after any proper run is enqueued once, on the first ingress port of its destination, or,
    if that is unknown, once on every port but its own.
   */
  lemma FrameIsSent(ports: nat, frames: seq<Frame>, f: Frame)
    requires Proper(frames + [f])
    ensures Proper(frames)
    ensures var sent := Sent(ports, Run(frames), f); var known := FirstIngress(frames, f.dst);
            if known.Some? then sent == [known.value]
            else
              && (forall p :: p in sent <==> 0 <= p < ports && p != f.ingress)
              && (forall i, j :: 0 <= i < j < |sent| ==> sent[i] < sent[j])
  {
    var all := frames + [f];
    assert all[..|all| - 1] == frames && all[|all| - 1] == f;
    ProperPrefix(all);
    TableIsFirstIngress(frames, f.dst);
    OthersMeaning(ports, f.ingress);
  }

  // ---------------------------------------------------------------- the packet counter

  /** How often a frame was put on some port's queue. */
  ghost function Enqueued(ports: nat, frames: seq<Frame>): nat
    requires Proper(frames)
  {
    if frames == [] then 0
    else
      var n := |frames| - 1;
      ProperPrefix(frames);
      Enqueued(ports, frames[..n]) + |Sent(ports, Run(frames[..n]), frames[n])|
  }

  /** How many frames went to an address that no earlier frame came from. */
  function Flooded(frames: seq<Frame>): nat {
    if frames == [] then 0
    else
      var n := |frames| - 1;
      Flooded(frames[..n]) + if frames[n].dst in Sources(frames[..n]) then 0 else 1
  }

  /** Those are the frames that the switch floods. */
  lemma FloodsUnknown(frames: seq<Frame>, f: Frame)
    requires Proper(frames) && f.dst != 0
    ensures Floods(Run(frames), f) <==> f.dst !in Sources(frames)
  {
    KnownIsSource(Run(frames), frames, f.dst);
    HitsSome(Run(frames).table, f.dst);
  }

  /** The counter adds 3 for each flood, whatever the number of ports. */
  lemma {:induction false} CounterLaw(ports: nat, frames: seq<Frame>)
    requires Proper(frames) && forall i :: 0 <= i < |frames| ==> frames[i].ingress < ports
    ensures Run(frames).packets == (Enqueued(ports, frames) + Flooded(frames) * (4 - ports)) % 0x1_0000_0000
  {
    hide Run, Enqueued, Flooded, Proper;
    if frames == [] {
      CounterStart(ports);
    } else {
      ProperPrefix(frames);
      CounterLaw(ports, frames[..|frames| - 1]);
      CounterStep(ports, frames);
    }
  }

  lemma CounterStart(ports: nat)
    ensures Proper([]) && Run([]).packets == 0 && Enqueued(ports, []) == 0 && Flooded([]) == 0
  {
    assert Sources([]) == {};
  }

  lemma RunStep(frames: seq<Frame>)
    requires frames != [] && Proper(frames)
    ensures var n := |frames| - 1;
            && Proper(frames[..n]) && Fits(Run(frames[..n]), frames[n])
            && Run(frames) == Step(Run(frames[..n]), frames[n])
  {
    ProperPrefix(frames);
    StepAgrees(Run(frames[..|frames| - 1]), frames);
  }

  lemma StepCount(s: State, f: Frame)
    requires Shaped(s) && Fits(s, f)
    ensures Step(s, f).packets == ToUint32(s.packets + if Floods(s, f) then 3 else |Hits(s.table, f.dst)|)
  {
  }

  lemma CounterStep(ports: nat, frames: seq<Frame>)
    requires frames != [] && Proper(frames) && Proper(frames[..|frames| - 1]) && frames[|frames| - 1].ingress < ports
    requires var before := frames[..|frames| - 1];
             Run(before).packets == (Enqueued(ports, before) + Flooded(before) * (4 - ports)) % 0x1_0000_0000
    ensures Run(frames).packets == (Enqueued(ports, frames) + Flooded(frames) * (4 - ports)) % 0x1_0000_0000
  {
    hide Proper, Known, Hits, Others, ToUint32, Run, Step, Fits, Floods, Sources;
    var n := |frames| - 1;
    var s, f := Run(frames[..n]), frames[n];
    var e, k := Enqueued(ports, frames[..n]), Flooded(frames[..n]);
    RunStep(frames);
    StepCount(s, f);
    FrameCounts(ports, frames, s, f);
    if Floods(s, f) {
      Distributes(k, 4 - ports);
      WrappedSum(e + k * (4 - ports), 3);
    } else {
      WrappedSum(e + k * (4 - ports), |Hits(s.table, f.dst)|);
    }
  }

  /** What one more frame adds to both totals. */
  lemma FrameCounts(ports: nat, frames: seq<Frame>, s: State, f: Frame)
    requires frames != [] && Proper(frames) && Proper(frames[..|frames| - 1])
    requires s == Run(frames[..|frames| - 1]) && f == frames[|frames| - 1] && f.ingress < ports
    ensures var n := |frames| - 1;
            && Enqueued(ports, frames) ==
               Enqueued(ports, frames[..n]) + (if Floods(s, f) then ports - 1 else |Hits(s.table, f.dst)|)
            && Flooded(frames) == Flooded(frames[..n]) + (if Floods(s, f) then 1 else 0)
  {
    hide Run, Hits, Others;
    OthersMeaning(ports, f.ingress);
    FloodsUnknown(frames[..|frames| - 1], f);
  }

  lemma Distributes(k: nat, d: int)
    ensures (k + 1) * d == k * d + d
  {
  }

  lemma WrappedSum(total: int, more: nat)
    ensures ToUint32(total % 0x1_0000_0000 + more) == (total + more) % 0x1_0000_0000
  {
  }

  /** The counter is the number of enqueued packets modulo 2^32 exactly when the floods' surplus or deficit vanishes there. */
  lemma CounterExact(ports: nat, frames: seq<Frame>)
    requires Proper(frames) && forall i :: 0 <= i < |frames| ==> frames[i].ingress < ports
    ensures Run(frames).packets == Enqueued(ports, frames) % 0x1_0000_0000 <==>
            (Flooded(frames) * (4 - ports)) % 0x1_0000_0000 == 0
  {
    hide Run, Enqueued, Flooded, Proper;
    CounterLaw(ports, frames);
    SameRemainder(Enqueued(ports, frames), Flooded(frames) * (4 - ports));
  }

  lemma SameRemainder(e: int, x: int)
    ensures (e + x) % 0x1_0000_0000 == e % 0x1_0000_0000 <==> x % 0x1_0000_0000 == 0
  {
  }

  /** With four ports the counter is the number of enqueued packets, modulo 2^32. */
  lemma FourPortCounter(frames: seq<Frame>)
    requires Proper(frames) && forall i :: 0 <= i < |frames| ==> frames[i].ingress < 4
    ensures Run(frames).packets == Enqueued(4, frames) % 0x1_0000_0000
  {
    CounterLaw(4, frames);
  }

  /** With two ports, one flooded frame is enqueued once and counted three times. */
  lemma TwoPortsMiscount()
    ensures var frames := [Frame(2, 1, 0)];
            && Proper(frames) && Flooded(frames) == 1
            && Run(frames).packets == 3 && Enqueued(2, frames) == 1
  {
    var frames := [Frame(2, 1, 0)];
    assert frames[..0] == [] && Sources(frames[..0]) == {};
    assert Sources(frames) == {frames[0].src};
    assert Flooded(frames) == 1;
    CounterStart(2);
    CounterLaw(2, frames);
    FloodsUnknown([], frames[0]);
    assert Others(1, 0) == [] && Others(2, 0) == [1];
    assert Enqueued(2, frames) == Enqueued(2, []) + |Sent(2, Run([]), frames[0])|;
  }
}
