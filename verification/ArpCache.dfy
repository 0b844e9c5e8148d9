/** The ARP table: one hundred triples in a circular array. */
module ArpCache {
  import opened Results
  import opened Bits

  // `Receive` follows the packet reception algorithm in place; the results say that the array is a
  // first-in, first-out cache of capacity one hundred that holds the latest hardware address of each sender.

  const ARP_ENTRIES := 100
  const HW_TYPE_ETHERNET := 0x0001
  const ETHER_TYPE_IPV4 := 0x0800
  const OP_REQUEST := 1

  datatype Packet = Packet(
    hwType: uint16, ptclType: uint16, opCode: uint16,
    srcHwAddr: uint64, srcPtclAddr: uint32, trgPtclAddr: uint32)

  /** Protocol type, sender protocol address, sender hardware address. */
  datatype Triple = Triple(ptclType: uint16, ptclAddr: uint32, hwAddr: uint64)

  const ZERO := Triple(0, 0, 0)

  /** The third octet of the address: shifted left by 16 in 32 bits, then right by 24. */
  function ThirdOctet(addr: uint32): uint8 {
    ToUint32(addr * 0x1_0000) / 0x100_0000
  }

  /** `port_ip_lookup`: the address belongs to the port. */
  predicate BelongsTo(addr: uint32, port: uint32) {
    ToUint32(port + 1) == ThirdOctet(addr)
  }

  /** The shifts pick the third of the four octets of the address. */
  lemma ThirdOctetIs(a: uint8, b: uint8, c: uint8, d: uint8)
    ensures ThirdOctet(a * 0x100_0000 + b * 0x1_0000 + c * 0x100 + d) == c
  {
    var addr := a * 0x100_0000 + b * 0x1_0000 + c * 0x100 + d;
    var low := c * 0x100 + d;
    WrapsTo(a * 0x100 + b, low * 0x1_0000);
    assert addr * 0x1_0000 == (a * 0x100 + b) * 0x1_0000_0000 + low * 0x1_0000;
    assert low * 0x1_0000 == c * 0x100_0000 + d * 0x1_0000;
  }

  lemma WrapsTo(high: nat, low: uint32)
    ensures ToUint32(high * 0x1_0000_0000 + low) == low
  {
  }

  /** The lookup accepts the target a.b.c.d at a port if and only if `c` is the port number plus one, in 32 bits. */
  lemma BelongsToOctets(a: uint8, b: uint8, c: uint8, d: uint8, port: uint32)
    ensures BelongsTo(a * 0x100_0000 + b * 0x1_0000 + c * 0x100 + d, port) <==> c == (port + 1) % 0x1_0000_0000
  {
    hide ThirdOctet;
    ThirdOctetIs(a, b, c, d);
  }

  /** The packet reaches the table. */
  predicate Accepted(p: Packet, port: uint32) {
    BelongsTo(p.trgPtclAddr, port) && p.hwType == HW_TYPE_ETHERNET && p.ptclType == ETHER_TYPE_IPV4
  }

  /** An Ethernet packet of IPv4 for the port's own network, 192.168.(port + 1).0 say, and nothing else. */
  lemma AcceptedOctets(p: Packet, port: uint32, a: uint8, b: uint8, c: uint8, d: uint8)
    requires p.trgPtclAddr == a * 0x100_0000 + b * 0x1_0000 + c * 0x100 + d && port < 0xffff_ffff
    ensures Accepted(p, port) <==> c == port + 1 && p.hwType == 1 && p.ptclType == 0x0800
  {
    hide BelongsTo;
    BelongsToOctets(a, b, c, d, port);
  }

  // ---------------------------------------------------------------- one packet

  datatype State = State(table: seq<Triple>, counter: nat)

  predicate Shaped(s: State) {
    |s.table| == ARP_ENTRIES && s.counter <= ARP_ENTRIES
  }

  predicate IsFor(t: Triple, addr: uint32) {
    t.ptclType == ETHER_TYPE_IPV4 && t.ptclAddr == addr
  }

  predicate HasEntry(table: seq<Triple>, addr: uint32) {
    exists i :: 0 <= i < |table| && IsFor(table[i], addr)
  }

  /** Every entry of the sender gets the new hardware address. */
  function Update(table: seq<Triple>, addr: uint32, hw: uint64): (r: seq<Triple>)
    ensures |r| == |table|
    ensures forall i :: 0 <= i < |table| ==>
              r[i] == if IsFor(table[i], addr) then table[i].(hwAddr := hw) else table[i]
  {
    seq(|table|, i requires 0 <= i < |table| => if IsFor(table[i], addr) then table[i].(hwAddr := hw) else table[i])
  }

  function Wrap(counter: nat): nat {
    if counter >= ARP_ENTRIES then 0 else counter
  }

  function Step(s: State, p: Packet, port: uint32): State
    requires Shaped(s)
  {
    if !BelongsTo(p.trgPtclAddr, port) then s
    else
      var c := Wrap(s.counter);
      if !Accepted(p, port) then s.(counter := c)
      else if HasEntry(s.table, p.srcPtclAddr) then State(Update(s.table, p.srcPtclAddr, p.srcHwAddr), c)
      else State(s.table[c := Triple(p.ptclType, p.srcPtclAddr, p.srcHwAddr)], c + 1)
  }

  class ArpTable {
    const table: array<Triple>
    var counter: nat

    ghost predicate Valid()
      reads this
    {
      table.Length == ARP_ENTRIES && counter <= ARP_ENTRIES
    }

    ghost function Value(): State
      reads this, table
    {
      State(table[..], counter)
    }

    constructor ()
      ensures Valid() && fresh(table) && Value() == Initial()
    {
      table := new Triple[ARP_ENTRIES](_ => ZERO);
      counter := 0;
      new;
      assert table[..] == Initial().table;
    }

    /** The loop that refreshes the sender's entries. */
    method Refresh(addr: uint32, hw: uint64) returns (found: bool)
      requires Valid()
      modifies table
      ensures table[..] == Update(old(table[..]), addr, hw)
      ensures found == HasEntry(old(table[..]), addr)
    {
      found := false;
      ghost var before := table[..];
      for i := 0 to ARP_ENTRIES
        invariant forall k :: i <= k < ARP_ENTRIES ==> table[k] == before[k]
        invariant forall k :: 0 <= k < i ==>
                    table[k] == if IsFor(before[k], addr) then before[k].(hwAddr := hw) else before[k]
        invariant found <==> exists k :: 0 <= k < i && IsFor(before[k], addr)
      {
        if table[i].ptclType == ETHER_TYPE_IPV4 && table[i].ptclAddr == addr {
          assert IsFor(before[i], addr);
          table[i] := table[i].(hwAddr := hw);
          found := true;
        }
      }
    }

    /** The table part of `l2fwd_arp_reply`; the result says whether a reply is sent. */
    method Receive(p: Packet, port: uint32) returns (reply: bool)
      requires Valid()
      modifies this, table
      ensures Valid()
      ensures Value() == Step(old(Value()), p, port)
      ensures reply <==> Accepted(p, port) && p.opCode == 1
    {
      if !BelongsTo(p.trgPtclAddr, port) {
        return false;
      }
      if counter >= ARP_ENTRIES {
        counter := 0;
      }
      if p.hwType != HW_TYPE_ETHERNET {
        return false;
      }
      if p.ptclType != ETHER_TYPE_IPV4 {
        return false;
      }
      var found := Refresh(p.srcPtclAddr, p.srcHwAddr);
      if !found {
        assert table[..] == old(table[..]);
        table[counter] := Triple(p.ptclType, p.srcPtclAddr, p.srcHwAddr);
        counter := counter + 1;
      }
      reply := p.opCode == OP_REQUEST;
    }
  }

  // ---------------------------------------------------------------- the cache it refines

  /** A sender and its hardware address. The oldest binding comes first. */
  datatype Binding = Binding(addr: uint32, hw: uint64)

  predicate Holds(q: seq<Binding>, addr: uint32) {
    exists i :: 0 <= i < |q| && q[i].addr == addr
  }

  function Rebind(q: seq<Binding>, addr: uint32, hw: uint64): (r: seq<Binding>)
    ensures |r| == |q|
    ensures forall i :: 0 <= i < |q| ==> r[i] == if q[i].addr == addr then Binding(addr, hw) else q[i]
  {
    seq(|q|, i requires 0 <= i < |q| => if q[i].addr == addr then Binding(addr, hw) else q[i])
  }

  /** A bound sender keeps its place; a new one goes to the back and, in a full cache, evicts the front. */
  function Remember(q: seq<Binding>, addr: uint32, hw: uint64): seq<Binding> {
    if Holds(q, addr) then Rebind(q, addr, hw)
    else if |q| < ARP_ENTRIES then q + [Binding(addr, hw)]
    else q[1..] + [Binding(addr, hw)]
  }

  function CacheStep(q: seq<Binding>, p: Packet, port: uint32): seq<Binding> {
    if Accepted(p, port) then Remember(q, p.srcPtclAddr, p.srcHwAddr) else q
  }

  function Stored(b: Binding): Triple {
    Triple(ETHER_TYPE_IPV4, b.addr, b.hw)
  }

  /** The slot of the i-th oldest binding: a full array is read from the counter on, around its end. */
  function Slot(s: State, n: nat, i: nat): (k: nat)
    requires s.counter <= ARP_ENTRIES && i < n <= ARP_ENTRIES
    ensures k < ARP_ENTRIES
  {
    if n < ARP_ENTRIES then i
    else if s.counter + i < ARP_ENTRIES then s.counter + i
    else s.counter + i - ARP_ENTRIES
  }

  ghost predicate Refines(s: State, q: seq<Binding>) {
    && Shaped(s) && |q| <= ARP_ENTRIES
    && (forall i :: 0 <= i < |q| ==> s.table[Slot(s, |q|, i)] == Stored(q[i]))
    && (|q| < ARP_ENTRIES ==> s.counter == |q| && forall i :: |q| <= i < ARP_ENTRIES ==> s.table[i] == ZERO)
  }

  predicate Distinct(q: seq<Binding>) {
    forall i, j :: 0 <= i < j < |q| ==> q[i].addr != q[j].addr
  }

  /** Every slot of the array is unused or holds a binding of the cache. */
  lemma SlotIsBinding(s: State, q: seq<Binding>, k: nat) returns (i: nat)
    requires Refines(s, q) && k < ARP_ENTRIES && s.table[k] != ZERO
    ensures i < |q| && Slot(s, |q|, i) == k
  {
    if |q| < ARP_ENTRIES {
      i := k;
    } else if k >= s.counter {
      i := k - s.counter;
    } else {
      i := k + ARP_ENTRIES - s.counter;
    }
  }

  lemma EntriesAreBindings(s: State, q: seq<Binding>, addr: uint32)
    requires Refines(s, q)
    ensures HasEntry(s.table, addr) <==> Holds(q, addr)
  {
    if HasEntry(s.table, addr) {
      var k :| 0 <= k < |s.table| && IsFor(s.table[k], addr);
      var i := SlotIsBinding(s, q, k);
      assert s.table[Slot(s, |q|, i)] == Stored(q[i]);
    }
    if Holds(q, addr) {
      var i :| 0 <= i < |q| && q[i].addr == addr;
      var k := Slot(s, |q|, i);
      assert IsFor(s.table[k], addr);
    }
  }

  lemma SlotWraps(s: State, n: nat, i: nat)
    requires s.counter <= ARP_ENTRIES && i < n <= ARP_ENTRIES && (n < ARP_ENTRIES ==> s.counter == n)
    ensures Slot(s.(counter := Wrap(s.counter)), n, i) == Slot(s, n, i)
  {
  }

  lemma WrapRefines(s: State, q: seq<Binding>)
    requires Refines(s, q)
    ensures Refines(s.(counter := Wrap(s.counter)), q)
  {
    var t := s.(counter := Wrap(s.counter));
    forall i | 0 <= i < |q|
      ensures t.table[Slot(t, |q|, i)] == Stored(q[i])
    {
      SlotWraps(s, |q|, i);
    }
  }

  lemma UpdateRefines(s: State, q: seq<Binding>, addr: uint32, hw: uint64)
    requires Refines(s, q)
    ensures Refines(s.(table := Update(s.table, addr, hw)), Rebind(q, addr, hw))
  {
    var t, r := s.(table := Update(s.table, addr, hw)), Rebind(q, addr, hw);
    forall i | 0 <= i < |r|
      ensures t.table[Slot(t, |r|, i)] == Stored(r[i])
    {
      var k := Slot(s, |q|, i);
      assert s.table[k] == Stored(q[i]);
    }
  }

  lemma InsertRefines(s: State, q: seq<Binding>, b: Binding)
    requires Refines(s, q) && s.counter < ARP_ENTRIES
    ensures Refines(State(s.table[s.counter := Stored(b)], s.counter + 1),
                    if |q| < ARP_ENTRIES then q + [b] else q[1..] + [b])
  {
    var t := State(s.table[s.counter := Stored(b)], s.counter + 1);
    var r := if |q| < ARP_ENTRIES then q + [b] else q[1..] + [b];
    forall i | 0 <= i < |r|
      ensures t.table[Slot(t, |r|, i)] == Stored(r[i])
    {
      var source := if |q| < ARP_ENTRIES then i else i + 1;
      if source < |q| {
        assert s.table[Slot(s, |q|, source)] == Stored(q[source]);
      }
    }
  }

  /** One packet takes the array and the cache to related states. */
  lemma StepRefines(s: State, q: seq<Binding>, p: Packet, port: uint32)
    requires Refines(s, q)
    ensures Refines(Step(s, p, port), CacheStep(q, p, port))
  {
    hide Refines, HasEntry, Holds, Shaped;
    assert Shaped(s) by {
      ShapedWhenRefines(s, q);
    }
    WrapRefines(s, q);
    var t := s.(counter := Wrap(s.counter));
    EntriesAreBindings(s, q, p.srcPtclAddr);
    UpdateRefines(t, q, p.srcPtclAddr, p.srcHwAddr);
    InsertRefines(t, q, Binding(p.srcPtclAddr, p.srcHwAddr));
  }

  lemma ShapedWhenRefines(s: State, q: seq<Binding>)
    requires Refines(s, q)
    ensures Shaped(s)
  {
  }

  // ---------------------------------------------------------------- every run

  function Initial(): (s: State)
    ensures Shaped(s) && s.counter == 0 && forall i :: 0 <= i < ARP_ENTRIES ==> s.table[i] == ZERO
  {
    State(seq(ARP_ENTRIES, _ => ZERO), 0)
  }

  datatype Arrival = Arrival(packet: Packet, port: uint32)

  function Cache(arrivals: seq<Arrival>): seq<Binding> {
    if arrivals == [] then []
    else
      var last := arrivals[|arrivals| - 1];
      CacheStep(Cache(arrivals[..|arrivals| - 1]), last.packet, last.port)
  }

  function Run(arrivals: seq<Arrival>): (s: State)
    ensures Shaped(s)
  {
    if arrivals == [] then Initial()
    else
      var last := arrivals[|arrivals| - 1];
      Step(Run(arrivals[..|arrivals| - 1]), last.packet, last.port)
  }

  /** After every run the array is the circular layout of the cache. */
  lemma {:induction false} RunRefines(arrivals: seq<Arrival>)
    ensures Refines(Run(arrivals), Cache(arrivals))
  {
    if arrivals != [] {
      var n := |arrivals| - 1;
      RunRefines(arrivals[..n]);
      StepRefines(Run(arrivals[..n]), Cache(arrivals[..n]), arrivals[n].packet, arrivals[n].port);
    }
  }

  lemma RememberDistinct(q: seq<Binding>, addr: uint32, hw: uint64)
    requires Distinct(q)
    ensures Distinct(Remember(q, addr, hw))
  {
  }

  lemma {:induction false} CacheDistinct(arrivals: seq<Arrival>)
    ensures Distinct(Cache(arrivals)) && |Cache(arrivals)| <= 100 && |Run(arrivals).table| == 100
  {
    if arrivals != [] {
      var n := |arrivals| - 1;
      CacheDistinct(arrivals[..n]);
      var p := arrivals[n].packet;
      RememberDistinct(Cache(arrivals[..n]), p.srcPtclAddr, p.srcHwAddr);
    }
  }

  /** No two IPv4 entries of the array share a sender. */
  lemma NoDuplicateSenders(arrivals: seq<Arrival>, j: nat, k: nat, addr: uint32)
    requires j < ARP_ENTRIES && k < ARP_ENTRIES
    requires IsFor(Run(arrivals).table[j], addr) && IsFor(Run(arrivals).table[k], addr)
    ensures j == k
  {
    var s, q := Run(arrivals), Cache(arrivals);
    RunRefines(arrivals);
    CacheDistinct(arrivals);
    var a := SlotIsBinding(s, q, j);
    var b := SlotIsBinding(s, q, k);
    assert s.table[Slot(s, |q|, a)] == Stored(q[a]);
    assert s.table[Slot(s, |q|, b)] == Stored(q[b]);
  }

  /** The hardware address in the last accepted packet of a sender. */
  function Latest(arrivals: seq<Arrival>, addr: uint32): Option<uint64> {
    if arrivals == [] then None
    else
      var last := arrivals[|arrivals| - 1];
      if Accepted(last.packet, last.port) && last.packet.srcPtclAddr == addr then Some(last.packet.srcHwAddr)
      else Latest(arrivals[..|arrivals| - 1], addr)
  }

  lemma {:induction false} CacheIsLatest(arrivals: seq<Arrival>, i: nat)
    requires i < |Cache(arrivals)|
    ensures Latest(arrivals, Cache(arrivals)[i].addr) == Some(Cache(arrivals)[i].hw)
  {
    if arrivals != [] {
      var n := |arrivals| - 1;
      var q, p := Cache(arrivals[..n]), arrivals[n].packet;
      CacheDistinct(arrivals[..n]);
      var j := i + if |Cache(arrivals)| == |q| && !Holds(q, p.srcPtclAddr) && Accepted(p, arrivals[n].port) then 1 else 0;
      if j < |q| {
        CacheIsLatest(arrivals[..n], j);
      }
    }
  }

  /** Every IPv4 entry of the array holds the latest accepted hardware address of its sender. */
  lemma TableIsLatest(arrivals: seq<Arrival>, k: nat, addr: uint32)
    requires k < ARP_ENTRIES && IsFor(Run(arrivals).table[k], addr)
    ensures Latest(arrivals, addr) == Some(Run(arrivals).table[k].hwAddr)
  {
    var s, q := Run(arrivals), Cache(arrivals);
    RunRefines(arrivals);
    var i := SlotIsBinding(s, q, k);
    assert s.table[Slot(s, |q|, i)] == Stored(q[i]);
    CacheIsLatest(arrivals, i);
  }

  // ---------------------------------------------------------------- eviction

  /** The senders of the accepted packets in the order in which they entered the cache, evicted ones included. */
  function Entries(arrivals: seq<Arrival>): seq<uint32> {
    if arrivals == [] then []
    else
      var last := arrivals[|arrivals| - 1];
      var before := arrivals[..|arrivals| - 1];
      if Accepted(last.packet, last.port) && !Holds(Cache(before), last.packet.srcPtclAddr)
      then Entries(before) + [last.packet.srcPtclAddr]
      else Entries(before)
  }

  function SendersOf(q: seq<Binding>): (r: seq<uint32>)
    ensures |r| == |q| && forall i :: 0 <= i < |q| ==> r[i] == q[i].addr
  {
    seq(|q|, i requires 0 <= i < |q| => q[i].addr)
  }

  ghost predicate HoldsLast(q: seq<Binding>, es: seq<uint32>) {
    && |q| == (if |es| < ARP_ENTRIES then |es| else ARP_ENTRIES)
    && SendersOf(q) == es[|es| - |q|..]
  }

  lemma AppendLast(q: seq<Binding>, es: seq<uint32>, b: Binding)
    requires HoldsLast(q, es)
    ensures HoldsLast(if |q| < ARP_ENTRIES then q + [b] else q[1..] + [b], es + [b.addr])
  {
    var all := es + [b.addr];
    if |q| < ARP_ENTRIES {
      assert SendersOf(q + [b]) == SendersOf(q) + [b.addr];
      assert all[0..] == es[0..] + [b.addr];
    } else {
      assert SendersOf(q[1..] + [b]) == SendersOf(q)[1..] + [b.addr];
      assert all[|all| - |q|..] == es[|es| - |q|..][1..] + [b.addr];
    }
  }

  lemma RebindSenders(q: seq<Binding>, addr: uint32, hw: uint64)
    ensures SendersOf(Rebind(q, addr, hw)) == SendersOf(q)
  {
  }

  lemma RememberLast(q: seq<Binding>, es: seq<uint32>, addr: uint32, hw: uint64)
    requires HoldsLast(q, es)
    ensures HoldsLast(Remember(q, addr, hw), if Holds(q, addr) then es else es + [addr])
  {
    hide Holds, Rebind, SendersOf;
    if Holds(q, addr) {
      RebindSenders(q, addr, hw);
    } else {
      hide HoldsLast;
      AppendLast(q, es, Binding(addr, hw));
    }
  }

  /** First in, first out: the cache holds the last one hundred senders that entered it, oldest first. */
  lemma {:induction false} CacheIsLastEntries(arrivals: seq<Arrival>)
    ensures HoldsLast(Cache(arrivals), Entries(arrivals))
  {
    hide HoldsLast, Accepted, Remember, Holds;
    if arrivals == [] {
      NothingHeld();
    } else {
      var n := |arrivals| - 1;
      var p := arrivals[n].packet;
      CacheIsLastEntries(arrivals[..n]);
      RememberLast(Cache(arrivals[..n]), Entries(arrivals[..n]), p.srcPtclAddr, p.srcHwAddr);
    }
  }

  lemma NothingHeld()
    ensures HoldsLast([], [])
  {
  }

  function Senders(arrivals: seq<Arrival>): set<uint32> {
    set i | 0 <= i < |arrivals| && Accepted(arrivals[i].packet, arrivals[i].port) :: arrivals[i].packet.srcPtclAddr
  }

  lemma SendersNext(arrivals: seq<Arrival>)
    requires arrivals != []
    ensures var n := |arrivals| - 1; var p := arrivals[n].packet;
            Senders(arrivals) == Senders(arrivals[..n]) + if Accepted(p, arrivals[n].port) then {p.srcPtclAddr} else {}
  {
    hide Accepted;
    var n := |arrivals| - 1;
    var before := arrivals[..n];
    assert forall i :: 0 <= i < n ==> before[i] == arrivals[i];
    forall a | a in Senders(before)
      ensures a in Senders(arrivals)
    {
      var i :| 0 <= i < n && Accepted(before[i].packet, before[i].port) && before[i].packet.srcPtclAddr == a;
      assert Accepted(arrivals[i].packet, arrivals[i].port);
    }
    forall a | a in Senders(arrivals)
      ensures a in Senders(before) || (Accepted(arrivals[n].packet, arrivals[n].port) && arrivals[n].packet.srcPtclAddr == a)
    {
      var i :| 0 <= i < |arrivals| && Accepted(arrivals[i].packet, arrivals[i].port) && arrivals[i].packet.srcPtclAddr == a;
      if i < n {
        assert Accepted(before[i].packet, before[i].port);
      }
    }
  }

  lemma HoldsNext(q: seq<Binding>, addr: uint32, hw: uint64, a: uint32)
    requires |q| < ARP_ENTRIES || Holds(q, addr)
    ensures Holds(Remember(q, addr, hw), a) <==> Holds(q, a) || a == addr
  {
    var r := Remember(q, addr, hw);
    if Holds(q, a) {
      var i :| 0 <= i < |q| && q[i].addr == a;
      assert r[i].addr == a;
    }
    if Holds(r, a) {
      var i :| 0 <= i < |r| && r[i].addr == a;
      assert i < |q| ==> q[i].addr == a;
    }
    if a == addr && !Holds(q, addr) {
      assert r[|q|].addr == a;
    }
  }

  /** With at most one hundred senders nobody is evicted: the cache holds every sender of an accepted packet. */
  lemma {:induction false} NothingEvicted(arrivals: seq<Arrival>)
    requires |Senders(arrivals)| <= 100
    ensures |Cache(arrivals)| == |Senders(arrivals)|
    ensures forall a: uint32 :: Holds(Cache(arrivals), a) <==> a in Senders(arrivals)
  {
    if arrivals == [] {
      assert Senders(arrivals) == {};
    } else {
      hide Accepted, Senders;
      var n := |arrivals| - 1;
      var q, p := Cache(arrivals[..n]), arrivals[n].packet;
      var known := Senders(arrivals[..n]);
      SendersNext(arrivals);
      SubsetSize(known, Senders(arrivals));
      NothingEvicted(arrivals[..n]);
      if Accepted(p, arrivals[n].port) {
        if p.srcPtclAddr in known {
          assert known + {p.srcPtclAddr} == known;
        }
        forall a: uint32
          ensures Holds(Cache(arrivals), a) <==> a in Senders(arrivals)
        {
          HoldsNext(q, p.srcPtclAddr, p.srcHwAddr, a);
        }
      }
    }
  }

  lemma {:induction false} SubsetSize(a: set<uint32>, b: set<uint32>)
    requires a <= b
    ensures |a| <= |b|
  {
    if a != {} {
      var x :| x in a;
      SubsetSize(a - {x}, b - {x});
    }
  }
}
