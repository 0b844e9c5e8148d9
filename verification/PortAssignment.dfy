/**
  The set-up of the forwarder: ports are paired, spread over the enabled lcores, and every lcore flushes
  the partners of its ports. Together, each port's transmit buffer is flushed by exactly one lcore.
 */
module PortAssignment {

  // ---------------------------------------------------------------- pairing

  /** The partner of an even port is the next one, if there is one; the partner of an odd port the one before. */
  function Partner(p: nat, n: nat): nat {
    if p % 2 == 1 then p - 1 else if p + 1 < n then p + 1 else p
  }

  /** What the pairing is for: an involution on the ports whose only fixed point is the last port of an odd number. */
  ghost predicate Paired(dst: seq<nat>, n: nat)
    requires n <= |dst|
  {
    && (forall p :: 0 <= p < n ==> dst[p] < n)
    && (forall p :: 0 <= p < n ==> dst[dst[p]] == p)
    && (forall p :: 0 <= p < n ==> (dst[p] == p <==> n % 2 == 1 && p == n - 1))
  }

  /** The loop over the ports that fills `l2fwd_dst_ports`. */
  method PairPorts(dst: array<nat>, ports: nat)
    requires ports <= dst.Length
    modifies dst
    ensures Paired(dst[..], ports)
    ensures forall p :: 0 <= p < ports ==> dst[p] == Partner(p, ports)
    ensures forall p :: ports <= p < dst.Length ==> dst[p] == 0
  {
    for p := 0 to dst.Length
      invariant forall k :: 0 <= k < p ==> dst[k] == 0
    {
      dst[p] := 0;
    }
    var last, seen := 0, 0;
    for p := 0 to ports
      invariant seen == p
      invariant p > 0 ==> last == if p % 2 == 1 then p - 1 else p - 2
      invariant forall k :: 0 <= k < p && !(p % 2 == 1 && k == p - 1) ==> dst[k] == Partner(k, p)
      invariant forall k :: p <= k < dst.Length ==> dst[k] == 0
    {
      if seen % 2 == 1 {
        dst[p] := last;
        dst[last] := p;
      } else {
        last := p;
      }
      seen := seen + 1;
    }
    if seen % 2 == 1 {
      dst[last] := last;
    }
    PartnersPair(dst[..], ports);
  }

  lemma PartnersPair(dst: seq<nat>, n: nat)
    requires n <= |dst| && forall p :: 0 <= p < n ==> dst[p] == Partner(p, n)
    ensures Paired(dst, n)
  {
    forall p | 0 <= p < n
      ensures dst[p] < n && dst[dst[p]] == p && (dst[p] == p <==> n % 2 == 1 && p == n - 1)
    {
      assert Partner(p, n) < n && Partner(Partner(p, n), n) == p;
      assert dst[Partner(p, n)] == p;
    }
  }

  // ---------------------------------------------------------------- lcores

  /** The ports from `first` up to but not including `last`. */
  function Ports(first: nat, last: nat): (r: seq<nat>)
    requires first <= last
    ensures |r| == last - first && forall i :: 0 <= i < |r| ==> r[i] == first + i
  {
    seq(last - first, i requires 0 <= i => first + i)
  }

  function Min(a: int, b: int): int {
    if a < b then a else b
  }

  /** The ports each lcore gets: enabled lcores take up to `queues` each, in order, until none is left. */
  function Shares(enabled: seq<bool>, queues: nat, first: nat, n: nat): (r: seq<seq<nat>>)
    requires first <= n
    ensures |r| == |enabled|
  {
    if enabled == [] then []
    else
      var k := if enabled[0] then Min(queues, n - first) else 0;
      [Ports(first, first + k)] + Shares(enabled[1..], queues, first + k, n)
  }

  /** How many ports the enabled lcores can take. */
  function Capacity(enabled: seq<bool>, queues: nat): nat {
    if enabled == [] then 0 else (if enabled[0] then queues else 0) + Capacity(enabled[1..], queues)
  }

  function CountEnabled(enabled: seq<bool>): nat {
    if enabled == [] then 0 else (if enabled[0] then 1 else 0) + CountEnabled(enabled[1..])
  }

  /** The capacity is the queue count times the number of enabled lcores. */
  lemma {:induction false} CapacityIs(enabled: seq<bool>, queues: nat)
    ensures Capacity(enabled, queues) == queues * CountEnabled(enabled)
  {
    if enabled != [] {
      CapacityIs(enabled[1..], queues);
      var n := CountEnabled(enabled[1..]);
      assert queues * (n + 1) == queues * n + queues;
    }
  }

  /** The lcore takes no further port. */
  predicate Skipped(enabled: seq<bool>, queues: nat, conf: seq<seq<nat>>, l: nat)
    requires l < |enabled| && l < |conf|
  {
    !enabled[l] || |conf[l]| == queues
  }

  /**
    The loop that assigns each port to an lcore. `conf[l]` is the used part of the lcore's `rx_port_list`,
    which has room for 16 ports.
    Without enough enabled lcores the original runs past the end of its configuration.
   */
  method AssignPorts(enabled: seq<bool>, queues: nat, ports: nat, conf: array<seq<nat>>)
    requires 1 <= queues <= 15
    requires conf.Length == |enabled| && forall l :: 0 <= l < conf.Length ==> conf[l] == []
    requires ports <= Capacity(enabled, queues)
    modifies conf
    ensures conf[..] == Shares(enabled, queues, 0, ports)
    ensures forall l :: 0 <= l < conf.Length ==> |conf[l]| <= queues < 16
  {
    SharesOfNone(enabled, queues, 0);
    assert conf[..] == Shares(enabled, queues, 0, 0);
    var lcore := 0;
    for port := 0 to ports
      invariant lcore <= conf.Length
      invariant conf[..] == Shares(enabled, queues, 0, port)
      invariant forall l :: 0 <= l < lcore ==> Skipped(enabled, queues, conf[..], l)
    {
      lcore := NextLcore(enabled, queues, conf, lcore, port);
      NextPort(enabled, queues, 0, port, lcore);
      ghost var before := conf[..];
      conf[lcore] := conf[lcore] + [port];
      forall l | 0 <= l < lcore
        ensures Skipped(enabled, queues, conf[..], l)
      {
        assert Skipped(enabled, queues, before, l) && conf[..][l] == before[l];
      }
    }
    SharesBounded(enabled, queues, 0, ports);
  }

  /** The inner loop: skip lcores that are disabled or full. */
  method NextLcore(enabled: seq<bool>, queues: nat, conf: array<seq<nat>>, start: nat, port: nat) returns (lcore: nat)
    requires conf.Length == |enabled| && start <= conf.Length
    requires conf[..] == Shares(enabled, queues, 0, port) && port < Capacity(enabled, queues)
    requires forall l :: 0 <= l < start ==> Skipped(enabled, queues, conf[..], l)
    ensures lcore < conf.Length && !Skipped(enabled, queues, conf[..], lcore)
    ensures forall l :: 0 <= l < lcore ==> Skipped(enabled, queues, conf[..], l)
  {
    lcore := start;
    RoomLeft(enabled, queues, 0, port);
    while !enabled[lcore] || |conf[lcore]| == queues
      invariant lcore < conf.Length
      invariant forall l :: 0 <= l < lcore ==> Skipped(enabled, queues, conf[..], l)
      decreases conf.Length - lcore
    {
      lcore := lcore + 1;
    }
  }

  /** While fewer ports than the capacity are assigned, some enabled lcore has room. */
  lemma {:induction false} RoomLeft(enabled: seq<bool>, queues: nat, first: nat, n: nat)
    requires first <= n < first + Capacity(enabled, queues)
    ensures exists l :: 0 <= l < |enabled| && !Skipped(enabled, queues, Shares(enabled, queues, first, n), l)
  {
    var all := Shares(enabled, queues, first, n);
    var k := if enabled[0] then Min(queues, n - first) else 0;
    if enabled[0] && k < queues {
      assert !Skipped(enabled, queues, all, 0);
    } else {
      RoomLeft(enabled[1..], queues, first + k, n);
      var rest := Shares(enabled[1..], queues, first + k, n);
      var l :| 0 <= l < |enabled[1..]| && !Skipped(enabled[1..], queues, rest, l);
      assert all[l + 1] == rest[l];
      assert !Skipped(enabled, queues, all, l + 1);
    }
  }

  lemma {:induction false} SharesOfNone(enabled: seq<bool>, queues: nat, first: nat)
    ensures forall l :: 0 <= l < |enabled| ==> Shares(enabled, queues, first, first)[l] == []
  {
    if enabled != [] {
      SharesOfNone(enabled[1..], queues, first);
    }
  }

  /** The next port goes to the first lcore with room. */
  lemma {:induction false} NextPort(enabled: seq<bool>, queues: nat, first: nat, n: nat, lcore: nat)
    requires first <= n && lcore < |enabled|
    requires !Skipped(enabled, queues, Shares(enabled, queues, first, n), lcore)
    requires forall l :: 0 <= l < lcore ==> Skipped(enabled, queues, Shares(enabled, queues, first, n), l)
    ensures var s := Shares(enabled, queues, first, n);
            Shares(enabled, queues, first, n + 1) == s[lcore := s[lcore] + [n]]
  {
    var s := Shares(enabled, queues, first, n);
    var k := if enabled[0] then Min(queues, n - first) else 0;
    var rest := Shares(enabled[1..], queues, first + k, n);
    if lcore == 0 {
      assert first + k == n;
      assert Ports(first, n + 1) == Ports(first, n) + [n];
      NoneLeft(enabled[1..], queues, n);
    } else {
      assert Skipped(enabled, queues, s, 0);
      forall l | 0 <= l < lcore - 1
        ensures Skipped(enabled[1..], queues, rest, l)
      {
        assert Skipped(enabled, queues, s, l + 1);
      }
      NextPort(enabled[1..], queues, first + k, n, lcore - 1);
    }
  }

  lemma NoneLeft(enabled: seq<bool>, queues: nat, n: nat)
    ensures Shares(enabled, queues, n, n) == Shares(enabled, queues, n + 1, n + 1)
  {
    SharesOfNone(enabled, queues, n);
    SharesOfNone(enabled, queues, n + 1);
    assert forall l :: 0 <= l < |enabled| ==> Shares(enabled, queues, n, n)[l] == Shares(enabled, queues, n + 1, n + 1)[l];
  }

  /** Only enabled lcores get ports, and no more than `queues` of them. */
  lemma {:induction false} SharesBounded(enabled: seq<bool>, queues: nat, first: nat, n: nat)
    requires first <= n
    ensures forall l :: 0 <= l < |enabled| ==>
              var share := Shares(enabled, queues, first, n)[l];
              |share| <= queues && (share != [] ==> enabled[l])
  {
    if enabled != [] {
      var k := if enabled[0] then Min(queues, n - first) else 0;
      SharesBounded(enabled[1..], queues, first + k, n);
    }
  }

  ghost predicate At(conf: seq<seq<nat>>, l: int, i: int, p: nat) {
    0 <= l < |conf| && 0 <= i < |conf[l]| && conf[l][i] == p
  }

  /** With enough capacity every port is in some list, and the lists hold nothing else. */
  lemma {:induction false} SharesCover(enabled: seq<bool>, queues: nat, first: nat, n: nat, p: nat)
    requires first <= n <= first + Capacity(enabled, queues)
    ensures first <= p < n ==> exists l, i :: At(Shares(enabled, queues, first, n), l, i, p)
    ensures (exists l, i :: At(Shares(enabled, queues, first, n), l, i, p)) ==> first <= p < n
  {
    var all := Shares(enabled, queues, first, n);
    if enabled != [] {
      var k := if enabled[0] then Min(queues, n - first) else 0;
      var rest := Shares(enabled[1..], queues, first + k, n);
      SharesCover(enabled[1..], queues, first + k, n, p);
      if first <= p < first + k {
        assert At(all, 0, p - first, p);
      } else if first + k <= p < n {
        var l, i :| At(rest, l, i, p);
        assert At(all, l + 1, i, p);
      }
    }
    if l, i :| At(all, l, i, p) {
      SharesDisjoint(enabled, queues, first, n, p, l, i, l, i);
    }
  }

  /** No port is in two places. */
  lemma {:induction false} SharesDisjoint(
    enabled: seq<bool>, queues: nat, first: nat, n: nat, p: nat, l: int, i: int, l': int, i': int)
    requires first <= n
    requires At(Shares(enabled, queues, first, n), l, i, p) && At(Shares(enabled, queues, first, n), l', i', p)
    ensures l == l' && i == i' && first <= p < n
    decreases |enabled|
  {
    var all := Shares(enabled, queues, first, n);
    var k := if enabled[0] then Min(queues, n - first) else 0;
    var rest := Shares(enabled[1..], queues, first + k, n);
    if l > 0 {
      assert At(rest, l - 1, i, p);
      SharesDisjoint(enabled[1..], queues, first + k, n, p, l - 1, i, l - 1, i);
    }
    if l' > 0 {
      assert At(rest, l' - 1, i', p);
      SharesDisjoint(enabled[1..], queues, first + k, n, p, l' - 1, i', l' - 1, i');
    }
    if l > 0 && l' > 0 {
      SharesDisjoint(enabled[1..], queues, first + k, n, p, l - 1, i, l' - 1, i');
    }
  }

  // ---------------------------------------------------------------- flushing

  /** The drain loop of one lcore: the ports whose buffers it flushes, in order. */
  method FlushPorts(rxPorts: seq<nat>, dst: array<nat>) returns (flushed: seq<nat>)
    requires forall i :: 0 <= i < |rxPorts| ==> rxPorts[i] < dst.Length
    ensures flushed == Flushed(rxPorts, dst[..])
  {
    flushed := [];
    for i := 0 to |rxPorts|
      invariant flushed == Flushed(rxPorts[..i], dst[..])
    {
      flushed := flushed + [dst[rxPorts[i]]];
    }
    assert rxPorts[..|rxPorts|] == rxPorts;
  }

  function Flushed(rxPorts: seq<nat>, dst: seq<nat>): (r: seq<nat>)
    requires forall i :: 0 <= i < |rxPorts| ==> rxPorts[i] < |dst|
    ensures |r| == |rxPorts| && forall i :: 0 <= i < |r| ==> r[i] == dst[rxPorts[i]]
  {
    seq(|rxPorts|, i requires 0 <= i < |rxPorts| => dst[rxPorts[i]])
  }

  /** The ports assigned to every lcore have an entry in `dst`, so its drain loop can run. */
  ghost predicate CanFlush(conf: seq<seq<nat>>, dst: seq<nat>) {
    forall l, i :: 0 <= l < |conf| && 0 <= i < |conf[l]| ==> conf[l][i] < |dst|
  }

  /** The i-th flush of lcore `l` is that of port `p`. */
  ghost predicate Flushes(conf: seq<seq<nat>>, dst: seq<nat>, l: int, i: int, p: nat)
    requires CanFlush(conf, dst)
  {
    0 <= l < |conf| && 0 <= i < |Flushed(conf[l], dst)| && Flushed(conf[l], dst)[i] == p
  }

  lemma SharesCanFlush(enabled: seq<bool>, queues: nat, n: nat, dst: seq<nat>)
    requires n <= |dst|
    ensures CanFlush(Shares(enabled, queues, 0, n), dst)
  {
    var conf := Shares(enabled, queues, 0, n);
    forall l, i | 0 <= l < |conf| && 0 <= i < |conf[l]|
      ensures conf[l][i] < |dst|
    {
      assert At(conf, l, i, conf[l][i]);
      SharesDisjoint(enabled, queues, 0, n, conf[l][i], l, i, l, i);
    }
  }

  /** Every port is flushed by exactly one lcore, at exactly one place of what its drain loop flushes. */
  lemma FlushCoverage(enabled: seq<bool>, queues: nat, n: nat, dst: seq<nat>, p: nat)
    requires n <= |dst| && Paired(dst, n) && n <= Capacity(enabled, queues) && p < n
    ensures var conf := Shares(enabled, queues, 0, n);
            && CanFlush(conf, dst)
            && (exists l, i :: Flushes(conf, dst, l, i, p))
            && (forall l, i, l', i' :: Flushes(conf, dst, l, i, p) && Flushes(conf, dst, l', i', p) ==> l == l' && i == i')
  {
    var conf := Shares(enabled, queues, 0, n);
    SharesCanFlush(enabled, queues, n, dst);
    SharesCover(enabled, queues, 0, n, dst[p]);
    var l0, i0 :| At(conf, l0, i0, dst[p]);
    assert Flushes(conf, dst, l0, i0, p);
    forall l, i | Flushes(conf, dst, l, i, p)
      ensures l == l0 && i == i0
    {
      var q := conf[l][i];
      assert At(conf, l, i, q);
      SharesDisjoint(enabled, queues, 0, n, q, l, i, l, i);
      assert dst[dst[q]] == q;
      SharesDisjoint(enabled, queues, 0, n, q, l, i, l0, i0);
    }
  }
}
