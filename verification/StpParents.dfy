/**
 Which of several equally good ports is chosen, in terms of the fields compared: the root port, the parent in a
 settled network, and the designated end of a link.
 */
module StpParents {
  import opened Basics
  import opened Walks
  import opened StpSwitch
  import opened StpNetwork
  import opened StpSafety
  import opened StpConvergence

  /** Port ids are distinct 16-bit words: priority 128 in the high byte, the number counted from 1 in the low one. */
  lemma PortIdParts(i: nat, j: nat)
    requires i < MAX_PORTS && j < MAX_PORTS
    ensures PortId(i) / 0x100 == 128 && PortId(i) % 0x100 == i + 1
    ensures PortId(i) < PortId(j) <==> i < j
  {}

  /** Port q offers this root at this cost, and is not designated. */
  predicate OffersRoot(s: SwitchState, q: nat, root: u64, cost: nat) {
    && Shaped(s) && q < |s.ports| && !Designated(s, q) && s.ports[q].root == root < s.id
    && s.ports[q].cost + 1 == cost
  }

  /** r comes no later than q in the order of far switch id, far port id, own index. */
  predicate NoLater(s: SwitchState, r: nat, q: nat)
    requires r < |s.ports| && q < |s.ports|
  {
    var v, w := s.ports[r], s.ports[q];
    v.bridge < w.bridge || (v.bridge == w.bridge && (v.port < w.port || (v.port == w.port && r <= q)))
  }

  /**
   The root port offers the least root at the least cost; among the ports that offer the same, the far switch has
   the least id, then the far port has the least id, then the port itself has the least index.
   */
  lemma RootPortIsLeast(s: SwitchState, q: nat)
    requires SwitchInv(s) && CostsBounded(s) && s.rootPort.Some? && q < |s.ports|
    ensures OffersRoot(s, s.rootPort.value, s.root, s.cost)
    ensures !Designated(s, q) && s.ports[q].root < s.id ==>
      s.root < s.ports[q].root || (s.root == s.ports[q].root && s.cost <= s.ports[q].cost + 1)
    ensures OffersRoot(s, q, s.root, s.cost) ==> NoLater(s, s.rootPort.value, q)
  {
    var r := s.rootPort.value;
    assert s.ports[r].cost < 0xFFFF_FFFF && s.ports[q].cost < 0xFFFF_FFFF;
    if !Designated(s, q) && s.ports[q].root < s.id && q != r {
      assert Candidate(s, q) && RootPortBetter(s.ports[r], r, s.ports[q], q);
      PortIdParts(r, q);
    }
  }

  /** The election leaves no other choice: a port that every port offering as much comes no earlier than is elected. */
  lemma ElectedIsLeast(s: SwitchState, r: nat)
    requires Shaped(s) && CostsBounded(s) && r < |s.ports| && OffersRoot(s, r, s.ports[r].root, s.ports[r].cost + 1)
    requires forall q | 0 <= q < |s.ports| && !Designated(s, q) && s.ports[q].root < s.id ::
      || s.ports[r].root < s.ports[q].root
      || (s.ports[r].root == s.ports[q].root && s.ports[r].cost < s.ports[q].cost)
      || (s.ports[r].root == s.ports[q].root && s.ports[r].cost == s.ports[q].cost && NoLater(s, r, q))
    ensures Update(s).rootPort == Some(r)
    ensures Update(s).root == s.ports[r].root && Update(s).cost == s.ports[r].cost + 1
  {
    ElectIsBest(s, |s.ports|);
    RootOfUpdate(s);
    assert Candidate(s, r);
    hide Elect, Update;
    var b := Elect(s, |s.ports|).value;
    assert s.ports[b].cost < 0xFFFF_FFFF && s.ports[r].cost < 0xFFFF_FFFF;
    if b != r {
      assert RootPortBetter(s.ports[b], b, s.ports[r], r);
      PortIdParts(b, r);
    }
  }

  // ---------------------------------------------------------------------
  // Settled networks
  // ---------------------------------------------------------------------

  /** e comes no later than f in the order of far switch id, far port, own port. */
  ghost predicate LinkNoLater(t: Topology, e: Endpoint, f: Endpoint)
    requires e in t.link && f in t.link
  {
    var a, b := t.link[e], t.link[f];
    a.bridge < b.bridge || (a.bridge == b.bridge && (a.port < b.port || (a.port == b.port && e.port <= f.port)))
  }

  /** Over a link to a switch one hop closer to the root, the port stores exactly what that switch announces. */
  lemma CloserEnd(t: Topology, n: Net, r: u64, e: Endpoint)
    requires Settled(t, n, r) && e in t.link && n.sw[t.link[e].bridge].cost + 1 == n.sw[e.bridge].cost
    ensures IsDesignated(t, n, t.link[e]) && !IsDesignated(t, n, e)
    ensures StoredAt(t, n, e) == LocalAt(t, n, t.link[e])
  {
    hide SwitchOk, MsgOk, Inv;
    assert Inv(t, n);
    SettledFits(t, n, r);
    var f := t.link[e];
    assert SettledLink(t, n, e) && SettledLink(t, n, f);
    if IsDesignated(t, n, e) { StoredIsReal(t, n, f); }
  }

  /**
   In a settled network the root port of a switch leads to a neighbour one hop closer to the root; of all such
   neighbours it is the one with the smallest id, reached over its smallest port and then the own smallest port.
   */
  lemma ParentIsLeast(t: Topology, n: Net, r: u64, b: u64, e: Endpoint)
    requires Settled(t, n, r) && b in n.sw && b != r
    requires e in t.link && e.bridge == b && n.sw[t.link[e].bridge].cost + 1 == n.sw[b].cost
    ensures n.sw[b].rootPort.Some?
    ensures var p := Endpoint(b, n.sw[b].rootPort.value);
      p in t.link && n.sw[t.link[p].bridge].cost + 1 == n.sw[b].cost && LinkNoLater(t, p, e)
  {
    hide SwitchOk, MsgOk, Inv;
    assert Inv(t, n);
    SettledFits(t, n, r);
    InvIsLocal(t, n, b);
    InvBounds(t, n, b);
    RootBeliefs(n.sw[b]);
    var p := Endpoint(b, n.sw[b].rootPort.value);
    RootPortLink(t, n, r, p);
    CloserEnd(t, n, r, p);
    CloserEnd(t, n, r, e);
    RootPortIsLeast(n.sw[b], e.port);
    LinkOrder(t, n, p, e);
  }

  lemma LinkOrder(t: Topology, n: Net, p: Endpoint, e: Endpoint)
    requires Fits(t, n) && p in t.link && e in t.link && p.bridge == e.bridge
    requires StoredAt(t, n, p) == LocalAt(t, n, t.link[p]) && StoredAt(t, n, e) == LocalAt(t, n, t.link[e])
    requires NoLater(n.sw[e.bridge], p.port, e.port)
    ensures LinkNoLater(t, p, e)
  {
    PortIdParts(t.link[p].port, t.link[e].port);
    PortIdParts(t.link[e].port, t.link[p].port);
  }

  /**
   In a settled network the designated end of a link is the end nearer to the root; at equal distance it is the end
   at the switch with the smaller id, and if both ends are at one switch, the smaller port.
   */
  lemma DesignatedEnd(t: Topology, n: Net, r: u64, e: Endpoint)
    requires Settled(t, n, r) && e in t.link
    ensures var a, b := n.sw[e.bridge], n.sw[t.link[e].bridge];
      IsDesignated(t, n, e) <==>
        || a.cost < b.cost
        || (a.cost == b.cost && (e.bridge < t.link[e].bridge
            || (e.bridge == t.link[e].bridge && e.port < t.link[e].port)))
  {
    hide SwitchOk, MsgOk;
    SettledFits(t, n, r);
    var f := t.link[e];
    ActiveIsRootLink(t, n, r, e);
    StoredIsReal(t, n, e);
    StoredIsReal(t, n, f);
    PortIdParts(e.port, f.port);
    PortIdParts(f.port, e.port);
    assert SettledLink(t, n, e) && SettledLink(t, n, f);
  }
}
