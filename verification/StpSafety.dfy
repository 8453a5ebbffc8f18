/**
 What holds in every reachable state of the spanning tree network, whatever is delayed,
 reordered, duplicated or lost.
 */
module StpSafety {
  import opened Basics
  import opened StpSwitch
  import opened StpNetwork

  ghost predicate Reached(t: Topology, n: Net) {
    ValidTopology(t) && Fits(t, Start(t)) && exists steps :: Run(t, Start(t), steps, n)
  }

  lemma ReachedInv(t: Topology, n: Net)
    requires Reached(t, n)
    ensures Inv(t, n)
  {
    hide Inv, Fits, Run, ValidTopology;
    var steps :| Run(t, Start(t), steps, n);
    StartInv(t);
    RunKeepsInv(t, Start(t), steps, n);
  }

  ghost predicate IsDesignated(t: Topology, n: Net, e: Endpoint)
    requires Fits(t, n) && ValidEndpoint(t, e)
  {
    Designated(n.sw[e.bridge], e.port)
  }

  /** The vector switch b would announce through its port at e. */
  ghost function LocalAt(t: Topology, n: Net, e: Endpoint): Vector
    requires Fits(t, n) && ValidEndpoint(t, e)
  {
    Local(n.sw[e.bridge], e.port)
  }

  ghost function StoredAt(t: Topology, n: Net, e: Endpoint): Vector
    requires Fits(t, n) && ValidEndpoint(t, e)
  {
    n.sw[e.bridge].ports[e.port]
  }

  // ---------------------------------------------------------------------
  // The per-switch invariant, over runs
  // ---------------------------------------------------------------------

  /**
   In every reachable state: each port is designated and stores the local vector or stores a
   strictly better one; the root port is the best candidate and not designated; and having no
   root port, believing to be root and running the hello timer coincide.
   */
  lemma SwitchesConsistent(t: Topology, n: Net, b: u64)
    requires Reached(t, n) && b in t.nports
    ensures Fits(t, n) && SwitchInv(n.sw[b])
    ensures n.sw[b].rootPort.None? <==> n.sw[b].root == b
    ensures n.sw[b].hello <==> n.sw[b].root == b
    ensures n.sw[b].rootPort.Some? ==> !IsDesignated(t, n, Endpoint(b, n.sw[b].rootPort.value))
  {
    ReachedInv(t, n);
    assert SwitchOk(t, n, b);
    RootBeliefs(n.sw[b]);
  }

  // ---------------------------------------------------------------------
  // Claims are real
  // ---------------------------------------------------------------------

  /** p is a simple path of the topology with exactly cost hops. */
  ghost predicate SimplePath(t: Topology, p: seq<u64>, a: u64, b: u64, cost: nat) {
    && |p| == cost + 1 && p[0] == a && p[cost] == b
    && (forall i | 0 <= i < |p| :: p[i] in t.nports)
    && (forall i, j | 0 <= i < j < |p| :: p[i] != p[j])
    && (forall i | 0 < i < |p| :: Adjacent(t, p[i - 1], p[i]))
  }

  /** A claimed root and cost of switch b: realised by a simple path, so adding 1 cannot overflow a C int. */
  ghost predicate Justified(t: Topology, root: u64, cost: nat, b: u64) {
    (exists p :: SimplePath(t, p, root, b, cost)) && cost < |t.nports| && cost + PATH_COST <= INT_MAX
  }

  lemma RealIsJustified(t: Topology, n: Net, root: u64, cost: nat, b: u64)
    requires Fits(t, n) && Real(t, n, root, cost, b)
    ensures Justified(t, root, cost, b)
  {
    RealIsShort(t, n, root, cost, b);
    var p :| Witness(t, n, p, root, cost, b);
    assert SimplePath(t, p, root, b, cost);
  }

  /** Every root and cost held by a switch, a port or a BPDU in flight is justified. */
  lemma ClaimsAreReal(t: Topology, n: Net)
    requires Reached(t, n)
    ensures Fits(t, n)
    ensures forall b | b in t.nports :: Justified(t, n.sw[b].root, n.sw[b].cost, b)
    ensures forall e | ValidEndpoint(t, e) ::
      var v := StoredAt(t, n, e); Justified(t, v.root, v.cost, v.bridge)
    ensures forall m | m in n.flight :: Justified(t, m.v.root, m.v.cost, m.v.bridge)
  {
    hide SwitchInv, Justified, Real;
    ReachedInv(t, n);
    forall b | b in t.nports
      ensures Justified(t, n.sw[b].root, n.sw[b].cost, b)
    {
      assert SwitchOk(t, n, b);
      RealIsJustified(t, n, n.sw[b].root, n.sw[b].cost, b);
    }
    forall e | ValidEndpoint(t, e)
      ensures var v := StoredAt(t, n, e); Justified(t, v.root, v.cost, v.bridge)
    {
      StoredIsReal(t, n, e);
      var v := StoredAt(t, n, e);
      RealIsJustified(t, n, v.root, v.cost, v.bridge);
    }
    forall m | m in n.flight
      ensures Justified(t, m.v.root, m.v.cost, m.v.bridge)
    {
      assert MsgOk(t, n, m);
      RealIsJustified(t, n, m.v.root, m.v.cost, m.v.bridge);
    }
  }

  /** Whatever a port stores is real, and comes from itself or from the far end of its link. */
  lemma StoredIsReal(t: Topology, n: Net, e: Endpoint)
    requires Inv(t, n) && ValidEndpoint(t, e)
    ensures var v := StoredAt(t, n, e);
      Real(t, n, v.root, v.cost, v.bridge) && (IsDesignated(t, n, e) || FromPeer(t, e, v))
    ensures IsDesignated(t, n, e) ==> StoredAt(t, n, e) == LocalAt(t, n, e)
    ensures !IsDesignated(t, n, e) ==> VectorBetter(StoredAt(t, n, e), LocalAt(t, n, e))
  {
    hide Real, FromPeer;
    assert SwitchOk(t, n, e.bridge);
    assert PortOk(t, n, e.bridge, e.port);
  }

  // ---------------------------------------------------------------------
  // Root pointers never loop
  // ---------------------------------------------------------------------

  /** The switch behind the root port of b. */
  ghost predicate Parent(t: Topology, n: Net, b: u64, a: u64)
    requires Fits(t, n)
  {
    && b in n.sw && n.sw[b].rootPort.Some? && n.sw[b].rootPort.value < |n.sw[b].ports|
    && n.sw[b].ports[n.sw[b].rootPort.value].bridge == a
  }

  /** (r1, c1) is a strictly better root and cost than (r2, c2). */
  ghost predicate Below(r1: int, c1: int, r2: int, c2: int) {
    r1 < r2 || (r1 == r2 && c1 < c2)
  }

  /** The root port leads over a link to a switch with a strictly better root and cost. */
  lemma ParentDescends(t: Topology, n: Net, b: u64, a: u64)
    requires Reached(t, n) && Fits(t, n) && Parent(t, n, b, a)
    ensures a in n.sw && Adjacent(t, b, a)
    ensures Below(n.sw[a].root, n.sw[a].cost, n.sw[b].root, n.sw[b].cost)
  {
    hide Reached, Real, FromPeer;
    ReachedInv(t, n);
    assert SwitchOk(t, n, b);
    var e := Endpoint(b, n.sw[b].rootPort.value);
    StoredIsReal(t, n, e);
    var v := StoredAt(t, n, e);
    RealIsShort(t, n, v.root, v.cost, v.bridge);
    PeerAdjacent(t, e, v);
  }

  /** No chain of root pointers returns to a switch it has visited. */
  lemma {:induction false} RootPointersNeverLoop(t: Topology, n: Net, chain: seq<u64>)
    requires Reached(t, n) && Fits(t, n) && |chain| >= 2
    requires forall i | 0 < i < |chain| :: Parent(t, n, chain[i - 1], chain[i])
    ensures chain[0] in n.sw && chain[|chain| - 1] in n.sw
    ensures var a, z := n.sw[chain[|chain| - 1]], n.sw[chain[0]]; Below(a.root, a.cost, z.root, z.cost)
    ensures chain[0] != chain[|chain| - 1]
    decreases |chain|
  {
    hide Reached, Fits;
    var k := |chain| - 1;
    assert Parent(t, n, chain[k - 1], chain[k]);
    ParentDescends(t, n, chain[k - 1], chain[k]);
    if k > 1 {
      var front := chain[..k];
      assert forall i | 0 <= i < k :: front[i] == chain[i];
      RootPointersNeverLoop(t, n, front);
    }
  }

  // ---------------------------------------------------------------------
  // Links are never blocked from both sides
  // ---------------------------------------------------------------------

  /** A vector stored from the far end is one the far end could still announce, or a worse one. */
  lemma StoredFromPeerIsPast(t: Topology, n: Net, e: Endpoint)
    requires Inv(t, n) && e in t.link && !IsDesignated(t, n, e)
    ensures !VectorBetter(StoredAt(t, n, e), LocalAt(t, n, t.link[e]))
  {
    hide SwitchOk, MsgOk, Real;
    StoredIsReal(t, n, e);
    var v := StoredAt(t, n, e);
    RealIsShort(t, n, v.root, v.cost, v.bridge);
  }

  /** At least one end of every link is designated. */
  lemma NeverBlockedFromBothSides(t: Topology, n: Net, e: Endpoint)
    requires Reached(t, n) && Fits(t, n) && e in t.link
    ensures IsDesignated(t, n, e) || IsDesignated(t, n, t.link[e])
  {
    hide Reached;
    ReachedInv(t, n);
    hide Inv;
    OneEndDesignated(t, n, e);
  }

  lemma OneEndDesignated(t: Topology, n: Net, e: Endpoint)
    requires Inv(t, n) && e in t.link
    ensures IsDesignated(t, n, e) || IsDesignated(t, n, t.link[e])
  {
    hide IsDesignated, StoredAt, LocalAt, Real, FromPeer;
    var f := t.link[e];
    if !IsDesignated(t, n, e) && !IsDesignated(t, n, f) {
      StoredIsReal(t, n, e);
      StoredIsReal(t, n, f);
      StoredFromPeerIsPast(t, n, e);
      StoredFromPeerIsPast(t, n, f);
      // stored(e) < local(e) <= stored(f) < local(f) <= stored(e)
      VectorOrder(StoredAt(t, n, e), LocalAt(t, n, e), StoredAt(t, n, f));
      VectorOrder(StoredAt(t, n, f), LocalAt(t, n, f), StoredAt(t, n, e));
      VectorOrder(StoredAt(t, n, e), StoredAt(t, n, f), StoredAt(t, n, e));
      VectorOrder(LocalAt(t, n, e), StoredAt(t, n, f), LocalAt(t, n, e));
      VectorOrder(LocalAt(t, n, f), StoredAt(t, n, e), LocalAt(t, n, f));
    }
  }
}
