/**
 Without loss the network converges: whenever nothing is in flight and every switch that still
 believes it is root has fired its hello timer, the ports form a shortest-path spanning tree.
 */
module StpConvergence {
  import opened Basics
  import opened Walks
  import opened StpSwitch
  import opened StpNetwork
  import opened StpSafety
  import opened StpSettling

  // ---------------------------------------------------------------------
  // Lossless runs: what a designated port knows, its far end has heard or will hear
  // ---------------------------------------------------------------------

  /** The switch has announced its current root and cost through all designated ports. */
  ghost predicate Announced(n: Net, b: u64) {
    b in n.sw && (n.sw[b].root != b || b in n.fired)
  }

  /** The far end stores something no worse than e's local vector, or that vector is on its way. */
  ghost predicate Heard(t: Topology, n: Net, e: Endpoint)
    requires Fits(t, n) && e in t.link
  {
    || !VectorBetter(LocalAt(t, n, e), StoredAt(t, n, t.link[e]))
    || Msg(t.link[e], LocalAt(t, n, e)) in n.flight
  }

  ghost predicate AllHeard(t: Topology, n: Net)
    requires Fits(t, n)
  {
    forall e | e in t.link && IsDesignated(t, n, e) && Announced(n, e.bridge) :: Heard(t, n, e)
  }

  ghost predicate Lossless(steps: seq<Step>) {
    forall i | 0 <= i < |steps| :: !steps[i].Lose?
  }

  ghost predicate LosslessReached(t: Topology, n: Net) {
    ValidTopology(t) && Fits(t, Start(t)) && exists steps :: Lossless(steps) && Run(t, Start(t), steps, n)
  }

  lemma {:induction false} AnnounceComplete(s: SwitchState, n: nat, i: nat)
    requires Shaped(s) && i < n <= |s.ports| && Designated(s, i)
    requires s.root == s.id || s.rootPort.Some?
    ensures Frame(i, Local(s, i)) in Announce(s, n)
  {
    if i < n - 1 { AnnounceComplete(s, n - 1, i); }
  }

  lemma {:induction false} PostComplete(t: Topology, b: u64, frames: seq<Frame>, f: Frame)
    requires ValidTopology(t) && f in frames && Endpoint(b, f.port) in t.link
    ensures Msg(t.link[Endpoint(b, f.port)], f.v) in Post(t, b, frames)
  {
    if f != frames[0] { PostComplete(t, b, frames[1..], f); }
  }

  /** A full announcement puts the local vector of every designated linked port on its way. */
  lemma AnnouncementPosted(t: Topology, n: Net, e: Endpoint)
    requires Fits(t, n) && e in t.link && IsDesignated(t, n, e) && SwitchInv(n.sw[e.bridge])
    ensures var s := n.sw[e.bridge];
      Msg(t.link[e], LocalAt(t, n, e)) in Post(t, e.bridge, Announce(s, |s.ports|))
  {
    var s := n.sw[e.bridge];
    AnnounceComplete(s, |s.ports|, e.port);
    PostComplete(t, e.bridge, Announce(s, |s.ports|), Frame(e.port, Local(s, e.port)));
  }

  lemma InWithout<T>(s: seq<T>, k: nat, x: T)
    requires k < |s| && x in s && x != s[k]
    ensures x in Without(s, k)
  {
    var i :| 0 <= i < |s| && s[i] == x;
    assert x == Without(s, k)[if i < k then i else i - 1];
  }

  /** A delivered BPDU leaves its port storing something no worse than it. */
  lemma DeliveredIsHeard(t: Topology, n: Net, k: nat)
    requires Inv(t, n) && k < |n.flight|
    ensures Fits(t, AfterDeliver(t, n, k))
    ensures !VectorBetter(n.flight[k].v, StoredAt(t, AfterDeliver(t, n, k), n.flight[k].dest))
  {
    hide SwitchOk, MsgOk, AfterDeliver;
    var d, v := n.flight[k].dest, n.flight[k].v;
    AfterFits(t, n, Deliver(k));
    StepImprovesStored(t, n, Deliver(k), d);
    VectorOrder(v, StoredAt(t, AfterDeliver(t, n, k), d), v);
  }

  /** Heard survives a delivery as long as the announcing switch keeps its root and cost. */
  lemma HeardPersists(t: Topology, n: Net, k: nat, e: Endpoint)
    requires Inv(t, n) && k < |n.flight| && e in t.link && Heard(t, n, e)
    requires Fits(t, AfterDeliver(t, n, k)) && LocalAt(t, AfterDeliver(t, n, k), e) == LocalAt(t, n, e)
    ensures Heard(t, AfterDeliver(t, n, k), e)
  {
    hide SwitchOk, MsgOk, Receive, LocalAt, StoredAt, Post;
    var n', v, f := AfterDeliver(t, n, k), LocalAt(t, n, e), t.link[e];
    if !VectorBetter(v, StoredAt(t, n, f)) {
      StepImprovesStored(t, n, Deliver(k), f);
      VectorOrder(v, StoredAt(t, n', f), StoredAt(t, n, f));
    } else if n.flight[k] == Msg(f, v) {
      DeliveredIsHeard(t, n, k);
    } else {
      InWithout(n.flight, k, Msg(f, v));
    }
  }

  lemma DeliverKeepsHeard(t: Topology, n: Net, k: nat)
    requires Inv(t, n) && AllHeard(t, n) && k < |n.flight|
    ensures Fits(t, AfterDeliver(t, n, k)) && AllHeard(t, AfterDeliver(t, n, k))
  {
    hide SwitchOk, MsgOk, AfterAccept, Post, Announce, PortConfig;
    var n', m := AfterDeliver(t, n, k), n.flight[k];
    AfterFits(t, n, Deliver(k));
    StepKeepsInv(t, n, Deliver(k));
    forall e | e in t.link && IsDesignated(t, n', e) && Announced(n', e.bridge)
      ensures Heard(t, n', e)
    {
      if e.bridge == m.dest.bridge && IsAcceptance(t, n, Deliver(k)) {
        assert SwitchInv(n'.sw[e.bridge]) by { InvIsLocal(t, n', e.bridge); }
        AnnouncementPosted(t, n', e);
      } else {
        assert n'.sw[e.bridge] == n.sw[e.bridge];
        HeardPersists(t, n, k, e);
      }
    }
  }

  lemma InvIsLocal(t: Topology, n: Net, b: u64)
    requires Inv(t, n) && b in n.sw
    ensures SwitchInv(n.sw[b]) && Real(t, n, n.sw[b].root, n.sw[b].cost, b)
  {
    assert SwitchOk(t, n, b);
  }

  lemma HelloKeepsHeard(t: Topology, n: Net, b: u64)
    requires Inv(t, n) && AllHeard(t, n) && Enabled(t, n, Hello(b))
    ensures Fits(t, AfterHello(t, n, b)) && AllHeard(t, AfterHello(t, n, b))
  {
    hide SwitchOk, MsgOk, Post, Announce, PortConfig;
    var n' := AfterHello(t, n, b);
    AfterFits(t, n, Hello(b));
    assert n.sw[b].(hello := true) == n.sw[b];
    forall e | e in t.link && IsDesignated(t, n', e) && Announced(n', e.bridge)
      ensures Heard(t, n', e)
    {
      assert n'.sw[e.bridge] == n.sw[e.bridge];
      if e.bridge == b {
        InvIsLocal(t, n, b);
        AnnouncementPosted(t, n, e);
      } else {
        assert Heard(t, n, e);
      }
    }
  }

  lemma StepKeepsHeard(t: Topology, n: Net, step: Step)
    requires Inv(t, n) && AllHeard(t, n) && Enabled(t, n, step) && !step.Lose?
    ensures Fits(t, After(t, n, step)) && AllHeard(t, After(t, n, step))
  {
    hide SwitchOk, MsgOk, AfterDeliver, AfterHello;
    AfterFits(t, n, step);
    match step
    case Deliver(k) => DeliverKeepsHeard(t, n, k);
    case Hello(b) => HelloKeepsHeard(t, n, b);
    case Duplicate(k) =>
      var n' := After(t, n, step);
      forall e | e in t.link && IsDesignated(t, n', e) && Announced(n', e.bridge)
        ensures Heard(t, n', e)
      {
        assert IsDesignated(t, n, e) && Heard(t, n, e);
      }
  }

  lemma {:induction false} RunKeepsHeard(t: Topology, n: Net, steps: seq<Step>, n': Net)
    requires Inv(t, n) && AllHeard(t, n) && Lossless(steps) && Run(t, n, steps, n')
    ensures Inv(t, n') && AllHeard(t, n')
    decreases |steps|
  {
    hide SwitchOk, MsgOk, After, Enabled, AllHeard;
    if steps != [] {
      assert !steps[0].Lose?;
      StepKeepsInv(t, n, steps[0]);
      StepKeepsHeard(t, n, steps[0]);
      RunKeepsHeard(t, After(t, n, steps[0]), steps[1..], n');
    }
  }

  lemma LosslessReachedInv(t: Topology, n: Net)
    requires LosslessReached(t, n)
    ensures Inv(t, n) && AllHeard(t, n)
  {
    hide SwitchOk, MsgOk, Run;
    var steps :| Lossless(steps) && Run(t, Start(t), steps, n);
    StartInv(t);
    var s := Start(t);
    assert forall b | b in s.sw :: !Announced(s, b);
    assert AllHeard(t, s);
    RunKeepsHeard(t, s, steps, n);
  }

  // ---------------------------------------------------------------------
  // Quiescent states
  // ---------------------------------------------------------------------

  ghost predicate Quiescent(n: Net) {
    n.flight == [] && forall b | b in n.sw && n.sw[b].root == b :: b in n.fired
  }

  /** What a settled link looks like: one designated end, and the other end stores its announcement. */
  ghost predicate SettledLink(t: Topology, n: Net, e: Endpoint)
    requires Fits(t, n) && e in t.link
  {
    IsDesignated(t, n, e) ==>
      && !IsDesignated(t, n, t.link[e])
      && StoredAt(t, n, t.link[e]) == LocalAt(t, n, e)
  }

  lemma LinkSettles(t: Topology, n: Net, e: Endpoint)
    requires Inv(t, n) && AllHeard(t, n) && Quiescent(n) && e in t.link
    ensures SettledLink(t, n, e)
  {
    hide SwitchOk, MsgOk;
    var f := t.link[e];
    if IsDesignated(t, n, e) {
      assert Announced(n, e.bridge) && Announced(n, f.bridge);
      assert Heard(t, n, e);
      StoredIsReal(t, n, f);
      if IsDesignated(t, n, f) {
        assert Heard(t, n, f);
        StoredIsReal(t, n, e);
        VectorOrder(LocalAt(t, n, e), LocalAt(t, n, f), LocalAt(t, n, e));
        PortsDiffer(t, n, e);
      } else {
        StoredFromPeerIsPast(t, n, f);
        VectorOrder(StoredAt(t, n, f), LocalAt(t, n, e), StoredAt(t, n, f));
      }
    }
  }

  lemma PortsDiffer(t: Topology, n: Net, e: Endpoint)
    requires Fits(t, n) && e in t.link
    ensures LocalAt(t, n, e) != LocalAt(t, n, t.link[e])
  {}

  /** Across a settled link the two switches agree on the root, and the costs differ by at most one. */
  lemma LinkAgrees(t: Topology, n: Net, e: Endpoint)
    requires Inv(t, n) && AllHeard(t, n) && Quiescent(n) && e in t.link && IsDesignated(t, n, e)
    ensures var a, b := n.sw[e.bridge], n.sw[t.link[e].bridge];
      a.root == b.root && a.cost <= b.cost <= a.cost + 1
  {
    hide SwitchOk, MsgOk, Real, AllHeard;
    var f := t.link[e];
    LinkSettles(t, n, e);
    StoredIsReal(t, n, f);
    var a, b := n.sw[e.bridge], n.sw[f.bridge];
    InvIsLocal(t, n, f.bridge);
    InvBounds(t, n, f.bridge);
    RealIsShort(t, n, b.root, b.cost, f.bridge);
    CandidateBound(b, f.port);
    assert b.ports[f.port] == LocalAt(t, n, e);
  }

  /** The root and cost of a switch are at least as good as any non-designated port could offer. */
  lemma CandidateBound(s: SwitchState, i: nat)
    requires SwitchInv(s) && CostsBounded(s) && i < |s.ports| && !Designated(s, i)
    ensures s.ports[i].root < s.id ==> AtLeast(s.root, s.cost, s.ports[i].root, s.ports[i].cost + 1)
    ensures s.root <= s.id
  {
    if s.ports[i].root < s.id {
      assert Candidate(s, i);
      var r := s.rootPort.value;
      assert r == i || RootPortBetter(s.ports[r], r, s.ports[i], i);
      assert s.ports[r].cost < 0xFFFF_FFFF && s.ports[i].cost < 0xFFFF_FFFF;
    }
  }

  // ---------------------------------------------------------------------
  // Agreement and shortest paths
  // ---------------------------------------------------------------------

  ghost function Links(t: Topology): (u64, u64) -> bool {
    (a: u64, b: u64) => Adjacent(t, a, b)
  }

  ghost predicate Connected(t: Topology) {
    forall a, b | a in t.nports && b in t.nports :: Reachable(Links(t), a, b)
  }

  ghost predicate IsMinId(t: Topology, r: u64) {
    r in t.nports && forall b | b in t.nports :: r <= b
  }

  lemma NeighboursAgree(t: Topology, n: Net, a: u64, b: u64)
    requires Inv(t, n) && AllHeard(t, n) && Quiescent(n) && Adjacent(t, a, b)
    ensures a in n.sw && b in n.sw && n.sw[a].root == n.sw[b].root && n.sw[b].cost <= n.sw[a].cost + 1
  {
    hide SwitchOk, MsgOk, AllHeard, Quiescent, IsDesignated;
    var e :| e in t.link && e.bridge == a && t.link[e].bridge == b;
    OneEndDesignated(t, n, e);
    if IsDesignated(t, n, e) { LinkAgrees(t, n, e); } else { LinkAgrees(t, n, t.link[e]); }
  }

  lemma {:induction false} WalkAgrees(t: Topology, n: Net, a: u64, b: u64, d: nat)
    requires Inv(t, n) && AllHeard(t, n) && Quiescent(n) && a in n.sw && Hops(Links(t), a, b, d)
    ensures b in n.sw && n.sw[a].root == n.sw[b].root && n.sw[b].cost <= n.sw[a].cost + d
    decreases d
  {
    hide Inv, AllHeard, Quiescent;
    if d > 0 {
      var c :| Hops(Links(t), a, c, d - 1) && Links(t)(c, b);
      WalkAgrees(t, n, a, c, d - 1);
      NeighboursAgree(t, n, c, b);
    }
  }

  lemma {:induction false} PathIsWalk(t: Topology, p: seq<u64>, k: nat)
    requires k < |p| && forall i | 0 < i < |p| :: Adjacent(t, p[i - 1], p[i])
    ensures Hops(Links(t), p[0], p[k], k)
  {
    if k > 0 {
      PathIsWalk(t, p, k - 1);
      assert Links(t)(p[k - 1], p[k]);
    }
  }

  lemma RealIsWalk(t: Topology, n: Net, root: u64, cost: nat, b: u64)
    requires Fits(t, n) && Real(t, n, root, cost, b)
    ensures Hops(Links(t), root, b, cost)
  {
    var p :| Witness(t, n, p, root, cost, b);
    PathIsWalk(t, p, cost);
  }

  /** All switches agree on the smallest id as root, and each cost is the hop distance to it. */
  ghost predicate ShortestPaths(t: Topology, n: Net, r: u64)
    requires Fits(t, n)
  {
    forall b | b in t.nports :: n.sw[b].root == r && IsDistance(Links(t), r, b, n.sw[b].cost)
  }

  lemma AllAgree(t: Topology, n: Net, r: u64, b: u64)
    requires Inv(t, n) && AllHeard(t, n) && Quiescent(n) && Connected(t) && IsMinId(t, r) && b in n.sw
    ensures n.sw[b].root == r && n.sw[r].cost == 0
  {
    hide SwitchInv, MsgOk, AllHeard, Quiescent, Witness, Hops;
    assert SwitchOk(t, n, r) && SwitchOk(t, n, b);
    RealIsShort(t, n, n.sw[r].root, n.sw[r].cost, r);
    RootAtMost(n.sw[r]);
    assert Reachable(Links(t), r, b);
    var d: nat :| Hops(Links(t), r, b, d);
    WalkAgrees(t, n, r, b, d);
  }

  lemma RootAtMost(s: SwitchState)
    requires SwitchInv(s)
    ensures s.root <= s.id
  {}

  lemma QuiescentShortestPaths(t: Topology, n: Net, r: u64)
    requires Inv(t, n) && AllHeard(t, n) && Quiescent(n) && Connected(t) && IsMinId(t, r)
    ensures ShortestPaths(t, n, r)
  {
    hide SwitchInv, MsgOk, AllHeard, Quiescent, Connected, Hops;
    forall b | b in t.nports
      ensures n.sw[b].root == r && IsDistance(Links(t), r, b, n.sw[b].cost)
    {
      AllAgree(t, n, r, b);
      assert SwitchOk(t, n, b);
      RealIsWalk(t, n, r, n.sw[b].cost, b);
      forall e: nat | Hops(Links(t), r, b, e)
        ensures n.sw[b].cost <= e
      {
        WalkAgrees(t, n, r, b, e);
      }
    }
  }

  // ---------------------------------------------------------------------
  // The spanning tree
  // ---------------------------------------------------------------------

  ghost predicate IsRootPort(n: Net, e: Endpoint) {
    e.bridge in n.sw && n.sw[e.bridge].rootPort == Some(e.port)
  }

  /** Designated ports and root ports forward; the others are blocked. */
  ghost predicate Forwarding(t: Topology, n: Net, e: Endpoint)
    requires Fits(t, n) && ValidEndpoint(t, e)
  {
    IsDesignated(t, n, e) || IsRootPort(n, e)
  }

  /** A link carries traffic when both of its ends forward. */
  ghost predicate Active(t: Topology, n: Net, e: Endpoint)
    requires Fits(t, n)
  {
    e in t.link && Forwarding(t, n, e) && Forwarding(t, n, t.link[e])
  }

  ghost predicate ActiveAdjacent(t: Topology, n: Net, a: u64, b: u64)
    requires Fits(t, n)
  {
    exists e | Active(t, n, e) :: e.bridge == a && t.link[e].bridge == b
  }

  ghost function ActiveLinks(t: Topology, n: Net): (u64, u64) -> bool
    requires Fits(t, n)
  {
    (a: u64, b: u64) => ActiveAdjacent(t, n, a, b)
  }

  /** A link as the pair of its ends. */
  ghost function LinkOf(t: Topology, e: Endpoint): set<Endpoint>
    requires e in t.link
  {
    {e, t.link[e]}
  }

  ghost function TreeLinks(t: Topology, n: Net): set<set<Endpoint>>
    requires Fits(t, n)
  {
    set e | e in t.link && Active(t, n, e) :: LinkOf(t, e)
  }

  /** A closed walk over active links, given by the port left at each step, that never turns back at once. */
  ghost predicate Cycle(t: Topology, n: Net, c: seq<Endpoint>)
    requires Fits(t, n)
  {
    && |c| > 0
    && (forall i | 0 <= i < |c| :: Active(t, n, c[i]))
    && (forall i | 0 <= i < |c| :: t.link[c[i]].bridge == Next(c, i).bridge && Next(c, i) != t.link[c[i]])
  }

  function Next<T>(c: seq<T>, i: nat): T
    requires i < |c|
  {
    if i + 1 == |c| then c[0] else c[i + 1]
  }

  function Previous<T>(c: seq<T>, i: nat): nat
    requires i < |c|
    ensures Previous(c, i) < |c| && Next(c, Previous(c, i)) == c[i]
  {
    if i == 0 then |c| - 1 else i - 1
  }

  /** The active links span the network as a tree along which every cost is realised. */
  ghost predicate SpanningTree(t: Topology, n: Net, r: u64)
    requires Fits(t, n)
  {
    && (forall e | e in t.link :: IsDesignated(t, n, e) <==> !IsDesignated(t, n, t.link[e]))
    && (forall e | e in t.link :: Active(t, n, e) <==> IsRootPort(n, e) || IsRootPort(n, t.link[e]))
    && (forall b | b in t.nports :: Hops(ActiveLinks(t, n), r, b, n.sw[b].cost))
    && (forall c :: !Cycle(t, n, c))
    && |TreeLinks(t, n)| == |t.nports| - 1
  }

  /** Everything the tree argument needs about the quiescent state. */
  ghost predicate Settled(t: Topology, n: Net, r: u64) {
    && Inv(t, n) && r in n.sw && n.sw[r].cost == 0
    && (forall b | b in n.sw :: n.sw[b].root == r)
    && (forall e | e in t.link :: SettledLink(t, n, e))
    && (forall e | e in t.link :: IsDesignated(t, n, e) || IsDesignated(t, n, t.link[e]))
  }

  lemma QuiescentSettled(t: Topology, n: Net, r: u64)
    requires Inv(t, n) && AllHeard(t, n) && Quiescent(n) && Connected(t) && IsMinId(t, r)
    ensures Settled(t, n, r)
  {
    hide SwitchOk, MsgOk, AllHeard, Quiescent, Connected, SettledLink, IsDesignated;
    forall b | b in n.sw ensures n.sw[b].root == r && n.sw[r].cost == 0 { AllAgree(t, n, r, b); }
    forall e | e in t.link
      ensures SettledLink(t, n, e)
      ensures IsDesignated(t, n, e) || IsDesignated(t, n, t.link[e])
    {
      LinkSettles(t, n, e);
      OneEndDesignated(t, n, e);
    }
  }

  /** A root port is linked, its far end is designated, and the far switch is one hop closer to the root. */
  lemma RootPortLink(t: Topology, n: Net, r: u64, e: Endpoint)
    requires Settled(t, n, r) && IsRootPort(n, e)
    ensures e in t.link && IsDesignated(t, n, t.link[e]) && !IsDesignated(t, n, e) && Active(t, n, e)
    ensures n.sw[e.bridge].cost == n.sw[t.link[e].bridge].cost + 1
  {
    hide SwitchOk, MsgOk;
    InvIsLocal(t, n, e.bridge);
    InvBounds(t, n, e.bridge);
    StoredIsReal(t, n, e);
    assert SettledLink(t, n, t.link[e]);
    assert StoredAt(t, n, e) == LocalAt(t, n, t.link[e]);
  }

  /** An active link is some switch's root link, on exactly one side. */
  lemma ActiveIsRootLink(t: Topology, n: Net, r: u64, e: Endpoint)
    requires Settled(t, n, r) && e in t.link
    ensures IsDesignated(t, n, e) <==> !IsDesignated(t, n, t.link[e])
    ensures Active(t, n, e) <==> IsRootPort(n, e) || IsRootPort(n, t.link[e])
    ensures !(IsRootPort(n, e) && IsRootPort(n, t.link[e]))
  {
    hide SwitchOk, MsgOk, Inv;
    assert Fits(t, n) by { assert Inv(t, n); SettledFits(t, n, r); }
    assert SettledLink(t, n, e) && SettledLink(t, n, t.link[e]);
    if IsRootPort(n, e) { RootPortLink(t, n, r, e); }
    if IsRootPort(n, t.link[e]) { RootPortLink(t, n, r, t.link[e]); }
  }

  lemma SettledFits(t: Topology, n: Net, r: u64)
    requires Settled(t, n, r)
    ensures Fits(t, n) && r in t.nports
  {}

  lemma {:induction false} TreeReaches(t: Topology, n: Net, r: u64, b: u64)
    requires Settled(t, n, r) && b in n.sw
    ensures Hops(ActiveLinks(t, n), r, b, n.sw[b].cost)
    decreases n.sw[b].cost
  {
    hide SwitchInv, MsgOk, Active, Witness;
    assert SwitchOk(t, n, b);
    RealIsShort(t, n, n.sw[b].root, n.sw[b].cost, b);
    if n.sw[b].cost > 0 {
      assert n.sw[b].rootPort.Some? by { InvIsLocal(t, n, b); RootBeliefs(n.sw[b]); }
      var e := Endpoint(b, n.sw[b].rootPort.value);
      RootPortLink(t, n, r, e);
      var f := t.link[e];
      TreeReaches(t, n, r, f.bridge);
      assert Active(t, n, f) by { ActiveReverse(t, n, e); }
      assert ActiveLinks(t, n)(f.bridge, b);
    }
  }

  lemma ActiveReverse(t: Topology, n: Net, e: Endpoint)
    requires Fits(t, n) && Active(t, n, e)
    ensures Active(t, n, t.link[e])
  {}

  lemma {:induction false} Highest(n: Net, c: seq<Endpoint>) returns (i: nat)
    requires |c| > 0 && forall j | 0 <= j < |c| :: c[j].bridge in n.sw
    ensures i < |c| && forall j | 0 <= j < |c| :: n.sw[c[j].bridge].cost <= n.sw[c[i].bridge].cost
  {
    if |c| == 1 {
      i := 0;
    } else {
      i := Highest(n, c[..|c| - 1]);
      var top := n.sw[c[i].bridge].cost;
      forall j | 0 <= j < |c| - 1 ensures n.sw[c[j].bridge].cost <= top { assert c[..|c| - 1][j] == c[j]; }
      if n.sw[c[|c| - 1].bridge].cost > top { i := |c| - 1; }
    }
  }

  /** A highest switch on a cycle would be entered and left through its root port, that is, by turning back. */
  lemma NoCycle(t: Topology, n: Net, r: u64, c: seq<Endpoint>)
    requires Settled(t, n, r)
    ensures !Cycle(t, n, c)
  {
    hide SwitchOk, MsgOk, IsDesignated;
    if Cycle(t, n, c) {
      forall j | 0 <= j < |c| ensures c[j].bridge in n.sw { assert Active(t, n, c[j]); }
      var i := Highest(n, c);
      var e, j := c[i], Previous(c, i);
      var inward := t.link[c[j]];
      assert Active(t, n, e) && Active(t, n, c[j]);
      assert inward.bridge == e.bridge && e != inward;
      var k := if i + 1 == |c| then 0 else i + 1;
      assert t.link[e].bridge == c[k].bridge;
      UpperEnd(t, n, r, e);
      UpperEnd(t, n, r, inward);
    }
  }

  /** On an active link whose far switch is not higher, the near end is the root port. */
  lemma UpperEnd(t: Topology, n: Net, r: u64, e: Endpoint)
    requires Settled(t, n, r) && e in t.link && Active(t, n, e)
    requires n.sw[t.link[e].bridge].cost <= n.sw[e.bridge].cost
    ensures IsRootPort(n, e)
  {
    hide SwitchOk, MsgOk, IsDesignated;
    ActiveIsRootLink(t, n, r, e);
    if IsRootPort(n, t.link[e]) { RootPortLink(t, n, r, t.link[e]); }
  }

  /** The links of the tree are in one-to-one correspondence with the switches other than the root. */
  lemma TreeSize(t: Topology, n: Net, r: u64)
    requires Settled(t, n, r)
    ensures |TreeLinks(t, n)| == |t.nports| - 1
  {
    hide Settled, Inv, RootLink, TreeLinks, Fits;
    SettledFits(t, n, r);
    var nonRoots, links := t.nports.Keys - {r}, TreeLinks(t, n);
    forall b | b in nonRoots ensures RootLink(t, n, b) in links { NonRootLink(t, n, r, b); }
    forall l | l in links
      ensures exists b | b in nonRoots :: RootLink(t, n, b) == l
    {
      RootOwner(t, n, r, l);
    }
    forall a, b | a in nonRoots && b in nonRoots && RootLink(t, n, a) == RootLink(t, n, b)
      ensures a == b
    {
      RootLinkUnique(t, n, r, a, b);
    }
    RootLinksCounted(t, n, nonRoots, links);
    assert |t.nports.Keys| == |t.nports|;
  }

  ghost function RootLink(t: Topology, n: Net, b: u64): set<Endpoint> {
    if RootEnd(n, b) in t.link then LinkOf(t, RootEnd(n, b)) else {}
  }

  lemma NonRootLink(t: Topology, n: Net, r: u64, b: u64)
    requires Settled(t, n, r) && b in t.nports.Keys - {r}
    ensures IsRootPort(n, RootEnd(n, b)) && RootEnd(n, b) in t.link && RootLink(t, n, b) in TreeLinks(t, n)
  {
    hide SwitchOk, MsgOk, IsDesignated, Active, SettledLink;
    InvIsLocal(t, n, b);
    RootBeliefs(n.sw[b]);
    RootPortLink(t, n, r, RootEnd(n, b));
  }

  lemma RootLinkUnique(t: Topology, n: Net, r: u64, a: u64, b: u64)
    requires Settled(t, n, r) && a in t.nports.Keys - {r} && b in t.nports.Keys - {r}
    requires RootLink(t, n, a) == RootLink(t, n, b)
    ensures a == b
  {
    hide SwitchOk, MsgOk, IsDesignated, Active, SettledLink;
    NonRootLink(t, n, r, a);
    NonRootLink(t, n, r, b);
    ActiveIsRootLink(t, n, r, RootEnd(n, a));
    assert RootEnd(n, b) in LinkOf(t, RootEnd(n, a));
  }

  ghost function RootEnd(n: Net, b: u64): Endpoint {
    Endpoint(b, if b in n.sw && n.sw[b].rootPort.Some? then n.sw[b].rootPort.value else 0)
  }

  lemma RootOwner(t: Topology, n: Net, r: u64, l: set<Endpoint>)
    requires Settled(t, n, r) && l in TreeLinks(t, n)
    ensures exists b | b in t.nports.Keys - {r} :: RootLink(t, n, b) == l
  {
    hide SwitchOk, MsgOk, IsDesignated, Active, SettledLink;
    var e :| e in t.link && Active(t, n, e) && LinkOf(t, e) == l;
    ActiveIsRootLink(t, n, r, e);
    var f := if IsRootPort(n, e) then e else t.link[e];
    InvIsLocal(t, n, f.bridge);
    RootBeliefs(n.sw[f.bridge]);
    assert RootEnd(n, f.bridge) == f && RootLink(t, n, f.bridge) == LinkOf(t, e);
  }

  /** Root links are counted by their owners. */
  lemma {:induction false} RootLinksCounted(t: Topology, n: Net, a: set<u64>, b: set<set<Endpoint>>)
    requires forall x | x in a :: RootLink(t, n, x) in b
    requires forall l | l in b :: exists x | x in a :: RootLink(t, n, x) == l
    requires forall x, y | x in a && y in a && RootLink(t, n, x) == RootLink(t, n, y) :: x == y
    ensures |a| == |b|
    decreases |a|
  {
    hide RootLink;
    if a != {} {
      var x :| x in a;
      forall l | l in b - {RootLink(t, n, x)}
        ensures exists z | z in a - {x} :: RootLink(t, n, z) == l
      {
        var z :| z in a && RootLink(t, n, z) == l;
      }
      RootLinksCounted(t, n, a - {x}, b - {RootLink(t, n, x)});
    } else {
      assert b == {};
    }
  }

  lemma SettledSpans(t: Topology, n: Net, r: u64)
    requires Settled(t, n, r)
    ensures Fits(t, n) && SpanningTree(t, n, r)
  {
    hide SwitchOk, MsgOk, IsDesignated, Active, SettledLink, Hops, Cycle, TreeLinks;
    forall e | e in t.link
      ensures IsDesignated(t, n, e) <==> !IsDesignated(t, n, t.link[e])
      ensures Active(t, n, e) <==> IsRootPort(n, e) || IsRootPort(n, t.link[e])
    {
      ActiveIsRootLink(t, n, r, e);
    }
    forall b | b in t.nports ensures Hops(ActiveLinks(t, n), r, b, n.sw[b].cost) { TreeReaches(t, n, r, b); }
    forall c ensures !Cycle(t, n, c) { NoCycle(t, n, r, c); }
    TreeSize(t, n, r);
  }

  /** Convergence to the shortest-path spanning tree rooted at the smallest switch id. */
  lemma Converges(t: Topology, n: Net, r: u64)
    requires LosslessReached(t, n) && Quiescent(n) && Connected(t) && IsMinId(t, r)
    ensures Fits(t, n) && ShortestPaths(t, n, r) && SpanningTree(t, n, r)
  {
    hide LosslessReached, Inv, AllHeard, Quiescent, Connected, IsMinId, Settled, ShortestPaths, SpanningTree;
    LosslessReachedInv(t, n);
    QuiescentShortestPaths(t, n, r);
    QuiescentSettled(t, n, r);
    SettledSpans(t, n, r);
  }
}
