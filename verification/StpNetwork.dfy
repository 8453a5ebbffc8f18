/**
 A network of switches joined by point-to-point links, as a transition system,
 and the invariants that every run keeps.
 */
module StpNetwork {
  import opened Basics
  import opened StpSwitch

  datatype Endpoint = Endpoint(bridge: u64, port: nat)

  /** nports gives the number of ports of each switch; link maps an endpoint to the other end. */
  datatype Topology = Topology(nports: map<u64, nat>, link: map<Endpoint, Endpoint>)

  /** A BPDU travelling towards an endpoint. */
  datatype Msg = Msg(dest: Endpoint, v: Vector)

  /** fired records the switches whose hello timer has fired at least once. */
  datatype Net = Net(sw: map<u64, SwitchState>, flight: seq<Msg>, fired: set<u64>)

  datatype Step =
    | Deliver(k: nat)
    | Hello(bridge: u64)
    | Duplicate(k: nat)
    | Lose(k: nat)

  ghost predicate ValidEndpoint(t: Topology, e: Endpoint) {
    e.bridge in t.nports && e.port < t.nports[e.bridge]
  }

  /** Distinct switch ids, at most 32 ports each, and links that pair endpoints; fewer than 2^31 switches. */
  ghost predicate ValidTopology(t: Topology) {
    && |t.nports| <= INT_MAX
    && (forall b | b in t.nports :: t.nports[b] <= MAX_PORTS)
    && (forall e | e in t.link ::
          ValidEndpoint(t, e) && t.link[e] in t.link && t.link[t.link[e]] == e && t.link[e] != e)
  }

  ghost predicate Adjacent(t: Topology, a: u64, b: u64) {
    exists e | e in t.link :: e.bridge == a && t.link[e].bridge == b
  }

  /** The state components fit the topology. */
  ghost predicate Fits(t: Topology, n: Net) {
    && ValidTopology(t)
    && n.sw.Keys == t.nports.Keys
    && (forall b | b in n.sw :: n.sw[b].id == b && |n.sw[b].ports| == t.nports[b])
    && (forall k | 0 <= k < |n.flight| :: n.flight[k].dest in t.link)
  }

  /** The frames of a switch that leave through linked ports, addressed to the far ends. */
  function Post(t: Topology, b: u64, frames: seq<Frame>): seq<Msg> {
    if frames == [] then []
    else
      var e := Endpoint(b, frames[0].port);
      (if e in t.link then [Msg(t.link[e], frames[0].v)] else []) + Post(t, b, frames[1..])
  }

  ghost predicate Enabled(t: Topology, n: Net, step: Step)
    requires Fits(t, n)
  {
    match step
    case Deliver(k) => k < |n.flight|
    case Hello(b) => b in n.sw && n.sw[b].hello
    case Duplicate(k) => k < |n.flight|
    case Lose(k) => k < |n.flight|
  }

  ghost function AfterDeliver(t: Topology, n: Net, k: nat): Net
    requires Fits(t, n) && k < |n.flight|
  {
    var m := n.flight[k];
    var r := Receive(n.sw[m.dest.bridge], m.dest.port, m.v);
    n.(sw := n.sw[m.dest.bridge := r.state], flight := Without(n.flight, k) + Post(t, m.dest.bridge, r.frames))
  }

  ghost function AfterHello(t: Topology, n: Net, b: u64): Net
    requires Fits(t, n) && b in n.sw
  {
    var frames := Announce(n.sw[b], |n.sw[b].ports|);
    n.(sw := n.sw[b := n.sw[b].(hello := true)], flight := n.flight + Post(t, b, frames), fired := n.fired + {b})
  }

  ghost function After(t: Topology, n: Net, step: Step): Net
    requires Fits(t, n) && Enabled(t, n, step)
  {
    match step
    case Deliver(k) => AfterDeliver(t, n, k)
    case Hello(b) => AfterHello(t, n, b)
    case Duplicate(k) => n.(flight := n.flight + [n.flight[k]])
    case Lose(k) => n.(flight := Without(n.flight, k))
  }

  ghost function Start(t: Topology): Net
    requires ValidTopology(t)
  {
    Net(map b | b in t.nports :: InitialState(b, t.nports[b]), [], {})
  }

  /** n' is reached from n by performing the steps in order. */
  ghost predicate Run(t: Topology, n: Net, steps: seq<Step>, n': Net)
    requires Fits(t, n)
    decreases |steps|
  {
    if steps == [] then n == n'
    else
      && Enabled(t, n, steps[0])
      && Fits(t, After(t, n, steps[0]))
      && Run(t, After(t, n, steps[0]), steps[1..], n')
  }

  // ---------------------------------------------------------------------
  // The network invariant
  // ---------------------------------------------------------------------

  /**
   p is a simple path of exactly cost hops from switch root to switch b, and its m-th
   switch already knows a root and cost at least as good as (root, m).
   */
  ghost predicate Witness(t: Topology, n: Net, p: seq<u64>, root: u64, cost: nat, b: u64)
    requires Fits(t, n)
  {
    && |p| == cost + 1 && p[0] == root && p[cost] == b
    && (forall i | 0 <= i < |p| :: p[i] in n.sw)
    && (forall i, j | 0 <= i < j < |p| :: p[i] != p[j])
    && (forall i | 0 < i < |p| :: Adjacent(t, p[i - 1], p[i]))
    && (forall i | 0 <= i < |p| :: AtLeast(n.sw[p[i]].root, n.sw[p[i]].cost, root, i))
  }

  /** The root and cost claimed by switch b are realised by a path of the network. */
  ghost predicate Real(t: Topology, n: Net, root: u64, cost: nat, b: u64)
    requires Fits(t, n)
  {
    exists p :: Witness(t, n, p, root, cost, b)
  }

  /** v was announced by the far end of the link at e. */
  ghost predicate FromPeer(t: Topology, e: Endpoint, v: Vector)
    requires ValidTopology(t)
  {
    e in t.link && v.bridge == t.link[e].bridge && v.port == PortId(t.link[e].port)
  }

  ghost predicate PortOk(t: Topology, n: Net, b: u64, i: nat)
    requires Fits(t, n) && b in n.sw && i < t.nports[b]
  {
    Designated(n.sw[b], i) || (FromPeer(t, Endpoint(b, i), n.sw[b].ports[i])
                               && Real(t, n, n.sw[b].ports[i].root, n.sw[b].ports[i].cost, n.sw[b].ports[i].bridge))
  }

  ghost predicate SwitchOk(t: Topology, n: Net, b: u64)
    requires Fits(t, n) && b in n.sw
  {
    && SwitchInv(n.sw[b])
    && Real(t, n, n.sw[b].root, n.sw[b].cost, b)
    && forall i | 0 <= i < t.nports[b] :: PortOk(t, n, b, i)
  }

  ghost predicate MsgOk(t: Topology, n: Net, m: Msg)
    requires Fits(t, n)
  {
    FromPeer(t, m.dest, m.v) && Real(t, n, m.v.root, m.v.cost, m.v.bridge)
  }

  ghost predicate Inv(t: Topology, n: Net) {
    && Fits(t, n)
    && (forall b | b in n.sw :: SwitchOk(t, n, b))
    && (forall k | 0 <= k < |n.flight| :: MsgOk(t, n, n.flight[k]))
  }

  // ---------------------------------------------------------------------
  // Paths are short
  // ---------------------------------------------------------------------

  /** A realised cost is smaller than the number of switches, so the C int arithmetic on it is exact. */
  lemma RealIsShort(t: Topology, n: Net, root: u64, cost: nat, b: u64)
    requires Fits(t, n) && Real(t, n, root, cost, b)
    ensures root in n.sw && b in n.sw && cost < |t.nports| <= INT_MAX
    ensures AtLeast(n.sw[b].root, n.sw[b].cost, root, cost)
    ensures cost == 0 <==> root == b
  {
    var p :| Witness(t, n, p, root, cost, b);
    DistinctWithin<u64>(p, n.sw.Keys);
    assert |n.sw.Keys| == |t.nports|;
    assert p[0] in n.sw && p[cost] in n.sw;
    if cost > 0 { assert p[0] != p[cost]; }
  }

  lemma InvBounds(t: Topology, n: Net, b: u64)
    requires Inv(t, n) && b in n.sw
    ensures CostsBounded(n.sw[b])
    ensures n.sw[b].cost < |t.nports|
    ensures forall i | 0 <= i < t.nports[b] :: n.sw[b].ports[i].cost < |t.nports|
  {
    assert SwitchOk(t, n, b);
    RealIsShort(t, n, n.sw[b].root, n.sw[b].cost, b);
    forall i | 0 <= i < t.nports[b]
      ensures n.sw[b].ports[i].cost < |t.nports|
    {
      assert PortOk(t, n, b, i);
      if !Designated(n.sw[b], i) {
        RealIsShort(t, n, n.sw[b].ports[i].root, n.sw[b].ports[i].cost, n.sw[b].ports[i].bridge);
      }
    }
  }

  // ---------------------------------------------------------------------
  // Preservation
  // ---------------------------------------------------------------------

  /** No switch's root and cost is worse in n' than in n. */
  ghost predicate Improves(t: Topology, n: Net, n': Net)
    requires Fits(t, n) && Fits(t, n')
  {
    forall b | b in n.sw :: AtLeast(n'.sw[b].root, n'.sw[b].cost, n.sw[b].root, n.sw[b].cost)
  }

  lemma RealPersists(t: Topology, n: Net, n': Net, root: u64, cost: nat, b: u64)
    requires Fits(t, n) && Fits(t, n') && Improves(t, n, n') && Real(t, n, root, cost, b)
    ensures Real(t, n', root, cost, b)
  {
    var p :| Witness(t, n, p, root, cost, b);
    forall i | 0 <= i < |p| ensures AtLeast(n'.sw[p[i]].root, n'.sw[p[i]].cost, root, i) {}
    assert Witness(t, n', p, root, cost, b);
  }

  lemma AllPersist(t: Topology, n: Net, n': Net)
    requires Fits(t, n) && Fits(t, n') && Improves(t, n, n')
    ensures forall root: u64, cost: nat, b: u64 | Real(t, n, root, cost, b) :: Real(t, n', root, cost, b)
  {
    forall root: u64, cost: nat, b: u64 | Real(t, n, root, cost, b)
      ensures Real(t, n', root, cost, b)
    {
      RealPersists(t, n, n', root, cost, b);
    }
  }

  /** A path extends over a link to a switch that has just adopted the longer cost. */
  lemma RealExtends(t: Topology, n: Net, root: u64, cost: nat, a: u64, b: u64)
    requires Fits(t, n) && Real(t, n, root, cost, a)
    requires b in n.sw && Adjacent(t, a, b)
    requires n.sw[b].root == root && n.sw[b].cost == cost + 1
    ensures Real(t, n, root, cost + 1, b)
  {
    var p :| Witness(t, n, p, root, cost, a);
    forall i | 0 <= i < |p| ensures p[i] != b {
      assert AtLeast(n.sw[p[i]].root, n.sw[p[i]].cost, root, i);
    }
    var q := p + [b];
    assert q[0] == p[0] && q[cost + 1] == b;
    forall i | 0 <= i < |q| ensures AtLeast(n.sw[q[i]].root, n.sw[q[i]].cost, root, i) {
      if i < |p| { assert q[i] == p[i]; }
    }
    assert Witness(t, n, q, root, cost + 1, b);
  }

  lemma {:induction false} AnnounceContents(s: SwitchState, n: nat, f: Frame)
    requires Shaped(s) && n <= |s.ports| && f in Announce(s, n)
    ensures f.port < n && Designated(s, f.port) && f.v == Local(s, f.port)
  {
    if f !in Announce(s, n - 1) {
      assert f in PortConfig(s, n - 1);
    } else {
      AnnounceContents(s, n - 1, f);
    }
  }

  lemma {:induction false} PostContents(t: Topology, b: u64, frames: seq<Frame>, m: Msg) returns (f: Frame)
    requires ValidTopology(t) && m in Post(t, b, frames)
    ensures f in frames && Endpoint(b, f.port) in t.link
    ensures m == Msg(t.link[Endpoint(b, f.port)], f.v)
  {
    var e := Endpoint(b, frames[0].port);
    if e in t.link && m == Msg(t.link[e], frames[0].v) {
      f := frames[0];
    } else {
      f := PostContents(t, b, frames[1..], m);
    }
  }

  lemma PostFits(t: Topology, b: u64, frames: seq<Frame>)
    requires ValidTopology(t)
    ensures forall k | 0 <= k < |Post(t, b, frames)| :: Post(t, b, frames)[k].dest in t.link
  {
    forall k | 0 <= k < |Post(t, b, frames)|
      ensures Post(t, b, frames)[k].dest in t.link
    {
      var f := PostContents(t, b, frames, Post(t, b, frames)[k]);
    }
  }

  /** A switch's own frames are acceptable messages once its claim is real. */
  lemma PostOk(t: Topology, n: Net, b: u64, frames: seq<Frame>)
    requires Fits(t, n) && b in n.sw && Real(t, n, n.sw[b].root, n.sw[b].cost, b)
    requires forall f | f in frames :: f.port < |n.sw[b].ports| && f.v == Local(n.sw[b], f.port)
    ensures forall m | m in Post(t, b, frames) :: MsgOk(t, n, m)
  {
    hide Post, Real;
    forall m | m in Post(t, b, frames)
      ensures MsgOk(t, n, m)
    {
      var f := PostContents(t, b, frames, m);
    }
  }

  lemma AfterFits(t: Topology, n: Net, step: Step)
    requires Fits(t, n) && Enabled(t, n, step)
    ensures Fits(t, After(t, n, step))
  {
    hide Announce, Post;
    match step
    case Deliver(k) => DeliverFits(t, n, k);
    case Hello(b) => PostFits(t, b, Announce(n.sw[b], |n.sw[b].ports|));
    case Duplicate(k) =>
    case Lose(k) =>
  }

  lemma DeliverFits(t: Topology, n: Net, k: nat)
    requires Fits(t, n) && k < |n.flight|
    ensures Fits(t, AfterDeliver(t, n, k))
  {
    var m := n.flight[k];
    var b := m.dest.bridge;
    assert ValidEndpoint(t, m.dest) && Shaped(n.sw[b]);
    hide ValidTopology, Announce, Post, AfterAccept, PortConfig, Accepts;
    var r := Receive(n.sw[b], m.dest.port, m.v);
    PostFits(t, b, r.frames);
    assert r.state.id == b && |r.state.ports| == t.nports[b];
  }

  /** An acceptance in a network satisfying the invariant meets the per-switch lemmas' conditions. */
  lemma DeliverStorable(t: Topology, n: Net, m: Msg)
    requires Inv(t, n) && m in n.flight
    ensures m.dest.bridge in n.sw && m.dest.port < |n.sw[m.dest.bridge].ports|
    ensures Accepts(n.sw[m.dest.bridge], m.dest.port, m.v) ==> Storable(n.sw[m.dest.bridge], m.dest.port, m.v)
    ensures !IsOwn(m.v, m.dest.bridge, m.dest.port)
  {
    assert MsgOk(t, n, m);
    assert SwitchOk(t, n, m.dest.bridge);
    RealIsShort(t, n, m.v.root, m.v.cost, m.v.bridge);
    InvBounds(t, n, m.dest.bridge);
    PeerIsOther(t, m.dest, m.v);
  }

  lemma PeerIsOther(t: Topology, e: Endpoint, v: Vector)
    requires ValidTopology(t) && FromPeer(t, e, v)
    ensures !IsOwn(v, e.bridge, e.port)
  {}

  /** Network form of the monotonicity of one switch. */
  lemma StepImproves(t: Topology, n: Net, step: Step)
    requires Inv(t, n) && Enabled(t, n, step)
    ensures Fits(t, After(t, n, step)) && Improves(t, n, After(t, n, step))
  {
    hide Announce, PortConfig, Witness, SwitchInv, Post, SwitchOk, MsgOk, AfterDeliver;
    AfterFits(t, n, step);
    if step.Deliver? { DeliverImproves(t, n, step.k); }
  }

  lemma DeliverImproves(t: Topology, n: Net, k: nat)
    requires Inv(t, n) && Enabled(t, n, Deliver(k)) && Fits(t, After(t, n, Deliver(k)))
    ensures Improves(t, n, After(t, n, Deliver(k)))
  {
    hide AfterAccept, Announce, PortConfig, Witness, SwitchInv, Post, SwitchOk, MsgOk;
    var m := n.flight[k];
    DeliverStorable(t, n, m);
    var s := n.sw[m.dest.bridge];
    if Accepts(s, m.dest.port, m.v) { AcceptImproves(s, m.dest.port, m.v); }
  }

  /** Every step keeps the network invariant. */
  lemma StepKeepsInv(t: Topology, n: Net, step: Step)
    requires Inv(t, n) && Enabled(t, n, step)
    ensures Inv(t, After(t, n, step))
  {
    hide SwitchOk, MsgOk, Improves, AfterDeliver, AfterHello, Accepts, Storable;
    match step
    case Deliver(k) =>
      var m := n.flight[k];
      DeliverStorable(t, n, m);
      if Accepts(n.sw[m.dest.bridge], m.dest.port, m.v) {
        AcceptedDelivery(t, n, k);
      } else {
        RejectedDelivery(t, n, k);
      }
    case Hello(b) => HelloKeepsInv(t, n, b);
    case Duplicate(k) => SameSwitches(t, n, After(t, n, step));
    case Lose(k) => SameSwitches(t, n, After(t, n, step));
  }

  /** The same switches, and nothing in flight that was not there before. */
  lemma SameSwitches(t: Topology, n: Net, n': Net)
    requires Inv(t, n) && n'.sw == n.sw && forall m | m in n'.flight :: m in n.flight
    ensures Inv(t, n')
  {
    hide SwitchOk, MsgOk;
    assert Fits(t, n') by { FewerFit(t, n, n'); }
    OthersOk(t, n, n', x => false);
    Assemble(t, n');
  }

  lemma FewerFit(t: Topology, n: Net, n': Net)
    requires Fits(t, n) && n'.sw == n.sw && forall m | m in n'.flight :: m in n.flight
    ensures Fits(t, n')
  {
    assert forall k | 0 <= k < |n.flight| :: n.flight[k].dest in t.link;
    assert forall m | m in n.flight :: m.dest in t.link;
    hide ValidTopology;
  }

  /** A switch whose state did not change stays acceptable. */
  lemma UnchangedSwitch(t: Topology, n: Net, n': Net, b: u64)
    requires Fits(t, n) && Fits(t, n') && Improves(t, n, n')
    requires b in n.sw && n'.sw[b] == n.sw[b] && SwitchOk(t, n, b)
    ensures SwitchOk(t, n', b)
  {
    hide Real, SwitchInv, Improves, FromPeer, IsOwn;
    AllPersist(t, n, n');
    forall i | 0 <= i < t.nports[b]
      ensures PortOk(t, n', b, i)
    {
      assert PortOk(t, n, b, i);
    }
  }

  lemma MessageStaysOk(t: Topology, n: Net, n': Net, m: Msg)
    requires Fits(t, n) && Fits(t, n') && Improves(t, n, n') && MsgOk(t, n, m)
    ensures MsgOk(t, n', m)
  {
    hide Real, Improves, FromPeer;
    AllPersist(t, n, n');
  }

  /** Switches whose state did not change stay acceptable, and so does what is in flight. */
  lemma OthersOk(t: Topology, n: Net, n': Net, changed: u64 -> bool)
    requires Inv(t, n) && Fits(t, n') && Improves(t, n, n')
    requires forall b | b in n.sw && !changed(b) :: n'.sw[b] == n.sw[b]
    ensures forall b | b in n.sw && !changed(b) :: SwitchOk(t, n', b)
    ensures forall m | m in n.flight :: MsgOk(t, n', m)
  {
    hide SwitchOk, MsgOk, Improves;
    forall b | b in n.sw && !changed(b)
      ensures SwitchOk(t, n', b)
    {
      UnchangedSwitch(t, n, n', b);
    }
    forall m | m in n.flight
      ensures MsgOk(t, n', m)
    {
      MessageStaysOk(t, n, n', m);
    }
  }

  /** A full announcement of a switch whose claim is real is acceptable. */
  lemma AnnouncementOk(t: Topology, n: Net, b: u64)
    requires Fits(t, n) && b in n.sw && Real(t, n, n.sw[b].root, n.sw[b].cost, b)
    ensures forall m | m in Post(t, b, Announce(n.sw[b], |n.sw[b].ports|)) :: MsgOk(t, n, m)
  {
    hide Real, Announce, Post, MsgOk;
    var frames := Announce(n.sw[b], |n.sw[b].ports|);
    forall f | f in frames
      ensures f.port < |n.sw[b].ports| && f.v == Local(n.sw[b], f.port)
    {
      AnnounceContents(n.sw[b], |n.sw[b].ports|, f);
    }
    PostOk(t, n, b, frames);
  }

  /** m is about to be accepted in n, and n' is n with the acceptor's new state. */
  ghost predicate Acceptance(t: Topology, n: Net, n': Net, m: Msg) {
    && Inv(t, n) && m in n.flight && Fits(t, n') && Improves(t, n, n')
    && m.dest.bridge in n.sw && m.dest.port < |n.sw[m.dest.bridge].ports|
    && Storable(n.sw[m.dest.bridge], m.dest.port, m.v)
    && n'.sw == n.sw[m.dest.bridge := AfterAccept(n.sw[m.dest.bridge], m.dest.port, m.v)]
  }

  lemma AcceptorPortOk(t: Topology, n: Net, n': Net, m: Msg, i: nat)
    requires Acceptance(t, n, n', m) && i < t.nports[m.dest.bridge]
    ensures PortOk(t, n', m.dest.bridge, i)
  {
    hide AfterAccept, SwitchInv, Witness, Real, CostsBounded;
    var b, s := m.dest.bridge, n.sw[m.dest.bridge];
    AllPersist(t, n, n');
    assert MsgOk(t, n, m) && SwitchOk(t, n, b);
    AcceptImprovesPort(s, m.dest.port, m.v, i);
    assert PortOk(t, n, b, i);
  }

  /** The claim of a switch that has just recomputed its root is real. */
  lemma AcceptorIsReal(t: Topology, n: Net, n': Net, m: Msg)
    requires Acceptance(t, n, n', m)
    ensures Real(t, n', n'.sw[m.dest.bridge].root, n'.sw[m.dest.bridge].cost, m.dest.bridge)
  {
    hide AfterAccept, Inv, Improves, PortsConsistent, CostsBounded;
    var b := m.dest.bridge;
    var s' := n'.sw[b];
    AcceptKeeps(n.sw[b], m.dest.port, m.v);
    match s'.rootPort
    case None =>
      assert Witness(t, n', [b], b, 0, b);
    case Some(r) =>
      AcceptorPortOk(t, n, n', m, r);
      PeerAdjacent(t, Endpoint(b, r), s'.ports[r]);
      RealExtends(t, n', s'.ports[r].root, s'.ports[r].cost, s'.ports[r].bridge, b);
  }

  lemma PeerAdjacent(t: Topology, e: Endpoint, v: Vector)
    requires ValidTopology(t) && FromPeer(t, e, v)
    ensures Adjacent(t, v.bridge, e.bridge) && Adjacent(t, e.bridge, v.bridge)
  {
    var f := t.link[e];
    assert t.link[f].bridge == e.bridge && f.bridge == v.bridge;
  }

  /** The invariant, switch by switch and message by message. */
  lemma Assemble(t: Topology, n: Net)
    requires Fits(t, n)
    requires forall b | b in n.sw :: SwitchOk(t, n, b)
    requires forall m | m in n.flight :: MsgOk(t, n, m)
    ensures Inv(t, n)
  {
    hide Fits, SwitchOk, MsgOk;
  }

  lemma LeftInFlight(n: Net, k: nat, post: seq<Msg>)
    requires k < |n.flight|
    ensures forall m | m in Without(n.flight, k) + post :: m in n.flight || m in post
  {}

  /** The acceptor's new state is acceptable. */
  lemma AcceptorOk(t: Topology, n: Net, n': Net, m: Msg)
    requires Acceptance(t, n, n', m)
    ensures SwitchOk(t, n', m.dest.bridge)
  {
    hide AfterAccept, Improves, CostsBounded, PortOk, Real, SwitchInv, Storable;
    AcceptorIsReal(t, n, n', m);
    forall i | 0 <= i < t.nports[m.dest.bridge]
      ensures PortOk(t, n', m.dest.bridge, i)
    {
      AcceptorPortOk(t, n, n', m, i);
    }
    AcceptKeeps(n.sw[m.dest.bridge], m.dest.port, m.v);
  }

  lemma AcceptedDelivery(t: Topology, n: Net, k: nat)
    requires Inv(t, n) && k < |n.flight|
    requires n.flight[k].dest.bridge in n.sw && n.flight[k].dest.port < |n.sw[n.flight[k].dest.bridge].ports|
    requires Storable(n.sw[n.flight[k].dest.bridge], n.flight[k].dest.port, n.flight[k].v)
    ensures Inv(t, AfterDeliver(t, n, k))
  {
    hide SwitchInv, AfterAccept, Announce, Post, Real, MsgOk, CostsBounded, PortOk, SwitchOk, Improves;
    var m := n.flight[k];
    var b, n' := m.dest.bridge, AfterDeliver(t, n, k);
    StepImproves(t, n, Deliver(k));
    OthersOk(t, n, n', x => x == b);
    AcceptorOk(t, n, n', m);
    SwitchIsReal(t, n', b);
    AnnouncementOk(t, n', b);
    LeftInFlight(n, k, Post(t, b, Announce(n'.sw[b], |n'.sw[b].ports|)));
    Assemble(t, n');
  }

  lemma RejectedDelivery(t: Topology, n: Net, k: nat)
    requires Inv(t, n) && k < |n.flight|
    requires n.flight[k].dest.bridge in n.sw && n.flight[k].dest.port < |n.sw[n.flight[k].dest.bridge].ports|
    requires !Accepts(n.sw[n.flight[k].dest.bridge], n.flight[k].dest.port, n.flight[k].v)
    ensures Inv(t, AfterDeliver(t, n, k))
  {
    hide SwitchInv, AfterAccept, Announce, Post, Real, MsgOk, SwitchOk, Improves, Accepts;
    var m := n.flight[k];
    var b, n' := m.dest.bridge, AfterDeliver(t, n, k);
    StepImproves(t, n, Deliver(k));
    OthersOk(t, n, n', x => false);
    SwitchIsReal(t, n', b);
    var frames := Receive(n.sw[b], m.dest.port, m.v).frames;
    PostOk(t, n', b, frames);
    LeftInFlight(n, k, Post(t, b, frames));
    Assemble(t, n');
  }

  lemma HelloKeepsInv(t: Topology, n: Net, b: u64)
    requires Inv(t, n) && Enabled(t, n, Hello(b))
    ensures Inv(t, AfterHello(t, n, b))
  {
    hide SwitchOk, MsgOk, Announce, Post, Improves, Real;
    var n' := AfterHello(t, n, b);
    assert n.sw[b].(hello := true) == n.sw[b];
    StepImproves(t, n, Hello(b));
    OthersOk(t, n, n', x => false);
    SwitchIsReal(t, n', b);
    AnnouncementOk(t, n', b);
    Assemble(t, n');
  }

  lemma SwitchIsReal(t: Topology, n: Net, b: u64)
    requires Fits(t, n) && b in n.sw && SwitchOk(t, n, b)
    ensures Real(t, n, n.sw[b].root, n.sw[b].cost, b)
  {}

  lemma StartInv(t: Topology)
    requires ValidTopology(t)
    ensures Inv(t, Start(t))
  {
    var n := Start(t);
    forall b | b in n.sw
      ensures SwitchOk(t, n, b)
    {
      InitialInv(b, t.nports[b]);
      assert Witness(t, n, [b], b, 0, b);
    }
  }

  /** Every state of every run satisfies the network invariant. */
  lemma {:induction false} RunKeepsInv(t: Topology, n: Net, steps: seq<Step>, n': Net)
    requires Inv(t, n) && Run(t, n, steps, n')
    ensures Inv(t, n') && Improves(t, n, n')
    decreases |steps|
  {
    hide SwitchInv, After, Witness, Enabled, ValidTopology, SwitchOk, MsgOk;
    if steps != [] {
      var mid := After(t, n, steps[0]);
      StepImproves(t, n, steps[0]);
      StepKeepsInv(t, n, steps[0]);
      RunKeepsInv(t, mid, steps[1..], n');
    }
  }
}
