/**
 One switch of the spanning tree protocol: the priority vectors kept per port,
 the election of the root port, and the handler of a configuration BPDU.
 */
module StpSwitch {
  import opened Basics

  const MAX_PORTS: nat := 32
  const HELLO_TIME: nat := 512
  const PATH_COST: u32 := 1

  /** The four compared fields of a configuration BPDU; a port stores one of these. */
  datatype Vector = Vector(root: u64, cost: u32, bridge: u64, port: u16)

  /** Everything a switch's behaviour depends on, as a value. */
  datatype SwitchState = SwitchState(
    id: u64, root: u64, cost: u32, rootPort: Option<nat>, ports: seq<Vector>, hello: bool)

  /** A BPDU leaving through the port with this index. */
  datatype Frame = Frame(port: nat, v: Vector)

  datatype Outcome = Outcome(state: SwitchState, frames: seq<Frame>)

  /** Port identifiers carry the priority 128 in their high byte and count from 1. */
  function PortId(i: nat): u16
    requires i < MAX_PORTS
  {
    0x8000 + i + 1
  }

  /** Unsigned 32-bit addition. */
  function AddCost(a: u32, b: u32): u32 {
    (a + b) % 0x1_0000_0000
  }

  /** The lexicographic order on vectors; smaller is better. */
  predicate VectorBetter(a: Vector, b: Vector) {
    if a.root != b.root then a.root < b.root
    else if a.cost != b.cost then a.cost < b.cost
    else if a.bridge != b.bridge then a.bridge < b.bridge
    else a.port < b.port
  }

  /** The order used to elect the root port: path cost included, port id last. */
  predicate RootPortBetter(a: Vector, ai: nat, b: Vector, bi: nat)
    requires ai < MAX_PORTS && bi < MAX_PORTS
  {
    var ca, cb := AddCost(a.cost, PATH_COST), AddCost(b.cost, PATH_COST);
    if a.root != b.root then a.root < b.root
    else if ca != cb then ca < cb
    else if a.bridge != b.bridge then a.bridge < b.bridge
    else if a.port != b.port then a.port < b.port
    else PortId(ai) < PortId(bi)
  }

  /** The vector was announced by port i of switch id itself. */
  predicate IsOwn(v: Vector, id: u64, i: nat)
    requires i < MAX_PORTS
  {
    v.bridge == id && v.port == PortId(i)
  }

  predicate Shaped(s: SwitchState) {
    |s.ports| <= MAX_PORTS
  }

  predicate Designated(s: SwitchState, i: nat)
    requires Shaped(s) && i < |s.ports|
  {
    IsOwn(s.ports[i], s.id, i)
  }

  /** What the switch announces through port i. */
  function Local(s: SwitchState, i: nat): Vector
    requires Shaped(s) && i < |s.ports|
  {
    Vector(s.root, s.cost, s.id, PortId(i))
  }

  /** Port i may become the root port. */
  predicate Candidate(s: SwitchState, i: nat)
    requires Shaped(s) && i < |s.ports|
  {
    !Designated(s, i) && s.ports[i].root < s.id
  }

  /** The root port elected among the first n ports. */
  function Elect(s: SwitchState, n: nat): Option<nat>
    requires Shaped(s) && n <= |s.ports|
    ensures Elect(s, n).Some? ==> Elect(s, n).value < n
  {
    if n == 0 then None
    else
      var best := Elect(s, n - 1);
      if !Candidate(s, n - 1) then best
      else if best.None? || RootPortBetter(s.ports[n - 1], n - 1, s.ports[best.value], best.value) then Some(n - 1)
      else best
  }

  /** The state after electing: new root port, root and cost; ports untouched. */
  function Elected(s: SwitchState): (r: SwitchState)
    requires Shaped(s)
    ensures r.ports == s.ports && r.id == s.id
  {
    var best := Elect(s, |s.ports|);
    match best
    case None => s.(rootPort := best, root := s.id, cost := 0)
    case Some(p) => s.(rootPort := best, root := s.ports[p].root, cost := AddCost(s.ports[p].cost, PATH_COST))
  }

  /** What port i stores once roots are elected. */
  function Refreshed(s: SwitchState, i: nat): Vector
    requires Shaped(s) && i < |s.ports|
  {
    if Designated(s, i) || !VectorBetter(s.ports[i], Local(s, i)) then Local(s, i) else s.ports[i]
  }

  function Update(s: SwitchState): (r: SwitchState)
    requires Shaped(s)
    ensures |r.ports| == |s.ports| && r.id == s.id && r.hello == s.hello
  {
    var e := Elected(s);
    e.(ports := seq(|e.ports|, i requires 0 <= i < |e.ports| => Refreshed(e, i)))
  }

  /** The BPDU sent through one port, if the switch knows a root at all. */
  function PortConfig(s: SwitchState, i: nat): seq<Frame>
    requires Shaped(s) && i < |s.ports|
  {
    if s.root != s.id && s.rootPort.None? then [] else [Frame(i, Local(s, i))]
  }

  /** The BPDUs sent by a full announcement through the first n ports. */
  function Announce(s: SwitchState, n: nat): seq<Frame>
    requires Shaped(s) && n <= |s.ports|
  {
    if n == 0 then []
    else Announce(s, n - 1) + if Designated(s, n - 1) then PortConfig(s, n - 1) else []
  }

  predicate Accepts(s: SwitchState, p: nat, v: Vector)
    requires Shaped(s) && p < |s.ports|
  {
    VectorBetter(v, s.ports[p])
  }

  /** The state after a better BPDU was stored and everything recomputed. */
  function AfterAccept(s: SwitchState, p: nat, v: Vector): (r: SwitchState)
    requires Shaped(s) && p < |s.ports|
    ensures |r.ports| == |s.ports| && r.id == s.id
  {
    var u := Update(s.(ports := s.ports[p := v]));
    if s.root == s.id && u.root != u.id then u.(hello := false) else u
  }

  /** Reception of a configuration BPDU on port p. */
  function Receive(s: SwitchState, p: nat, v: Vector): Outcome
    requires Shaped(s) && p < |s.ports|
  {
    if Accepts(s, p, v) then
      var s' := AfterAccept(s, p, v);
      Outcome(s', Announce(s', |s'.ports|))
    else
      Outcome(s, if Designated(s, p) then PortConfig(s, p) else [])
  }

  function InitialState(id: u64, n: nat): (s: SwitchState)
    requires n <= MAX_PORTS
    ensures Shaped(s) && |s.ports| == n
  {
    SwitchState(id, id, 0, None, seq(n, i requires 0 <= i < n => Vector(id, 0, id, PortId(i))), true)
  }

  /** A one-shot timer; ticks are 1/256 s. */
  class Timer {
    var active: bool
    var time: int
    const timeout: int

    constructor (timeout: int)
      ensures !active && this.timeout == timeout
    {
      active, time := false, 0;
      this.timeout := timeout;
    }

    method Start(now: int)
      modifies this
      ensures active && time == now
    {
      active := true;
      time := now;
    }

    method Stop()
      modifies this
      ensures !active && time == old(time)
    {
      active := false;
    }

    /** Tells whether the timer has expired, and disarms it if so. */
    method Check(now: int) returns (expired: bool)
      modifies this
      ensures expired <==> old(active) && now >= time + timeout
      ensures active == (old(active) && !expired) && time == old(time)
    {
      if active {
        if now >= time + timeout {
          active := false;
          return true;
        }
      }
      return false;
    }
  }

  class Switch {
    const id: u64
    var designatedRoot: u64
    var rootPathCost: u32
    var rootPort: Option<nat>
    const ports: array<Vector>
    const helloTimer: Timer

    ghost predicate Valid()
      reads this
    {
      ports.Length <= MAX_PORTS && (rootPort.Some? ==> rootPort.value < ports.Length)
    }

    ghost function State(): SwitchState
      reads this, ports, helloTimer
    {
      SwitchState(id, designatedRoot, rootPathCost, rootPort, ports[..], helloTimer.active)
    }

    /** Every switch starts out believing it is the root, with all ports designated. */
    constructor (id: u64, nports: nat, now: int)
      requires nports <= MAX_PORTS
      ensures Valid() && fresh(ports) && fresh(helloTimer)
      ensures State() == InitialState(id, nports)
      ensures helloTimer.time == now && helloTimer.timeout == HELLO_TIME
    {
      this.id := id;
      designatedRoot := id;
      rootPathCost := 0;
      rootPort := None;
      ports := new Vector[nports](_ => Vector(id, 0, id, 0));
      helloTimer := new Timer(HELLO_TIME);
      new;
      helloTimer.Start(now);
      for i := 0 to ports.Length
        invariant forall k | 0 <= k < i :: ports[k] == Vector(id, 0, id, PortId(k))
        invariant helloTimer.active && helloTimer.time == now
        invariant fresh(ports) && fresh(helloTimer)
        modifies ports
      {
        ports[i] := Vector(designatedRoot, rootPathCost, id, PortId(i));
      }
      assert ports[..] == InitialState(id, nports).ports;
    }

    method IsRoot() returns (r: bool)
      ensures r <==> State().root == State().id
    {
      r := designatedRoot == id;
    }

    method SetDesignated(i: nat)
      requires Valid() && i < ports.Length
      modifies ports
      ensures ports[..] == old(ports[..])[i := Local(old(State()), i)]
    {
      ports[i] := Vector(designatedRoot, rootPathCost, id, PortId(i));
    }

    /** The first half of the state update: root port, root and cost. */
    method ElectRoot()
      requires Valid()
      modifies this
      ensures Valid() && State() == Elected(old(State()))
    {
      ghost var s := State();
      var root: Option<nat> := None;
      for i := 0 to ports.Length
        invariant State() == s
        invariant root == Elect(s, i)
      {
        if IsOwn(ports[i], id, i) { continue; }
        if ports[i].root >= id { continue; }
        if root.None? {
          root := Some(i);
          continue;
        }
        if RootPortBetter(ports[i], i, ports[root.value], root.value) {
          root := Some(i);
        }
      }
      rootPort := root;
      if root.None? {
        designatedRoot := id;
        rootPathCost := 0;
      } else {
        designatedRoot := ports[root.value].root;
        rootPathCost := AddCost(ports[root.value].cost, PATH_COST);
      }
    }

    /** The second half: designated ports, old and new, store the local vector. */
    method RefreshPorts()
      requires Valid()
      modifies ports
      ensures |ports[..]| == |old(ports[..])|
      ensures forall i | 0 <= i < ports.Length :: ports[i] == Refreshed(old(State()), i)
    {
      ghost var e := State();
      for i := 0 to ports.Length
        invariant Valid()
        invariant State() == e.(ports := ports[..])
        invariant forall k | 0 <= k < i :: ports[k] == Refreshed(e, k)
        invariant forall k | i <= k < ports.Length :: ports[k] == e.ports[k]
      {
        if IsOwn(ports[i], id, i) {
          SetDesignated(i);
          continue;
        }
        var mine, seg := Vector(designatedRoot, rootPathCost, id, PortId(i)), ports[i];
        if !VectorBetter(seg, mine) {
          SetDesignated(i);
        }
      }
    }

    method UpdateState()
      requires Valid()
      modifies this, ports
      ensures Valid() && State() == Update(old(State()))
    {
      hide Elected, Refreshed;
      ghost var s := State();
      ElectRoot();
      RefreshPorts();
      assert ports[..] == Update(s).ports;
    }

    method PortSendConfig(i: nat) returns (out: seq<Frame>)
      requires Valid() && i < ports.Length
      ensures out == PortConfig(State(), i)
    {
      if designatedRoot != id && rootPort.None? {
        return [];
      }
      out := [Frame(i, Vector(designatedRoot, rootPathCost, id, PortId(i)))];
    }

    method SendConfig() returns (out: seq<Frame>)
      requires Valid()
      ensures out == Announce(State(), ports.Length)
    {
      out := [];
      for i := 0 to ports.Length
        invariant out == Announce(State(), i)
      {
        if IsOwn(ports[i], id, i) {
          var f := PortSendConfig(i);
          out := out + f;
        }
      }
    }

    method HandleConfig(p: nat, recv: Vector) returns (out: seq<Frame>)
      requires Valid() && p < ports.Length
      modifies this, ports, helloTimer
      ensures Valid()
      ensures Outcome(State(), out) == Receive(old(State()), p, recv)
      ensures helloTimer.time == old(helloTimer.time)
    {
      ghost var s := State();
      var wasRoot := IsRoot();
      var seg := ports[p];
      if VectorBetter(recv, seg) {
        ports[p] := recv;
        assert State() == s.(ports := s.ports[p := recv]);
        UpdateState();
        var isRoot := IsRoot();
        if wasRoot && !isRoot {
          helloTimer.Stop();
        }
        assert State() == AfterAccept(s, p, recv);
        out := SendConfig();
      } else if IsOwn(ports[p], id, p) {
        out := PortSendConfig(p);
      } else {
        out := [];
      }
    }

    /** One pass over the timer list, which holds the hello timer only. */
    method TimerRunOnce(now: int, later: int) returns (fired: bool, out: seq<Frame>)
      requires Valid()
      modifies helloTimer
      ensures Valid() && State() == old(State())
      ensures fired <==> old(helloTimer.active) && now >= old(helloTimer.time) + helloTimer.timeout
      ensures out == if fired then Announce(State(), ports.Length) else []
      ensures helloTimer.time == if fired then later else old(helloTimer.time)
    {
      out := [];
      fired := helloTimer.Check(now);
      if fired {
        out := HelloTimeout(later);
      }
    }

    method HelloTimeout(now: int) returns (out: seq<Frame>)
      requires Valid()
      modifies helloTimer
      ensures Valid() && State() == old(State()).(hello := true)
      ensures out == Announce(State(), ports.Length)
      ensures helloTimer.time == now
    {
      out := SendConfig();
      ghost var before := State();
      helloTimer.Start(now);
      AnnounceIgnoresHello(before, State(), ports.Length);
    }
  }

  lemma {:induction false} AnnounceIgnoresHello(a: SwitchState, b: SwitchState, n: nat)
    requires Shaped(a) && n <= |a.ports| && b == a.(hello := b.hello)
    ensures Announce(a, n) == Announce(b, n)
  {
    if n > 0 { AnnounceIgnoresHello(a, b, n - 1); }
  }

  // ---------------------------------------------------------------------
  // The election
  // ---------------------------------------------------------------------

  /** The vector order is a strict total order. */
  lemma VectorOrder(a: Vector, b: Vector, c: Vector)
    ensures !VectorBetter(a, a)
    ensures VectorBetter(a, b) && VectorBetter(b, c) ==> VectorBetter(a, c)
    ensures a == b || (VectorBetter(a, b) <==> !VectorBetter(b, a))
  {}

  /** The elected port is a candidate that beats every other candidate; none is elected iff there is none. */
  lemma {:induction false} ElectIsBest(s: SwitchState, n: nat)
    requires Shaped(s) && n <= |s.ports|
    ensures Elect(s, n).None? <==> forall q | 0 <= q < n :: !Candidate(s, q)
    ensures Elect(s, n).Some? ==> Candidate(s, Elect(s, n).value)
    ensures Elect(s, n).Some? ==>
      forall q | 0 <= q < n && Candidate(s, q) && q != Elect(s, n).value ::
        RootPortBetter(s.ports[Elect(s, n).value], Elect(s, n).value, s.ports[q], q)
  {
    if n > 0 { ElectIsBest(s, n - 1); }
  }

  // ---------------------------------------------------------------------
  // The per-switch invariant
  // ---------------------------------------------------------------------

  /** (r1, c1) is at least as good a root and cost as (r2, c2). */
  predicate AtLeast(r1: int, c1: int, r2: int, c2: int) {
    r1 < r2 || (r1 == r2 && c1 <= c2)
  }

  /** A port is designated and stores the local vector, or stores a strictly better one. */
  predicate PortsConsistent(s: SwitchState)
    requires Shaped(s)
  {
    forall i | 0 <= i < |s.ports| ::
      if Designated(s, i) then s.ports[i] == Local(s, i) else VectorBetter(s.ports[i], Local(s, i))
  }

  /** The root port is the best candidate, not designated, and gives root and cost; without candidates there is none. */
  predicate RootPortConsistent(s: SwitchState)
    requires Shaped(s)
  {
    match s.rootPort
    case None =>
      && s.root == s.id && s.cost == 0
      && forall q | 0 <= q < |s.ports| :: !Candidate(s, q)
    case Some(r) =>
      && r < |s.ports| && Candidate(s, r)
      && s.root == s.ports[r].root && s.cost == s.ports[r].cost + PATH_COST
      && forall q | 0 <= q < |s.ports| && Candidate(s, q) && q != r :: RootPortBetter(s.ports[r], r, s.ports[q], q)
  }

  predicate SwitchInv(s: SwitchState) {
    Shaped(s) && PortsConsistent(s) && RootPortConsistent(s) && (s.hello <==> s.root == s.id)
  }

  /** No stored cost is the largest 32-bit value, so adding a path cost of 1 does not wrap. */
  predicate CostsBounded(s: SwitchState) {
    forall i | 0 <= i < |s.ports| :: s.ports[i].cost < 0xFFFF_FFFF
  }

  lemma InitialInv(id: u64, n: nat)
    requires n <= MAX_PORTS
    ensures SwitchInv(InitialState(id, n))
    ensures forall i | 0 <= i < n :: Designated(InitialState(id, n), i)
  {}

  /** "No root port", "believes it is root" and "hello timer armed" are one condition. */
  lemma RootBeliefs(s: SwitchState)
    requires SwitchInv(s)
    ensures s.rootPort.None? <==> s.root == s.id
    ensures s.hello <==> s.rootPort.None?
    ensures s.rootPort.Some? ==> !Designated(s, s.rootPort.value)
  {}

  /** What an update stores on a port, given the elected root and cost. */
  lemma RefreshedPort(s: SwitchState, i: nat)
    requires Shaped(s) && i < |s.ports|
    ensures var e, u := Elected(s), Update(s);
      && u.ports[i] == Refreshed(e, i) && Local(u, i) == Local(e, i)
      && (if Designated(u, i) then u.ports[i] == Local(u, i) else VectorBetter(u.ports[i], Local(u, i)))
      && (Candidate(u, i) ==> Candidate(s, i) && u.ports[i] == s.ports[i])
  {
    hide Elect;
  }

  /** A candidate keeps its vector, unless the switch's own announcement is at least as good. */
  lemma ElectedIsKept(s: SwitchState, r: nat)
    requires Shaped(s) && CostsBounded(s) && Elect(s, |s.ports|) == Some(r) && Candidate(s, r)
    ensures Update(s).ports[r] == s.ports[r] && Candidate(Update(s), r)
  {
    RefreshedPort(s, r);
    hide Elect;
  }

  lemma UpdateKeeps(s: SwitchState)
    requires Shaped(s) && CostsBounded(s)
    ensures PortsConsistent(Update(s)) && RootPortConsistent(Update(s))
    ensures Update(s).root == Update(s).id <==> Update(s).rootPort.None?
  {
    var u := Update(s);
    forall i | 0 <= i < |u.ports|
      ensures if Designated(u, i) then u.ports[i] == Local(u, i) else VectorBetter(u.ports[i], Local(u, i))
      ensures Candidate(u, i) ==> Candidate(s, i) && u.ports[i] == s.ports[i]
    {
      RefreshedPort(s, i);
    }
    ElectIsBest(s, |s.ports|);
    var best := Elect(s, |s.ports|);
    if best.Some? { ElectedIsKept(s, best.value); }
    hide Elect, Refreshed, Local, Designated, VectorBetter, RootPortBetter, Candidate;
    RootOfUpdate(s);
  }

  lemma RootOfUpdate(s: SwitchState)
    requires Shaped(s)
    ensures var best, u := Elect(s, |s.ports|), Update(s);
      && u.rootPort == best
      && (best.None? ==> u.root == s.id && u.cost == 0)
      && (best.Some? ==> u.root == s.ports[best.value].root && u.cost == AddCost(s.ports[best.value].cost, PATH_COST))
    ensures Elect(s, |s.ports|).Some? && Candidate(s, Elect(s, |s.ports|).value) ==> Update(s).root < s.id
  {
    hide Elect;
  }

  /** The situation in which a BPDU from another switch port is stored on port p. */
  predicate Storable(s: SwitchState, p: nat, v: Vector) {
    && SwitchInv(s) && CostsBounded(s) && p < |s.ports|
    && Accepts(s, p, v) && !IsOwn(v, s.id, p) && v.cost < 0xFFFF_FFFF
  }

  /** A switch's root and cost after an update are at least as good as over any candidate. */
  lemma UpdateAtLeast(s: SwitchState, r: nat)
    requires Shaped(s) && CostsBounded(s) && r < |s.ports| && Candidate(s, r)
    ensures AtLeast(Update(s).root, Update(s).cost, s.ports[r].root, s.ports[r].cost + PATH_COST)
  {
    ElectIsBest(s, |s.ports|);
    RootOfUpdate(s);
    hide Elect, Update, Candidate, Designated;
    var b := Elect(s, |s.ports|).value;
    assert b == r || RootPortBetter(s.ports[b], b, s.ports[r], r);
    assert s.ports[b].cost < 0xFFFF_FFFF && s.ports[r].cost < 0xFFFF_FFFF;
  }

  /** An update leaves a switch at least as good as believing to be the root itself. */
  lemma UpdateAtLeastSelf(s: SwitchState)
    requires Shaped(s)
    ensures AtLeast(Update(s).root, Update(s).cost, s.id, 0)
  {
    ElectIsBest(s, |s.ports|);
    RootOfUpdate(s);
    hide Elect, Update, RootPortBetter;
  }

  /** Storing a better vector never worsens the switch's root and cost. */
  lemma AcceptImproves(s: SwitchState, p: nat, v: Vector)
    requires Storable(s, p, v)
    ensures AtLeast(AfterAccept(s, p, v).root, AfterAccept(s, p, v).cost, s.root, s.cost)
  {
    var t := s.(ports := s.ports[p := v]);
    if s.rootPort.Some? {
      var r := s.rootPort.value;
      assert Candidate(t, r);
      UpdateAtLeast(t, r);
    } else {
      UpdateAtLeastSelf(t);
    }
    hide Update, RootPortBetter, PortsConsistent;
  }

  /** Storing a better vector never worsens what any port stores. */
  lemma AcceptImprovesPort(s: SwitchState, p: nat, v: Vector, i: nat)
    requires Storable(s, p, v) && i < |s.ports|
    ensures var w := AfterAccept(s, p, v).ports[i];
      && (w == s.ports[i] || VectorBetter(w, s.ports[i]))
      && (i == p ==> w == v || VectorBetter(w, v))
      && (w == Local(AfterAccept(s, p, v), i) || w == if i == p then v else s.ports[i])
  {
    AcceptImproves(s, p, v);
    var t := s.(ports := s.ports[p := v]);
    assert AfterAccept(s, p, v).ports[i] == Refreshed(Elected(t), i);
  }

  /** Storing a better vector re-establishes the per-switch invariant. */
  lemma AcceptKeeps(s: SwitchState, p: nat, v: Vector)
    requires Storable(s, p, v)
    ensures SwitchInv(AfterAccept(s, p, v))
  {
    var t := s.(ports := s.ports[p := v]);
    UpdateKeeps(t);
    AcceptImproves(s, p, v);
    AfterUpdate(s, p, v);
  }

  lemma AfterUpdate(s: SwitchState, p: nat, v: Vector)
    requires Shaped(s) && p < |s.ports|
    ensures var u := Update(s.(ports := s.ports[p := v])); var r := AfterAccept(s, p, v);
      && r == u.(hello := r.hello)
      && r.hello == (s.hello && !(s.root == s.id && u.root != u.id))
      && (PortsConsistent(u) ==> PortsConsistent(r))
      && (RootPortConsistent(u) ==> RootPortConsistent(r))
  {}
}
