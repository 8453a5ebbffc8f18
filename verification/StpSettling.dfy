/**
 Accepted BPDUs are bounded: each lowers a measure summed over all ports, and no step raises it.
 */
module StpSettling {
  import opened Basics
  import opened StpSwitch
  import opened StpNetwork
  import opened StpSafety

  /** The number of switches with a smaller id. */
  ghost function IdRank(t: Topology, x: u64): nat {
    |set y | y in t.nports && y < x|
  }

  lemma IdRankOrder(t: Topology, x: u64, y: u64)
    requires x in t.nports
    ensures IdRank(t, x) < |t.nports|
    ensures x < y ==> IdRank(t, x) < IdRank(t, y)
  {
    var a, b := set z | z in t.nports && z < x, set z | z in t.nports && z < y;
    assert a < t.nports.Keys by { assert x in t.nports.Keys && x !in a; }
    Smaller(a, t.nports.Keys);
    if x < y {
      assert x in b && x !in a;
      Smaller(a, b);
    }
  }

  lemma Smaller<T>(a: set<T>, b: set<T>)
    requires a < b
    ensures |a| < |b|
  {
    assert b == a + (b - a);
  }

  /** Two vectors can meet at an endpoint under equal root and cost: its own and the far end's. */
  ghost function Side(t: Topology, e: Endpoint, v: Vector): nat
    requires ValidTopology(t) && ValidEndpoint(t, e)
  {
    if e !in t.link then 0
    else
      var own, peer := Vector(0, 0, e.bridge, PortId(e.port)), Vector(0, 0, t.link[e].bridge, PortId(t.link[e].port));
      var other := if IsOwn(v, e.bridge, e.port) then peer else own;
      if VectorBetter(other, Vector(0, 0, v.bridge, v.port)) then 1 else 0
  }

  /** The place of a vector among those that can be stored at an endpoint: fewer than 2 * N * N. */
  ghost function Rank(t: Topology, e: Endpoint, v: Vector): nat
    requires ValidTopology(t) && ValidEndpoint(t, e)
  {
    2 * (|t.nports| * IdRank(t, v.root) + v.cost) + Side(t, e, v)
  }

  /** The vectors that can be stored at an endpoint of a network. */
  ghost predicate Storeable(t: Topology, e: Endpoint, v: Vector)
    requires ValidTopology(t)
  {
    && ValidEndpoint(t, e) && v.root in t.nports && v.cost < |t.nports|
    && (IsOwn(v, e.bridge, e.port) || FromPeer(t, e, v))
  }

  lemma Lexicographic(n: int, a: int, b: int, c: int, d: int)
    requires 0 <= c < n && 0 <= d && a < b
    ensures n * a + c < n * b + d
  {
    Distribute(n, a, b - a);
    Distribute(n, 1, b - a - 1);
  }

  lemma Distribute(n: int, a: int, k: int)
    requires n >= 0 && k >= 0
    ensures n * (a + k) == n * a + n * k && n * k >= 0
  {}

  lemma RankOrder(t: Topology, e: Endpoint, v: Vector, w: Vector)
    requires ValidTopology(t) && Storeable(t, e, v) && Storeable(t, e, w) && VectorBetter(v, w)
    ensures Rank(t, e, v) < Rank(t, e, w)
  {
    hide IdRank;
    var n, a, b := |t.nports|, IdRank(t, v.root), IdRank(t, w.root);
    IdRankOrder(t, v.root, w.root);
    if v.root != w.root {
      Lexicographic(n, a, b, v.cost, w.cost);
    }
  }

  lemma RankBound(t: Topology, e: Endpoint, v: Vector)
    requires ValidTopology(t) && Storeable(t, e, v)
    ensures Rank(t, e, v) < 2 * |t.nports| * |t.nports|
  {
    hide IdRank, Side;
    var n, a := |t.nports|, IdRank(t, v.root);
    IdRankOrder(t, v.root, v.root);
    Lexicographic(n, a, n, v.cost, 0);
    assert Side(t, e, v) <= 1 by { SideBound(t, e, v); }
  }

  lemma SideBound(t: Topology, e: Endpoint, v: Vector)
    requires ValidTopology(t) && ValidEndpoint(t, e)
    ensures Side(t, e, v) <= 1
  {}

  // ---------------------------------------------------------------------
  // The measure
  // ---------------------------------------------------------------------

  ghost function Endpoints(t: Topology): set<Endpoint> {
    set b, i | b in t.nports && 0 <= i < t.nports[b] :: Endpoint(b, i)
  }

  /** The ranks of what the given endpoints store, added up. */
  ghost function Total(t: Topology, n: Net, es: set<Endpoint>): nat
    requires Fits(t, n) && forall e | e in es :: ValidEndpoint(t, e)
    decreases |es|
  {
    if es == {} then 0
    else
      var e := Pick(es);
      Rank(t, e, StoredAt(t, n, e)) + Total(t, n, es - {e})
  }

  ghost function Measure(t: Topology, n: Net): nat
    requires Fits(t, n)
  {
    Total(t, n, Endpoints(t))
  }

  lemma {:induction false} TotalOrder(t: Topology, n: Net, n': Net, es: set<Endpoint>)
    requires Fits(t, n) && Fits(t, n')
    requires forall e | e in es :: ValidEndpoint(t, e)
    requires forall e | e in es :: Rank(t, e, StoredAt(t, n', e)) <= Rank(t, e, StoredAt(t, n, e))
    ensures Total(t, n', es) <= Total(t, n, es)
    ensures (exists e | e in es :: Rank(t, e, StoredAt(t, n', e)) < Rank(t, e, StoredAt(t, n, e)))
      ==> Total(t, n', es) < Total(t, n, es)
    decreases |es|
  {
    hide Rank, StoredAt, Fits, ValidEndpoint, Pick;
    if es != {} {
      TotalOrder(t, n, n', es - {Pick(es)});
    }
  }

  lemma {:induction false} TotalBound(t: Topology, n: Net, es: set<Endpoint>, k: nat)
    requires Fits(t, n)
    requires forall e | e in es :: ValidEndpoint(t, e) && Rank(t, e, StoredAt(t, n, e)) <= k
    ensures Total(t, n, es) <= |es| * k
    decreases |es|
  {
    hide Rank, StoredAt, Fits, ValidEndpoint, Pick;
    if es != {} {
      TotalBound(t, n, es - {Pick(es)}, k);
      assert (|es| - 1) * k + k == |es| * k;
    }
  }

  lemma StoredIsStoreable(t: Topology, n: Net, e: Endpoint)
    requires Inv(t, n) && ValidEndpoint(t, e)
    ensures Storeable(t, e, StoredAt(t, n, e))
  {
    hide SwitchOk, MsgOk, Real;
    StoredIsReal(t, n, e);
    var v := StoredAt(t, n, e);
    RealIsShort(t, n, v.root, v.cost, v.bridge);
  }

  /** The step is the delivery of a BPDU that the receiving port accepts. */
  ghost predicate IsAcceptance(t: Topology, n: Net, step: Step)
    requires Fits(t, n)
  {
    step.Deliver? && step.k < |n.flight| &&
    var m := n.flight[step.k];
    Accepts(n.sw[m.dest.bridge], m.dest.port, m.v)
  }

  /** What a step does to the ports: nothing is stored that is worse, and an acceptance stores something better. */
  lemma StepImprovesStored(t: Topology, n: Net, step: Step, e: Endpoint)
    requires Inv(t, n) && Enabled(t, n, step) && ValidEndpoint(t, e)
    ensures Fits(t, After(t, n, step))
    ensures var v, w := StoredAt(t, n, e), StoredAt(t, After(t, n, step), e);
      && (w == v || (VectorBetter(w, v) && IsAcceptance(t, n, step)))
      && (IsAcceptance(t, n, step) && e == n.flight[step.k].dest ==>
            VectorBetter(w, v) && (w == n.flight[step.k].v || VectorBetter(w, n.flight[step.k].v)))
  {
    hide SwitchOk, MsgOk, AfterAccept, Announce, Post, PortConfig, Storable;
    AfterFits(t, n, step);
    if step.Deliver? {
      var m := n.flight[step.k];
      DeliverStorable(t, n, m);
      if IsAcceptance(t, n, step) && e.bridge == m.dest.bridge {
        AcceptImprovesPort(n.sw[e.bridge], m.dest.port, m.v, e.port);
        var w := StoredAt(t, After(t, n, step), e);
        VectorOrder(w, m.v, StoredAt(t, n, e));
      }
    }
  }

  /** Every acceptance strictly lowers the measure, and no step raises it. */
  lemma AcceptanceLowersMeasure(t: Topology, n: Net, step: Step)
    requires Inv(t, n) && Enabled(t, n, step)
    ensures Fits(t, After(t, n, step))
    ensures Measure(t, After(t, n, step)) <= Measure(t, n)
    ensures IsAcceptance(t, n, step) ==> Measure(t, After(t, n, step)) < Measure(t, n)
  {
    hide SwitchOk, MsgOk, Rank, After, Enabled, IsAcceptance, StoredAt;
    AfterFits(t, n, step);
    StepKeepsInv(t, n, step);
    var n' := After(t, n, step);
    var es := Endpoints(t);
    forall e | e in es
      ensures ValidEndpoint(t, e)
      ensures Rank(t, e, StoredAt(t, n', e)) <= Rank(t, e, StoredAt(t, n, e))
    {
      StepImprovesStored(t, n, step, e);
      StoredIsStoreable(t, n, e);
      StoredIsStoreable(t, n', e);
      if StoredAt(t, n', e) != StoredAt(t, n, e) { RankOrder(t, e, StoredAt(t, n', e), StoredAt(t, n, e)); }
    }
    TotalOrder(t, n, n', es);
    if IsAcceptance(t, n, step) { AcceptanceLowersRank(t, n, step); }
  }

  lemma AcceptanceLowersRank(t: Topology, n: Net, step: Step)
    requires Inv(t, n) && Enabled(t, n, step) && IsAcceptance(t, n, step)
    ensures Fits(t, After(t, n, step))
    ensures n.flight[step.k].dest in Endpoints(t)
    ensures var e := n.flight[step.k].dest;
      Rank(t, e, StoredAt(t, After(t, n, step), e)) < Rank(t, e, StoredAt(t, n, e))
  {
    hide SwitchOk, MsgOk, Rank, After, Enabled, StoredAt;
    AfterFits(t, n, step);
    StepKeepsInv(t, n, step);
    var e := n.flight[step.k].dest;
    assert ValidEndpoint(t, e);
    StepImprovesStored(t, n, step, e);
    StoredIsStoreable(t, n, e);
    StoredIsStoreable(t, After(t, n, step), e);
    RankOrder(t, e, StoredAt(t, After(t, n, step), e), StoredAt(t, n, e));
  }

  /** The number of BPDUs accepted during a run. */
  ghost function Acceptances(t: Topology, n: Net, steps: seq<Step>, n': Net): nat
    requires Fits(t, n) && Run(t, n, steps, n')
    decreases |steps|
  {
    if steps == [] then 0
    else (if IsAcceptance(t, n, steps[0]) then 1 else 0)
         + Acceptances(t, After(t, n, steps[0]), steps[1..], n')
  }

  lemma {:induction false} AcceptancesLowerMeasure(t: Topology, n: Net, steps: seq<Step>, n': Net)
    requires Inv(t, n) && Run(t, n, steps, n')
    ensures Fits(t, n') && Acceptances(t, n, steps, n') + Measure(t, n') <= Measure(t, n)
    decreases |steps|
  {
    hide SwitchOk, MsgOk, After, Enabled, IsAcceptance, Measure;
    if steps != [] {
      AcceptanceLowersMeasure(t, n, steps[0]);
      StepKeepsInv(t, n, steps[0]);
      AcceptancesLowerMeasure(t, After(t, n, steps[0]), steps[1..], n');
    }
  }

  /** With N switches and P ports, no run from the start accepts more than P * 2 * N * N BPDUs. */
  lemma AcceptancesBounded(t: Topology, steps: seq<Step>, n: Net)
    requires ValidTopology(t) && Fits(t, Start(t)) && Run(t, Start(t), steps, n)
    ensures Acceptances(t, Start(t), steps, n) <= |Endpoints(t)| * (2 * |t.nports| * |t.nports|)
  {
    hide SwitchOk, MsgOk, Run, Rank, StoredAt, Start;
    StartInv(t);
    var s := Start(t);
    AcceptancesLowerMeasure(t, s, steps, n);
    forall e | e in Endpoints(t)
      ensures ValidEndpoint(t, e) && Rank(t, e, StoredAt(t, s, e)) <= 2 * |t.nports| * |t.nports|
    {
      StoredIsStoreable(t, s, e);
      RankBound(t, e, StoredAt(t, s, e));
    }
    TotalBound(t, s, Endpoints(t), 2 * |t.nports| * |t.nports|);
  }
}
