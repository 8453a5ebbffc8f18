/**
 Between two firings of hello timers only finitely many BPDUs are delivered, in whatever order,
 and the state in which they have all been delivered is the spanning tree.
 */
module StpTermination {
  import opened Basics
  import opened StpSwitch
  import opened StpNetwork
  import opened StpSafety
  import opened StpSettling
  import opened StpConvergence

  /** Delivering m would store it. */
  ghost predicate Taken(t: Topology, n: Net, m: Msg)
    requires Fits(t, n) && m.dest in t.link
  {
    VectorBetter(m.v, StoredAt(t, n, m.dest))
  }

  /** Delivering m would draw an answer: the port keeps its own announcement and repeats it. */
  ghost predicate Answered(t: Topology, n: Net, m: Msg)
    requires Fits(t, n) && m.dest in t.link
  {
    !Taken(t, n, m) && IsDesignated(t, n, m.dest)
  }

  ghost function Answer(t: Topology, n: Net, m: Msg): Msg
    requires Fits(t, n) && m.dest in t.link
  {
    Msg(t.link[m.dest], LocalAt(t, n, m.dest))
  }

  /** How many deliveries m can cause without any acceptance, counting itself. */
  ghost function Weight(t: Topology, n: Net, m: Msg): nat
    requires Fits(t, n) && m.dest in t.link
  {
    if !Answered(t, n, m) then 1
    else if !Answered(t, n, Answer(t, n, m)) then 2
    else 3
  }

  ghost function Weights(t: Topology, n: Net, ms: seq<Msg>): nat
    requires Fits(t, n) && forall k | 0 <= k < |ms| :: ms[k].dest in t.link
  {
    if ms == [] then 0 else Weight(t, n, ms[0]) + Weights(t, n, ms[1..])
  }

  lemma {:induction false} WeightsSum(t: Topology, n: Net, a: seq<Msg>, b: seq<Msg>)
    requires Fits(t, n)
    requires forall k | 0 <= k < |a| :: a[k].dest in t.link
    requires forall k | 0 <= k < |b| :: b[k].dest in t.link
    ensures Weights(t, n, a + b) == Weights(t, n, a) + Weights(t, n, b)
  {
    hide Weight, Fits;
    if a == [] {
      assert a + b == b;
    } else {
      assert (a + b)[1..] == a[1..] + b;
      WeightsSum(t, n, a[1..], b);
    }
  }

  lemma WeightsWithout(t: Topology, n: Net, ms: seq<Msg>, k: nat)
    requires Fits(t, n) && k < |ms| && forall i | 0 <= i < |ms| :: ms[i].dest in t.link
    ensures Weights(t, n, ms) == Weights(t, n, Without(ms, k)) + Weight(t, n, ms[k])
  {
    hide Weight, Fits;
    assert ms == ms[..k] + ([ms[k]] + ms[k + 1..]);
    WeightsSum(t, n, ms[..k], [ms[k]] + ms[k + 1..]);
    WeightsSum(t, n, [ms[k]], ms[k + 1..]);
    WeightsSum(t, n, ms[..k], ms[k + 1..]);
    assert Weights(t, n, [ms[k]]) == Weight(t, n, ms[k]) + Weights(t, n, []);
  }

  /** Weights depend on the switches only. */
  lemma {:induction false} WeightsFrame(t: Topology, n: Net, n': Net, ms: seq<Msg>)
    requires Fits(t, n) && Fits(t, n') && n.sw == n'.sw && forall k | 0 <= k < |ms| :: ms[k].dest in t.link
    ensures Weights(t, n, ms) == Weights(t, n', ms)
  {
    if ms != [] {
      assert Weight(t, n, ms[0]) == Weight(t, n', ms[0]) by { WeightFrame(t, n, n', ms[0]); }
      hide Weight;
      WeightsFrame(t, n, n', ms[1..]);
    }
  }

  lemma WeightFrame(t: Topology, n: Net, n': Net, m: Msg)
    requires Fits(t, n) && Fits(t, n') && n.sw == n'.sw && m.dest in t.link
    ensures Weight(t, n, m) == Weight(t, n', m)
  {}

  /** Two designated ends never keep answering each other: one of the two local vectors is better. */
  lemma AnswersEnd(t: Topology, n: Net, m: Msg)
    requires Inv(t, n) && m.dest in t.link && Answered(t, n, m)
    ensures Weight(t, n, Answer(t, n, m)) < Weight(t, n, m)
  {
    hide SwitchOk, MsgOk, Real;
    var e, f := m.dest, t.link[m.dest];
    var a := Answer(t, n, m);
    StoredIsReal(t, n, e);
    StoredIsReal(t, n, f);
    if Answered(t, n, a) {
      // both ends designated, and e's vector is not better than f's: then f's is better than e's
      PortsDiffer(t, n, e);
      VectorOrder(LocalAt(t, n, e), LocalAt(t, n, f), LocalAt(t, n, e));
      assert Taken(t, n, Answer(t, n, a));
    }
  }

  lemma OnePost(t: Topology, b: u64, f: Frame)
    requires ValidTopology(t)
    ensures Post(t, b, [f]) == if Endpoint(b, f.port) in t.link then [Msg(t.link[Endpoint(b, f.port)], f.v)] else []
    ensures Post(t, b, []) == []
  {
    assert [f][1..] == [];
  }

  /** A delivery that is not accepted changes no switch and removes or shortens a chain of answers. */
  lemma RejectionLowersWeights(t: Topology, n: Net, k: nat)
    requires Inv(t, n) && k < |n.flight| && !IsAcceptance(t, n, Deliver(k))
    ensures Fits(t, AfterDeliver(t, n, k)) && AfterDeliver(t, n, k).sw == n.sw
    ensures Weights(t, AfterDeliver(t, n, k), AfterDeliver(t, n, k).flight) < Weights(t, n, n.flight)
  {
    hide SwitchOk, MsgOk, Weight, Announce, AfterAccept;
    var m, n' := n.flight[k], AfterDeliver(t, n, k);
    AfterFits(t, n, Deliver(k));
    var s := n.sw[m.dest.bridge];
    var frames := Receive(s, m.dest.port, m.v).frames;
    var post := Post(t, m.dest.bridge, frames);
    PostFits(t, m.dest.bridge, frames);
    WeightsFrame(t, n, n', n'.flight);
    WeightsWithout(t, n, n.flight, k);
    WeightsSum(t, n, Without(n.flight, k), post);
    RejectionPosts(t, n, m);
  }

  lemma RejectionPosts(t: Topology, n: Net, m: Msg)
    requires Inv(t, n) && m.dest in t.link && !Taken(t, n, m)
    ensures var s := n.sw[m.dest.bridge];
      var post := Post(t, m.dest.bridge, Receive(s, m.dest.port, m.v).frames);
      (forall i | 0 <= i < |post| :: post[i].dest in t.link) && Weights(t, n, post) < Weight(t, n, m)
  {
    hide SwitchOk, MsgOk, Announce, AfterAccept;
    var s := n.sw[m.dest.bridge];
    OnePost(t, m.dest.bridge, Frame(m.dest.port, Local(s, m.dest.port)));
    InvIsLocal(t, n, m.dest.bridge);
    if Answered(t, n, m) {
      AnswersEnd(t, n, m);
      assert Post(t, m.dest.bridge, Receive(s, m.dest.port, m.v).frames) == [Answer(t, n, m)];
      assert Weights(t, n, [Answer(t, n, m)]) == Weight(t, n, Answer(t, n, m)) + Weights(t, n, [Answer(t, n, m)][1..]);
    }
  }

  /** n' follows from n by delivering the k-th BPDU in flight, if there is any. */
  ghost predicate Delivers(t: Topology, n: Net, k: nat, n': Net) {
    Fits(t, n) && (n.flight != [] ==> k < |n.flight| && n' == AfterDeliver(t, n, k))
  }

  /** ks schedules deliveries, and run(i) is the state after i of them. */
  ghost predicate Schedule(t: Topology, run: nat -> Net, ks: nat -> nat) {
    forall i: nat {:trigger ks(i)} :: Delivers(t, run(i), ks(i), run(i + 1))
  }

  ghost predicate Rested(run: nat -> Net, i: nat) {
    run(i).flight == []
  }

  ghost predicate SameBeliefs(n: Net, n': Net) {
    n'.fired == n.fired && n'.sw.Keys == n.sw.Keys
    && forall b | b in n.sw && n'.sw[b].root == b :: n.sw[b].root == b
  }

  lemma DeliverKeepsBeliefs(t: Topology, n: Net, k: nat)
    requires Inv(t, n) && k < |n.flight|
    ensures SameBeliefs(n, AfterDeliver(t, n, k))
  {
    hide SwitchOk, MsgOk, Receive;
    StepImproves(t, n, Deliver(k));
    forall b | b in n.sw && AfterDeliver(t, n, k).sw[b].root == b
      ensures n.sw[b].root == b
    {
      InvIsLocal(t, n, b);
      RootAtMost(n.sw[b]);
    }
  }

  lemma {:induction false} Descend(t: Topology, run: nat -> Net, ks: nat -> nat, i: nat) returns (j: nat)
    requires Schedule(t, run, ks) && Inv(t, run(i)) && AllHeard(t, run(i))
    ensures j >= i && Rested(run, j)
    ensures Inv(t, run(j)) && AllHeard(t, run(j)) && SameBeliefs(run(i), run(j))
    decreases Measure(t, run(i)), Weights(t, run(i), run(i).flight)
  {
    hide SwitchOk, MsgOk, AllHeard, Measure, Weights, AfterDeliver, IsAcceptance;
    if Rested(run, i) { return i; }
    var n, k := run(i), ks(i);
    assert Delivers(t, n, k, run(i + 1));
    StepKeepsInv(t, n, Deliver(k));
    DeliverKeepsHeard(t, n, k);
    DeliverKeepsBeliefs(t, n, k);
    AcceptanceLowersMeasure(t, n, Deliver(k));
    if !IsAcceptance(t, n, Deliver(k)) { RejectionLowersWeights(t, n, k); }
    j := Descend(t, run, ks, i + 1);
  }

  /**
   From any state of a lossless run in which every switch that believes it is root has fired hello,
   every schedule of deliveries empties the network, and what it leaves is the shortest-path
   spanning tree rooted at the smallest switch id.
   */
  lemma EveryScheduleConverges(t: Topology, run: nat -> Net, ks: nat -> nat, r: u64) returns (j: nat)
    requires LosslessReached(t, run(0)) && Schedule(t, run, ks)
    requires forall b | b in run(0).sw && run(0).sw[b].root == b :: b in run(0).fired
    requires Connected(t) && IsMinId(t, r)
    ensures Rested(run, j) && Fits(t, run(j))
    ensures ShortestPaths(t, run(j), r) && SpanningTree(t, run(j), r)
  {
    hide LosslessReached, SwitchOk, MsgOk, AllHeard, Connected, Settled, ShortestPaths, SpanningTree, Schedule;
    LosslessReachedInv(t, run(0));
    j := Descend(t, run, ks, 0);
    assert Quiescent(run(j));
    QuiescentShortestPaths(t, run(j), r);
    QuiescentSettled(t, run(j), r);
    SettledSpans(t, run(j), r);
  }

  // ---------------------------------------------------------------------
  // Every connected network can get there from its start
  // ---------------------------------------------------------------------

  lemma {:induction false} RunSnoc(t: Topology, s: Net, steps: seq<Step>, n: Net, step: Step)
    requires Fits(t, s) && Fits(t, n) && Run(t, s, steps, n) && Enabled(t, n, step) && Fits(t, After(t, n, step))
    ensures Run(t, s, steps + [step], After(t, n, step))
    decreases |steps|
  {
    hide After, Enabled, Fits;
    if steps == [] {
      assert (steps + [step])[1..] == [];
    } else {
      assert (steps + [step])[1..] == steps[1..] + [step] && (steps + [step])[0] == steps[0];
      RunSnoc(t, After(t, s, steps[0]), steps[1..], n, step);
    }
  }

  lemma OneMoreStep(t: Topology, n: Net, step: Step)
    requires LosslessReached(t, n) && Fits(t, n) && Enabled(t, n, step) && !step.Lose?
    ensures Fits(t, After(t, n, step)) && LosslessReached(t, After(t, n, step))
  {
    hide After, Enabled, Run, Fits;
    AfterFits(t, n, step);
    var steps :| Lossless(steps) && Run(t, Start(t), steps, n);
    RunSnoc(t, Start(t), steps, n, step);
    assert Lossless(steps + [step]);
  }

  /** Before anything is delivered, every switch can fire hello. */
  lemma {:induction false} AllFire(t: Topology, n: Net, todo: set<u64>) returns (n': Net)
    requires LosslessReached(t, n) && Fits(t, n) && n.sw == Start(t).sw
    requires todo <= t.nports.Keys && t.nports.Keys <= n.fired + todo
    ensures LosslessReached(t, n') && t.nports.Keys <= n'.fired
    decreases |todo|
  {
    hide LosslessReached, Announce, Post;
    if todo == {} { return n; }
    var b :| b in todo;
    assert n.sw[b] == InitialState(b, t.nports[b]);
    OneMoreStep(t, n, Hello(b));
    var m := AfterHello(t, n, b);
    assert m.sw == n.sw by { assert n.sw[b].(hello := true) == n.sw[b]; }
    n' := AllFire(t, m, todo - {b});
  }

  /** Delivering whatever is in flight comes to an end. */
  lemma {:induction false} Drain(t: Topology, n: Net) returns (n': Net)
    requires LosslessReached(t, n) && Fits(t, n)
    ensures LosslessReached(t, n') && n'.flight == [] && SameBeliefs(n, n')
    decreases Measure(t, n), Weights(t, n, n.flight)
  {
    hide SwitchOk, MsgOk, AllHeard, Measure, Weights, AfterDeliver, IsAcceptance, LosslessReached;
    if n.flight == [] { return n; }
    LosslessReachedInv(t, n);
    OneMoreStep(t, n, Deliver(0));
    DeliverKeepsBeliefs(t, n, 0);
    AcceptanceLowersMeasure(t, n, Deliver(0));
    if !IsAcceptance(t, n, Deliver(0)) { RejectionLowersWeights(t, n, 0); }
    n' := Drain(t, AfterDeliver(t, n, 0));
  }

  /** Every connected network has a lossless run from its start to the spanning tree. */
  lemma ConvergenceIsReached(t: Topology, r: u64) returns (n: Net)
    requires ValidTopology(t) && Connected(t) && IsMinId(t, r)
    ensures LosslessReached(t, n) && Quiescent(n)
    ensures Fits(t, n) && ShortestPaths(t, n, r) && SpanningTree(t, n, r)
  {
    var s := Start(t);
    assert Lossless([]) && Run(t, s, [], s);
    assert LosslessReached(t, s);
    hide *;
    var m := AllFire(t, s, t.nports.Keys);
    ReachedFits(t, m);
    n := Drain(t, m);
    FiredIsQuiescent(t, m, n);
    Converges(t, n, r);
  }

  lemma ReachedFits(t: Topology, n: Net)
    requires LosslessReached(t, n)
    ensures Fits(t, n) && n.sw.Keys == t.nports.Keys
  {
    LosslessReachedInv(t, n);
    hide LosslessReached, SwitchOk, MsgOk;
  }

  lemma FiredIsQuiescent(t: Topology, m: Net, n: Net)
    requires LosslessReached(t, n) && t.nports.Keys <= m.fired && SameBeliefs(m, n) && n.flight == []
    ensures Quiescent(n)
  {
    ReachedFits(t, n);
    hide LosslessReached, Fits;
  }
}
