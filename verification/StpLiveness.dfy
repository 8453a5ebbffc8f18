/**
 Runs that never end: in every fair run without loss the spanning tree is there from some point on,
 and once it is there nothing changes any more, whatever is lost later.
 */
module StpLiveness {
  import opened Basics
  import opened StpSwitch
  import opened StpNetwork
  import opened StpSafety
  import opened StpSettling
  import opened StpConvergence
  import opened StpTermination
  import opened Walks

  // ---------------------------------------------------------------------
  // Quiet states: what is in flight no longer matters
  // ---------------------------------------------------------------------

  /** Nothing in flight would be accepted, and every switch that believes to be root has announced so. */
  ghost predicate Quiet(t: Topology, n: Net)
    requires Fits(t, n)
  {
    && (forall m | m in n.flight :: m.dest in t.link && !Taken(t, n, m))
    && (forall b | b in n.sw && n.sw[b].root == b :: b in n.fired)
  }

  /** The same switches with nothing in flight. */
  ghost function Emptied(n: Net): Net {
    n.(flight := [])
  }

  lemma EmptiedKeeps(t: Topology, n: Net)
    requires Inv(t, n) && AllHeard(t, n) && Quiet(t, n)
    ensures Inv(t, Emptied(n)) && AllHeard(t, Emptied(n)) && Quiescent(Emptied(n))
  {
    hide SwitchInv, VectorBetter, Witness;
    var q := Emptied(n);
    assert Fits(t, q);
    forall b | b in q.sw
      ensures SwitchOk(t, q, b)
    {
      assert SwitchOk(t, n, b);
      EmptiedSwitch(t, n, b);
    }
    forall e | e in t.link && IsDesignated(t, q, e) && Announced(q, e.bridge)
      ensures Heard(t, q, e)
    {
      assert IsDesignated(t, n, e) && Announced(n, e.bridge);
      assert Heard(t, n, e);
    }
  }

  lemma EmptiedSwitch(t: Topology, n: Net, b: u64)
    requires Fits(t, n) && Fits(t, Emptied(n)) && b in n.sw && SwitchOk(t, n, b)
    ensures SwitchOk(t, Emptied(n), b)
  {
    hide SwitchInv, FromPeer, Real;
    EmptiedIsReal(t, n);
    forall i | 0 <= i < t.nports[b] ensures PortOk(t, Emptied(n), b, i) { assert PortOk(t, n, b, i); }
  }

  lemma EmptiedIsReal(t: Topology, n: Net)
    requires Fits(t, n) && Fits(t, Emptied(n))
    ensures forall root: u64, cost: nat, b: u64 | Real(t, n, root, cost, b) :: Real(t, Emptied(n), root, cost, b)
  {
    assert Improves(t, n, Emptied(n));
    AllPersist(t, n, Emptied(n));
  }

  /** A quiet state is already the shortest-path spanning tree. */
  lemma QuietConverges(t: Topology, n: Net, r: u64)
    requires Inv(t, n) && AllHeard(t, n) && Quiet(t, n) && Connected(t) && IsMinId(t, r)
    ensures ShortestPaths(t, n, r) && SpanningTree(t, n, r) && Settled(t, n, r)
  {
    hide SwitchOk, MsgOk, AllHeard, Quiet, Connected, IsMinId, SpanningTree, Quiescent;
    var q := Emptied(n);
    EmptiedKeeps(t, n);
    QuiescentShortestPaths(t, q, r);
    QuiescentSettled(t, q, r);
    SettledWithFlight(t, n, r);
    SettledSpans(t, n, r);
  }

  lemma SettledWithFlight(t: Topology, n: Net, r: u64)
    requires Inv(t, n) && Settled(t, Emptied(n), r)
    ensures Settled(t, n, r)
  {
    hide SwitchOk, MsgOk, VectorBetter, Local;
    forall e | e in t.link
      ensures SettledLink(t, n, e)
      ensures IsDesignated(t, n, e) || IsDesignated(t, n, t.link[e])
    {
      assert SettledLink(t, Emptied(n), e);
    }
  }

  // ---------------------------------------------------------------------
  // Stability
  // ---------------------------------------------------------------------

  /** Every announcement a switch could make is known at the far end already. */
  ghost predicate Known(t: Topology, n: Net)
    requires Fits(t, n)
  {
    forall e | e in t.link && IsDesignated(t, n, e) :: !VectorBetter(LocalAt(t, n, e), StoredAt(t, n, t.link[e]))
  }

  ghost predicate NothingTaken(t: Topology, n: Net)
    requires Fits(t, n)
  {
    forall m | m in n.flight :: m.dest in t.link && !Taken(t, n, m)
  }

  ghost predicate Stable(t: Topology, n: Net) {
    Inv(t, n) && Known(t, n) && NothingTaken(t, n)
  }

  lemma QuietIsStable(t: Topology, n: Net)
    requires Inv(t, n) && AllHeard(t, n) && Quiet(t, n)
    ensures Stable(t, n)
  {
    hide SwitchOk, MsgOk, VectorBetter;
    forall e | e in t.link && IsDesignated(t, n, e)
      ensures !VectorBetter(LocalAt(t, n, e), StoredAt(t, n, t.link[e]))
    {
      assert Announced(n, e.bridge);
      assert Heard(t, n, e);
    }
  }

  /** What a switch sends while its state stays the same is known at the far end. */
  lemma PostIsKnown(t: Topology, n: Net, b: u64, frames: seq<Frame>, m: Msg)
    requires Inv(t, n) && Known(t, n) && b in n.sw && m in Post(t, b, frames)
    requires forall f | f in frames ::
      f.port < |n.sw[b].ports| && Designated(n.sw[b], f.port) && f.v == Local(n.sw[b], f.port)
    ensures m.dest in t.link && !Taken(t, n, m)
  {
    hide SwitchOk, MsgOk, VectorBetter, Post;
    var f := PostContents(t, b, frames, m);
    assert IsDesignated(t, n, Endpoint(b, f.port));
  }

  /** A step that is not an acceptance changes no switch, and sends only what switches announce anyway. */
  lemma UnacceptedStep(t: Topology, n: Net, step: Step)
    requires Inv(t, n) && Enabled(t, n, step) && !IsAcceptance(t, n, step)
    ensures Fits(t, After(t, n, step)) && After(t, n, step).sw == n.sw
    ensures Known(t, n) && NothingTaken(t, n) ==> NothingTaken(t, After(t, n, step))
  {
    hide SwitchOk, MsgOk, VectorBetter, Known, Announce, Post, Taken;
    AfterFits(t, n, step);
    match step
    case Deliver(k) => UnacceptedDelivery(t, n, k);
    case Hello(b) => HelloIsKnown(t, n, b);
    case Duplicate(k) => SameTaken(t, n, After(t, n, step));
    case Lose(k) =>
      SameTaken(t, n, After(t, n, step));
      assert forall m | m in After(t, n, step).flight :: m in n.flight;
  }

  lemma SameTaken(t: Topology, n: Net, n': Net)
    requires Fits(t, n) && Fits(t, n') && n'.sw == n.sw
    ensures forall m: Msg | m.dest in t.link :: Taken(t, n', m) <==> Taken(t, n, m)
  {
    hide VectorBetter;
  }

  lemma UnacceptedDelivery(t: Topology, n: Net, k: nat)
    requires Inv(t, n) && k < |n.flight| && !IsAcceptance(t, n, Deliver(k))
    ensures Fits(t, AfterDeliver(t, n, k)) && AfterDeliver(t, n, k).sw == n.sw
    ensures Known(t, n) && NothingTaken(t, n) ==> NothingTaken(t, AfterDeliver(t, n, k))
  {
    hide SwitchOk, MsgOk, VectorBetter, Known, Announce, Post, Taken;
    AfterFits(t, n, Deliver(k));
    var m, n' := n.flight[k], AfterDeliver(t, n, k);
    var b := m.dest.bridge;
    var frames := Receive(n.sw[b], m.dest.port, m.v).frames;
    SameTaken(t, n, n');
    if Known(t, n) && NothingTaken(t, n) {
      forall w | w in n'.flight
        ensures w.dest in t.link && !Taken(t, n, w)
      {
        if w !in n.flight { PostIsKnown(t, n, b, frames, w); }
      }
    }
  }

  lemma HelloIsKnown(t: Topology, n: Net, b: u64)
    requires Inv(t, n) && Enabled(t, n, Hello(b))
    ensures Fits(t, AfterHello(t, n, b)) && AfterHello(t, n, b).sw == n.sw
    ensures Known(t, n) && NothingTaken(t, n) ==> NothingTaken(t, AfterHello(t, n, b))
  {
    hide SwitchOk, MsgOk, VectorBetter, Known, Announce, Post, Taken;
    AfterFits(t, n, Hello(b));
    var n' := AfterHello(t, n, b);
    assert n.sw[b].(hello := true) == n.sw[b];
    assert n'.sw == n.sw;
    SameTaken(t, n, n');
    var frames := Announce(n.sw[b], |n.sw[b].ports|);
    forall f | f in frames
      ensures f.port < |n.sw[b].ports| && Designated(n.sw[b], f.port) && f.v == Local(n.sw[b], f.port)
    {
      AnnounceContents(n.sw[b], |n.sw[b].ports|, f);
    }
    if Known(t, n) && NothingTaken(t, n) {
      forall w | w in n'.flight
        ensures w.dest in t.link && !Taken(t, n, w)
      {
        if w !in n.flight { PostIsKnown(t, n, b, frames, w); }
      }
    }
  }

  lemma SameKnown(t: Topology, n: Net, n': Net)
    requires Fits(t, n) && Fits(t, n') && n'.sw == n.sw && Known(t, n)
    ensures Known(t, n')
  {
    hide VectorBetter, Local;
    forall e | e in t.link && IsDesignated(t, n', e)
      ensures !VectorBetter(LocalAt(t, n', e), StoredAt(t, n', t.link[e]))
    {
      assert IsDesignated(t, n, e);
    }
  }

  /** In a stable state no step changes a switch, loss included, and the state after it is stable again. */
  lemma StableStays(t: Topology, n: Net, step: Step)
    requires Stable(t, n) && Enabled(t, n, step)
    ensures Stable(t, After(t, n, step)) && After(t, n, step).sw == n.sw
  {
    hide SwitchOk, MsgOk, After, Enabled, Known, Taken;
    assert !IsAcceptance(t, n, step) by {
      if IsAcceptance(t, n, step) { assert n.flight[step.k] in n.flight; NotTaken(t, n, n.flight[step.k]); }
    }
    UnacceptedStep(t, n, step);
    StepKeepsInv(t, n, step);
    SameKnown(t, n, After(t, n, step));
  }

  lemma NotTaken(t: Topology, n: Net, m: Msg)
    requires Fits(t, n) && m.dest in t.link && !Taken(t, n, m)
    ensures !Accepts(n.sw[m.dest.bridge], m.dest.port, m.v)
  {}

  lemma SettledStays(t: Topology, n: Net, n': Net, r: u64)
    requires Settled(t, n, r) && Inv(t, n') && n'.sw == n.sw
    ensures Settled(t, n', r)
  {
    hide SwitchOk, MsgOk, VectorBetter, Local;
    forall e | e in t.link
      ensures SettledLink(t, n', e)
      ensures IsDesignated(t, n', e) || IsDesignated(t, n', t.link[e])
    {
      assert SettledLink(t, n, e);
    }
  }

  /** Once converged, always converged: no run, lossy or not, changes a switch again. */
  lemma {:induction false} StaysConverged(t: Topology, n: Net, steps: seq<Step>, n': Net, r: u64)
    requires Stable(t, n) && Settled(t, n, r) && ShortestPaths(t, n, r) && Run(t, n, steps, n')
    ensures n'.sw == n.sw && Stable(t, n') && ShortestPaths(t, n', r) && SpanningTree(t, n', r)
    decreases |steps|
  {
    hide Stable, Settled, SpanningTree, After, Enabled, IsDistance;
    assert Inv(t, n) by { StableInv(t, n); }
    if steps == [] {
      SettledSpans(t, n, r);
    } else {
      StableStays(t, n, steps[0]);
      StableInv(t, After(t, n, steps[0]));
      SettledStays(t, n, After(t, n, steps[0]), r);
      StaysConverged(t, After(t, n, steps[0]), steps[1..], n', r);
    }
  }

  /** From a converged quiescent state on, no step changes a switch: no hello, no answer to one, and no loss. */
  lemma ConvergedForGood(t: Topology, n: Net, steps: seq<Step>, n': Net, r: u64)
    requires LosslessReached(t, n) && Quiescent(n) && Connected(t) && IsMinId(t, r)
    requires Fits(t, n) && Run(t, n, steps, n')
    ensures n'.sw == n.sw && Fits(t, n') && ShortestPaths(t, n', r) && SpanningTree(t, n', r)
  {
    QuiescentIsQuiet(t, n);
    LosslessReachedInv(t, n);
    hide LosslessReached, Inv, AllHeard, Quiescent, Quiet, Connected, IsMinId, Settled, Stable;
    hide ShortestPaths, SpanningTree;
    QuietConverges(t, n, r);
    QuietIsStable(t, n);
    StaysConverged(t, n, steps, n', r);
    StableInv(t, n');
  }

  lemma QuiescentIsQuiet(t: Topology, n: Net)
    requires Fits(t, n) && Quiescent(n)
    ensures Quiet(t, n)
  {
    hide Fits, Taken;
  }

  lemma StableInv(t: Topology, n: Net)
    requires Stable(t, n)
    ensures Inv(t, n) && Fits(t, n)
  {}

  // ---------------------------------------------------------------------
  // Fair runs
  // ---------------------------------------------------------------------

  /** One step of a run without loss. */
  ghost predicate Moves(t: Topology, n: Net, step: Step, n': Net) {
    Fits(t, n) && Enabled(t, n, step) && !step.Lose? && n' == After(t, n, step)
  }

  /** A run without end and without loss: deliveries, hellos and duplications in any order. */
  ghost predicate Endless(t: Topology, run: nat -> Net, steps: nat -> Step) {
    LosslessReached(t, run(0)) && forall i: nat {:trigger steps(i)} :: Moves(t, run(i), steps(i), run(i + 1))
  }

  ghost predicate DeliveredAt(run: nat -> Net, steps: nat -> Step, j: nat, m: Msg) {
    steps(j).Deliver? && steps(j).k < |run(j).flight| && run(j).flight[steps(j).k] == m
  }

  /** Every BPDU in flight is delivered some time. */
  ghost predicate FairDelivery(run: nat -> Net, steps: nat -> Step) {
    forall i: nat, m | m in run(i).flight :: exists j: nat :: j >= i && DeliveredAt(run, steps, j, m)
  }

  /** The switch fires hello, or has stopped believing to be root. */
  ghost predicate FiresAt(run: nat -> Net, steps: nat -> Step, j: nat, b: u64) {
    steps(j) == Hello(b) || (b in run(j).sw && run(j).sw[b].root != b)
  }

  /** A switch that keeps believing to be root fires its hello timer some time. */
  ghost predicate FairHello(run: nat -> Net, steps: nat -> Step) {
    forall i: nat, b | b in run(i).sw :: exists j: nat :: j >= i && FiresAt(run, steps, j, b)
  }

  lemma {:induction false} AlwaysInv(t: Topology, run: nat -> Net, steps: nat -> Step, i: nat)
    requires Endless(t, run, steps)
    ensures Inv(t, run(i)) && AllHeard(t, run(i)) && Fits(t, run(i))
    ensures Moves(t, run(i), steps(i), run(i + 1))
    decreases i
  {
    hide LosslessReached, SwitchOk, MsgOk, AllHeard, After, Enabled, Fits;
    assert Moves(t, run(i), steps(i), run(i + 1));
    if i == 0 {
      LosslessReachedInv(t, run(0));
    } else {
      AlwaysInv(t, run, steps, i - 1);
      StepKeepsInv(t, run(i - 1), steps(i - 1));
      StepKeepsHeard(t, run(i - 1), steps(i - 1));
    }
  }

  ghost predicate AcceptsAt(t: Topology, run: nat -> Net, steps: nat -> Step, j: nat) {
    Fits(t, run(j)) && IsAcceptance(t, run(j), steps(j))
  }

  ghost predicate NoneAccepted(t: Topology, run: nat -> Net, steps: nat -> Step, i: nat) {
    forall j: nat | j >= i :: !AcceptsAt(t, run, steps, j)
  }

  lemma {:induction false} MeasureFalls(t: Topology, run: nat -> Net, steps: nat -> Step, i: nat, j: nat)
    requires Endless(t, run, steps) && i <= j
    ensures Fits(t, run(i)) && Fits(t, run(j)) && Measure(t, run(j)) <= Measure(t, run(i))
    decreases j
  {
    hide Endless, Inv, AllHeard, After, Enabled, Measure, IsAcceptance, Fits;
    AlwaysInv(t, run, steps, j);
    if i < j {
      AlwaysInv(t, run, steps, j - 1);
      MeasureFalls(t, run, steps, i, j - 1);
      AcceptanceLowersMeasure(t, run(j - 1), steps(j - 1));
    }
  }

  /** From some point on no BPDU is accepted any more. */
  lemma {:induction false} LastAcceptance(t: Topology, run: nat -> Net, steps: nat -> Step, i: nat) returns (j: nat)
    requires Endless(t, run, steps) && Fits(t, run(i))
    ensures j >= i && NoneAccepted(t, run, steps, j)
    decreases Measure(t, run(i))
  {
    hide Endless, Inv, AllHeard, After, Enabled, Measure, IsAcceptance, Fits;
    if k: nat :| k >= i && AcceptsAt(t, run, steps, k) {
      MeasureFalls(t, run, steps, i, k);
      AlwaysInv(t, run, steps, k);
      AlwaysInv(t, run, steps, k + 1);
      AcceptanceLowersMeasure(t, run(k), steps(k));
      j := LastAcceptance(t, run, steps, k + 1);
    } else {
      j := i;
    }
  }

  /** From then on the switches stay as they are, and those that have fired have fired. */
  lemma {:induction false} SwitchesStay(t: Topology, run: nat -> Net, steps: nat -> Step, i: nat, j: nat)
    requires Endless(t, run, steps) && NoneAccepted(t, run, steps, i) && i <= j
    ensures run(j).sw == run(i).sw && run(i).fired <= run(j).fired
    decreases j
  {
    hide Endless, Inv, AllHeard, After, Enabled, IsAcceptance, Fits;
    if i < j {
      SwitchesStay(t, run, steps, i, j - 1);
      AlwaysInv(t, run, steps, j - 1);
      assert !AcceptsAt(t, run, steps, j - 1);
      UnacceptedStep(t, run(j - 1), steps(j - 1));
      FiredGrows(t, run(j - 1), steps(j - 1));
    }
  }

  lemma FiredGrows(t: Topology, n: Net, step: Step)
    requires Fits(t, n) && Enabled(t, n, step)
    ensures n.fired <= After(t, n, step).fired
    ensures step.Hello? ==> step.bridge in After(t, n, step).fired
  {
    hide Receive, Announce, Post;
  }

  /** What is in flight then is never taken: it is delivered some time, and was no better all along. */
  lemma FlightIsStale(t: Topology, run: nat -> Net, steps: nat -> Step, i: nat, j: nat)
    requires Endless(t, run, steps) && FairDelivery(run, steps) && NoneAccepted(t, run, steps, i) && i <= j
    ensures Fits(t, run(j)) && NothingTaken(t, run(j))
  {
    hide Endless, Inv, AllHeard, After, Enabled, Taken, NoneAccepted;
    AlwaysInv(t, run, steps, j);
    forall m | m in run(j).flight
      ensures m.dest in t.link && !Taken(t, run(j), m)
    {
      var l: nat :| l >= j && DeliveredAt(run, steps, l, m);
      AlwaysInv(t, run, steps, l);
      SwitchesStay(t, run, steps, i, j);
      SwitchesStay(t, run, steps, i, l);
      RejectedIsStale(t, run, steps, i, l, m);
      SameTaken(t, run(l), run(j));
    }
  }

  lemma RejectedIsStale(t: Topology, run: nat -> Net, steps: nat -> Step, i: nat, l: nat, m: Msg)
    requires NoneAccepted(t, run, steps, i) && i <= l && Fits(t, run(l)) && DeliveredAt(run, steps, l, m)
    ensures m.dest in t.link && !Taken(t, run(l), m)
  {
    assert !AcceptsAt(t, run, steps, l);
    hide VectorBetter;
  }

  /** One switch that believes to be root fires, some time after k. */
  lemma HelloComes(t: Topology, run: nat -> Net, steps: nat -> Step, i: nat, k: nat, b: u64) returns (l: nat)
    requires Endless(t, run, steps) && FairHello(run, steps) && NoneAccepted(t, run, steps, i)
    requires i <= k && b in run(i).sw && run(i).sw[b].root == b
    ensures l >= k && b in run(l).fired
  {
    hide Endless, Inv, AllHeard, After, Enabled, NoneAccepted, Fits;
    SwitchesStay(t, run, steps, i, k);
    var j: nat :| j >= k && FiresAt(run, steps, j, b);
    SwitchesStay(t, run, steps, i, j);
    AlwaysInv(t, run, steps, j);
    FiredGrows(t, run(j), steps(j));
    l := j + 1;
  }

  /** Those of the given switches that believe to be root have all fired from some point on. */
  lemma {:induction false} HellosCome(t: Topology, run: nat -> Net, steps: nat -> Step, i: nat, todo: set<u64>)
    returns (j: nat)
    requires Endless(t, run, steps) && FairHello(run, steps) && NoneAccepted(t, run, steps, i)
    requires todo <= run(i).sw.Keys
    ensures j >= i && forall b | b in todo && run(i).sw[b].root == b :: b in run(j).fired
    decreases |todo|
  {
    hide Endless, FairHello, NoneAccepted;
    if todo == {} { return i; }
    var b :| b in todo;
    var k := HellosCome(t, run, steps, i, todo - {b});
    if run(i).sw[b].root != b { return k; }
    j := HelloComes(t, run, steps, i, k, b);
    StayingOn(t, run, steps, i, k, j);
  }

  lemma StayingOn(t: Topology, run: nat -> Net, steps: nat -> Step, i: nat, k: nat, l: nat)
    requires Endless(t, run, steps) && NoneAccepted(t, run, steps, i) && i <= k <= l
    ensures run(k).fired <= run(l).fired
  {
    hide Endless, AcceptsAt;
    assert NoneAccepted(t, run, steps, k);
    SwitchesStay(t, run, steps, k, l);
  }

  /**
   In every fair run without loss, with hello timers firing and BPDUs duplicated for ever, the network is the
   shortest-path spanning tree rooted at the smallest switch id from some point on, and no step, loss included,
   would change a switch any more.
   */
  lemma EveryFairRunConverges(t: Topology, run: nat -> Net, steps: nat -> Step, r: u64) returns (i: nat)
    requires Endless(t, run, steps) && FairDelivery(run, steps) && FairHello(run, steps)
    requires Connected(t) && IsMinId(t, r)
    ensures forall j: nat | j >= i ::
      && Fits(t, run(j)) && Settled(t, run(j), r) && Stable(t, run(j))
      && ShortestPaths(t, run(j), r) && SpanningTree(t, run(j), r)
  {
    hide Endless, Inv, AllHeard, FairDelivery, FairHello, Connected, IsMinId, Stable, Quiet, Settled;
    hide ShortestPaths, SpanningTree;
    AlwaysInv(t, run, steps, 0);
    var i0 := LastAcceptance(t, run, steps, 0);
    AlwaysInv(t, run, steps, i0);
    i := HellosCome(t, run, steps, i0, run(i0).sw.Keys);
    forall j: nat | j >= i
      ensures Fits(t, run(j)) && Settled(t, run(j), r) && Stable(t, run(j))
      ensures ShortestPaths(t, run(j), r) && SpanningTree(t, run(j), r)
    {
      LaterIsQuiet(t, run, steps, i0, i, j);
      AlwaysInv(t, run, steps, j);
      QuietConverges(t, run(j), r);
      QuietIsStable(t, run(j));
    }
  }

  lemma LaterIsQuiet(t: Topology, run: nat -> Net, steps: nat -> Step, i0: nat, i: nat, j: nat)
    requires Endless(t, run, steps) && FairDelivery(run, steps) && NoneAccepted(t, run, steps, i0) && i0 <= i <= j
    requires forall b | b in run(i0).sw && run(i0).sw[b].root == b :: b in run(i).fired
    ensures Fits(t, run(j)) && Quiet(t, run(j))
  {
    hide Endless, FairDelivery, NoneAccepted;
    FlightIsStale(t, run, steps, i0, j);
    SwitchesStay(t, run, steps, i0, j);
    StayingOn(t, run, steps, i0, i, j);
  }
}
