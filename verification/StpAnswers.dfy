/**
 What a delivery puts in flight: the answer to a BPDU that is not better, the announcement after a better one,
 and what the switch at the far end learns from an answer. Holds in lossy runs too.
 */
module StpAnswers {
  import opened Basics
  import opened StpSwitch
  import opened StpNetwork
  import opened StpSafety
  import opened StpSettling
  import opened StpConvergence
  import opened StpTermination

  /** A BPDU that is not better changes no switch; a designated port answers with its own vector, others do not. */
  lemma WorseIsAnswered(t: Topology, n: Net, k: nat)
    requires Inv(t, n) && k < |n.flight|
    requires !VectorBetter(n.flight[k].v, StoredAt(t, n, n.flight[k].dest))
    ensures var e, n' := n.flight[k].dest, AfterDeliver(t, n, k);
      && n'.sw == n.sw && n'.fired == n.fired
      && n'.flight == Without(n.flight, k)
        + if IsDesignated(t, n, e) then [Msg(t.link[e], LocalAt(t, n, e))] else []
  {
    hide SwitchOk, MsgOk, Announce, AfterAccept, Post;
    var e := n.flight[k].dest;
    var s := n.sw[e.bridge];
    OnePost(t, e.bridge, Frame(e.port, Local(s, e.port)));
    InvIsLocal(t, n, e.bridge);
    RootBeliefs(s);
  }

  /** A better BPDU makes its receiver announce its new vector through exactly its designated linked ports. */
  lemma BetterIsAnnounced(t: Topology, n: Net, k: nat, w: Msg)
    requires Inv(t, n) && k < |n.flight|
    requires VectorBetter(n.flight[k].v, StoredAt(t, n, n.flight[k].dest))
    ensures var b, n' := n.flight[k].dest.bridge, AfterDeliver(t, n, k);
      && Fits(t, n') && |n'.flight| >= |n.flight| - 1 && n'.flight[..|n.flight| - 1] == Without(n.flight, k)
      && (w in n'.flight[|n.flight| - 1..] <==> Announcement(t, n', b, w))
  {
    hide SwitchOk, MsgOk, Announce, AfterAccept, Post, SwitchInv, Fits, Announcement;
    var b, n' := n.flight[k].dest.bridge, AfterDeliver(t, n, k);
    AfterFits(t, n, Deliver(k));
    StepKeepsInv(t, n, Deliver(k));
    InvIsLocal(t, n', b);
    DeliverPosts(t, n, k);
    assert n'.flight[|n.flight| - 1..] == Post(t, b, Announce(n'.sw[b], |n'.sw[b].ports|));
    AnnouncedExactly(t, n', b, w);
  }

  lemma DeliverPosts(t: Topology, n: Net, k: nat)
    requires Fits(t, n) && k < |n.flight|
    ensures n.flight[k].dest.bridge in n.sw && n.flight[k].dest.port < |n.sw[n.flight[k].dest.bridge].ports|
    ensures VectorBetter(n.flight[k].v, n.sw[n.flight[k].dest.bridge].ports[n.flight[k].dest.port]) ==>
      var b, n' := n.flight[k].dest.bridge, AfterDeliver(t, n, k);
      n'.flight == Without(n.flight, k) + Post(t, b, Announce(n'.sw[b], |n'.sw[b].ports|))
  {
    hide Announce, AfterAccept, Post;
  }

  /** w is what switch b announces through one of its designated linked ports. */
  ghost predicate Announcement(t: Topology, n: Net, b: u64, w: Msg)
    requires Fits(t, n)
  {
    exists e :: e in t.link && e.bridge == b && IsDesignated(t, n, e) && w == Msg(t.link[e], LocalAt(t, n, e))
  }

  lemma AnnouncedExactly(t: Topology, n: Net, b: u64, w: Msg)
    requires Fits(t, n) && b in n.sw && SwitchInv(n.sw[b])
    ensures w in Post(t, b, Announce(n.sw[b], |n.sw[b].ports|)) <==> Announcement(t, n, b, w)
  {
    hide SwitchInv, Announce, Post;
    var s := n.sw[b];
    if w in Post(t, b, Announce(s, |s.ports|)) {
      var f := PostContents(t, b, Announce(s, |s.ports|), w);
      AnnounceContents(s, |s.ports|, f);
      assert IsDesignated(t, n, Endpoint(b, f.port));
    }
    if Announcement(t, n, b, w) {
      var e :| e in t.link && e.bridge == b && IsDesignated(t, n, e) && w == Msg(t.link[e], LocalAt(t, n, e));
      AnnouncementPosted(t, n, e);
    }
  }

  /** A hello announces through exactly the designated linked ports, and takes nothing out of flight. */
  lemma HelloAnnounces(t: Topology, n: Net, b: u64, w: Msg)
    requires Inv(t, n) && Enabled(t, n, Hello(b))
    ensures var n' := AfterHello(t, n, b);
      && n'.sw == n.sw && |n'.flight| >= |n.flight| && n'.flight[..|n.flight|] == n.flight
      && (w in n'.flight[|n.flight|..] <==> Announcement(t, n, b, w))
  {
    hide SwitchOk, MsgOk, Announce, Post, Fits;
    InvIsLocal(t, n, b);
    hide SwitchInv;
    assert n.sw[b].(hello := true) == n.sw[b];
    AnnouncedExactly(t, n, b, w);
    var post := Post(t, b, Announce(n.sw[b], |n.sw[b].ports|));
    assert (n.flight + post)[|n.flight|..] == post;
  }

  /** A switch that stores at least this vector on a port believes in a root and cost at least as good as over it. */
  lemma TaughtSwitch(t: Topology, n: Net, f: Endpoint, v: Vector)
    requires Inv(t, n) && f in t.link && !VectorBetter(v, StoredAt(t, n, f))
    ensures v.root < f.bridge ==> AtLeast(n.sw[f.bridge].root, n.sw[f.bridge].cost, v.root, v.cost + 1)
  {
    hide SwitchOk, MsgOk, Real;
    InvIsLocal(t, n, f.bridge);
    InvBounds(t, n, f.bridge);
    StoredIsReal(t, n, f);
    RootAtMost(n.sw[f.bridge]);
    if IsDesignated(t, n, f) {
    } else {
      CandidateBound(n.sw[f.bridge], f.port);
    }
    hide SwitchInv;
  }

  /** The receiver of m stores at least it on that port, and believes at least as well as over that port. */
  ghost predicate Learned(t: Topology, n: Net, m: Msg) {
    && Fits(t, n) && m.dest in t.link && !VectorBetter(m.v, StoredAt(t, n, m.dest))
    && (m.v.root < m.dest.bridge ==>
      AtLeast(n.sw[m.dest.bridge].root, n.sw[m.dest.bridge].cost, m.v.root, m.v.cost + 1))
  }

  /** What is delivered is learned. */
  lemma DeliveryTeaches(t: Topology, n: Net, k: nat)
    requires Inv(t, n) && k < |n.flight|
    ensures Inv(t, AfterDeliver(t, n, k)) && Learned(t, AfterDeliver(t, n, k), n.flight[k])
  {
    hide SwitchOk, MsgOk, AfterDeliver, SwitchInv;
    StepKeepsInv(t, n, Deliver(k));
    DeliveredIsHeard(t, n, k);
    TaughtSwitch(t, AfterDeliver(t, n, k), n.flight[k].dest, n.flight[k].v);
  }

  /** The k-th BPDU in flight will draw an answer: it is not better, and goes to a designated port. */
  ghost predicate DrawsAnswer(t: Topology, n: Net, k: nat) {
    && Inv(t, n) && k < |n.flight|
    && !VectorBetter(n.flight[k].v, StoredAt(t, n, n.flight[k].dest)) && IsDesignated(t, n, n.flight[k].dest)
  }

  /** What the designated port that it goes to announces, on its way to the far end. */
  ghost function AnswerTo(t: Topology, n: Net, k: nat): Msg
    requires Fits(t, n) && k < |n.flight|
  {
    Msg(t.link[n.flight[k].dest], LocalAt(t, n, n.flight[k].dest))
  }

  lemma AnswerIsLast(t: Topology, n: Net, k: nat)
    requires DrawsAnswer(t, n, k)
    ensures var n1 := AfterDeliver(t, n, k);
      Inv(t, n1) && |n1.flight| == |n.flight| && n1.flight[|n.flight| - 1] == AnswerTo(t, n, k)
    ensures Fits(t, n) && k < |n.flight| && Fits(t, AfterDeliver(t, n, k))
  {
    hide SwitchOk, MsgOk, AfterDeliver;
    WorseIsAnswered(t, n, k);
    StepKeepsInv(t, n, Deliver(k));
  }

  /** The answer teaches: it is in flight, and once it is delivered the far end has learned what the port announces. */
  lemma AnswerTeaches(t: Topology, n: Net, k: nat)
    requires DrawsAnswer(t, n, k)
    ensures var n1, last := AfterDeliver(t, n, k), |n.flight| - 1;
      && Inv(t, n1) && |n1.flight| == |n.flight| && n1.flight[last] == AnswerTo(t, n, k)
      && Learned(t, AfterDeliver(t, n1, last), AnswerTo(t, n, k))
  {
    hide Inv, DrawsAnswer, AfterDeliver, AnswerTo, Learned;
    AnswerIsLast(t, n, k);
    DeliveryTeaches(t, AfterDeliver(t, n, k), |n.flight| - 1);
  }
}
