/** Flooding comes to an end: every schedule of deliveries leaves nothing in flight, and every network can settle. */
module MospfSettling {
  import opened Basics
  import opened MospfTypes
  import opened MospfRouter
  import opened MospfFlooding
  import MospfDelivery

  /** How many LSUs of r router x may still take. */
  ghost function Gap(s: State, x: Addr, r: Addr): nat {
    if x !in s.held || r !in s.number then 0
    else if r !in s.held[x] then s.number[r] + 1
    else if s.held[x][r] <= s.number[r] then s.number[r] - s.held[x][r]
    else 0
  }

  ghost function Pairs(c: Config): set<(Addr, Addr)> {
    set x, r | x in c.ifaces && r in c.ifaces :: (x, r)
  }

  ghost function Gaps(s: State, ps: set<(Addr, Addr)>): nat
    decreases |ps|
  {
    if ps == {} then 0
    else
      var p := Pick(ps);
      Gap(s, p.0, p.1) + Gaps(s, ps - {p})
  }

  lemma {:induction false} GapsOrder(s: State, s': State, ps: set<(Addr, Addr)>)
    requires forall p | p in ps :: Gap(s', p.0, p.1) <= Gap(s, p.0, p.1)
    ensures Gaps(s', ps) <= Gaps(s, ps)
    ensures (exists p | p in ps :: Gap(s', p.0, p.1) < Gap(s, p.0, p.1)) ==> Gaps(s', ps) < Gaps(s, ps)
    decreases |ps|
  {
    hide Gap, Pick;
    if ps != {} { GapsOrder(s, s', ps - {Pick(ps)}); }
  }

  /** A delivery that is taken narrows the gap between what the router holds and what was sent. */
  lemma DeliveryNarrows(c: Config, s: State, m: Msg, x: Addr, r: Addr)
    requires Delivery(c, s, m) && x in c.ifaces && r in c.ifaces
    ensures var s' := AfterDeliver(c, s, m);
      && Gap(s', x, r) <= Gap(s, x, r)
      && (Takes(s, m) && x == m.dest.router && r == m.packet.lsu.rid ==> Gap(s', x, r) < Gap(s, x, r))
      && (!Takes(s, m) ==> Gap(s', x, r) == Gap(s, x, r))
  {
    hide ValidConfig, UniqueEntries, Sent, Copies, Entry, Takes, Live, Stored, Forwarded;
    TakesIsLater(c, s, m);
    assert MsgOk(c, s, m);
    assert EntryOk(c, s, x, r);
  }

  lemma UntakenLeaves(c: Config, s: State, m: Msg)
    requires Delivery(c, s, m)
    ensures Fits(c, s) && ValidPort(c, m.dest)
    ensures m.dest.router in c.ifaces && m.packet.lsu.rid in c.ifaces && m.dest.router in s.db
    ensures !Takes(s, m) ==> |AfterDeliver(c, s, m).flight| < |s.flight|
  {
    hide Takes, Sent, Stored, Live, UniqueEntries, MsgOk, EntryOk;
    assert !Takes(s, m) ==> AfterDeliver(c, s, m).flight == s.flight - multiset{m};
  }

  lemma EveryGapNarrows(c: Config, s: State, m: Msg)
    requires Delivery(c, s, m)
    requires Fits(c, s) && ValidPort(c, m.dest) && m.packet.lsu.rid in c.ifaces && m.dest.router in s.db
    ensures forall p | p in Pairs(c) :: Gap(AfterDeliver(c, s, m), p.0, p.1) <= Gap(s, p.0, p.1)
    ensures !Takes(s, m) ==> forall p | p in Pairs(c) :: Gap(s, p.0, p.1) <= Gap(AfterDeliver(c, s, m), p.0, p.1)
  {
    hide Gap, Takes, Delivery, AfterDeliver;
    forall p | p in Pairs(c)
      ensures Gap(AfterDeliver(c, s, m), p.0, p.1) <= Gap(s, p.0, p.1)
      ensures !Takes(s, m) ==> Gap(s, p.0, p.1) <= Gap(AfterDeliver(c, s, m), p.0, p.1)
    {
      DeliveryNarrows(c, s, m, p.0, p.1);
    }
  }

  /** Every delivery either narrows a gap or takes a message out of flight for good. */
  lemma DeliveryLowers(c: Config, s: State, m: Msg)
    requires Delivery(c, s, m)
    ensures var s' := AfterDeliver(c, s, m);
      Gaps(s', Pairs(c)) < Gaps(s, Pairs(c)) || (Gaps(s', Pairs(c)) == Gaps(s, Pairs(c)) && |s'.flight| < |s.flight|)
  {
    hide Gap, Gaps, Takes, Delivery, AfterDeliver, ValidConfig, Fits;
    UntakenLeaves(c, s, m);
    EveryGapNarrows(c, s, m);
    var s' := AfterDeliver(c, s, m);
    GapsOrder(s, s', Pairs(c));
    if Takes(s, m) {
      DeliveryNarrows(c, s, m, m.dest.router, m.packet.lsu.rid);
      assert (m.dest.router, m.packet.lsu.rid) in Pairs(c);
    } else {
      GapsOrder(s', s, Pairs(c));
    }
  }

  ghost predicate LiveMessage(s: State, m: Msg) {
    m.packet.lsu.rid in s.number ==> s.number[m.packet.lsu.rid] < m.num + 0x8000
  }

  ghost predicate LiveEntry(s: State, x: Addr, r: Addr) {
    x in s.held && r in s.held[x] && r in s.number ==> s.number[r] < s.held[x][r] + 0x8000
  }

  lemma LivePiecewise(s: State)
    requires forall m | m in s.flight :: LiveMessage(s, m)
    requires forall x, r :: LiveEntry(s, x, r)
    ensures Live(s)
  {
    forall m | m in s.flight && m.packet.lsu.rid in s.number
      ensures s.number[m.packet.lsu.rid] < m.num + 0x8000
    {
      assert LiveMessage(s, m);
    }
    forall x, r | x in s.held && r in s.held[x] && r in s.number
      ensures s.number[r] < s.held[x][r] + 0x8000
    {
      assert LiveEntry(s, x, r);
    }
  }

  lemma MessageStaysLive(c: Config, s: State, m: Msg, w: Msg)
    requires Delivery(c, s, m) && Fits(c, s) && ValidPort(c, m.dest) && m.packet.lsu.rid in c.ifaces
    requires w in AfterDeliver(c, s, m).flight
    ensures LiveMessage(AfterDeliver(c, s, m), w)
  {
    hide ValidConfig, UniqueEntries, Sent, Takes, Stored, MsgOk, EntryOk, Forwarded;
    if w !in s.flight {
      assert MsgOk(c, s, m);
      SameRid(c, s, m, w);
    }
  }

  lemma EntryStaysLive(c: Config, s: State, m: Msg, x: Addr, r: Addr)
    requires Delivery(c, s, m) && Fits(c, s) && ValidPort(c, m.dest) && m.packet.lsu.rid in c.ifaces
    ensures LiveEntry(AfterDeliver(c, s, m), x, r)
  {
    hide ValidConfig, UniqueEntries, Sent, Takes, Stored, MsgOk, EntryOk, Forwarded;
  }

  /** What is sent on is as recent as what came in, so live numbers stay live. */
  lemma DeliveryKeepsLive(c: Config, s: State, m: Msg)
    requires Delivery(c, s, m)
    ensures Live(AfterDeliver(c, s, m))
  {
    UntakenLeaves(c, s, m);
    hide Delivery, Fits, ValidPort, AfterDeliver, LiveMessage, LiveEntry, Live;
    var s' := AfterDeliver(c, s, m);
    forall w | w in s'.flight
      ensures LiveMessage(s', w)
    {
      MessageStaysLive(c, s, m, w);
    }
    forall x, r
      ensures LiveEntry(s', x, r)
    {
      EntryStaysLive(c, s, m, x, r);
    }
    LivePiecewise(s');
  }

  lemma SameRid(c: Config, s: State, m: Msg, w: Msg)
    requires Fits(c, s) && MsgOk(c, s, m)
    requires w in Sent(c, Forwarded(c.ifaces[m.dest.router], m.dest.iface, m.packet), m.num)
    ensures w.num == m.num && w.packet.lsu.rid == m.packet.lsu.rid
  {
    hide Sent, Forwarded;
    ForwardedOk(c, s, m, w);
  }

  /** Anything in flight can be delivered. */
  lemma FlightIsDelivery(c: Config, s: State, m: Msg)
    requires Inv(c, s) && Live(s) && m in s.flight
    ensures Delivery(c, s, m) && Enabled(c, s, Deliver(m))
    ensures ValidPort(c, m.dest) && m.packet.lsu.rid in c.ifaces
  {
    assert MsgOk(c, s, m);
    hide FloodInv, ValidConfig, EntryOk, Live;
  }

  /** One delivery keeps what deliveries rely on and lowers the measure. */
  lemma DeliveryProgress(c: Config, s: State, m: Msg)
    requires Inv(c, s) && Live(s) && Fits(c, s) && m in s.flight
    ensures Delivery(c, s, m) && Enabled(c, s, Deliver(m))
    ensures var s' := AfterDeliver(c, s, m);
      && Inv(c, s') && Live(s') && Fits(c, s') && s'.since == s.since
      && (Gaps(s', Pairs(c)) < Gaps(s, Pairs(c))
          || (Gaps(s', Pairs(c)) == Gaps(s, Pairs(c)) && |s'.flight| < |s.flight|))
  {
    hide Inv, Live, Gaps, AfterDeliver, Delivery, Enabled, Fits;
    FlightIsDelivery(c, s, m);
    StepKeepsInv(c, s, Deliver(m));
    AfterFits(c, s, Deliver(m));
    DeliveryKeepsLive(c, s, m);
    DeliveryLowers(c, s, m);
    DeliverKeepsSince(c, s, m);
  }

  /** s' follows from s by delivering m, if anything is in flight. */
  ghost predicate Delivers(c: Config, s: State, m: Msg, s': State) {
    Fits(c, s) && (s.flight != multiset{} ==> m in s.flight && Enabled(c, s, Deliver(m)) && s' == AfterDeliver(c, s, m))
  }

  /** ms schedules deliveries, and run(i) is the state after i of them. */
  ghost predicate Schedule(c: Config, run: nat -> State, ms: nat -> Msg) {
    forall i: nat {:trigger ms(i)} :: Delivers(c, run(i), ms(i), run(i + 1))
  }

  ghost predicate Empty(run: nat -> State, i: nat) {
    run(i).flight == multiset{}
  }

  /** Every schedule of deliveries, in whatever order, empties the network. */
  lemma {:induction false} EveryFloodSettles(c: Config, run: nat -> State, ms: nat -> Msg, i: nat) returns (j: nat)
    requires Schedule(c, run, ms) && Inv(c, run(i)) && Live(run(i))
    ensures j >= i && Empty(run, j) && Inv(c, run(j)) && run(j).since == run(i).since
    decreases Gaps(run(i), Pairs(c)), |run(i).flight|
  {
    hide Inv, Live, Gaps, AfterDeliver, Delivery;
    if Empty(run, i) { return i; }
    assert Delivers(c, run(i), ms(i), run(i + 1));
    DeliveryProgress(c, run(i), ms(i));
    j := EveryFloodSettles(c, run, ms, i + 1);
  }

  // ---------------------------------------------------------------------
  // Every network can settle
  // ---------------------------------------------------------------------

  lemma {:induction false} Settle(c: Config, s: State) returns (steps: seq<Step>, s': State)
    requires Inv(c, s) && Live(s) && Fits(c, s)
    ensures Run(c, s, steps, s') && s'.flight == multiset{} && s'.since == s.since
    decreases Gaps(s, Pairs(c)), |s.flight|
  {
    hide Inv, Live, Gaps, AfterDeliver, Delivery, Fits;
    if s.flight == multiset{} { return [], s; }
    var m :| m in s.flight;
    DeliveryProgress(c, s, m);
    var rest;
    rest, s' := Settle(c, AfterDeliver(c, s, m));
    steps := [Deliver(m)] + rest;
    assert steps[1..] == rest;
  }

  /** Where nobody has sent more than one LSU, numbers are live. */
  lemma FewAreLive(c: Config, s: State)
    requires Fits(c, s) && forall r | r in s.number :: s.number[r] <= 1
    ensures Live(s)
  {
    hide ValidConfig;
  }

  lemma {:induction false} OriginateAll(c: Config, s: State, todo: set<Addr>) returns (steps: seq<Step>, s': State)
    requires Inv(c, s) && Fits(c, s) && todo <= c.ifaces.Keys && c.ifaces.Keys <= s.since + todo
    requires forall r | r in s.number :: s.number[r] <= if r in todo then 0 else 1
    ensures Run(c, s, steps, s') && s'.flight == multiset{} && s'.since == c.ifaces.Keys
    decreases |todo|
  {
    hide Inv, Live, ValidConfig, Sent, Copies, OwnLsas;
    FewAreLive(c, s);
    if todo == {} {
      steps, s' := Settle(c, s);
      return;
    }
    var r :| r in todo;
    StepKeepsInv(c, s, Originate(r));
    AfterFits(c, s, Originate(r));
    var rest;
    rest, s' := OriginateAll(c, AfterOriginate(c, s, r), todo - {r});
    steps := [Originate(r)] + rest;
    assert steps[1..] == rest;
  }

  /** Routers that know nothing and have sent nothing. */
  ghost function Fresh(c: Config): State {
    State(map r | r in c.ifaces :: [], map r | r in c.ifaces :: 0, map r | r in c.ifaces :: map[], {}, multiset{})
  }

  /** In every network of stable neighbours there is a run that floods everybody's LSU and settles. */
  lemma FloodingIsReached(c: Config) returns (s0: State, steps: seq<Step>, s: State)
    requires ValidConfig(c)
    ensures Fits(c, s0) && MospfDelivery.Flooded(c, s0, steps, s)
  {
    hide ValidConfig, Run;
    s0 := Fresh(c);
    assert Consistent(c, s0);
    steps, s := OriginateAll(c, s0, c.ifaces.Keys);
  }
}
