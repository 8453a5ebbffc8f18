/** Flooding and routing together: routers that flood LSUs, compute their tables as LSUs arrive, and deliver packets. */
module MospfNetwork {
  import opened Basics
  import opened Walks
  import opened MospfTypes
  import opened MospfRouter
  import opened MospfRoutes
  import opened MospfFlooding
  import opened MospfDelivery
  import Forwarding = MospfForwarding
  import Settling = MospfSettling

  /** The flooding state and every router's table; computed, for the statements only, says who has computed one. */
  datatype Network = Network(flood: State, table: map<Addr, seq<Route>>, computed: set<Addr>)

  /** A flooding step, with the table computed by the router that takes an LSU. */
  datatype Move = Move(step: Step, table: seq<Route>)

  ghost predicate NetFits(c: Config, w: Network) {
    Fits(c, w.flood) && w.table.Keys == c.ifaces.Keys
  }

  /** The step stores an LSU, so that its router computes a new table. */
  ghost predicate Recomputes(c: Config, w: Network, step: Step)
    requires NetFits(c, w) && Enabled(c, w.flood, step)
  {
    step.Deliver? && Takes(w.flood, step.m)
  }

  /** The table is a routing table of the new database. */
  ghost predicate Allowed(c: Config, w: Network, v: Move)
    requires NetFits(c, w)
  {
    && Enabled(c, w.flood, v.step)
    && (Recomputes(c, w, v.step) ==>
      var x := v.step.m.dest.router;
      IsRoutingTable(x, c.ifaces[x], AfterDeliver(c, w.flood, v.step.m).db[x], v.table))
  }

  ghost function NetAfter(c: Config, w: Network, v: Move): Network
    requires NetFits(c, w) && Allowed(c, w, v)
  {
    var s := MospfFlooding.After(c, w.flood, v.step);
    if Recomputes(c, w, v.step) then
      var x := v.step.m.dest.router;
      Network(s, w.table[x := v.table], w.computed + {x})
    else
      Network(s, w.table, w.computed)
  }

  ghost predicate NetRun(c: Config, w: Network, moves: seq<Move>, w': Network)
    requires NetFits(c, w)
    decreases |moves|
  {
    if moves == [] then w == w'
    else
      && Live(w.flood) && Allowed(c, w, moves[0]) && NetFits(c, NetAfter(c, w, moves[0]))
      && NetRun(c, NetAfter(c, w, moves[0]), moves[1..], w')
  }

  function StepsOf(moves: seq<Move>): seq<Step> {
    if moves == [] then [] else [moves[0].step] + StepsOf(moves[1..])
  }

  /** Seen without tables, a run is a run of flooding. */
  lemma {:induction false} NetRunFloods(c: Config, w: Network, moves: seq<Move>, w': Network)
    requires NetFits(c, w) && NetRun(c, w, moves, w')
    ensures Run(c, w.flood, StepsOf(moves), w'.flood) && NetFits(c, w')
    decreases |moves|
  {
    hide Fits, Live, Enabled, MospfFlooding.After, IsRoutingTable, Recomputes, AfterDeliver;
    if moves != [] {
      assert StepsOf(moves)[1..] == StepsOf(moves[1..]);
      NetRunFloods(c, NetAfter(c, w, moves[0]), moves[1..], w');
    }
  }

  // ---------------------------------------------------------------------
  // Tables follow databases
  // ---------------------------------------------------------------------

  ghost predicate TableCurrent(c: Config, w: Network, x: Addr)
    requires NetFits(c, w) && x in c.ifaces
  {
    IsRoutingTable(x, c.ifaces[x], w.flood.db[x], w.table[x])
  }

  /**
   Who has computed a table has one of its present database; who has not, has table and database of the start;
   and who holds the newest LSU of another router that has originated since the start has computed one.
   */
  ghost predicate Tabled(c: Config, w0: Network, w: Network)
    requires NetFits(c, w0) && NetFits(c, w)
  {
    && (forall x | x in w.computed && x in c.ifaces :: TableCurrent(c, w, x))
    && (forall x | x in c.ifaces && x !in w.computed ::
      w.table[x] == w0.table[x] && w.flood.db[x] == w0.flood.db[x])
    && (forall x, r | r in w.flood.since && x in c.ifaces && x != r && Has(w.flood, x, r) :: x in w.computed)
  }

  /** A step that stores nothing changes no database, and lets nobody hold a newest LSU that did not before. */
  lemma OtherMove(c: Config, w: Network, v: Move)
    requires NetFits(c, w) && Consistent(c, w.flood) && Allowed(c, w, v) && !Recomputes(c, w, v.step)
    ensures var s, s' := w.flood, NetAfter(c, w, v).flood;
      && s'.db == s.db && s'.held == s.held
      && forall x, r | r in s'.since && x in c.ifaces && x != r && Has(s', x, r) :: r in s.since && Has(s, x, r)
  {
    hide ValidConfig, UniqueEntries, IsRoutingTable, Stored, Sent, Takes, MsgOk, Entry, Copies, OwnLsas, Forwarded;
    var s, s' := w.flood, NetAfter(c, w, v).flood;
    forall x, r | r in s'.since && x in c.ifaces && x != r && Has(s', x, r)
      ensures r in s.since && Has(s, x, r)
    {
      assert EntryOk(c, s, x, r);
    }
  }

  /** A step that stores an LSU touches one router, which computes a table. */
  lemma TakingMove(c: Config, w: Network, v: Move)
    requires NetFits(c, w) && Allowed(c, w, v) && Recomputes(c, w, v.step)
    ensures v.step.Deliver?
    ensures var s, s', y := w.flood, NetAfter(c, w, v).flood, v.step.m.dest.router;
      && s'.db.Keys == c.ifaces.Keys && s'.since == s.since && s'.number == s.number
      && (forall x | x in c.ifaces && x != y :: s'.db[x] == s.db[x])
      && (forall x, r | x != y :: Has(s', x, r) ==> Has(s, x, r))
      && y in c.ifaces && NetAfter(c, w, v).computed == w.computed + {y}
      && NetAfter(c, w, v).table == w.table[y := v.table]
      && IsRoutingTable(y, c.ifaces[y], s'.db[y], v.table)
  {
    hide ValidConfig, IsRoutingTable, Stored, Sent, Takes, Copies, OwnLsas, Forwarded;
  }

  lemma OtherKeepsTabled(c: Config, w0: Network, w: Network, w': Network)
    requires NetFits(c, w0) && NetFits(c, w) && Tabled(c, w0, w) && NetFits(c, w')
    requires w'.table == w.table && w'.computed == w.computed && w'.flood.db == w.flood.db
    requires forall x, r | r in w'.flood.since && x in c.ifaces && x != r && Has(w'.flood, x, r) ::
      r in w.flood.since && Has(w.flood, x, r)
    ensures Tabled(c, w0, w')
  {
    hide IsRoutingTable, Has, Fits;
    forall x | x in w'.computed && x in c.ifaces
      ensures TableCurrent(c, w', x)
    {
      assert TableCurrent(c, w, x);
    }
  }

  lemma TakingKeepsTabled(c: Config, w0: Network, w: Network, w': Network, y: Addr, table: seq<Route>)
    requires NetFits(c, w0) && NetFits(c, w) && Tabled(c, w0, w) && NetFits(c, w') && y in c.ifaces
    requires w'.table == w.table[y := table] && w'.computed == w.computed + {y} && w'.flood.since == w.flood.since
    requires w.flood.db.Keys == w'.flood.db.Keys == w0.flood.db.Keys == c.ifaces.Keys
    requires forall x | x in c.ifaces && x != y :: w'.flood.db[x] == w.flood.db[x]
    requires forall x, r | x != y :: Has(w'.flood, x, r) ==> Has(w.flood, x, r)
    requires IsRoutingTable(y, c.ifaces[y], w'.flood.db[y], table)
    ensures Tabled(c, w0, w')
  {
    hide IsRoutingTable, Has, Fits;
    forall x | x in w'.computed && x in c.ifaces
      ensures TableCurrent(c, w', x)
    {
      assert x in w.computed ==> TableCurrent(c, w, x);
    }
  }

  lemma MoveKeepsTabled(c: Config, w0: Network, w: Network, v: Move)
    requires NetFits(c, w0) && NetFits(c, w) && Tabled(c, w0, w) && Consistent(c, w.flood) && Allowed(c, w, v)
    requires NetFits(c, NetAfter(c, w, v))
    ensures Tabled(c, w0, NetAfter(c, w, v))
  {
    hide Tabled, Consistent, ValidConfig, IsRoutingTable, Has, Enabled, Takes, MospfFlooding.After;
    if Recomputes(c, w, v.step) {
      TakingMove(c, w, v);
      TakingKeepsTabled(c, w0, w, NetAfter(c, w, v), v.step.m.dest.router, v.table);
    } else {
      OtherMove(c, w, v);
      OtherKeepsTabled(c, w0, w, NetAfter(c, w, v));
    }
  }

  lemma {:induction false} RunKeepsTabled(c: Config, w0: Network, w: Network, moves: seq<Move>, w': Network)
    requires NetFits(c, w0) && NetFits(c, w) && Tabled(c, w0, w) && Inv(c, w.flood) && NetRun(c, w, moves, w')
    ensures NetFits(c, w') && Tabled(c, w0, w') && Inv(c, w'.flood)
    decreases |moves|
  {
    hide Fits, Live, Enabled, MospfFlooding.After, Recomputes, AfterDeliver, Tabled, FloodInv, Consistent;
    if moves != [] {
      MoveKeepsTabled(c, w0, w, moves[0]);
      StepKeepsInv(c, w.flood, moves[0].step);
      RunKeepsTabled(c, w0, NetAfter(c, w, moves[0]), moves[1..], w');
    }
  }

  /** A start: databases, tables and messages of any kind; a router without others has its table already. */
  ghost predicate NetStart(c: Config, w: Network) {
    && NetFits(c, w) && StartState(c, w.flood) && w.computed == {}
    && (|c.ifaces| == 1 ==> forall x | x in c.ifaces :: TableCurrent(c, w, x))
  }

  /** Every router has originated since the start, and nothing is in flight. */
  ghost predicate NetSettled(c: Config, w0: Network, moves: seq<Move>, w: Network) {
    NetStart(c, w0) && NetRun(c, w0, moves, w) && w.flood.flight == multiset{} && w.flood.since == c.ifaces.Keys
  }

  lemma SettledIsFlooded(c: Config, w0: Network, moves: seq<Move>, w: Network)
    requires NetSettled(c, w0, moves, w)
    ensures Fits(c, w0.flood) && NetFits(c, w) && Flooded(c, w0.flood, StepsOf(moves), w.flood)
    ensures w.flood.db.Keys == c.ifaces.Keys
  {
    NetRunFloods(c, w0, moves, w);
    hide NetRun, Run, Fits, TableCurrent;
  }

  /** Once flooding has settled, every router's table is one of its final database. */
  lemma SettledTables(c: Config, w0: Network, moves: seq<Move>, w: Network, x: Addr)
    requires NetSettled(c, w0, moves, w) && Connected(c) && x in c.ifaces
    ensures NetFits(c, w) && TableCurrent(c, w, x)
  {
    hide IsRoutingTable, NetRun, FloodInv, Consistent, Connected;
    assert Tabled(c, w0, w0);
    StartInv(c, w0);
    RunKeepsTabled(c, w0, w0, moves, w);
    if |c.ifaces| == 1 {
      assert x !in w.computed ==> TableCurrent(c, w0, x);
    } else {
      var r := AnotherRouter(c, x);
      NewestIsHeld(c, w.flood, r, x);
      assert x in w.computed;
    }
  }

  lemma StartInv(c: Config, w: Network)
    requires NetStart(c, w)
    ensures Inv(c, w.flood)
  {}

  lemma AnotherRouter(c: Config, x: Addr) returns (r: Addr)
    requires x in c.ifaces && |c.ifaces| != 1
    ensures r in c.ifaces && r != x
  {
    var others := c.ifaces.Keys - {x};
    assert c.ifaces.Keys == {x} + others && |c.ifaces.Keys| == |c.ifaces|;
    r :| r in others;
  }

  lemma NewestIsHeld(c: Config, s: State, r: Addr, x: Addr)
    requires Inv(c, s) && Connected(c) && r in c.ifaces && x in c.ifaces && r in s.since && s.flight == multiset{}
    ensures Has(s, x, r)
  {
    hide Inv, Hops, Links, Has;
    assert Reachable(Links(c), r, x);
    var d: nat :| Hops(Links(c), r, x, d);
    AllHave(c, s, r, x, d);
  }

  /** Once flooding has settled, everything forwarding needs is in place. */
  lemma SettledSynchronises(c: Config, w0: Network, moves: seq<Move>, w: Network)
    requires NetSettled(c, w0, moves, w) && Connected(c) && ValidAddressing(c) && NetFits(c, w)
    ensures Forwarding.Synchronised(Views(c, w.flood, w.table), MospfDelivery.Advertised(c))
  {
    hide NetSettled, Connected, ValidAddressing, Fits, IsRoutingTable, Flooded;
    SettledIsFlooded(c, w0, moves, w);
    forall x | x in c.ifaces
      ensures IsRoutingTable(x, c.ifaces[x], w.flood.db[x], w.table[x])
    {
      SettledTables(c, w0, moves, w, x);
    }
    FloodedIsSynchronised(c, w0.flood, StepsOf(moves), w.flood, w.table);
  }

  /**
   End to end, from any start: once neighbours are stable, every router has originated an LSU and nothing is in
   flight, a packet matching a prefix of a router's table is handed from router to router along a shortest path to a
   nearest router attached to its longest matching prefix, and delivered there.
   */
  lemma NetworkDelivers(c: Config, w0: Network, moves: seq<Move>, w: Network, r: Addr, dst: Addr, route: Route)
    returns (path: seq<Addr>, d: nat)
    requires NetSettled(c, w0, moves, w) && Connected(c) && ValidAddressing(c) && NetFits(c, w)
    requires Forwarding.Selects(Views(c, w.flood, w.table), r, dst, route) && route.mask != 0
    ensures var net := Views(c, w.flood, w.table);
      && Forwarding.NearestAttached(net, MospfDelivery.Advertised(c), r, route.dest, route.mask, d)
      && Forwarding.Journey(net, dst, path) && |path| == d + 1 && path[0] == r
  {
    hide NetSettled, Connected, ValidAddressing, Fits;
    SettledSynchronises(c, w0, moves, w);
    path, d := Forwarding.PacketArrives(Views(c, w.flood, w.table), MospfDelivery.Advertised(c), r, dst, route);
  }

  // ---------------------------------------------------------------------
  // Every network can settle
  // ---------------------------------------------------------------------

  /** Every run of flooding is the flooding of a run with tables. */
  lemma {:induction false} TablesCanFollow(c: Config, w: Network, steps: seq<Step>, s: State)
    returns (moves: seq<Move>, w': Network)
    requires NetFits(c, w) && Run(c, w.flood, steps, s)
    ensures NetRun(c, w, moves, w') && w'.flood == s
    decreases |steps|
  {
    hide Fits, Live, Enabled, MospfFlooding.After, IsRoutingTable, Takes, AfterDeliver;
    if steps == [] { return [], w; }
    var v := MoveExists(c, w, steps[0]);
    AfterFits(c, w.flood, steps[0]);
    MoveFits(c, w, v);
    var rest;
    rest, w' := TablesCanFollow(c, NetAfter(c, w, v), steps[1..], s);
    moves := [v] + rest;
    assert moves[1..] == rest;
  }

  lemma MoveExists(c: Config, w: Network, step: Step) returns (v: Move)
    requires NetFits(c, w) && Enabled(c, w.flood, step)
    ensures v.step == step && Allowed(c, w, v)
  {
    v := Move(step, []);
    if Recomputes(c, w, step) {
      var x := step.m.dest.router;
      var table := TableExists(x, c.ifaces[x], AfterDeliver(c, w.flood, step.m).db[x]);
      v := Move(step, table);
    }
    hide IsRoutingTable;
  }

  lemma MoveFits(c: Config, w: Network, v: Move)
    requires NetFits(c, w) && Allowed(c, w, v)
    ensures NetFits(c, NetAfter(c, w, v)) && NetAfter(c, w, v).flood == MospfFlooding.After(c, w.flood, v.step)
  {
    hide IsRoutingTable, Takes;
    AfterFits(c, w.flood, v.step);
  }

  /** Every network of stable neighbours has a run in which all originate, flooding settles and tables follow. */
  lemma NetworkSettles(c: Config) returns (w0: Network, moves: seq<Move>, w: Network)
    requires ValidConfig(c)
    ensures NetSettled(c, w0, moves, w)
  {
    var s0, steps, s := Settling.FloodingIsReached(c);
    var tables := StartTables(c, s0);
    w0 := Network(s0, tables, {});
    hide IsRoutingTable, Run, StartState, Fits;
    moves, w := TablesCanFollow(c, w0, steps, s);
  }

  lemma {:induction false} TablesFor(c: Config, s: State, todo: set<Addr>) returns (tables: map<Addr, seq<Route>>)
    requires Fits(c, s) && todo <= c.ifaces.Keys
    ensures tables.Keys == todo && forall x | x in todo :: IsRoutingTable(x, c.ifaces[x], s.db[x], tables[x])
    decreases |todo|
  {
    hide IsRoutingTable, ValidConfig;
    if todo == {} { return map[]; }
    var x :| x in todo;
    var others := TablesFor(c, s, todo - {x});
    var table := TableExists(x, c.ifaces[x], s.db[x]);
    tables := others[x := table];
  }

  lemma StartTables(c: Config, s: State) returns (tables: map<Addr, seq<Route>>)
    requires Fits(c, s)
    ensures tables.Keys == c.ifaces.Keys
    ensures forall x | x in c.ifaces :: IsRoutingTable(x, c.ifaces[x], s.db[x], tables[x])
  {
    hide IsRoutingTable, ValidConfig;
    tables := TablesFor(c, s, c.ifaces.Keys);
  }
}
