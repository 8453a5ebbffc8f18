/**
 Hop-by-hop forwarding over the tables that all routers compute from the same database:
 every hop is one step closer to a nearest router attached to the destination's prefix.
 */
module MospfForwarding {
  import opened Basics
  import opened Walks
  import opened MospfTypes
  import opened MospfRouter
  import opened MospfRoutes

  /** What one router knows and has installed. */
  datatype View = View(ifaces: seq<Iface>, db: seq<DbEntry>, table: seq<Route>)

  type Net = map<Addr, View>

  /** What every router currently advertises. */
  type Advertisements = map<Addr, seq<Lsa>>

  /** Router r owns this interface address. */
  ghost predicate Owns(net: Net, r: Addr, ip: Addr) {
    r in net && exists i | i in net[r].ifaces :: i.ip == ip
  }

  /** Router r's database holds exactly what the other routers advertise. */
  ghost predicate Complete(net: Net, adv: Advertisements, r: Addr)
    requires r in net && adv.Keys == net.Keys
  {
    && UniqueEntries(net[r].db)
    && forall x :: (Entry(net[r].db, x).Some? <==> x in net && x != r)
                   && (x in net && x != r ==> Entry(net[r].db, x).value.lsas == adv[x])
  }

  /** Adjacency is advertised from both sides, between routers of the network. */
  ghost predicate Mutual(net: Net, adv: Advertisements)
    requires adv.Keys == net.Keys
  {
    && 0 !in net
    && forall a, b | a in net && Mentions(adv[a], b) :: b in net && Mentions(adv[b], a)
  }

  /** A router advertises exactly the prefixes it is attached to. */
  ghost predicate AdvertisesOwn(net: Net, adv: Advertisements, r: Addr)
    requires r in net && adv.Keys == net.Keys
  {
    forall dest, mask | mask != 0 :: Offered(adv[r], dest, mask) <==> InTable(Direct(net[r].ifaces), dest, mask)
  }

  /** Every adjacent router is a known neighbour, and the address recorded for it is its own. */
  ghost predicate KnowsNeighbours(net: Net, adv: Advertisements, r: Addr)
    requires r in net && adv.Keys == net.Keys
  {
    forall b | b != r && Mentions(adv[r], b) ::
      Resolve(net[r].ifaces, b).Some? && Owns(net, b, Resolve(net[r].ifaces, b).value.gw)
  }

  ghost predicate RouterReady(net: Net, adv: Advertisements, r: Addr)
    requires r in net && adv.Keys == net.Keys
  {
    && Complete(net, adv, r) && AdvertisesOwn(net, adv, r) && KnowsNeighbours(net, adv, r)
    && IsRoutingTable(r, net[r].ifaces, net[r].db, net[r].table)
  }

  /** All routers have computed their tables from the same complete information. */
  ghost predicate Synchronised(net: Net, adv: Advertisements) {
    && adv.Keys == net.Keys && Mutual(net, adv)
    && (forall r | r in net :: RouterReady(net, adv, r))
    && (forall ip, a, b | Owns(net, a, ip) && Owns(net, b, ip) :: a == b)
  }

  ghost predicate Joined(net: Net, adv: Advertisements, a: Addr, b: Addr) {
    a in net && a in adv && a != b && Mentions(adv[a], b)
  }

  /** The graph of the network, the same for everybody. */
  ghost function Topology(net: Net, adv: Advertisements): (Addr, Addr) -> bool {
    (a: Addr, b: Addr) => Joined(net, adv, a, b)
  }

  // ---------------------------------------------------------------------
  // Every router sees the same graph
  // ---------------------------------------------------------------------

  lemma EntryUnique(db: seq<DbEntry>, e: DbEntry)
    requires UniqueEntries(db) && e in db
    ensures Entry(db, e.rid) == Some(e)
  {
    var i :| 0 <= i < |db| && db[i] == e;
    assert Entry(db, e.rid).Some?;
  }

  lemma SameGraph(net: Net, adv: Advertisements, r: Addr, a: Addr, b: Addr)
    requires Synchronised(net, adv) && r in net
    ensures Edge(net[r].db, a, b) <==> Topology(net, adv)(a, b)
  {
    hide Edge, Joined, RouterReady, Owns;
    assert RouterReady(net, adv, r);
    if Edge(net[r].db, a, b) { EdgeIsLink(net, adv, r, a, b); }
    if Joined(net, adv, a, b) { LinkIsEdge(net, adv, r, a, b); }
  }

  lemma EdgeIsLink(net: Net, adv: Advertisements, r: Addr, a: Addr, b: Addr)
    requires r in net && adv.Keys == net.Keys && Mutual(net, adv) && RouterReady(net, adv, r)
    requires Edge(net[r].db, a, b)
    ensures Joined(net, adv, a, b)
  {
    hide Entry, AdvertisesOwn, KnowsNeighbours, IsRoutingTable, UniqueEntries;
    var e :| e in net[r].db && EntryEdge(e, a, b);
    EntryUnique(net[r].db, e);
    var l :| l in e.lsas && LsaEdge(e.rid, l, a, b);
    assert Mentions(adv[e.rid], l.rid);
  }

  lemma LinkIsEdge(net: Net, adv: Advertisements, r: Addr, a: Addr, b: Addr)
    requires r in net && adv.Keys == net.Keys && Mutual(net, adv) && RouterReady(net, adv, r)
    requires Joined(net, adv, a, b)
    ensures Edge(net[r].db, a, b)
  {
    hide Entry, AdvertisesOwn, KnowsNeighbours, IsRoutingTable, UniqueEntries, Edge;
    var x, y := if a != r then a else b, if a != r then b else a;
    assert x != r && x in net && Mentions(adv[x], y);
    ListedEdge(net[r].db, x, y);
  }

  lemma ListedEdge(db: seq<DbEntry>, x: Addr, y: Addr)
    requires Entry(db, x).Some? && Mentions(Entry(db, x).value.lsas, y) && x != y
    ensures Edge(db, x, y) && Edge(db, y, x)
  {
    var e := Entry(db, x).value;
    var l :| l in e.lsas && l.rid == y;
    assert LsaEdge(e.rid, l, x, y) && LsaEdge(e.rid, l, y, x);
    assert EntryEdge(e, x, y) && EntryEdge(e, y, x);
  }

  lemma SameWalks(net: Net, adv: Advertisements, r: Addr, a: Addr, b: Addr)
    requires Synchronised(net, adv) && r in net
    ensures forall d: nat :: Hops(Graph(net[r].db), a, b, d) <==> Hops(Topology(net, adv), a, b, d)
    ensures forall d: nat :: IsDistance(Graph(net[r].db), a, b, d) <==> IsDistance(Topology(net, adv), a, b, d)
    ensures Reachable(Graph(net[r].db), a, b) <==> Reachable(Topology(net, adv), a, b)
  {
    hide Synchronised, Edge;
    var f, g := Graph(net[r].db), Topology(net, adv);
    forall x: Addr, y: Addr ensures f(x, y) <==> g(x, y) { SameGraph(net, adv, r, x, y); }
    forall d: nat ensures Hops(f, a, b, d) <==> Hops(g, a, b, d) { SameHops(f, g, a, b, d); }
    SameDistance(f, g, a, b);
  }

  lemma TopologySymmetric(net: Net, adv: Advertisements)
    requires Synchronised(net, adv)
    ensures Symmetric(Topology(net, adv))
  {
    hide RouterReady;
  }

  lemma {:induction false} StaysInside(net: Net, adv: Advertisements, a: Addr, b: Addr, d: nat)
    requires Synchronised(net, adv) && a in net && Hops(Topology(net, adv), a, b, d)
    ensures b in net
  {
    hide RouterReady, Owns;
    if d > 0 {
      var c := LastHop(Topology(net, adv), a, b, d);
      assert Joined(net, adv, c, b);
    }
  }

  // ---------------------------------------------------------------------
  // Every router has routes to the same prefixes
  // ---------------------------------------------------------------------

  /** Some router reachable from r, possibly r itself, is attached to the prefix. */
  ghost predicate Attached(net: Net, adv: Advertisements, r: Addr, dest: Addr, mask: Addr) {
    exists x | x in adv :: Reachable(Topology(net, adv), r, x) && Offered(adv[x], dest, mask)
  }

  lemma UsableMeansReachable(net: Net, adv: Advertisements, r: Addr, hops: map<Addr, Addr>, x: Addr)
    requires Synchronised(net, adv) && r in net && FirstHops(r, net[r].db, hops)
    ensures Usable(net[r].ifaces, net[r].db, hops, x) <==> x != r && Reachable(Topology(net, adv), r, x)
    ensures x in hops ==> Joined(net, adv, r, hops[x]) && hops[x] in net
    ensures x in hops ==>
      Resolve(net[r].ifaces, hops[x]).Some? && Owns(net, hops[x], Resolve(net[r].ifaces, hops[x]).value.gw)
    ensures x in hops ==> x in net && Entry(net[r].db, x).Some? && Entry(net[r].db, x).value.lsas == adv[x]
  {
    hide Hops, IsDistance, Entry, Resolve, IsRoutingTable, AdvertisesOwn, UniqueEntries, Owns;
    SameWalks(net, adv, r, r, x);
    assert RouterReady(net, adv, r);
    if x in hops {
      var d: nat :| IsDistance(Graph(net[r].db), r, x, d) && FirstHopTo(net[r].db, r, hops[x], x, d);
      SameGraph(net, adv, r, r, hops[x]);
      var k: nat :| Hops(Topology(net, adv), r, x, k);
      StaysInside(net, adv, r, x, k);
    }
  }

  lemma PrefixesShared(net: Net, adv: Advertisements, r: Addr, dest: Addr, mask: Addr)
    requires Synchronised(net, adv) && r in net && mask != 0
    ensures InTable(net[r].table, dest, mask) <==> Attached(net, adv, r, dest, mask)
  {
    hide Offered, Entry, Resolve, IsRoutingTable, InTable, IsDistance, FirstHops, HasClosestRoute;
    var v := net[r];
    assert RouterReady(net, adv, r);
    var hops := RoutesInstalled(r, v.ifaces, v.db, v.table);
    if InTable(v.table, dest, mask) {
      if InTable(Direct(v.ifaces), dest, mask) {
        NoHops(Topology(net, adv), r, r);
        assert Reachable(Topology(net, adv), r, r) && Offered(adv[r], dest, mask);
      } else {
        var x :| Advertiser(v.ifaces, v.db, hops, x, dest, mask);
        UsableMeansReachable(net, adv, r, hops, x);
      }
    }
    if Attached(net, adv, r, dest, mask) {
      var x :| x in adv && Reachable(Topology(net, adv), r, x) && Offered(adv[x], dest, mask);
      UsableMeansReachable(net, adv, r, hops, x);
      if x != r { assert Advertiser(v.ifaces, v.db, hops, x, dest, mask); }
    }
  }

  lemma AttachedShared(net: Net, adv: Advertisements, r: Addr, b: Addr, dest: Addr, mask: Addr)
    requires Synchronised(net, adv) && Topology(net, adv)(r, b)
    ensures Attached(net, adv, r, dest, mask) <==> Attached(net, adv, b, dest, mask)
  {
    TopologySymmetric(net, adv);
    assert Topology(net, adv)(b, r);
    hide Synchronised, Attached, Joined;
    if Attached(net, adv, b, dest, mask) { AttachedFrom(net, adv, r, b, dest, mask); }
    if Attached(net, adv, r, dest, mask) { AttachedFrom(net, adv, b, r, dest, mask); }
  }

  lemma AttachedFrom(net: Net, adv: Advertisements, r: Addr, b: Addr, dest: Addr, mask: Addr)
    requires Topology(net, adv)(r, b) && Attached(net, adv, b, dest, mask)
    ensures Attached(net, adv, r, dest, mask)
  {
    hide Offered;
    var x :| x in adv && Reachable(Topology(net, adv), b, x) && Offered(adv[x], dest, mask);
    var d: nat :| Hops(Topology(net, adv), b, x, d);
    HopOne(Topology(net, adv), r, b);
    HopsConcat(Topology(net, adv), r, b, x, 1, d);
  }

  // ---------------------------------------------------------------------
  // One hop
  // ---------------------------------------------------------------------

  /** The route router r uses for dst. */
  ghost predicate Selects(net: Net, r: Addr, dst: Addr, route: Route) {
    && r in net && LongestPrefix(net[r].table, dst, |net[r].table|).Some?
    && route == net[r].table[LongestPrefix(net[r].table, dst, |net[r].table|).value]
  }

  /** Router r hands a packet for dst to router b. */
  ghost predicate ForwardsTo(net: Net, r: Addr, dst: Addr, b: Addr) {
    exists route :: Selects(net, r, dst, route) && route.gw != 0 && Owns(net, b, route.gw)
  }

  /** Router r sends a packet for dst straight to its destination. */
  ghost predicate DeliversTo(net: Net, r: Addr, dst: Addr) {
    exists route :: Selects(net, r, dst, route) && route.gw == 0
  }

  /** d is the distance from r to a nearest router attached to the prefix. */
  ghost predicate NearestAttached(net: Net, adv: Advertisements, r: Addr, dest: Addr, mask: Addr, d: nat) {
    && (exists x | x in adv :: Offered(adv[x], dest, mask) && Hops(Topology(net, adv), r, x, d))
    && forall x, e: nat | x in adv && Offered(adv[x], dest, mask) && Hops(Topology(net, adv), r, x, e) :: d <= e
  }

  /** Installed prefixes are written with their host bits clear, so a match is an equality. */
  lemma RoutesAreMasked(net: Net, adv: Advertisements, r: Addr, i: nat, dst: Addr)
    requires Synchronised(net, adv) && r in net && i < |net[r].table|
    ensures net[r].table[i].dest == Masked(net[r].table[i].dest, net[r].table[i].mask)
    ensures Matches(net[r].table[i], dst) <==> Masked(dst, net[r].table[i].mask) == net[r].table[i].dest
  {
    hide Entry, Resolve, IsRoutingTable, InTable, IsDistance, FirstHops, Masked, Advertised, SamePrefix;
    var v := net[r];
    assert RouterReady(net, adv, r);
    var hops := RoutesInstalled(r, v.ifaces, v.db, v.table);
    var route := v.table[i];
    if i < |v.ifaces| {
      assert route == Direct(v.ifaces)[i];
      MaskedTwice(v.ifaces[i].ip, route.mask);
    } else {
      assert HasClosestRoute(r, v.ifaces, v.db, hops, route);
      var x, d: nat :| ClosestRoute(r, v.ifaces, v.db, hops, route, x, d);
      var l :| l in Entry(v.db, x).value.lsas && l.mask == route.mask && Masked(l.network, route.mask) == route.dest;
      MaskedTwice(l.network, route.mask);
    }
  }

  /** The prefix a router selects for dst: the longest one anybody it can reach is attached to. */
  lemma SelectedPrefix(net: Net, adv: Advertisements, r: Addr, dst: Addr, route: Route)
    requires Synchronised(net, adv) && Selects(net, r, dst, route) && route.mask != 0
    ensures route.dest == Masked(dst, route.mask) && Attached(net, adv, r, route.dest, route.mask)
    ensures forall m: Addr | m > route.mask :: !Attached(net, adv, r, Masked(dst, m), m)
  {
    hide Synchronised, Attached, Masked;
    var t := net[r].table;
    var i := LongestPrefix(t, dst, |t|).value;
    LongestPrefixIsBest(t, dst, |t|);
    RoutesAreMasked(net, adv, r, i, dst);
    assert t[i] in t;
    PrefixesShared(net, adv, r, route.dest, route.mask);
    forall m: Addr | m > route.mask
      ensures !Attached(net, adv, r, Masked(dst, m), m)
    {
      PrefixesShared(net, adv, r, Masked(dst, m), m);
      if q :| q in t && q.dest == Masked(dst, m) && q.mask == m {
        var j :| 0 <= j < |t| && t[j] == q;
        RoutesAreMasked(net, adv, r, j, dst);
      }
    }
  }

  /** A router that is attached to the selected prefix has it first in its table, as a direct route. */
  lemma DirectIffAttached(net: Net, adv: Advertisements, r: Addr, dst: Addr, route: Route)
    requires Synchronised(net, adv) && Selects(net, r, dst, route) && route.mask != 0
    ensures r in adv && (route.gw == 0 <==> Offered(adv[r], route.dest, route.mask))
    ensures route.gw != 0 ==> exists i :: |net[r].ifaces| <= i < |net[r].table| && net[r].table[i] == route
  {
    hide Entry, IsRoutingTable, IsDistance, FirstHops, Masked, Advertised, Offered, Attached, Matches, Complete;
    var v := net[r];
    var t, i := v.table, LongestPrefix(v.table, dst, |v.table|).value;
    assert RouterReady(net, adv, r);
    var hops := RoutesInstalled(r, v.ifaces, v.db, t);
    assert AdvertisesOwn(net, adv, r);
    assert t[..|v.ifaces|] == Direct(v.ifaces);
    if i < |v.ifaces| {
      assert Direct(v.ifaces)[i] == t[i] && route.gw == 0;
      assert Direct(v.ifaces)[i] in Direct(v.ifaces);
    } else {
      assert HasClosestRoute(r, v.ifaces, v.db, hops, t[i]);
    }
  }

  lemma NearestExists(net: Net, adv: Advertisements, r: Addr, dst: Addr, route: Route) returns (d: nat)
    requires Synchronised(net, adv) && Selects(net, r, dst, route) && route.mask != 0
    ensures NearestAttached(net, adv, r, route.dest, route.mask, d)
  {
    SelectedPrefix(net, adv, r, dst, route);
    hide Synchronised, Selects, Offered, Hops, Joined;
    var x :| x in adv && Reachable(Topology(net, adv), r, x) && Offered(adv[x], route.dest, route.mask);
    var k: nat :| Hops(Topology(net, adv), r, x, k);
    d := LeastAttached(net, adv, r, route.dest, route.mask, k);
  }

  lemma {:induction false} LeastAttached(net: Net, adv: Advertisements, r: Addr, dest: Addr, mask: Addr, k: nat)
    returns (d: nat)
    requires exists x | x in adv :: Offered(adv[x], dest, mask) && Hops(Topology(net, adv), r, x, k)
    ensures NearestAttached(net, adv, r, dest, mask, d)
  {
    hide Offered, Hops;
    if x, e: nat :| x in adv && Offered(adv[x], dest, mask) && Hops(Topology(net, adv), r, x, e) && e < k {
      d := LeastAttached(net, adv, r, dest, mask, e);
    } else {
      d := k;
    }
  }

  /** The gateway of a learned route is the next router on a shortest path to a nearest attached router. */
  lemma GatewayIsCloser(net: Net, adv: Advertisements, r: Addr, dst: Addr, route: Route, d: nat) returns (b: Addr)
    requires Synchronised(net, adv) && Selects(net, r, dst, route) && route.mask != 0 && route.gw != 0
    requires NearestAttached(net, adv, r, route.dest, route.mask, d)
    ensures d > 0 && b in net && Owns(net, b, route.gw) && Topology(net, adv)(r, b)
    ensures NearestAttached(net, adv, b, route.dest, route.mask, d - 1)
  {
    hide Synchronised, Offered, Hops, Joined, Owns, IsDistance;
    DirectIffAttached(net, adv, r, dst, route);
    var x, e, hop := LearnedRoute(net, adv, r, route);
    hide Selects;
    b := hop;
    SameNearest(net, adv, r, route, d, x, e);
    CloserByOne(net, adv, r, b, route.dest, route.mask, d, x);
  }

  lemma CloserByOne(net: Net, adv: Advertisements, r: Addr, b: Addr, dest: Addr, mask: Addr, d: nat, x: Addr)
    requires NearestAttached(net, adv, r, dest, mask, d) && Topology(net, adv)(r, b) && d > 0
    requires x in adv && Offered(adv[x], dest, mask) && Hops(Topology(net, adv), b, x, d - 1)
    ensures NearestAttached(net, adv, b, dest, mask, d - 1)
  {
    var topo := Topology(net, adv);
    hide Offered, Hops, Joined;
    forall y, k: nat | y in adv && Offered(adv[y], dest, mask) && Hops(topo, b, y, k)
      ensures d - 1 <= k
    {
      HopOne(topo, r, b);
      HopsConcat(topo, r, b, y, 1, k);
    }
  }

  /** A learned route leads to some attached router x at distance e, over a neighbour one hop closer to it. */
  lemma LearnedRoute(net: Net, adv: Advertisements, r: Addr, route: Route) returns (x: Addr, e: nat, hop: Addr)
    requires Synchronised(net, adv) && r in net && route.gw != 0
    requires exists i :: |net[r].ifaces| <= i < |net[r].table| && net[r].table[i] == route
    ensures x in adv && Offered(adv[x], route.dest, route.mask) && e > 0
    ensures hop in net && Owns(net, hop, route.gw) && Topology(net, adv)(r, hop)
    ensures Hops(Topology(net, adv), hop, x, e - 1)
    ensures forall y, k: nat | y in adv && y != r && Offered(adv[y], route.dest, route.mask)
      && IsDistance(Topology(net, adv), r, y, k) :: e <= k
  {
    hide IsRoutingTable, Hops, IsDistance, Reachable, Advertised, Offered, InTable, Owns, Complete, AdvertisesOwn,
      KnowsNeighbours, FirstHops, ClosestRoute, SamePrefix;
    var v := net[r];
    assert RouterReady(net, adv, r);
    var hops := RoutesInstalled(r, v.ifaces, v.db, v.table);
    var i :| |v.ifaces| <= i < |v.table| && v.table[i] == route;
    assert HasClosestRoute(r, v.ifaces, v.db, hops, route);
    x, e :| ClosestRoute(r, v.ifaces, v.db, hops, route, x, e);
    hop := ChosenHop(net, adv, r, hops, route, x, e);
    OthersFarther(net, adv, r, hops, route, x, e);
  }

  lemma ChosenHop(net: Net, adv: Advertisements, r: Addr, hops: map<Addr, Addr>, route: Route, x: Addr, e: nat)
    returns (hop: Addr)
    requires Synchronised(net, adv) && r in net && FirstHops(r, net[r].db, hops)
    requires ClosestRoute(r, net[r].ifaces, net[r].db, hops, route, x, e)
    ensures x in adv && Offered(adv[x], route.dest, route.mask) && e > 0
    ensures hop in net && Owns(net, hop, route.gw) && Topology(net, adv)(r, hop)
    ensures Hops(Topology(net, adv), hop, x, e - 1)
  {
    hide Hops, IsDistance, Reachable, Offered, Owns, RouterReady, Entry, Resolve, Edge;
    UsableMeansReachable(net, adv, r, hops, x);
    hop := hops[x];
    var k: nat :| IsDistance(Graph(net[r].db), r, x, k) && FirstHopTo(net[r].db, r, hop, x, k);
    DistanceUnique(Graph(net[r].db), r, x, k, e);
    SameWalks(net, adv, r, hop, x);
  }

  lemma DistanceUnique<T(!new)>(adj: (T, T) -> bool, a: T, b: T, d: nat, e: nat)
    requires IsDistance(adj, a, b, d) && IsDistance(adj, a, b, e)
    ensures d == e
  {}

  lemma OthersFarther(net: Net, adv: Advertisements, r: Addr, hops: map<Addr, Addr>, route: Route, x: Addr, e: nat)
    requires Synchronised(net, adv) && r in net && FirstHops(r, net[r].db, hops)
    requires ClosestRoute(r, net[r].ifaces, net[r].db, hops, route, x, e)
    ensures forall y, k: nat | y in adv && y != r && Offered(adv[y], route.dest, route.mask)
      && IsDistance(Topology(net, adv), r, y, k) :: e <= k
  {
    hide Hops, Offered, Entry, Resolve, FirstHops, RouterReady;
    forall y, k: nat | y in adv && y != r && Offered(adv[y], route.dest, route.mask)
      && IsDistance(Topology(net, adv), r, y, k)
      ensures e <= k
    {
      UsableMeansReachable(net, adv, r, hops, y);
      SameWalks(net, adv, r, r, y);
      assert Advertiser(net[r].ifaces, net[r].db, hops, y, route.dest, route.mask);
    }
  }

  /** The advertiser chosen by the table is a nearest attached router. */
  lemma SameNearest(net: Net, adv: Advertisements, r: Addr, route: Route, d: nat, x: Addr, e: nat)
    requires NearestAttached(net, adv, r, route.dest, route.mask, d)
    requires r in adv && !Offered(adv[r], route.dest, route.mask)
    requires x in adv && Offered(adv[x], route.dest, route.mask) && e > 0
    requires exists hop :: Topology(net, adv)(r, hop) && Hops(Topology(net, adv), hop, x, e - 1)
    requires forall y, k: nat | y in adv && y != r && Offered(adv[y], route.dest, route.mask)
      && IsDistance(Topology(net, adv), r, y, k) :: e <= k
    ensures d == e
  {
    var topo := Topology(net, adv);
    hide Offered, Hops, Joined;
    var hop :| topo(r, hop) && Hops(topo, hop, x, e - 1);
    HopOne(topo, r, hop);
    HopsConcat(topo, r, hop, x, 1, e - 1);
    var y :| y in adv && Offered(adv[y], route.dest, route.mask) && Hops(topo, r, y, d);
    var k := DistanceExists(topo, r, y, d);
  }

  /**
   One hop: a packet whose longest matching prefix is attached to the router is delivered there; otherwise it goes
   to a neighbour that selects the same prefix and is exactly one hop closer to a nearest attached router.
   */
  lemma ForwardingDescends(net: Net, adv: Advertisements, r: Addr, dst: Addr, route: Route, d: nat)
    returns (b: Addr, route': Route)
    requires Synchronised(net, adv) && Selects(net, r, dst, route) && route.mask != 0
    requires NearestAttached(net, adv, r, route.dest, route.mask, d)
    ensures d == 0 <==> DeliversTo(net, r, dst)
    ensures d > 0 ==> ForwardsTo(net, r, dst, b) && (forall c | ForwardsTo(net, r, dst, c) :: c == b)
    ensures d > 0 ==> Selects(net, b, dst, route') && SamePrefix(route', route)
    ensures d > 0 ==> NearestAttached(net, adv, b, route'.dest, route'.mask, d - 1)
  {
    hide RouterReady, Offered, Hops, Attached, Owns, Joined;
    DirectIffAttached(net, adv, r, dst, route);
    NearestZero(net, adv, r, route, d);
    b, route' := r, route;
    if route.gw != 0 {
      b := GatewayIsCloser(net, adv, r, dst, route, d);
      route' := SameSelection(net, adv, r, b, dst, route);
    }
  }

  lemma NearestZero(net: Net, adv: Advertisements, r: Addr, route: Route, d: nat)
    requires NearestAttached(net, adv, r, route.dest, route.mask, d) && r in adv
    ensures d == 0 <==> Offered(adv[r], route.dest, route.mask)
  {
    hide Offered;
    NoHops(Topology(net, adv), r, r);
    if d == 0 {
      var x :| x in adv && Offered(adv[x], route.dest, route.mask) && Hops(Topology(net, adv), r, x, 0);
    }
  }

  /** Adjacent routers select the same prefix. */
  lemma SameSelection(net: Net, adv: Advertisements, r: Addr, b: Addr, dst: Addr, route: Route) returns (route': Route)
    requires Synchronised(net, adv) && Selects(net, r, dst, route) && route.mask != 0
    requires b in net && Topology(net, adv)(r, b)
    ensures Selects(net, b, dst, route') && SamePrefix(route', route)
  {
    hide RouterReady, Attached, Masked;
    var t := net[b].table;
    SelectedPrefix(net, adv, r, dst, route);
    AttachedShared(net, adv, r, b, route.dest, route.mask);
    PrefixesShared(net, adv, b, route.dest, route.mask);
    var q :| q in t && q.dest == route.dest && q.mask == route.mask;
    var j :| 0 <= j < |t| && t[j] == q;
    RoutesAreMasked(net, adv, b, j, dst);
    LongestPrefixIsBest(t, dst, |t|);
    route' := t[LongestPrefix(t, dst, |t|).value];
    assert route'.mask >= route.mask;
    SelectedPrefix(net, adv, b, dst, route');
    AttachedShared(net, adv, r, b, route'.dest, route'.mask);
  }

  /** path is the way a packet for dst takes from router to router until it is delivered. */
  ghost predicate Journey(net: Net, dst: Addr, path: seq<Addr>) {
    && |path| > 0
    && (forall i | 0 < i < |path| :: ForwardsTo(net, path[i - 1], dst, path[i]))
    && DeliversTo(net, path[|path| - 1], dst)
  }

  /** A packet reaches a router attached to its longest matching prefix in as few hops as possible. */
  lemma {:induction false} PacketArrives(net: Net, adv: Advertisements, r: Addr, dst: Addr, route: Route)
    returns (path: seq<Addr>, d: nat)
    requires Synchronised(net, adv) && Selects(net, r, dst, route) && route.mask != 0
    ensures NearestAttached(net, adv, r, route.dest, route.mask, d)
    ensures Journey(net, dst, path) && |path| == d + 1 && path[0] == r
  {
    hide Synchronised, Selects, NearestAttached, Journey;
    d := NearestExists(net, adv, r, dst, route);
    path := Follow(net, adv, r, dst, route, d);
  }

  lemma {:induction false} Follow(net: Net, adv: Advertisements, r: Addr, dst: Addr, route: Route, d: nat)
    returns (path: seq<Addr>)
    requires Synchronised(net, adv) && Selects(net, r, dst, route) && route.mask != 0
    requires NearestAttached(net, adv, r, route.dest, route.mask, d)
    ensures Journey(net, dst, path) && |path| == d + 1 && path[0] == r
    decreases d
  {
    hide Synchronised, Selects, NearestAttached, ForwardsTo, DeliversTo;
    var b, route' := ForwardingDescends(net, adv, r, dst, route, d);
    if d == 0 {
      path := [r];
    } else {
      var rest := Follow(net, adv, b, dst, route', d - 1);
      path := [r] + rest;
      forall i | 0 < i < |path| ensures ForwardsTo(net, path[i - 1], dst, path[i]) {
        assert path[i] == rest[i - 1];
        if i > 1 { assert path[i - 1] == rest[i - 2]; }
      }
    }
  }
}
