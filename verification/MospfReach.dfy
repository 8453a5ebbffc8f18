/** Once the network has settled, every router reaches every address of every connected prefix. */
module MospfReach {
  import opened Basics
  import opened Walks
  import opened MospfTypes
  import opened MospfRouter
  import opened MospfRoutes
  import opened MospfFlooding
  import opened MospfDelivery
  import opened MospfNetwork
  import opened MospfPrefix
  import Forwarding = MospfForwarding

  // ---------------------------------------------------------------------
  // The advertised topology is that of the links
  // ---------------------------------------------------------------------

  /** Two routers are joined in what is advertised exactly if one has a neighbour port of the other. */
  lemma JoinedIsLinked(c: Config, net: Forwarding.Net, a: Addr, b: Addr)
    requires ValidConfig(c) && ValidAddressing(c) && net.Keys == c.ifaces.Keys && a != b
    ensures Forwarding.Joined(net, MospfDelivery.Advertised(c), a, b) <==> Linked(c, a, b)
  {
    hide OwnLsas, OnSubnet, Mentions;
    if a in c.ifaces { OwnMentions(c, a, b); }
    if Forwarding.Joined(net, MospfDelivery.Advertised(c), a, b) {
      var i, k :| 0 <= i < |c.ifaces[a]| && k in c.ifaces[a][i].nbrs && k.id == b;
      assert NbrPort(c, Port(a, i), c.port[k.ip]);
    }
    if Linked(c, a, b) {
      var i, q :| 0 <= i && NbrPort(c, Port(a, i), q) && q.router == b;
      var k :| k in c.ifaces[a][i].nbrs && k.ip in c.port && c.port[k.ip] == q;
      assert k.id == b && b in c.ifaces;
    }
  }

  lemma {:induction false} LinksJoin(c: Config, net: Forwarding.Net, a: Addr, b: Addr, d: nat)
    requires ValidConfig(c) && ValidAddressing(c) && net.Keys == c.ifaces.Keys
    requires Hops(Links(c), a, b, d)
    ensures Reachable(Forwarding.Topology(net, MospfDelivery.Advertised(c)), a, b)
    decreases d
  {
    hide ValidConfig, ValidAddressing, Linked, Forwarding.Joined, MospfDelivery.Advertised;
    var f := Forwarding.Topology(net, MospfDelivery.Advertised(c));
    if d == 0 {
      NoHops(f, a, b);
    } else {
      var m := LastHop(Links(c), a, b, d);
      LinksJoin(c, net, a, m, d - 1);
      if m != b {
        JoinedIsLinked(c, net, m, b);
        var e: nat :| Hops(f, a, m, e);
        HopOne(f, m, b);
        HopsConcat(f, a, m, b, e, 1);
      }
    }
  }

  // ---------------------------------------------------------------------
  // Every prefix is in every table
  // ---------------------------------------------------------------------

  ghost predicate OnPrefix(i: Iface, dst: Addr) {
    Masked(dst, i.mask) == Masked(i.ip, i.mask)
  }

  /** The prefix of every interface of the network is in the table of every router. */
  lemma EveryPrefixRouted(c: Config, w0: Network, moves: seq<Move>, w: Network, r: Addr, x: Addr, i: nat)
    requires NetSettled(c, w0, moves, w) && Connected(c) && ValidAddressing(c) && NetFits(c, w)
    requires r in c.ifaces && x in c.ifaces && i < |c.ifaces[x]| && c.ifaces[x][i].mask != 0
    ensures InTable(w.table[r], Masked(c.ifaces[x][i].ip, c.ifaces[x][i].mask), c.ifaces[x][i].mask)
  {
    hide NetSettled, Masked, Hops, Offered, InTable, Linked, OwnLsas, OnSubnet, Forwarding.Synchronised;
    var net, adv, f := Views(c, w.flood, w.table), MospfDelivery.Advertised(c), c.ifaces[x][i];
    SettledSynchronises(c, w0, moves, w);
    DirectHas(c.ifaces[x], i);
    OwnPrefixes(c.ifaces[x], Masked(f.ip, f.mask), f.mask);
    assert Reachable(Links(c), r, x);
    var d: nat :| Hops(Links(c), r, x, d);
    LinksJoin(c, net, r, x, d);
    assert Forwarding.Attached(net, adv, r, Masked(f.ip, f.mask), f.mask);
    Forwarding.PrefixesShared(net, adv, r, Masked(f.ip, f.mask), f.mask);
  }

  /** So every router selects a route for every address on such a prefix, at least as specific. */
  lemma RouteFound(table: seq<Route>, f: Iface, dst: Addr) returns (route: Route)
    requires InTable(table, Masked(f.ip, f.mask), f.mask) && OnPrefix(f, dst)
    ensures LongestPrefix(table, dst, |table|).Some?
    ensures route == table[LongestPrefix(table, dst, |table|).value]
    ensures route in table && Matches(route, dst) && route.mask >= f.mask
  {
    hide Masked, LongestPrefix;
    var q :| q in table && q.dest == Masked(f.ip, f.mask) && q.mask == f.mask;
    var i :| 0 <= i < |table| && table[i] == q;
    MaskedTwice(f.ip, f.mask);
    LongestPrefixIsBest(table, dst, |table|);
    route := table[LongestPrefix(table, dst, |table|).value];
  }

  /** The router delivers the packet over an interface on whose prefix the destination lies. */
  ghost predicate DeliversOn(c: Config, w: Network, r: Addr, f: Iface, dst: Addr) {
    && r in c.ifaces
    && exists j :: 0 <= j < |c.ifaces[r]| && OnPrefix(c.ifaces[r][j], dst) && c.ifaces[r][j].mask >= f.mask
  }

  /**
   In a settled network every packet for an address on the prefix of any interface of any router arrives,
   from wherever it is sent, and at a router with an interface on a prefix of the address at least that specific.
   */
  lemma EveryAddressReached(c: Config, w0: Network, moves: seq<Move>, w: Network, r: Addr, x: Addr, i: nat, dst: Addr)
    returns (path: seq<Addr>)
    requires NetSettled(c, w0, moves, w) && Connected(c) && ValidAddressing(c) && NetFits(c, w)
    requires r in c.ifaces && x in c.ifaces && i < |c.ifaces[x]| && c.ifaces[x][i].mask != 0
    requires OnPrefix(c.ifaces[x][i], dst)
    ensures Forwarding.Journey(Views(c, w.flood, w.table), dst, path) && path[0] == r
    ensures DeliversOn(c, w, path[|path| - 1], c.ifaces[x][i], dst)
  {
    hide NetSettled, Connected, ValidAddressing, LongestPrefix, Matches, Masked, InTable, Fits, IsRoutingTable,
      Forwarding.NearestAttached, OnPrefix;
    var net, f := Views(c, w.flood, w.table), c.ifaces[x][i];
    EveryPrefixRouted(c, w0, moves, w, r, x, i);
    var route := RouteFound(w.table[r], f, dst);
    var d;
    path, d := NetworkDelivers(c, w0, moves, w, r, dst, route);
    var last := path[|path| - 1];
    assert Forwarding.DeliversTo(net, last, dst);
    var end :| Forwarding.Selects(net, last, dst, end) && end.gw == 0;
    EveryPrefixRouted(c, w0, moves, w, last, x, i);
    var best := RouteFound(w.table[last], f, dst);
    SettledTables(c, w0, moves, w, last);
    LastInterface(c, w, last, f, dst, end);
  }

  lemma LastInterface(c: Config, w: Network, r: Addr, f: Iface, dst: Addr, route: Route)
    requires NetFits(c, w) && r in c.ifaces && TableCurrent(c, w, r) && route in w.table[r] && route.gw == 0
    requires Matches(route, dst) && route.mask >= f.mask
    ensures DeliversOn(c, w, r, f, dst)
  {
    hide Masked, IsRoutingTable, ValidConfig;
    RouteLeaves(r, c.ifaces[r], w.flood.db[r], w.table[r], route);
    MaskedTwice(c.ifaces[r][route.iface].ip, route.mask);
    assert OnPrefix(c.ifaces[r][route.iface], dst);
  }
}
