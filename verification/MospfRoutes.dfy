/** Which routes end up in the table: all that are advertised, once each, towards a closest advertiser. */
module MospfRoutes {
  import opened Basics
  import opened Walks
  import opened MospfTypes
  import opened MospfRouter

  predicate SamePrefix(r: Route, s: Route) {
    r.dest == s.dest && r.mask == s.mask
  }

  /** The advertisement is for this prefix, and the mask is not 0. */
  predicate Offers(l: Lsa, dest: Addr, mask: Addr) {
    mask != 0 && l.mask == mask && Masked(l.network, mask) == dest
  }

  predicate Offered(lsas: seq<Lsa>, dest: Addr, mask: Addr) {
    exists l | l in lsas :: Offers(l, dest, mask)
  }

  /** What installing a router's advertisements adds to a table. */
  ghost predicate Extends(table: seq<Route>, table': seq<Route>, hop: NextHop, lsas: seq<Lsa>) {
    && |table| <= |table'| && table'[..|table|] == table
    && (forall i | |table| <= i < |table'| ::
          && table'[i].gw == hop.gw && table'[i].iface == hop.iface
          && Offered(lsas, table'[i].dest, table'[i].mask)
          && !InTable(table, table'[i].dest, table'[i].mask))
    && (forall i, j | |table| <= j < |table'| && 0 <= i < j :: !SamePrefix(table'[i], table'[j]))
  }

  lemma OfferedNext(lsas: seq<Lsa>, k: nat, dest: Addr, mask: Addr)
    requires k < |lsas|
    ensures Offered(lsas[..k + 1], dest, mask) <==> Offered(lsas[..k], dest, mask) || Offers(lsas[k], dest, mask)
  {
    assert lsas[..k + 1] == lsas[..k] + [lsas[k]];
    if Offered(lsas[..k], dest, mask) {
      var l :| l in lsas[..k] && Offers(l, dest, mask);
      assert l in lsas[..k + 1];
    }
    if Offers(lsas[k], dest, mask) { assert lsas[k] in lsas[..k + 1]; }
  }

  lemma AddLsaCovers(mid: seq<Route>, hop: NextHop, l: Lsa, dest: Addr, mask: Addr)
    ensures InTable(AddLsa(mid, hop, l), dest, mask) <==> InTable(mid, dest, mask) || Offers(l, dest, mask)
  {
    hide Masked;
    var after := AddLsa(mid, hop, l);
    if after != mid {
      assert after[|mid|] in after;
      if InTable(mid, dest, mask) {
        var q :| q in mid && q.dest == dest && q.mask == mask;
        assert q in after;
      }
    }
  }

  lemma {:induction false} AddLsasCovers(table: seq<Route>, hop: NextHop, lsas: seq<Lsa>, n: nat,
                                         dest: Addr, mask: Addr)
    requires n <= |lsas|
    ensures InTable(AddLsas(table, hop, lsas, n), dest, mask) <==>
      InTable(table, dest, mask) || Offered(lsas[..n], dest, mask)
  {
    hide InTable, Offers;
    if n > 0 {
      AddLsasCovers(table, hop, lsas, n - 1, dest, mask);
      AddLsaCovers(AddLsas(table, hop, lsas, n - 1), hop, lsas[n - 1], dest, mask);
      OfferedNext(lsas, n - 1, dest, mask);
    }
  }

  lemma AddLsaExtends(table: seq<Route>, mid: seq<Route>, hop: NextHop, lsas: seq<Lsa>, k: nat)
    requires k < |lsas| && Extends(table, mid, hop, lsas[..k])
    requires forall i | 0 <= i < |table| :: InTable(mid, table[i].dest, table[i].mask)
    ensures Extends(table, AddLsa(mid, hop, lsas[k]), hop, lsas[..k + 1])
  {
    hide Masked;
    var l := lsas[k];
    var after := AddLsa(mid, hop, l);
    assert after[..|table|] == after[..|mid|][..|table|];
    forall i | |table| <= i < |after|
      ensures Offered(lsas[..k + 1], after[i].dest, after[i].mask)
      ensures !InTable(table, after[i].dest, after[i].mask)
    {
      OfferedNext(lsas, k, after[i].dest, after[i].mask);
      if i < |mid| {
        assert after[i] == mid[i];
      }
    }
    forall i, j | |table| <= j < |after| && 0 <= i < j
      ensures !SamePrefix(after[i], after[j])
    {
      assert after[i] == mid[i] && mid[i] in mid;
      if j < |mid| { assert after[j] == mid[j]; }
    }
  }

  lemma {:induction false} AddLsasExtends(table: seq<Route>, hop: NextHop, lsas: seq<Lsa>, n: nat)
    requires n <= |lsas|
    ensures Extends(table, AddLsas(table, hop, lsas, n), hop, lsas[..n])
  {
    if n > 0 {
      AddLsasExtends(table, hop, lsas, n - 1);
      forall i | 0 <= i < |table|
        ensures InTable(AddLsas(table, hop, lsas, n - 1), table[i].dest, table[i].mask)
      {
        assert table[i] in table;
        AddLsasCovers(table, hop, lsas, n - 1, table[i].dest, table[i].mask);
      }
      AddLsaExtends(table, AddLsas(table, hop, lsas, n - 1), hop, lsas, n - 1);
    }
  }

  /** Source k is the first to offer the prefix of r, and r leads to it. */
  ghost predicate FirstOffer(sources: seq<Source>, k: nat, r: Route) {
    && k < |sources| && Offered(sources[k].lsas, r.dest, r.mask)
    && NextHop(r.gw, r.iface) == sources[k].hop
    && forall j | 0 <= j < k :: !Offered(sources[j].lsas, r.dest, r.mask)
  }

  ghost predicate HasFirstOffer(sources: seq<Source>, r: Route) {
    exists k: nat :: FirstOffer(sources, k, r)
  }

  ghost predicate SomeOffer(sources: seq<Source>, dest: Addr, mask: Addr) {
    exists k | 0 <= k < |sources| :: Offered(sources[k].lsas, dest, mask)
  }

  ghost predicate Installed(table: seq<Route>, table': seq<Route>, sources: seq<Source>) {
    && |table| <= |table'| && table'[..|table|] == table
    && (forall i | |table| <= i < |table'| ::
          !InTable(table, table'[i].dest, table'[i].mask) && HasFirstOffer(sources, table'[i]))
    && (forall i, j | |table| <= j < |table'| && 0 <= i < j :: !SamePrefix(table'[i], table'[j]))
  }

  lemma SomeOfferNext(sources: seq<Source>, s: Source, dest: Addr, mask: Addr)
    ensures SomeOffer(sources + [s], dest, mask) <==> SomeOffer(sources, dest, mask) || Offered(s.lsas, dest, mask)
  {
    hide Offered;
    var more := sources + [s];
    if SomeOffer(sources, dest, mask) {
      var k :| 0 <= k < |sources| && Offered(sources[k].lsas, dest, mask);
      assert more[k] == sources[k];
    }
    assert more[|sources|] == s;
  }

  /** Exactly the offered prefixes are added. */
  lemma {:induction false} InstallCovers(table: seq<Route>, sources: seq<Source>, dest: Addr, mask: Addr)
    ensures InTable(Install(table, sources), dest, mask) <==>
      InTable(table, dest, mask) || SomeOffer(sources, dest, mask)
    decreases |sources|
  {
    hide Offered, InTable, AddLsas;
    if sources != [] {
      var front, s := sources[..|sources| - 1], sources[|sources| - 1];
      InstallCovers(table, front, dest, mask);
      AddLsasCovers(Install(table, front), s.hop, s.lsas, |s.lsas|, dest, mask);
      assert s.lsas[..|s.lsas|] == s.lsas && sources == front + [s];
      SomeOfferNext(front, s, dest, mask);
    }
  }

  lemma InstalledNext(table: seq<Route>, mid: seq<Route>, after: seq<Route>, sources: seq<Source>, s: Source)
    requires Installed(table, mid, sources) && Extends(mid, after, s.hop, s.lsas)
    requires forall dest: Addr, mask: Addr :: InTable(mid, dest, mask) <==>
      InTable(table, dest, mask) || SomeOffer(sources, dest, mask)
    ensures Installed(table, after, sources + [s])
  {
    hide Offered;
    var more := sources + [s];
    assert after[..|table|] == after[..|mid|][..|table|];
    forall i | |table| <= i < |after|
      ensures !InTable(table, after[i].dest, after[i].mask) && HasFirstOffer(more, after[i])
    {
      if i < |mid| {
        assert after[i] == mid[i];
        var k: nat :| FirstOffer(sources, k, mid[i]);
        assert FirstOffer(more, k, after[i]);
      } else {
        assert !InTable(mid, after[i].dest, after[i].mask);
        assert FirstOffer(more, |sources|, after[i]);
      }
    }
    forall i, j | |table| <= j < |after| && 0 <= i < j
      ensures !SamePrefix(after[i], after[j])
    {
      if j < |mid| { assert after[i] == mid[i] && after[j] == mid[j]; }
    }
  }

  lemma {:induction false} InstallEffect(table: seq<Route>, sources: seq<Source>)
    ensures Installed(table, Install(table, sources), sources)
    decreases |sources|
  {
    hide Offered, InTable, AddLsas;
    if sources != [] {
      var front, s := sources[..|sources| - 1], sources[|sources| - 1];
      InstallEffect(table, front);
      AddLsasExtends(Install(table, front), s.hop, s.lsas, |s.lsas|);
      assert s.lsas[..|s.lsas|] == s.lsas && sources == front + [s];
      forall dest: Addr, mask: Addr
        ensures InTable(Install(table, front), dest, mask) <==>
          InTable(table, dest, mask) || SomeOffer(front, dest, mask)
      {
        InstallCovers(table, front, dest, mask);
      }
      InstalledNext(table, Install(table, front), Install(table, sources), front, s);
    }
  }

  // ---------------------------------------------------------------------
  // The routing table of a router
  // ---------------------------------------------------------------------

  /** Router x is usable and its entry in the database offers the prefix. */
  ghost predicate Advertiser(ifaces: seq<Iface>, db: seq<DbEntry>, hops: map<Addr, Addr>, x: Addr,
                             dest: Addr, mask: Addr)
  {
    Usable(ifaces, db, hops, x) && Offered(Entry(db, x).value.lsas, dest, mask)
  }

  ghost predicate Advertised(ifaces: seq<Iface>, db: seq<DbEntry>, hops: map<Addr, Addr>, dest: Addr, mask: Addr) {
    exists x :: Advertiser(ifaces, db, hops, x, dest, mask)
  }

  /** r leads over the first hop of a shortest path to a closest advertiser of its prefix. */
  ghost predicate ClosestRoute(self: Addr, ifaces: seq<Iface>, db: seq<DbEntry>, hops: map<Addr, Addr>, r: Route,
                               x: Addr, d: nat)
  {
    && Advertiser(ifaces, db, hops, x, r.dest, r.mask) && IsDistance(Graph(db), self, x, d)
    && Resolve(ifaces, hops[x]) == Some(NextHop(r.gw, r.iface))
    && forall y, e: nat | Advertiser(ifaces, db, hops, y, r.dest, r.mask) && IsDistance(Graph(db), self, y, e) :: d <= e
  }

  ghost predicate HasClosestRoute(self: Addr, ifaces: seq<Iface>, db: seq<DbEntry>, hops: map<Addr, Addr>, r: Route) {
    exists x, d: nat :: ClosestRoute(self, ifaces, db, hops, r, x, d)
  }

  /** The installed table, without mention of how it is computed. */
  ghost predicate TableOk(self: Addr, ifaces: seq<Iface>, db: seq<DbEntry>, hops: map<Addr, Addr>, table: seq<Route>) {
    && FirstHops(self, db, hops)
    && |ifaces| <= |table| && table[..|ifaces|] == Direct(ifaces)
    && (forall i | |ifaces| <= i < |table| ::
          && !InTable(Direct(ifaces), table[i].dest, table[i].mask)
          && HasClosestRoute(self, ifaces, db, hops, table[i]))
    && (forall i, j | |ifaces| <= j < |table| && 0 <= i < j :: !SamePrefix(table[i], table[j]))
    && (forall dest: Addr, mask: Addr :: InTable(table, dest, mask) <==>
          InTable(Direct(ifaces), dest, mask) || Advertised(ifaces, db, hops, dest, mask))
  }

  lemma OfferIsAdvertised(self: Addr, ifaces: seq<Iface>, db: seq<DbEntry>, hops: map<Addr, Addr>, sources: seq<Source>,
                          dest: Addr, mask: Addr)
    requires SourcesOk(self, ifaces, db, hops, sources)
    ensures SomeOffer(sources, dest, mask) <==> Advertised(ifaces, db, hops, dest, mask)
  {
    hide Offered, IsDistance, Entry, Resolve;
    if SomeOffer(sources, dest, mask) {
      var k :| 0 <= k < |sources| && Offered(sources[k].lsas, dest, mask);
      assert SourceOk(self, ifaces, db, hops, sources[k]);
      assert Advertiser(ifaces, db, hops, sources[k].rid, dest, mask);
    }
    if x :| Advertiser(ifaces, db, hops, x, dest, mask) {
      var k :| 0 <= k < |sources| && sources[k].rid == x;
      assert SourceOk(self, ifaces, db, hops, sources[k]);
    }
  }

  lemma FirstOfferIsClosest(self: Addr, ifaces: seq<Iface>, db: seq<DbEntry>, hops: map<Addr, Addr>,
                            sources: seq<Source>,
                            k: nat, r: Route)
    requires SourcesOk(self, ifaces, db, hops, sources) && FirstOffer(sources, k, r)
    ensures ClosestRoute(self, ifaces, db, hops, r, sources[k].rid, sources[k].dist)
  {
    hide Offered, Entry, Resolve, Hops;
    assert SourceOk(self, ifaces, db, hops, sources[k]);
    forall y, e: nat | Advertiser(ifaces, db, hops, y, r.dest, r.mask) && IsDistance(Graph(db), self, y, e)
      ensures sources[k].dist <= e
    {
      var j :| 0 <= j < |sources| && sources[j].rid == y;
      assert SourceOk(self, ifaces, db, hops, sources[j]);
      assert sources[j].dist == e;
    }
  }

  /**
   A prefix that is not directly connected has a route exactly when some reachable router with a
   resolvable first hop advertises it, never two, and the route is towards a closest such router.
   */
  lemma RoutesInstalled(self: Addr, ifaces: seq<Iface>, db: seq<DbEntry>, table: seq<Route>)
    returns (hops: map<Addr, Addr>)
    requires IsRoutingTable(self, ifaces, db, table)
    ensures TableOk(self, ifaces, db, hops, table)
  {
    hide InTable, ClosestRoute, Offered, SomeOffer, Advertised, SourcesOk, Install, FirstHops;
    var h, sources :| FirstHops(self, db, h) && SourcesOk(self, ifaces, db, h, sources)
      && table == Install(Direct(ifaces), sources);
    hops := h;
    InstallEffect(Direct(ifaces), sources);
    forall i | |ifaces| <= i < |table|
      ensures HasClosestRoute(self, ifaces, db, hops, table[i])
    {
      var k: nat :| FirstOffer(sources, k, table[i]);
      FirstOfferIsClosest(self, ifaces, db, hops, sources, k, table[i]);
    }
    forall dest: Addr, mask: Addr
      ensures InTable(table, dest, mask) <==>
        InTable(Direct(ifaces), dest, mask) || Advertised(ifaces, db, hops, dest, mask)
    {
      InstallCovers(Direct(ifaces), sources, dest, mask);
      OfferIsAdvertised(self, ifaces, db, hops, sources, dest, mask);
    }
  }

  // ---------------------------------------------------------------------
  // Every database has a routing table
  // ---------------------------------------------------------------------

  ghost function Routers(db: seq<DbEntry>): set<Addr> {
    (set e | e in db :: e.rid) + (set e, l | e in db && l in e.lsas :: l.rid)
  }

  lemma ReachableIsListed(self: Addr, db: seq<DbEntry>, x: Addr)
    requires x != self && Reachable(Graph(db), self, x)
    ensures x in Routers(db)
  {
    var d: nat :| Hops(Graph(db), self, x, d);
    NoHops(Graph(db), self, x);
    var c := LastHop(Graph(db), self, x, d);
    EdgeIsListed(db, c, x);
  }

  lemma EdgeIsListed(db: seq<DbEntry>, a: Addr, b: Addr)
    requires Edge(db, a, b)
    ensures b in Routers(db)
  {
    var e :| e in db && EntryEdge(e, a, b);
    var l :| l in e.lsas && LsaEdge(e.rid, l, a, b);
  }

  /** The distance of a reachable router. */
  ghost function Dist(self: Addr, db: seq<DbEntry>, x: Addr): (d: nat)
    requires Reachable(Graph(db), self, x)
    ensures IsDistance(Graph(db), self, x, d)
  {
    DistExists(self, db, x);
    var d: nat :| IsDistance(Graph(db), self, x, d);
    d
  }

  lemma DistExists(self: Addr, db: seq<DbEntry>, x: Addr)
    requires Reachable(Graph(db), self, x)
    ensures exists d: nat :: IsDistance(Graph(db), self, x, d)
  {
    var e: nat :| Hops(Graph(db), self, x, e);
    var d := DistanceExists(Graph(db), self, x, e);
  }

  lemma {:induction false} NearestOf(self: Addr, db: seq<DbEntry>, todo: set<Addr>) returns (x: Addr)
    requires todo != {} && forall y | y in todo :: Reachable(Graph(db), self, y)
    ensures x in todo && forall y | y in todo :: Dist(self, db, x) <= Dist(self, db, y)
    decreases |todo|
  {
    hide Dist, Reachable;
    x := Pick(todo);
    if todo != {x} {
      var z := NearestOf(self, db, todo - {x});
      if Dist(self, db, z) < Dist(self, db, x) { x := z; }
    }
  }

  lemma HopExists(self: Addr, db: seq<DbEntry>, x: Addr) returns (hop: Addr)
    requires x != self && Reachable(Graph(db), self, x)
    ensures HasFirstHop(self, db, x, hop)
  {
    var d := Dist(self, db, x);
    NoHops(Graph(db), self, x);
    hop := FirstStep(Graph(db), self, x, d);
    assert FirstHopTo(db, self, hop, x, d);
  }

  /** todo holds reachable routers that are not taken in yet. */
  ghost predicate Waiting(self: Addr, db: seq<DbEntry>, hops: map<Addr, Addr>, todo: set<Addr>) {
    forall x | x in todo :: x !in hops && x != self && Reachable(Graph(db), self, x)
  }

  ghost predicate HopsOk(self: Addr, db: seq<DbEntry>, hops: map<Addr, Addr>) {
    forall x | x in hops :: HasFirstHop(self, db, x, hops[x])
  }

  /** No router of todo is nearer than a source. */
  ghost predicate NoNearer(self: Addr, db: seq<DbEntry>, sources: seq<Source>, todo: set<Addr>) {
    forall k, x | 0 <= k < |sources| && x in todo && Reachable(Graph(db), self, x) ::
      sources[k].dist <= Dist(self, db, x)
  }

  /** Routers taken in by increasing distance make up a routing table. */
  lemma {:induction false} TableGrows(self: Addr, ifaces: seq<Iface>, db: seq<DbEntry>, hops: map<Addr, Addr>,
                                      sources: seq<Source>, todo: set<Addr>)
    returns (hops': map<Addr, Addr>, sources': seq<Source>)
    requires Waiting(self, db, hops, todo) && HopsOk(self, db, hops)
    requires SourcesOk(self, ifaces, db, hops, sources) && NoNearer(self, db, sources, todo)
    ensures hops'.Keys == hops.Keys + todo && HopsOk(self, db, hops') && SourcesOk(self, ifaces, db, hops', sources')
    decreases |todo|
  {
    hide Waiting, HopsOk, SourcesOk, NoNearer;
    if todo == {} { return hops, sources; }
    var x, hop, more := NextRouter(self, ifaces, db, hops, sources, todo);
    KeysMove(hops, todo, x, hop);
    hops', sources' := TableGrows(self, ifaces, db, hops[x := hop], more, todo - {x});
  }

  lemma KeysMove(hops: map<Addr, Addr>, todo: set<Addr>, x: Addr, hop: Addr)
    requires x in todo
    ensures hops[x := hop].Keys + (todo - {x}) == hops.Keys + todo && |todo - {x}| < |todo|
  {
    assert hops[x := hop].Keys == hops.Keys + {x};
  }

  /** A nearest of the routers still to be taken in, its first hop, and the sources with its advertisements. */
  lemma NextRouter(self: Addr, ifaces: seq<Iface>, db: seq<DbEntry>, hops: map<Addr, Addr>, sources: seq<Source>,
                   todo: set<Addr>)
    returns (x: Addr, hop: Addr, more: seq<Source>)
    requires todo != {} && Waiting(self, db, hops, todo) && HopsOk(self, db, hops)
    requires SourcesOk(self, ifaces, db, hops, sources) && NoNearer(self, db, sources, todo)
    ensures x in todo && Waiting(self, db, hops[x := hop], todo - {x}) && HopsOk(self, db, hops[x := hop])
    ensures SourcesOk(self, ifaces, db, hops[x := hop], more) && NoNearer(self, db, more, todo - {x})
  {
    hide Reachable, IsDistance, HasFirstHop, SourcesOk, Resolve, Graph;
    x := NearestOf(self, db, todo);
    hop := HopExists(self, db, x);
    more := SourceTaken(self, ifaces, db, hops, sources, x, hop, Dist(self, db, x));
  }

  lemma SourceTaken(self: Addr, ifaces: seq<Iface>, db: seq<DbEntry>, hops: map<Addr, Addr>, sources: seq<Source>,
                    x: Addr, hop: Addr, d: nat)
    returns (more: seq<Source>)
    requires SourcesOk(self, ifaces, db, hops, sources) && x !in hops && IsDistance(Graph(db), self, x, d)
    requires forall k | 0 <= k < |sources| :: sources[k].dist <= d
    ensures SourcesOk(self, ifaces, db, hops[x := hop], more)
    ensures forall k | 0 <= k < |more| :: (k < |sources| && more[k] == sources[k]) || more[k].dist == d
  {
    hide SourcesOk, IsDistance;
    var lsas := if Entry(db, x).Some? then Entry(db, x).value.lsas else [];
    SourceAdded(self, ifaces, db, hops, sources, x, hop, d, lsas);
    more := sources;
    if Usable(ifaces, db, hops[x := hop], x) {
      more := sources + [Source(x, d, Resolve(ifaces, hop).value, lsas)];
    }
  }

  /** Whatever a database holds, there is a routing table for it. */
  lemma TableExists(self: Addr, ifaces: seq<Iface>, db: seq<DbEntry>) returns (table: seq<Route>)
    ensures IsRoutingTable(self, ifaces, db, table)
  {
    hide Reachable, Hops, IsDistance;
    var todo := set x | x in Routers(db) && x != self && Reachable(Graph(db), self, x);
    var hops, sources := TableGrows(self, ifaces, db, map[], [], todo);
    forall x
      ensures x in hops <==> x != self && Reachable(Graph(db), self, x)
    {
      if x != self && Reachable(Graph(db), self, x) { ReachableIsListed(self, db, x); }
    }
    forall x | x in hops
      ensures exists d: nat :: IsDistance(Graph(db), self, x, d) && FirstHopTo(db, self, hops[x], x, d)
    {
      assert HasFirstHop(self, db, x, hops[x]);
    }
    assert FirstHops(self, db, hops);
    table := Install(Direct(ifaces), sources);
  }
}
