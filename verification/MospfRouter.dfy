/** A router of the link-state daemon: database, neighbours, routing table, and their upkeep. */
module MospfRouter {
  import opened Basics
  import opened Walks
  import opened MospfTypes
  import opened MospfSpf

  /** The adjacency of node positions. */
  ghost function Positions(db: seq<DbEntry>, nodes: seq<Addr>): (int, int) -> bool {
    (i: int, j: int) => 0 <= i < |nodes| && 0 <= j < |nodes| && Edge(db, nodes[i], nodes[j])
  }

  predicate DistinctNodes(nodes: seq<Addr>) {
    forall i, j | 0 <= i < j < |nodes| :: nodes[i] != nodes[j]
  }

  /** nodes lists the router itself first, then every other router of the database once. */
  ghost predicate NodeList(self: Addr, db: seq<DbEntry>, nodes: seq<Addr>) {
    && |nodes| > 0 && nodes[0] == self && DistinctNodes(nodes)
    && forall x :: x in nodes <==> x == self || Named(db, x)
  }

  /** hop is a neighbour of self from which target is one hop closer. */
  ghost predicate FirstHopTo(db: seq<DbEntry>, self: Addr, hop: Addr, target: Addr, d: nat) {
    d > 0 && Edge(db, self, hop) && Hops(Graph(db), hop, target, d - 1)
  }

  /** A first hop on a shortest path to every other reachable router. */
  ghost predicate FirstHops(self: Addr, db: seq<DbEntry>, hops: map<Addr, Addr>) {
    && (forall x :: x in hops <==> x != self && Reachable(Graph(db), self, x))
    && (forall x | x in hops ::
          exists d: nat :: IsDistance(Graph(db), self, x, d) && FirstHopTo(db, self, hops[x], x, d))
  }

  /** x is reachable over a neighbour whose address is known, and its advertisements are in the database. */
  ghost predicate Usable(ifaces: seq<Iface>, db: seq<DbEntry>, hops: map<Addr, Addr>, x: Addr) {
    x in hops && Resolve(ifaces, hops[x]).Some? && Entry(db, x).Some?
  }

  /** s describes router s.rid as seen from self. */
  ghost predicate SourceOk(self: Addr, ifaces: seq<Iface>, db: seq<DbEntry>, hops: map<Addr, Addr>, s: Source) {
    && Usable(ifaces, db, hops, s.rid)
    && IsDistance(Graph(db), self, s.rid, s.dist)
    && Resolve(ifaces, hops[s.rid]) == Some(s.hop)
    && Entry(db, s.rid).value.lsas == s.lsas
  }

  /** The usable routers, closest first. */
  ghost predicate SourcesOk(self: Addr, ifaces: seq<Iface>, db: seq<DbEntry>, hops: map<Addr, Addr>,
                            sources: seq<Source>)
  {
    && (forall k | 0 <= k < |sources| :: SourceOk(self, ifaces, db, hops, sources[k]))
    && (forall j, k | 0 <= j < k < |sources| :: sources[j].dist <= sources[k].dist)
    && (forall x | Usable(ifaces, db, hops, x) :: exists k | 0 <= k < |sources| :: sources[k].rid == x)
  }

  /** The routing table computed from a database. */
  ghost predicate IsRoutingTable(self: Addr, ifaces: seq<Iface>, db: seq<DbEntry>, table: seq<Route>) {
    exists hops, sources ::
      FirstHops(self, db, hops) && SourcesOk(self, ifaces, db, hops, sources)
      && table == Install(Direct(ifaces), sources)
  }

  method RidIndex(nodes: array<Addr>, n: nat, rid: Addr) returns (i: int)
    requires n <= nodes.Length
    ensures -1 <= i < n
    ensures i >= 0 ==> nodes[i] == rid
    ensures i < 0 <==> rid !in nodes[..n]
  {
    for k := 0 to n
      invariant rid !in nodes[..k]
    {
      if nodes[k] == rid { return k; }
    }
    return -1;
  }

  function CountLsas(db: seq<DbEntry>, n: nat): nat
    requires n <= |db|
  {
    if n == 0 then 0 else CountLsas(db, n - 1) + 1 + |db[n - 1].lsas|
  }

  /** nodes holds exactly what it held before, one router, and those the advertisements mention. */
  ghost predicate Covers(nodes: seq<Addr>, before: seq<Addr>, rid: Addr, lsas: seq<Lsa>) {
    forall x :: x in nodes <==> x in before || x == rid || Mentions(lsas, x)
  }

  lemma CoversNext(nodes: seq<Addr>, after: seq<Addr>, before: seq<Addr>, rid: Addr, lsas: seq<Lsa>, k: nat)
    requires k < |lsas| && Covers(nodes, before, rid, lsas[..k])
    requires forall x :: x in after <==> x in nodes || (lsas[k].rid != 0 && x == lsas[k].rid)
    ensures Covers(after, before, rid, lsas[..k + 1])
  {
    assert lsas[..k + 1] == lsas[..k] + [lsas[k]];
    forall x
      ensures Mentions(lsas[..k + 1], x) <==> Mentions(lsas[..k], x) || (x != 0 && x == lsas[k].rid)
    {
      if Mentions(lsas[..k], x) {
        var l :| l in lsas[..k] && l.rid == x;
        assert l in lsas[..k + 1];
      }
      if x != 0 && x == lsas[k].rid { assert lsas[k] in lsas[..k + 1]; }
    }
  }

  /** Appends a router to the node list unless it is already there. */
  method AddNode(nodes: array<Addr>, n: nat, rid: Addr) returns (m: nat)
    requires n < nodes.Length && DistinctNodes(nodes[..n])
    modifies nodes
    ensures n <= m <= n + 1 && DistinctNodes(nodes[..m])
    ensures nodes[..m] == if rid in old(nodes[..n]) then old(nodes[..n]) else old(nodes[..n]) + [rid]
    ensures forall x :: x in nodes[..m] <==> x in old(nodes[..n]) || x == rid
  {
    m := n;
    var i := RidIndex(nodes, n, rid);
    if i < 0 {
      nodes[m] := rid;
      m := m + 1;
      assert nodes[..m] == old(nodes[..n]) + [rid];
    }
  }

  /** Adds one entry's routers to the node list; the array never overflows. */
  method AddNodes(nodes: array<Addr>, n: nat, e: DbEntry) returns (m: nat)
    requires 0 < n && n + 1 + |e.lsas| <= nodes.Length && DistinctNodes(nodes[..n])
    modifies nodes
    ensures n <= m <= n + 1 + |e.lsas| && DistinctNodes(nodes[..m])
    ensures nodes[0] == old(nodes[0])
    ensures forall x :: x in nodes[..m] <==> x in old(nodes[..n]) || NamedBy(e, x)
  {
    ghost var before := nodes[..n];
    m := AddNode(nodes, n, e.rid);
    assert nodes[0] == nodes[..m][0] == before[0];
    for k := 0 to |e.lsas|
      invariant n <= m <= n + 1 + k && DistinctNodes(nodes[..m])
      invariant nodes[0] == before[0]
      invariant Covers(nodes[..m], before, e.rid, e.lsas[..k])
    {
      hide Covers, DistinctNodes;
      ghost var sofar := nodes[..m];
      var rid := e.lsas[k].rid;
      if rid != 0 {
        m := AddNode(nodes, m, rid);
        assert nodes[0] == nodes[..m][0] == sofar[0];
      }
      CoversNext(sofar, nodes[..m], before, e.rid, e.lsas, k);
    }
    assert e.lsas[..|e.lsas|] == e.lsas;
  }

  /** Marks the adjacencies advertised by one entry. */
  method AddEdges(n: nat, nodes: array<Addr>, graph: array2<bool>, e: DbEntry)
    requires n <= nodes.Length && DistinctNodes(nodes[..n]) && graph.Length0 == n && graph.Length1 == n
    requires forall x | NamedBy(e, x) :: x in nodes[..n]
    modifies graph
    ensures forall a, b | 0 <= a < n && 0 <= b < n ::
      graph[a, b] <==> old(graph[a, b]) || EntryEdge(e, nodes[a], nodes[b])
  {
    var i := RidIndex(nodes, n, e.rid);
    if i < 0 { return; }
    for k := 0 to |e.lsas|
      invariant forall a, b | 0 <= a < n && 0 <= b < n ::
        graph[a, b] <==> old(graph[a, b]) || EdgeAmong(e.rid, e.lsas[..k], nodes[a], nodes[b])
    {
      EdgesNext(e.rid, e.lsas, k);
      hide EdgeAmong;
      var rid := e.lsas[k].rid;
      if rid == 0 { continue; }
      var j := RidIndex(nodes, n, rid);
      if j < 0 || j == i { continue; }
      graph[i, j] := true;
      graph[j, i] := true;
    }
    assert e.lsas[..|e.lsas|] == e.lsas;
  }

  lemma EdgesNext(rid: Addr, lsas: seq<Lsa>, k: nat)
    requires k < |lsas|
    ensures forall a, b :: EdgeAmong(rid, lsas[..k + 1], a, b) <==>
      EdgeAmong(rid, lsas[..k], a, b) || LsaEdge(rid, lsas[k], a, b)
  {
    assert lsas[..k + 1] == lsas[..k] + [lsas[k]];
    forall a, b
      ensures EdgeAmong(rid, lsas[..k + 1], a, b) <==> EdgeAmong(rid, lsas[..k], a, b) || LsaEdge(rid, lsas[k], a, b)
    {
      if EdgeAmong(rid, lsas[..k], a, b) {
        var l :| l in lsas[..k] && LsaEdge(rid, l, a, b);
        assert l in lsas[..k + 1];
      }
      if LsaEdge(rid, lsas[k], a, b) { assert lsas[k] in lsas[..k + 1]; }
    }
  }

  // ---------------------------------------------------------------------
  // Positions and routers
  // ---------------------------------------------------------------------

  lemma {:induction false} PositionsToGraph(db: seq<DbEntry>, nodes: seq<Addr>, i: int, j: int, d: nat)
    requires 0 <= i < |nodes| && Hops<int>(Positions(db, nodes), i, j, d)
    ensures 0 <= j < |nodes| && Hops<Addr>(Graph(db), nodes[i], nodes[j], d)
    decreases d
  {
    hide Edge;
    if d > 0 {
      var c := LastHop<int>(Positions(db, nodes), i, j, d);
      PositionsToGraph(db, nodes, i, c, d - 1);
      assert Graph(db)(nodes[c], nodes[j]);
    }
  }

  lemma {:induction false} GraphToPositions(self: Addr, db: seq<DbEntry>, nodes: seq<Addr>, i: int, x: Addr, d: nat)
    returns (j: int)
    requires NodeList(self, db, nodes) && 0 <= i < |nodes| && Hops<Addr>(Graph(db), nodes[i], x, d)
    ensures 0 <= j < |nodes| && nodes[j] == x && Hops<int>(Positions(db, nodes), i, j, d)
    decreases d
  {
    if d == 0 {
      j := i;
    } else {
      var y := LastHop<Addr>(Graph(db), nodes[i], x, d);
      var c := GraphToPositions(self, db, nodes, i, y, d - 1);
      hide Hops;
      EdgeNamed(db, y, x);
      j :| 0 <= j < |nodes| && nodes[j] == x;
      assert Positions(db, nodes)(c, j);
      HopOne<int>(Positions(db, nodes), c, j);
      HopsConcat<int>(Positions(db, nodes), i, c, j, d - 1, 1);
    }
  }

  lemma EdgeNamed(db: seq<DbEntry>, a: Addr, b: Addr)
    requires Edge(db, a, b)
    ensures Edge(db, b, a) && Named(db, a) && Named(db, b) && a != b
  {
    var e :| e in db && EntryEdge(e, a, b);
    var l :| l in e.lsas && LsaEdge(e.rid, l, a, b);
    assert LsaEdge(e.rid, l, b, a);
    assert EntryEdge(e, b, a);
    assert Mentions(e.lsas, l.rid);
    assert NamedBy(e, a) && NamedBy(e, b);
  }

  lemma NodePositions(self: Addr, db: seq<DbEntry>, nodes: seq<Addr>, i: int, j: int)
    requires NodeList(self, db, nodes) && 0 <= i < |nodes| && 0 <= j < |nodes| && nodes[i] == nodes[j]
    ensures i == j
  {}

  /** Distances between positions are distances between routers. */
  lemma SameDistances(self: Addr, db: seq<DbEntry>, nodes: seq<Addr>, i: int)
    requires NodeList(self, db, nodes) && 0 <= i < |nodes|
    ensures Reachable<int>(Positions(db, nodes), 0, i) <==> Reachable<Addr>(Graph(db), self, nodes[i])
    ensures forall d: nat ::
      IsDistance<int>(Positions(db, nodes), 0, i, d) <==> IsDistance<Addr>(Graph(db), self, nodes[i], d)
  {
    forall d: nat
      ensures Hops<int>(Positions(db, nodes), 0, i, d) <==> Hops<Addr>(Graph(db), self, nodes[i], d)
    {
      if Hops<int>(Positions(db, nodes), 0, i, d) { PositionsToGraph(db, nodes, 0, i, d); }
      if Hops<Addr>(Graph(db), self, nodes[i], d) {
        var j := GraphToPositions(self, db, nodes, 0, nodes[i], d);
        NodePositions(self, db, nodes, i, j);
      }
    }
    hide Hops;
  }

  lemma ReachableNamed(self: Addr, db: seq<DbEntry>, nodes: seq<Addr>, x: Addr)
    requires NodeList(self, db, nodes) && Reachable<Addr>(Graph(db), self, x)
    ensures exists j :: 0 <= j < |nodes| && nodes[j] == x
  {
    var d: nat :| Hops<Addr>(Graph(db), self, x, d);
    var j := GraphToPositions(self, db, nodes, 0, x, d);
  }

  // ---------------------------------------------------------------------
  // Installing routes, closest routers first
  // ---------------------------------------------------------------------

  /** Position j comes before position i of round d. */
  predicate Processed(dist: seq<int>, d: int, i: int, j: int) {
    0 < j < |dist| && dist[j] != INT_MAX && (dist[j] < d || (dist[j] == d && j < i))
  }

  /** The first hops recorded so far are those of the processed positions. */
  ghost predicate HopsSoFar(self: Addr, db: seq<DbEntry>, nodes: seq<Addr>, dist: seq<int>, d: int, i: int,
                            hops: map<Addr, Addr>)
    requires |dist| == |nodes|
  {
    && (forall j | Processed(dist, d, i, j) :: nodes[j] in hops)
    && (forall x | x in hops :: exists j :: Processed(dist, d, i, j) && nodes[j] == x)
    && (forall x | x in hops :: HasFirstHop(self, db, x, hops[x]))
  }

  ghost predicate HasFirstHop(self: Addr, db: seq<DbEntry>, x: Addr, hop: Addr) {
    exists d: nat :: IsDistance(Graph(db), self, x, d) && FirstHopTo(db, self, hop, x, d)
  }

  lemma AllProcessed(self: Addr, db: seq<DbEntry>, nodes: seq<Addr>, dist: seq<int>, prev: seq<int>,
                     hops: map<Addr, Addr>)
    requires NodeList(self, db, nodes) && ShortestPathTree(|nodes|, Positions(db, nodes), dist, prev)
    requires HopsSoFar(self, db, nodes, dist, |nodes|, 1, hops)
    ensures FirstHops(self, db, hops)
  {
    hide Hops, IsDistance, FirstHopTo;
    forall x
      ensures x in hops <==> x != self && Reachable(Graph(db), self, x)
    {
      if x in hops {
        var j :| Processed(dist, |nodes|, 1, j) && nodes[j] == x;
        SameDistances(self, db, nodes, j);
        if x == self { NodePositions(self, db, nodes, 0, j); }
      }
      if x != self && Reachable(Graph(db), self, x) {
        ReachableNamed(self, db, nodes, x);
        var j :| 0 <= j < |nodes| && nodes[j] == x;
        SameDistances(self, db, nodes, j);
        assert Processed(dist, |nodes|, 1, j);
      }
    }
    forall x | x in hops
      ensures exists d: nat :: IsDistance(Graph(db), self, x, d) && FirstHopTo(db, self, hops[x], x, d)
    {
      assert HasFirstHop(self, db, x, hops[x]);
    }
  }

  lemma FirstHopFound(self: Addr, db: seq<DbEntry>, nodes: seq<Addr>, dist: seq<int>, prev: seq<int>, i: nat, hop: nat)
    requires NodeList(self, db, nodes) && ShortestPathTree(|nodes|, Positions(db, nodes), dist, prev)
    requires 0 < i < |nodes| && 0 < dist[i] < INT_MAX
    requires 0 < hop < |nodes| && Positions(db, nodes)(0, hop) && Hops<int>(Positions(db, nodes), hop, i, dist[i] - 1)
    ensures HasFirstHop(self, db, nodes[i], nodes[hop]) && IsDistance(Graph(db), self, nodes[i], dist[i])
  {
    hide Hops, IsDistance, Reachable;
    SameDistances(self, db, nodes, i);
    PositionsToGraph(db, nodes, hop, i, dist[i] - 1);
    assert FirstHopTo(db, self, nodes[hop], nodes[i], dist[i]);
  }

  /** Recording the first hop of one more position. */
  lemma HopRecorded(self: Addr, db: seq<DbEntry>, nodes: seq<Addr>, dist: seq<int>, d: int, i: nat, hop: Addr,
                    hops: map<Addr, Addr>)
    requires NodeList(self, db, nodes) && |dist| == |nodes|
    requires HopsSoFar(self, db, nodes, dist, d, i, hops) && 0 < i < |nodes| && dist[i] == d < INT_MAX
    requires HasFirstHop(self, db, nodes[i], hop)
    ensures nodes[i] !in hops
    ensures HopsSoFar(self, db, nodes, dist, d, i + 1, hops[nodes[i] := hop])
  {
    hide HasFirstHop;
    var x, h := nodes[i], hops[nodes[i] := hop];
    forall j | Processed(dist, d, i, j) && nodes[j] == x ensures false { NodePositions(self, db, nodes, i, j); }
    hide NodeList;
    forall y | y in h
      ensures exists j :: Processed(dist, d, i + 1, j) && nodes[j] == y
      ensures HasFirstHop(self, db, y, h[y])
    {
      if y == x {
        assert Processed(dist, d, i + 1, i);
      } else {
        var j :| Processed(dist, d, i, j) && nodes[j] == y;
        assert Processed(dist, d, i + 1, j);
      }
    }
    forall j | Processed(dist, d, i + 1, j) ensures nodes[j] in h {
      assert j == i || Processed(dist, d, i, j);
    }
  }

  /** Skipping a position that is not at distance d. */
  lemma HopSkipped(self: Addr, db: seq<DbEntry>, nodes: seq<Addr>, dist: seq<int>, d: int, i: int,
                   hops: map<Addr, Addr>, d': int, i': int)
    requires |dist| == |nodes| && HopsSoFar(self, db, nodes, dist, d, i, hops)
    requires forall j :: Processed(dist, d, i, j) <==> Processed(dist, d', i', j)
    ensures HopsSoFar(self, db, nodes, dist, d', i', hops)
  {
    forall x | x in hops ensures exists j :: Processed(dist, d', i', j) && nodes[j] == x {
      var j :| Processed(dist, d, i, j) && nodes[j] == x;
    }
  }

  /** A usable router becomes the last source; an unusable one is left out. */
  lemma SourceAdded(self: Addr, ifaces: seq<Iface>, db: seq<DbEntry>, hops: map<Addr, Addr>, sources: seq<Source>,
                    x: Addr, hop: Addr, d: nat, lsas: seq<Lsa>)
    requires SourcesOk(self, ifaces, db, hops, sources) && x !in hops && IsDistance(Graph(db), self, x, d)
    requires forall k | 0 <= k < |sources| :: sources[k].dist <= d
    ensures !Usable(ifaces, db, hops[x := hop], x) ==> SourcesOk(self, ifaces, db, hops[x := hop], sources)
    ensures Usable(ifaces, db, hops[x := hop], x) && Entry(db, x).value.lsas == lsas ==>
      SourcesOk(self, ifaces, db, hops[x := hop], sources + [Source(x, d, Resolve(ifaces, hop).value, lsas)])
  {
    hide IsDistance;
    var h := hops[x := hop];
    forall k | 0 <= k < |sources| ensures SourceOk(self, ifaces, db, h, sources[k]) {}
    forall y | Usable(ifaces, db, h, y) && y != x
      ensures exists k | 0 <= k < |sources| :: sources[k].rid == y
    {
      assert Usable(ifaces, db, hops, y);
    }
    if Usable(ifaces, db, h, x) && Entry(db, x).value.lsas == lsas {
      var more := sources + [Source(x, d, Resolve(ifaces, hop).value, lsas)];
      assert SourceOk(self, ifaces, db, h, more[|sources|]);
      forall y | Usable(ifaces, db, h, y)
        ensures exists k | 0 <= k < |more| :: more[k].rid == y
      {
        if y == x {
          assert more[|sources|].rid == x;
        } else {
          var k :| 0 <= k < |sources| && sources[k].rid == y;
          assert more[k].rid == y;
        }
      }
    }
  }

  // ---------------------------------------------------------------------
  // Flooding
  // ---------------------------------------------------------------------

  const MAX_LSU_TTL: u8 := 255
  const DEFAULT_TTL: u8 := 64

  datatype Lsu = Lsu(rid: Addr, sn: u16, ttl: u8, lsas: seq<Lsa>)

  /** An LSU in an IP packet; both carry a time to live. */
  datatype Packet = Packet(ipTtl: u8, lsu: Lsu)

  /** A packet sent to a neighbour's address over an interface. */
  datatype Copy = Copy(iface: nat, daddr: Addr, packet: Packet)

  /** The value of an integer converted to a 16-bit signed one. */
  function Short(x: int): int {
    (x + 0x8000) % 0x1_0000 - 0x8000
  }

  /** Circular order of 16-bit sequence numbers. */
  predicate Newer(a: u16, b: u16) {
    Short(a - b) > 0
  }

  function Decrement(x: u8): u8 {
    if x == 0 then 255 else x - 1
  }

  /** An LSU is taken unless it is the router's own or not newer than the one stored. */
  predicate TakesLsu(self: Addr, db: seq<DbEntry>, lsu: Lsu) {
    lsu.rid != self && (Entry(db, lsu.rid).Some? ==> Newer(lsu.sn, Entry(db, lsu.rid).value.sn))
  }

  /** The packet as it is passed on, if no time to live runs out. */
  function PassedOn(p: Packet): Option<Packet> {
    var lsu := p.lsu.(ttl := Decrement(p.lsu.ttl));
    if lsu.ttl == 0 || Decrement(p.ipTtl) == 0 then None
    else Some(Packet(Decrement(p.ipTtl), lsu))
  }

  function CopiesTo(i: nat, nbrs: seq<Nbr>, p: Packet, n: nat): seq<Copy>
    requires n <= |nbrs|
  {
    if n == 0 then [] else CopiesTo(i, nbrs, p, n - 1) + [Copy(i, nbrs[n - 1].ip, p)]
  }

  /** Copies to every neighbour on the first n interfaces, except one interface. */
  function Copies(ifaces: seq<Iface>, p: Packet, except: Option<nat>, n: nat): seq<Copy>
    requires n <= |ifaces|
  {
    if n == 0 then []
    else Copies(ifaces, p, except, n - 1)
         + if except == Some(n - 1) then [] else CopiesTo(n - 1, ifaces[n - 1].nbrs, p, |ifaces[n - 1].nbrs|)
  }

  function Forwarded(ifaces: seq<Iface>, inIface: nat, p: Packet): seq<Copy> {
    var q := PassedOn(p);
    if q.None? then [] else Copies(ifaces, q.value, Some(inIface), |ifaces|)
  }

  function NbrLsas(nbrs: seq<Nbr>, n: nat): seq<Lsa>
    requires n <= |nbrs|
  {
    if n == 0 then []
    else NbrLsas(nbrs, n - 1) + [Lsa(Masked(nbrs[n - 1].ip, nbrs[n - 1].mask), nbrs[n - 1].mask, nbrs[n - 1].id)]
  }

  /** What a router advertises: a stub prefix per lonely interface, or one prefix per neighbour. */
  function OwnLsas(ifaces: seq<Iface>, n: nat): seq<Lsa>
    requires n <= |ifaces|
  {
    if n == 0 then []
    else
      var i := ifaces[n - 1];
      OwnLsas(ifaces, n - 1)
      + if i.nbrs == [] then [Lsa(Masked(i.ip, i.mask), i.mask, 0)] else NbrLsas(i.nbrs, |i.nbrs|)
  }

  /** A neighbour shares the mask and subnet of the interface it was heard on. */
  predicate SameSubnet(i: Iface, b: Nbr) {
    b.mask == i.mask && Masked(b.ip, b.mask) == Masked(i.ip, i.mask)
  }

  predicate OnSubnet(ifaces: seq<Iface>) {
    forall i, b | 0 <= i < |ifaces| && b in ifaces[i].nbrs :: SameSubnet(ifaces[i], b)
  }

  /** A hello that makes its sender a new neighbour. */
  predicate Introduces(i: Iface, b: Nbr) {
    b.ip != i.ip && SameSubnet(i, b) && forall k | k in i.nbrs :: k.id != b.id || k.ip != b.ip
  }

  /** The neighbours of an interface after a hello. */
  function AfterHello(i: Iface, b: Nbr): seq<Nbr> {
    if Introduces(i, b) then i.nbrs + [b] else i.nbrs
  }

  /** A neighbour with this id and address is on the list. */
  predicate KnownAs(nbrs: seq<Nbr>, id: Addr, ip: Addr) {
    exists b :: b in nbrs && b.id == id && b.ip == ip
  }

  predicate DistinctNbrs(nbrs: seq<Nbr>) {
    forall j, k | 0 <= j < k < |nbrs| :: nbrs[j].id != nbrs[k].id || nbrs[j].ip != nbrs[k].ip
  }

  /** A neighbour is known after a hello exactly if it was, or if it sent the hello from this subnet. */
  lemma HelloLearns(i: Iface, b: Nbr, id: Addr, ip: Addr)
    ensures KnownAs(AfterHello(i, b), id, ip) <==>
      || KnownAs(i.nbrs, id, ip)
      || (id == b.id && ip == b.ip != i.ip && b.mask == i.mask && Masked(ip, i.mask) == Masked(i.ip, i.mask))
    ensures DistinctNbrs(i.nbrs) ==> DistinctNbrs(AfterHello(i, b))
  {
    hide Masked;
    var after := AfterHello(i, b);
    assert forall k | k in i.nbrs :: k in after;
    if Introduces(i, b) { assert b in after; }
  }

  // ---------------------------------------------------------------------
  // Longest prefix match
  // ---------------------------------------------------------------------

  predicate Matches(r: Route, dst: Addr) {
    Masked(dst, r.mask) == Masked(r.dest, r.mask)
  }

  /** The matching route with the largest mask among the first n, the earliest of those. */
  function LongestPrefix(table: seq<Route>, dst: Addr, n: nat): (r: Option<nat>)
    requires n <= |table|
    ensures r.Some? ==> r.value < n
  {
    if n == 0 then None
    else
      var best := LongestPrefix(table, dst, n - 1);
      if Matches(table[n - 1], dst) && (best.None? || table[n - 1].mask > table[best.value].mask) then Some(n - 1)
      else best
  }

  /** No route matches with a larger mask, and none with the same mask comes earlier. */
  lemma {:induction false} LongestPrefixIsBest(table: seq<Route>, dst: Addr, n: nat)
    requires n <= |table|
    ensures LongestPrefix(table, dst, n).None? <==> forall i | 0 <= i < n :: !Matches(table[i], dst)
    ensures LongestPrefix(table, dst, n).Some? ==> Matches(table[LongestPrefix(table, dst, n).value], dst)
    ensures LongestPrefix(table, dst, n).Some? ==>
      forall i | 0 <= i < n && Matches(table[i], dst) ::
        var b := LongestPrefix(table, dst, n).value;
        table[i].mask < table[b].mask || (table[i].mask == table[b].mask && b <= i)
  {
    if n > 0 { LongestPrefixIsBest(table, dst, n - 1); }
  }

  // ---------------------------------------------------------------------
  // The daemon
  // ---------------------------------------------------------------------

  lemma {:induction false} CountGrows(db: seq<DbEntry>, i: nat, j: nat)
    requires i <= j <= |db|
    ensures CountLsas(db, i) <= CountLsas(db, j)
    ensures i < j ==> CountLsas(db, i) + 1 + |db[i].lsas| <= CountLsas(db, j)
    decreases j
  {
    if i < j { CountGrows(db, i, j - 1); }
  }

  lemma NamedNext(db: seq<DbEntry>, i: nat)
    requires i < |db|
    ensures forall x :: Named(db[..i + 1], x) <==> Named(db[..i], x) || NamedBy(db[i], x)
  {
    assert db[..i + 1] == db[..i] + [db[i]];
    forall x
      ensures Named(db[..i + 1], x) <==> Named(db[..i], x) || NamedBy(db[i], x)
    {
      if Named(db[..i], x) {
        var e :| e in db[..i] && NamedBy(e, x);
        assert e in db[..i + 1];
      }
      if NamedBy(db[i], x) { assert db[i] in db[..i + 1]; }
    }
  }

  lemma EdgeNext(db: seq<DbEntry>, i: nat)
    requires i < |db|
    ensures forall a, b :: Edge(db[..i + 1], a, b) <==> Edge(db[..i], a, b) || EntryEdge(db[i], a, b)
  {
    assert db[..i + 1] == db[..i] + [db[i]];
    forall a, b
      ensures Edge(db[..i + 1], a, b) <==> Edge(db[..i], a, b) || EntryEdge(db[i], a, b)
    {
      if Edge(db[..i], a, b) {
        var e :| e in db[..i] && EntryEdge(e, a, b);
        assert e in db[..i + 1];
      }
      if EntryEdge(db[i], a, b) { assert db[i] in db[..i + 1]; }
    }
  }

  /** The list of routers, with the array sized for the worst case. */
  method CollectNodes(self: Addr, db: seq<DbEntry>) returns (nodes: array<Addr>, n: nat)
    ensures fresh(nodes) && 0 < n <= nodes.Length && NodeList(self, db, nodes[..n])
  {
    hide NamedBy, DistinctNodes, Named;
    nodes := new Addr[1 + CountLsas(db, |db|)](_ => 0);
    nodes[0] := self;
    n := 1;
    NoNodes(self, nodes[..1], db[..0]);
    for i := 0 to |db|
      invariant fresh(nodes) && nodes.Length == 1 + CountLsas(db, |db|)
      invariant 0 < n <= 1 + CountLsas(db, i) && n <= nodes.Length && DistinctNodes(nodes[..n]) && nodes[0] == self
      invariant forall x :: x in nodes[..n] <==> x == self || Named(db[..i], x)
    {
      CountGrows(db, i, |db|);
      NamedNext(db, i);
      n := AddNodes(nodes, n, db[i]);
    }
    CountGrows(db, |db|, |db|);
    assert db[..|db|] == db;
  }

  lemma NoNodes(self: Addr, nodes: seq<Addr>, db: seq<DbEntry>)
    requires nodes == [self] && db == []
    ensures DistinctNodes(nodes) && forall x :: x in nodes <==> x == self || Named(db, x)
  {}

  /** The adjacency matrix of the database. */
  method BuildGraph(ghost self: Addr, db: seq<DbEntry>, nodes: array<Addr>, n: nat) returns (graph: array2<bool>)
    requires 0 < n <= nodes.Length && NodeList(self, db, nodes[..n])
    ensures fresh(graph) && graph.Length0 == n && graph.Length1 == n
    ensures forall i, j | 0 <= i < n && 0 <= j < n :: graph[i, j] <==> Positions(db, nodes[..n])(i, j)
  {
    hide NamedBy, EntryEdge, DistinctNodes;
    graph := new bool[n, n]((_, _) => false);
    for i := 0 to |db|
      invariant fresh(graph) && graph.Length0 == n && graph.Length1 == n
      invariant forall a, b | 0 <= a < n && 0 <= b < n :: graph[a, b] <==> Edge(db[..i], nodes[a], nodes[b])
    {
      forall x | NamedBy(db[i], x) ensures x in nodes[..n] { assert Named(db, x); }
      EdgeNext(db, i);
      hide Edge;
      AddEdges(n, nodes, graph, db[i]);
    }
    assert db[..|db|] == db;
    assert forall i | 0 <= i < n :: nodes[..n][i] == nodes[i];
  }

  class Router {
    const id: Addr
    var sn: u16
    var ifaces: seq<Iface>
    var db: seq<DbEntry>
    var rtable: seq<Route>

    constructor (id: Addr, ifaces: seq<Iface>)
      ensures this.id == id && sn == 0 && this.ifaces == ifaces && db == [] && rtable == []
    {
      this.id := id;
      sn := 0;
      this.ifaces := ifaces;
      db := [];
      rtable := [];
    }

    method DbLookup(rid: Addr) returns (r: Option<nat>)
      ensures r == FindEntry(db, rid, |db|)
    {
      r := None;
      for i := 0 to |db|
        invariant FindEntry(db, rid, i).None?
      {
        if db[i].rid == rid {
          FindEntryFirst(db, rid, i, |db|);
          return Some(i);
        }
      }
    }

    method DbUpdate(rid: Addr, s: u16, lsas: seq<Lsa>)
      modifies this`db
      ensures db == Stored(old(db), rid, s, lsas)
    {
      var i := DbLookup(rid);
      if i.None? {
        db := db + [DbEntry(rid, s, DATABASE_TIMEOUT, lsas)];
      } else {
        db := db[i.value := DbEntry(rid, s, DATABASE_TIMEOUT, lsas)];
      }
    }

    method FindRidIp(rid: Addr) returns (h: Option<NextHop>)
      ensures h == FindHop(ifaces, rid, |ifaces|)
    {
      h := None;
      for i := 0 to |ifaces|
        invariant h == FindHop(ifaces, rid, i) == None
      {
        var nbrs := ifaces[i].nbrs;
        for k := 0 to |nbrs|
          invariant FindNbr(nbrs, rid, k).None?
        {
          if nbrs[k].id == rid {
            FindNbrFirst(nbrs, rid, k, |nbrs|);
            h := Some(NextHop(nbrs[k].ip, i));
            FindHopFirst(ifaces, rid, i + 1, |ifaces|);
            return;
          }
        }
      }
    }

    method DestInRtable(dest: Addr, mask: Addr) returns (found: bool)
      ensures found <==> InTable(rtable, dest, mask)
    {
      for i := 0 to |rtable|
        invariant forall k | 0 <= k < i :: rtable[k].dest != dest || rtable[k].mask != mask
      {
        if rtable[i].dest == dest && rtable[i].mask == mask { return true; }
      }
      return false;
    }

    /** Installs the advertisements of one router. */
    method InstallEntry(hop: NextHop, lsas: seq<Lsa>)
      modifies this`rtable
      ensures rtable == AddLsas(old(rtable), hop, lsas, |lsas|)
    {
      for k := 0 to |lsas|
        invariant rtable == AddLsas(old(rtable), hop, lsas, k)
      {
        var mask := lsas[k].mask;
        var dest := Masked(lsas[k].network, mask);
        if mask == 0 { continue; }
        var known := DestInRtable(dest, mask);
        if known { continue; }
        rtable := rtable + [Route(dest, mask, hop.gw, hop.iface)];
      }
    }

    /** Directly connected prefixes first. */
    method InstallDirect()
      modifies this`rtable
      ensures rtable == Direct(ifaces)
    {
      rtable := [];
      for i := 0 to |ifaces|
        invariant rtable == Direct(ifaces)[..i]
      {
        rtable := rtable + [Route(Masked(ifaces[i].ip, ifaces[i].mask), ifaces[i].mask, 0, i)];
      }
    }

    /** Routes through one reached position, if its first hop and its entry are known. */
    method InstallPosition(n: nat, nodes: array<Addr>, dist: seq<int>, prev: array<int>, i: nat,
                           ghost hops: map<Addr, Addr>, ghost sources: seq<Source>)
      returns (ghost hops': map<Addr, Addr>, ghost sources': seq<Source>)
      requires 0 < i < n <= nodes.Length && n <= MAX_NODES && prev.Length == n && |dist| == n && 0 < dist[i] < INT_MAX
      requires NodeList(id, db, nodes[..n]) && ShortestPathTree(n, Positions(db, nodes[..n]), dist, prev[..])
      requires HopsSoFar(id, db, nodes[..n], dist, dist[i], i, hops)
      requires SourcesOk(id, ifaces, db, hops, sources) && forall k | 0 <= k < |sources| :: sources[k].dist <= dist[i]
      requires rtable == Install(Direct(ifaces), sources)
      modifies this`rtable
      ensures HopsSoFar(id, db, nodes[..n], dist, dist[i], i + 1, hops')
      ensures SourcesOk(id, ifaces, db, hops', sources')
      ensures forall k | 0 <= k < |sources'| :: sources'[k].dist <= dist[i]
      ensures rtable == Install(Direct(ifaces), sources')
    {
      hide ShortestPathTree, NodeList, HopsSoFar, SourcesOk, HasFirstHop, IsDistance, Install;
      ghost var ns := nodes[..n];
      ghost var x := ns[i];
      var hop := FirstHop(n, prev, i, Positions(db, ns), dist);
      FirstHopFound(id, db, ns, dist, prev[..], i, hop);
      HopRecorded(id, db, ns, dist, dist[i], i, ns[hop], hops);
      hops' := hops[x := ns[hop]];
      sources' := sources;
      var next := FindRidIp(nodes[hop]);
      var e := DbLookup(nodes[i]);
      SourceAdded(id, ifaces, db, hops, sources, x, ns[hop], dist[i], if e.Some? then db[e.value].lsas else []);
      if next.None? || next.value.gw == 0 { return; }
      if e.None? { return; }
      var lsas := db[e.value].lsas;
      InstallEntry(next.value, lsas);
      sources' := sources + [Source(x, dist[i], next.value, lsas)];
      InstallNext(Direct(ifaces), sources, sources'[|sources|]);
    }

    /** Routes to all reached routers, by increasing distance. */
    method InstallRoutes(n: nat, nodes: array<Addr>, dist: seq<int>, prev: array<int>)
      requires 0 < n <= nodes.Length && n <= MAX_NODES && prev.Length == n && |dist| == n
      requires NodeList(id, db, nodes[..n]) && ShortestPathTree(n, Positions(db, nodes[..n]), dist, prev[..])
      modifies this`rtable
      ensures IsRoutingTable(id, ifaces, db, rtable)
    {
      hide ShortestPathTree, NodeList, HopsSoFar, SourcesOk, Install;
      InstallDirect();
      ghost var hops: map<Addr, Addr>, sources: seq<Source> := map[], [];
      ghost var ns := nodes[..n];
      NothingInstalled(id, ifaces, db, ns, dist, prev[..]);
      for d := 1 to n
        invariant HopsSoFar(id, db, ns, dist, d, 1, hops)
        invariant SourcesOk(id, ifaces, db, hops, sources) && forall k | 0 <= k < |sources| :: sources[k].dist <= d
        invariant rtable == Install(Direct(ifaces), sources)
      {
        for i := 1 to n
          invariant HopsSoFar(id, db, ns, dist, d, i, hops)
          invariant SourcesOk(id, ifaces, db, hops, sources) && forall k | 0 <= k < |sources| :: sources[k].dist <= d
          invariant rtable == Install(Direct(ifaces), sources)
        {
          if dist[i] != d {
            HopSkipped(id, db, ns, dist, d, i, hops, d, i + 1);
            continue;
          }
          hops, sources := InstallPosition(n, nodes, dist, prev, i, hops, sources);
        }
        HopSkipped(id, db, ns, dist, d, n, hops, d + 1, 1);
      }
      AllProcessed(id, db, ns, dist, prev[..], hops);
    }

    /** Recomputes the routing table from the database. */
    method UpdateRtable()
      requires forall nodes :: NodeList(id, db, nodes) ==> |nodes| <= MAX_NODES
      modifies this`rtable
      ensures IsRoutingTable(id, ifaces, db, rtable)
    {
      hide ShortestPathTree, IsRoutingTable;
      var nodes, n := CollectNodes(id, db);
      assert |nodes[..n]| <= MAX_NODES;
      var graph := BuildGraph(id, db, nodes, n);
      var dist, prev := Dijkstra(n, graph, Positions(db, nodes[..n]));
      TreeShape(n, Positions(db, nodes[..n]), dist[..], prev[..]);
      InstallRoutes(n, nodes, dist[..], prev);
    }

    /** The route a packet to dst takes. */
    method LongestPrefixMatch(dst: Addr) returns (r: Option<nat>)
      ensures r == LongestPrefix(rtable, dst, |rtable|)
    {
      r := None;
      for i := 0 to |rtable|
        invariant r == LongestPrefix(rtable, dst, i)
      {
        if Matches(rtable[i], dst) && (r.None? || rtable[i].mask > rtable[r.value].mask) {
          r := Some(i);
        }
      }
    }

    /** A copy to every neighbour of one interface. */
    static method SendTo(i: nat, nbrs: seq<Nbr>, p: Packet) returns (sent: seq<Copy>)
      ensures sent == CopiesTo(i, nbrs, p, |nbrs|)
    {
      sent := [];
      for k := 0 to |nbrs|
        invariant sent == CopiesTo(i, nbrs, p, k)
      {
        sent := sent + [Copy(i, nbrs[k].ip, p)];
      }
    }

    method SendCopies(p: Packet, except: Option<nat>) returns (out: seq<Copy>)
      ensures out == Copies(ifaces, p, except, |ifaces|)
    {
      hide CopiesTo;
      out := [];
      for i := 0 to |ifaces|
        invariant out == Copies(ifaces, p, except, i)
      {
        if except == Some(i) { continue; }
        var sent := SendTo(i, ifaces[i].nbrs, p);
        out := out + sent;
      }
    }

    /** One prefix per neighbour. */
    static method NbrPrefixes(nbrs: seq<Nbr>) returns (own: seq<Lsa>)
      ensures own == NbrLsas(nbrs, |nbrs|)
    {
      own := [];
      for k := 0 to |nbrs|
        invariant own == NbrLsas(nbrs, k)
      {
        own := own + [Lsa(Masked(nbrs[k].ip, nbrs[k].mask), nbrs[k].mask, nbrs[k].id)];
      }
    }

    method GenerateLsas() returns (lsas: seq<Lsa>)
      ensures lsas == OwnLsas(ifaces, |ifaces|)
    {
      hide NbrLsas, Masked;
      lsas := [];
      for i := 0 to |ifaces|
        invariant lsas == OwnLsas(ifaces, i)
      {
        var nbrs := ifaces[i].nbrs;
        if |nbrs| == 0 {
          lsas := lsas + [Lsa(Masked(ifaces[i].ip, ifaces[i].mask), ifaces[i].mask, 0)];
        } else {
          var own := NbrPrefixes(nbrs);
          lsas := lsas + own;
        }
      }
    }

    /** A new LSU, numbered with the next sequence number, goes to every neighbour. */
    method SendLsu() returns (out: seq<Copy>)
      modifies this`sn
      ensures sn == (old(sn) + 1) % 0x1_0000
      ensures var lsu := Lsu(id, sn, MAX_LSU_TTL, OwnLsas(ifaces, |ifaces|));
        out == Copies(ifaces, Packet(DEFAULT_TTL, lsu), None, |ifaces|)
    {
      sn := (sn + 1) % 0x1_0000;
      var lsas := GenerateLsas();
      out := SendCopies(Packet(DEFAULT_TTL, Lsu(id, sn, MAX_LSU_TTL, lsas)), None);
    }

    /** A hello from an unknown neighbour of the same subnet adds it to the interface and triggers a new LSU. */
    method HandleHello(i: nat, nbr: Nbr) returns (out: seq<Copy>)
      requires i < |ifaces|
      modifies this`ifaces, this`sn
      ensures ifaces == old(ifaces)[i := old(ifaces)[i].(nbrs := AfterHello(old(ifaces)[i], nbr))]
      ensures !Introduces(old(ifaces)[i], nbr) ==> sn == old(sn) && out == []
      ensures Introduces(old(ifaces)[i], nbr) ==>
        && sn == (old(sn) + 1) % 0x1_0000
        && (var lsu := Lsu(id, sn, MAX_LSU_TTL, OwnLsas(ifaces, |ifaces|));
            out == Copies(ifaces, Packet(DEFAULT_TTL, lsu), None, |ifaces|))
      ensures OnSubnet(old(ifaces)) ==> OnSubnet(ifaces)
    {
      out := [];
      if nbr.ip == ifaces[i].ip { return; }
      var mask := ifaces[i].mask;
      if nbr.mask != mask || Masked(ifaces[i].ip, mask) != Masked(nbr.ip, mask) { return; }
      for k := 0 to |ifaces[i].nbrs|
        invariant forall m | 0 <= m < k :: ifaces[i].nbrs[m].id != nbr.id || ifaces[i].nbrs[m].ip != nbr.ip
      {
        if ifaces[i].nbrs[k].id == nbr.id && ifaces[i].nbrs[k].ip == nbr.ip { return; }
      }
      ifaces := ifaces[i := ifaces[i].(nbrs := ifaces[i].nbrs + [nbr])];
      out := SendLsu();
    }

    /** Reception of an LSU on an interface: newer ones are stored, passed on, and used for routing. */
    method HandleLsu(inIface: nat, p: Packet) returns (out: seq<Copy>)
      requires forall nodes :: NodeList(id, Stored(db, p.lsu.rid, p.lsu.sn, p.lsu.lsas), nodes) ==> |nodes| <= MAX_NODES
      modifies this`db, this`rtable
      ensures db == if TakesLsu(id, old(db), p.lsu) then Stored(old(db), p.lsu.rid, p.lsu.sn, p.lsu.lsas) else old(db)
      ensures out == if TakesLsu(id, old(db), p.lsu) then Forwarded(ifaces, inIface, p) else []
      ensures TakesLsu(id, old(db), p.lsu) ==> IsRoutingTable(id, ifaces, db, rtable)
      ensures !TakesLsu(id, old(db), p.lsu) ==> rtable == old(rtable)
    {
      hide NodeList, IsRoutingTable, Copies;
      out := [];
      if p.lsu.rid == id { return; }
      var e := DbLookup(p.lsu.rid);
      if e.Some? && Short(p.lsu.sn - db[e.value].sn) <= 0 { return; }
      DbUpdate(p.lsu.rid, p.lsu.sn, p.lsu.lsas);
      var lsu := p.lsu.(ttl := Decrement(p.lsu.ttl));
      if lsu.ttl != 0 {
        out := ForwardLsu(inIface, p.(lsu := lsu));
      }
      UpdateRtable();
    }

    method ForwardLsu(inIface: nat, p: Packet) returns (out: seq<Copy>)
      ensures out == if Decrement(p.ipTtl) == 0 then []
                     else Copies(ifaces, p.(ipTtl := Decrement(p.ipTtl)), Some(inIface), |ifaces|)
    {
      var ttl := Decrement(p.ipTtl);
      if ttl == 0 { return []; }
      out := SendCopies(p.(ipTtl := ttl), Some(inIface));
    }
  }

  lemma {:induction false} FindEntryFirst(db: seq<DbEntry>, rid: Addr, i: nat, n: nat)
    requires i < n <= |db| && FindEntry(db, rid, i).None? && db[i].rid == rid
    ensures FindEntry(db, rid, n) == Some(i)
    decreases n
  {
    if n > i + 1 { FindEntryFirst(db, rid, i, n - 1); }
  }

  lemma {:induction false} FindNbrFirst(nbrs: seq<Nbr>, rid: Addr, i: nat, n: nat)
    requires i < n <= |nbrs| && FindNbr(nbrs, rid, i).None? && nbrs[i].id == rid
    ensures FindNbr(nbrs, rid, n) == Some(i)
    decreases n
  {
    if n > i + 1 { FindNbrFirst(nbrs, rid, i, n - 1); }
  }

  lemma {:induction false} FindHopFirst(ifaces: seq<Iface>, rid: Addr, i: nat, n: nat)
    requires i <= n <= |ifaces| && FindHop(ifaces, rid, i).Some?
    ensures FindHop(ifaces, rid, n) == FindHop(ifaces, rid, i)
    decreases n
  {
    if n > i { FindHopFirst(ifaces, rid, i, n - 1); }
  }

  lemma InstallNext(table: seq<Route>, sources: seq<Source>, s: Source)
    ensures Install(table, sources + [s]) == AddLsas(Install(table, sources), s.hop, s.lsas, |s.lsas|)
  {
    assert (sources + [s])[..|sources|] == sources;
  }

  lemma NothingInstalled(self: Addr, ifaces: seq<Iface>, db: seq<DbEntry>, nodes: seq<Addr>, dist: seq<int>,
                         prev: seq<int>)
    requires ShortestPathTree(|nodes|, Positions(db, nodes), dist, prev)
    ensures HopsSoFar(self, db, nodes, dist, 1, 1, map[])
    ensures SourcesOk(self, ifaces, db, map[], []) && Install(Direct(ifaces), []) == Direct(ifaces)
  {
    forall j | Processed(dist, 1, 1, j) ensures false { NoHops<int>(Positions(db, nodes), 0, j); }
  }
}
