/** Addresses, link-state database and routing table of a router, with their lookups. */
module MospfTypes {
  import opened Basics
  import opened Bits

  /** An IPv4 address, mask or router id in host byte order. */
  type Addr = u32

  const DATABASE_TIMEOUT: int := 40

  /** One advertised prefix, and the neighbour reached over it (0 for a stub). */
  datatype Lsa = Lsa(network: Addr, mask: Addr, rid: Addr)

  datatype DbEntry = DbEntry(rid: Addr, sn: u16, alive: int, lsas: seq<Lsa>)

  datatype Nbr = Nbr(id: Addr, ip: Addr, mask: Addr)

  datatype Iface = Iface(ip: Addr, mask: Addr, nbrs: seq<Nbr>)

  /** gw is 0 for a directly connected prefix; iface is a position in the interface list. */
  datatype Route = Route(dest: Addr, mask: Addr, gw: Addr, iface: nat)

  /** A next hop: its address and the interface that leads to it. */
  datatype NextHop = NextHop(gw: Addr, iface: nat)

  /** An address with the bits outside the mask cleared. */
  function Masked(a: Addr, m: Addr): Addr {
    And(a, m)
  }

  /** Masking a masked address again changes nothing. */
  lemma MaskedTwice(a: Addr, m: Addr)
    ensures Masked(Masked(a, m), m) == Masked(a, m)
  {
    AndTwice(a, m);
  }

  // ---------------------------------------------------------------------
  // The database
  // ---------------------------------------------------------------------

  /** The position of the first entry for rid among the first n. */
  function FindEntry(db: seq<DbEntry>, rid: Addr, n: nat): (r: Option<nat>)
    requires n <= |db|
    ensures r.Some? ==> r.value < n && db[r.value].rid == rid
    ensures r.None? ==> forall i | 0 <= i < n :: db[i].rid != rid
  {
    if n == 0 then None
    else
      var earlier := FindEntry(db, rid, n - 1);
      if earlier.Some? then earlier
      else if db[n - 1].rid == rid then Some(n - 1)
      else None
  }

  function Entry(db: seq<DbEntry>, rid: Addr): (r: Option<DbEntry>)
    ensures r.Some? ==> r.value in db && r.value.rid == rid
    ensures r.None? ==> forall e | e in db :: e.rid != rid
  {
    var i := FindEntry(db, rid, |db|);
    if i.None? then None else Some(db[i.value])
  }

  /** At most one entry per router. */
  predicate UniqueEntries(db: seq<DbEntry>) {
    forall i, j | 0 <= i < j < |db| :: db[i].rid != db[j].rid
  }

  /** The database after a newer LSU: the router's entry is replaced, or appended if there was none. */
  function Stored(db: seq<DbEntry>, rid: Addr, sn: u16, lsas: seq<Lsa>): seq<DbEntry> {
    var i := FindEntry(db, rid, |db|);
    var e := DbEntry(rid, sn, DATABASE_TIMEOUT, lsas);
    if i.None? then db + [e] else db[i.value := e]
  }

  lemma {:induction false} FindEntryPrefix(a: seq<DbEntry>, b: seq<DbEntry>, rid: Addr, n: nat)
    requires n <= |a| && n <= |b| && forall i | 0 <= i < n :: a[i].rid == b[i].rid
    ensures FindEntry(a, rid, n) == FindEntry(b, rid, n)
  {
    if n > 0 { FindEntryPrefix(a, b, rid, n - 1); }
  }

  /** Storing changes the entry of one router only, and keeps entries unique. */
  lemma StoredLookup(db: seq<DbEntry>, rid: Addr, sn: u16, lsas: seq<Lsa>, x: Addr)
    ensures Entry(Stored(db, rid, sn, lsas), x)
      == if x == rid then Some(DbEntry(rid, sn, DATABASE_TIMEOUT, lsas)) else Entry(db, x)
    ensures UniqueEntries(db) ==> UniqueEntries(Stored(db, rid, sn, lsas))
  {
    var after := Stored(db, rid, sn, lsas);
    FindEntryPrefix(db, after, x, |db|);
    FindEntryPrefix(db, after, rid, |db|);
  }

  // ---------------------------------------------------------------------
  // Neighbours
  // ---------------------------------------------------------------------

  /** The position of the first neighbour with this id among the first n. */
  function FindNbr(nbrs: seq<Nbr>, id: Addr, n: nat): (r: Option<nat>)
    requires n <= |nbrs|
    ensures r.Some? ==> r.value < n && nbrs[r.value].id == id
    ensures r.None? ==> forall i | 0 <= i < n :: nbrs[i].id != id
  {
    if n == 0 then None
    else
      var earlier := FindNbr(nbrs, id, n - 1);
      if earlier.Some? then earlier
      else if nbrs[n - 1].id == id then Some(n - 1)
      else None
  }

  /** The address and interface of a neighbour, searched in interface order. */
  function FindHop(ifaces: seq<Iface>, id: Addr, n: nat): (r: Option<NextHop>)
    requires n <= |ifaces|
    ensures r.Some? ==>
      r.value.iface < n && exists b | b in ifaces[r.value.iface].nbrs :: b.id == id && b.ip == r.value.gw
    ensures r.None? ==> forall i, b | 0 <= i < n && b in ifaces[i].nbrs :: b.id != id
  {
    if n == 0 then None
    else
      var earlier := FindHop(ifaces, id, n - 1);
      if earlier.Some? then earlier
      else
        var nbrs := ifaces[n - 1].nbrs;
        var k := FindNbr(nbrs, id, |nbrs|);
        if k.Some? then
          assert nbrs[k.value] in nbrs;
          Some(NextHop(nbrs[k.value].ip, n - 1))
        else None
  }

  lemma {:induction false} FindNbrIsFirst(nbrs: seq<Nbr>, id: Addr, n: nat)
    requires n <= |nbrs|
    ensures FindNbr(nbrs, id, n).Some? ==> forall k | 0 <= k < FindNbr(nbrs, id, n).value :: nbrs[k].id != id
  {
    if n > 0 { FindNbrIsFirst(nbrs, id, n - 1); }
  }

  /** The first neighbour with the id has this address. */
  predicate FirstNbr(nbrs: seq<Nbr>, id: Addr, ip: Addr) {
    exists k :: 0 <= k < |nbrs| && nbrs[k].ip == ip && FirstAt(nbrs, id, k)
  }

  predicate FirstAt(nbrs: seq<Nbr>, id: Addr, k: nat) {
    k < |nbrs| && nbrs[k].id == id && forall j | 0 <= j < k :: nbrs[j].id != id
  }

  predicate NoNbr(nbrs: seq<Nbr>, id: Addr) {
    forall b | b in nbrs :: b.id != id
  }

  lemma FindNbrExactly(nbrs: seq<Nbr>, id: Addr)
    ensures var k := FindNbr(nbrs, id, |nbrs|);
      if k.Some? then k.value < |nbrs| && FirstNbr(nbrs, id, nbrs[k.value].ip) else NoNbr(nbrs, id)
  {
    FindNbrIsFirst(nbrs, id, |nbrs|);
    var k := FindNbr(nbrs, id, |nbrs|);
    hide FindNbr;
    assert k.Some? ==> FirstAt(nbrs, id, k.value);
  }

  /** The neighbour found is on the first interface that has one with the id, and the first such neighbour there. */
  lemma {:induction false} FindHopIsFirst(ifaces: seq<Iface>, id: Addr, n: nat)
    requires n <= |ifaces|
    ensures FindHop(ifaces, id, n).None? ==> forall i | 0 <= i < n :: NoNbr(ifaces[i].nbrs, id)
    ensures FindHop(ifaces, id, n).Some? ==>
      var h := FindHop(ifaces, id, n).value;
      && h.iface < n && FirstNbr(ifaces[h.iface].nbrs, id, h.gw)
      && forall i | 0 <= i < h.iface :: NoNbr(ifaces[i].nbrs, id)
  {
    hide FirstNbr, NoNbr, FindNbr;
    if n > 0 {
      FindHopIsFirst(ifaces, id, n - 1);
      FindNbrExactly(ifaces[n - 1].nbrs, id);
    }
  }

  /** A neighbour whose address is known and not 0. */
  function Resolve(ifaces: seq<Iface>, id: Addr): (r: Option<NextHop>)
    ensures r.Some? ==> r.value.gw != 0 && r.value.iface < |ifaces|
  {
    var h := FindHop(ifaces, id, |ifaces|);
    if h.Some? && h.value.gw != 0 then h else None
  }

  // ---------------------------------------------------------------------
  // The topology in a database
  // ---------------------------------------------------------------------

  /** An advertisement joins two different routers, in both directions. */
  predicate LsaEdge(rid: Addr, l: Lsa, a: Addr, b: Addr) {
    l.rid != 0 && a != b && ((a == rid && b == l.rid) || (b == rid && a == l.rid))
  }

  predicate EdgeAmong(rid: Addr, lsas: seq<Lsa>, a: Addr, b: Addr) {
    exists l | l in lsas :: LsaEdge(rid, l, a, b)
  }

  predicate EntryEdge(e: DbEntry, a: Addr, b: Addr) {
    EdgeAmong(e.rid, e.lsas, a, b)
  }

  ghost predicate Edge(db: seq<DbEntry>, a: Addr, b: Addr) {
    exists e | e in db :: EntryEdge(e, a, b)
  }

  /** The graph of routers described by a database. */
  ghost function Graph(db: seq<DbEntry>): (Addr, Addr) -> bool {
    (a: Addr, b: Addr) => Edge(db, a, b)
  }

  predicate Mentions(lsas: seq<Lsa>, x: Addr) {
    x != 0 && exists l | l in lsas :: l.rid == x
  }

  predicate NamedBy(e: DbEntry, x: Addr) {
    x == e.rid || Mentions(e.lsas, x)
  }

  /** The routers that occur in a database. */
  ghost predicate Named(db: seq<DbEntry>, x: Addr) {
    exists e | e in db :: NamedBy(e, x)
  }

  // ---------------------------------------------------------------------
  // Installing routes
  // ---------------------------------------------------------------------

  predicate InTable(table: seq<Route>, dest: Addr, mask: Addr) {
    exists r | r in table :: r.dest == dest && r.mask == mask
  }

  function DirectRoute(ifaces: seq<Iface>, i: nat): Route
    requires i < |ifaces|
  {
    Route(Masked(ifaces[i].ip, ifaces[i].mask), ifaces[i].mask, 0, i)
  }

  /** The directly connected prefixes, one per interface. */
  function Direct(ifaces: seq<Iface>): seq<Route> {
    seq(|ifaces|, i requires 0 <= i < |ifaces| => DirectRoute(ifaces, i))
  }

  function AddLsa(table: seq<Route>, hop: NextHop, l: Lsa): seq<Route> {
    if l.mask == 0 || InTable(table, Masked(l.network, l.mask), l.mask) then table
    else table + [Route(Masked(l.network, l.mask), l.mask, hop.gw, hop.iface)]
  }

  function AddLsas(table: seq<Route>, hop: NextHop, lsas: seq<Lsa>, n: nat): seq<Route>
    requires n <= |lsas|
  {
    if n == 0 then table else AddLsa(AddLsas(table, hop, lsas, n - 1), hop, lsas[n - 1])
  }

  /** A router whose advertisements are installed, its distance, and the next hop towards it. */
  datatype Source = Source(rid: Addr, dist: nat, hop: NextHop, lsas: seq<Lsa>)

  function Install(table: seq<Route>, sources: seq<Source>): seq<Route>
    decreases |sources|
  {
    if sources == [] then table
    else
      var s := sources[|sources| - 1];
      AddLsas(Install(table, sources[..|sources| - 1]), s.hop, s.lsas, |s.lsas|)
  }
}
