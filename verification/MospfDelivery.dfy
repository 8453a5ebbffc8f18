/** After flooding has settled and tables have been computed, everything forwarding needs is in place. */
module MospfDelivery {
  import opened Basics
  import opened Walks
  import opened MospfTypes
  import opened MospfRouter
  import opened MospfRoutes
  import opened MospfFlooding
  import Forwarding = MospfForwarding

  /** Interface addresses are unique, and neighbours are recorded with their true router and address. */
  ghost predicate ValidAddressing(c: Config) {
    && 0 !in c.ifaces
    && (forall r, i | r in c.ifaces && 0 <= i < |c.ifaces[r]| ::
          c.ifaces[r][i].ip in c.port && c.port[c.ifaces[r][i].ip] == Port(r, i))
    && (forall ip | ip in c.port :: ValidPort(c, c.port[ip]) && c.ifaces[c.port[ip].router][c.port[ip].iface].ip == ip)
    && (forall r | r in c.ifaces :: OnSubnet(c.ifaces[r]))
    && (forall r, i, b | r in c.ifaces && 0 <= i < |c.ifaces[r]| && b in c.ifaces[r][i].nbrs ::
          b.ip != 0 && b.ip in c.port && c.port[b.ip].router == b.id)
  }

  /** What each router advertises once its neighbours are stable. */
  ghost function Advertised(c: Config): Forwarding.Advertisements {
    map r | r in c.ifaces :: OwnLsas(c.ifaces[r], |c.ifaces[r]|)
  }

  /** The routers as the forwarding model sees them, with these routing tables. */
  ghost function Views(c: Config, s: State, tables: map<Addr, seq<Route>>): Forwarding.Net
    requires Fits(c, s) && tables.Keys == c.ifaces.Keys
  {
    map r | r in c.ifaces :: Forwarding.View(c.ifaces[r], s.db[r], tables[r])
  }

  // ---------------------------------------------------------------------
  // What a router advertises
  // ---------------------------------------------------------------------

  ghost predicate NbrLsa(nbrs: seq<Nbr>, l: Lsa) {
    exists b | b in nbrs :: l == Lsa(Masked(b.ip, b.mask), b.mask, b.id)
  }

  ghost predicate IfaceLsa(i: Iface, l: Lsa) {
    if i.nbrs == [] then l == Lsa(Masked(i.ip, i.mask), i.mask, 0) else NbrLsa(i.nbrs, l)
  }

  lemma {:induction false} NbrLsasContents(nbrs: seq<Nbr>, n: nat, l: Lsa)
    requires n <= |nbrs|
    ensures l in NbrLsas(nbrs, n) <==> NbrLsa(nbrs[..n], l)
  {
    if n > 0 {
      NbrLsasContents(nbrs, n - 1, l);
      assert nbrs[..n] == nbrs[..n - 1] + [nbrs[n - 1]];
    }
  }

  lemma {:induction false} OwnLsasContents(ifaces: seq<Iface>, n: nat, l: Lsa)
    requires n <= |ifaces|
    ensures l in OwnLsas(ifaces, n) <==> exists i | 0 <= i < n :: IfaceLsa(ifaces[i], l)
  {
    hide NbrLsa, NbrLsas;
    if n > 0 {
      OwnLsasContents(ifaces, n - 1, l);
      var nbrs := ifaces[n - 1].nbrs;
      NbrLsasContents(nbrs, |nbrs|, l);
      assert nbrs[..|nbrs|] == nbrs;
    }
  }

  lemma AdvertisedIsAttached(ifaces: seq<Iface>, dest: Addr, mask: Addr)
    requires OnSubnet(ifaces) && Offered(OwnLsas(ifaces, |ifaces|), dest, mask)
    ensures InTable(Direct(ifaces), dest, mask)
  {
    hide Masked, OwnLsas, InTable, Direct;
    var l :| l in OwnLsas(ifaces, |ifaces|) && l.mask == mask && Masked(l.network, mask) == dest;
    OwnLsasContents(ifaces, |ifaces|, l);
    var i :| 0 <= i < |ifaces| && IfaceLsa(ifaces[i], l);
    MaskedTwice(ifaces[i].ip, mask);
    DirectHas(ifaces, i);
  }

  lemma DirectHas(ifaces: seq<Iface>, i: nat)
    requires i < |ifaces|
    ensures InTable(Direct(ifaces), Masked(ifaces[i].ip, ifaces[i].mask), ifaces[i].mask)
  {
    hide Masked;
    assert Direct(ifaces)[i] in Direct(ifaces);
  }

  lemma AttachedIsAdvertised(ifaces: seq<Iface>, dest: Addr, mask: Addr)
    requires OnSubnet(ifaces) && InTable(Direct(ifaces), dest, mask) && mask != 0
    ensures Offered(OwnLsas(ifaces, |ifaces|), dest, mask)
  {
    hide Masked, OwnLsas, InTable;
    var i := DirectIndex(ifaces, dest, mask);
    MaskedTwice(ifaces[i].ip, mask);
    var nbrs := ifaces[i].nbrs;
    var l := Lsa(dest, mask, if nbrs == [] then 0 else nbrs[0].id);
    if nbrs != [] { assert nbrs[0] in nbrs && SameSubnet(ifaces[i], nbrs[0]); }
    assert IfaceLsa(ifaces[i], l);
    OwnLsasContents(ifaces, |ifaces|, l);
  }

  lemma DirectIndex(ifaces: seq<Iface>, dest: Addr, mask: Addr) returns (i: nat)
    requires InTable(Direct(ifaces), dest, mask)
    ensures i < |ifaces| && ifaces[i].mask == mask && Masked(ifaces[i].ip, mask) == dest
  {
    var r :| r in Direct(ifaces) && r.dest == dest && r.mask == mask;
    i :| 0 <= i < |ifaces| && Direct(ifaces)[i] == r;
  }

  /** A router advertises exactly the prefixes of its interfaces. */
  lemma OwnPrefixes(ifaces: seq<Iface>, dest: Addr, mask: Addr)
    requires OnSubnet(ifaces) && mask != 0
    ensures Offered(OwnLsas(ifaces, |ifaces|), dest, mask) <==> InTable(Direct(ifaces), dest, mask)
  {
    hide OnSubnet, Offered, InTable, OwnLsas;
    if Offered(OwnLsas(ifaces, |ifaces|), dest, mask) { AdvertisedIsAttached(ifaces, dest, mask); }
    if InTable(Direct(ifaces), dest, mask) { AttachedIsAdvertised(ifaces, dest, mask); }
  }

  /** A router mentions exactly its neighbours. */
  lemma OwnMentions(c: Config, r: Addr, b: Addr)
    requires ValidAddressing(c) && r in c.ifaces
    ensures Mentions(OwnLsas(c.ifaces[r], |c.ifaces[r]|), b) <==>
      b != 0 && exists i, k | 0 <= i < |c.ifaces[r]| && k in c.ifaces[r][i].nbrs :: k.id == b
  {
    hide Masked, OwnLsas, OnSubnet;
    var ifaces := c.ifaces[r];
    var lsas := OwnLsas(ifaces, |ifaces|);
    if Mentions(lsas, b) {
      var l :| l in lsas && l.rid == b;
      OwnLsasContents(ifaces, |ifaces|, l);
    }
    if b != 0 {
      if i, k :| 0 <= i < |ifaces| && k in ifaces[i].nbrs && k.id == b {
        var l := Lsa(Masked(k.ip, k.mask), k.mask, k.id);
        assert IfaceLsa(ifaces[i], l);
        OwnLsasContents(ifaces, |ifaces|, l);
      }
    }
  }

  lemma MutualAdjacency(c: Config, a: Addr, b: Addr)
    requires ValidConfig(c) && ValidAddressing(c) && a in c.ifaces && Mentions(Advertised(c)[a], b)
    ensures b in c.ifaces && Mentions(Advertised(c)[b], a)
  {
    hide OwnLsas, OnSubnet, Mentions;
    OwnMentions(c, a, b);
    var i, k :| 0 <= i < |c.ifaces[a]| && k in c.ifaces[a][i].nbrs && k.id == b;
    var q := c.port[k.ip];
    assert NbrPort(c, Port(a, i), q);
    assert NbrPort(c, q, Port(a, i));
    var j :| j in c.ifaces[b][q.iface].nbrs && j.ip in c.port && c.port[j.ip] == Port(a, i);
    OwnMentions(c, b, a);
  }

  lemma NeighbourKnown(c: Config, a: Addr, b: Addr)
    requires ValidConfig(c) && ValidAddressing(c) && a in c.ifaces && Mentions(Advertised(c)[a], b)
    ensures Resolve(c.ifaces[a], b).Some? && var ip := Resolve(c.ifaces[a], b).value.gw;
      ip in c.port && c.port[ip].router == b
  {
    hide OwnLsas, OnSubnet, Mentions;
    OwnMentions(c, a, b);
    var h := FindHop(c.ifaces[a], b, |c.ifaces[a]|);
    assert h.Some?;
    var k :| k in c.ifaces[a][h.value.iface].nbrs && k.id == b && k.ip == h.value.gw;
  }

  // ---------------------------------------------------------------------
  // Complete databases
  // ---------------------------------------------------------------------

  ghost predicate Connected(c: Config) {
    forall a, b | a in c.ifaces && b in c.ifaces :: Reachable(Links(c), a, b)
  }

  /** Flooding has settled: every router has originated, and nothing is in flight. */
  ghost predicate Flooded(c: Config, s0: State, steps: seq<Step>, s: State) {
    StartState(c, s0) && Run(c, s0, steps, s) && s.flight == multiset{} && s.since == c.ifaces.Keys
  }

  /** Settled flooding leaves exactly the advertisements of the other routers in every database. */
  lemma FloodedIsComplete(c: Config, s0: State, steps: seq<Step>, s: State, tables: map<Addr, seq<Route>>, r: Addr)
    requires Flooded(c, s0, steps, s) && Connected(c) && r in c.ifaces && tables.Keys == c.ifaces.Keys
    ensures Inv(c, s) && Forwarding.Complete(Views(c, s, tables), Advertised(c), r)
  {
    hide Run, Consistent, ValidConfig, UniqueEntries, FloodInv, OwnLsas, Entry, Connected;
    RunKeepsInv(c, s0, steps, s);
    InvFits(c, s);
    FloodedEntry(c, s0, steps, s, r, r);
    forall x: Addr
      ensures Entry(s.db[r], x).Some? <==> x in c.ifaces && x != r
      ensures x in c.ifaces && x != r ==> Entry(s.db[r], x).value.lsas == OwnLsas(c.ifaces[x], |c.ifaces[x]|)
    {
      FloodedEntry(c, s0, steps, s, r, x);
    }
  }

  /** r's database has exactly the advertisement of x, if x is another router of the network. */
  ghost predicate HoldsOthers(c: Config, s: State, r: Addr, x: Addr) {
    && r in s.db && (Entry(s.db[r], x).Some? <==> x in c.ifaces && x != r)
    && (x in c.ifaces && x != r ==> Entry(s.db[r], x).value.lsas == OwnLsas(c.ifaces[x], |c.ifaces[x]|))
  }

  lemma FloodedEntry(c: Config, s0: State, steps: seq<Step>, s: State, r: Addr, x: Addr)
    requires Flooded(c, s0, steps, s) && Connected(c) && r in c.ifaces && Inv(c, s)
    ensures HoldsOthers(c, s, r, x) && UniqueEntries(s.db[r])
  {
    hide Run, MsgOk, ValidConfig, UniqueEntries, FloodInv, OwnLsas, Entry, Reachable;
    assert EntryOk(c, s, r, x);
    if x in c.ifaces && x != r { FloodingAgrees(c, s0, steps, s, x, r); }
  }

  lemma FloodedIsReady(c: Config, s0: State, steps: seq<Step>, s: State, tables: map<Addr, seq<Route>>, r: Addr)
    requires Flooded(c, s0, steps, s) && Connected(c) && ValidAddressing(c) && tables.Keys == c.ifaces.Keys
    requires Fits(c, s) && r in c.ifaces && IsRoutingTable(r, c.ifaces[r], s.db[r], tables[r])
    ensures Forwarding.RouterReady(Views(c, s, tables), Advertised(c), r)
  {
    hide Flooded, Connected, Offered, InTable, Mentions, IsRoutingTable, OwnLsas, Resolve, OnSubnet, ValidConfig,
      Forwarding.Complete, Forwarding.Owns;
    var net, adv := Views(c, s, tables), Advertised(c);
    FloodedIsComplete(c, s0, steps, s, tables, r);
    forall dest: Addr, mask: Addr | mask != 0
      ensures Offered(adv[r], dest, mask) <==> InTable(Direct(net[r].ifaces), dest, mask)
    {
      OwnPrefixes(c.ifaces[r], dest, mask);
    }
    forall b | b != r && Mentions(adv[r], b)
      ensures Resolve(net[r].ifaces, b).Some? && Forwarding.Owns(net, b, Resolve(net[r].ifaces, b).value.gw)
    {
      NeighbourKnown(c, r, b);
      AddressOwned(c, net, Resolve(net[r].ifaces, b).value.gw);
    }
  }

  /** Everything forwarding needs is in place once flooding has settled and every router has computed its table. */
  lemma FloodedIsSynchronised(c: Config, s0: State, steps: seq<Step>, s: State, tables: map<Addr, seq<Route>>)
    requires Flooded(c, s0, steps, s) && Connected(c) && ValidAddressing(c) && tables.Keys == c.ifaces.Keys
    requires Fits(c, s) && forall r | r in c.ifaces :: IsRoutingTable(r, c.ifaces[r], s.db[r], tables[r])
    ensures Forwarding.Synchronised(Views(c, s, tables), Advertised(c))
  {
    hide Flooded, Connected, Mentions, IsRoutingTable, OwnLsas, OnSubnet, ValidConfig, Forwarding.RouterReady,
      Forwarding.Owns;
    var net, adv := Views(c, s, tables), Advertised(c);
    forall a, b | a in net && Mentions(adv[a], b) ensures b in net && Mentions(adv[b], a) { MutualAdjacency(c, a, b); }
    forall r | r in net ensures Forwarding.RouterReady(net, adv, r) { FloodedIsReady(c, s0, steps, s, tables, r); }
    forall ip, a, b | Forwarding.Owns(net, a, ip) && Forwarding.Owns(net, b, ip) ensures a == b {
      OwnerIsPort(c, net, a, ip);
      OwnerIsPort(c, net, b, ip);
    }
  }

  lemma AddressOwned(c: Config, net: Forwarding.Net, ip: Addr)
    requires ValidAddressing(c) && net.Keys == c.ifaces.Keys && forall r | r in net :: net[r].ifaces == c.ifaces[r]
    requires ip in c.port
    ensures Forwarding.Owns(net, c.port[ip].router, ip)
  {
    var p := c.port[ip];
    assert c.ifaces[p.router][p.iface] in net[p.router].ifaces;
  }

  lemma OwnerIsPort(c: Config, net: Forwarding.Net, r: Addr, ip: Addr)
    requires ValidAddressing(c) && net.Keys == c.ifaces.Keys && forall r | r in net :: net[r].ifaces == c.ifaces[r]
    requires Forwarding.Owns(net, r, ip)
    ensures ip in c.port && c.port[ip].router == r
  {
    var i :| i in net[r].ifaces && i.ip == ip;
    var k :| 0 <= k < |c.ifaces[r]| && c.ifaces[r][k] == i;
  }
}
