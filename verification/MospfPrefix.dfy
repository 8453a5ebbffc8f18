/** Prefixes as blocks of addresses: which destinations a route covers, and where a table sends them. */
module MospfPrefix {
  import opened Basics
  import opened Bits
  import opened Walks
  import opened MospfTypes
  import opened MospfRouter
  import opened MospfRoutes

  lemma WordSize()
    ensures Power2(32) == 0x1_0000_0000
  {
    assert Power2(8) == 0x100;
    assert Power2(16) == 0x1_0000;
    assert Power2(24) == 0x100_0000;
  }

  /** The mask with p leading ones. */
  function PrefixMask(p: nat): Addr
    requires p <= 32
  {
    WordSize();
    PowersGrow(32 - p, 32);
    Power2(32) - Power2(32 - p)
  }

  /** The address lies in the block of 2^(32-p) addresses that holds dest. */
  predicate InBlock(dest: Addr, p: nat, dst: Addr)
    requires p <= 32
  {
    var size := Power2(32 - p);
    var start := dest - dest % size;
    start <= dst < start + size
  }

  /** Masking with p leading ones gives the first address of the block. */
  lemma MaskedIsStart(a: Addr, p: nat)
    requires p <= 32
    ensures Masked(a, PrefixMask(p)) == a - a % Power2(32 - p)
  {
    WordSize();
    AndLeading(a, 32, 32 - p);
  }

  /** A route with such a mask matches exactly the addresses of its block. */
  lemma MatchesBlock(r: Route, p: nat, dst: Addr)
    requires p <= 32 && r.mask == PrefixMask(p)
    ensures Matches(r, dst) <==> InBlock(r.dest, p, dst)
  {
    hide PrefixMask, Masked, Power2;
    MaskedIsStart(r.dest, p);
    MaskedIsStart(dst, p);
    SameBlock(r.dest, dst, Power2(32 - p));
  }

  lemma {:induction false} PowersDiffer(a: nat, b: nat)
    ensures Power2(a) < Power2(b) <==> a < b
  {
    if a > 0 && b > 0 {
      PowersDiffer(a - 1, b - 1);
    } else {
      PowersGrow(0, a);
      PowersGrow(0, b);
    }
  }

  lemma LongerMask(p: nat, q: nat)
    requires p <= 32 && q <= 32
    ensures PrefixMask(p) < PrefixMask(q) <==> p < q
  {
    PowersDiffer(32 - q, 32 - p);
  }

  /** The masks of a table are prefixes of these lengths. */
  predicate HasLengths(table: seq<Route>, lens: seq<nat>) {
    |lens| == |table| && forall i | 0 <= i < |table| :: lens[i] <= 32 && table[i].mask == PrefixMask(lens[i])
  }

  /** The selected route has the longest prefix among the blocks that hold the destination. */
  lemma LongestPrefixIsLongest(table: seq<Route>, lens: seq<nat>, dst: Addr)
    requires HasLengths(table, lens)
    ensures LongestPrefix(table, dst, |table|).None? <==>
      forall i | 0 <= i < |table| :: !InBlock(table[i].dest, lens[i], dst)
    ensures LongestPrefix(table, dst, |table|).Some? ==>
      var b := LongestPrefix(table, dst, |table|).value;
      InBlock(table[b].dest, lens[b], dst)
    ensures LongestPrefix(table, dst, |table|).Some? ==>
      forall i | 0 <= i < |table| && InBlock(table[i].dest, lens[i], dst) ::
        var b := LongestPrefix(table, dst, |table|).value;
        lens[i] < lens[b] || (lens[i] == lens[b] && b <= i)
  {
    hide PrefixMask, InBlock, Matches;
    var b := LongestPrefix(table, dst, |table|);
    LongestPrefixIsBest(table, dst, |table|);
    forall i | 0 <= i < |table|
      ensures Matches(table[i], dst) <==> InBlock(table[i].dest, lens[i], dst)
      ensures b.Some? ==> (table[i].mask < table[b.value].mask <==> lens[i] < lens[b.value])
      ensures b.Some? ==> (table[b.value].mask < table[i].mask <==> lens[b.value] < lens[i])
    {
      MatchesBlock(table[i], lens[i], dst);
      if b.Some? {
        LongerMask(lens[i], lens[b.value]);
        LongerMask(lens[b.value], lens[i]);
      }
    }
    hide LongestPrefix;
  }

  /** A connected route leaves over an interface of its prefix, any other one over the interface of its gateway. */
  lemma RouteLeaves(self: Addr, ifaces: seq<Iface>, db: seq<DbEntry>, table: seq<Route>, r: Route)
    requires IsRoutingTable(self, ifaces, db, table) && r in table
    ensures r.iface < |ifaces|
    ensures r.gw == 0 ==> r.mask == ifaces[r.iface].mask && r.dest == Masked(ifaces[r.iface].ip, r.mask)
    ensures r.gw != 0 ==> exists b :: b in ifaces[r.iface].nbrs && b.ip == r.gw
  {
    hide Masked, InTable, IsDistance, FirstHops, IsRoutingTable, SamePrefix, FindHop;
    var hops := RoutesInstalled(self, ifaces, db, table);
    var i :| 0 <= i < |table| && table[i] == r;
    if i < |ifaces| {
      assert table[..|ifaces|][i] == Direct(ifaces)[i];
    } else {
      var x, d: nat :| ClosestRoute(self, ifaces, db, hops, r, x, d);
      assert Resolve(ifaces, hops[x]) == Some(NextHop(r.gw, r.iface));
      var b :| b in ifaces[r.iface].nbrs && b.id == hops[x] && b.ip == r.gw;
    }
  }
}
