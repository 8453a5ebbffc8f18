/**
 Flooding of link-state updates through a network of routers with stable neighbours:
 once nothing is in flight, everybody holds the newest LSU of everybody.
 */
module MospfFlooding {
  import opened Basics
  import opened Walks
  import opened MospfTypes
  import opened MospfRouter

  datatype Port = Port(router: Addr, iface: nat)

  /** The interfaces of each router, and the port that owns each interface address. */
  datatype Config = Config(ifaces: map<Addr, seq<Iface>>, port: map<Addr, Port>)

  /** A packet on its way to a port. num counts the LSUs of its originator; only num % 2^16 is in the packet. */
  datatype Msg = Msg(dest: Port, packet: Packet, num: nat)

  /**
   Databases, and for the statements only: how many LSUs each router has originated (number), the count of
   the LSU held for each router (held), and which routers have originated since the start (since).
   */
  datatype State = State(
    db: map<Addr, seq<DbEntry>>, number: map<Addr, nat>, held: map<Addr, map<Addr, nat>>,
    since: set<Addr>, flight: multiset<Msg>)

  datatype Step = Originate(router: Addr) | Deliver(m: Msg) | Duplicate(m: Msg)

  ghost predicate ValidPort(c: Config, p: Port) {
    p.router in c.ifaces && p.iface < |c.ifaces[p.router]|
  }

  /** q is recorded as a neighbour on port p. */
  ghost predicate NbrPort(c: Config, p: Port, q: Port) {
    ValidPort(c, p) && exists b | b in c.ifaces[p.router][p.iface].nbrs :: b.ip in c.port && c.port[b.ip] == q
  }

  /** Neighbours are known by addresses of ports, and the ports of one segment all know each other. */
  ghost predicate ValidConfig(c: Config) {
    && (forall r, i, b | r in c.ifaces && 0 <= i < |c.ifaces[r]| && b in c.ifaces[r][i].nbrs ::
          b.ip in c.port && ValidPort(c, c.port[b.ip]))
    && (forall p, q | NbrPort(c, p, q) :: NbrPort(c, q, p))
    && (forall p, q, u | NbrPort(c, p, q) && NbrPort(c, q, u) && u != p :: NbrPort(c, p, u))
    && |c.ifaces| <= DEFAULT_TTL + 1
  }

  ghost predicate Linked(c: Config, a: Addr, b: Addr) {
    exists i, q | 0 <= i && NbrPort(c, Port(a, i), q) :: q.router == b
  }

  /** The messages that copies become. */
  ghost function Sent(c: Config, copies: seq<Copy>, num: nat): multiset<Msg> {
    if copies == [] then multiset{}
    else
      (if copies[0].daddr in c.port then multiset{Msg(c.port[copies[0].daddr], copies[0].packet, num)} else multiset{})
      + Sent(c, copies[1..], num)
  }

  ghost predicate Fits(c: Config, s: State) {
    && ValidConfig(c)
    && s.db.Keys == c.ifaces.Keys && s.number.Keys == c.ifaces.Keys && s.held.Keys == c.ifaces.Keys
    && s.since <= c.ifaces.Keys
    && (forall x | x in s.held :: s.held[x].Keys <= c.ifaces.Keys)
  }

  ghost function OwnPacket(c: Config, r: Addr, num: nat): Packet
    requires r in c.ifaces
  {
    Packet(DEFAULT_TTL, Lsu(r, num % 0x1_0000, MAX_LSU_TTL, OwnLsas(c.ifaces[r], |c.ifaces[r]|)))
  }

  ghost predicate Takes(s: State, m: Msg)
    requires m.dest.router in s.db
  {
    TakesLsu(m.dest.router, s.db[m.dest.router], m.packet.lsu)
  }

  ghost predicate Enabled(c: Config, s: State, step: Step)
    requires Fits(c, s)
  {
    match step
    case Originate(r) => r in c.ifaces
    case Deliver(m) => m in s.flight && ValidPort(c, m.dest) && m.packet.lsu.rid in c.ifaces
    case Duplicate(m) => m in s.flight
  }

  function Put(h: map<Addr, nat>, r: Addr, num: nat): map<Addr, nat> {
    h[r := num]
  }

  ghost function AfterOriginate(c: Config, s: State, r: Addr): State
    requires Fits(c, s) && r in c.ifaces
  {
    var num := s.number[r] + 1;
    s.(number := s.number[r := num], since := s.since + {r},
       flight := s.flight + Sent(c, Copies(c.ifaces[r], OwnPacket(c, r, num), None, |c.ifaces[r]|), num))
  }

  ghost function AfterDeliver(c: Config, s: State, m: Msg): State
    requires Fits(c, s) && ValidPort(c, m.dest) && m.packet.lsu.rid in c.ifaces
  {
    var x, lsu := m.dest.router, m.packet.lsu;
    if Takes(s, m) then
      s.(db := s.db[x := Stored(s.db[x], lsu.rid, lsu.sn, lsu.lsas)],
         held := s.held[x := Put(s.held[x], lsu.rid, m.num)],
         flight := s.flight - multiset{m} + Sent(c, Forwarded(c.ifaces[x], m.dest.iface, m.packet), m.num))
    else s.(flight := s.flight - multiset{m})
  }

  ghost function After(c: Config, s: State, step: Step): State
    requires Fits(c, s) && Enabled(c, s, step)
  {
    match step
    case Originate(r) => AfterOriginate(c, s, r)
    case Deliver(m) => AfterDeliver(c, s, m)
    case Duplicate(m) => s.(flight := s.flight + multiset{m})
  }

  // ---------------------------------------------------------------------
  // Sequence numbers
  // ---------------------------------------------------------------------

  /** The circular comparison tells whether a is ahead of b by less than half the number space. */
  lemma NewerIsAhead(a: nat, b: nat)
    ensures Newer(a % 0x1_0000, b % 0x1_0000) <==> 0 < (a - b) % 0x1_0000 < 0x8000
  {
    assert (a % 0x1_0000 - b % 0x1_0000) % 0x1_0000 == (a - b) % 0x1_0000;
  }

  /** While counts are less than half the space apart, the comparison is the true order. */
  lemma NewerIsLater(a: nat, b: nat)
    requires -0x8000 <= a - b < 0x8000
    ensures Newer(a % 0x1_0000, b % 0x1_0000) <==> a > b
  {
    NewerIsAhead(a, b);
  }

  /** Half the space ahead, a later LSU is refused. */
  lemma HalfSpaceIsTooFar(b: nat)
    ensures !Newer((b + 0x8000) % 0x1_0000, b % 0x1_0000)
  {
    NewerIsAhead(b + 0x8000, b);
  }

  /** The LSUs still around are fewer than half the sequence space old. */
  ghost predicate Live(s: State) {
    && (forall m | m in s.flight && m.packet.lsu.rid in s.number :: s.number[m.packet.lsu.rid] < m.num + 0x8000)
    && (forall x, r | x in s.held && r in s.held[x] && r in s.number :: s.number[r] < s.held[x][r] + 0x8000)
  }

  /** A run of live states. */
  ghost predicate Run(c: Config, s: State, steps: seq<Step>, s': State)
    requires Fits(c, s)
    decreases |steps|
  {
    if steps == [] then s == s'
    else
      && Live(s) && Enabled(c, s, steps[0]) && Fits(c, After(c, s, steps[0]))
      && Run(c, After(c, s, steps[0]), steps[1..], s')
  }

  // ---------------------------------------------------------------------
  // What is in flight and in the databases
  // ---------------------------------------------------------------------

  ghost predicate MsgOk(c: Config, s: State, m: Msg)
    requires Fits(c, s)
  {
    && ValidPort(c, m.dest) && m.packet.lsu.rid in c.ifaces
    && m.num <= s.number[m.packet.lsu.rid] && m.packet.lsu.sn == m.num % 0x1_0000
  }

  ghost predicate EntryOk(c: Config, s: State, x: Addr, r: Addr)
    requires Fits(c, s) && x in s.held
  {
    && (Entry(s.db[x], r).Some? <==> r in s.held[x]) && x !in s.held[x]
    && (r in s.held[x] ==> s.held[x][r] <= s.number[r] && Entry(s.db[x], r).value.sn == s.held[x][r] % 0x1_0000)
  }

  /** Nothing in flight or stored is newer than what its originator has sent, and databases have unique entries. */
  ghost predicate Consistent(c: Config, s: State) {
    && Fits(c, s)
    && (forall x | x in s.db :: UniqueEntries(s.db[x]))
    && (forall m | m in s.flight :: MsgOk(c, s, m))
    && (forall x, r | x in s.held :: EntryOk(c, s, x, r))
  }

  /** The router has r's newest LSU. */
  ghost predicate Has(s: State, x: Addr, r: Addr) {
    x == r || (x in s.held && r in s.held[x] && r in s.number && s.held[x][r] == s.number[r])
  }

  /** m carries r's newest LSU. */
  ghost predicate Newest(s: State, m: Msg, r: Addr) {
    m.packet.lsu.rid == r && r in s.number && m.num == s.number[r]
  }

  /** r's newest LSU is at the router or on its way to it. */
  ghost predicate Told(s: State, x: Addr, r: Addr) {
    Has(s, x, r) || exists m | m in s.flight :: m.dest.router == x && Newest(s, m, r)
  }

  /** A route of distinct routers that all have r's newest LSU. */
  ghost predicate FloodPath(c: Config, s: State, p: seq<Addr>, r: Addr) {
    && (forall i | 0 <= i < |p| :: p[i] in c.ifaces && Has(s, p[i], r))
    && (forall i, j | 0 <= i < j < |p| :: p[i] != p[j])
  }

  /** A newest LSU on its way: genuine, passed on by those that have it, and heading where others are told too. */
  ghost predicate Travels(c: Config, s: State, m: Msg, r: Addr)
    requires Fits(c, s) && r in c.ifaces
  {
    && m.packet.lsu.lsas == OwnLsas(c.ifaces[r], |c.ifaces[r]|)
    && TtlOk(c, s, m, r)
    && forall q | NbrPort(c, m.dest, q) :: Told(s, q.router, r)
  }

  /** Both times to live have been lowered once for every router passed. */
  ghost predicate TtlOk(c: Config, s: State, m: Msg, r: Addr) {
    exists p :: FloodPath(c, s, p, r) && |p| > 0 && m.packet.ipTtl == DEFAULT_TTL + 1 - |p|
      && m.packet.lsu.ttl == MAX_LSU_TTL + 1 - |p|
  }

  /** The flooding invariant for one originator. */
  ghost predicate FloodInv(c: Config, s: State, r: Addr)
    requires Fits(c, s) && r in c.ifaces
  {
    && (forall m | m in s.flight && Newest(s, m, r) :: Travels(c, s, m, r))
    && (forall x | x in c.ifaces && x != r && Has(s, x, r) ::
          Entry(s.db[x], r).Some? && Entry(s.db[x], r).value.lsas == OwnLsas(c.ifaces[r], |c.ifaces[r]|))
    && (forall p, q | NbrPort(c, p, q) && Has(s, p.router, r) :: Told(s, q.router, r))
  }

  ghost predicate Inv(c: Config, s: State) {
    Consistent(c, s) && forall r | r in s.since :: FloodInv(c, s, r)
  }

  // ---------------------------------------------------------------------
  // Copies reach exactly the neighbours
  // ---------------------------------------------------------------------

  ghost predicate KnowsAddress(nbrs: seq<Nbr>, ip: Addr) {
    exists b | b in nbrs :: b.ip == ip
  }

  lemma {:induction false} CopiesToContents(i: nat, nbrs: seq<Nbr>, p: Packet, n: nat, y: Copy)
    requires n <= |nbrs|
    ensures y in CopiesTo(i, nbrs, p, n) <==> y.iface == i && y.packet == p && KnowsAddress(nbrs[..n], y.daddr)
  {
    if n > 0 {
      CopiesToContents(i, nbrs, p, n - 1, y);
      assert nbrs[..n] == nbrs[..n - 1] + [nbrs[n - 1]];
    }
  }

  /** A copy goes to every neighbour on every interface but the excepted one, and to nobody else. */
  lemma {:induction false} CopiesContents(ifaces: seq<Iface>, p: Packet, except: Option<nat>, n: nat, y: Copy)
    requires n <= |ifaces|
    ensures y in Copies(ifaces, p, except, n) <==>
      y.iface < n && except != Some(y.iface) && y.packet == p && KnowsAddress(ifaces[y.iface].nbrs, y.daddr)
  {
    hide KnowsAddress, CopiesTo;
    if n > 0 {
      CopiesContents(ifaces, p, except, n - 1, y);
      var nbrs := ifaces[n - 1].nbrs;
      CopiesToContents(n - 1, nbrs, p, |nbrs|, y);
      assert nbrs[..|nbrs|] == nbrs;
    }
  }

  lemma {:induction false} SentContents(c: Config, copies: seq<Copy>, num: nat, m: Msg)
    ensures m in Sent(c, copies, num) <==>
      exists y | y in copies :: y.daddr in c.port && m == Msg(c.port[y.daddr], y.packet, num)
  {
    if copies != [] { SentContents(c, copies[1..], num, m); }
  }

  /** What a router sends: the packet, to the neighbour ports of its interfaces other than the excepted one. */
  lemma SpreadContents(c: Config, r: Addr, p: Packet, except: Option<nat>, num: nat, m: Msg)
    requires ValidConfig(c) && r in c.ifaces
    ensures m in Sent(c, Copies(c.ifaces[r], p, except, |c.ifaces[r]|), num) <==>
      m.packet == p && m.num == num && exists i: nat | except != Some(i) :: NbrPort(c, Port(r, i), m.dest)
  {
    var ifaces := c.ifaces[r];
    var copies := Copies(ifaces, p, except, |ifaces|);
    SentContents(c, copies, num, m);
    if m in Sent(c, copies, num) {
      var y :| y in copies && y.daddr in c.port && m == Msg(c.port[y.daddr], y.packet, num);
      CopiesContents(ifaces, p, except, |ifaces|, y);
      assert NbrPort(c, Port(r, y.iface), m.dest);
    }
    if m.packet == p && m.num == num {
      if i: nat :| except != Some(i) && NbrPort(c, Port(r, i), m.dest) {
        var b :| b in ifaces[i].nbrs && b.ip in c.port && c.port[b.ip] == m.dest;
        CopiesContents(ifaces, p, except, |ifaces|, Copy(i, b.ip, p));
      }
    }
  }

  /** What is sent is addressed to ports. */
  lemma SpreadFits(c: Config, r: Addr, p: Packet, except: Option<nat>, num: nat)
    requires ValidConfig(c) && r in c.ifaces
    ensures forall m | m in Sent(c, Copies(c.ifaces[r], p, except, |c.ifaces[r]|), num) ::
      ValidPort(c, m.dest) && m.packet == p && m.num == num
  {
    hide Sent, Copies;
    forall m | m in Sent(c, Copies(c.ifaces[r], p, except, |c.ifaces[r]|), num)
      ensures ValidPort(c, m.dest) && m.packet == p && m.num == num
    {
      SpreadContents(c, r, p, except, num, m);
      var i: nat :| except != Some(i) && NbrPort(c, Port(r, i), m.dest);
      NbrIsPort(c, Port(r, i), m.dest);
    }
  }

  lemma NbrIsPort(c: Config, p: Port, q: Port)
    requires ValidConfig(c) && NbrPort(c, p, q)
    ensures ValidPort(c, p) && ValidPort(c, q)
  {}

  // ---------------------------------------------------------------------
  // Steps keep databases consistent
  // ---------------------------------------------------------------------

  /** The 16-bit test accepts exactly the LSUs later than the one held. */
  lemma TakesIsLater(c: Config, s: State, m: Msg)
    requires Consistent(c, s) && Live(s) && m in s.flight
    ensures m.dest.router in s.db && m.packet.lsu.rid in c.ifaces
    ensures var x, r := m.dest.router, m.packet.lsu.rid;
      Takes(s, m) <==> r != x && (r in s.held[x] ==> m.num > s.held[x][r])
  {
    hide Entry, UniqueEntries, Newer, ValidConfig;
    var x, r := m.dest.router, m.packet.lsu.rid;
    assert MsgOk(c, s, m);
    assert EntryOk(c, s, x, r);
    if r in s.held[x] { NewerIsLater(m.num, s.held[x][r]); }
  }

  lemma AfterFits(c: Config, s: State, step: Step)
    requires Fits(c, s) && Enabled(c, s, step)
    ensures Fits(c, After(c, s, step))
  {
    hide ValidConfig, Stored, Takes;
  }

  lemma OriginateConsistent(c: Config, s: State, r: Addr)
    requires Consistent(c, s) && r in c.ifaces
    ensures Consistent(c, AfterOriginate(c, s, r))
  {
    hide ValidConfig, UniqueEntries, Sent, Copies, OwnLsas, Entry;
    var num := s.number[r] + 1;
    SpreadFits(c, r, OwnPacket(c, r, num), None, num);
    var s' := AfterOriginate(c, s, r);
    forall m | m in s'.flight ensures MsgOk(c, s', m) {
      if m in s.flight { assert MsgOk(c, s, m); }
    }
    forall x, y | x in s'.held ensures EntryOk(c, s', x, y) { assert EntryOk(c, s, x, y); }
  }

  lemma DeliverConsistent(c: Config, s: State, m: Msg)
    requires Consistent(c, s) && Live(s) && m in s.flight && ValidPort(c, m.dest) && m.packet.lsu.rid in c.ifaces
    ensures Consistent(c, AfterDeliver(c, s, m))
  {
    hide ValidConfig, UniqueEntries, Live, AfterDeliver, MsgOk, EntryOk;
    var s' := AfterDeliver(c, s, m);
    AfterFits(c, s, Deliver(m));
    forall w | w in s'.flight ensures MsgOk(c, s', w) { DeliverMessage(c, s, m, w); }
    forall y | y in s'.db ensures UniqueEntries(s'.db[y]) { DeliverUnique(c, s, m, y); }
    forall y, r | y in s'.held ensures EntryOk(c, s', y, r) { DeliverEntry(c, s, m, y, r); }
  }

  lemma DeliverMessage(c: Config, s: State, m: Msg, w: Msg)
    requires Consistent(c, s) && m in s.flight && ValidPort(c, m.dest) && m.packet.lsu.rid in c.ifaces
    requires w in AfterDeliver(c, s, m).flight && Fits(c, AfterDeliver(c, s, m))
    ensures MsgOk(c, AfterDeliver(c, s, m), w)
  {
    hide ValidConfig, UniqueEntries, Sent, Takes, Stored, Forwarded, MsgOk, EntryOk;
    if w in s.flight { assert MsgOk(c, s, w); } else { ForwardedOk(c, s, m, w); }
    MsgOkFrame(c, s, AfterDeliver(c, s, m), w);
  }

  lemma DeliverUnique(c: Config, s: State, m: Msg, y: Addr)
    requires Consistent(c, s) && m in s.flight && ValidPort(c, m.dest) && m.packet.lsu.rid in c.ifaces
    requires y in AfterDeliver(c, s, m).db
    ensures UniqueEntries(AfterDeliver(c, s, m).db[y])
  {
    hide ValidConfig, UniqueEntries, Sent, Takes, Stored, Forwarded, MsgOk, EntryOk;
    var lsu := m.packet.lsu;
    StoredLookup(s.db[m.dest.router], lsu.rid, lsu.sn, lsu.lsas, lsu.rid);
  }

  lemma MsgOkFrame(c: Config, s: State, s': State, m: Msg)
    requires Fits(c, s) && Fits(c, s') && MsgOk(c, s, m) && s'.number == s.number
    ensures MsgOk(c, s', m)
  {}

  lemma DeliverEntry(c: Config, s: State, m: Msg, y: Addr, r: Addr)
    requires Consistent(c, s) && Live(s) && m in s.flight && ValidPort(c, m.dest) && m.packet.lsu.rid in c.ifaces
    requires Fits(c, AfterDeliver(c, s, m)) && y in s.held
    ensures EntryOk(c, AfterDeliver(c, s, m), y, r)
  {
    hide ValidConfig, UniqueEntries, Sent, Takes, Live, Stored, Forwarded, MsgOk;
    assert EntryOk(c, s, y, r);
    if Takes(s, m) && y == m.dest.router {
      DeliverTaken(c, s, m, r);
    }
  }

  lemma DeliverTaken(c: Config, s: State, m: Msg, r: Addr)
    requires Consistent(c, s) && Live(s) && m in s.flight && ValidPort(c, m.dest) && m.packet.lsu.rid in c.ifaces
    requires Fits(c, AfterDeliver(c, s, m)) && Takes(s, m)
    ensures EntryOk(c, AfterDeliver(c, s, m), m.dest.router, r)
  {
    hide ValidConfig, UniqueEntries, Live, Sent, Takes, Stored, Forwarded, EntryOk;
    TakesIsLater(c, s, m);
    assert MsgOk(c, s, m);
    assert EntryOk(c, s, m.dest.router, r);
    StoredEntryOk(c, s, AfterDeliver(c, s, m), m.dest.router, m.packet.lsu, m.num, r);
  }

  lemma StoredEntryOk(c: Config, s: State, s': State, x: Addr, lsu: Lsu, num: nat, r: Addr)
    requires Fits(c, s) && Fits(c, s') && x in s.held && EntryOk(c, s, x, r)
    requires lsu.rid in s.number && lsu.rid != x && num <= s.number[lsu.rid] && lsu.sn == num % 0x1_0000
    requires s'.number == s.number && s'.held[x] == Put(s.held[x], lsu.rid, num)
    requires s'.db[x] == Stored(s.db[x], lsu.rid, lsu.sn, lsu.lsas)
    ensures EntryOk(c, s', x, r)
  {
    hide ValidConfig, Entry, Stored, UniqueEntries;
    StoredLookup(s.db[x], lsu.rid, lsu.sn, lsu.lsas, r);
  }

  lemma ForwardedOk(c: Config, s: State, m: Msg, w: Msg)
    requires Fits(c, s) && MsgOk(c, s, m)
    requires w in Sent(c, Forwarded(c.ifaces[m.dest.router], m.dest.iface, m.packet), m.num)
    ensures MsgOk(c, s, w) && PassedOn(m.packet) == Some(w.packet) && w.num == m.num
  {
    hide ValidConfig, Sent, Copies;
    var x := m.dest.router;
    SentNothing(c, m.num);
    if PassedOn(m.packet).Some? {
      SpreadFits(c, x, PassedOn(m.packet).value, Some(m.dest.iface), m.num);
    }
  }

  lemma SentNothing(c: Config, num: nat)
    ensures Sent(c, [], num) == multiset{}
  {}

  // ---------------------------------------------------------------------
  // Deliveries keep what has been achieved
  // ---------------------------------------------------------------------

  /** The conditions under which a delivery happens in a run. */
  ghost predicate Delivery(c: Config, s: State, m: Msg) {
    && Consistent(c, s) && Live(s) && m in s.flight && ValidPort(c, m.dest) && m.packet.lsu.rid in c.ifaces
  }

  lemma HasPersists(c: Config, s: State, m: Msg, x: Addr, r: Addr)
    requires Delivery(c, s, m) && Has(s, x, r)
    ensures Has(AfterDeliver(c, s, m), x, r)
  {
    hide ValidConfig, UniqueEntries, Sent, Entry, Takes, Live, Stored;
    TakesIsLater(c, s, m);
    assert MsgOk(c, s, m);
  }

  /** A delivered newest LSU is at its destination afterwards. */
  lemma DeliveredHas(c: Config, s: State, m: Msg, r: Addr)
    requires Delivery(c, s, m) && Newest(s, m, r)
    ensures Has(AfterDeliver(c, s, m), m.dest.router, r)
  {
    hide ValidConfig, UniqueEntries, Sent, Entry, Takes, Live, Stored;
    TakesIsLater(c, s, m);
    assert EntryOk(c, s, m.dest.router, r);
  }

  lemma ToldPersists(c: Config, s: State, m: Msg, x: Addr, r: Addr)
    requires Delivery(c, s, m) && Told(s, x, r)
    ensures Told(AfterDeliver(c, s, m), x, r)
  {
    hide MsgOk, EntryOk, UniqueEntries, ValidConfig, Sent, Takes, Live, Stored;
    if Has(s, x, r) {
      HasPersists(c, s, m, x, r);
    } else {
      var w :| w in s.flight && w.dest.router == x && Newest(s, w, r);
      if w == m {
        DeliveredHas(c, s, m, r);
      } else {
        assert w in AfterDeliver(c, s, m).flight;
      }
    }
  }

  lemma RoutePersists(c: Config, s: State, m: Msg, p: seq<Addr>, r: Addr)
    requires Delivery(c, s, m) && FloodPath(c, s, p, r)
    ensures FloodPath(c, AfterDeliver(c, s, m), p, r)
  {
    hide MsgOk, EntryOk, UniqueEntries, ValidConfig, Live, AfterDeliver, Has;
    forall i | 0 <= i < |p| ensures Has(AfterDeliver(c, s, m), p[i], r) {
      assert Has(s, p[i], r);
      HasPersists(c, s, m, p[i], r);
    }
  }

  lemma TravelsPersists(c: Config, s: State, m: Msg, w: Msg, r: Addr)
    requires Delivery(c, s, m) && r in c.ifaces && Fits(c, s) && Travels(c, s, w, r)
    requires Fits(c, AfterDeliver(c, s, m))
    ensures Travels(c, AfterDeliver(c, s, m), w, r)
  {
    hide MsgOk, EntryOk, UniqueEntries, ValidConfig, Live, AfterDeliver, Has, Told, FloodPath;
    var p :| FloodPath(c, s, p, r) && |p| > 0 && w.packet.ipTtl == DEFAULT_TTL + 1 - |p|
      && w.packet.lsu.ttl == MAX_LSU_TTL + 1 - |p|;
    RoutePersists(c, s, m, p, r);
    forall q | NbrPort(c, w.dest, q) ensures Told(AfterDeliver(c, s, m), q.router, r) {
      ToldPersists(c, s, m, q.router, r);
    }
  }

  // ---------------------------------------------------------------------
  // Times to live
  // ---------------------------------------------------------------------

  /** The router that takes a newest LSU extends its route; the times to live cover every route there can be. */
  lemma RouteExtends(c: Config, s: State, m: Msg, r: Addr) returns (p: seq<Addr>)
    requires Delivery(c, s, m) && r in c.ifaces && Newest(s, m, r) && Travels(c, s, m, r) && Takes(s, m)
    ensures FloodPath(c, AfterDeliver(c, s, m), p, r) && 1 < |p| <= |c.ifaces|
    ensures m.packet.ipTtl == DEFAULT_TTL + 2 - |p| && m.packet.lsu.ttl == MAX_LSU_TTL + 2 - |p|
    ensures |p| == |c.ifaces| ==> forall x | x in c.ifaces :: x in p
  {
    hide ValidConfig, UniqueEntries, Sent, Entry, Live, Stored, Consistent, AfterDeliver, Takes;
    var x := m.dest.router;
    var q :| FloodPath(c, s, q, r) && |q| > 0 && m.packet.ipTtl == DEFAULT_TTL + 1 - |q|
      && m.packet.lsu.ttl == MAX_LSU_TTL + 1 - |q|;
    p := q + [x];
    NotYet(c, s, m, r);
    RoutePersists(c, s, m, q, r);
    DeliveredHas(c, s, m, r);
    DistinctWithin<Addr>(p, c.ifaces.Keys);
    assert |c.ifaces.Keys| == |c.ifaces|;
  }

  lemma NotYet(c: Config, s: State, m: Msg, r: Addr)
    requires Delivery(c, s, m) && Newest(s, m, r) && Takes(s, m)
    ensures !Has(s, m.dest.router, r)
  {
    hide ValidConfig, UniqueEntries, Entry, Live, Takes;
    TakesIsLater(c, s, m);
  }

  /** Every neighbour of a router that takes a newest LSU is told, on whichever interface. */
  lemma TakerTells(c: Config, s: State, m: Msg, r: Addr, i: nat, q: Port)
    requires Delivery(c, s, m) && r in c.ifaces && Newest(s, m, r) && Travels(c, s, m, r) && Takes(s, m)
    requires NbrPort(c, Port(m.dest.router, i), q)
    ensures Told(AfterDeliver(c, s, m), q.router, r)
  {
    hide UniqueEntries, Sent, Copies, Entry, Live, Stored, FloodPath, Has, TtlOk;
    var x, s' := m.dest.router, AfterDeliver(c, s, m);
    if i == m.dest.iface {
      ToldPersists(c, s, m, q.router, r);
    } else {
      var p := RouteExtends(c, s, m, r);
      if |p| <= DEFAULT_TTL {
        var next := PassedOn(m.packet).value;
        SpreadContents(c, x, next, Some(m.dest.iface), m.num, Msg(q, next, m.num));
        assert Msg(q, next, m.num) in s'.flight;
        assert Newest(s', Msg(q, next, m.num), r);
      } else {
        RouteHas(c, s', p, r, q.router);
      }
    }
  }

  lemma RouteHas(c: Config, s: State, p: seq<Addr>, r: Addr, x: Addr)
    requires FloodPath(c, s, p, r) && x in p
    ensures Has(s, x, r)
  {}

  /** What the taker passes on travels like what it received. */
  lemma PassedOnTravels(c: Config, s: State, m: Msg, r: Addr, w: Msg)
    requires Delivery(c, s, m) && r in c.ifaces && Newest(s, m, r) && Travels(c, s, m, r) && Takes(s, m)
    requires w in Sent(c, Forwarded(c.ifaces[m.dest.router], m.dest.iface, m.packet), m.num)
    requires Fits(c, AfterDeliver(c, s, m))
    ensures Travels(c, AfterDeliver(c, s, m), w, r)
  {
    hide UniqueEntries, Sent, Copies, Entry, Live, Stored, FloodPath, Has, Told, AfterDeliver, Takes;
    var x, s' := m.dest.router, AfterDeliver(c, s, m);
    assert MsgOk(c, s, m);
    ForwardedOk(c, s, m, w);
    var p := RouteExtends(c, s, m, r);
    assert TtlOk(c, s', w, r);
    SpreadContents(c, x, w.packet, Some(m.dest.iface), m.num, w);
    var i: nat :| i != m.dest.iface && NbrPort(c, Port(x, i), w.dest);
    forall q | NbrPort(c, w.dest, q) ensures Told(s', q.router, r) {
      if q == Port(x, i) {
        DeliveredHas(c, s, m, r);
        HasIsTold(s', x, r);
      } else {
        TakerTells(c, s, m, r, i, q);
      }
    }
  }

  lemma HasIsTold(s: State, x: Addr, r: Addr)
    requires Has(s, x, r)
    ensures Told(s, x, r)
  {}

  // ---------------------------------------------------------------------
  // The flooding invariant
  // ---------------------------------------------------------------------

  lemma DeliverKeepsTravel(c: Config, s: State, m: Msg, r: Addr, w: Msg)
    requires Delivery(c, s, m) && r in c.ifaces && FloodInv(c, s, r) && Fits(c, AfterDeliver(c, s, m))
    requires w in AfterDeliver(c, s, m).flight && Newest(AfterDeliver(c, s, m), w, r)
    ensures Travels(c, AfterDeliver(c, s, m), w, r)
  {
    hide MsgOk, EntryOk, UniqueEntries, ValidConfig, Live, Told, Has, Travels, Sent, Forwarded, Takes;
    if w in s.flight {
      TravelsPersists(c, s, m, w, r);
    } else {
      assert Takes(s, m) && w in Sent(c, Forwarded(c.ifaces[m.dest.router], m.dest.iface, m.packet), m.num);
      assert MsgOk(c, s, m);
      ForwardedOk(c, s, m, w);
      PassedOnTravels(c, s, m, r, w);
    }
  }

  lemma DeliverKeepsEntry(c: Config, s: State, m: Msg, r: Addr, x: Addr)
    requires Delivery(c, s, m) && r in c.ifaces && FloodInv(c, s, r) && x in c.ifaces && x != r
    requires Has(AfterDeliver(c, s, m), x, r)
    ensures Entry(AfterDeliver(c, s, m).db[x], r).Some?
    ensures Entry(AfterDeliver(c, s, m).db[x], r).value.lsas == OwnLsas(c.ifaces[r], |c.ifaces[r]|)
  {
    hide MsgOk, UniqueEntries, ValidConfig, Live, Told, Sent, Forwarded, Takes, Entry, Stored, OwnLsas, TtlOk;
    var lsu := m.packet.lsu;
    TakesIsLater(c, s, m);
    assert EntryOk(c, s, x, r);
    StoredLookup(s.db[m.dest.router], lsu.rid, lsu.sn, lsu.lsas, r);
  }

  lemma DeliverKeepsTold(c: Config, s: State, m: Msg, r: Addr, p: Port, q: Port)
    requires Delivery(c, s, m) && r in c.ifaces && FloodInv(c, s, r)
    requires NbrPort(c, p, q) && Has(AfterDeliver(c, s, m), p.router, r)
    ensures Told(AfterDeliver(c, s, m), q.router, r)
  {
    hide MsgOk, EntryOk, UniqueEntries, ValidConfig, Live, Told, Sent, Forwarded, Takes, Entry, Stored;
    hide Travels, NbrPort;
    if Has(s, p.router, r) {
      ToldPersists(c, s, m, q.router, r);
    } else {
      assert p == Port(m.dest.router, p.iface);
      TakerTells(c, s, m, r, p.iface, q);
    }
  }

  lemma DeliverKeepsFlood(c: Config, s: State, m: Msg, r: Addr)
    requires Delivery(c, s, m) && r in c.ifaces && FloodInv(c, s, r)
    ensures Fits(c, AfterDeliver(c, s, m)) && FloodInv(c, AfterDeliver(c, s, m), r)
  {
    hide MsgOk, EntryOk, UniqueEntries, ValidConfig, Live, Told, Entry, NbrPort, Has, Newest, AfterDeliver, Travels;
    AfterFits(c, s, Deliver(m));
    var s' := AfterDeliver(c, s, m);
    assert After(c, s, Deliver(m)) == s';
    forall w | w in s'.flight && Newest(s', w, r) ensures Travels(c, s', w, r) { DeliverKeepsTravel(c, s, m, r, w); }
    forall x | x in c.ifaces && x != r && Has(s', x, r)
      ensures Entry(s'.db[x], r).Some? && Entry(s'.db[x], r).value.lsas == OwnLsas(c.ifaces[r], |c.ifaces[r]|)
    {
      DeliverKeepsEntry(c, s, m, r, x);
    }
    forall p, q | NbrPort(c, p, q) && Has(s', p.router, r) ensures Told(s', q.router, r) {
      DeliverKeepsTold(c, s, m, r, p, q);
    }
  }

  lemma OriginateHas(c: Config, s: State, r: Addr, x: Addr)
    requires Consistent(c, s) && r in c.ifaces
    ensures Has(AfterOriginate(c, s, r), x, r) <==> x == r
  {
    hide UniqueEntries, Sent, Copies, Entry, OwnLsas, ValidConfig, MsgOk;
    if x in s.held { assert EntryOk(c, s, x, r); }
  }

  lemma EarlierMessages(c: Config, s: State)
    requires Consistent(c, s)
    ensures forall m | m in s.flight :: m.packet.lsu.rid in s.number && m.num <= s.number[m.packet.lsu.rid]
  {
    forall m | m in s.flight ensures m.packet.lsu.rid in s.number && m.num <= s.number[m.packet.lsu.rid] {
      assert MsgOk(c, s, m);
    }
  }

  lemma OriginateTravels(c: Config, s: State, r: Addr, w: Msg)
    requires Consistent(c, s) && r in c.ifaces && Fits(c, AfterOriginate(c, s, r))
    requires w in AfterOriginate(c, s, r).flight && Newest(AfterOriginate(c, s, r), w, r)
    ensures Travels(c, AfterOriginate(c, s, r), w, r)
  {
    hide UniqueEntries, Sent, Copies, Entry, OwnLsas, EntryOk, Has, Told, NbrPort;
    var s', num := AfterOriginate(c, s, r), s.number[r] + 1;
    EarlierMessages(c, s);
    SpreadContents(c, r, OwnPacket(c, r, num), None, num, w);
    var i: nat :| NbrPort(c, Port(r, i), w.dest);
    SelfHas(s', r);
    assert FloodPath(c, s', [r], r);
    forall q | NbrPort(c, w.dest, q) ensures Told(s', q.router, r) {
      if q == Port(r, i) { HasIsTold(s', r, r); } else { OriginatorTells(c, s, r, i, q); }
    }
  }

  /** A new LSU starts a new flood, which reaches the neighbours of its originator first. */
  lemma OriginateStartsFlood(c: Config, s: State, r: Addr)
    requires Consistent(c, s) && r in c.ifaces
    ensures Fits(c, AfterOriginate(c, s, r)) && FloodInv(c, AfterOriginate(c, s, r), r)
  {
    hide UniqueEntries, Sent, Copies, Entry, OwnLsas, MsgOk, EntryOk, Travels, Has, Told, NbrPort, Newest;
    AfterFits(c, s, Step.Originate(r));
    var s' := AfterOriginate(c, s, r);
    forall x ensures Has(s', x, r) <==> x == r { OriginateHas(c, s, r, x); }
    forall w | w in s'.flight && Newest(s', w, r) ensures Travels(c, s', w, r) { OriginateTravels(c, s, r, w); }
    forall p, q | NbrPort(c, p, q) && Has(s', p.router, r) ensures Told(s', q.router, r) {
      assert p == Port(r, p.iface);
      OriginatorTells(c, s, r, p.iface, q);
    }
  }

  lemma OriginatorTells(c: Config, s: State, r: Addr, i: nat, q: Port)
    requires Fits(c, s) && r in c.ifaces && NbrPort(c, Port(r, i), q)
    ensures Told(AfterOriginate(c, s, r), q.router, r)
  {
    hide Sent, Copies, OwnLsas, ValidConfig;
    var num := s.number[r] + 1;
    var m := Msg(q, OwnPacket(c, r, num), num);
    SpreadContents(c, r, OwnPacket(c, r, num), None, num, m);
    assert m in AfterOriginate(c, s, r).flight;
  }

  /** More messages in flight about other routers, or copies of those in flight, do not disturb a flood. */
  lemma MoreInFlight(c: Config, s: State, s': State, r: Addr)
    requires Fits(c, s) && Fits(c, s') && r in c.ifaces && FloodInv(c, s, r)
    requires s'.db == s.db && s'.held == s.held && s'.number[r] == s.number[r]
    requires forall m | m in s.flight :: m in s'.flight
    requires forall m | m in s'.flight && m.packet.lsu.rid == r :: m in s.flight
    ensures FloodInv(c, s', r)
  {
    hide ValidConfig, OwnLsas, Entry, NbrPort;
    forall x | Told(s, x, r) ensures Told(s', x, r) {
      if !Has(s, x, r) {
        var m :| m in s.flight && m.dest.router == x && Newest(s, m, r);
        assert m in s'.flight && Newest(s', m, r);
      }
    }
    forall x ensures Has(s', x, r) <==> Has(s, x, r) {}
    forall p | FloodPath(c, s, p, r) ensures FloodPath(c, s', p, r) {}
    hide Told, Has, FloodPath;
    forall m | m in s'.flight && Newest(s', m, r) ensures Travels(c, s', m, r) { assert Newest(s, m, r); }
  }

  lemma OriginateKeepsFlood(c: Config, s: State, r: Addr, x: Addr)
    requires Consistent(c, s) && r in c.ifaces && x in c.ifaces && x != r && FloodInv(c, s, x)
    ensures Fits(c, AfterOriginate(c, s, r)) && FloodInv(c, AfterOriginate(c, s, r), x)
  {
    hide UniqueEntries, Sent, Copies, Entry, OwnLsas, MsgOk, EntryOk, FloodInv, ValidConfig;
    AfterFits(c, s, Step.Originate(r));
    var s', num := AfterOriginate(c, s, r), s.number[r] + 1;
    SpreadFits(c, r, OwnPacket(c, r, num), None, num);
    MoreInFlight(c, s, s', x);
  }

  lemma StepKeepsInv(c: Config, s: State, step: Step)
    requires Inv(c, s) && Live(s) && Enabled(c, s, step)
    ensures Inv(c, After(c, s, step))
  {
    hide UniqueEntries, Entry, MsgOk, EntryOk, FloodInv, AfterDeliver, ValidConfig, Sent, Live, Copies;
    match step
    case Originate(r) =>
      OriginateConsistent(c, s, r);
      OriginateStartsFlood(c, s, r);
      forall x | x in s.since && x != r
        ensures FloodInv(c, AfterOriginate(c, s, r), x)
      {
        OriginateKeepsFlood(c, s, r, x);
      }
    case Deliver(m) =>
      DeliverConsistent(c, s, m);
      assert AfterDeliver(c, s, m).since == s.since by { DeliverKeepsSince(c, s, m); }
      forall x | x in s.since ensures FloodInv(c, AfterDeliver(c, s, m), x) { DeliverKeepsFlood(c, s, m, x); }
    case Duplicate(m) => DuplicateKeepsInv(c, s, m);
  }

  lemma DuplicateKeepsInv(c: Config, s: State, m: Msg)
    requires Inv(c, s) && m in s.flight
    ensures Inv(c, s.(flight := s.flight + multiset{m}))
  {
    hide UniqueEntries, MsgOk, EntryOk, FloodInv, ValidConfig;
    var s' := s.(flight := s.flight + multiset{m});
    forall w | w in s'.flight ensures MsgOk(c, s', w) { assert MsgOk(c, s, w); MsgOkFrame(c, s, s', w); }
    forall x, y | x in s'.held
      ensures EntryOk(c, s', x, y)
    {
      assert EntryOk(c, s, x, y);
      EntryOkFrame(c, s, s', x, y);
    }
    forall x | x in s.since ensures FloodInv(c, s', x) { MoreInFlight(c, s, s', x); }
  }

  lemma EntryOkFrame(c: Config, s: State, s': State, x: Addr, r: Addr)
    requires Fits(c, s) && Fits(c, s') && x in s.held && EntryOk(c, s, x, r)
    requires s'.db == s.db && s'.held == s.held && s'.number == s.number
    ensures EntryOk(c, s', x, r)
  {}

  lemma DeliverKeepsSince(c: Config, s: State, m: Msg)
    requires Fits(c, s) && ValidPort(c, m.dest) && m.packet.lsu.rid in c.ifaces
    ensures AfterDeliver(c, s, m).since == s.since
  {}

  /** Any state in which nothing is newer than its originator's count may be the start. */
  ghost predicate StartState(c: Config, s: State) {
    Consistent(c, s) && s.since == {}
  }

  lemma {:induction false} RunKeepsInv(c: Config, s: State, steps: seq<Step>, s': State)
    requires Inv(c, s) && Run(c, s, steps, s')
    ensures Inv(c, s')
    decreases |steps|
  {
    hide FloodInv, After, Live, Enabled, MsgOk, EntryOk, ValidConfig;
    if steps != [] {
      StepKeepsInv(c, s, steps[0]);
      RunKeepsInv(c, After(c, s, steps[0]), steps[1..], s');
    }
  }

  // ---------------------------------------------------------------------
  // Who gets a copy
  // ---------------------------------------------------------------------

  /** The packet one hop further on: both times to live are one less. */
  ghost predicate OneHopOn(p: Packet, q: Packet) {
    && 0 < q.ipTtl == p.ipTtl - 1 && 0 < q.lsu.ttl == p.lsu.ttl - 1
    && q.lsu.rid == p.lsu.rid && q.lsu.sn == p.lsu.sn && q.lsu.lsas == p.lsu.lsas
  }

  /** Originating puts one new LSU in flight, to every neighbour port of every interface and to nobody else. */
  lemma OriginationReaches(c: Config, s: State, r: Addr, w: Msg)
    requires Fits(c, s) && r in c.ifaces
    ensures AfterOriginate(c, s, r).flight[w] > s.flight[w] <==>
      && w.num == s.number[r] + 1
      && w.packet == Packet(64, Lsu(r, w.num % 0x1_0000, 255, OwnLsas(c.ifaces[r], |c.ifaces[r]|)))
      && exists i: nat :: NbrPort(c, Port(r, i), w.dest)
  {
    hide Sent, Copies, OwnLsas;
    var num := s.number[r] + 1;
    SpreadContents(c, r, OwnPacket(c, r, num), None, num, w);
    if exists i: nat :: NbrPort(c, Port(r, i), w.dest) {
      var i: nat :| NbrPort(c, Port(r, i), w.dest);
      assert None != Some(i);
    }
  }

  /**
   An LSU that is taken is passed on to every neighbour port of the other interfaces and to nobody else, if it has
   hops to live left; one that is not taken is not passed on.
   */
  lemma DeliveryReaches(c: Config, s: State, m: Msg, w: Msg)
    requires Consistent(c, s) && m in s.flight && ValidPort(c, m.dest) && m.packet.lsu.rid in c.ifaces
    requires m.packet.ipTtl > 0 && m.packet.lsu.ttl > 0
    ensures AfterDeliver(c, s, m).flight[w] > (s.flight - multiset{m})[w] <==>
      && Takes(s, m) && w.num == m.num && OneHopOn(m.packet, w.packet)
      && exists i: nat :: i != m.dest.iface && NbrPort(c, Port(m.dest.router, i), w.dest)
  {
    hide Sent, Copies, Takes, Stored, MsgOk, EntryOk, UniqueEntries;
    SentNothing(c, m.num);
    var x := m.dest.router;
    if PassedOn(m.packet).Some? {
      SpreadContents(c, x, PassedOn(m.packet).value, Some(m.dest.iface), m.num, w);
      if i: nat :| i != m.dest.iface && NbrPort(c, Port(x, i), w.dest) {
        assert Some(m.dest.iface) != Some(i);
      }
    }
  }

  // ---------------------------------------------------------------------
  // Times to live run down
  // ---------------------------------------------------------------------

  ghost predicate TtlsLeft(s: State) {
    forall m | m in s.flight :: m.packet.ipTtl > 0 && m.packet.lsu.ttl > 0
  }

  /** What a delivery sends has one hop less to live, both as a packet and as an LSU, and is alive. */
  lemma DeliveryLowersTtls(c: Config, s: State, m: Msg, w: Msg)
    requires Consistent(c, s) && m in s.flight && m.packet.ipTtl > 0 && m.packet.lsu.ttl > 0
    requires ValidPort(c, m.dest) && m.packet.lsu.rid in c.ifaces
    requires w in AfterDeliver(c, s, m).flight && w !in s.flight
    ensures 0 < w.packet.ipTtl == m.packet.ipTtl - 1 && 0 < w.packet.lsu.ttl == m.packet.lsu.ttl - 1
    ensures w.packet.lsu == m.packet.lsu.(ttl := w.packet.lsu.ttl) && w.num == m.num
  {
    hide ValidConfig, UniqueEntries, Sent, Takes, Stored, EntryOk;
    assert MsgOk(c, s, m);
    ForwardedOk(c, s, m, w);
  }

  /** No packet is ever sent without time to live. */
  lemma {:induction false} RunKeepsTtls(c: Config, s: State, steps: seq<Step>, s': State)
    requires Inv(c, s) && TtlsLeft(s) && Run(c, s, steps, s')
    ensures TtlsLeft(s')
    decreases |steps|
  {
    hide FloodInv, After, Live, Enabled, MsgOk, EntryOk, ValidConfig;
    if steps != [] {
      StepKeepsInv(c, s, steps[0]);
      StepKeepsTtls(c, s, steps[0]);
      RunKeepsTtls(c, After(c, s, steps[0]), steps[1..], s');
    }
  }

  lemma StepKeepsTtls(c: Config, s: State, step: Step)
    requires Inv(c, s) && TtlsLeft(s) && Enabled(c, s, step)
    ensures TtlsLeft(After(c, s, step))
  {
    hide FloodInv, MsgOk, EntryOk, ValidConfig, UniqueEntries, Sent, Copies, OwnLsas, AfterDeliver;
    var s' := After(c, s, step);
    forall w | w in s'.flight
      ensures w.packet.ipTtl > 0 && w.packet.lsu.ttl > 0
    {
      if w !in s.flight {
        match step
        case Originate(r) => SpreadFits(c, r, OwnPacket(c, r, s.number[r] + 1), None, s.number[r] + 1);
        case Deliver(m) => DeliveryLowersTtls(c, s, m, w);
        case Duplicate(m) =>
      }
    }
  }

  // ---------------------------------------------------------------------
  // Each LSU is taken at most once
  // ---------------------------------------------------------------------

  lemma HeldNeverFalls(c: Config, s: State, step: Step, x: Addr, r: Addr)
    requires Inv(c, s) && Live(s) && Enabled(c, s, step) && x in s.held && r in s.held[x]
    ensures var h := After(c, s, step).held; x in h && r in h[x] && h[x][r] >= s.held[x][r]
  {
    hide UniqueEntries, Entry, MsgOk, EntryOk, FloodInv, ValidConfig, Sent, Live, Stored, Takes;
    if step.Deliver? { TakesIsLater(c, s, step.m); }
  }

  lemma {:induction false} RunHeldNeverFalls(c: Config, s: State, steps: seq<Step>, s': State, x: Addr, r: Addr)
    requires Inv(c, s) && Run(c, s, steps, s') && x in s.held && r in s.held[x]
    ensures x in s'.held && r in s'.held[x] && s'.held[x][r] >= s.held[x][r]
    decreases |steps|
  {
    hide FloodInv, After, Live, Enabled, MsgOk, EntryOk, ValidConfig;
    if steps != [] {
      StepKeepsInv(c, s, steps[0]);
      HeldNeverFalls(c, s, steps[0], x, r);
      RunHeldNeverFalls(c, After(c, s, steps[0]), steps[1..], s', x, r);
    }
  }

  /** After a router has taken an LSU, it never takes that LSU again, however late a copy arrives. */
  lemma TakenAtMostOnce(c: Config, s: State, m: Msg, steps: seq<Step>, s': State, w: Msg)
    requires Inv(c, s) && Live(s) && Enabled(c, s, Deliver(m)) && Takes(s, m)
    requires Fits(c, AfterDeliver(c, s, m)) && Run(c, AfterDeliver(c, s, m), steps, s')
    requires Live(s') && w in s'.flight
    requires w.dest.router == m.dest.router && w.packet.lsu.rid == m.packet.lsu.rid && w.num == m.num
    ensures w.dest.router in s'.db && !Takes(s', w)
  {
    hide FloodInv, Live, MsgOk, EntryOk, ValidConfig, Run, Stored, Sent;
    var x, r, t := m.dest.router, m.packet.lsu.rid, AfterDeliver(c, s, m);
    StepKeepsInv(c, s, Deliver(m));
    assert After(c, s, Deliver(m)) == t;
    assert x in t.held && r in t.held[x] && t.held[x][r] == m.num;
    RunHeldNeverFalls(c, t, steps, s', x, r);
    RunKeepsInv(c, t, steps, s');
    hide Takes;
    TakesIsLater(c, s', w);
  }

  // ---------------------------------------------------------------------
  // Agreement
  // ---------------------------------------------------------------------

  ghost function Links(c: Config): (Addr, Addr) -> bool {
    (a: Addr, b: Addr) => Linked(c, a, b)
  }

  lemma {:induction false} AllHave(c: Config, s: State, r: Addr, x: Addr, d: nat)
    requires Inv(c, s) && r in s.since && s.flight == multiset{} && Hops(Links(c), r, x, d)
    ensures Has(s, x, r) && x in c.ifaces
    decreases d
  {
    hide Consistent, Has;
    if d == 0 {
      InvFits(c, s);
      assert Has(s, r, r) by { SelfHas(s, r); }
    } else {
      var y := LastHop(Links(c), r, x, d);
      AllHave(c, s, r, y, d - 1);
      var i, q :| 0 <= i && NbrPort(c, Port(y, i), q) && q.router == x;
      InvFits(c, s);
      NbrIsPort(c, Port(y, i), q);
      assert FloodInv(c, s, r) && Told(s, x, r);
    }
  }

  lemma SelfHas(s: State, r: Addr)
    ensures Has(s, r, r)
  {}

  lemma InvFits(c: Config, s: State)
    requires Inv(c, s)
    ensures Fits(c, s)
  {}

  /**
   When nothing is in flight, every router reachable over links holds the newest LSU of every router that has
   originated one since neighbours became stable, whatever databases and messages there were at the start.
   */
  lemma FloodingAgrees(c: Config, s: State, steps: seq<Step>, s': State, r: Addr, x: Addr)
    requires StartState(c, s) && Run(c, s, steps, s') && s'.flight == multiset{}
    requires r in s'.since && x != r && Reachable(Links(c), r, x)
    ensures x in s'.db && r in s'.number && r in c.ifaces
    ensures Entry(s'.db[x], r).Some? && var e := Entry(s'.db[x], r).value;
      e.sn == s'.number[r] % 0x1_0000 && e.lsas == OwnLsas(c.ifaces[r], |c.ifaces[r]|)
  {
    hide Run, MsgOk, ValidConfig, UniqueEntries, Travels, Told, OwnLsas, Entry;
    RunKeepsInv(c, s, steps, s');
    var d: nat :| Hops(Links(c), r, x, d);
    AllHave(c, s', r, x, d);
    assert FloodInv(c, s', r) && EntryOk(c, s', x, r);
  }
}
