/**
 The ARP cache of a router: a table from IP to MAC addresses, and the packets that wait for an entry.
 What leaves the cache is recorded in a log; the clock and the random slot are parameters.
 */
module ArpCache {
  import opened Basics

  const MAX_ARP_SIZE := 32
  const ARP_ENTRY_TIMEOUT := 15
  const ARP_REQUEST_MAX_RETRIES := 5

  type Mac = x: int | 0 <= x < 0x1_0000_0000_0000

  /** A packet is identified by a number. */
  type Packet = nat

  /** Packets wait per destination and interface. */
  datatype Key = Key(ip: u32, iface: nat)

  datatype Entry = Entry(ip: u32, mac: Mac, added: int, valid: bool)

  datatype Req = Req(key: Key, sent: int, retries: nat, packets: seq<Packet>)

  datatype Event =
    | Appended(key: Key, packet: Packet)
    | Asked(key: Key)
    | Delivered(key: Key, packet: Packet, mac: Mac)
    | Unreachable(key: Key, packet: Packet)

  // ---------------------------------------------------------------------
  // The log, read per key
  // ---------------------------------------------------------------------

  function In(log: seq<Event>, k: Key): seq<Packet> {
    if log == [] then []
    else
      var e := log[|log| - 1];
      In(log[..|log| - 1], k) + if e.Appended? && e.key == k then [e.packet] else []
  }

  function Out(log: seq<Event>, k: Key): seq<Packet> {
    if log == [] then []
    else
      var e := log[|log| - 1];
      Out(log[..|log| - 1], k) + if (e.Delivered? || e.Unreachable?) && e.key == k then [e.packet] else []
  }

  /** The ARP requests sent for a key since its last packet left. */
  function Tries(log: seq<Event>, k: Key): nat {
    if log == [] then 0
    else
      var e := log[|log| - 1];
      if e.key != k || e.Appended? then Tries(log[..|log| - 1], k)
      else if e.Asked? then Tries(log[..|log| - 1], k) + 1
      else 0
  }

  lemma {:induction false} LogAppend(log: seq<Event>, more: seq<Event>, k: Key)
    ensures In(log + more, k) == In(log, k) + In(more, k)
    ensures Out(log + more, k) == Out(log, k) + Out(more, k)
    ensures Tries(log + more, k) == Tries(more, k) + if Out(more, k) == [] then Tries(log, k) else 0
    decreases |more|
  {
    if more == [] {
      assert log + more == log;
    } else {
      var n := |more| - 1;
      assert (log + more)[..|log + more| - 1] == log + more[..n];
      LogAppend(log, more[..n], k);
    }
  }

  lemma SnocLog(log: seq<Event>, e: Event, k: Key)
    ensures In(log + [e], k) == In(log, k) + if e.Appended? && e.key == k then [e.packet] else []
    ensures Out(log + [e], k) == Out(log, k) + if (e.Delivered? || e.Unreachable?) && e.key == k then [e.packet] else []
    ensures e.Appended? || e.key != k ==> Tries(log + [e], k) == Tries(log, k)
    ensures e.Asked? && e.key == k ==> Tries(log + [e], k) == Tries(log, k) + 1
  {
    assert (log + [e])[..|log|] == log;
  }

  // ---------------------------------------------------------------------
  // Requests
  // ---------------------------------------------------------------------

  function Pending(rs: seq<Req>, k: Key): seq<Packet> {
    if rs == [] then []
    else
      var r := rs[|rs| - 1];
      Pending(rs[..|rs| - 1], k) + if r.key == k then r.packets else []
  }

  predicate Unique(rs: seq<Req>) {
    forall i, j | 0 <= i < j < |rs| :: rs[i].key != rs[j].key
  }

  predicate Sound(rs: seq<Req>) {
    forall r | r in rs :: r.packets != [] && r.retries <= ARP_REQUEST_MAX_RETRIES
  }

  predicate Awaited(rs: seq<Req>, k: Key) {
    exists r :: r in rs && r.key == k
  }

  lemma {:induction false} NotAwaitedPending(rs: seq<Req>, k: Key)
    requires !Awaited(rs, k)
    ensures Pending(rs, k) == []
    decreases |rs|
  {
    if rs != [] {
      var n := |rs| - 1;
      assert rs[n] in rs;
      assert forall r | r in rs[..n] :: r in rs;
      NotAwaitedPending(rs[..n], k);
    }
  }

  lemma {:induction false} PendingAt(rs: seq<Req>, i: nat)
    requires Unique(rs) && i < |rs|
    ensures Pending(rs, rs[i].key) == rs[i].packets
    decreases |rs|
  {
    var n := |rs| - 1;
    if i == n {
      NotAwaitedPending(rs[..n], rs[n].key);
    } else {
      PendingAt(rs[..n], i);
    }
  }

  lemma PendingSnoc(rs: seq<Req>, r: Req, k: Key)
    ensures Pending(rs + [r], k) == Pending(rs, k) + if r.key == k then r.packets else []
  {
    assert (rs + [r])[..|rs|] == rs;
  }

  lemma UniqueSnoc(rs: seq<Req>, r: Req)
    requires Unique(rs) && !Awaited(rs, r.key)
    ensures Unique(rs + [r])
  {
    forall i | 0 <= i < |rs|
      ensures rs[i].key != r.key
    {
      assert rs[i] in rs;
    }
  }

  lemma UniqueInit(rs: seq<Req>)
    requires Unique(rs) && rs != []
    ensures Unique(rs[..|rs| - 1]) && !Awaited(rs[..|rs| - 1], rs[|rs| - 1].key)
    ensures forall r :: r in rs <==> r in rs[..|rs| - 1] || r == rs[|rs| - 1]
  {
    assert rs == rs[..|rs| - 1] + [rs[|rs| - 1]];
  }

  /** A request that got one more packet. */
  lemma PendingMore(rs: seq<Req>, i: nat, r: Req, k: Key)
    requires Unique(rs) && i < |rs| && r.key == rs[i].key
    ensures Unique(rs[i := r])
    ensures Pending(rs[i := r], k) == if k == r.key then r.packets else Pending(rs, k)
  {
    if k == r.key {
      PendingAt(rs[i := r], i);
    } else {
      PendingOthers(rs, i, r, k);
    }
  }

  lemma {:induction false} PendingOthers(rs: seq<Req>, i: nat, r: Req, k: Key)
    requires i < |rs| && r.key == rs[i].key && k != r.key
    ensures Pending(rs[i := r], k) == Pending(rs, k)
    decreases |rs|
  {
    var n := |rs| - 1;
    if i < n {
      assert rs[i := r][..n] == rs[..n][i := r];
      PendingOthers(rs[..n], i, r, k);
    } else {
      assert rs[i := r][..n] == rs[..n];
    }
  }

  // ---------------------------------------------------------------------
  // Insertion resolves every request for an address
  // ---------------------------------------------------------------------

  function Resolved(k: Key, mac: Mac, packets: seq<Packet>): seq<Event> {
    if packets == [] then []
    else Resolved(k, mac, packets[..|packets| - 1]) + [Delivered(k, packets[|packets| - 1], mac)]
  }

  /** The packets that an address releases, request after request. */
  function Deliveries(rs: seq<Req>, ip: u32, mac: Mac): seq<Event> {
    if rs == [] then []
    else
      var r := rs[|rs| - 1];
      Deliveries(rs[..|rs| - 1], ip, mac) + if r.key.ip == ip then Resolved(r.key, mac, r.packets) else []
  }

  function Others(rs: seq<Req>, ip: u32): seq<Req> {
    if rs == [] then []
    else
      var r := rs[|rs| - 1];
      Others(rs[..|rs| - 1], ip) + if r.key.ip == ip then [] else [r]
  }

  lemma {:induction false} ResolvedLog(k: Key, mac: Mac, packets: seq<Packet>, j: Key)
    ensures Out(Resolved(k, mac, packets), j) == if j == k then packets else []
    ensures In(Resolved(k, mac, packets), j) == []
    ensures Tries(Resolved(k, mac, packets), j) == 0
    decreases |packets|
  {
    if packets != [] {
      var n := |packets| - 1;
      ResolvedLog(k, mac, packets[..n], j);
      var log := Resolved(k, mac, packets);
      assert log[..|log| - 1] == Resolved(k, mac, packets[..n]);
      assert packets == packets[..n] + [packets[n]];
    }
  }

  lemma {:induction false} DeliveriesLog(rs: seq<Req>, ip: u32, mac: Mac, k: Key)
    ensures Out(Deliveries(rs, ip, mac), k) == if k.ip == ip then Pending(rs, k) else []
    ensures In(Deliveries(rs, ip, mac), k) == []
    ensures Tries(Deliveries(rs, ip, mac), k) == 0
    decreases |rs|
  {
    hide Resolved;
    if rs != [] {
      var n := |rs| - 1;
      var r := rs[n];
      var log, more := Deliveries(rs[..n], ip, mac), Resolved(r.key, mac, r.packets);
      DeliveriesLog(rs[..n], ip, mac, k);
      ResolvedLog(r.key, mac, r.packets, k);
      LogAppend(log, more, k);
      assert Deliveries(rs, ip, mac) == if r.key.ip == ip then log + more else log;
      hide Deliveries, In, Out, Tries;
    }
  }

  lemma {:induction false} OthersPending(rs: seq<Req>, ip: u32, k: Key)
    ensures Pending(Others(rs, ip), k) == if k.ip == ip then [] else Pending(rs, k)
    decreases |rs|
  {
    if rs != [] {
      var n := |rs| - 1;
      OthersPending(rs[..n], ip, k);
      PendingSnoc(Others(rs[..n], ip), rs[n], k);
      assert Others(rs, ip) == if rs[n].key.ip == ip then Others(rs[..n], ip) else Others(rs[..n], ip) + [rs[n]];
      hide Others;
    }
  }

  lemma {:induction false} OthersKept(rs: seq<Req>, ip: u32)
    requires Unique(rs)
    ensures Unique(Others(rs, ip))
    ensures forall r :: r in Others(rs, ip) <==> r in rs && r.key.ip != ip
    decreases |rs|
  {
    if rs != [] {
      var n := |rs| - 1;
      UniqueInit(rs);
      OthersKept(rs[..n], ip);
      var rest, last := Others(rs[..n], ip), rs[n];
      assert Others(rs, ip) == if last.key.ip == ip then rest else rest + [last];
      assert !Awaited(rest, last.key);
      UniqueSnoc(rest, last);
      hide Others, Unique;
    }
  }

  // ---------------------------------------------------------------------
  // Sweeping
  // ---------------------------------------------------------------------

  predicate Expired(r: Req) {
    r.retries == ARP_REQUEST_MAX_RETRIES
  }

  predicate Due(r: Req, now: int) {
    now - r.sent >= 1
  }

  /** One request after a sweep that does not drop it. */
  function Retried(r: Req, now: int): Req {
    if Due(r, now) then r.(sent := now, retries := r.retries + 1) else r
  }

  function Swept(rs: seq<Req>, now: int): seq<Req> {
    if rs == [] then []
    else
      var r := rs[|rs| - 1];
      Swept(rs[..|rs| - 1], now) + if Expired(r) then [] else [Retried(r, now)]
  }

  function TimedOut(rs: seq<Req>): seq<Req> {
    if rs == [] then []
    else
      var r := rs[|rs| - 1];
      TimedOut(rs[..|rs| - 1]) + if Expired(r) then [r] else []
  }

  function AskedAgain(rs: seq<Req>, now: int): seq<Event> {
    if rs == [] then []
    else
      var r := rs[|rs| - 1];
      AskedAgain(rs[..|rs| - 1], now) + if !Expired(r) && Due(r, now) then [Asked(r.key)] else []
  }

  function Refused(k: Key, packets: seq<Packet>): seq<Event> {
    if packets == [] then []
    else Refused(k, packets[..|packets| - 1]) + [Unreachable(k, packets[|packets| - 1])]
  }

  function Refusals(rs: seq<Req>): seq<Event> {
    if rs == [] then []
    else
      var r := rs[|rs| - 1];
      Refusals(rs[..|rs| - 1]) + Refused(r.key, r.packets)
  }

  lemma {:induction false} RefusedLog(k: Key, packets: seq<Packet>, j: Key)
    ensures Out(Refused(k, packets), j) == if j == k then packets else []
    ensures In(Refused(k, packets), j) == []
    ensures Tries(Refused(k, packets), j) == 0
    decreases |packets|
  {
    if packets != [] {
      var n := |packets| - 1;
      RefusedLog(k, packets[..n], j);
      var log := Refused(k, packets);
      assert log[..|log| - 1] == Refused(k, packets[..n]);
      assert packets == packets[..n] + [packets[n]];
    }
  }

  lemma {:induction false} RefusalsLog(rs: seq<Req>, k: Key)
    ensures Out(Refusals(rs), k) == Pending(rs, k)
    ensures In(Refusals(rs), k) == []
    ensures Tries(Refusals(rs), k) == 0
    decreases |rs|
  {
    if rs != [] {
      var n := |rs| - 1;
      RefusalsLog(rs[..n], k);
      RefusedLog(rs[n].key, rs[n].packets, k);
      LogAppend(Refusals(rs[..n]), Refused(rs[n].key, rs[n].packets), k);
    }
  }

  lemma AskedAgainSnoc(rs: seq<Req>, now: int, k: Key)
    requires rs != []
    ensures var log, last := AskedAgain(rs[..|rs| - 1], now), rs[|rs| - 1];
      && In(AskedAgain(rs, now), k) == In(log, k) && Out(AskedAgain(rs, now), k) == Out(log, k)
      && Tries(AskedAgain(rs, now), k)
        == Tries(log, k) + if last.key == k && !Expired(last) && Due(last, now) then 1 else 0
  {
    var log, last := AskedAgain(rs[..|rs| - 1], now), rs[|rs| - 1];
    SnocLog(log, Asked(last.key), k);
    hide In, Out, Tries, Expired, Due;
    assert log + [] == log;
  }

  lemma {:induction false} AskedAgainLog(rs: seq<Req>, now: int, k: Key)
    requires Unique(rs)
    ensures In(AskedAgain(rs, now), k) == [] && Out(AskedAgain(rs, now), k) == []
    ensures !Awaited(rs, k) ==> Tries(AskedAgain(rs, now), k) == 0
    ensures forall r | r in rs && r.key == k ::
      Tries(AskedAgain(rs, now), k) == if !Expired(r) && Due(r, now) then 1 else 0
    decreases |rs|
  {
    if rs != [] {
      hide In, Out, Tries, Expired, Due, Unique, AskedAgain;
      AskedAgainSnoc(rs, now, k);
      UniqueInit(rs);
      AskedAgainLog(rs[..|rs| - 1], now, k);
    }
  }

  /** Every request a sweep keeps was there before, perhaps retried. */
  predicate FromBefore(rs: seq<Req>, now: int, q: Req) {
    exists r :: r in rs && !Expired(r) && q == Retried(r, now)
  }

  /** What a sweep keeps. */
  lemma {:induction false} SweptKept(rs: seq<Req>, now: int)
    requires Unique(rs)
    ensures Unique(Swept(rs, now))
    ensures forall q :: q in Swept(rs, now) <==> FromBefore(rs, now, q)
    decreases |rs|
  {
    if rs != [] {
      var n := |rs| - 1;
      var kept, last := Swept(rs[..n], now), rs[n];
      UniqueInit(rs);
      SweptKept(rs[..n], now);
      assert Swept(rs, now) == if Expired(last) then kept else kept + [Retried(last, now)];
      hide Swept, Unique, Expired, Due;
      forall q
        ensures FromBefore(rs, now, q) <==> FromBefore(rs[..n], now, q) || (!Expired(last) && q == Retried(last, now))
      {}
      assert !Awaited(kept, last.key);
      UniqueSnoc(kept, Retried(last, now));
    }
  }

  /** What a sweep drops. */
  lemma {:induction false} TimedOutAre(rs: seq<Req>)
    requires Unique(rs)
    ensures Unique(TimedOut(rs))
    ensures forall r :: r in TimedOut(rs) <==> r in rs && Expired(r)
    decreases |rs|
  {
    if rs != [] {
      var n := |rs| - 1;
      UniqueInit(rs);
      TimedOutAre(rs[..n]);
      var late, last := TimedOut(rs[..n]), rs[n];
      assert TimedOut(rs) == if Expired(last) then late + [last] else late;
      hide TimedOut, Unique, Expired;
      assert !Awaited(late, last.key);
      UniqueSnoc(late, last);
    }
  }

  lemma Divide(a: seq<Packet>, t: seq<Packet>, s: seq<Packet>, x: seq<Packet>)
    requires a == t + s && (x != [] ==> a == [])
    ensures a + x == t + (s + x) && a + x == (t + x) + s
  {}

  /** A sweep splits the waiting packets of a key between those it drops and those it keeps. */
  lemma {:induction false} SweptPending(rs: seq<Req>, now: int, k: Key)
    requires Unique(rs)
    ensures Pending(rs, k) == Pending(TimedOut(rs), k) + Pending(Swept(rs, now), k)
    decreases |rs|
  {
    if rs != [] {
      var n := |rs| - 1;
      var p, last := rs[..n], rs[n];
      var t, s := TimedOut(p), Swept(p, now);
      UniqueInit(rs);
      SweptPending(p, now, k);
      assert rs == p + [last];
      assert TimedOut(rs) == if Expired(last) then t + [last] else t;
      assert Swept(rs, now) == if Expired(last) then s else s + [Retried(last, now)];
      if last.key == k { NotAwaitedPending(p, k); }
      hide TimedOut, Swept, Pending, Unique, Awaited, Expired;
      PendingSnoc(p, last, k);
      PendingSnoc(t, last, k);
      PendingSnoc(s, Retried(last, now), k);
      Divide(Pending(p, k), Pending(t, k), Pending(s, k), if last.key == k then last.packets else []);
    }
  }

  // ---------------------------------------------------------------------
  // The table
  // ---------------------------------------------------------------------

  predicate Matches(e: Entry, ip: u32) {
    e.valid && e.ip == ip
  }

  /** No address has two valid entries. */
  predicate OneEach(es: seq<Entry>) {
    forall i, j | 0 <= i < j < |es| && es[i].valid && es[j].valid :: es[i].ip != es[j].ip
  }

  /** The table as a map from addresses to what is known of them. */
  predicate Knows(es: seq<Entry>, ip: u32, mac: Mac, added: int) {
    Entry(ip, mac, added, true) in es
  }

  function Aged(e: Entry, now: int): Entry {
    if e.valid && now - e.added > ARP_ENTRY_TIMEOUT then e.(valid := false) else e
  }

  /** The slot an address goes to: its own, else the first free one, else a random one. */
  predicate Chosen(es: seq<Entry>, ip: u32, random: nat, slot: nat) {
    slot < |es| &&
    if exists i :: 0 <= i < |es| && Matches(es[i], ip) then Matches(es[slot], ip)
    else if exists i :: 0 <= i < |es| && !es[i].valid then !es[slot].valid && forall j | 0 <= j < slot :: es[j].valid
    else slot == random % |es|
  }

  /** fs is the table es with the address in the slot chosen for it. */
  ghost predicate Stored(es: seq<Entry>, fs: seq<Entry>, ip: u32, mac: Mac, now: int, random: nat) {
    exists slot: nat :: Chosen(es, ip, random, slot) && fs == es[slot := Entry(ip, mac, now, true)]
  }

  /** An insertion changes what is known of the address, and of one other address only if the table was full. */
  lemma InsertedTable(es: seq<Entry>, ip: u32, mac: Mac, now: int, random: nat, slot: nat)
    requires OneEach(es) && Chosen(es, ip, random, slot)
    ensures var fs := es[slot := Entry(ip, mac, now, true)];
      && OneEach(fs)
      && (forall m, t :: Knows(fs, ip, m, t) <==> m == mac && t == now)
      && (forall x, m, t | x != ip :: Knows(fs, x, m, t) <==> Knows(es, x, m, t) && !Matches(es[slot], x))
      && (es[slot].valid && es[slot].ip != ip ==> forall i | 0 <= i < |es| :: es[i].valid && es[i].ip != ip)
  {
    var fs := es[slot := Entry(ip, mac, now, true)];
    assert fs[slot] in fs;
    forall x, m, t | x != ip
      ensures Knows(fs, x, m, t) <==> Knows(es, x, m, t) && !Matches(es[slot], x)
    {
      var e := Entry(x, m, t, true);
      if e in fs {
        var i :| 0 <= i < |fs| && fs[i] == e;
        assert es[i] == e && i != slot;
      }
      if e in es && !Matches(es[slot], x) {
        var i :| 0 <= i < |es| && es[i] == e;
        assert fs[i] == e;
      }
    }
  }

  /** Ageing forgets exactly what was added more than fifteen seconds ago. */
  lemma AgedTable(es: seq<Entry>, fs: seq<Entry>, now: int, x: u32, m: Mac, t: int)
    requires |fs| == |es| && forall i | 0 <= i < |es| :: fs[i] == Aged(es[i], now)
    ensures Knows(fs, x, m, t) <==> Knows(es, x, m, t) && now - t <= ARP_ENTRY_TIMEOUT
  {
    var e := Entry(x, m, t, true);
    if e in fs {
      var i :| 0 <= i < |fs| && fs[i] == e;
      assert es[i] == e;
    }
    if e in es && now - t <= ARP_ENTRY_TIMEOUT {
      var i :| 0 <= i < |es| && es[i] == e;
      assert fs[i] == e;
    }
  }

  // ---------------------------------------------------------------------
  // The cache
  // ---------------------------------------------------------------------

  /** Every appended packet is pending or has left, in the order of appending, once. */
  ghost predicate Conserved(log: seq<Event>, rs: seq<Req>) {
    forall k :: In(log, k) == Out(log, k) + Pending(rs, k)
  }

  /** A request was asked for once, and once more per retry. */
  ghost predicate Counted(log: seq<Event>, rs: seq<Req>) {
    && (forall r | r in rs :: Tries(log, r.key) == r.retries + 1)
    && (forall k | !Awaited(rs, k) :: Tries(log, k) == 0)
  }

  /** The request list after one more packet for a key. */
  function Appends(rs: seq<Req>, k: Key, packet: Packet, now: int): seq<Req> {
    if rs == [] then [Req(k, now, 0, [packet])]
    else if rs[0].key == k then [rs[0].(packets := rs[0].packets + [packet])] + rs[1..]
    else [rs[0]] + Appends(rs[1..], k, packet, now)
  }

  lemma {:induction false} AppendsMore(rs: seq<Req>, i: nat, packet: Packet, now: int)
    requires i < |rs| && forall j | 0 <= j < i :: rs[j].key != rs[i].key
    ensures Appends(rs, rs[i].key, packet, now) == rs[i := rs[i].(packets := rs[i].packets + [packet])]
    decreases i
  {
    if i > 0 { AppendsMore(rs[1..], i - 1, packet, now); }
  }

  lemma {:induction false} AppendsFirst(rs: seq<Req>, k: Key, packet: Packet, now: int)
    requires forall j | 0 <= j < |rs| :: rs[j].key != k
    ensures Appends(rs, k, packet, now) == rs + [Req(k, now, 0, [packet])]
    decreases |rs|
  {
    if rs != [] { AppendsFirst(rs[1..], k, packet, now); }
  }

  /** What the cache's behaviour over time depends on: requests, and what happened. */
  datatype State = ArpState(requests: seq<Req>, log: seq<Event>)

  datatype Op =
    | Append(key: Key, packet: Packet, now: int)
    | Insert(ip: u32, mac: Mac)
    | Sweep(now: int)

  function Step(s: State, op: Op): State {
    match op
    case Append(k, packet, now) =>
      var asked := if Awaited(s.requests, k) then [] else [Asked(k)];
      ArpState(Appends(s.requests, k, packet, now), s.log + [Appended(k, packet)] + asked)
    case Insert(ip, mac) =>
      ArpState(Others(s.requests, ip), s.log + Deliveries(s.requests, ip, mac))
    case Sweep(now) =>
      ArpState(Swept(s.requests, now), s.log + AskedAgain(s.requests, now) + Refusals(TimedOut(s.requests)))
  }

  /** What every operation keeps. */
  ghost predicate Accounts(s: State) {
    Unique(s.requests) && Sound(s.requests) && Conserved(s.log, s.requests) && Counted(s.log, s.requests)
  }

  class Cache {
    const entries: array<Entry>
    var requests: seq<Req>
    ghost var log: seq<Event>

    ghost predicate Valid()
      reads this, entries
    {
      && entries.Length == MAX_ARP_SIZE && OneEach(entries[..])
      && Accounts(Ledger())
    }

    ghost function Ledger(): (s: State)
      reads this
      ensures s.requests == requests && s.log == log
    {
      ArpState(requests, log)
    }

    constructor ()
      ensures Valid() && fresh(entries) && requests == [] && log == []
      ensures forall i | 0 <= i < MAX_ARP_SIZE :: !entries[i].valid
    {
      entries := new Entry[MAX_ARP_SIZE](_ => Entry(0, 0, 0, false));
      requests, log := [], [];
    }

    /** Finds the address's entry, if the table knows it. */
    method Lookup(ip: u32) returns (found: bool, mac: Mac)
      requires Valid()
      ensures found ==> exists added :: Knows(entries[..], ip, mac, added)
      ensures found ==> forall m, added | Knows(entries[..], ip, m, added) :: m == mac
      ensures !found ==> forall m, added :: !Knows(entries[..], ip, m, added)
    {
      found, mac := false, 0;
      ghost var slot := 0;
      for i := 0 to MAX_ARP_SIZE
        invariant found ==> slot < i && Matches(entries[slot], ip) && entries[slot].mac == mac
        invariant !found ==> forall j | 0 <= j < i :: !Matches(entries[j], ip)
      {
        if !found && entries[i].valid && entries[i].ip == ip {
          mac, found, slot := entries[i].mac, true, i;
        }
      }
      if found {
        assert Knows(entries[..], ip, mac, entries[slot].added) by { assert entries[slot] == entries[..][slot]; }
        forall m, added | Knows(entries[..], ip, m, added)
          ensures m == mac
        {
          var j :| 0 <= j < MAX_ARP_SIZE && entries[..][j] == Entry(ip, m, added, true);
          assert j == slot by {
            assert entries[..][slot].valid && entries[..][slot].ip == ip;
          }
        }
      }
    }

    /** Lets a packet wait; the first one for its key sends an ARP request. */
    method Append(k: Key, packet: Packet, now: int)
      requires Valid()
      modifies this
      ensures Valid() && Ledger() == Step(old(Ledger()), Op.Append(k, packet, now))
    {
      hide Accounts, Appends, OneEach;
      StepKeepsAccounts(Ledger(), Op.Append(k, packet, now));
      for i := 0 to |requests|
        invariant forall j | 0 <= j < i :: requests[j].key != k
        invariant requests == old(requests) && log == old(log)
      {
        var r := requests[i];
        if r.key == k {
          AppendsMore(requests, i, packet, now);
          assert Awaited(requests, k) by { assert requests[i] in requests; }
          assert log + [Appended(k, packet)] + [] == log + [Appended(k, packet)];
          requests := requests[i := r.(packets := r.packets + [packet])];
          log := log + [Appended(k, packet)];
          return;
        }
      }
      AppendsFirst(requests, k, packet, now);
      requests := requests + [Req(k, now, 0, [packet])];
      log := log + [Appended(k, packet)] + [Asked(k)];
    }

    /** Stores an address and sends every packet that waited for it. */
    method Insert(ip: u32, mac: Mac, now: int, random: nat)
      requires Valid()
      modifies this, entries
      ensures Valid()
      ensures Stored(old(entries[..]), entries[..], ip, mac, now, random)
      ensures Ledger() == Step(old(Ledger()), Op.Insert(ip, mac))
    {
      hide Accounts, OneEach;
      StepKeepsAccounts(Ledger(), Op.Insert(ip, mac));
      var slot := SelectSlot(ip, random);
      InsertedTable(entries[..], ip, mac, now, random, slot);
      ghost var es := entries[..];
      entries[slot] := Entry(ip, mac, now, true);
      assert entries[..] == es[slot := Entry(ip, mac, now, true)];
      Release(ip, mac);
    }

    /** Sends what waited for an address and takes its requests off the list. */
    method Release(ip: u32, mac: Mac)
      modifies this
      ensures requests == Others(old(requests), ip)
      ensures log == old(log) + Deliveries(old(requests), ip, mac)
    {
      ghost var was, rs := log, requests;
      var kept: seq<Req> := [];
      for i := 0 to |requests|
        invariant requests == rs
        invariant kept == Others(rs[..i], ip) && log == was + Deliveries(rs[..i], ip, mac)
      {
        var r := requests[i];
        assert rs[..i + 1][..i] == rs[..i];
        if r.key.ip != ip {
          kept := kept + [r];
          continue;
        }
        Deliver(r.key, mac, r.packets);
      }
      assert rs[..|rs|] == rs;
      requests := kept;
    }

    /** Sends packets out with the address they waited for, in their order. */
    method Deliver(k: Key, mac: Mac, packets: seq<Packet>)
      modifies this`log
      ensures log == old(log) + Resolved(k, mac, packets)
    {
      for i := 0 to |packets|
        invariant log == old(log) + Resolved(k, mac, packets[..i])
      {
        assert packets[..i + 1][..i] == packets[..i];
        log := log + [Delivered(k, packets[i], mac)];
      }
      assert packets[..|packets|] == packets;
    }

    /** Picks the slot for an address. */
    method SelectSlot(ip: u32, random: nat) returns (slot: nat)
      requires entries.Length == MAX_ARP_SIZE
      ensures Chosen(entries[..], ip, random, slot)
    {
      slot := MAX_ARP_SIZE;
      for i := 0 to MAX_ARP_SIZE
        invariant slot <= MAX_ARP_SIZE
        invariant forall j | 0 <= j < i :: !Matches(entries[j], ip)
        invariant slot == MAX_ARP_SIZE ==> forall j | 0 <= j < i :: entries[j].valid
        invariant slot < MAX_ARP_SIZE ==>
          slot < i && !entries[slot].valid && forall j | 0 <= j < slot :: entries[j].valid
      {
        if entries[i].valid {
          if entries[i].ip == ip {
            slot := i;
            break;
          }
        } else {
          slot := if i < slot then i else slot;
        }
      }
      if slot == MAX_ARP_SIZE {
        slot := random % MAX_ARP_SIZE;
      }
    }

    /** Forgets old entries, retries requests, and gives up on those that were retried five times. */
    method Sweep(now: int)
      requires Valid()
      modifies this, entries
      ensures Valid()
      ensures forall i | 0 <= i < MAX_ARP_SIZE :: entries[i] == Aged(old(entries[i]), now)
      ensures Ledger() == Step(old(Ledger()), Op.Sweep(now))
    {
      hide Accounts;
      StepKeepsAccounts(Ledger(), Op.Sweep(now));
      Age(now);
      var late := Retry(now);
      Refuse(late);
    }

    /** Invalidates entries older than fifteen seconds. */
    method Age(now: int)
      requires entries.Length == MAX_ARP_SIZE
      modifies entries
      ensures forall i | 0 <= i < MAX_ARP_SIZE :: entries[i] == Aged(old(entries[i]), now)
      ensures old(OneEach(entries[..])) ==> OneEach(entries[..])
    {
      for i := 0 to MAX_ARP_SIZE
        invariant forall j | 0 <= j < MAX_ARP_SIZE ::
          entries[j] == if j < i then Aged(old(entries[j]), now) else old(entries[j])
      {
        if entries[i].valid && now - entries[i].added > ARP_ENTRY_TIMEOUT {
          entries[i] := entries[i].(valid := false);
        }
      }
    }

    /** Repeats the ARP requests that are due, and takes those off the list that were repeated enough. */
    method Retry(now: int) returns (late: seq<Req>)
      modifies this
      ensures requests == Swept(old(requests), now) && late == TimedOut(old(requests))
      ensures log == old(log) + AskedAgain(old(requests), now)
    {
      ghost var was, rs := log, requests;
      var kept: seq<Req> := [];
      late := [];
      for i := 0 to |requests|
        invariant requests == rs
        invariant kept == Swept(rs[..i], now) && late == TimedOut(rs[..i]) && log == was + AskedAgain(rs[..i], now)
      {
        var r := requests[i];
        assert rs[..i + 1][..i] == rs[..i];
        if r.retries == ARP_REQUEST_MAX_RETRIES {
          late := late + [r];
        } else {
          if now - r.sent >= 1 {
            log := log + [Asked(r.key)];
            r := r.(sent := now, retries := r.retries + 1);
          }
          kept := kept + [r];
        }
      }
      assert rs[..|rs|] == rs;
      requests := kept;
    }

    /** Answers every packet of the requests that timed out with host unreachable. */
    method Refuse(late: seq<Req>)
      modifies this`log
      ensures log == old(log) + Refusals(late)
    {
      for i := 0 to |late|
        invariant log == old(log) + Refusals(late[..i])
      {
        var k, packets := late[i].key, late[i].packets;
        ghost var was := log;
        for j := 0 to |packets|
          invariant log == was + Refused(k, packets[..j])
        {
          assert packets[..j + 1][..j] == packets[..j];
          log := log + [Unreachable(k, packets[j])];
        }
        assert packets[..|packets|] == packets;
        assert late[..i + 1][..i] == late[..i];
      }
      assert late[..|late|] == late;
    }
  }

  /** A packet more keeps the accounts. */
  lemma AppendKeepsAccounts(log: seq<Event>, rs: seq<Req>, k: Key, packet: Packet, now: int)
    requires Unique(rs) && Sound(rs) && Conserved(log, rs) && Counted(log, rs)
    ensures var s := Step(ArpState(rs, log), Op.Append(k, packet, now));
      Unique(s.requests) && Sound(s.requests) && Conserved(s.log, s.requests) && Counted(s.log, s.requests)
  {
    if Awaited(rs, k) {
      var i := AwaitedAt(rs, k);
      AppendsMore(rs, i, packet, now);
      MoreKeepsAccounts(log, rs, i, packet);
      assert log + [Appended(k, packet)] + [] == log + [Appended(k, packet)];
    } else {
      forall j | 0 <= j < |rs| ensures rs[j].key != k { assert rs[j] in rs; }
      AppendsFirst(rs, k, packet, now);
      FirstKeepsAccounts(log, rs, k, packet, now);
    }
    hide *;
  }

  lemma AwaitedAt(rs: seq<Req>, k: Key) returns (i: nat)
    requires Unique(rs) && Awaited(rs, k)
    ensures i < |rs| && rs[i].key == k && forall j | 0 <= j < i :: rs[j].key != k
  {
    var r :| r in rs && r.key == k;
    i :| 0 <= i < |rs| && rs[i] == r;
  }

  lemma MoreKeepsAccounts(log: seq<Event>, rs: seq<Req>, i: nat, packet: Packet)
    requires Unique(rs) && Sound(rs) && Conserved(log, rs) && Counted(log, rs) && i < |rs|
    ensures var r := rs[i];
      var rs', log' := rs[i := r.(packets := r.packets + [packet])], log + [Appended(r.key, packet)];
      Unique(rs') && Sound(rs') && Conserved(log', rs') && Counted(log', rs')
  {
    hide In, Out, Tries, Pending, Unique;
    var r := rs[i];
    var more := r.(packets := r.packets + [packet]);
    var rs', log' := rs[i := more], log + [Appended(r.key, packet)];
    forall k
      ensures In(log', k) == Out(log', k) + Pending(rs', k) && Tries(log', k) == Tries(log, k)
    {
      PendingMore(rs, i, more, k);
      if k == r.key { PendingAt(rs, i); }
      SnocLog(log, Appended(r.key, packet), k);
    }
    PendingMore(rs, i, more, r.key);
    SameKeys(rs, i, more);
    assert rs[i] in rs;
    assert forall q | q in rs' :: q == more || q in rs;
  }

  lemma FirstKeepsAccounts(log: seq<Event>, rs: seq<Req>, k: Key, packet: Packet, now: int)
    requires Unique(rs) && Sound(rs) && Conserved(log, rs) && Counted(log, rs) && !Awaited(rs, k)
    ensures var rs', log' := rs + [Req(k, now, 0, [packet])], log + [Appended(k, packet)] + [Asked(k)];
      Unique(rs') && Sound(rs') && Conserved(log', rs') && Counted(log', rs')
  {
    hide In, Out, Tries, Pending, Unique;
    var r := Req(k, now, 0, [packet]);
    var rs', log' := rs + [r], log + [Appended(k, packet)] + [Asked(k)];
    UniqueSnoc(rs, r);
    forall j
      ensures In(log', j) == Out(log', j) + Pending(rs', j)
      ensures Tries(log', j) == Tries(log, j) + if j == k then 1 else 0
    {
      PendingSnoc(rs, r, j);
      SnocLog(log, Appended(k, packet), j);
      SnocLog(log + [Appended(k, packet)], Asked(k), j);
    }
    AwaitedSnoc(rs, r);
  }

  /** Delivering what waited for an address keeps the accounts. */
  lemma InsertKeepsAccounts(log: seq<Event>, rs: seq<Req>, ip: u32, mac: Mac)
    requires Unique(rs) && Sound(rs) && Conserved(log, rs) && Counted(log, rs)
    ensures Unique(Others(rs, ip)) && Sound(Others(rs, ip))
    ensures Conserved(log + Deliveries(rs, ip, mac), Others(rs, ip))
    ensures Counted(log + Deliveries(rs, ip, mac), Others(rs, ip))
  {
    hide In, Out, Tries, Pending, Others, Deliveries, Unique;
    OthersKept(rs, ip);
    var more, rest := Deliveries(rs, ip, mac), Others(rs, ip);
    forall k
      ensures In(log + more, k) == Out(log + more, k) + Pending(rest, k)
      ensures !Awaited(rest, k) ==> Tries(log + more, k) == 0
      ensures k.ip != ip ==> Tries(log + more, k) == Tries(log, k)
    {
      LogAppend(log, more, k);
      DeliveriesLog(rs, ip, mac, k);
      OthersPending(rs, ip, k);
      if Awaited(rs, k) {
        var r :| r in rs && r.key == k;
        if k.ip == ip { AwaitedPending(rs, r); } else { assert r in rest; }
      }
    }
  }

  /** A waiting key has waiting packets. */
  lemma AwaitedPending(rs: seq<Req>, r: Req)
    requires Unique(rs) && Sound(rs) && r in rs
    ensures Pending(rs, r.key) == r.packets && r.packets != []
  {
    var i :| 0 <= i < |rs| && rs[i] == r;
    PendingAt(rs, i);
  }

  /** A sweep keeps the accounts. */
  lemma SweepKeepsAccounts(log: seq<Event>, rs: seq<Req>, now: int)
    requires Unique(rs) && Sound(rs) && Conserved(log, rs) && Counted(log, rs)
    ensures Unique(Swept(rs, now)) && Sound(Swept(rs, now))
    ensures Conserved(log + AskedAgain(rs, now) + Refusals(TimedOut(rs)), Swept(rs, now))
    ensures Counted(log + AskedAgain(rs, now) + Refusals(TimedOut(rs)), Swept(rs, now))
  {
    hide In, Out, Tries, Pending, Swept, TimedOut, Refusals, AskedAgain, Unique;
    SweptKept(rs, now);
    TimedOutAre(rs);
    var asked, refused, kept := AskedAgain(rs, now), Refusals(TimedOut(rs)), Swept(rs, now);
    forall k
      ensures In(log + asked + refused, k) == Out(log + asked + refused, k) + Pending(kept, k)
      ensures !Awaited(kept, k) ==> Tries(log + asked + refused, k) == 0
      ensures forall q | q in kept && q.key == k :: Tries(log + asked + refused, k) == q.retries + 1
    {
      LogAppend(log, asked, k);
      LogAppend(log + asked, refused, k);
      AskedAgainLog(rs, now, k);
      RefusalsLog(TimedOut(rs), k);
      SweptPending(rs, now, k);
      SweepTries(rs, now, k);
      if Awaited(rs, k) {
        var r :| r in rs && r.key == k;
        forall q | q in kept && q.key == k
          ensures Tries(log + asked + refused, k) == q.retries + 1
        {
          OnlyOne(rs, now, r, q);
        }
        assert !Expired(r) ==> Retried(r, now) in kept;
      }
    }
  }

  /** The kept request of a key is the retried one, and a dropped one leaves packets behind. */
  lemma OnlyOne(rs: seq<Req>, now: int, r: Req, q: Req)
    requires Unique(rs) && r in rs && FromBefore(rs, now, q) && q.key == r.key
    ensures !Expired(r) && q == Retried(r, now)
  {
    var p :| p in rs && !Expired(p) && q == Retried(p, now);
    var i :| 0 <= i < |rs| && rs[i] == r;
    var j :| 0 <= j < |rs| && rs[j] == p;
    assert i == j;
  }

  lemma SweepTries(rs: seq<Req>, now: int, k: Key)
    requires Unique(rs) && Sound(rs)
    ensures forall r | r in rs && r.key == k :: Expired(r) <==> Pending(TimedOut(rs), k) != []
    ensures !Awaited(rs, k) ==> Pending(TimedOut(rs), k) == [] && !Awaited(Swept(rs, now), k)
  {
    hide Pending, Swept, TimedOut, Unique;
    TimedOutAre(rs);
    SweptKept(rs, now);
    forall r | r in rs && r.key == k
      ensures Expired(r) <==> Pending(TimedOut(rs), k) != []
    {
      if Expired(r) {
        AwaitedPending(TimedOut(rs), r);
      } else if Awaited(TimedOut(rs), k) {
        var p :| p in TimedOut(rs) && p.key == k;
        SameRequest(rs, r, p);
      } else {
        NotAwaitedPending(TimedOut(rs), k);
      }
    }
    if !Awaited(rs, k) {
      NotAwaitedPending(TimedOut(rs), k);
    }
  }

  lemma SameRequest(rs: seq<Req>, r: Req, p: Req)
    requires Unique(rs) && r in rs && p in rs && r.key == p.key
    ensures r == p
  {
    var i :| 0 <= i < |rs| && rs[i] == r;
    var j :| 0 <= j < |rs| && rs[j] == p;
    assert i == j;
  }

  /** Every operation keeps the accounts. */
  lemma StepKeepsAccounts(s: State, op: Op)
    requires Accounts(s)
    ensures Accounts(Step(s, op))
  {
    match op
    case Append(k, packet, now) => AppendKeepsAccounts(s.log, s.requests, k, packet, now);
    case Insert(ip, mac) => InsertKeepsAccounts(s.log, s.requests, ip, mac);
    case Sweep(now) => SweepKeepsAccounts(s.log, s.requests, now);
    hide Unique, Sound, Conserved, Counted;
  }

  lemma AwaitedSnoc(rs: seq<Req>, r: Req)
    ensures forall k :: Awaited(rs + [r], k) <==> Awaited(rs, k) || k == r.key
  {
    forall k
      ensures Awaited(rs + [r], k) <==> Awaited(rs, k) || k == r.key
    {
      assert r in rs + [r];
      assert forall q | q in rs :: q in rs + [r];
    }
  }

  lemma SameKeys(rs: seq<Req>, i: nat, r: Req)
    requires i < |rs| && r.key == rs[i].key
    ensures forall k :: Awaited(rs, k) ==> Awaited(rs[i := r], k)
  {
    forall k | Awaited(rs, k)
      ensures Awaited(rs[i := r], k)
    {
      var q :| q in rs && q.key == k;
      var j :| 0 <= j < |rs| && rs[j] == q;
      assert rs[i := r][j] in rs[i := r];
    }
  }
}
