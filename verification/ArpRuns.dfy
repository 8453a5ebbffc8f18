/** The ARP cache over runs that mix appended packets, insertions and sweeps: how long packets wait, and what for. */
module ArpRuns {
  import opened Basics
  import opened ArpCache

  /** The state after a run of operations. */
  function Run(s: State, ops: seq<Op>): State
    decreases |ops|
  {
    if ops == [] then s else Run(Step(s, ops[0]), ops[1..])
  }

  /** The times of the sweeps in a run. */
  function Sweeps(ops: seq<Op>): seq<int> {
    if ops == [] then [] else (if ops[0].Sweep? then [ops[0].now] else []) + Sweeps(ops[1..])
  }

  /** The packets that a run appends for a key. */
  function Given(ops: seq<Op>, k: Key): seq<Packet> {
    if ops == [] then []
    else (if ops[0].Append? && ops[0].key == k then [ops[0].packet] else []) + Given(ops[1..], k)
  }

  /** The key's address is inserted during the run. */
  predicate Resolves(ops: seq<Op>, k: Key) {
    exists i :: 0 <= i < |ops| && ops[i].Insert? && ops[i].ip == k.ip
  }

  /** Sweeps at least a second apart, from a time on. */
  predicate Spaced(from: int, times: seq<int>)
    decreases |times|
  {
    times != [] ==> times[0] - from >= 1 && Spaced(times[0], times[1..])
  }

  // ---------------------------------------------------------------------
  // The request of one key
  // ---------------------------------------------------------------------

  function Find(rs: seq<Req>, k: Key): (r: Option<Req>)
    ensures r.Some? ==> r.value in rs && r.value.key == k
    ensures r.None? ==> !Awaited(rs, k)
  {
    if rs == [] then None
    else if rs[0].key == k then Some(rs[0])
    else
      var r := Find(rs[1..], k);
      assert forall q | q in rs :: q == rs[0] || q in rs[1..];
      r
  }

  lemma FindIs(rs: seq<Req>, r: Req)
    requires Unique(rs) && r in rs
    ensures Find(rs, r.key) == Some(r)
  {
    assert Awaited(rs, r.key);
    SameRequest(rs, r, Find(rs, r.key).value);
  }

  lemma FindNot(rs: seq<Req>, k: Key)
    requires !Awaited(rs, k)
    ensures Find(rs, k) == None
  {}

  lemma PendingIsFound(rs: seq<Req>, k: Key)
    requires Unique(rs)
    ensures Pending(rs, k) == if Find(rs, k).None? then [] else Find(rs, k).value.packets
  {
    match Find(rs, k)
    case None => NotAwaitedPending(rs, k);
    case Some(r) =>
      var i :| 0 <= i < |rs| && rs[i] == r;
      PendingAt(rs, i);
  }

  /** A key's request with one more packet, a new request if there was none. */
  function OneMore(f: Option<Req>, k: Key, packet: Packet, now: int): Req {
    if f.None? then Req(k, now, 0, [packet]) else f.value.(packets := f.value.packets + [packet])
  }

  lemma {:induction false} AppendFind(rs: seq<Req>, k: Key, packet: Packet, now: int, j: Key)
    ensures Find(Appends(rs, k, packet, now), j) ==
      if j != k then Find(rs, j) else Some(OneMore(Find(rs, k), k, packet, now))
    decreases |rs|
  {
    if rs != [] && rs[0].key != k { AppendFind(rs[1..], k, packet, now, j); }
  }

  lemma InsertFind(rs: seq<Req>, ip: u32, k: Key)
    requires Unique(rs)
    ensures Find(Others(rs, ip), k) == if k.ip == ip then None else Find(rs, k)
  {
    OthersKept(rs, ip);
    hide Others, Unique;
    var f := Find(rs, k);
    if f.Some? && k.ip != ip {
      FindIs(Others(rs, ip), f.value);
    } else {
      FindNot(Others(rs, ip), k);
    }
  }

  lemma SweepFind(rs: seq<Req>, now: int, k: Key)
    requires Unique(rs)
    ensures var f := Find(rs, k);
      && Find(Swept(rs, now), k) == (if f.None? || Expired(f.value) then None else Some(Retried(f.value, now)))
      && Find(TimedOut(rs), k) == (if f.None? || !Expired(f.value) then None else f)
  {
    SweptKept(rs, now);
    TimedOutAre(rs);
    hide Swept, TimedOut, Unique, Expired, Due;
    match Find(rs, k)
    case None =>
      FindNot(Swept(rs, now), k);
      FindNot(TimedOut(rs), k);
    case Some(r) =>
      if Expired(r) {
        FindIs(TimedOut(rs), r);
        NotKept(rs, now, r);
        FindNot(Swept(rs, now), k);
      } else {
        assert FromBefore(rs, now, Retried(r, now));
        FindIs(Swept(rs, now), Retried(r, now));
        NotLate(rs, r);
        FindNot(TimedOut(rs), k);
      }
  }

  lemma NotKept(rs: seq<Req>, now: int, r: Req)
    requires Unique(rs) && r in rs && Expired(r)
    ensures !Awaited(Swept(rs, now), r.key)
  {
    SweptKept(rs, now);
    forall q | q in Swept(rs, now)
      ensures q.key != r.key
    {
      var p :| p in rs && !Expired(p) && q == Retried(p, now);
      if p.key == r.key { SameRequest(rs, r, p); }
    }
  }

  lemma NotLate(rs: seq<Req>, r: Req)
    requires Unique(rs) && r in rs && !Expired(r)
    ensures !Awaited(TimedOut(rs), r.key)
  {
    TimedOutAre(rs);
    forall q | q in TimedOut(rs)
      ensures q.key != r.key
    {
      if q.key == r.key { SameRequest(rs, r, q); }
    }
  }

  // ---------------------------------------------------------------------
  // One step, as one key sees it
  // ---------------------------------------------------------------------

  /** What an operation makes of a key's request. */
  function NextOf(f: Option<Req>, op: Op, k: Key): Option<Req> {
    match op
    case Append(j, packet, now) => if j != k then f else Some(OneMore(f, k, packet, now))
    case Insert(ip, _) => if k.ip == ip then None else f
    case Sweep(now) => if f.None? || Expired(f.value) then None else Some(Retried(f.value, now))
  }

  lemma StepFind(s: State, op: Op, k: Key)
    requires Accounts(s)
    ensures Find(Step(s, op).requests, k) == NextOf(Find(s.requests, k), op, k)
  {
    hide Conserved, Counted, Sound, Unique, Find;
    match op
    case Append(j, packet, now) => AppendFind(s.requests, j, packet, now, k);
    case Insert(ip, _) => InsertFind(s.requests, ip, k);
    case Sweep(now) => SweepFind(s.requests, now, k);
  }

  /** An operation lets the key's packets go: its address came, or its request expired. */
  predicate Releases(op: Op, r: Req) {
    match op
    case Append(_, _, _) => false
    case Insert(ip, _) => ip == r.key.ip
    case Sweep(_) => Expired(r)
  }

  lemma AppendOut(s: State, j: Key, packet: Packet, now: int, k: Key)
    ensures Out(Step(s, Append(j, packet, now)).log, k) == Out(s.log, k)
  {
    hide Out, Appends;
    var log := s.log + [Appended(j, packet)];
    SnocLog(s.log, Appended(j, packet), k);
    SnocLog(log, Asked(j), k);
    assert log + [] == log;
  }

  lemma InsertOut(s: State, ip: u32, mac: Mac, k: Key)
    requires Unique(s.requests)
    ensures Out(Step(s, Insert(ip, mac)).log, k)
      == Out(s.log, k) + if k.ip == ip && Find(s.requests, k).Some? then Find(s.requests, k).value.packets else []
  {
    hide Out, Find, Unique, Deliveries, Others;
    PendingIsFound(s.requests, k);
    LogAppend(s.log, Deliveries(s.requests, ip, mac), k);
    DeliveriesLog(s.requests, ip, mac, k);
  }

  lemma SweepLog(log: seq<Event>, rs: seq<Req>, now: int, k: Key)
    requires Unique(rs)
    ensures Out(log + AskedAgain(rs, now) + Refusals(TimedOut(rs)), k) == Out(log, k) + Pending(TimedOut(rs), k)
  {
    hide Unique, Expired, AskedAgain, Refusals, TimedOut, Out, Pending, In, Tries, Awaited;
    LogAppend(log, AskedAgain(rs, now), k);
    LogAppend(log + AskedAgain(rs, now), Refusals(TimedOut(rs)), k);
    AskedAgainLog(rs, now, k);
    RefusalsLog(TimedOut(rs), k);
  }

  lemma SweepOut(s: State, now: int, k: Key)
    requires Unique(s.requests)
    ensures var f := Find(s.requests, k);
      Out(Step(s, Sweep(now)).log, k) == Out(s.log, k) + if f.Some? && Expired(f.value) then f.value.packets else []
  {
    TimedOutAre(s.requests);
    hide Out, Find, Unique, Expired, AskedAgain, Refusals, TimedOut, Swept, Pending;
    SweepLog(s.log, s.requests, now, k);
    PendingIsFound(TimedOut(s.requests), k);
    SweepFind(s.requests, now, k);
  }

  /** What leaves for the key in one operation: everything that waited, or nothing. */
  lemma StepOut(s: State, op: Op, k: Key)
    requires Accounts(s)
    ensures var f := Find(s.requests, k);
      Out(Step(s, op).log, k) == Out(s.log, k) + if f.Some? && Releases(op, f.value) then f.value.packets else []
  {
    hide Conserved, Counted, Sound, Unique, Out, Find, Step, Expired;
    match op
    case Append(j, packet, now) => AppendOut(s, j, packet, now, k);
    case Insert(ip, mac) => InsertOut(s, ip, mac, k);
    case Sweep(now) => SweepOut(s, now, k);
  }

  /** A request of a sound cache has at most five retries. */
  lemma FoundIsSound(s: State, k: Key)
    requires Accounts(s) && Find(s.requests, k).Some?
    ensures Find(s.requests, k).value.retries <= ARP_REQUEST_MAX_RETRIES && Find(s.requests, k).value.packets != []
  {
    hide Unique, Conserved, Counted;
  }

  // ---------------------------------------------------------------------
  // Runs
  // ---------------------------------------------------------------------

  /** Conservation, order, uniqueness and retry counts hold after every run. */
  lemma {:induction false} RunKeepsAccounts(s: State, ops: seq<Op>)
    requires Accounts(s)
    ensures Accounts(Run(s, ops))
    decreases |ops|
  {
    hide Accounts, Step;
    if ops != [] {
      StepKeepsAccounts(s, ops[0]);
      RunKeepsAccounts(Step(s, ops[0]), ops[1..]);
    }
  }

  /** What has left a run stays left. */
  lemma {:induction false} OutOnlyGrows(s: State, ops: seq<Op>, k: Key)
    requires Accounts(s)
    ensures Out(s.log, k) <= Out(Run(s, ops).log, k)
    decreases |ops|
  {
    hide Accounts, Step, Out, Find;
    if ops != [] {
      StepKeepsAccounts(s, ops[0]);
      StepOut(s, ops[0], k);
      OutOnlyGrows(Step(s, ops[0]), ops[1..], k);
    }
  }

  /**
   Whatever else happens, every packet waiting for a key is delivered or refused, in order, by the time of the
   (6 - retries)-th sweep, if sweeps are a second apart.
   */
  lemma {:induction false} WaitIsBounded(s: State, k: Key, ops: seq<Op>)
    requires Accounts(s) && Find(s.requests, k).Some?
    requires Spaced(Find(s.requests, k).value.sent, Sweeps(ops))
    requires |Sweeps(ops)| > ARP_REQUEST_MAX_RETRIES - Find(s.requests, k).value.retries
    ensures Out(s.log, k) + Find(s.requests, k).value.packets <= Out(Run(s, ops).log, k)
    decreases |ops|
  {
    hide Accounts, Step, Out, Find;
    var r := Find(s.requests, k).value;
    FoundIsSound(s, k);
    assert ops != [];
    var op, s', rest := ops[0], Step(s, ops[0]), ops[1..];
    StepKeepsAccounts(s, op);
    StepOut(s, op, k);
    StepFind(s, op, k);
    if Releases(op, r) {
      OutOnlyGrows(s', rest, k);
    } else {
      if op.Sweep? { assert Sweeps(ops)[1..] == Sweeps(rest); } else { assert Sweeps(ops) == Sweeps(rest); }
      WaitIsBounded(s', k, rest);
      var r' := Find(s'.requests, k).value;
      assert r.packets <= r'.packets;
    }
  }

  /** A request is still there, with the packets that came since. */
  predicate Survives(s: State, k: Key, r: Req, more: seq<Packet>) {
    Find(s.requests, k).Some? && Find(s.requests, k).value.packets == r.packets + more
  }

  /** Sweeps at these times leave a request some retry: there are too few of them, or they come too early. */
  predicate Spared(r: Req, times: seq<int>) {
    || |times| <= ARP_REQUEST_MAX_RETRIES - r.retries
    || (r.retries < ARP_REQUEST_MAX_RETRIES
        && forall i | 0 <= i < |times| :: times[i] < r.sent + ARP_REQUEST_MAX_RETRIES - r.retries)
  }

  lemma SparedNext(r: Req, times: seq<int>)
    requires r.retries <= ARP_REQUEST_MAX_RETRIES && times != [] && Spared(r, times)
    ensures !Expired(r) && Spared(Retried(r, times[0]), times[1..])
  {
    assert forall i | 0 <= i < |times[1..]| :: times[1..][i] == times[i + 1];
  }

  lemma NextSweeps(ops: seq<Op>)
    requires ops != []
    ensures if ops[0].Sweep? then Sweeps(ops) == [ops[0].now] + Sweeps(ops[1..]) else Sweeps(ops) == Sweeps(ops[1..])
    ensures ops[0].Sweep? ==> Sweeps(ops)[1..] == Sweeps(ops[1..])
  {}

  lemma NextGiven(ops: seq<Op>, k: Key, packets: seq<Packet>)
    requires ops != []
    ensures packets + Given(ops, k)
      == (if ops[0].Append? && ops[0].key == k then packets + [ops[0].packet] else packets) + Given(ops[1..], k)
  {}

  lemma NextSpared(f: Req, ops: seq<Op>, k: Key)
    requires f.key == k && f.retries <= ARP_REQUEST_MAX_RETRIES && ops != [] && !Resolves(ops, k)
    requires Spared(f, Sweeps(ops))
    ensures var g := NextOf(Some(f), ops[0], k);
      && !Releases(ops[0], f) && g.Some? && Spared(g.value, Sweeps(ops[1..]))
      && g.value.packets + Given(ops[1..], k) == f.packets + Given(ops, k)
  {
    NextSweeps(ops);
    NextGiven(ops, k, f.packets);
    assert !(ops[0].Insert? && ops[0].ip == k.ip);
    hide Sweeps, Given, Resolves, Expired;
    if ops[0].Sweep? { SparedNext(f, Sweeps(ops)); }
  }

  /**
   A request whose address does not come is never given up early: not before its retries are used, and not before
   a second has passed for each of them, in whatever rhythm sweeps come.
   */
  lemma {:induction false} NeverDroppedEarly(s: State, k: Key, ops: seq<Op>)
    requires Accounts(s) && Find(s.requests, k).Some? && !Resolves(ops, k)
    requires Spared(Find(s.requests, k).value, Sweeps(ops))
    ensures Survives(Run(s, ops), k, Find(s.requests, k).value, Given(ops, k))
    ensures Out(Run(s, ops).log, k) == Out(s.log, k)
    decreases |ops|
  {
    hide Accounts, Step, Out, Find, Spared, Sweeps, Resolves, NextOf, Releases;
    if ops != [] {
      var f, op, s' := Find(s.requests, k), ops[0], Step(s, ops[0]);
      FoundIsSound(s, k);
      StepKeepsAccounts(s, op);
      StepOut(s, op, k);
      StepFind(s, op, k);
      NotResolvedLater(ops, k);
      NextSpared(f.value, ops, k);
      NeverDroppedEarly(s', k, ops[1..]);
    }
  }

  lemma NotResolvedLater(ops: seq<Op>, k: Key)
    requires ops != [] && !Resolves(ops, k)
    ensures !Resolves(ops[1..], k) && !(ops[0].Insert? && ops[0].ip == k.ip)
  {
    assert forall i | 0 <= i < |ops[1..]| :: ops[1..][i] == ops[i + 1];
  }

  /** Among spaced sweeps, a request whose address does not come survives exactly as many as it has retries left. */
  lemma LifetimeExactly(s: State, k: Key, ops: seq<Op>)
    requires Accounts(s) && Find(s.requests, k).Some? && !Resolves(ops, k)
    requires Spaced(Find(s.requests, k).value.sent, Sweeps(ops))
    ensures |Sweeps(ops)| <= ARP_REQUEST_MAX_RETRIES - Find(s.requests, k).value.retries
      <==> Out(Run(s, ops).log, k) == Out(s.log, k)
  {
    hide Accounts, Out, Find, Run;
    if |Sweeps(ops)| <= ARP_REQUEST_MAX_RETRIES - Find(s.requests, k).value.retries {
      NeverDroppedEarly(s, k, ops);
    } else {
      FoundIsSound(s, k);
      WaitIsBounded(s, k, ops);
    }
  }

  /** Packets are refused only after six ARP requests: the first and five retries. */
  lemma RefusedAfterSix(s: State, now: int, r: Req)
    requires Accounts(s)
    ensures r in TimedOut(s.requests) ==> Tries(s.log, r.key) == 6 && !Awaited(Step(s, Op.Sweep(now)).requests, r.key)
  {
    TimedOutAre(s.requests);
    if r in TimedOut(s.requests) { NotKept(s.requests, now, r); }
    hide Unique, Conserved, Sound;
  }
}
