/**
 How packets leave the ARP cache: sent with the MAC address of the insertion that released them, or refused,
 and refused only if no insertion of their address came first.
 */
module ArpFates {
  import opened Basics
  import opened ArpCache
  import opened ArpRuns

  // ---------------------------------------------------------------------
  // What one operation lets out
  // ---------------------------------------------------------------------

  lemma {:induction false} ResolvedAre(k: Key, mac: Mac, packets: seq<Packet>)
    ensures forall e | e in Resolved(k, mac, packets) ::
      e.Delivered? && e.key == k && e.mac == mac && e.packet in packets
    decreases |packets|
  {
    if packets != [] { ResolvedAre(k, mac, packets[..|packets| - 1]); }
  }

  lemma {:induction false} DeliveriesAre(rs: seq<Req>, ip: u32, mac: Mac)
    ensures forall e | e in Deliveries(rs, ip, mac) :: e.Delivered? && e.key.ip == ip && e.mac == mac
    decreases |rs|
  {
    if rs != [] {
      DeliveriesAre(rs[..|rs| - 1], ip, mac);
      var r := rs[|rs| - 1];
      ResolvedAre(r.key, mac, r.packets);
      hide Resolved;
    }
  }

  /** An insertion sends, and with its MAC address, for its IP address; it lets out nothing else. */
  lemma InsertionSends(s: State, ip: u32, mac: Mac)
    ensures var log := Step(s, Op.Insert(ip, mac)).log;
      && s.log <= log
      && forall i | |s.log| <= i < |log| :: log[i].Delivered? && log[i].key.ip == ip && log[i].mac == mac
  {
    var more := Deliveries(s.requests, ip, mac);
    DeliveriesAre(s.requests, ip, mac);
    hide Deliveries, Others;
    forall i | |s.log| <= i < |s.log + more|
      ensures (s.log + more)[i] in more
    {}
  }

  lemma {:induction false} RefusedAre(k: Key, packets: seq<Packet>)
    ensures forall e | e in Refused(k, packets) :: e.Unreachable? && e.key == k && e.packet in packets
    decreases |packets|
  {
    if packets != [] { RefusedAre(k, packets[..|packets| - 1]); }
  }

  /** The event refuses a packet of a request whose retries are used up. */
  predicate RefusesLate(rs: seq<Req>, e: Event) {
    e.Unreachable? && exists r :: r in rs && r.retries == 5 && r.key == e.key && e.packet in r.packets
  }

  lemma {:induction false} RefusalsAre(rs: seq<Req>)
    ensures forall e | e in Refusals(TimedOut(rs)) :: RefusesLate(rs, e)
    decreases |rs|
  {
    if rs != [] {
      var front, r := rs[..|rs| - 1], rs[|rs| - 1];
      RefusalsAre(front);
      LateKept(rs);
      RefusedAre(r.key, r.packets);
      if Expired(r) {
        RefusalsSnoc(TimedOut(front), r);
        forall e | e in Refused(r.key, r.packets) ensures RefusesLate(rs, e) { assert r in rs; }
      }
      hide Refused, Refusals, RefusesLate, TimedOut;
      assert TimedOut(rs) == if Expired(r) then TimedOut(front) + [r] else TimedOut(front) by { TimedOutSnoc(rs); }
    }
  }

  lemma TimedOutSnoc(rs: seq<Req>)
    requires rs != []
    ensures var front, r := rs[..|rs| - 1], rs[|rs| - 1];
      TimedOut(rs) == if Expired(r) then TimedOut(front) + [r] else TimedOut(front)
  {}

  lemma RefusalsSnoc(rs: seq<Req>, r: Req)
    ensures Refusals(rs + [r]) == Refusals(rs) + Refused(r.key, r.packets)
  {
    assert (rs + [r])[..|rs|] == rs;
  }

  lemma LateKept(rs: seq<Req>)
    requires rs != []
    ensures forall e | RefusesLate(rs[..|rs| - 1], e) :: RefusesLate(rs, e)
  {
    assert forall r | r in rs[..|rs| - 1] :: r in rs;
  }

  lemma {:induction false} AskedAre(rs: seq<Req>, now: int)
    ensures forall e | e in AskedAgain(rs, now) :: e.Asked?
    decreases |rs|
  {
    if rs != [] { AskedAre(rs[..|rs| - 1], now); }
  }

  /** A sweep asks again, and refuses packets of requests that were asked for six times; it sends nothing. */
  lemma SweepRefuses(s: State, now: int)
    ensures var log := Step(s, Op.Sweep(now)).log;
      && s.log <= log
      && forall i | |s.log| <= i < |log| :: log[i].Asked? || RefusesLate(s.requests, log[i])
  {
    var asked, refused := AskedAgain(s.requests, now), Refusals(TimedOut(s.requests));
    AskedAre(s.requests, now);
    RefusalsAre(s.requests);
    hide AskedAgain, Refusals, TimedOut, Swept, RefusesLate;
    var log := s.log + asked + refused;
    forall i | |s.log| <= i < |log|
      ensures log[i] in asked || log[i] in refused
    {
      if i < |s.log| + |asked| { assert log[i] == asked[i - |s.log|]; }
    }
  }

  // ---------------------------------------------------------------------
  // The fates of a key's packets, in order
  // ---------------------------------------------------------------------

  datatype Fate = SentTo(packet: Packet, mac: Mac) | Unreached(packet: Packet)

  /** What became of the packets of a key that have left. */
  function Left(log: seq<Event>, k: Key): seq<Fate> {
    if log == [] then []
    else
      var e := log[|log| - 1];
      Left(log[..|log| - 1], k) +
      if e.Delivered? && e.key == k then [SentTo(e.packet, e.mac)]
      else if e.Unreachable? && e.key == k then [Unreached(e.packet)]
      else []
  }

  function SentAll(packets: seq<Packet>, mac: Mac): seq<Fate> {
    seq(|packets|, i requires 0 <= i < |packets| => SentTo(packets[i], mac))
  }

  function UnreachedAll(packets: seq<Packet>): seq<Fate> {
    seq(|packets|, i requires 0 <= i < |packets| => Unreached(packets[i]))
  }

  /** The packets that have left are those with a fate, in the same order. */
  lemma {:induction false} LeftIsOut(log: seq<Event>, k: Key)
    ensures |Left(log, k)| == |Out(log, k)|
    ensures forall i | 0 <= i < |Out(log, k)| :: Left(log, k)[i].packet == Out(log, k)[i]
    decreases |log|
  {
    if log != [] { LeftIsOut(log[..|log| - 1], k); }
  }

  lemma {:induction false} LeftAppend(log: seq<Event>, more: seq<Event>, k: Key)
    ensures Left(log + more, k) == Left(log, k) + Left(more, k)
    decreases |more|
  {
    if more == [] {
      assert log + more == log;
    } else {
      var n := |more| - 1;
      assert (log + more)[..|log + more| - 1] == log + more[..n];
      LeftAppend(log, more[..n], k);
    }
  }

  lemma LeftSnoc(log: seq<Event>, e: Event, k: Key)
    ensures Left(log + [e], k) == Left(log, k) +
      if e.Delivered? && e.key == k then [SentTo(e.packet, e.mac)]
      else if e.Unreachable? && e.key == k then [Unreached(e.packet)]
      else []
  {
    assert (log + [e])[..|log|] == log;
  }

  lemma {:induction false} ResolvedLeft(k: Key, mac: Mac, packets: seq<Packet>, j: Key)
    ensures Left(Resolved(k, mac, packets), j) == if j == k then SentAll(packets, mac) else []
    decreases |packets|
  {
    if packets != [] {
      var n := |packets| - 1;
      ResolvedLeft(k, mac, packets[..n], j);
      LeftSnoc(Resolved(k, mac, packets[..n]), Delivered(k, packets[n], mac), j);
      hide Left;
    }
  }

  lemma SentJoin(a: seq<Packet>, b: seq<Packet>, mac: Mac)
    ensures SentAll(a + b, mac) == SentAll(a, mac) + SentAll(b, mac)
    ensures UnreachedAll(a + b) == UnreachedAll(a) + UnreachedAll(b)
  {}

  lemma {:induction false} DeliveriesLeft(rs: seq<Req>, ip: u32, mac: Mac, k: Key)
    ensures Left(Deliveries(rs, ip, mac), k) == if k.ip == ip then SentAll(Pending(rs, k), mac) else []
    decreases |rs|
  {
    if rs != [] {
      var n := |rs| - 1;
      var r := rs[n];
      var log, more := Deliveries(rs[..n], ip, mac), Resolved(r.key, mac, r.packets);
      DeliveriesLeft(rs[..n], ip, mac, k);
      ResolvedLeft(r.key, mac, r.packets, k);
      LeftAppend(log, more, k);
      SentJoin(Pending(rs[..n], k), r.packets, mac);
      hide Left, SentAll, Resolved;
      assert Deliveries(rs, ip, mac) == if r.key.ip == ip then log + more else log;
      assert Pending(rs, k) == if r.key == k then Pending(rs[..n], k) + r.packets else Pending(rs[..n], k);
    }
  }

  lemma {:induction false} RefusedLeft(k: Key, packets: seq<Packet>, j: Key)
    ensures Left(Refused(k, packets), j) == if j == k then UnreachedAll(packets) else []
    decreases |packets|
  {
    if packets != [] {
      var n := |packets| - 1;
      RefusedLeft(k, packets[..n], j);
      LeftSnoc(Refused(k, packets[..n]), Unreachable(k, packets[n]), j);
      hide Left;
    }
  }

  lemma {:induction false} RefusalsLeft(rs: seq<Req>, k: Key)
    ensures Left(Refusals(rs), k) == UnreachedAll(Pending(rs, k))
    decreases |rs|
  {
    if rs != [] {
      var n := |rs| - 1;
      var r := rs[n];
      RefusalsLeft(rs[..n], k);
      RefusedLeft(r.key, r.packets, k);
      LeftAppend(Refusals(rs[..n]), Refused(r.key, r.packets), k);
      SentJoin(Pending(rs[..n], k), r.packets, 0);
      hide Left, UnreachedAll, SentAll, Refused;
      assert Pending(rs, k) == if r.key == k then Pending(rs[..n], k) + r.packets else Pending(rs[..n], k);
    }
  }

  lemma {:induction false} AskedLeft(rs: seq<Req>, now: int, k: Key)
    ensures Left(AskedAgain(rs, now), k) == []
    decreases |rs|
  {
    if rs != [] {
      var n := |rs| - 1;
      AskedLeft(rs[..n], now, k);
      LeftSnoc(AskedAgain(rs[..n], now), Asked(rs[n].key), k);
      hide Left;
      assert AskedAgain(rs[..n], now) + [] == AskedAgain(rs[..n], now);
    }
  }

  // ---------------------------------------------------------------------
  // Steps and runs
  // ---------------------------------------------------------------------

  /** What an operation makes of the packets waiting in a key's request, if there is one. */
  function FatesOf(f: Option<Req>, op: Op, k: Key): seq<Fate> {
    if f.None? then []
    else match op
      case Append(_, _, _) => []
      case Insert(ip, mac) => if ip == k.ip then SentAll(f.value.packets, mac) else []
      case Sweep(_) => if f.value.retries == 5 then UnreachedAll(f.value.packets) else []
  }

  lemma AppendLeft(s: State, j: Key, packet: Packet, now: int, k: Key)
    ensures Left(Step(s, Op.Append(j, packet, now)).log, k) == Left(s.log, k)
  {
    hide Appends;
    var log := s.log + [Appended(j, packet)];
    LeftSnoc(s.log, Appended(j, packet), k);
    LeftSnoc(log, Asked(j), k);
    hide Left;
    assert log + [] == log;
  }

  lemma InsertLeft(s: State, ip: u32, mac: Mac, k: Key)
    requires Unique(s.requests)
    ensures Left(Step(s, Op.Insert(ip, mac)).log, k)
      == Left(s.log, k) + FatesOf(Find(s.requests, k), Op.Insert(ip, mac), k)
  {
    hide Left, Find, Unique, Deliveries, Others;
    PendingIsFound(s.requests, k);
    LeftAppend(s.log, Deliveries(s.requests, ip, mac), k);
    DeliveriesLeft(s.requests, ip, mac, k);
  }

  lemma SweepLogLeft(log: seq<Event>, rs: seq<Req>, now: int, k: Key)
    ensures Left(log + AskedAgain(rs, now) + Refusals(TimedOut(rs)), k)
      == Left(log, k) + UnreachedAll(Pending(TimedOut(rs), k))
  {
    hide AskedAgain, Refusals, TimedOut, Left, Pending, UnreachedAll;
    LeftAppend(log, AskedAgain(rs, now), k);
    LeftAppend(log + AskedAgain(rs, now), Refusals(TimedOut(rs)), k);
    AskedLeft(rs, now, k);
    RefusalsLeft(TimedOut(rs), k);
  }

  lemma LatePending(rs: seq<Req>, now: int, k: Key)
    requires Unique(rs)
    ensures var f := Find(rs, k);
      Pending(TimedOut(rs), k) == if f.Some? && Expired(f.value) then f.value.packets else []
  {
    TimedOutAre(rs);
    hide Find, Unique, TimedOut, Swept, Pending, Expired;
    PendingIsFound(TimedOut(rs), k);
    SweepFind(rs, now, k);
  }

  lemma SweepLeft(s: State, now: int, k: Key)
    requires Unique(s.requests)
    ensures Left(Step(s, Op.Sweep(now)).log, k) == Left(s.log, k) + FatesOf(Find(s.requests, k), Op.Sweep(now), k)
  {
    assert UnreachedAll([]) == [];
    hide Left, Find, Unique, AskedAgain, Refusals, TimedOut, Swept, Pending, UnreachedAll;
    SweepLogLeft(s.log, s.requests, now, k);
    LatePending(s.requests, now, k);
  }

  /** In one operation everything that waited for a key leaves, all with one fate, or nothing does. */
  lemma StepLeft(s: State, op: Op, k: Key)
    requires Accounts(s)
    ensures Left(Step(s, op).log, k) == Left(s.log, k) + FatesOf(Find(s.requests, k), op, k)
  {
    hide Conserved, Counted, Sound, Unique, Left, Find, Step, SentAll, UnreachedAll;
    match op
    case Append(j, packet, now) => AppendLeft(s, j, packet, now, k);
    case Insert(ip, mac) => InsertLeft(s, ip, mac, k);
    case Sweep(now) => SweepLeft(s, now, k);
  }

  lemma {:induction false} LeftOnlyGrows(s: State, ops: seq<Op>, k: Key)
    requires Accounts(s)
    ensures Left(s.log, k) <= Left(Run(s, ops).log, k)
    decreases |ops|
  {
    hide Accounts, Step, Left, Find, FatesOf;
    if ops != [] {
      StepKeepsAccounts(s, ops[0]);
      StepLeft(s, ops[0], k);
      LeftOnlyGrows(Step(s, ops[0]), ops[1..], k);
    }
  }

  /** The i-th operation lets out what waits for the key: an insertion of its address, or a sweep. */
  predicate LetsOut(op: Op, k: Key, packets: seq<Packet>, fates: seq<Fate>) {
    match op
    case Append(_, _, _) => false
    case Insert(ip, mac) => ip == k.ip && fates == SentAll(packets, mac)
    case Sweep(_) => fates == UnreachedAll(packets)
  }

  lemma ReleaseLetsOut(f: Req, op: Op, k: Key)
    requires f.key == k && Releases(op, f)
    ensures LetsOut(op, k, f.packets, FatesOf(Some(f), op, k))
  {}

  lemma KeptHasNoFate(f: Req, op: Op, k: Key)
    requires f.key == k && !Releases(op, f)
    ensures FatesOf(Some(f), op, k) == [] && !(op.Insert? && op.ip == k.ip) && NextOf(Some(f), op, k).Some?
    ensures NextOf(Some(f), op, k).value.key == k
    ensures NextOf(Some(f), op, k).value.packets
      == if op.Append? && op.key == k then f.packets + [op.packet] else f.packets
  {}

  lemma RunTail(ops: seq<Op>, i: nat)
    requires ops != [] && i < |ops[1..]|
    ensures ops[..i + 1][0] == ops[0] && ops[..i + 1][1..] == ops[1..][..i] && ops[1..][i] == ops[i + 1]
  {}

  lemma ResolvesLater(ops: seq<Op>, k: Key)
    requires ops != [] && !(ops[0].Insert? && ops[0].ip == k.ip) && !Resolves(ops[1..], k)
    ensures !Resolves(ops, k)
  {
    assert forall i | 0 < i < |ops| :: ops[i] == ops[1..][i - 1];
  }

  /**
   Follows a request through a run of appends, insertions and sweeps. Either it is still there, with the packets
   added since; or it was let out at once, in order, by an insertion of its address, every packet with the MAC of that
   insertion, or by a sweep, every packet refused, and then no insertion of its address came before.
   */
  lemma {:induction false} HowPacketsLeave(s: State, k: Key, ops: seq<Op>) returns (at: Option<nat>, fates: seq<Fate>)
    requires Accounts(s) && Find(s.requests, k).Some?
    ensures at.None? ==> !Resolves(ops, k) && Left(Run(s, ops).log, k) == Left(s.log, k)
    ensures at.None? ==> Survives(Run(s, ops), k, Find(s.requests, k).value, Given(ops, k))
    ensures at.Some? ==> at.value < |ops| && !Resolves(ops[..at.value], k)
    ensures at.Some? ==>
      LetsOut(ops[at.value], k, Find(s.requests, k).value.packets + Given(ops[..at.value], k), fates)
    ensures at.Some? ==> Left(s.log, k) + fates <= Left(Run(s, ops).log, k)
    decreases |ops|
  {
    hide Accounts, Step, Left, Find, NextOf, Releases, FatesOf, LetsOut, Given, Resolves;
    var f := Find(s.requests, k).value;
    if ops == [] {
      NothingGiven(k, f.packets);
      return None, [];
    }
    var op, s' := ops[0], Step(s, ops[0]);
    StepKeepsAccounts(s, op);
    StepLeft(s, op, k);
    StepFind(s, op, k);
    if Releases(op, f) {
      ReleaseLetsOut(f, op, k);
      NothingGiven(k, f.packets);
      at, fates := Some(0), FatesOf(Some(f), op, k);
      LeftOnlyGrows(s', ops[1..], k);
      assert ops[..0] == [];
    } else {
      KeptHasNoFate(f, op, k);
      var later;
      later, fates := HowPacketsLeave(s', k, ops[1..]);
      if later.None? {
        at := None;
        ResolvesLater(ops, k);
        NextGiven(ops, k, f.packets);
      } else {
        var i := later.value;
        at := Some(i + 1);
        RunTail(ops, i);
        ResolvesLater(ops[..i + 1], k);
        NextGiven(ops[..i + 1], k, f.packets);
      }
    }
  }

  lemma NothingGiven(k: Key, packets: seq<Packet>)
    ensures packets + Given([], k) == packets && !Resolves([], k)
  {}
}
