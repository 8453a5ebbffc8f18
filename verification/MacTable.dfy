/** The learning switch's hash table of MAC addresses, as a map with ageing. */
module MacTable {
  import opened Basics
  import opened Bits

  const HASH_8BITS := 256
  const MAC_PORT_TIMEOUT := 30

  type Mac = m: seq<u8> | |m| == 6 witness [0, 0, 0, 0, 0, 0]

  datatype Entry = Entry(mac: Mac, port: nat, visited: int)

  /** What the switch has learned of an address. */
  datatype Learned = Learned(port: nat, visited: int)

  type View = map<Mac, Learned>

  function HashOf(bytes: seq<u8>): (h: nat)
    ensures h < HASH_8BITS
  {
    if bytes == [] then 0
    else
      XorIsByte(HashOf(bytes[..|bytes| - 1]), bytes[|bytes| - 1]);
      Xor(HashOf(bytes[..|bytes| - 1]), bytes[|bytes| - 1], 8)
  }

  lemma XorIsByte(a: nat, b: nat)
    ensures Xor(a, b, 8) < HASH_8BITS
  {
    XorBound(a, b, 8);
    assert Power2(4) == 16;
  }

  /** How many bytes have a bit set. */
  function Ones(bytes: seq<u8>, k: nat): nat {
    if bytes == [] then 0 else Ones(bytes[..|bytes| - 1], k) + if Bit(bytes[|bytes| - 1], k) then 1 else 0
  }

  /** A bit of the hash is the parity of that bit over the bytes. */
  lemma {:induction false} HashBit(bytes: seq<u8>, k: nat)
    requires k < 8
    ensures Bit(HashOf(bytes), k) <==> Ones(bytes, k) % 2 == 1
  {
    if bytes == [] {
      NoBits(k);
    } else {
      var n := |bytes| - 1;
      HashBit(bytes[..n], k);
      XorBit(HashOf(bytes[..n]), bytes[n], 8, k);
      hide Bit, Xor;
    }
  }

  method Hash8(bytes: seq<u8>) returns (h: nat)
    ensures h == HashOf(bytes)
  {
    h := 0;
    for i := 0 to |bytes|
      invariant h == HashOf(bytes[..i])
    {
      assert bytes[..i + 1][..i] == bytes[..i];
      h := Xor(h, bytes[i], 8);
    }
    assert bytes[..|bytes|] == bytes;
  }

  // ---------------------------------------------------------------------
  // Buckets
  // ---------------------------------------------------------------------

  predicate InBucket(b: seq<Entry>, m: Mac) {
    exists j :: 0 <= j < |b| && b[j].mac == m
  }

  /** A bucket holds each address that hashes to it once, and nothing else, with what is known of it. */
  ghost predicate BucketOk(b: seq<Entry>, h: nat, view: View) {
    && (forall j | 0 <= j < |b| ::
          HashOf(b[j].mac) == h && b[j].mac in view && view[b[j].mac] == Learned(b[j].port, b[j].visited))
    && (forall j, k | 0 <= j < k < |b| :: b[j].mac != b[k].mac)
    && (forall m | m in view && HashOf(m) == h :: InBucket(b, m))
  }

  ghost predicate Refines(t: seq<seq<Entry>>, view: View) {
    |t| == HASH_8BITS && forall h | 0 <= h < HASH_8BITS :: BucketOk(t[h], h, view)
  }

  /** A view that agrees with another one outside a bucket. */
  ghost predicate AgreesOutside(v: View, w: View, h: nat) {
    forall m | HashOf(m) != h :: (m in v <==> m in w) && (m in v ==> v[m] == w[m])
  }

  lemma OtherBucket(b: seq<Entry>, g: nat, v: View, w: View, h: nat)
    requires BucketOk(b, g, v) && AgreesOutside(v, w, h) && g != h
    ensures BucketOk(b, g, w)
  {}

  /** Changing one bucket changes what is known of its addresses only. */
  lemma ChangeBucket(t: seq<seq<Entry>>, v: View, h: nat, b: seq<Entry>, w: View)
    requires Refines(t, v) && h < HASH_8BITS && BucketOk(b, h, w) && AgreesOutside(v, w, h)
    ensures Refines(t[h := b], w)
  {
    forall g | 0 <= g < HASH_8BITS && g != h
      ensures BucketOk(t[g], g, w)
    {
      OtherBucket(t[g], g, v, w, h);
    }
    hide BucketOk;
  }

  lemma WithoutHolds(b: seq<Entry>, j: nat, m: Mac)
    requires j < |b| && InBucket(b, m) && m != b[j].mac
    ensures InBucket(Without(b, j), m)
  {
    WithoutAt(b, j);
    hide Without;
    var k :| 0 <= k < |b| && b[k].mac == m;
    assert Without(b, j)[if k < j then k else k - 1].mac == m;
  }

  lemma WithoutOk(b: seq<Entry>, h: nat, v: View, j: nat)
    requires BucketOk(b, h, v) && j < |b|
    ensures BucketOk(Without(b, j), h, v - {b[j].mac})
  {
    WithoutAt(b, j);
    hide Without, InBucket;
    var c, w := Without(b, j), v - {b[j].mac};
    forall m | m in w && HashOf(m) == h
      ensures InBucket(c, m)
    {
      WithoutHolds(b, j, m);
    }
    forall k | 0 <= k < |c|
      ensures HashOf(c[k].mac) == h && c[k].mac in w && w[c[k].mac] == Learned(c[k].port, c[k].visited)
    {
      assert c[k] == b[if k < j then k else k + 1];
    }
  }

  lemma InFrontOk(b: seq<Entry>, h: nat, v: View, e: Entry)
    requires BucketOk(b, h, v) && HashOf(e.mac) == h && e.mac !in v
    ensures BucketOk([e] + b, h, v[e.mac := Learned(e.port, e.visited)])
  {
    var c, w := [e] + b, v[e.mac := Learned(e.port, e.visited)];
    forall m | m in w && HashOf(m) == h
      ensures InBucket(c, m)
    {
      if m == e.mac {
        assert c[0].mac == m;
      } else {
        assert InBucket(b, m);
        var k :| 0 <= k < |b| && b[k].mac == m;
        assert c[k + 1].mac == m;
      }
    }
    forall k | 0 <= k < |c|
      ensures HashOf(c[k].mac) == h && c[k].mac in w && w[c[k].mac] == Learned(c[k].port, c[k].visited)
    {
      assert k > 0 ==> c[k] == b[k - 1];
    }
  }

  lemma RefreshOk(b: seq<Entry>, h: nat, v: View, j: nat, now: int)
    requires BucketOk(b, h, v) && j < |b|
    ensures BucketOk(b[j := b[j].(visited := now)], h, v[b[j].mac := Learned(b[j].port, now)])
  {
    var c, w := b[j := b[j].(visited := now)], v[b[j].mac := Learned(b[j].port, now)];
    forall m | m in w && HashOf(m) == h
      ensures InBucket(c, m)
    {
      if m == b[j].mac {
        assert c[j].mac == m;
      } else {
        assert InBucket(b, m);
        var k :| 0 <= k < |b| && b[k].mac == m;
        assert c[k].mac == m;
      }
    }
  }

  /** An address that its bucket does not hold is not known. */
  lemma NotInBucket(b: seq<Entry>, h: nat, v: View, m: Mac)
    requires BucketOk(b, h, v) && HashOf(m) == h && forall j | 0 <= j < |b| :: b[j].mac != m
    ensures m !in v
  {
    assert m in v ==> InBucket(b, m);
  }

  // ---------------------------------------------------------------------
  // The table
  // ---------------------------------------------------------------------

  predicate Idle(l: Learned, now: int) {
    now - l.visited >= MAC_PORT_TIMEOUT
  }

  ghost function Asked(v: View, m: Mac, now: int): View {
    if m in v then v[m := Learned(v[m].port, now)] else v
  }

  ghost function Aged(v: View, now: int): View {
    map m | m in v && !Idle(v[m], now) :: v[m]
  }

  ghost function IdleOnes(v: View, now: int): set<Mac> {
    set m | m in v && Idle(v[m], now)
  }

  /** If none but idle addresses are gone and nobody left is idle, then the table is aged. */
  lemma OnlyIdleGone(v: View, gone: set<Mac>, now: int)
    requires gone <= IdleOnes(v, now) && forall m | m in v - gone :: !Idle((v - gone)[m], now)
    ensures v - gone == Aged(v, now) && gone == IdleOnes(v, now)
  {
    forall m | m in v && m !in gone
      ensures !Idle(v[m], now)
    {
      assert m in v - gone;
    }
  }

  class Table {
    const buckets: array<seq<Entry>>
    ghost var view: View

    ghost predicate Valid()
      reads this, buckets
    {
      buckets.Length == HASH_8BITS && Refines(buckets[..], view)
    }

    constructor ()
      ensures Valid() && fresh(buckets) && view == map[]
    {
      buckets := new seq<Entry>[HASH_8BITS](_ => []);
      view := map[];
    }

    /** The port an address was learned on; asking keeps the entry alive. */
    method LookupPort(m: Mac, now: int) returns (port: Option<nat>)
      requires Valid()
      modifies this, buckets
      ensures Valid() && view == Asked(old(view), m, now)
      ensures port == if m in old(view) then Some(old(view)[m].port) else None
    {
      hide BucketOk;
      var h := Hash8(m);
      var b := buckets[h];
      assert BucketOk(b, h, view) by { assert buckets[..][h] == b; }
      for j := 0 to |b|
        invariant Valid() && view == old(view) && buckets[h] == b && forall k | 0 <= k < j :: b[k].mac != m
      {
        if b[j].mac == m {
          EntryKnown(b, h, view, j);
          RefreshOk(b, h, view, j, now);
          Put(h, b[j := b[j].(visited := now)], view[m := Learned(b[j].port, now)]);
          return Some(b[j].port);
        }
      }
      NotInBucket(b, h, view, m);
      return None;
    }

    /** Replaces a bucket. */
    method Put(h: nat, b: seq<Entry>, ghost v: View)
      requires Valid() && h < HASH_8BITS && BucketOk(b, h, v) && AgreesOutside(view, v, h)
      modifies this, buckets
      ensures Valid() && view == v && buckets[h] == b
      ensures forall g | 0 <= g < HASH_8BITS && g != h :: buckets[g] == old(buckets[g])
    {
      hide BucketOk, AgreesOutside;
      ChangeBucket(buckets[..], view, h, b, v);
      assert buckets[..][h := b] == buckets[..h] + [b] + buckets[h + 1..];
      buckets[h] := b;
      view := v;
      assert buckets[..] == buckets[..h] + [b] + buckets[h + 1..];
    }

    /** Learns the port of an address; a new address may be forgotten for lack of memory. */
    method InsertMacPort(m: Mac, port: nat, now: int, memory: bool)
      requires Valid()
      modifies this, buckets
      ensures Valid()
      ensures view == if m in old(view) || memory then old(view)[m := Learned(port, now)] else old(view)
    {
      hide BucketOk;
      var h := Hash8(m);
      var b := buckets[h];
      assert BucketOk(b, h, view) by { assert buckets[..][h] == b; }
      for j := 0 to |b|
        invariant Valid() && view == old(view) && buckets[h] == b && forall k | 0 <= k < j :: b[k].mac != m
      {
        if b[j].mac == m {
          EntryKnown(b, h, view, j);
          WithoutOk(b, h, view, j);
          InFrontOk(Without(b, j), h, view - {m}, b[j].(port := port, visited := now));
          assert (view - {m})[m := Learned(port, now)] == view[m := Learned(port, now)];
          Put(h, [b[j].(port := port, visited := now)] + Without(b, j), view[m := Learned(port, now)]);
          return;
        }
      }
      NotInBucket(b, h, view, m);
      if !memory { return; }
      InFrontOk(b, h, view, Entry(m, port, now));
      Put(h, [Entry(m, port, now)] + b, view[m := Learned(port, now)]);
    }

    /** Deletes the entries of one bucket that were idle for thirty seconds. */
    method SweepBucket(h: nat, now: int) returns (count: nat, ghost gone: set<Mac>)
      requires Valid() && h < HASH_8BITS
      modifies this, buckets
      ensures Valid() && view == old(view) - gone && |gone| == count && gone <= IdleOnes(old(view), now)
      ensures AllFresh(buckets[h], now)
      ensures forall g | 0 <= g < HASH_8BITS && g != h :: buckets[g] == old(buckets[g])
    {
      hide BucketOk;
      count, gone := 0, {};
      var j := 0;
      while j < |buckets[h]|
        invariant Valid() && view == old(view) - gone && |gone| == count && gone <= IdleOnes(old(view), now)
        invariant forall g | 0 <= g < HASH_8BITS && g != h :: buckets[g] == old(buckets[g])
        invariant j <= |buckets[h]| && AllFresh(buckets[h][..j], now)
        decreases |buckets[h]| - j
      {
        var b := buckets[h];
        assert BucketOk(b, h, view) by { assert buckets[..][h] == b; }
        EntryKnown(b, h, view, j);
        if now - b[j].visited >= MAC_PORT_TIMEOUT {
          WithoutOk(b, h, view, j);
          Put(h, Without(b, j), view - {b[j].mac});
          gone := gone + {b[j].mac};
          count := count + 1;
          assert Without(b, j)[..j] == b[..j];
        } else {
          j := j + 1;
        }
      }
      assert buckets[h][..j] == buckets[h];
    }

    /** Deletes the entries that were idle for thirty seconds and tells how many there were. */
    method SweepAged(now: int) returns (count: nat)
      requires Valid()
      modifies this, buckets
      ensures Valid() && view == Aged(old(view), now)
      ensures count == |IdleOnes(old(view), now)|
    {
      hide BucketOk, AllFresh;
      count := 0;
      ghost var gone: set<Mac> := {};
      for h := 0 to HASH_8BITS
        invariant Valid() && view == old(view) - gone && |gone| == count && gone <= IdleOnes(old(view), now)
        invariant forall g | 0 <= g < h :: AllFresh(buckets[g], now)
      {
        var n, more := SweepBucket(h, now);
        assert old(view) - gone - more == old(view) - (gone + more);
        assert |gone + more| == |gone| + |more|;
        gone, count := gone + more, count + n;
      }
      forall m | m in view
        ensures !Idle(view[m], now)
      {
        FreshKnown(buckets[..], view, m, now);
      }
      OnlyIdleGone(old(view), gone, now);
    }

    /** Forwards a frame: to the port of its destination if that is known (else to all), and learns its source. */
    method HandlePacket(source: Mac, destination: Mac, from: nat, now: int, memory: bool) returns (out: Option<nat>)
      requires Valid()
      modifies this, buckets
      ensures Valid() && out == if destination in old(view) then Some(old(view)[destination].port) else None
      ensures view == Effect(Effect(old(view), Ask(destination, now)), Learn(source, from, now, memory))
    {
      out := LookupPort(destination, now);
      InsertMacPort(source, from, now, memory);
    }
  }

  predicate AllFresh(b: seq<Entry>, now: int) {
    forall j | 0 <= j < |b| :: now - b[j].visited < MAC_PORT_TIMEOUT
  }

  lemma EntryKnown(b: seq<Entry>, h: nat, v: View, j: nat)
    requires BucketOk(b, h, v) && j < |b|
    ensures HashOf(b[j].mac) == h && b[j].mac in v && v[b[j].mac] == Learned(b[j].port, b[j].visited)
  {}

  lemma FreshKnown(t: seq<seq<Entry>>, v: View, m: Mac, now: int)
    requires Refines(t, v) && m in v && forall h | 0 <= h < |t| :: AllFresh(t[h], now)
    ensures !Idle(v[m], now)
  {
    var h := HashOf(m);
    assert BucketOk(t[h], h, v);
    assert InBucket(t[h], m);
    var j :| 0 <= j < |t[h]| && t[h][j].mac == m;
    assert AllFresh(t[h], now);
  }

  // ---------------------------------------------------------------------
  // Runs
  // ---------------------------------------------------------------------

  datatype Op =
    | Learn(mac: Mac, port: nat, now: int, memory: bool)
    | Ask(mac: Mac, now: int)
    | Age(now: int)

  ghost function Effect(v: View, op: Op): View {
    match op
    case Learn(m, port, now, memory) => if m in v || memory then v[m := Learned(port, now)] else v
    case Ask(m, now) => Asked(v, m, now)
    case Age(now) => Aged(v, now)
  }

  /** What is known after a run of operations. */
  ghost function After(v: View, ops: seq<Op>): View {
    if ops == [] then v else Effect(After(v, ops[..|ops| - 1]), ops[|ops| - 1])
  }

  /** The port on which an address was seen last. */
  function LastPort(ops: seq<Op>, m: Mac): Option<nat> {
    if ops == [] then None
    else
      var op := ops[|ops| - 1];
      if op.Learn? && op.mac == m then Some(op.port) else LastPort(ops[..|ops| - 1], m)
  }

  /** Over any run, a known address is known with the port it was seen on last. */
  lemma {:induction false} KnowsLastPort(ops: seq<Op>, m: Mac)
    requires m in After(map[], ops)
    ensures LastPort(ops, m) == Some(After(map[], ops)[m].port)
    decreases |ops|
  {
    if ops != [] {
      var n := |ops| - 1;
      var before := After(map[], ops[..n]);
      if m in before { KnowsLastPort(ops[..n], m); }
    }
  }

  /** Nothing in a run makes an address seen at time t go idle, or moves it. */
  predicate Keeps(op: Op, m: Mac, t: int) {
    match op
    case Learn(x, _, _, _) => x != m
    case Ask(x, now) => x == m ==> now >= t
    case Age(now) => now - t < MAC_PORT_TIMEOUT
  }

  /** An address that was learned stays known, with its port, as long as no sweep comes thirty seconds later. */
  lemma {:induction false} StaysKnown(v: View, m: Mac, port: nat, t: int, ops: seq<Op>)
    requires forall i | 0 <= i < |ops| :: Keeps(ops[i], m, t)
    ensures var w := After(v[m := Learned(port, t)], ops);
      m in w && w[m].port == port && w[m].visited >= t
    decreases |ops|
  {
    if ops != [] {
      StaysKnown(v, m, port, t, ops[..|ops| - 1]);
      assert Keeps(ops[|ops| - 1], m, t);
    }
  }

  /** When an address was last learned or asked for. */
  function LastTime(ops: seq<Op>, m: Mac): Option<int> {
    if ops == [] then None
    else
      var op := ops[|ops| - 1];
      if (op.Learn? || op.Ask?) && op.mac == m then Some(op.now) else LastTime(ops[..|ops| - 1], m)
  }

  /** Over any run, what is known of an address dates from the last time it was learned or asked for. */
  lemma {:induction false} KnowsLastTime(ops: seq<Op>, m: Mac)
    requires m in After(map[], ops)
    ensures LastTime(ops, m) == Some(After(map[], ops)[m].visited)
    decreases |ops|
  {
    if ops != [] {
      var n := |ops| - 1;
      var before := After(map[], ops[..n]);
      if m in before { KnowsLastTime(ops[..n], m); }
    }
  }

  lemma AfterSnoc(v: View, ops: seq<Op>, op: Op)
    ensures After(v, ops + [op]) == Effect(After(v, ops), op)
  {
    assert (ops + [op])[..|ops|] == ops;
  }

  /** A sweep forgets exactly the addresses last learned or asked for thirty seconds ago or earlier. */
  lemma ForgetsExactly(ops: seq<Op>, now: int, m: Mac)
    ensures m in After(map[], ops + [Op.Age(now)]) <==>
      m in After(map[], ops) && LastTime(ops, m).Some? && now - LastTime(ops, m).value < 30
  {
    AfterSnoc(map[], ops, Op.Age(now));
    if m in After(map[], ops) { KnowsLastTime(ops, m); }
  }

  /** An address that is known and looked up stays known until a sweep thirty seconds after the lookup. */
  lemma LookupKeeps(v: View, m: Mac, t: int, ops: seq<Op>)
    requires m in v && forall i | 0 <= i < |ops| :: Keeps(ops[i], m, t)
    ensures var w := After(Effect(v, Op.Ask(m, t)), ops);
      m in w && w[m].port == v[m].port && w[m].visited >= t
  {
    StaysKnown(v, m, v[m].port, t, ops);
  }

  /** Nobody is known who was not learned. */
  lemma {:induction false} KnownWasLearned(ops: seq<Op>, m: Mac)
    requires m in After(map[], ops)
    ensures exists i :: 0 <= i < |ops| && ops[i].Learn? && ops[i].mac == m
    decreases |ops|
  {
    var n := |ops| - 1;
    if ops[n].Learn? && ops[n].mac == m {
    } else {
      KnownWasLearned(ops[..n], m);
      var i :| 0 <= i < n && ops[..n][i].Learn? && ops[..n][i].mac == m;
      assert ops[i].Learn? && ops[i].mac == m;
    }
  }
}
