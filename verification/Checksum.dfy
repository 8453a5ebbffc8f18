/** The Internet checksum, computed with a 32-bit accumulator and two folds (RFC 1071, sections 1 and 2). */
module Checksum {
  import opened Basics

  const WORD := 0x1_0000
  const WRAP := 0x1_0000_0000
  const ONES := 0xFFFF

  // ---------------------------------------------------------------------
  // One's complement addition
  // ---------------------------------------------------------------------

  /** Addition of 16-bit words with an end-around carry. */
  function Add(a: u16, b: u16): u16 {
    if a + b >= WORD then a + b - ONES else a + b
  }

  /** The one's complement sum of words, one after the other. */
  function OnesSum(words: seq<u16>): u16 {
    if words == [] then 0 else Add(OnesSum(words[..|words| - 1]), words[|words| - 1])
  }

  function Sum(words: seq<u16>): nat {
    if words == [] then 0 else Sum(words[..|words| - 1]) + words[|words| - 1]
  }

  /** The word that stands for a number in one's complement: 0 only for 0. */
  function Ones(n: nat): (r: u16)
    ensures r <= ONES && r % ONES == n % ONES && (r == 0 <==> n == 0)
  {
    if n == 0 then 0 else (n - 1) % ONES + 1
  }

  lemma OnesUnique(n: nat, r: nat)
    requires r <= ONES && r % ONES == n % ONES && (r == 0 <==> n == 0)
    ensures r == Ones(n)
  {}

  lemma AddIsOnes(a: nat, b: u16)
    ensures Add(Ones(a), b) == Ones(a + b)
  {
    ModAdd(Ones(a), a, b);
    OnesUnique(a + b, Add(Ones(a), b));
  }

  lemma ModAdd(x: nat, y: nat, b: nat)
    requires x % ONES == y % ONES
    ensures (x + b) % ONES == (y + b) % ONES
  {}

  /** Summing with end-around carries is summing first and reducing afterwards. */
  lemma {:induction false} OnesSumIsOnes(words: seq<u16>)
    ensures OnesSum(words) == Ones(Sum(words))
    decreases |words|
  {
    if words != [] {
      OnesSumIsOnes(words[..|words| - 1]);
      AddIsOnes(Sum(words[..|words| - 1]), words[|words| - 1]);
    }
  }

  // ---------------------------------------------------------------------
  // The computation
  // ---------------------------------------------------------------------

  function Fold(sum: u32): u32 {
    sum / WORD + sum % WORD
  }

  function Complement(w: nat): u16 {
    ONES - w % WORD
  }

  /** The word made of a low and a high byte. */
  function Little(low: u8, high: u8): (w: u16)
    ensures w % 0x100 == low && w / 0x100 == high
  {
    (low as int) + 0x100 * (high as int)
  }

  /** The words of a buffer as a little-endian machine reads them; an odd last byte is a word of its own. */
  function Words(bytes: seq<u8>): (w: seq<u16>)
    ensures |w| == (|bytes| + 1) / 2
  {
    if bytes == [] then []
    else if |bytes| == 1 then [bytes[0]]
    else [Little(bytes[0], bytes[1])] + Words(bytes[2..])
  }

  /** The words as the network means them: big-endian, an odd last byte padded with zero. */
  function NetworkWords(bytes: seq<u8>): (w: seq<u16>)
    ensures |w| == (|bytes| + 1) / 2
  {
    if bytes == [] then []
    else if |bytes| == 1 then [Little(0, bytes[0])]
    else [Little(bytes[1], bytes[0])] + NetworkWords(bytes[2..])
  }

  lemma {:induction false} SumCons(w: u16, words: seq<u16>)
    ensures Sum([w] + words) == w + Sum(words)
    decreases |words|
  {
    if words != [] {
      assert ([w] + words)[..|words|] == [w] + words[..|words| - 1];
      SumCons(w, words[..|words| - 1]);
    }
  }

  lemma {:induction false} OddLast(bytes: seq<u8>)
    requires |bytes| % 2 == 1
    ensures Sum(Words(bytes)) == Sum(Words(bytes[..|bytes| - 1])) + bytes[|bytes| - 1]
    decreases |bytes|
  {
    if |bytes| > 1 {
      hide Sum, Little;
      var n, rest, w := |bytes| - 1, bytes[2..], Little(bytes[0], bytes[1]);
      assert Words(bytes) == [w] + Words(rest);
      assert Words(bytes[..n]) == [w] + Words(rest[..n - 2]) by { assert bytes[..n][2..] == rest[..n - 2]; }
      hide Words;
      OddLast(rest);
      SumCons(w, Words(rest));
      SumCons(w, Words(rest[..n - 2]));
    } else {
      assert Sum([bytes[0]]) == bytes[0] by { SumCons(bytes[0], []); }
    }
  }

  lemma {:induction false} EvenLast(bytes: seq<u8>, n: nat)
    requires n + 2 <= |bytes| && n % 2 == 0
    ensures Sum(Words(bytes[..n + 2])) == Sum(Words(bytes[..n])) + Little(bytes[n], bytes[n + 1])
    decreases n
  {
    var a, b := bytes[..n + 2], bytes[..n];
    if n > 0 {
      assert a[2..] == bytes[2..][..n] && b[2..] == bytes[2..][..n - 2];
      EvenLast(bytes[2..], n - 2);
      SumCons(Little(bytes[0], bytes[1]), Words(a[2..]));
      SumCons(Little(bytes[0], bytes[1]), Words(b[2..]));
    } else {
      assert a[2..] == [];
      SumCons(Little(bytes[0], bytes[1]), []);
    }
  }

  /** What the accumulator stands for after the loop, if it does not overflow: the checksum is right. */
  lemma TwoFoldsSuffice(sum: u32)
    ensures Fold(sum) + Fold(sum) / WORD < WRAP
    ensures Complement(Fold(sum) + Fold(sum) / WORD) == ONES - Ones(sum)
  {
    var f := Fold(sum);
    assert sum == WORD * (sum / WORD) + sum % WORD;
    assert f <= 2 * ONES;
    var r := (f + f / WORD) % WORD;
    assert r == if f >= WORD then f - ONES else f;
    FoldMod(sum);
    OnesUnique(sum, r);
  }

  lemma FoldMod(sum: u32)
    ensures Fold(sum) % ONES == sum % ONES
    ensures Fold(sum) == 0 <==> sum == 0
  {
    var q, r := sum / WORD, sum % WORD;
    assert sum == ONES * q + (q + r);
    ModShift(q + r, q);
  }

  lemma ModShift(r: nat, q: nat)
    ensures (ONES * q + r) % ONES == r % ONES
  {
    assert (ONES * q + r) % ONES == r % ONES by {
      ModMultiple(r, q);
    }
  }

  lemma {:induction false} ModMultiple(r: nat, q: nat)
    ensures (ONES * q + r) % ONES == r % ONES
    decreases q
  {
    if q > 0 {
      ModMultiple(r, q - 1);
      assert ONES * q + r == (ONES * (q - 1) + r) + ONES;
    }
  }

  /** What a 32-bit accumulator keeps of a number. */
  function Wrap(n: nat): u32 {
    n % WRAP
  }

  /** Addition in the accumulator. */
  function Plus(a: u32, b: u32): u32 {
    Wrap(a + b)
  }

  /** The accumulator after a base and the first bytes of a buffer. */
  function Accumulated(base: nat, bytes: seq<u8>, n: nat): u32
    requires n <= |bytes|
  {
    Wrap(base + Sum(Words(bytes[..n])))
  }

  lemma AccumulateNext(base: nat, bytes: seq<u8>, n: nat)
    requires n + 2 <= |bytes| && n % 2 == 0
    ensures Accumulated(base, bytes, n + 2) == Plus(Accumulated(base, bytes, n), Little(bytes[n], bytes[n + 1]))
  {
    hide Sum, Words, Little;
    EvenLast(bytes, n);
    WrapAdd(base + Sum(Words(bytes[..n])), Little(bytes[n], bytes[n + 1]));
  }

  lemma AccumulateFirst(base: u32, bytes: seq<u8>)
    ensures Accumulated(base, bytes, 0) == base
    ensures forall x: u8 :: Accumulated(base + x, bytes, 0) == Plus(base, x)
  {
    assert Sum(Words(bytes[..0])) == 0;
    hide Sum, Words;
  }

  lemma AccumulateEven(base: nat, bytes: seq<u8>)
    ensures Accumulated(base, bytes, |bytes|) == Wrap(base + Sum(Words(bytes)))
  {
    hide Sum, Words, Wrap;
    assert bytes[..|bytes|] == bytes;
  }

  lemma AccumulateOdd(base: nat, bytes: seq<u8>, last: nat)
    requires |bytes| % 2 == 1 && last == bytes[|bytes| - 1]
    ensures Accumulated(base + last, bytes, |bytes| - 1) == Wrap(base + Sum(Words(bytes)))
  {
    hide Sum, Words, Wrap;
    OddLast(bytes);
    assert base + last + Sum(Words(bytes[..|bytes| - 1])) == base + Sum(Words(bytes));
  }

  /** The checksum of the first nbytes bytes, starting from a given sum. */
  method Checksum(buf: array<u8>, nbytes: nat, initial: u32) returns (c: u16)
    requires nbytes <= buf.Length
    ensures c == ONES - Ones(Wrap(initial + Sum(Words(buf[..nbytes]))))
  {
    hide Sum, Words, Ones, Wrap, Fold, Complement, Accumulated, Plus, Little;
    var n: int, sum := nbytes, initial;
    ghost var bytes := buf[..nbytes];
    ghost var base: nat := initial;
    AccumulateFirst(initial, bytes);
    if n % 2 == 1 {
      n := n - 1;
      sum := Plus(sum, buf[n]);
      base := initial + bytes[n];
    }
    var ptr: int := 0;
    while n > 0
      invariant n >= 0 && n % 2 == 0 && ptr >= 0 && ptr % 2 == 0 && ptr + n == nbytes - nbytes % 2
      invariant sum == Accumulated(base, bytes, ptr)
    {
      AccumulateNext(base, bytes, ptr);
      sum := Plus(sum, Little(buf[ptr], buf[ptr + 1]));
      ptr := ptr + 2;
      n := n - 2;
    }
    if nbytes % 2 == 1 { AccumulateOdd(initial, bytes, bytes[nbytes - 1]); } else { AccumulateEven(initial, bytes); }
    TwoFoldsSuffice(sum);
    sum := Fold(sum);
    sum := sum + sum / WORD;
    c := Complement(sum);
  }

  lemma WrapAdd(s: nat, w: nat)
    ensures Wrap(Wrap(s) + w) == Wrap(s + w)
  {}

  // ---------------------------------------------------------------------
  // What it means
  // ---------------------------------------------------------------------

  /** The checksum as the code computes it. */
  function Result(bytes: seq<u8>, initial: u32): u16 {
    ONES - Ones(Wrap(initial + Sum(Words(bytes))))
  }

  lemma {:induction false} SumBound(words: seq<u16>)
    ensures Sum(words) <= ONES * |words|
    decreases |words|
  {
    if words != [] { SumBound(words[..|words| - 1]); }
  }

  /** Up to 131074 bytes, the result is the complement of the one's complement sum. */
  lemma ResultIsOnesSum(bytes: seq<u8>)
    requires |bytes| <= 131074
    ensures Result(bytes, 0) == ONES - OnesSum(Words(bytes))
  {
    hide Sum, OnesSum, Ones, Words;
    SumBound(Words(bytes));
    OnesSumIsOnes(Words(bytes));
    assert Sum(Words(bytes)) <= ONES * 65537 < WRAP;
  }

  /** An overflowing accumulator loses one for each wrap, which shows unless 65535 of them cancel out. */
  lemma OverflowShows(s: nat)
    ensures Ones(Wrap(s)) == Ones(s) <==> (s / WRAP) % ONES == 0 && (s < WRAP || s % WRAP != 0)
  {
    var q, r := s / WRAP, s % WRAP;
    assert s == q * WRAP + r;
    assert WRAP == ONES * 0x1_0001 + 1;
    assert s == ONES * (0x1_0001 * q) + (q + r);
    ModShift(q + r, 0x1_0001 * q);
    assert s % ONES == (q + r) % ONES;
    SameResidue(r, q);
    if Ones(r) == Ones(s) {
      assert r % ONES == (q + r) % ONES;
    }
    if q % ONES == 0 && (s < WRAP || r != 0) {
      OnesUnique(s, Ones(r));
    }
  }

  lemma SameResidue(r: nat, q: nat)
    ensures (q + r) % ONES == r % ONES <==> q % ONES == 0
  {}

  /** Storing the checksum in a word that was zero makes the checksum zero, wherever the word is. */
  lemma {:induction false} StoredVerifies(words: seq<u16>, k: nat, c: u16)
    requires k < |words| && words[k] == 0 && c == ONES - Ones(Sum(words))
    ensures Ones(Sum(words[k := c])) == ONES
  {
    SumUpdate(words, k, c);
    var s := Sum(words);
    ModAdd(s, Ones(s), c);
    OnesUnique(s + c, ONES);
  }

  lemma {:induction false} SumUpdate(words: seq<u16>, k: nat, c: u16)
    requires k < |words|
    ensures Sum(words[k := c]) == Sum(words) - words[k] + c
    decreases |words|
  {
    var n := |words| - 1;
    if k < n {
      assert words[k := c][..n] == words[..n][k := c];
      SumUpdate(words[..n], k, c);
    } else {
      assert words[k := c][..n] == words[..n];
    }
  }

  /** A word written into a buffer, low byte first. */
  function Store(bytes: seq<u8>, k: nat, c: u16): (b: seq<u8>)
    requires 2 * k + 1 < |bytes|
    ensures |b| == |bytes|
  {
    bytes[2 * k := c % 0x100][2 * k + 1 := c / 0x100]
  }

  lemma {:induction false} WordsStore(bytes: seq<u8>, k: nat, c: u16)
    requires 2 * k + 1 < |bytes|
    ensures Words(Store(bytes, k, c)) == Words(bytes)[k := c]
    decreases k
  {
    var b := Store(bytes, k, c);
    if k == 0 {
      assert b[2..] == bytes[2..];
    } else {
      assert b[2..] == Store(bytes[2..], k - 1, c);
      WordsStore(bytes[2..], k - 1, c);
    }
  }

  lemma {:induction false} WordAt(bytes: seq<u8>, k: nat)
    requires 2 * k + 1 < |bytes|
    ensures Words(bytes)[k] == Little(bytes[2 * k], bytes[2 * k + 1])
    decreases k
  {
    if k > 0 { WordAt(bytes[2..], k - 1); }
  }

  /** A packet whose checksum field was zero verifies once the checksum is stored: the result is then zero. */
  lemma StoreAndVerify(bytes: seq<u8>, k: nat)
    requires |bytes| <= 131074 && 2 * k + 1 < |bytes| && bytes[2 * k] == 0 && bytes[2 * k + 1] == 0
    ensures Result(Store(bytes, k, Result(bytes, 0)), 0) == 0
  {
    hide Sum, Words, Ones, Store;
    var words, c := Words(bytes), Result(bytes, 0);
    SumBound(words);
    WordAt(bytes, k);
    StoredVerifies(words, k, c);
    WordsStore(bytes, k, c);
    SumBound(words[k := c]);
  }

  // ---------------------------------------------------------------------
  // Byte order
  // ---------------------------------------------------------------------

  function Swap(w: u16): u16 {
    w % 0x100 * 0x100 + w / 0x100
  }

  lemma SwapMod(w: u16)
    ensures Swap(w) % ONES == (0x100 * (w as int)) % ONES
    ensures Swap(w) == 0 <==> w == 0
    ensures Swap(ONES - w) == ONES - Swap(w)
  {
    var h, l := w / 0x100, w % 0x100;
    assert w == 0x100 * h + l;
    assert 0x100 * (w as int) == ONES * h + (0x100 * l + h);
    ModShift(0x100 * l + h, h);
    assert (ONES - w) / 0x100 == 0xFF - h && (ONES - w) % 0x100 == 0xFF - l;
  }

  predicate Swapped(a: seq<u16>, b: seq<u16>) {
    |a| == |b| && forall i | 0 <= i < |a| :: b[i] == Swap(a[i])
  }

  lemma {:induction false} SumSwapped(a: seq<u16>, b: seq<u16>)
    requires Swapped(a, b)
    ensures Sum(b) % ONES == (0x100 * Sum(a)) % ONES
    ensures Sum(b) == 0 <==> Sum(a) == 0
    decreases |a|
  {
    if a != [] {
      var n := |a| - 1;
      SumSwapped(a[..n], b[..n]);
      SwapMod(a[n]);
      ModAdd2(Sum(b[..n]), 0x100 * Sum(a[..n]), b[n], 0x100 * (a[n] as int));
    }
  }

  lemma ModAdd2(x: nat, y: nat, b: nat, c: nat)
    requires x % ONES == y % ONES && b % ONES == c % ONES
    ensures (x + b) % ONES == (y + c) % ONES
  {
    ModAdd(x, y, b);
    ModAdd(b, c, y);
  }

  lemma ModTimes(x: nat, y: nat)
    requires x % ONES == y % ONES
    ensures (0x100 * x) % ONES == (0x100 * y) % ONES
  {
    var p, q, r := x / ONES, y / ONES, x % ONES;
    assert 0x100 * x == ONES * (0x100 * p) + 0x100 * r;
    assert 0x100 * y == ONES * (0x100 * q) + 0x100 * r;
    ModShift(0x100 * r, 0x100 * p);
    ModShift(0x100 * r, 0x100 * q);
  }

  /** Summing byte-swapped words gives the byte-swapped sum. */
  lemma SwappedSum(a: seq<u16>, b: seq<u16>)
    requires Swapped(a, b)
    ensures OnesSum(b) == Swap(OnesSum(a))
  {
    OnesSumIsOnes(a);
    OnesSumIsOnes(b);
    SumSwapped(a, b);
    var x := Ones(Sum(a));
    SwapMod(x);
    ModTimes(x, Sum(a));
    OnesUnique(Sum(b), Swap(x));
  }

  lemma {:induction false} NetworkWordsSwapped(bytes: seq<u8>)
    ensures Swapped(Words(bytes), NetworkWords(bytes))
    decreases |bytes|
  {
    if |bytes| >= 2 { NetworkWordsSwapped(bytes[2..]); }
  }

  /** Read and stored in the machine's byte order, the checksum is the one the network expects. */
  lemma NativeOrderIsSound(bytes: seq<u8>)
    requires |bytes| <= 131074
    ensures Swap(Result(bytes, 0)) == ONES - OnesSum(NetworkWords(bytes))
  {
    hide Result, OnesSum, Words, NetworkWords, Swapped, Swap;
    ResultIsOnesSum(bytes);
    NetworkWordsSwapped(bytes);
    SwappedSum(Words(bytes), NetworkWords(bytes));
    SwapMod(OnesSum(Words(bytes)));
  }
}
