/** Bitwise operations on natural numbers, bit by bit. */
module Bits {
  /** The k-th bit of a number, counted from the lowest. */
  predicate Bit(a: nat, k: nat) {
    if k == 0 then a % 2 == 1 else Bit(a / 2, k - 1)
  }

  function Power2(n: nat): (p: nat)
    ensures p > 0
  {
    if n == 0 then 1 else 2 * Power2(n - 1)
  }

  /** The bitwise conjunction of two numbers. */
  function And(a: nat, b: nat): (r: nat)
    ensures r <= a && r <= b
  {
    if a == 0 || b == 0 then 0
    else 2 * And(a / 2, b / 2) + if a % 2 == 1 && b % 2 == 1 then 1 else 0
  }

  /** The exclusive or of the lowest bits of two numbers. */
  function Xor(a: nat, b: nat, bits: nat): nat {
    if bits == 0 then 0 else (if a % 2 == b % 2 then 0 else 1) + 2 * Xor(a / 2, b / 2, bits - 1)
  }

  lemma {:induction false} NoBits(k: nat)
    ensures !Bit(0, k)
  {
    if k > 0 { NoBits(k - 1); }
  }

  /** A bit of the conjunction is set exactly if it is set on both sides. */
  lemma {:induction false} AndBit(a: nat, b: nat, k: nat)
    ensures Bit(And(a, b), k) <==> Bit(a, k) && Bit(b, k)
  {
    if a == 0 || b == 0 {
      NoBits(k);
    } else {
      var r := And(a, b);
      assert r / 2 == And(a / 2, b / 2) && (r % 2 == 1 <==> a % 2 == 1 && b % 2 == 1);
      if k > 0 { AndBit(a / 2, b / 2, k - 1); }
    }
  }

  /** A bit of the exclusive or is set exactly if it is set on one side. */
  lemma {:induction false} XorBit(a: nat, b: nat, bits: nat, k: nat)
    ensures Bit(Xor(a, b, bits), k) <==> k < bits && Bit(a, k) != Bit(b, k)
  {
    if bits == 0 {
      NoBits(k);
    } else {
      var r := Xor(a, b, bits);
      assert r / 2 == Xor(a / 2, b / 2, bits - 1) && (r % 2 == 1 <==> a % 2 != b % 2);
      if k > 0 { XorBit(a / 2, b / 2, bits - 1, k - 1); }
    }
  }

  lemma {:induction false} XorBound(a: nat, b: nat, bits: nat)
    ensures Xor(a, b, bits) < Power2(bits)
    decreases bits
  {
    if bits > 0 { XorBound(a / 2, b / 2, bits - 1); }
  }

  /** Numbers with the same bits are the same. */
  lemma {:induction false} SameBits(a: nat, b: nat)
    requires forall k: nat :: Bit(a, k) <==> Bit(b, k)
    ensures a == b
    decreases a + b
  {
    if a + b > 0 {
      assert Bit(a, 0) <==> Bit(b, 0);
      forall k: nat ensures Bit(a / 2, k) <==> Bit(b / 2, k) { assert Bit(a, k + 1) <==> Bit(b, k + 1); }
      SameBits(a / 2, b / 2);
    }
  }

  /** Masking twice is masking once. */
  lemma AndTwice(a: nat, m: nat)
    ensures And(And(a, m), m) == And(a, m)
  {
    forall k: nat
      ensures Bit(And(And(a, m), m), k) <==> Bit(And(a, m), k)
    {
      AndBit(a, m, k);
      AndBit(And(a, m), m, k);
    }
    SameBits(And(And(a, m), m), And(a, m));
  }

  lemma HalfRemainder(a: nat, m: nat)
    requires m > 0
    ensures a % (2 * m) == 2 * (a / 2 % m) + a % 2
  {
    var q, r := a / 2 / m, a / 2 % m;
    assert a == 2 * (q * m + r) + a % 2 == q * (2 * m) + (2 * r + a % 2);
    RemainderIs(a, 2 * m, q, 2 * r + a % 2);
  }

  lemma RemainderIs(a: nat, n: nat, q: nat, r: nat)
    requires a == q * n + r && r < n
    ensures a % n == r && a / n == q
  {
    var d := a / n - q;
    assert d * n == r - a % n;
    assert d > 0 ==> d * n >= n;
    assert d < 0 ==> d * n + n <= 0;
  }

  /** Where the block of this size that holds a begins. */
  function BlockStart(a: nat, size: nat): (s: nat)
    requires size > 0
  {
    a - a % size
  }

  lemma AndEven(a: nat, m: nat, p: nat)
    requires p > 0 && And(a / 2, m) == BlockStart(a / 2, p)
    ensures And(a, 2 * m) == BlockStart(a, 2 * p)
  {
    AndHalves(a, 2 * m);
    HalfRemainder(a, p);
  }

  lemma AndOdd(a: nat, m: nat)
    requires And(a / 2, m) == a / 2
    ensures And(a, 2 * m + 1) == a
  {
    AndHalves(a, 2 * m + 1);
  }

  /** Masking with ones only changes nothing. */
  lemma {:induction false} AndOnes(a: nat, width: nat)
    requires a < Power2(width)
    ensures And(a, Power2(width) - 1) == a
    decreases width
  {
    if width > 0 {
      AndOnes(a / 2, width - 1);
      AndOdd(a, Power2(width - 1) - 1);
    }
    hide And;
  }

  /** Masking with width - low leading ones and low zeros clears the low bits. */
  lemma {:induction false} AndLeading(a: nat, width: nat, low: nat)
    requires low <= width && a < Power2(width)
    ensures Power2(low) <= Power2(width)
    ensures And(a, Power2(width) - Power2(low)) == BlockStart(a, Power2(low))
    decreases width
  {
    PowersGrow(low, width);
    if low == 0 {
      AndOnes(a, width);
      assert BlockStart(a, 1) == a;
    } else {
      hide And, BlockStart;
      AndLeading(a / 2, width - 1, low - 1);
      var m, p := Power2(width - 1), Power2(low - 1);
      assert Power2(width) == 2 * m && Power2(low) == 2 * p;
      hide Power2;
      AndEven(a, m - p, p);
    }
  }

  lemma AndHalves(a: nat, b: nat)
    ensures And(a, b) == 2 * And(a / 2, b / 2) + if a % 2 == 1 && b % 2 == 1 then 1 else 0
  {
    if a == 0 || b == 0 { assert And(a / 2, b / 2) == 0; }
  }

  lemma {:induction false} PowersGrow(low: nat, width: nat)
    requires low <= width
    ensures Power2(low) <= Power2(width)
    decreases width
  {
    if low < width { PowersGrow(low, width - 1); }
  }

  /** b lies in the block that holds a exactly if their blocks begin at the same place. */
  lemma SameBlock(a: nat, b: nat, size: nat)
    requires size > 0
    ensures var s := BlockStart(a, size);
      s <= a < s + size && (BlockStart(b, size) == s <==> s <= b < s + size)
  {
    var s := BlockStart(a, size);
    assert s == a / size * size;
    if s <= b < s + size { RemainderIs(b, size, a / size, b - s); }
  }
}
