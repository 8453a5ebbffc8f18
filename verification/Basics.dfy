/** Fixed-width integers, the option type and a few facts about collections shared by the models. */
module Basics {
  type u8 = x: int | 0 <= x < 0x100
  type u16 = x: int | 0 <= x < 0x1_0000
  type u32 = x: int | 0 <= x < 0x1_0000_0000
  type u64 = x: int | 0 <= x < 0x1_0000_0000_0000_0000

  const INT_MAX := 0x7FFF_FFFF

  datatype Option<+T> = None | Some(value: T)

  /** The sequence without its k-th element. */
  function Without<T>(s: seq<T>, k: nat): seq<T>
    requires k < |s|
  {
    s[..k] + s[k + 1..]
  }

  lemma WithoutAt<T>(s: seq<T>, k: nat)
    requires k < |s|
    ensures |Without(s, k)| == |s| - 1
    ensures forall i | 0 <= i < |s| - 1 :: Without(s, k)[i] == s[if i < k then i else i + 1]
  {}

  /** Some element of a set, always the same one. */
  ghost function Pick<T>(s: set<T>): (x: T)
    requires s != {}
    ensures x in s
  {
    var x :| x in s; x
  }

  /** A sequence of distinct members of a set is no longer than the set, and if as long, it holds them all. */
  lemma {:induction false} DistinctWithin<T>(p: seq<T>, s: set<T>)
    requires forall i | 0 <= i < |p| :: p[i] in s
    requires forall i, j | 0 <= i < j < |p| :: p[i] != p[j]
    ensures |p| <= |s|
    ensures |p| == |s| ==> forall x | x in s :: x in p
    decreases |p|
  {
    if p == [] {
      assert |s| == 0 ==> s == {};
    } else {
      var q, z := p[..|p| - 1], p[|p| - 1];
      forall i | 0 <= i < |q| ensures q[i] in s - {z} { assert q[i] == p[i]; }
      DistinctWithin(q, s - {z});
      forall x | x in s && |p| == |s| ensures x in p { if x != z { assert x in q; } }
    }
  }
}
