/** Hop distances over an arbitrary adjacency relation. */
module Walks {

  /** b can be reached from a in exactly d hops. */
  ghost predicate Hops<T(!new)>(adj: (T, T) -> bool, a: T, b: T, d: nat) {
    if d == 0 then a == b
    else exists c :: Hops(adj, a, c, d - 1) && adj(c, b)
  }

  /** d is the length of a shortest walk from a to b. */
  ghost predicate IsDistance<T(!new)>(adj: (T, T) -> bool, a: T, b: T, d: nat) {
    Hops(adj, a, b, d) && forall e: nat | Hops(adj, a, b, e) :: d <= e
  }

  ghost predicate Reachable<T(!new)>(adj: (T, T) -> bool, a: T, b: T) {
    exists d: nat :: Hops(adj, a, b, d)
  }

  ghost predicate Symmetric<T(!new)>(adj: (T, T) -> bool) {
    forall a, b | adj(a, b) :: adj(b, a)
  }

  lemma {:induction false} HopsConcat<T(!new)>(adj: (T, T) -> bool, a: T, b: T, c: T, d: nat, e: nat)
    requires Hops(adj, a, b, d) && Hops(adj, b, c, e)
    ensures Hops(adj, a, c, d + e)
    decreases e
  {
    if e > 0 {
      var m :| Hops(adj, b, m, e - 1) && adj(m, c);
      HopsConcat(adj, a, b, m, d, e - 1);
      assert d + e - 1 == d + (e - 1);
    }
  }

  lemma LastHop<T(!new)>(adj: (T, T) -> bool, a: T, b: T, d: nat) returns (c: T)
    requires d > 0 && Hops(adj, a, b, d)
    ensures Hops(adj, a, c, d - 1) && adj(c, b)
  {
    c :| Hops(adj, a, c, d - 1) && adj(c, b);
  }

  lemma {:induction false} FirstStep<T(!new)>(adj: (T, T) -> bool, a: T, b: T, d: nat) returns (c: T)
    requires d > 0 && Hops(adj, a, b, d)
    ensures adj(a, c) && Hops(adj, c, b, d - 1)
    decreases d
  {
    var m := LastHop(adj, a, b, d);
    if d == 1 {
      c := b;
    } else {
      c := FirstStep(adj, a, m, d - 1);
    }
  }

  lemma NoHops<T(!new)>(adj: (T, T) -> bool, a: T, b: T)
    ensures Hops(adj, a, b, 0) <==> a == b
  {}

  lemma HopOne<T(!new)>(adj: (T, T) -> bool, a: T, b: T)
    requires adj(a, b)
    ensures Hops(adj, a, b, 1)
  {
    assert Hops(adj, a, a, 0);
  }

  lemma {:induction false} HopsReverse<T(!new)>(adj: (T, T) -> bool, a: T, b: T, d: nat)
    requires Symmetric(adj) && Hops(adj, a, b, d)
    ensures Hops(adj, b, a, d)
    decreases d
  {
    if d > 0 {
      var m :| Hops(adj, a, m, d - 1) && adj(m, b);
      HopsReverse(adj, a, m, d - 1);
      HopOne(adj, b, m);
      HopsConcat(adj, b, m, a, 1, d - 1);
    }
  }

  /** Every reachable vertex has a distance. */
  lemma {:induction false} DistanceExists<T(!new)>(adj: (T, T) -> bool, a: T, b: T, d: nat) returns (e: nat)
    requires Hops(adj, a, b, d)
    ensures e <= d && IsDistance(adj, a, b, e)
    decreases d
  {
    if f: nat :| f < d && Hops(adj, a, b, f) {
      e := DistanceExists(adj, a, b, f);
    } else {
      e := d;
    }
  }

  /** Adjacencies that agree everywhere have the same walks. */
  lemma {:induction false} SameHops<T(!new)>(f: (T, T) -> bool, g: (T, T) -> bool, a: T, b: T, d: nat)
    requires forall x, y :: f(x, y) <==> g(x, y)
    ensures Hops(f, a, b, d) <==> Hops(g, a, b, d)
    decreases d
  {
    if d > 0 {
      if Hops(f, a, b, d) {
        var c := LastHop(f, a, b, d);
        SameHops(f, g, a, c, d - 1);
      }
      if Hops(g, a, b, d) {
        var c := LastHop(g, a, b, d);
        SameHops(f, g, a, c, d - 1);
      }
    }
  }

  lemma SameDistance<T(!new)>(f: (T, T) -> bool, g: (T, T) -> bool, a: T, b: T)
    requires forall x, y :: f(x, y) <==> g(x, y)
    ensures forall d: nat :: IsDistance(f, a, b, d) <==> IsDistance(g, a, b, d)
    ensures Reachable(f, a, b) <==> Reachable(g, a, b)
  {
    forall d: nat ensures Hops(f, a, b, d) <==> Hops(g, a, b, d) { SameHops(f, g, a, b, d); }
    hide Hops;
  }
}
