/** Small definitions shared by every component of the model. */
module Common {
  datatype Option<+T> = None | Some(value: T)

  /** `order` lists every element of `keys` exactly once: one possible outcome of
      ranging over a Go map whose key set is `keys`. */
  ghost predicate Enumerates<T>(order: seq<T>, keys: set<T>) {
    && (forall i, j :: 0 <= i < j < |order| ==> order[i] != order[j])
    && (set k | k in order) == keys
  }

  /** Go ranges over a map in an unspecified order; the loop below picks any. */
  method RangeOrder<T(==)>(keys: set<T>) returns (order: seq<T>)
    ensures Enumerates(order, keys)
  {
    order := [];
    var rest := keys;
    while rest != {}
      invariant Enumerates(order, keys - rest) && rest <= keys
      decreases |rest|
    {
      var k :| k in rest;
      assert k !in order by { assert k !in (set x | x in order); }
      order := order + [k];
      assert (set x | x in order) == (keys - rest) + {k};
      rest := rest - {k};
      assert keys - rest == (set x | x in order);
    }
    assert keys - rest == keys;
  }

  /** An enumeration and its key set have the same elements. */
  lemma Members<T>(order: seq<T>, keys: set<T>)
    requires Enumerates(order, keys)
    ensures forall x :: x in order <==> x in keys
  {
    forall x ensures x in order <==> x in keys { assert x in order <==> x in (set k | k in order); }
  }

  lemma JoinOrders<T>(a: seq<T>, b: seq<T>, x: set<T>, y: set<T>)
    requires Enumerates(a, x) && Enumerates(b, y) && x !! y
    ensures Enumerates(a + b, x + y)
  {
    Members(a, x);
    Members(b, y);
    var c := a + b;
    forall i, j | 0 <= i < j < |c| ensures c[i] != c[j] {
      if i < |a| <= j {
        assert c[i] in a && c[j] in b;
      } else if |a| <= i {
        assert b[i - |a|] != b[j - |a|];
      }
    }
    assert (set k | k in c) == (set k | k in a) + (set k | k in b);
  }

  /** Any key may come first. */
  lemma OrderingFrom<T>(keys: set<T>, f: T) returns (order: seq<T>)
    requires f in keys
    ensures Enumerates(order, keys) && order != [] && order[0] == f
  {
    var rest := Ordering(keys - {f});
    order := [f] + rest;
    assert (set k | k in order) == {f} + (set k | k in rest);
    assert forall j | 0 <= j < |rest| :: rest[j] in (set k | k in rest);
  }

  /** Some iteration order exists. */
  lemma {:induction false} Ordering<T>(keys: set<T>) returns (order: seq<T>)
    ensures Enumerates(order, keys)
    decreases |keys|
  {
    order := [];
    if keys != {} {
      var k :| k in keys;
      var rest := Ordering(keys - {k});
      order := rest + [k];
      assert (set x | x in order) == (set x | x in rest) + {k};
      assert forall j | 0 <= j < |rest| :: rest[j] in (set x | x in rest);
    }
  }

  /** The elements of `s` that satisfy `keep`. */
  function Filter<T>(keep: T -> bool, s: seq<T>): seq<T> {
    if s == [] then []
    else
      var rest := Filter(keep, s[..|s| - 1]);
      if keep(s[|s| - 1]) then rest + [s[|s| - 1]] else rest
  }

  /** Filtering keeps exactly the satisfying positions, in their order. */
  lemma {:induction false} FilterKeepsOrder<T>(keep: T -> bool, s: seq<T>) returns (at: seq<nat>)
    ensures |at| == |Filter(keep, s)|
    ensures forall i, j :: 0 <= i < j < |at| ==> at[i] < at[j]
    ensures forall i :: 0 <= i < |at| ==> at[i] < |s| && Filter(keep, s)[i] == s[at[i]]
    ensures forall p: nat :: p in at <==> p < |s| && keep(s[p])
  {
    at := [];
    if s != [] {
      var last := |s| - 1;
      var front := FilterKeepsOrder(keep, s[..last]);
      assert forall p: nat | p < last :: s[..last][p] == s[p];
      if keep(s[last]) {
        at := front + [last];
        assert forall p: nat :: p in at <==> p in front || p == last;
      } else {
        at := front;
      }
    }
  }

  lemma {:induction false} FilterAppend<T>(keep: T -> bool, a: seq<T>, b: seq<T>)
    ensures Filter(keep, a + b) == Filter(keep, a) + Filter(keep, b)
  {
    if b == [] {
      assert a + b == a;
    } else {
      var s := a + b;
      assert s[..|s| - 1] == a + b[..|b| - 1];
      FilterAppend(keep, a, b[..|b| - 1]);
    }
  }

  lemma {:induction false} FilterTwice<T>(f: T -> bool, g: T -> bool, s: seq<T>)
    requires forall x | x in s && g(x) :: f(x)
    ensures Filter(g, Filter(f, s)) == Filter(g, s)
  {
    if s != [] {
      var front, x := s[..|s| - 1], s[|s| - 1];
      FilterTwice(f, g, front);
      if f(x) {
        FilterAppend(g, Filter(f, front), [x]);
        assert Filter(g, [x]) == if g(x) then [x] else [];
      }
    }
  }
}
