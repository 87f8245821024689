/**
 Finite sums of integer-valued maps over sets of keys.

 A key outside the map counts as zero, so every function here is total. The sum is defined by
 picking keys in some unspecified order; SumPick shows that the order does not matter, and the
 other lemmas are the deltas the protocol proofs use.
 */
module Sums {

  ghost function At<K(!new)>(m: map<K, int>, k: K): int {
    if k in m then m[k] else 0
  }

  ghost function Sum<K(!new)>(keys: set<K>, m: map<K, int>): int {
    if keys == {} then 0
    else
      var k :| k in keys;
      At(m, k) + Sum(keys - {k}, m)
  }

  ghost function Total<K(!new)>(m: map<K, int>): int {
    Sum(m.Keys, m)
  }

  lemma {:induction false} SumPick<K(!new)>(keys: set<K>, m: map<K, int>, k: K)
    requires k in keys
    ensures Sum(keys, m) == At(m, k) + Sum(keys - {k}, m)
    decreases keys
  {
    var x :| x in keys && Sum(keys, m) == At(m, x) + Sum(keys - {x}, m);
    if x != k {
      SumPick(keys - {x}, m, k);
      SumPick(keys - {k}, m, x);
      assert keys - {x} - {k} == keys - {k} - {x};
    }
  }

  lemma SumInsert<K(!new)>(keys: set<K>, m: map<K, int>, k: K)
    requires k !in keys
    ensures Sum(keys + {k}, m) == At(m, k) + Sum(keys, m)
  {
    SumPick(keys + {k}, m, k);
    assert keys + {k} - {k} == keys;
  }

  lemma {:induction false} SumAgree<K(!new)>(keys: set<K>, m: map<K, int>, n: map<K, int>)
    requires forall k :: k in keys ==> At(m, k) == At(n, k)
    ensures Sum(keys, m) == Sum(keys, n)
    decreases keys
  {
    if keys != {} {
      var k :| k in keys;
      SumPick(keys, m, k);
      SumPick(keys, n, k);
      SumAgree(keys - {k}, m, n);
    }
  }

  lemma TotalUpdate<K(!new)>(m: map<K, int>, k: K, v: int)
    ensures Total(m[k := v]) == Total(m) - At(m, k) + v
  {
    var n := m[k := v];
    SumPick(n.Keys, n, k);
    SumAgree(n.Keys - {k}, m, n);
    assert n.Keys - {k} == m.Keys - {k};
    if k in m {
      SumPick(m.Keys, m, k);
    } else {
      assert m.Keys - {k} == m.Keys;
    }
  }

  lemma {:induction false} SumLe<K(!new)>(keys: set<K>, m: map<K, int>, n: map<K, int>)
    requires forall k :: k in keys ==> At(m, k) <= At(n, k)
    ensures Sum(keys, m) <= Sum(keys, n)
    decreases keys
  {
    if keys != {} {
      var k :| k in keys;
      SumPick(keys, m, k);
      SumPick(keys, n, k);
      SumLe(keys - {k}, m, n);
    }
  }

  lemma {:induction false} SumAdd<K(!new)>(keys: set<K>, a: map<K, int>, b: map<K, int>, c: map<K, int>)
    requires forall k :: k in keys ==> At(c, k) == At(a, k) + At(b, k)
    ensures Sum(keys, c) == Sum(keys, a) + Sum(keys, b)
    decreases keys
  {
    if keys != {} {
      var k :| k in keys;
      SumPick(keys, a, k);
      SumPick(keys, b, k);
      SumPick(keys, c, k);
      SumAdd(keys - {k}, a, b, c);
    }
  }

  /** A balance that holds key by key holds for the sums. */
  lemma {:induction false} SumBalance<K(!new)>(
      keys: set<K>, a: map<K, int>, b: map<K, int>, c: map<K, int>, x: map<K, int>, y: map<K, int>, z: map<K, int>)
    requires forall k :: k in keys ==> At(a, k) + At(b, k) + At(c, k) == At(x, k) + At(y, k) - At(z, k)
    ensures Sum(keys, a) + Sum(keys, b) + Sum(keys, c) == Sum(keys, x) + Sum(keys, y) - Sum(keys, z)
    decreases keys
  {
    if keys != {} {
      var k :| k in keys;
      SumPick(keys, a, k);
      SumPick(keys, b, k);
      SumPick(keys, c, k);
      SumPick(keys, x, k);
      SumPick(keys, y, k);
      SumPick(keys, z, k);
      SumBalance(keys - {k}, a, b, c, x, y, z);
    }
  }

  lemma {:induction false} SumNonNegative<K(!new)>(keys: set<K>, m: map<K, int>)
    requires forall k :: k in keys ==> At(m, k) >= 0
    ensures Sum(keys, m) >= 0
    decreases keys
  {
    if keys != {} {
      var k :| k in keys;
      SumPick(keys, m, k);
      SumNonNegative(keys - {k}, m);
    }
  }

  lemma {:induction false} SumZero<K(!new)>(keys: set<K>, m: map<K, int>)
    requires forall k :: k in keys ==> At(m, k) == 0
    ensures Sum(keys, m) == 0
    decreases keys
  {
    if keys != {} {
      var k :| k in keys;
      SumPick(keys, m, k);
      SumZero(keys - {k}, m);
    }
  }

  lemma {:induction false} SumDisjoint<K(!new)>(a: set<K>, b: set<K>, m: map<K, int>)
    requires a !! b
    ensures Sum(a + b, m) == Sum(a, m) + Sum(b, m)
    decreases a
  {
    if a == {} {
      assert a + b == b;
    } else {
      var k :| k in a;
      SumPick(a, m, k);
      SumPick(a + b, m, k);
      SumDisjoint(a - {k}, b, m);
      assert a + b - {k} == (a - {k}) + b;
    }
  }

  lemma SumSubset<K(!new)>(a: set<K>, b: set<K>, m: map<K, int>)
    requires a <= b
    requires forall k :: k in b ==> At(m, k) >= 0
    ensures Sum(a, m) <= Sum(b, m)
  {
    SumDisjoint(a, b - a, m);
    assert a + (b - a) == b;
    SumNonNegative(b - a, m);
  }

  /** A single key is bounded by the whole sum when nothing is negative. */
  lemma SumAtLeast<K(!new)>(keys: set<K>, m: map<K, int>, k: K)
    requires k in keys
    requires forall x :: x in keys ==> At(m, x) >= 0
    ensures At(m, k) <= Sum(keys, m)
  {
    SumPick(keys, m, k);
    SumNonNegative(keys - {k}, m);
  }

  /** A positive total has a positive entry. */
  lemma {:induction false} PositiveEntry<K(!new)>(keys: set<K>, m: map<K, int>) returns (k: K)
    requires Sum(keys, m) > 0
    ensures k in keys && At(m, k) > 0
    decreases keys
  {
    k :| k in keys;
    SumPick(keys, m, k);
    if At(m, k) <= 0 {
      k := PositiveEntry(keys - {k}, m);
    }
  }

  /** If f sends the keys one-to-one into others, and no key outweighs its image, then the sum over
      the keys is at most the sum over the images' set. */
  lemma {:induction false} SumInjection<K(!new), L(!new)>(
      keys: set<K>, m: map<K, int>, images: set<L>, n: map<L, int>, f: map<K, L>)
    requires keys <= f.Keys
    requires forall k :: k in keys ==> f[k] in images && At(m, k) <= At(n, f[k])
    requires forall j, k :: j in keys && k in keys && f[j] == f[k] ==> j == k
    requires forall l :: l in images ==> At(n, l) >= 0
    ensures Sum(keys, m) <= Sum(images, n)
    decreases keys
  {
    if keys == {} {
      SumNonNegative(images, n);
    } else {
      var k :| k in keys;
      SumPick(keys, m, k);
      SumPick(images, n, f[k]);
      SumInjection(keys - {k}, m, images - {f[k]}, n, f);
    }
  }

  ghost function OfClass<T(!new), R(!new)>(items: set<T>, classOf: map<T, R>, r: R): set<T> {
    set t | t in items && t in classOf && classOf[t] == r
  }

  ghost function InClasses<T(!new), R(!new)>(items: set<T>, classOf: map<T, R>, classes: set<R>): set<T> {
    set t | t in items && t in classOf && classOf[t] in classes
  }

  /** Double counting: adding up the classes of a partition adds up the whole. */
  lemma {:induction false} SumByClass<T(!new), R(!new)>(
      classes: set<R>, items: set<T>, classOf: map<T, R>, m: map<T, int>, g: map<R, int>)
    requires forall r :: r in classes ==> At(g, r) == Sum(OfClass(items, classOf, r), m)
    ensures Sum(classes, g) == Sum(InClasses(items, classOf, classes), m)
    decreases classes
  {
    var all := InClasses(items, classOf, classes);
    if classes == {} {
      assert all == {};
    } else {
      var r :| r in classes;
      SumPick(classes, g, r);
      SumByClass(classes - {r}, items, classOf, m, g);
      var mine := OfClass(items, classOf, r);
      var rest := InClasses(items, classOf, classes - {r});
      assert all == mine + rest;
      SumDisjoint(mine, rest, m);
    }
  }

  /** Adding a new item to a class moves that class's sum and no other. */
  lemma SumClassInsert<T(!new), R(!new)>(classOf: map<T, R>, m: map<T, int>, t: T, owner: R, v: int, r: R)
    requires t !in classOf
    ensures var grown := classOf[t := owner];
            Sum(OfClass(grown.Keys, grown, r), m[t := v]) ==
            Sum(OfClass(classOf.Keys, classOf, r), m) + if owner == r then v else 0
  {
    var before := OfClass(classOf.Keys, classOf, r);
    var grown := classOf[t := owner];
    var after := OfClass(grown.Keys, grown, r);
    SumAgree(before, m, m[t := v]);
    if owner == r {
      assert after == before + {t};
      SumInsert(before, m[t := v], t);
    } else {
      assert after == before;
    }
  }

  /** The sum of a map's values, computed by going through its keys in any order. */
  method SumOf<K(!new, ==)>(m: map<K, int>) returns (sum: int)
    ensures sum == Total(m)
  {
    sum := 0;
    var todo := m.Keys;
    while todo != {}
      invariant todo <= m.Keys
      invariant sum + Sum(todo, m) == Total(m)
      decreases todo
    {
      var k :| k in todo;
      SumPick(todo, m, k);
      sum := sum + m[k];
      todo := todo - {k};
    }
  }
}
