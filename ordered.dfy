/**
 * JavaScript's insertion-ordered collections.  A `Set` is a sequence without
 * duplicates in insertion order; a plain object used as a dictionary is a
 * `Dict`: a map together with the order in which its keys were inserted,
 * which is the order `Object.entries`, `Object.values` and `for ... in`
 * visit them.
 */
module Ordered {
  import opened Wrappers

  /** No element occurs twice: the first does not recur, nor does any later one. */
  predicate NoDup<K(==)>(s: seq<K>)
    decreases |s|
  {
    |s| == 0 || (s[0] !in s[1..] && NoDup(s[1..]))
  }

  lemma {:induction false} NoDupSnoc<K>(s: seq<K>, x: K)
    requires NoDup(s) && x !in s
    ensures NoDup(s + [x])
    decreases |s|
  {
    if s != [] {
      assert (s + [x])[1..] == s[1..] + [x];
      NoDupSnoc(s[1..], x);
    }
  }

  /** The two parts of a sequence without duplicates share no element. */
  lemma {:induction false} NoDupDisjoint<K>(a: seq<K>, b: seq<K>)
    requires NoDup(a + b)
    ensures forall x :: x in b ==> x !in a
    decreases |a|
  {
    if a != [] {
      assert (a + b)[1..] == a[1..] + b;
      NoDupDisjoint(a[1..], b);
    }
  }

  /** Two positions of a sequence without duplicates hold different elements. */
  lemma {:induction false} NoDupIndex<K>(s: seq<K>, i: int, j: int)
    requires NoDup(s) && 0 <= i < j < |s|
    ensures s[i] != s[j]
    decreases |s|
  {
    if i == 0 {
      assert s[j] == s[1..][j - 1];
    } else {
      NoDupIndex(s[1..], i - 1, j - 1);
    }
  }

  /** The parts of a sequence without duplicates have none either. */
  lemma {:induction false} NoDupSplit<K>(a: seq<K>, b: seq<K>)
    requires NoDup(a + b)
    ensures NoDup(a) && NoDup(b)
    decreases |a|
  {
    if a == [] {
      assert a + b == b;
    } else {
      assert (a + b)[1..] == a[1..] + b;
      NoDupSplit(a[1..], b);
    }
  }

  /** Two sequences without duplicates and without common elements join into one. */
  lemma {:induction false} NoDupJoin<K>(a: seq<K>, b: seq<K>)
    requires NoDup(a) && NoDup(b) && forall x :: x in a ==> x !in b
    ensures NoDup(a + b)
    decreases |a|
  {
    if a == [] {
      assert a + b == b;
    } else {
      assert (a + b)[1..] == a[1..] + b;
      NoDupJoin(a[1..], b);
    }
  }

  /** `set.add(x)`: x goes last unless it is already there. */
  function Add<K(==,!new)>(s: seq<K>, x: K): (r: seq<K>)
    ensures forall y :: y in r <==> y in s || y == x
    ensures |s| <= |r| <= |s| + 1 && r[..|s|] == s
    ensures NoDup(s) ==> NoDup(r)
  {
    if x in s then s
    else
      assert NoDup(s) ==> NoDup(s + [x]) by {
        if NoDup(s) { NoDupSnoc(s, x); }
      }
      s + [x]
  }

  /** The elements of s that are not in X, in their order; `set.delete(x)` is `Without(s, {x})`. */
  function Without<K(==,!new)>(s: seq<K>, X: set<K>): (r: seq<K>)
    ensures forall y :: y in r <==> y in s && y !in X
    ensures |r| <= |s|
  {
    if s == [] then []
    else (if s[0] in X then [] else [s[0]]) + Without(s[1..], X)
  }

  lemma {:induction false} WithoutNoDup<K(!new)>(s: seq<K>, X: set<K>)
    ensures NoDup(s) ==> NoDup(Without(s, X))
    decreases |s|
  {
    if s != [] && NoDup(s) {
      var rest := Without(s[1..], X);
      WithoutNoDup(s[1..], X);
      if s[0] in X {
        assert Without(s, X) == rest;
      } else {
        assert Without(s, X)[1..] == rest;
      }
    }
  }

  lemma {:induction false} WithoutAppend<K(!new)>(a: seq<K>, b: seq<K>, X: set<K>)
    ensures Without(a + b, X) == Without(a, X) + Without(b, X)
  {
    if a == [] {
      assert a + b == b;
    } else {
      assert (a + b)[1..] == a[1..] + b;
      WithoutAppend(a[1..], b, X);
    }
  }

  /** Removing an element that occurs once, between a and b. */
  lemma WithoutOne<K(!new)>(a: seq<K>, x: K, b: seq<K>)
    requires x !in a && x !in b
    ensures Without(a + [x] + b, {x}) == a + b
  {
    assert Without([x], {x}) == [] by {
      assert [x][1..] == [];
    }
    WithoutAppend(a, [x], {x});
    WithoutNothing(a, {x});
    assert Without(a + [x], {x}) == a;
    WithoutAppend(a + [x], b, {x});
    WithoutNothing(b, {x});
  }

  lemma {:induction false} WithoutWithout<K(!new)>(s: seq<K>, X: set<K>, Y: set<K>)
    ensures Without(Without(s, X), Y) == Without(s, X + Y)
  {
    if s != [] {
      var head := if s[0] in X then [] else [s[0]];
      WithoutAppend(head, Without(s[1..], X), Y);
      WithoutWithout(s[1..], X, Y);
    }
  }

  lemma {:induction false} WithoutNothing<K(!new)>(s: seq<K>, X: set<K>)
    requires forall y :: y in s ==> y !in X
    ensures Without(s, X) == s
  {
    if s != [] {
      WithoutNothing(s[1..], X);
    }
  }

  lemma WithoutAll<K(!new)>(s: seq<K>, X: set<K>)
    requires forall y :: y in s ==> y in X
    ensures Without(s, X) == []
  {
  }

  lemma {:induction false} WithoutShorter<K(!new)>(s: seq<K>, X: set<K>, x: K)
    requires x in s && x in X
    ensures |Without(s, X)| < |s|
  {
    if s[0] != x {
      WithoutShorter(s[1..], X, x);
    }
  }

  /** The elements of xs added one after another. */
  function AddAll<K(==,!new)>(s: seq<K>, xs: seq<K>): (r: seq<K>)
    ensures forall y :: y in r <==> y in s || y in xs
    ensures |s| <= |r| && r[..|s|] == s
    ensures NoDup(s) ==> NoDup(r)
    decreases |xs|
  {
    if xs == [] then s else Add(AddAll(s, xs[..|xs| - 1]), xs[|xs| - 1])
  }

  lemma {:induction false} AddAllAppend<K(!new)>(s: seq<K>, a: seq<K>, b: seq<K>)
    ensures AddAll(s, a + b) == AddAll(AddAll(s, a), b)
    decreases |b|
  {
    if b == [] {
      assert a + b == a;
    } else {
      assert (a + b)[..|a + b| - 1] == a + b[..|b| - 1];
      AddAllAppend(s, a, b[..|b| - 1]);
    }
  }

  /** A sequence without duplicates is no longer than any set holding its elements. */
  lemma {:induction false} NoDupBound<K(!new)>(s: seq<K>, U: set<K>)
    requires NoDup(s) && forall x :: x in s ==> x in U
    ensures |s| <= |U|
  {
    if s != [] {
      assert forall x :: x in s[1..] ==> x in U - {s[0]};
      NoDupBound(s[1..], U - {s[0]});
    }
  }

  /** A JavaScript object used as a dictionary. */
  datatype Dict<K(!new), V> = Dict(keys: seq<K>, m: map<K, V>) {

    ghost predicate Valid() {
      NoDup(keys) && forall k :: k in m <==> k in keys
    }

    /** `obj[k]`, with `undefined` for a missing key. */
    function Get(k: K): Option<V> {
      if k in m then Some(m[k]) else None
    }

    /** `obj[k] = v`: an existing key keeps its place, a new one goes last. */
    function Put(k: K, v: V): (d: Dict<K, V>)
      ensures d.Get(k) == Some(v)
      ensures forall j :: j != k ==> d.Get(j) == Get(j)
      ensures d.keys == Add(keys, k)
      ensures Valid() ==> d.Valid()
    {
      Dict(Add(keys, k), m[k := v])
    }

    /** `delete obj[k]`: the other keys keep their order. */
    function Remove(k: K): (d: Dict<K, V>)
      ensures d.Get(k) == None
      ensures forall j :: j != k ==> d.Get(j) == Get(j)
      ensures d.keys == Without(keys, {k})
      ensures Valid() ==> d.Valid()
    {
      WithoutNoDup(keys, {k});
      Dict(Without(keys, {k}), m - {k})
    }
  }

  /** The entries of b under the keys ks, in the order of ks, written over a. */
  function AssignKeys<K(!new), V>(a: Dict<K, V>, b: Dict<K, V>, ks: seq<K>): (r: Dict<K, V>)
    requires forall k :: k in ks ==> k in b.m
    ensures forall k :: r.Get(k) == if k in ks then b.Get(k) else a.Get(k)
    ensures a.Valid() ==> r.Valid() && r.keys == AddAll(a.keys, ks)
    decreases |ks|
  {
    if ks == [] then a
    else
      var k := ks[|ks| - 1];
      assert forall j :: j in ks <==> j in ks[..|ks| - 1] || j == k;
      AssignKeys(a, b, ks[..|ks| - 1]).Put(k, b.m[k])
  }

  /** `Object.assign(a, b)`: b's entries in b's order, each overriding a's entry for the same key. */
  function Assign<K(!new), V>(a: Dict<K, V>, b: Dict<K, V>): (r: Dict<K, V>)
    requires b.Valid()
    ensures forall k :: r.Get(k) == if k in b.m then b.Get(k) else a.Get(k)
    ensures a.Valid() ==> r.Valid() && r.keys == AddAll(a.keys, b.keys)
  {
    AssignKeys(a, b, b.keys)
  }

  /** `{}` */
  function EmptyDict<K(!new), V>(): (d: Dict<K, V>)
    ensures d.Valid() && d.keys == [] && forall k :: d.Get(k) == None
  {
    Dict([], map[])
  }

  /** Two valid dictionaries with the same key order and the same lookups are equal. */
  lemma SameDict<K(!new), V>(a: Dict<K, V>, b: Dict<K, V>)
    requires a.Valid() && b.Valid() && a.keys == b.keys
    requires forall k :: a.Get(k) == b.Get(k)
    ensures a == b
  {
    assert a.m.Keys == b.m.Keys;
    assert forall k :: k in a.m ==> a.m[k] == b.m[k] by {
      forall k | k in a.m ensures a.m[k] == b.m[k] {
        assert a.Get(k) == b.Get(k);
      }
    }
  }
}
