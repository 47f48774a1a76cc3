/** Insertion-ordered maps, the value semantics of a JavaScript `Map`:
    a sequence of (key, value) entries, iterated in insertion order. */
module OrderedMaps {
  import opened Wrappers

  type Entries<K, V> = seq<(K, V)>

  /** The keys, in iteration order. */
  function Keys<K, V>(m: Entries<K, V>): (ks: seq<K>)
    ensures |ks| == |m|
    ensures forall i :: 0 <= i < |m| ==> ks[i] == m[i].0
  {
    if m == [] then [] else [m[0].0] + Keys(m[1..])
  }

  /** No key occurs twice, as in every JavaScript `Map`. */
  predicate DistinctKeys<K(==), V>(m: Entries<K, V>) {
    forall i, j :: 0 <= i < j < |m| ==> m[i].0 != m[j].0
  }

  /** No entry holds an empty list. */
  predicate NoEmptyEntry<K, X>(m: Entries<K, seq<X>>) {
    forall i :: 0 <= i < |m| ==> m[i].1 != []
  }

  /** `a` is `b` with some elements left out: the order of `b` is kept. */
  predicate Subsequence<T(==)>(a: seq<T>, b: seq<T>)
    decreases |b|
  {
    if a == [] then true
    else if b == [] then false
    else if a[0] == b[0] then Subsequence(a[1..], b[1..])
    else Subsequence(a, b[1..])
  }

  /** Leaving out the first element of a subsequence keeps it one. */
  lemma {:induction false} SubsequenceDrop<T>(a: seq<T>, b: seq<T>)
    requires a != [] && Subsequence(a, b)
    ensures Subsequence(a[1..], b)
    decreases |b|, 0
  {
    if a[0] != b[0] {
      SubsequenceDrop(a, b[1..]);
    }
    SubsequenceCons(a[1..], b[1..], b[0]);
  }

  /** A subsequence of `b` is one of `b` with an element put in front. */
  lemma {:induction false} SubsequenceCons<T>(a: seq<T>, b: seq<T>, x: T)
    requires Subsequence(a, b)
    ensures Subsequence(a, [x] + b)
    decreases |b|, 1
  {
    assert ([x] + b)[1..] == b;
    if a != [] && a[0] == x {
      SubsequenceDrop(a, b);
    }
  }

  /** Every element of a subsequence of `b` is in `b`. */
  lemma {:induction false} SubsequenceMembers<T>(a: seq<T>, b: seq<T>, x: T)
    requires Subsequence(a, b) && x in a
    ensures x in b
    decreases |b|
  {
    if a[0] == b[0] {
      if x != a[0] {
        assert x in a[1..];
        SubsequenceMembers(a[1..], b[1..], x);
      }
    } else {
      SubsequenceMembers(a, b[1..], x);
    }
  }

  /** `m.get(k)`: the value stored under `k`, if any. */
  function Lookup<K(==), V>(m: Entries<K, V>, k: K): (r: Option<V>)
    ensures r.None? <==> k !in Keys(m)
  {
    if m == [] then None
    else if m[0].0 == k then Some(m[0].1)
    else Lookup(m[1..], k)
  }

  /** `m.set(k, v)`: an existing key keeps its position and takes the new
      value; a new key is appended at the end. */
  function Set<K(==), V>(m: Entries<K, V>, k: K, v: V): (r: Entries<K, V>)
    decreases |m|
  {
    if m == [] then [(k, v)]
    else if m[0].0 == k then [(k, v)] + m[1..]
    else [m[0]] + Set(m[1..], k, v)
  }

  /** `new Map(pairs)`: the entries set one after another. */
  function FromPairs<K(==), V>(ps: seq<(K, V)>): Entries<K, V>
  {
    if ps == [] then [] else Set(FromPairs(ps[..|ps| - 1]), ps[|ps| - 1].0, ps[|ps| - 1].1)
  }

  /** The value of the last pair with key `k`: what a sequence of `set` calls leaves behind. */
  function LastValue<K(==), V>(ps: seq<(K, V)>, k: K): Option<V>
  {
    if ps == [] then None
    else if ps[|ps| - 1].0 == k then Some(ps[|ps| - 1].1)
    else LastValue(ps[..|ps| - 1], k)
  }

  /** `set` keeps the key order, appending a key only when it is new. */
  lemma {:induction false} SetKeys<K, V>(m: Entries<K, V>, k: K, v: V)
    ensures k in Keys(m) ==> Keys(Set(m, k, v)) == Keys(m)
    ensures k !in Keys(m) ==> Keys(Set(m, k, v)) == Keys(m) + [k]
    decreases |m|
  {
    if m != [] && m[0].0 != k {
      SetKeys(m[1..], k, v);
      assert Keys(Set(m, k, v)) == [m[0].0] + Keys(Set(m[1..], k, v));
      assert Keys(m) == [m[0].0] + Keys(m[1..]);
    }
  }

  /** After `set(k, v)`, `get(k)` is `v` and every other key is untouched. */
  lemma {:induction false} SetLookup<K, V>(m: Entries<K, V>, k: K, v: V, k': K)
    ensures Lookup(Set(m, k, v), k) == Some(v)
    ensures k' != k ==> Lookup(Set(m, k, v), k') == Lookup(m, k')
    decreases |m|
  {
    if m != [] && m[0].0 != k {
      SetLookup(m[1..], k, v, k');
      assert Set(m, k, v)[1..] == Set(m[1..], k, v);
    }
  }

  /** `set` never duplicates a key. */
  lemma SetDistinct<K, V>(m: Entries<K, V>, k: K, v: V)
    requires DistinctKeys(m)
    ensures DistinctKeys(Set(m, k, v))
  {
    SetKeys(m, k, v);
    var r := Set(m, k, v);
    forall i, j | 0 <= i < j < |r| ensures r[i].0 != r[j].0 {
      assert r[i].0 == Keys(r)[i] && r[j].0 == Keys(r)[j];
      if k !in Keys(m) && j == |m| {
        assert Keys(r)[i] == Keys(m)[i];
      } else {
        assert Keys(r)[i] == Keys(m)[i] && Keys(r)[j] == Keys(m)[j];
      }
    }
  }

  /** Building a map from pairs leaves, under every key, the value of the
      last pair with that key, with no key repeated. */
  lemma {:induction false} FromPairsSpec<K, V>(ps: seq<(K, V)>, k: K)
    ensures DistinctKeys(FromPairs(ps))
    ensures Lookup(FromPairs(ps), k) == LastValue(ps, k)
  {
    if ps != [] {
      var init := ps[..|ps| - 1];
      var last := ps[|ps| - 1];
      FromPairsSpec(init, k);
      SetDistinct(FromPairs(init), last.0, last.1);
      SetLookup(FromPairs(init), last.0, last.1, k);
    }
  }
}
