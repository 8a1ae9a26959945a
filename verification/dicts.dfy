/**
 * Python dictionaries keep their keys in insertion order, and both `get_W`
 * and `add_unknown_words` depend on that order. A `Dict` pairs the key order
 * with the key/value map.
 */
module Dicts {

  /** True iff no key occurs twice in `s`. */
  ghost predicate Distinct<K>(s: seq<K>) {
    forall i, j :: 0 <= i < j < |s| ==> s[i] != s[j]
  }

  /** `a` is `b` with some elements left out, the rest in their order. */
  ghost predicate Subsequence<K>(a: seq<K>, b: seq<K>)
    decreases |b|
  {
    if |a| == 0 then true
    else if |b| == 0 then false
    else (a[0] == b[0] && Subsequence(a[1..], b[1..])) || Subsequence(a, b[1..])
  }

  datatype Dict<K, V> = Dict(order: seq<K>, entries: map<K, V>) {

    /** The key order lists every key exactly once. */
    ghost predicate Valid() {
      && Distinct(order)
      && entries.Keys == (set k | k in order)
    }

    /** `d[k] = v`: an existing key keeps its position, a new key goes last. */
    function Put(k: K, v: V): (r: Dict<K, V>)
      requires Valid()
      ensures r.Valid()
      ensures r.entries == entries[k := v]
      ensures k in entries ==> r.order == order
      ensures k !in entries ==> r.order == order + [k]
    {
      if k in entries then Dict(order, entries[k := v]) else Dict(order + [k], entries[k := v])
    }
  }

  /** `{}` */
  function Empty<K, V>(): (r: Dict<K, V>)
    ensures r.Valid() && r.entries == map[] && r.order == []
  {
    Dict([], map[])
  }

  /** Stores the pairs one after another, as a loop of `d[k] = v` statements does. */
  function PutAll<K, V>(d: Dict<K, V>, pairs: seq<(K, V)>): (r: Dict<K, V>)
    requires d.Valid()
    ensures r.Valid()
    decreases |pairs|
  {
    if |pairs| == 0 then d else PutAll(d.Put(pairs[0].0, pairs[0].1), pairs[1..])
  }

  /** The keys mentioned by a sequence of pairs. */
  function KeysOf<K, V>(pairs: seq<(K, V)>): (r: set<K>)
    ensures forall i :: 0 <= i < |pairs| ==> pairs[i].0 in r
    ensures forall k :: k in r ==> exists i :: 0 <= i < |pairs| && pairs[i].0 == k
    decreases |pairs|
  {
    if |pairs| == 0 then {} else {pairs[0].0} + KeysOf(pairs[1..])
  }

  /** After storing a sequence of pairs, the keys are the old keys plus every stored key. */
  lemma {:induction false} PutAllKeys<K, V>(d: Dict<K, V>, pairs: seq<(K, V)>)
    requires d.Valid()
    ensures PutAll(d, pairs).entries.Keys == d.entries.Keys + KeysOf(pairs)
    decreases |pairs|
  {
    if |pairs| > 0 {
      PutAllKeys(d.Put(pairs[0].0, pairs[0].1), pairs[1..]);
    }
  }

  /**
   * Keys that no pair mentions keep their value, and for a stored key the
   * last pair with that key wins.
   */
  lemma {:induction false} PutAllLastWins<K, V>(d: Dict<K, V>, pairs: seq<(K, V)>)
    requires d.Valid()
    ensures forall k :: k in d.entries && k !in KeysOf(pairs) ==>
      k in PutAll(d, pairs).entries && PutAll(d, pairs).entries[k] == d.entries[k]
    ensures forall i :: 0 <= i < |pairs| && pairs[i].0 !in KeysOf(pairs[i + 1..]) ==>
      pairs[i].0 in PutAll(d, pairs).entries && PutAll(d, pairs).entries[pairs[i].0] == pairs[i].1
    decreases |pairs|
  {
    PutAllKeys(d, pairs);
    if |pairs| > 0 {
      var d' := d.Put(pairs[0].0, pairs[0].1);
      var rest := pairs[1..];
      PutAllLastWins(d', rest);
      PutAllKeys(d', rest);
      forall i | 1 <= i < |pairs| && pairs[i].0 !in KeysOf(pairs[i + 1..])
        ensures pairs[i].0 in PutAll(d, pairs).entries && PutAll(d, pairs).entries[pairs[i].0] == pairs[i].1
      {
        assert rest[i - 1] == pairs[i];
        assert rest[i..] == pairs[i + 1..];
      }
      assert rest == pairs[1..];
    }
  }

  /** A valid dictionary has as many entries as its order has keys (`len(d)`). */
  lemma SizeIsLength<K, V>(d: Dict<K, V>)
    requires d.Valid()
    ensures |d.entries| == |d.order|
  {
    DistinctSize(d.order);
    assert |d.entries| == |d.entries.Keys|;
  }

  /** A sequence without repetitions has as many distinct elements as it is long. */
  lemma {:induction false} DistinctSize<K>(s: seq<K>)
    requires Distinct(s)
    ensures |set k | k in s| == |s|
    decreases |s|
  {
    if |s| > 0 {
      var init := s[..|s| - 1];
      var last := s[|s| - 1];
      assert Distinct(init);
      DistinctSize(init);
      assert (set k | k in s) == (set k | k in init) + {last} by {
        assert s == init + [last];
      }
      assert last !in (set k | k in init);
    }
  }
}
