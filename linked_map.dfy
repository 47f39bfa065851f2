// Kotlin's `mutableMapOf()` (a LinkedHashMap) as a list of entries in first-insertion order.
module LinkedMaps {
  import opened Seqs

  function Keys<K, V>(entries: seq<(K, V)>): (r: seq<K>)
  {
    if entries == [] then [] else [entries[0].0] + Keys(entries[1..])
  }

  /** `values.toList()`: the values in entry order. */
  function Values<K, V>(entries: seq<(K, V)>): (r: seq<V>)
    ensures |r| == |entries|
    ensures forall i :: 0 <= i < |entries| ==> r[i] == entries[i].1
  {
    if entries == [] then [] else [entries[0].1] + Values(entries[1..])
  }

  /** `map[k] = v`: an existing key keeps its place and takes the new value; a new key goes last. */
  function Put<K(==), V>(entries: seq<(K, V)>, k: K, v: V): (r: seq<(K, V)>)
    decreases |entries|
  {
    if entries == [] then [(k, v)]
    else if entries[0].0 == k then [(k, v)] + entries[1..]
    else [entries[0]] + Put(entries[1..], k, v)
  }

  /** Putting each pair in turn. */
  function PutAll<K(==), V>(entries: seq<(K, V)>, pairs: seq<(K, V)>): (r: seq<(K, V)>)
    decreases |pairs|
  {
    if pairs == [] then entries
    else Put(PutAll(entries, pairs[..|pairs| - 1]), pairs[|pairs| - 1].0, pairs[|pairs| - 1].1)
  }

  lemma PutAllSnoc<K, V>(start: seq<(K, V)>, pairs: seq<(K, V)>, k: K, v: V)
    ensures PutAll(start, pairs + [(k, v)]) == Put(PutAll(start, pairs), k, v)
  {
    assert (pairs + [(k, v)])[..|pairs|] == pairs;
  }

  lemma {:induction false} PutKeys<K, V>(entries: seq<(K, V)>, k: K, v: V)
    ensures Keys(Put(entries, k, v)) == if k in Keys(entries) then Keys(entries) else Keys(entries) + [k]
    decreases |entries|
  {
    if entries == [] {
      assert Keys([(k, v)]) == [k] + Keys<K, V>([]);
    } else {
      var rest := entries[1..];
      var put := Put(entries, k, v);
      assert Keys(entries) == [entries[0].0] + Keys(rest);
      if entries[0].0 == k {
        assert put[1..] == rest;
        assert Keys(put) == [k] + Keys(rest);
      } else {
        PutKeys(rest, k, v);
        assert put[1..] == Put(rest, k, v);
        assert Keys(put) == [entries[0].0] + Keys(Put(rest, k, v));
        assert k in Keys(entries) <==> k in Keys(rest);
      }
    }
  }

  lemma NoDuplicatesTail<K, V>(entries: seq<(K, V)>)
    requires entries != [] && NoDuplicates(Keys(entries))
    ensures NoDuplicates(Keys(entries[1..]))
    ensures forall i :: 0 <= i < |entries[1..]| ==> entries[1..][i].0 != entries[0].0
  {
    var rest := entries[1..];
    KeysIndex(entries);
    KeysIndex(rest);
    assert forall i :: 0 <= i < |rest| ==> Keys(rest)[i] == Keys(entries)[i + 1];
  }

  lemma {:induction false} PutMap<K, V>(entries: seq<(K, V)>, k: K, v: V)
    requires NoDuplicates(Keys(entries))
    ensures MapOf(Put(entries, k, v)) == MapOf(entries)[k := v]
    decreases |entries|
  {
    if entries == [] {
      assert [(k, v)] == [] + [(k, v)];
      MapOfSnoc([], k, v);
    } else {
      NoDuplicatesTail(entries);
      if entries[0].0 == k {
        PutMapHit(entries, k, v);
      } else {
        PutMap(entries[1..], k, v);
        PutMapMiss(entries, k, v);
      }
    }
  }

  lemma PutMapHit<K, V>(entries: seq<(K, V)>, k: K, v: V)
    requires entries != [] && entries[0].0 == k
    requires forall i :: 0 <= i < |entries[1..]| ==> entries[1..][i].0 != entries[0].0
    ensures MapOf(Put(entries, k, v)) == MapOf(entries)[k := v]
  {
    var rest := entries[1..];
    MapOfCons(entries[0], rest);
    MapOfCons((k, v), rest);
    assert Put(entries, k, v) == [(k, v)] + rest;
    assert entries == [entries[0]] + rest;
    assert MapOf(rest)[k := entries[0].1][k := v] == MapOf(rest)[k := v];
  }

  lemma PutMapMiss<K, V>(entries: seq<(K, V)>, k: K, v: V)
    requires entries != [] && entries[0].0 != k
    requires NoDuplicates(Keys(entries[1..]))
    requires forall i :: 0 <= i < |entries[1..]| ==> entries[1..][i].0 != entries[0].0
    requires MapOf(Put(entries[1..], k, v)) == MapOf(entries[1..])[k := v]
    ensures MapOf(Put(entries, k, v)) == MapOf(entries)[k := v]
  {
    var rest := entries[1..];
    var put := Put(rest, k, v);
    AbsentAfterPut(rest, k, v, entries[0].0);
    MapOfCons(entries[0], put);
    MapOfCons(entries[0], rest);
    assert entries == [entries[0]] + rest;
    MapSwap(MapOf(rest), k, v, entries[0].0, entries[0].1);
  }

  lemma {:induction false} AbsentAfterPut<K, V>(entries: seq<(K, V)>, k: K, v: V, x: K)
    requires x != k
    requires forall i :: 0 <= i < |entries| ==> entries[i].0 != x
    ensures forall i :: 0 <= i < |Put(entries, k, v)| ==> Put(entries, k, v)[i].0 != x
    decreases |entries|
  {
    if entries != [] && entries[0].0 != k {
      AbsentAfterPut(entries[1..], k, v, x);
      var put := Put(entries, k, v);
      assert put == [entries[0]] + Put(entries[1..], k, v);
      assert forall i :: 1 <= i < |put| ==> put[i] == Put(entries[1..], k, v)[i - 1];
    } else if entries != [] {
      var put := Put(entries, k, v);
      assert forall i :: 1 <= i < |put| ==> put[i] == entries[i];
    }
  }

  lemma MapSwap<K, V>(m: map<K, V>, a: K, va: V, b: K, vb: V)
    requires a != b
    ensures m[a := va][b := vb] == m[b := vb][a := va]
  {
  }

  lemma {:induction false} KeysIndex<K, V>(entries: seq<(K, V)>)
    ensures |Keys(entries)| == |entries|
    ensures forall i :: 0 <= i < |entries| ==> Keys(entries)[i] == entries[i].0
    decreases |entries|
  {
    if entries != [] {
      KeysIndex(entries[1..]);
    }
  }

  /** Adding a first pair whose key is not used later: the later pairs still decide their own keys. */
  lemma {:induction false} MapOfCons<K, V>(p: (K, V), rest: seq<(K, V)>)
    requires forall i :: 0 <= i < |rest| ==> rest[i].0 != p.0
    ensures MapOf([p] + rest) == MapOf(rest)[p.0 := p.1]
    decreases |rest|
  {
    if rest == [] {
      assert [p] + rest == [] + [p];
      MapOfSnoc([], p.0, p.1);
    } else {
      var init := rest[..|rest| - 1];
      var last := rest[|rest| - 1];
      assert [p] + rest == ([p] + init) + [last];
      MapOfSnoc([p] + init, last.0, last.1);
      MapOfCons(p, init);
      assert rest == init + [last];
      MapOfSnoc(init, last.0, last.1);
    }
  }

  lemma PutNoDuplicates<K, V>(entries: seq<(K, V)>, k: K, v: V)
    requires NoDuplicates(Keys(entries))
    ensures NoDuplicates(Keys(Put(entries, k, v)))
  {
    PutKeys(entries, k, v);
  }

  /** Keys come in first-insertion order, each once. */
  lemma {:induction false} PutAllKeys<K, V>(start: seq<(K, V)>, pairs: seq<(K, V)>)
    requires NoDuplicates(Keys(start))
    ensures NoDuplicates(Keys(PutAll(start, pairs)))
    ensures Keys(PutAll(start, pairs)) == Distinct(Keys(start) + Keys(pairs))
    decreases |pairs|
  {
    if pairs == [] {
      DistinctOfDistinct(Keys(start));
      assert Keys(start) + Keys(pairs) == Keys(start);
    } else {
      var init := pairs[..|pairs| - 1];
      var last := pairs[|pairs| - 1];
      PutAllKeys(start, init);
      var e := PutAll(start, init);
      PutKeys(e, last.0, last.1);
      PutNoDuplicates(e, last.0, last.1);
      KeysSnoc(init, last);
      assert pairs == init + [last];
      assert Keys(start) + Keys(pairs) == (Keys(start) + Keys(init)) + [last.0];
      DistinctSnoc(Keys(start) + Keys(init), last.0);
      DistinctSpec(Keys(start) + Keys(init));
    }
  }

  lemma KeysSnoc<K, V>(init: seq<(K, V)>, last: (K, V))
    ensures Keys(init + [last]) == Keys(init) + [last.0]
  {
    KeysIndex(init + [last]);
    KeysIndex(init);
  }

  /** Each key ends with the value of its last pair: the map is `start` overridden by `pairs`. */
  lemma {:induction false} PutAllMap<K, V>(start: seq<(K, V)>, pairs: seq<(K, V)>)
    requires NoDuplicates(Keys(start))
    ensures MapOf(PutAll(start, pairs)) == MapOf(start) + MapOf(pairs)
    decreases |pairs|
  {
    if pairs == [] {
      assert MapOf(start) + map[] == MapOf(start);
    } else {
      var init := pairs[..|pairs| - 1];
      var last := pairs[|pairs| - 1];
      PutAllMap(start, init);
      PutAllKeys(start, init);
      PutMap(PutAll(start, init), last.0, last.1);
      assert pairs == init + [last];
      MapOfSnoc(init, last.0, last.1);
      OverrideUpdate(MapOf(start), MapOf(init), last.0, last.1);
    }
  }

  /** Filled from empty, a map holds the keys of `pairs` once each, in first-occurrence order. */
  lemma PutAllFreshKeys<K, V>(pairs: seq<(K, V)>)
    ensures Keys(PutAll([], pairs)) == Distinct(Keys(pairs))
  {
    PutAllKeys([], pairs);
    assert Keys<K, V>([]) + Keys(pairs) == Keys(pairs);
  }

  /** Filled from empty, a map gives each key the value of its last pair. */
  lemma PutAllFreshMap<K, V>(pairs: seq<(K, V)>)
    ensures MapOf(PutAll([], pairs)) == MapOf(pairs)
  {
    PutAllMap([], pairs);
    assert MapOf<K, V>([]) + MapOf(pairs) == MapOf(pairs);
  }

  lemma OverrideUpdate<K, V>(a: map<K, V>, b: map<K, V>, k: K, v: V)
    ensures (a + b)[k := v] == a + b[k := v]
  {
  }

  /** A list without repeats is its own deduplication. */
  lemma {:induction false} DistinctOfDistinct<T>(s: seq<T>)
    requires NoDuplicates(s)
    ensures Distinct(s) == s
    decreases |s|
  {
    if s != [] {
      var init := s[..|s| - 1];
      assert NoDuplicates(init) by {
        assert forall i :: 0 <= i < |init| ==> init[i] == s[i];
      }
      DistinctOfDistinct(init);
      assert s == init + [s[|s| - 1]];
      DistinctSnoc(init, s[|s| - 1]);
      assert s[|s| - 1] !in init;
    }
  }
}
