// Sequence helpers shared by the list pipelines of the plugin:
// `distinct()`, `filter`, and first-match search.
module Seqs {
  import opened Wrappers

  predicate NoDuplicates<T(==)>(s: seq<T>)
  {
    forall i, j :: 0 <= i < j < |s| ==> s[i] != s[j]
  }

  /** Kotlin's `distinct()`: keeps the first occurrence of each element. */
  function Distinct<T(==)>(s: seq<T>): (r: seq<T>)
  {
    DistinctAfter(s, {})
  }

  /** The elements of `s` not in `seen`, each once, in first-occurrence order. */
  function DistinctAfter<T(==)>(s: seq<T>, seen: set<T>): (r: seq<T>)
    decreases |s|
  {
    if s == [] then []
    else if s[0] in seen then DistinctAfter(s[1..], seen)
    else [s[0]] + DistinctAfter(s[1..], seen + {s[0]})
  }

  lemma {:induction false} DistinctAfterSpec<T>(s: seq<T>, seen: set<T>)
    ensures NoDuplicates(DistinctAfter(s, seen))
    ensures forall x :: x in DistinctAfter(s, seen) <==> x in s && x !in seen
    decreases |s|
  {
    if s != [] {
      if s[0] in seen {
        DistinctAfterSpec(s[1..], seen);
        assert forall x :: x in s <==> x == s[0] || x in s[1..];
      } else {
        DistinctAfterSpec(s[1..], seen + {s[0]});
        assert forall x :: x in s <==> x == s[0] || x in s[1..];
      }
    }
  }

  /** `distinct()` keeps exactly the elements of its input, and each just once. */
  lemma DistinctSpec<T>(s: seq<T>)
    ensures NoDuplicates(Distinct(s))
    ensures forall x :: x in Distinct(s) <==> x in s
  {
    DistinctAfterSpec(s, {});
  }

  lemma {:induction false} DistinctAfterPrefix<T>(a: seq<T>, b: seq<T>, seen: set<T>)
    ensures DistinctAfter(a + b, seen) == DistinctAfter(a, seen) + DistinctAfter(b, seen + (set x | x in a))
    decreases |a|
  {
    if a == [] {
      assert a + b == b;
      assert (set x | x in a) == {};
      assert seen + (set x | x in a) == seen;
    } else {
      assert (a + b)[1..] == a[1..] + b;
      if a[0] in seen {
        DistinctAfterPrefix(a[1..], b, seen);
        assert (seen + set x | x in a[1..]) == (seen + (set x | x in a));
      } else {
        DistinctAfterPrefix(a[1..], b, seen + {a[0]});
        assert (seen + {a[0]} + set x | x in a[1..]) == (seen + (set x | x in a));
      }
    }
  }

  /** Deduplicating a concatenation lists the deduplicated prefix first. */
  lemma DistinctConcat<T>(a: seq<T>, b: seq<T>)
    ensures Distinct(a + b) == Distinct(a) + DistinctAfter(b, set x | x in a)
  {
    DistinctAfterPrefix(a, b, {});
    assert {} + (set x | x in a) == (set x | x in a);
  }

  /** Index of the first element satisfying a membership test. */
  function IndexWhereIn<T(==)>(s: seq<T>, good: set<T>): (r: Option<nat>)
    ensures r.Some? ==> r.value < |s| && s[r.value] in good
    ensures r.Some? ==> forall j :: 0 <= j < r.value ==> s[j] !in good
    ensures r.None? ==> forall j :: 0 <= j < |s| ==> s[j] !in good
  {
    if s == [] then None
    else if s[0] in good then Some(0)
    else match IndexWhereIn(s[1..], good)
      case None => None
      case Some(k) => Some(k + 1)
  }

  /** Appending to a deduplicated list: the new element is added only when not yet present. */
  lemma DistinctSnoc<T>(s: seq<T>, x: T)
    ensures Distinct(s + [x]) == if x in s then Distinct(s) else Distinct(s) + [x]
  {
    DistinctConcat(s, [x]);
    var seen := set y | y in s;
    assert DistinctAfter([x], seen) == if x in seen then [] else [x] by {
      assert [x][1..] == [];
    }
  }

  /** Entering key/value pairs into a map one after the other, as `map[k] = v` in a loop or `associate`. */
  function MapOf<K, V>(pairs: seq<(K, V)>): (m: map<K, V>)
    decreases |pairs|
  {
    if pairs == [] then map[]
    else
      var last := pairs[|pairs| - 1];
      MapOf(pairs[..|pairs| - 1])[last.0 := last.1]
  }

  /** A key is present iff some pair has it. */
  lemma {:induction false} MapOfDomain<K, V>(pairs: seq<(K, V)>)
    ensures forall k :: k in MapOf(pairs) <==> exists i :: 0 <= i < |pairs| && pairs[i].0 == k
    decreases |pairs|
  {
    if pairs != [] {
      var init := pairs[..|pairs| - 1];
      MapOfDomain(init);
      assert forall i :: 0 <= i < |init| ==> init[i] == pairs[i];
    }
  }

  /** The last pair with a key gives its value: a later pair overrides an earlier one. */
  lemma {:induction false} MapOfLaterWins<K, V>(pairs: seq<(K, V)>, i: nat)
    requires i < |pairs|
    requires forall j :: i < j < |pairs| ==> pairs[j].0 != pairs[i].0
    ensures pairs[i].0 in MapOf(pairs) && MapOf(pairs)[pairs[i].0] == pairs[i].1
    decreases |pairs|
  {
    if i < |pairs| - 1 {
      var init := pairs[..|pairs| - 1];
      assert init[i] == pairs[i];
      MapOfLaterWins(init, i);
    }
  }

  /** A key's value comes from one of the pairs. */
  lemma {:induction false} MapOfValue<K, V>(pairs: seq<(K, V)>, k: K)
    requires k in MapOf(pairs)
    ensures exists i :: 0 <= i < |pairs| && pairs[i] == (k, MapOf(pairs)[k])
    decreases |pairs|
  {
    var init := pairs[..|pairs| - 1];
    var last := pairs[|pairs| - 1];
    if last.0 != k {
      MapOfValue(init, k);
      var i :| 0 <= i < |init| && init[i] == (k, MapOf(init)[k]);
      assert pairs[i] == init[i];
    }
  }

  lemma MapOfSnoc<K, V>(pairs: seq<(K, V)>, k: K, v: V)
    ensures MapOf(pairs + [(k, v)]) == MapOf(pairs)[k := v]
  {
    assert (pairs + [(k, v)])[..|pairs|] == pairs;
  }

  /** `filter { it !in bad }`: the elements outside `bad`, in order. */
  function Without<T(==)>(s: seq<T>, bad: set<T>): (r: seq<T>)
    ensures |r| <= |s|
    ensures forall i :: 0 <= i < |r| ==> r[i] !in bad && r[i] in s
    ensures forall x :: x in s && x !in bad ==> x in r
  {
    if s == [] then []
    else if s[0] !in bad then [s[0]] + Without(s[1..], bad)
    else Without(s[1..], bad)
  }

  /** Deduplicating a prefix first changes nothing. */
  lemma DistinctOfPrefix<T>(a: seq<T>, b: seq<T>)
    ensures Distinct(Distinct(a) + b) == Distinct(a + b)
  {
    DistinctConcat(Distinct(a), b);
    DistinctConcat(a, b);
    DistinctSpec(a);
    DistinctIdempotent(a);
    SameElements(Distinct(a), a);
  }

  lemma SameElements<T>(a: seq<T>, b: seq<T>)
    requires forall x :: x in a <==> x in b
    ensures (set x | x in a) == (set x | x in b)
  {
    var elemsA := set x | x in a;
    var elemsB := set x | x in b;
    assert forall x :: x in elemsA <==> x in elemsB;
  }

  lemma {:induction false} DistinctIdempotent<T>(s: seq<T>)
    ensures Distinct(Distinct(s)) == Distinct(s)
    decreases |s|
  {
    if s != [] {
      var init := s[..|s| - 1];
      var x := s[|s| - 1];
      assert s == init + [x];
      DistinctSnoc(init, x);
      DistinctIdempotent(init);
      DistinctSpec(init);
      if x !in init {
        DistinctSnoc(Distinct(init), x);
      }
    }
  }
}
