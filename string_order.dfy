// Kotlin's natural order on strings (`compareTo`, `sorted()`): character by
// character, a proper prefix first.
module StringOrder {

  /** `a < b` in `String.compareTo`. */
  predicate Less(a: string, b: string)
    decreases |a|
  {
    if a == [] then b != []
    else if b == [] then false
    else if a[0] != b[0] then a[0] < b[0]
    else Less(a[1..], b[1..])
  }

  predicate LessEq(a: string, b: string)
  {
    a == b || Less(a, b)
  }

  lemma {:induction false} LessIrreflexive(a: string)
    ensures !Less(a, a)
    decreases |a|
  {
    if a != [] {
      LessIrreflexive(a[1..]);
    }
  }

  lemma {:induction false} LessAsymmetric(a: string, b: string)
    requires Less(a, b)
    ensures !Less(b, a)
    decreases |a|
  {
    if a != [] && b != [] && a[0] == b[0] {
      LessAsymmetric(a[1..], b[1..]);
    }
  }

  lemma {:induction false} LessTransitive(a: string, b: string, c: string)
    requires Less(a, b) && Less(b, c)
    ensures Less(a, c)
    decreases |a|
  {
    if a != [] && a[0] == b[0] && b[0] == c[0] {
      LessTransitive(a[1..], b[1..], c[1..]);
    }
  }

  /** Two different strings are ordered one way or the other. */
  lemma {:induction false} LessTotal(a: string, b: string)
    requires a != b
    ensures Less(a, b) || Less(b, a)
    decreases |a|
  {
    if a != [] && b != [] && a[0] == b[0] {
      assert a == [a[0]] + a[1..] && b == [b[0]] + b[1..];
      LessTotal(a[1..], b[1..]);
    }
  }

  lemma LessEqTransitive(a: string, b: string, c: string)
    requires LessEq(a, b) && LessEq(b, c)
    ensures LessEq(a, c)
  {
    if a != b && b != c {
      LessTransitive(a, b, c);
    }
  }

  /** Nondecreasing in the natural order. */
  predicate Sorted(s: seq<string>)
  {
    forall i, j :: 0 <= i < j < |s| ==> LessEq(s[i], s[j])
  }

  /** Increasing: sorted and without repeats, as a sorted set. */
  predicate StrictlySorted(s: seq<string>)
  {
    forall i, j :: 0 <= i < j < |s| ==> Less(s[i], s[j])
  }

  // ---------------------------------------------------------------- sorting

  /** Insertion of x before the first element greater than it. */
  function Insert(s: seq<string>, x: string): seq<string>
  {
    if s == [] then [x]
    else if LessEq(x, s[0]) then [x] + s
    else [s[0]] + Insert(s[1..], x)
  }

  /** `sorted()`: insertion sort, which gives the same list as any sort for a total order. */
  function Sort(s: seq<string>): seq<string>
  {
    if s == [] then [] else Insert(Sort(s[..|s| - 1]), s[|s| - 1])
  }

  lemma {:induction false} InsertPermutes(s: seq<string>, x: string)
    ensures multiset(Insert(s, x)) == multiset(s) + multiset{x}
  {
    if s != [] && !LessEq(x, s[0]) {
      InsertPermutes(s[1..], x);
      assert s == [s[0]] + s[1..];
    }
  }

  /** A sorted list with x in front, when x is at most every element, is sorted. */
  lemma ConsSorted(x: string, s: seq<string>)
    requires Sorted(s)
    requires forall k :: 0 <= k < |s| ==> LessEq(x, s[k])
    ensures Sorted([x] + s)
  {
  }

  lemma {:induction false} InsertSorted(s: seq<string>, x: string)
    requires Sorted(s)
    ensures Sorted(Insert(s, x))
  {
    if s == [] {
    } else if LessEq(x, s[0]) {
      forall k | 0 <= k < |s|
        ensures LessEq(x, s[k])
      {
        LessEqTransitive(x, s[0], s[k]);
      }
      ConsSorted(x, s);
    } else {
      InsertSorted(s[1..], x);
      var rest := Insert(s[1..], x);
      InsertPermutes(s[1..], x);
      assert LessEq(s[0], x) by {
        LessTotal(x, s[0]);
      }
      forall k | 0 <= k < |rest|
        ensures LessEq(s[0], rest[k])
      {
        assert rest[k] in multiset(rest);
        if rest[k] != x {
          assert rest[k] in multiset(s[1..]);
          var j :| 0 <= j < |s[1..]| && s[1..][j] == rest[k];
          assert s[j + 1] == rest[k];
        }
      }
      ConsSorted(s[0], rest);
    }
  }

  /** `sorted()` returns the same elements, in order. */
  lemma {:induction false} SortSpec(s: seq<string>)
    ensures Sorted(Sort(s))
    ensures multiset(Sort(s)) == multiset(s)
  {
    if s != [] {
      var init := s[..|s| - 1];
      SortSpec(init);
      InsertSorted(Sort(init), s[|s| - 1]);
      InsertPermutes(Sort(init), s[|s| - 1]);
      assert s == init + [s[|s| - 1]];
    }
  }

  /** Adding x to a sorted set: nothing when it is there, otherwise in its place. */
  function AddToSet(s: seq<string>, x: string): seq<string>
  {
    if x in s then s else Insert(s, x)
  }

  lemma AddToSetSpec(s: seq<string>, x: string)
    requires StrictlySorted(s)
    ensures StrictlySorted(AddToSet(s, x))
    ensures forall y :: y in AddToSet(s, x) <==> y in s || y == x
  {
    InsertPermutes(s, x);
    var r := AddToSet(s, x);
    assert forall y :: y in r <==> y in multiset(r);
    assert forall y :: y in s <==> y in multiset(s);
    if x !in s {
      assert Sorted(s);
      InsertSorted(s, x);
      forall i, j | 0 <= i < j < |r|
        ensures Less(r[i], r[j])
      {
        assert LessEq(r[i], r[j]);
        StrictlySortedCountOne(s, r[i]);
        RepeatCounts(r, i, j);
      }
    }
  }

  /** An element at two indices occurs at least twice. */
  lemma RepeatCounts(r: seq<string>, i: nat, j: nat)
    requires i < j < |r|
    ensures r[i] == r[j] ==> multiset(r)[r[i]] >= 2
  {
    assert r == r[..j] + r[j..];
    assert r[..j][i] == r[i];
    assert r[j..][0] == r[j];
    assert r[i] in multiset(r[..j]);
  }

  lemma {:induction false} StrictlySortedCountOne(s: seq<string>, y: string)
    requires StrictlySorted(s)
    ensures multiset(s)[y] <= 1
  {
    if s != [] {
      var rest := s[1..];
      assert StrictlySorted(rest);
      StrictlySortedCountOne(rest, y);
      assert s == [s[0]] + rest;
      if s[0] == y && y in rest {
        var k :| 0 <= k < |rest| && rest[k] == y;
        assert Less(s[0], s[k + 1]);
        LessIrreflexive(y);
      }
    }
  }
}
