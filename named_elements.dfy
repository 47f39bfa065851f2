// The list of a file's named elements shown in the structure view: every
// label, `equ`, macro, `%define` and extern symbol, but only the first
// `%assign` of each name.
module NamedElements {
  import opened Wrappers
  import opened Seqs

  /** A named PSI element: its (possibly missing) name and where it starts. */
  datatype Element = Element(name: Option<string>, offset: int)

  function Names(s: seq<Element>): (r: seq<Option<string>>)
    ensures |r| == |s|
    ensures forall i :: 0 <= i < |s| ==> r[i] == s[i].name
  {
    if s == [] then [] else [s[0].name] + Names(s[1..])
  }

  /** The elements of `s` whose name is not in `seen` and not used by an earlier element of `s`. */
  function FirstPerNameAfter(s: seq<Element>, seen: set<Option<string>>): (r: seq<Element>)
    decreases |s|
  {
    if s == [] then []
    else if s[0].name in seen then FirstPerNameAfter(s[1..], seen)
    else [s[0]] + FirstPerNameAfter(s[1..], seen + {s[0].name})
  }

  /** `groupBy { it.name }` followed by the first element of each group. */
  function FirstPerName(assigns: seq<Element>): seq<Element>
  {
    FirstPerNameAfter(assigns, {})
  }

  /** Whether `s[i]` is the first element of `s` with its name. */
  predicate IsFirstOfName(s: seq<Element>, i: nat)
    requires i < |s|
  {
    forall j :: 0 <= j < i ==> s[j].name != s[i].name
  }

  /** `findAllNamedElements`: the kinds in a fixed order, with the `%assign`s deduplicated by name. */
  function AllNamedElements(labels: seq<Element>, equs: seq<Element>, macros: seq<Element>,
                            defines: seq<Element>, assigns: seq<Element>, externs: seq<Element>): (r: seq<Element>)
    ensures |labels| + |equs| + |macros| + |defines| + |externs| <= |r|
    ensures r[..|labels|] == labels
    ensures r[|labels|..|labels| + |equs|] == equs
    ensures r[|labels| + |equs|..|labels| + |equs| + |macros|] == macros
    ensures r[|labels| + |equs| + |macros|..|labels| + |equs| + |macros| + |defines|] == defines
    ensures r[|r| - |externs|..] == externs
  {
    labels + equs + macros + defines + FirstPerName(assigns) + externs
  }

  /** The kept names are the distinct names, in the order they first appear. */
  lemma {:induction false} FirstPerNameAfterNames(s: seq<Element>, seen: set<Option<string>>)
    ensures Names(FirstPerNameAfter(s, seen)) == DistinctAfter(Names(s), seen)
    decreases |s|
  {
    if s != [] {
      assert Names(s)[1..] == Names(s[1..]);
      if s[0].name in seen {
        FirstPerNameAfterNames(s[1..], seen);
      } else {
        FirstPerNameAfterNames(s[1..], seen + {s[0].name});
        assert Names([s[0]] + FirstPerNameAfter(s[1..], seen + {s[0].name}))
          == [s[0].name] + Names(FirstPerNameAfter(s[1..], seen + {s[0].name}));
      }
    }
  }

  /**
   * Every kept element is an element of `s` that is the first of its name
   * there, and its name was not already seen.
   */
  lemma {:induction false} FirstPerNameAfterKeepsFirsts(s: seq<Element>, seen: set<Option<string>>, k: nat)
    requires k < |FirstPerNameAfter(s, seen)|
    ensures exists i :: 0 <= i < |s| && s[i] == FirstPerNameAfter(s, seen)[k] && IsFirstOfName(s, i) && s[i].name !in seen
    decreases |s|
  {
    var r := FirstPerNameAfter(s, seen);
    if s[0].name in seen {
      FirstPerNameAfterKeepsFirsts(s[1..], seen, k);
      var i :| 0 <= i < |s[1..]| && s[1..][i] == r[k] && IsFirstOfName(s[1..], i) && s[1..][i].name !in seen;
      assert s[i + 1] == r[k] && IsFirstOfName(s, i + 1);
    } else if k == 0 {
      assert s[0] == r[0] && IsFirstOfName(s, 0);
    } else {
      FirstPerNameAfterKeepsFirsts(s[1..], seen + {s[0].name}, k - 1);
      var i :| 0 <= i < |s[1..]| && s[1..][i] == r[k] && IsFirstOfName(s[1..], i) && s[1..][i].name !in seen + {s[0].name};
      assert s[i + 1] == r[k] && IsFirstOfName(s, i + 1);
    }
  }

  /**
   * Only the first `%assign` of each name is kept: the kept names are the
   * distinct names in first-appearance order, each kept element is the first
   * of its name, and no name is kept twice.
   */
  lemma FirstPerNameSpec(assigns: seq<Element>)
    ensures Names(FirstPerName(assigns)) == Distinct(Names(assigns))
    ensures NoDuplicates(Names(FirstPerName(assigns)))
    ensures forall x :: x in Names(FirstPerName(assigns)) <==> x in Names(assigns)
    ensures forall k :: 0 <= k < |FirstPerName(assigns)| ==>
      exists i :: 0 <= i < |assigns| && assigns[i] == FirstPerName(assigns)[k] && IsFirstOfName(assigns, i)
  {
    FirstPerNameAfterNames(assigns, {});
    DistinctSpec(Names(assigns));
    forall k | 0 <= k < |FirstPerName(assigns)|
      ensures exists i :: 0 <= i < |assigns| && assigns[i] == FirstPerName(assigns)[k] && IsFirstOfName(assigns, i)
    {
      FirstPerNameAfterKeepsFirsts(assigns, {}, k);
    }
  }

  /** Two `%assign`s of one name yield a single entry, the first. */
  lemma ReassignedOnce(a: Element, b: Element)
    requires a.name == b.name
    ensures FirstPerName([a, b]) == [a]
  {
    var s := [a, b];
    assert s[0] == a && s[1..] == [b];
    assert [b][0] == b && [b][1..] == [];
    assert FirstPerNameAfter([b], {a.name}) == FirstPerNameAfter([], {a.name}) == [];
    assert FirstPerNameAfter(s, {}) == [a] + FirstPerNameAfter([b], {} + {a.name});
    assert {} + {a.name} == {a.name};
  }

  /**
   * Every label, `equ`, macro, `%define` and extern is listed, nothing else
   * but `%assign`s is, and the `%assign`s listed are one per distinct name.
   */
  lemma AllNamedElementsSpec(labels: seq<Element>, equs: seq<Element>, macros: seq<Element>,
                             defines: seq<Element>, assigns: seq<Element>, externs: seq<Element>)
    ensures var r := AllNamedElements(labels, equs, macros, defines, assigns, externs);
      && (forall e :: e in labels + equs + macros + defines + externs ==> e in r)
      && (forall e :: e in r ==> e in labels + equs + macros + defines + externs || e in assigns)
      && |r| == |labels| + |equs| + |macros| + |defines| + |Distinct(Names(assigns))| + |externs|
  {
    var kept := FirstPerName(assigns);
    FirstPerNameSpec(assigns);
    forall e | e in kept
      ensures e in assigns
    {
      var k :| 0 <= k < |kept| && kept[k] == e;
    }
  }
}
