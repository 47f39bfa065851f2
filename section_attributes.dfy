// The checks on the attributes of a SECTION directive: repeated names,
// conflicting pairs such as exec and noexec, unknown names and `align`
// without a value, each reported on the attribute that shows it, and the
// highlighting of the names that are known.
module SectionAttributes {
  import opened Wrappers
  import opened Text

  /** An attribute as written: its name and whether a value (`=expr`) follows it. */
  datatype Attr = Attr(name: string, hasValue: bool)

  /** What is wrong with an attribute. Duplicates are warnings, the rest errors. */
  datatype Problem =
    | Duplicate(name: string)
    | Conflict(first: string, second: string)
    | Unknown(name: string)
    | MissingValue(name: string)

  datatype Severity = Warning | Error

  function SeverityOf(p: Problem): (s: Severity)
    ensures s == Warning <==> p.Duplicate?
  {
    if p.Duplicate? then Warning else Error
  }

  /** An annotation on the name of the attribute at `index`. */
  datatype Annotation = Annotation(index: nat, problem: Problem)

  /** Attributes without a parameter. */
  const ValidAttributes: set<string> :=
    {"exec", "noexec", "write", "nowrite", "alloc", "noalloc", "progbits", "nobits", "tls"}

  /** Attributes that take a parameter. */
  const ParamAttributes: set<string> := {"align"}

  /** Pairs of attributes that exclude each other, in the order they are checked. */
  const ConflictingPairs: seq<(string, string)> :=
    [("exec", "noexec"), ("write", "nowrite"), ("alloc", "noalloc"), ("progbits", "nobits")]

  // ---------------------------------------------------------------- specification

  /** The lowercased names of the attributes before index i. */
  function NamesBefore(attrs: seq<Attr>, i: nat): set<string>
    requires i <= |attrs|
  {
    if i == 0 then {} else NamesBefore(attrs, i - 1) + {Lower(attrs[i - 1].name)}
  }

  /** The conflicts the pairs report for `name` once the attributes seen so far, itself included, are `used`. */
  function PairConflicts(pairs: seq<(string, string)>, name: string, used: set<string>): seq<Problem>
  {
    if pairs == [] then []
    else PairConflicts(pairs[..|pairs| - 1], name, used) + PairFound(pairs[|pairs| - 1], name, used)
  }

  /** The conflicts one pair reports. */
  function PairFound(pair: (string, string), name: string, used: set<string>): seq<Problem>
  {
    var (first, second) := pair;
    (if name == first && second in used then [Conflict(first, second)] else [])
    + (if name == second && first in used then [Conflict(first, second)] else [])
  }

  /** What an attribute of the (lowercased) name shows, after the names `before` it, in the order the checks run. */
  function Problems(name: string, hasValue: bool, before: set<string>): seq<Problem>
  {
    (if name in before then [Duplicate(name)] else [])
    + PairConflicts(ConflictingPairs, name, before + {name})
    + (if name !in ValidAttributes && name !in ParamAttributes then [Unknown(name)] else [])
    + (if name in ParamAttributes && !hasValue then [MissingValue(name)] else [])
  }

  /** What the attribute at index i shows. */
  function ProblemsAt(attrs: seq<Attr>, i: nat): seq<Problem>
    requires i < |attrs|
  {
    Problems(Lower(attrs[i].name), attrs[i].hasValue, NamesBefore(attrs, i))
  }

  /** The problems of one attribute as annotations on it. */
  function OnAttribute(i: nat, problems: seq<Problem>): (r: seq<Annotation>)
    ensures |r| == |problems|
    ensures forall k :: 0 <= k < |r| ==> r[k] == Annotation(i, problems[k])
  {
    if problems == [] then [] else [Annotation(i, problems[0])] + OnAttribute(i, problems[1..])
  }

  /** The problems of each attribute, by index; an index past the end has none. */
  function ProblemsOf(attrs: seq<Attr>): nat -> seq<Problem>
  {
    (i: nat) => if i < |attrs| then ProblemsAt(attrs, i) else []
  }

  /** The annotations of the attributes before index n, attribute by attribute. */
  function AnnotationsUpTo(problemsAt: nat -> seq<Problem>, n: nat): seq<Annotation>
  {
    if n == 0 then [] else AnnotationsUpTo(problemsAt, n - 1) + OnAttribute(n - 1, problemsAt(n - 1))
  }

  // ---------------------------------------------------------------- the annotator

  /**
   * `validateSectionAttributes`: a directive without attributes gets no
   * annotation; otherwise each attribute, in order, is checked against
   * the names seen before it.
   */
  method ValidateSectionAttributes(attrs: Option<seq<Attr>>) returns (annotations: seq<Annotation>)
    ensures attrs.None? ==> annotations == []
    ensures attrs.Some? ==> annotations == AnnotationsUpTo(ProblemsOf(attrs.value), |attrs.value|)
  {
    if attrs.None? {
      return [];
    }
    var list := attrs.value;
    var usedAttributes: set<string> := {};
    annotations := [];
    for i := 0 to |list|
      invariant usedAttributes == NamesBefore(list, i)
      invariant annotations == AnnotationsUpTo(ProblemsOf(list), i)
    {
      var problems;
      problems, usedAttributes := CheckAttribute(list[i], usedAttributes);
      AnnotationsStep(list, i, problems);
      annotations := annotations + OnAttribute(i, problems);
    }
  }

  /** One more attribute adds its problems, on it, after the annotations so far. */
  lemma AnnotationsStep(attrs: seq<Attr>, i: nat, problems: seq<Problem>)
    requires i < |attrs|
    requires problems == Problems(Lower(attrs[i].name), attrs[i].hasValue, NamesBefore(attrs, i))
    ensures AnnotationsUpTo(ProblemsOf(attrs), i + 1) == AnnotationsUpTo(ProblemsOf(attrs), i) + OnAttribute(i, problems)
  {
    assert ProblemsOf(attrs)(i) == ProblemsAt(attrs, i);
  }

  /**
   * The body of the loop over the attributes: the problems of `attr` after
   * the names in `used`, and the names used once `attr` is added.
   */
  method CheckAttribute(attr: Attr, used: set<string>) returns (problems: seq<Problem>, usedAfter: set<string>)
    ensures problems == Problems(Lower(attr.name), attr.hasValue, used)
    ensures usedAfter == used + {Lower(attr.name)}
  {
    var attrName := Lower(attr.name);
    problems := [];
    if attrName in used {
      problems := [Duplicate(attrName)];
    }
    usedAfter := used + {attrName};
    var conflicts := CheckConflicts(ConflictingPairs, attrName, usedAfter);
    problems := problems + conflicts;
    if attrName !in ValidAttributes && attrName !in ParamAttributes {
      problems := problems + [Unknown(attrName)];
    }
    if attrName in ParamAttributes && !attr.hasValue {
      problems := problems + [MissingValue(attrName)];
    }
  }

  /** The loop over the conflicting pairs: a conflict for each pair that has `name` on one side and a used name on the other. */
  method CheckConflicts(pairs: seq<(string, string)>, name: string, used: set<string>) returns (conflicts: seq<Problem>)
    ensures conflicts == PairConflicts(pairs, name, used)
  {
    conflicts := [];
    for k := 0 to |pairs|
      invariant conflicts == PairConflicts(pairs[..k], name, used)
    {
      var (first, second) := pairs[k];
      assert pairs[..k + 1][..k] == pairs[..k];
      var found: seq<Problem> := [];
      if name == first && second in used {
        found := found + [Conflict(first, second)];
      }
      if name == second && first in used {
        found := found + [Conflict(first, second)];
      }
      assert found == PairFound(pairs[k], name, used);
      conflicts := conflicts + found;
    }
    assert pairs[..|pairs|] == pairs;
  }


  /**
   * `highlightAttributeName`: a name, in any case, gets the directive
   * highlighting exactly when it is a known attribute.
   */
  function HighlightAttributeName(name: string): (highlighted: bool)
    ensures highlighted <==> Lower(name) in ValidAttributes || Lower(name) in ParamAttributes
  {
    var n := Lower(name);
    n in ValidAttributes || n in ParamAttributes
  }

  // ---------------------------------------------------------------- properties

  /** The names seen before index i are exactly the lowercased names at the earlier indices. */
  lemma {:induction false} NamesBeforeIff(attrs: seq<Attr>, i: nat, n: string)
    requires i <= |attrs|
    ensures n in NamesBefore(attrs, i) <==> exists j :: 0 <= j < i && Lower(attrs[j].name) == n
  {
    if i > 0 {
      NamesBeforeIff(attrs, i - 1, n);
    }
  }

  /** A pair reports a conflict exactly when it is listed and `name` is one side and the other side was used. */
  lemma {:induction false} PairConflictsIff(pairs: seq<(string, string)>, name: string, used: set<string>, a: string, b: string)
    ensures Conflict(a, b) in PairConflicts(pairs, name, used) <==>
      (a, b) in pairs && ((name == a && b in used) || (name == b && a in used))
  {
    if pairs != [] {
      var front := pairs[..|pairs| - 1];
      PairConflictsIff(front, name, used, a, b);
      assert forall x :: x in pairs <==> x in front || x == pairs[|pairs| - 1] by {
        assert pairs == front + [pairs[|pairs| - 1]];
      }
    }
  }

  /** The pairs report conflicts and nothing else. */
  lemma {:induction false} PairConflictsOnly(pairs: seq<(string, string)>, name: string, used: set<string>, p: Problem)
    requires p in PairConflicts(pairs, name, used)
    ensures p.Conflict?
  {
    if pairs != [] {
      var front := pairs[..|pairs| - 1];
      if p in PairConflicts(front, name, used) {
        PairConflictsOnly(front, name, used, p);
      } else {
        assert p in PairFound(pairs[|pairs| - 1], name, used);
      }
    }
  }

  /** The attribute at index i is flagged as a duplicate exactly when its lowercased name occurs earlier. */
  lemma DuplicateIff(attrs: seq<Attr>, i: nat, x: string)
    requires i < |attrs|
    ensures Duplicate(x) in ProblemsAt(attrs, i) <==>
      x == Lower(attrs[i].name) && exists j :: 0 <= j < i && Lower(attrs[j].name) == x
  {
    var name := Lower(attrs[i].name);
    var before := NamesBefore(attrs, i);
    NamesBeforeIff(attrs, i, x);
    if Duplicate(x) in PairConflicts(ConflictingPairs, name, before + {name}) {
      PairConflictsOnly(ConflictingPairs, name, before + {name}, Duplicate(x));
    }
  }

  /**
   * A conflict is reported on the later of the two attributes, in either
   * order, and only for the listed pairs: the attribute at index i shows
   * the conflict of (a, b) exactly when the pair is listed, the attribute
   * is one side, and an earlier attribute is the other side.
   */
  lemma ConflictIff(attrs: seq<Attr>, i: nat, a: string, b: string)
    requires i < |attrs|
    ensures Conflict(a, b) in ProblemsAt(attrs, i) <==>
      (a, b) in ConflictingPairs &&
      ((Lower(attrs[i].name) == a && exists j :: 0 <= j < i && Lower(attrs[j].name) == b) ||
       (Lower(attrs[i].name) == b && exists j :: 0 <= j < i && Lower(attrs[j].name) == a))
  {
    var name := Lower(attrs[i].name);
    var before := NamesBefore(attrs, i);
    PairConflictsIff(ConflictingPairs, name, before + {name}, a, b);
    NamesBeforeIff(attrs, i, a);
    NamesBeforeIff(attrs, i, b);
    assert forall k :: 0 <= k < |ConflictingPairs| ==> ConflictingPairs[k].0 != ConflictingPairs[k].1;
  }

  /** An attribute is unknown exactly when its lowercased name is neither a plain nor a parameter attribute. */
  lemma UnknownIff(attrs: seq<Attr>, i: nat, x: string)
    requires i < |attrs|
    ensures Unknown(x) in ProblemsAt(attrs, i) <==>
      x == Lower(attrs[i].name) && x !in ValidAttributes && x !in ParamAttributes
  {
    var name := Lower(attrs[i].name);
    var before := NamesBefore(attrs, i);
    if Unknown(x) in PairConflicts(ConflictingPairs, name, before + {name}) {
      PairConflictsOnly(ConflictingPairs, name, before + {name}, Unknown(x));
    }
  }

  /** `align` without a value, in any case, is the one attribute that lacks a value. */
  lemma MissingValueIff(attrs: seq<Attr>, i: nat, x: string)
    requires i < |attrs|
    ensures MissingValue(x) in ProblemsAt(attrs, i) <==>
      x == Lower(attrs[i].name) == "align" && !attrs[i].hasValue
  {
    var name := Lower(attrs[i].name);
    var before := NamesBefore(attrs, i);
    if MissingValue(x) in PairConflicts(ConflictingPairs, name, before + {name}) {
      PairConflictsOnly(ConflictingPairs, name, before + {name}, MissingValue(x));
    }
  }

  /** A name is highlighted exactly when the annotator does not call it unknown. */
  lemma HighlightedIffKnown(attrs: seq<Attr>, i: nat)
    requires i < |attrs|
    ensures HighlightAttributeName(attrs[i].name) <==> Unknown(Lower(attrs[i].name)) !in ProblemsAt(attrs, i)
  {
    UnknownIff(attrs, i, Lower(attrs[i].name));
  }

  /** The annotations of one attribute are its problems, on it. */
  lemma OnAttributeIff(i: nat, problems: seq<Problem>, j: nat, p: Problem)
    ensures Annotation(j, p) in OnAttribute(i, problems) <==> j == i && p in problems
  {
    var r := OnAttribute(i, problems);
    if Annotation(j, p) in r {
      var k :| 0 <= k < |r| && r[k] == Annotation(j, p);
    }
    if j == i && p in problems {
      var k :| 0 <= k < |problems| && problems[k] == p;
      assert r[k] == Annotation(j, p);
    }
  }

  /**
   * The annotations cover the attributes before n: each one is a problem
   * of an attribute before n, on that attribute, and every such problem is
   * annotated.
   */
  lemma {:induction false} AnnotationsIff(problemsAt: nat -> seq<Problem>, n: nat, i: nat, p: Problem)
    ensures Annotation(i, p) in AnnotationsUpTo(problemsAt, n) <==> i < n && p in problemsAt(i)
  {
    if n > 0 {
      AnnotationsIff(problemsAt, n - 1, i, p);
      OnAttributeIff(n - 1, problemsAt(n - 1), i, p);
    }
  }

  /** The annotations' attribute indices never go down. */
  predicate IndicesInOrder(r: seq<Annotation>)
  {
    forall k, l :: 0 <= k < l < |r| ==> r[k].index <= r[l].index
  }

  /** The annotations come attribute by attribute, in the order of the attributes. */
  lemma {:induction false} AnnotationsInOrder(problemsAt: nat -> seq<Problem>, n: nat)
    ensures IndicesInOrder(AnnotationsUpTo(problemsAt, n))
    ensures forall k :: 0 <= k < |AnnotationsUpTo(problemsAt, n)| ==> AnnotationsUpTo(problemsAt, n)[k].index < n
  {
    if n > 0 {
      AnnotationsInOrder(problemsAt, n - 1);
      var front := AnnotationsUpTo(problemsAt, n - 1);
      var last := OnAttribute(n - 1, problemsAt(n - 1));
      var r := front + last;
      assert r == AnnotationsUpTo(problemsAt, n);
      assert IndicesInOrder(front);
      forall k, l | 0 <= k < l < |r|
        ensures r[k].index <= r[l].index
      {
        if l < |front| {
          assert r[k] == front[k] && r[l] == front[l];
        } else if k < |front| {
          assert r[k] == front[k] && front[k].index < n - 1;
          assert r[l] == last[l - |front|] && last[l - |front|].index == n - 1;
        } else {
          assert r[k] == last[k - |front|] && last[k - |front|].index == n - 1;
          assert r[l] == last[l - |front|] && last[l - |front|].index == n - 1;
        }
      }
      forall k | 0 <= k < |r|
        ensures r[k].index < n
      {
        if k < |front| {
          assert r[k] == front[k];
        } else {
          assert r[k] == last[k - |front|];
        }
      }
    }
  }

  /** What the annotator reports on a directive's attributes: exactly each attribute's problems, on that attribute. */
  lemma AnnotatedIff(attrs: seq<Attr>, i: nat, p: Problem)
    ensures Annotation(i, p) in AnnotationsUpTo(ProblemsOf(attrs), |attrs|) <==> i < |attrs| && p in ProblemsAt(attrs, i)
  {
    AnnotationsIff(ProblemsOf(attrs), |attrs|, i, p);
  }
}
