// Unix file-system paths as java.nio's `Paths.get`, `resolve`, `normalize`
// and `toString` treat them on a Unix host.  The plugin uses them to make
// include directories absolute.
module Paths {

  /** A parsed path: absolute or relative, and its non-empty names. */
  datatype Path = Path(absolute: bool, names: seq<string>)

  predicate ValidName(n: string)
  {
    n != [] && '/' !in n
  }

  predicate ValidNames(ns: seq<string>)
  {
    forall i :: 0 <= i < |ns| ==> ValidName(ns[i])
  }

  predicate ValidPath(p: Path)
  {
    ValidNames(p.names)
  }

  /** The names of `s` between slashes; runs of slashes and a trailing slash add no name. */
  function Names(s: string): (r: seq<string>)
    ensures forall i :: 0 <= i < |r| ==> ValidName(r[i])
    decreases |s|
  {
    if s == [] then []
    else if s[0] == '/' then Names(s[1..])
    else
      var n := NameLength(s);
      [s[..n]] + Names(s[n..])
  }

  /** Length of the leading run of non-slash characters. */
  function NameLength(s: string): (n: nat)
    ensures n <= |s|
    ensures forall k :: 0 <= k < n ==> s[k] != '/'
    ensures n < |s| ==> s[n] == '/'
    decreases |s|
  {
    if s == [] || s[0] == '/' then 0 else 1 + NameLength(s[1..])
  }

  /** `Paths.get(s)`: the path is absolute iff `s` starts with `/`. */
  function Parse(s: string): (p: Path)
    ensures ValidPath(p)
    ensures p.absolute <==> |s| > 0 && s[0] == '/'
  {
    Path(|s| > 0 && s[0] == '/', Names(s))
  }

  function JoinNames(ns: seq<string>): (r: string)
  {
    if ns == [] then []
    else if |ns| == 1 then ns[0]
    else ns[0] + "/" + JoinNames(ns[1..])
  }

  /** `Path.toString()`: a leading slash when absolute, names joined by one slash. */
  function ToString(p: Path): (r: string)
    ensures p.absolute ==> |r| > 0 && r[0] == '/'
    ensures ValidPath(p) && p.names != [] ==> |r| > 0 && r[|r| - 1] != '/'
  {
    JoinNamesNotSlashEnded(p);
    if p.absolute then "/" + JoinNames(p.names) else JoinNames(p.names)
  }

  lemma JoinNamesNonEmpty(ns: seq<string>)
    requires forall i :: 0 <= i < |ns| ==> ValidName(ns[i])
    requires ns != []
    ensures |JoinNames(ns)| > 0 && JoinNames(ns)[0] != '/'
    ensures JoinNames(ns)[|JoinNames(ns)| - 1] != '/'
    decreases |ns|
  {
    assert ns[0][0] != '/' by { assert ValidName(ns[0]); assert ns[0][0] in ns[0]; }
    var last := ns[|ns| - 1];
    assert last[|last| - 1] != '/' by { assert ValidName(last); assert last[|last| - 1] in last; }
    if |ns| > 1 {
      JoinNamesNonEmpty(ns[1..]);
    }
  }

  lemma JoinNamesNotSlashEnded(p: Path)
    ensures ValidPath(p) && p.names != [] ==> |JoinNames(p.names)| > 0 && JoinNames(p.names)[|JoinNames(p.names)| - 1] != '/'
  {
    if ValidPath(p) && p.names != [] {
      JoinNamesNonEmpty(p.names);
    }
  }

  lemma {:induction false} NamesOfJoin(ns: seq<string>)
    requires forall i :: 0 <= i < |ns| ==> ValidName(ns[i])
    ensures Names(JoinNames(ns)) == ns
    decreases |ns|
  {
    if ns == [] {
    } else {
      NameLengthOfName(ns[0], if |ns| == 1 then "" else "/" + JoinNames(ns[1..]));
      if |ns| == 1 {
        assert JoinNames(ns) == ns[0] + "";
        NamesOfPrefixName(ns[0], "");
      } else {
        NamesOfJoin(ns[1..]);
        var rest := JoinNames(ns[1..]);
        assert JoinNames(ns) == ns[0] + ("/" + rest);
        NamesOfPrefixName(ns[0], "/" + rest);
        assert ("/" + rest)[0] == '/';
        assert ("/" + rest)[1..] == rest;
      }
    }
  }

  lemma {:induction false} NameLengthOfName(n: string, t: string)
    requires ValidName(n)
    requires t == [] || t[0] == '/'
    ensures NameLength(n + t) == |n|
    decreases |n|
  {
    if |n| > 1 {
      assert (n + t)[1..] == n[1..] + t;
      NameLengthOfName(n[1..], t);
    } else {
      assert n[0] in n;
      assert (n + t)[1..] == t;
    }
  }

  lemma NamesOfPrefixName(n: string, t: string)
    requires ValidName(n)
    requires t == [] || t[0] == '/'
    ensures Names(n + t) == [n] + Names(t)
  {
    NameLengthOfName(n, t);
    assert n[0] in n;
    assert (n + t)[..|n|] == n;
    assert (n + t)[|n|..] == t;
  }

  /** Printing a valid path and parsing the text gives the same path back. */
  lemma ParseToString(p: Path)
    requires ValidPath(p)
    ensures Parse(ToString(p)) == p
  {
    NamesOfJoin(p.names);
    if p.absolute {
      assert ("/" + JoinNames(p.names))[1..] == JoinNames(p.names);
    } else if p.names != [] {
      JoinNamesNonEmpty(p.names);
    }
  }

  /** `base.resolve(other)`: an absolute `other` wins, otherwise the names are appended. */
  function Resolve(base: Path, other: Path): (r: Path)
    ensures ValidPath(base) && ValidPath(other) ==> ValidPath(r)
    ensures other.absolute ==> r == other
    ensures !other.absolute ==> r.absolute == base.absolute && |r.names| >= |base.names| && r.names[..|base.names|] == base.names
  {
    if other.absolute then other else Path(base.absolute, base.names + other.names)
  }

  /** No `.` name, no `..` after a proper name, and no `..` at all in an absolute path. */
  predicate Normalized(p: Path)
  {
    && (forall i :: 0 <= i < |p.names| ==> p.names[i] != ".")
    && (forall i :: 0 <= i < |p.names| ==> p.names[i] == ".." ==> !p.absolute)
    && (forall i, j :: 0 <= i < j < |p.names| && p.names[j] == ".." ==> p.names[i] == "..")
  }

  /** `Path.normalize()`: drops `.`, cancels `name/..`, and drops `..` directly under the root. */
  function Normalize(p: Path): (r: Path)
    ensures r.absolute == p.absolute
    ensures ValidPath(p) ==> ValidPath(r)
    ensures Normalized(r)
  {
    Path(p.absolute, NormalizeFrom(p.absolute, [], p.names))
  }

  /** Normalization as a stack walk; `done` is the already normalized prefix. */
  function NormalizeFrom(absolute: bool, done: seq<string>, rest: seq<string>): (r: seq<string>)
    requires Normalized(Path(absolute, done))
    ensures Normalized(Path(absolute, r))
    ensures ValidNames(done) && ValidNames(rest) ==> ValidNames(r)
    decreases |rest|
  {
    if rest == [] then done
    else
      ValidTail(rest);
      if rest[0] == "." then NormalizeFrom(absolute, done, rest[1..])
      else if rest[0] == ".." then
        if done != [] && done[|done| - 1] != ".." then
          NormalizedPop(absolute, done);
          NormalizeFrom(absolute, done[..|done| - 1], rest[1..])
        else if absolute then NormalizeFrom(absolute, done, rest[1..])
        else
          NormalizedPushUp(done);
          NormalizeFrom(absolute, done + [".."], rest[1..])
      else
        NormalizedPush(absolute, done, rest[0]);
        NormalizeFrom(absolute, done + [rest[0]], rest[1..])
  }

  lemma ValidTail(rest: seq<string>)
    requires rest != []
    ensures ValidNames(rest) ==> ValidName(rest[0]) && ValidNames(rest[1..])
  {
    if ValidNames(rest) {
      assert ValidName(rest[0]);
      forall i | 0 <= i < |rest[1..]|
        ensures ValidName(rest[1..][i])
      {
        assert rest[1..][i] == rest[i + 1];
      }
    }
  }

  /** Dropping the last name keeps a path normalized. */
  lemma NormalizedPop(absolute: bool, done: seq<string>)
    requires Normalized(Path(absolute, done)) && done != []
    ensures Normalized(Path(absolute, done[..|done| - 1]))
    ensures ValidNames(done) ==> ValidNames(done[..|done| - 1])
  {
  }

  /** A relative path of `..` names only stays normalized when another `..` is added. */
  lemma NormalizedPushUp(done: seq<string>)
    requires Normalized(Path(false, done)) && (done == [] || done[|done| - 1] == "..")
    ensures Normalized(Path(false, done + [".."]))
    ensures ValidNames(done) ==> ValidNames(done + [".."])
  {
    var d := done + [".."];
    forall i, j | 0 <= i < j < |d| && d[j] == ".."
      ensures d[i] == ".."
    {
      if j < |done| {
        assert d[i] == done[i] && d[j] == done[j];
      } else if i < |done| - 1 {
        assert d[i] == done[i];
      }
    }
  }

  /** A plain name can go on top of a normalized path. */
  lemma NormalizedPush(absolute: bool, done: seq<string>, n: string)
    requires Normalized(Path(absolute, done)) && n != "." && n != ".."
    ensures Normalized(Path(absolute, done + [n]))
    ensures ValidNames(done) && ValidName(n) ==> ValidNames(done + [n])
  {
    var d := done + [n];
    forall i, j | 0 <= i < j < |d| && d[j] == ".."
      ensures d[i] == ".."
    {
      assert j < |done| && d[i] == done[i] && d[j] == done[j];
    }
  }

  lemma {:induction false} NormalizeFromNormalized(absolute: bool, done: seq<string>, rest: seq<string>)
    requires Normalized(Path(absolute, done + rest))
    ensures Normalized(Path(absolute, done)) && NormalizeFrom(absolute, done, rest) == done + rest
    decreases |rest|
  {
    NormalizedPrefix(absolute, done, rest);
    if rest != [] {
      var all := done + rest;
      assert all[|done|] == rest[0];
      assert rest[0] != ".";
      if rest[0] == ".." {
        assert !absolute;
        assert done != [] ==> done[|done| - 1] == ".." by {
          if done != [] { assert all[|done| - 1] == done[|done| - 1]; }
        }
      }
      assert done + rest == (done + [rest[0]]) + rest[1..];
      NormalizeFromNormalized(absolute, done + [rest[0]], rest[1..]);
    }
  }

  lemma NormalizedPrefix(absolute: bool, done: seq<string>, rest: seq<string>)
    requires Normalized(Path(absolute, done + rest))
    ensures Normalized(Path(absolute, done))
  {
    var all := done + rest;
    assert forall i :: 0 <= i < |done| ==> done[i] == all[i];
  }

  /** Normalizing twice is normalizing once. */
  lemma NormalizeIdempotent(p: Path)
    ensures Normalize(Normalize(p)) == Normalize(p)
  {
    var q := Normalize(p);
    assert [] + q.names == q.names;
    NormalizeFromNormalized(q.absolute, [], q.names);
  }
}
