/**
 * Relative file-system paths as `pathlib` sees them: a sequence of components,
 * the POSIX spelling, the suffix of the last component, and the order that
 * `sorted()` uses on a list of paths.
 */
module Paths {
  import opened Seqs

  /** A relative path, by its components (`Path.parts`). */
  type Path = seq<string>

  /** `"/".join(parts)`. */
  function Join(parts: seq<string>): string
  {
    if parts == [] then ""
    else if |parts| == 1 then parts[0]
    else Join(parts[..|parts| - 1]) + "/" + parts[|parts| - 1]
  }

  /** `Path.as_posix()` of a relative path; the empty path is spelled `"."`. */
  function Posix(p: Path): string
  {
    if p == [] then "." else Join(p)
  }

  /** `Path.name`: the last component, or `""` for the empty path. */
  function Name(p: Path): string
  {
    if p == [] then "" else p[|p| - 1]
  }

  /** `str.rfind('.')`: the index of the last dot, or -1. */
  function LastDot(name: string): (i: int)
    ensures -1 <= i < |name|
    ensures i >= 0 ==> name[i] == '.'
    ensures forall j :: i < j < |name| ==> name[j] != '.'
  {
    if name == [] then -1
    else if name[|name| - 1] == '.' then |name| - 1
    else LastDot(name[..|name| - 1])
  }

  /** `Path.suffix`: from the last dot of the name, provided that dot is neither
      the first character (a hidden file such as `.venv`) nor the last. */
  function Suffix(p: Path): (r: string)
    ensures r != [] ==> 2 <= |r| < |Name(p)| && r == Name(p)[|Name(p)| - |r|..]
    ensures r != [] ==> r[0] == '.' && forall j :: 1 <= j < |r| ==> r[j] != '.'
    ensures r != [] <==> 0 < LastDot(Name(p)) < |Name(p)| - 1
    ensures r != [] ==> r == Name(p)[LastDot(Name(p))..]
  {
    var name := Name(p);
    var i := LastDot(name);
    if 0 < i < |name| - 1 then name[i..] else ""
  }

  /** A path has a suffix exactly when its name has a dot after the first
      character and does not end in a dot. */
  lemma SuffixIff(p: Path)
    ensures Suffix(p) != [] <==> HasInnerDot(Name(p)) && Name(p)[|Name(p)| - 1] != '.'
  {
    var name := Name(p);
    if HasInnerDot(name) && name[|name| - 1] != '.' {
      var k :| 0 < k < |name| && name[k] == '.';
      assert LastDot(name) >= k;
    }
  }

  /** The name has a dot after its first character. */
  predicate HasInnerDot(name: string)
  {
    exists k :: 0 < k < |name| && name[k] == '.'
  }

  /** A file named `a.py` in `src` has the suffix `.py`; a hidden name, a name
      without a dot and a name ending in a dot have none. */
  lemma SuffixSamples()
    ensures Suffix(["src", "a.py"]) == ".py"
    ensures Suffix([".venv"]) == "" && Suffix(["Makefile"]) == "" && Suffix(["a."]) == ""
  {
    assert LastDot("a.py") == 1 by {
      assert "a.py"[1] == '.' && "a.py"[2] != '.' && "a.py"[3] != '.';
    }
    assert LastDot("Makefile") == -1 by {
      assert forall j :: 0 <= j < |"Makefile"| ==> "Makefile"[j] != '.';
    }
    assert LastDot(".venv") == 0 by {
      assert ".venv"[0] == '.' && forall j :: 1 <= j < |".venv"| ==> ".venv"[j] != '.';
    }
  }

  /** Python's `<=` on strings: lexicographic by code point. */
  predicate StrLe(a: string, b: string)
  {
    a == [] || (b != [] && (a[0] < b[0] || (a[0] == b[0] && StrLe(a[1..], b[1..]))))
  }

  /** The order `sorted()` puts paths in: lexicographic over the components,
      each component compared as a string. */
  predicate PathLe(p: Path, q: Path)
  {
    p == [] || (q != [] && ((p[0] != q[0] && StrLe(p[0], q[0])) || (p[0] == q[0] && PathLe(p[1..], q[1..]))))
  }

  lemma {:induction false} StrLeTotal(a: string, b: string)
    ensures StrLe(a, b) || StrLe(b, a)
  {
    if a != [] && b != [] && a[0] == b[0] {
      StrLeTotal(a[1..], b[1..]);
    }
  }

  lemma {:induction false} StrLeAntisymmetric(a: string, b: string)
    requires StrLe(a, b) && StrLe(b, a)
    ensures a == b
  {
    if a != [] {
      StrLeAntisymmetric(a[1..], b[1..]);
      assert a == [a[0]] + a[1..] && b == [b[0]] + b[1..];
    }
  }

  lemma {:induction false} StrLeTransitive(a: string, b: string, c: string)
    requires StrLe(a, b) && StrLe(b, c)
    ensures StrLe(a, c)
  {
    if a != [] && b != [] && c != [] && a[0] == b[0] && b[0] == c[0] {
      StrLeTransitive(a[1..], b[1..], c[1..]);
    }
  }

  lemma {:induction false} PathLeTotal(p: Path, q: Path)
    ensures PathLe(p, q) || PathLe(q, p)
  {
    if p != [] && q != [] {
      if p[0] == q[0] {
        PathLeTotal(p[1..], q[1..]);
      } else {
        StrLeTotal(p[0], q[0]);
      }
    }
  }

  lemma {:induction false} PathLeTransitive(p: Path, q: Path, r: Path)
    requires PathLe(p, q) && PathLe(q, r)
    ensures PathLe(p, r)
  {
    if p != [] {
      if p[0] == q[0] && q[0] == r[0] {
        PathLeTransitive(p[1..], q[1..], r[1..]);
      } else if p[0] != q[0] && q[0] != r[0] {
        StrLeTransitive(p[0], q[0], r[0]);
        if p[0] == r[0] {
          StrLeAntisymmetric(p[0], q[0]);
        }
      }
    }
  }

  lemma {:induction false} PathLeAntisymmetric(p: Path, q: Path)
    requires PathLe(p, q) && PathLe(q, p)
    ensures p == q
  {
    if p != [] {
      if p[0] == q[0] {
        PathLeAntisymmetric(p[1..], q[1..]);
        assert p == [p[0]] + p[1..] && q == [q[0]] + q[1..];
      } else {
        StrLeAntisymmetric(p[0], q[0]);
      }
    }
  }

  /** Every earlier path is `<=` every later one. */
  predicate Sorted(s: seq<Path>)
  {
    forall i, j :: 0 <= i < j < |s| ==> PathLe(s[i], s[j])
  }

  /** A path `<=` the head of a sorted list may lead it. */
  lemma SortedLead(x: Path, s: seq<Path>)
    requires Sorted(s) && s != [] && PathLe(x, s[0])
    ensures Sorted([x] + s)
  {
    forall j | 0 <= j < |s| ensures PathLe(x, s[j]) {
      if j > 0 { PathLeTransitive(x, s[0], s[j]); }
    }
    var r := [x] + s;
    forall i, j | 0 <= i < j < |r| ensures PathLe(r[i], r[j]) {
      if i > 0 { assert r[i] == s[i - 1] && r[j] == s[j - 1]; }
    }
  }

  /** The head of a sorted list, put back in front of the sorted insertion of a
      larger path into its tail. */
  lemma InsertStep(x: Path, s: seq<Path>, rest: seq<Path>)
    requires Sorted(s) && s != [] && !PathLe(x, s[0])
    requires Sorted(rest) && multiset(rest) == multiset(s[1..]) + multiset{x}
    ensures Sorted([s[0]] + rest)
    ensures multiset([s[0]] + rest) == multiset(s) + multiset{x}
  {
    assert s == [s[0]] + s[1..];
    PathLeTotal(x, s[0]);
    forall k | 0 <= k < |rest| ensures PathLe(s[0], rest[k]) {
      var y := rest[k];
      assert y in multiset(rest);
      if y != x {
        assert y in multiset(s[1..]);
        var j :| 0 <= j < |s[1..]| && s[1..][j] == y;
        assert s[j + 1] == y;
      }
    }
    var r := [s[0]] + rest;
    forall i, j | 0 <= i < j < |r| ensures PathLe(r[i], r[j]) {
      if i > 0 { assert r[i] == rest[i - 1] && r[j] == rest[j - 1]; }
    }
  }

  /** Insertion of one path into a sorted list. */
  function Insert(x: Path, s: seq<Path>): (r: seq<Path>)
    requires Sorted(s)
    ensures multiset(r) == multiset(s) + multiset{x}
    ensures Sorted(r)
  {
    if s == [] then [x]
    else if PathLe(x, s[0]) then
      SortedLead(x, s);
      assert s == [s[0]] + s[1..];
      [x] + s
    else
      var rest := Insert(x, s[1..]);
      InsertStep(x, s, rest);
      [s[0]] + rest
  }

  /** `sorted(paths)`: a sorted permutation of the input. */
  function SortPaths(s: seq<Path>): (r: seq<Path>)
    ensures Sorted(r)
    ensures multiset(r) == multiset(s)
  {
    if s == [] then []
    else
      assert s == [s[0]] + s[1..];
      Insert(s[0], SortPaths(s[1..]))
  }

  lemma SortedTail(s: seq<Path>)
    requires Sorted(s) && s != []
    ensures Sorted(s[1..])
  {
    forall i, j | 0 <= i < j < |s| - 1 ensures PathLe(s[1..][i], s[1..][j]) {
      assert s[1..][i] == s[i + 1] && s[1..][j] == s[j + 1];
    }
  }

  /** Two sorted lists holding the same paths start with the same path. */
  lemma SortedSameHead(a: seq<Path>, b: seq<Path>)
    requires Sorted(a) && Sorted(b) && multiset(a) == multiset(b) && a != []
    ensures b != [] && a[0] == b[0]
  {
    assert a[0] in multiset(b);
    assert b[0] in multiset(a);
    var j :| 0 <= j < |b| && b[j] == a[0];
    var k :| 0 <= k < |a| && a[k] == b[0];
    if j > 0 && k > 0 {
      PathLeAntisymmetric(a[0], b[0]);
    }
  }

  /** `sorted()` has one answer: two sorted lists holding the same paths, with
      the same multiplicities, are the same list. */
  lemma {:induction false} SortedUnique(a: seq<Path>, b: seq<Path>)
    requires Sorted(a) && Sorted(b) && multiset(a) == multiset(b)
    ensures a == b
    decreases |a|
  {
    if a != [] {
      SortedSameHead(a, b);
      MultisetTail(a);
      MultisetTail(b);
      SortedTail(a);
      SortedTail(b);
      SortedUnique(a[1..], b[1..]);
      assert a == [a[0]] + a[1..] && b == [b[0]] + b[1..];
    }
  }

  /** Sorting is determined by the contents: any sorted permutation of `s` is
      `SortPaths(s)`. */
  lemma SortPathsUnique(s: seq<Path>, r: seq<Path>)
    requires Sorted(r) && multiset(r) == multiset(s)
    ensures r == SortPaths(s)
  {
    SortedUnique(r, SortPaths(s));
  }
}
