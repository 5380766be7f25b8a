/**
 * File-system paths as lists of components, with the ordering Python's
 * `sorted()` uses on `pathlib` paths and a model of that sort.
 */
module Paths {

  /** A path, as the list of its components below the root. */
  type Path = seq<string>

  /** `os.path.basename` / `PurePath.name`: the last component. */
  function Basename(p: Path): string {
    if p == [] then "" else p[|p| - 1]
  }

  /** `PurePath.parent`: the root is its own parent. */
  function Parent(p: Path): Path {
    if p == [] then [] else p[..|p| - 1]
  }

  /** Python's `<=` on `str`: lexicographic by code point. */
  predicate StrLe(a: string, b: string)
    decreases |a|
  {
    a == [] || (b != [] && (a[0] < b[0] || (a[0] == b[0] && StrLe(a[1..], b[1..]))))
  }

  /** The ordering of `pathlib` paths: component lists compared lexicographically. */
  predicate PathLe(a: Path, b: Path)
    decreases |a|
  {
    a == [] || (b != [] && (if a[0] == b[0] then PathLe(a[1..], b[1..]) else StrLe(a[0], b[0])))
  }

  lemma {:induction false} StrLeTotal(a: string, b: string)
    ensures StrLe(a, b) || StrLe(b, a)
    decreases |a|
  {
    if a != [] && b != [] && a[0] == b[0] {
      StrLeTotal(a[1..], b[1..]);
    }
  }

  lemma {:induction false} StrLeTransitive(a: string, b: string, c: string)
    requires StrLe(a, b) && StrLe(b, c)
    ensures StrLe(a, c)
    decreases |a|
  {
    if a != [] && a[0] == b[0] && b[0] == c[0] {
      StrLeTransitive(a[1..], b[1..], c[1..]);
    }
  }

  lemma {:induction false} StrLeAntisymmetric(a: string, b: string)
    requires StrLe(a, b) && StrLe(b, a)
    ensures a == b
    decreases |a|
  {
    if a != [] {
      StrLeAntisymmetric(a[1..], b[1..]);
      assert a == [a[0]] + a[1..] && b == [b[0]] + b[1..];
    }
  }

  lemma {:induction false} PathLeTotal(a: Path, b: Path)
    ensures PathLe(a, b) || PathLe(b, a)
    decreases |a|
  {
    if a != [] && b != [] {
      if a[0] == b[0] {
        PathLeTotal(a[1..], b[1..]);
      } else {
        StrLeTotal(a[0], b[0]);
      }
    }
  }

  lemma {:induction false} PathLeTransitive(a: Path, b: Path, c: Path)
    requires PathLe(a, b) && PathLe(b, c)
    ensures PathLe(a, c)
    decreases |a|
  {
    if a != [] {
      if a[0] == b[0] && b[0] == c[0] {
        PathLeTransitive(a[1..], b[1..], c[1..]);
      } else if a[0] == b[0] {
        assert StrLe(b[0], c[0]);
      } else if b[0] == c[0] {
        assert StrLe(a[0], b[0]);
      } else {
        StrLeTransitive(a[0], b[0], c[0]);
        if a[0] == c[0] {
          StrLeAntisymmetric(a[0], b[0]);
        }
      }
    }
  }

  /** Every earlier element is ordered before every later one. */
  ghost predicate SortedPaths(s: seq<Path>) {
    forall i, j :: 0 <= i < j < |s| ==> PathLe(s[i], s[j])
  }

  /** Inserting `x` before the first element it orders before. */
  function Insert(x: Path, s: seq<Path>): (r: seq<Path>)
    ensures multiset(r) == multiset(s) + multiset{x}
  {
    if s == [] then [x]
    else if PathLe(x, s[0]) then [x] + s
    else
      assert s == [s[0]] + s[1..];
      [s[0]] + Insert(x, s[1..])
  }

  /** Python's `sorted()` on a list of paths. */
  function Sort(s: seq<Path>): (r: seq<Path>)
    ensures multiset(r) == multiset(s)
  {
    if s == [] then []
    else
      assert s == [s[0]] + s[1..];
      Insert(s[0], Sort(s[1..]))
  }

  lemma {:induction false} InsertSorted(x: Path, s: seq<Path>)
    requires SortedPaths(s)
    ensures SortedPaths(Insert(x, s))
  {
    if s != [] && !PathLe(x, s[0]) {
      PathLeTotal(x, s[0]);
      InsertSorted(x, s[1..]);
      var r := Insert(x, s);
      var t := Insert(x, s[1..]);
      assert r == [s[0]] + t;
      forall j | 0 < j < |r| ensures PathLe(s[0], r[j]) {
        assert r[j] in multiset(t);
        assert r[j] in multiset(s[1..]) + multiset{x};
        if r[j] != x {
          assert r[j] in s[1..];
          var k :| 0 <= k < |s[1..]| && s[1..][k] == r[j];
          assert PathLe(s[0], s[k + 1]);
        }
      }
    } else if s != [] {
      var r := Insert(x, s);
      forall i, j | 0 <= i < j < |r| ensures PathLe(r[i], r[j]) {
        if i == 0 && j > 1 {
          assert r[j] == s[j - 1];
          PathLeTransitive(x, s[0], r[j]);
        }
      }
    }
  }

  /** The result of `sorted()` is in order. */
  lemma {:induction false} SortSorted(s: seq<Path>)
    ensures SortedPaths(Sort(s))
  {
    if s != [] {
      SortSorted(s[1..]);
      InsertSorted(s[0], Sort(s[1..]));
    }
  }

  /** The result of `sorted()` has the same elements, each as often. */
  lemma SortPermutes(s: seq<Path>)
    ensures |Sort(s)| == |s|
    ensures forall p :: p in Sort(s) <==> p in s
  {
    assert multiset(Sort(s)) == multiset(s);
    assert |multiset(Sort(s))| == |Sort(s)|;
    forall p ensures p in Sort(s) <==> p in s {
      assert p in Sort(s) <==> p in multiset(Sort(s));
    }
  }
}
