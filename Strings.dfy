/**
 * Python's `str.startswith`, `str.endswith`, `str.find` and `str.split(sep)` on strings,
 * for a non-empty separator.
 */
module Strings {
  import opened Wrappers

  predicate StartsWith(s: string, prefix: string) {
    |prefix| <= |s| && s[..|prefix|] == prefix
  }

  predicate EndsWith(s: string, suffix: string) {
    |suffix| <= |s| && s[|s| - |suffix|..] == suffix
  }

  /** `sep` occurs in `s` at index `i`. */
  predicate OccursAt(s: string, sep: string, i: int) {
    0 <= i && i + |sep| <= |s| && s[i..i + |sep|] == sep
  }

  predicate Contains(s: string, sep: string) {
    exists i | 0 <= i <= |s| :: OccursAt(s, sep, i)
  }

  /** The leftmost occurrence of `sep` at or after `from` (Python's `s.find(sep, from)`). */
  function Find(s: string, sep: string, from: nat): (r: Option<nat>)
    requires |sep| > 0
    ensures r.Some? ==> from <= r.value && OccursAt(s, sep, r.value)
    decreases |s| - from
  {
    if from + |sep| > |s| then None
    else if s[from..from + |sep|] == sep then Some(from)
    else Find(s, sep, from + 1)
  }

  /** `Find` returns the leftmost occurrence, and none only when there is none. */
  lemma {:induction false} FindLeftmost(s: string, sep: string, from: nat)
    requires |sep| > 0
    ensures Find(s, sep, from).Some? ==> forall j :: from <= j < Find(s, sep, from).value ==> !OccursAt(s, sep, j)
    ensures Find(s, sep, from).None? ==> forall j :: from <= j ==> !OccursAt(s, sep, j)
    decreases |s| - from
  {
    if from + |sep| <= |s| && s[from..from + |sep|] != sep {
      FindLeftmost(s, sep, from + 1);
    }
  }

  /** The parts of `s[from..]` between the occurrences of `sep`, scanned left to right. */
  function SplitFrom(s: string, sep: string, from: nat): (parts: seq<string>)
    requires |sep| > 0 && from <= |s|
    ensures |parts| >= 1
    decreases |s| - from
  {
    match Find(s, sep, from)
    case None => [s[from..]]
    case Some(j) => [s[from..j]] + SplitFrom(s, sep, j + |sep|)
  }

  /** Python's `s.split(sep)`. */
  function Split(s: string, sep: string): (parts: seq<string>)
    requires |sep| > 0
    ensures |parts| >= 1
  {
    SplitFrom(s, sep, 0)
  }

  /** Python's `sep.join(parts)`. */
  function Join(parts: seq<string>, sep: string): string {
    if parts == [] then ""
    else if |parts| == 1 then parts[0]
    else parts[0] + sep + Join(parts[1..], sep)
  }

  /** Number of occurrences of the character `c` in `s`. */
  function Count(s: string, c: char): nat {
    if s == [] then 0 else (if s[0] == c then 1 else 0) + Count(s[1..], c)
  }

  lemma SliceThree(s: string, a: nat, b: nat, c: nat)
    requires a <= b <= c <= |s|
    ensures s[a..] == s[a..b] + s[b..c] + s[c..]
  {
  }

  lemma {:induction false} SplitFromJoin(s: string, sep: string, from: nat)
    requires |sep| > 0 && from <= |s|
    ensures Join(SplitFrom(s, sep, from), sep) == s[from..]
    decreases |s| - from
  {
    SplitFromHead(s, sep, from);
    var f, parts := Find(s, sep, from), SplitFrom(s, sep, from);
    if f.Some? {
      var j := f.value;
      SplitFromJoin(s, sep, j + |sep|);
      SliceThree(s, from, j, j + |sep|);
      JoinFirst(parts, sep, s[from..j], s[j + |sep|..], s[from..]);
    } else {
      assert parts == [s[from..]];
    }
  }

  /** Joining two or more parts puts the separator after the first. */
  lemma JoinFirst(parts: seq<string>, sep: string, first: string, others: string, whole: string)
    requires |parts| > 1 && parts[0] == first && Join(parts[1..], sep) == others
    requires whole == first + sep + others
    ensures Join(parts, sep) == whole
  {
  }

  /** Joining the parts of a split with the separator gives back the string. */
  lemma SplitJoin(s: string, sep: string)
    requires |sep| > 0
    ensures Join(Split(s, sep), sep) == s
  {
    SplitFromJoin(s, sep, 0);
  }

  /** An occurrence in a slice is an occurrence in the whole string. */
  lemma OccursInSlice(s: string, sep: string, from: nat, to: nat, i: int)
    requires from <= to <= |s| && OccursAt(s[from..to], sep, i)
    ensures OccursAt(s, sep, from + i)
  {
    var p, q := s[from..to][i..i + |sep|], s[from + i..from + i + |sep|];
    assert forall k | 0 <= k < |sep| :: p[k] == q[k];
    assert p == q;
  }

  /** A slice in which no occurrence starts does not contain the separator. */
  lemma SliceFree(s: string, sep: string, from: nat, to: nat)
    requires |sep| > 0 && from <= to <= |s|
    requires forall k :: from <= k < to ==> !OccursAt(s, sep, k)
    ensures !Contains(s[from..to], sep)
  {
    forall i | 0 <= i <= to - from ensures !OccursAt(s[from..to], sep, i) {
      if i + |sep| <= to - from && s[from..to][i..i + |sep|] == sep {
        OccursInSlice(s, sep, from, to, i);
      }
    }
  }

  lemma {:induction false} SplitFromPartsFree(s: string, sep: string, from: nat)
    requires |sep| > 0 && from <= |s|
    ensures forall p :: p in SplitFrom(s, sep, from) ==> !Contains(p, sep)
    decreases |s| - from
  {
    FindLeftmost(s, sep, from);
    match Find(s, sep, from)
    case None =>
      SliceFree(s, sep, from, |s|);
      assert s[from..|s|] == s[from..];
    case Some(j) =>
      SplitFromPartsFree(s, sep, j + |sep|);
      SliceFree(s, sep, from, j);
  }

  /** No part of a split contains the separator. */
  lemma SplitPartsFree(s: string, sep: string)
    requires |sep| > 0
    ensures forall p :: p in Split(s, sep) ==> !Contains(p, sep)
  {
    SplitFromPartsFree(s, sep, 0);
  }

  /** For a one-character separator, containment is membership. */
  lemma ContainsChar(s: string, c: char)
    ensures Contains(s, [c]) <==> c in s
  {
    if c in s {
      var i :| 0 <= i < |s| && s[i] == c;
      assert s[i..i + 1] == [c];
      assert OccursAt(s, [c], i);
    }
    if Contains(s, [c]) {
      var i :| 0 <= i <= |s| && OccursAt(s, [c], i);
      assert s[i..i + 1] == [c];
      assert s[i] == c;
    }
  }

  /** A string in which `c` does not occur has no occurrences to count. */
  lemma {:induction false} CountAbsent(t: string, c: char)
    requires forall i :: 0 <= i < |t| ==> t[i] != c
    ensures Count(t, c) == 0
  {
    if t != [] {
      assert forall i :: 0 <= i < |t[1..]| ==> t[1..][i] == t[i + 1];
      CountAbsent(t[1..], c);
    }
  }

  /** A part before the first occurrence of `c` holds no `c`. */
  lemma NoCharBefore(s: string, c: char, from: nat, j: nat)
    requires from <= j <= |s|
    requires forall k :: from <= k < j ==> !OccursAt(s, [c], k)
    ensures Count(s[from..j], c) == 0
  {
    var t := s[from..j];
    forall i | 0 <= i < |t| ensures t[i] != c {
      assert s[from + i..from + i + 1] == [s[from + i]];
      assert !OccursAt(s, [c], from + i);
    }
    CountAbsent(t, c);
  }

  lemma {:induction false} CountConcat(a: string, b: string, c: char)
    ensures Count(a + b, c) == Count(a, c) + Count(b, c)
  {
    if a == [] {
      assert a + b == b;
    } else {
      assert (a + b)[0] == a[0] && (a + b)[1..] == a[1..] + b;
      CountConcat(a[1..], b, c);
    }
  }

  /** Counting from `from` past an occurrence at `j` with none before it. */
  lemma CountPastFirst(s: string, c: char, from: nat, j: nat)
    requires from <= j < |s|
    requires s[j] == c
    requires Count(s[from..j], c) == 0
    ensures Count(s[from..], c) == Count(s[j + 1..], c) + 1
  {
    var a, b := s[from..j], s[j + 1..];
    assert s[from..] == a + [c] + b;
    CountConcat(a + [c], b, c);
    CountConcat(a, [c], c);
    assert Count([c], c) == 1 by {
      assert [c][1..] == [];
    }
  }

  lemma {:induction false} SplitFromCount(s: string, c: char, from: nat)
    requires from <= |s|
    ensures |SplitFrom(s, [c], from)| == Count(s[from..], c) + 1
    decreases |s| - from
  {
    var f := Find(s, [c], from);
    SplitFromHead(s, [c], from);
    CountBeforeFind(s, c, from);
    if f.Some? {
      var j := f.value;
      assert j + |[c]| == j + 1;
      SplitFromCount(s, c, j + 1);
      CountPastFind(s, c, from);
      LengthPastFirst(SplitFrom(s, [c], from), SplitFrom(s, [c], j + 1));
    }
  }

  /** Counting from `from` past the occurrence `Find` returns. */
  lemma CountPastFind(s: string, c: char, from: nat)
    requires from <= |s| && Find(s, [c], from).Some?
    ensures Find(s, [c], from).value < |s|
    ensures Count(s[from..], c) == Count(s[Find(s, [c], from).value + 1..], c) + 1
  {
    var j := Find(s, [c], from).value;
    CountBeforeFind(s, c, from);
    assert s[j..j + 1] == [c];
    CountPastFirst(s, c, from, j);
  }

  /** No `c` lies between `from` and the occurrence `Find` returns, or the end when it returns none. */
  lemma CountBeforeFind(s: string, c: char, from: nat)
    requires from <= |s|
    ensures Find(s, [c], from).None? ==> Count(s[from..], c) == 0
    ensures Find(s, [c], from).Some? ==> Find(s, [c], from).value < |s| && Count(s[from..Find(s, [c], from).value], c) == 0
  {
    FindLeftmost(s, [c], from);
    match Find(s, [c], from)
    case None =>
      NoCharBefore(s, c, from, |s|);
      assert s[from..|s|] == s[from..];
    case Some(j) =>
      NoCharBefore(s, c, from, j);
  }

  lemma LengthPastFirst(parts: seq<string>, rest: seq<string>)
    requires |parts| > 0 && parts[1..] == rest
    ensures |parts| == |rest| + 1
  {
  }

  /** Splitting on a character gives one part more than it has occurrences. */
  lemma SplitCount(s: string, c: char)
    ensures |Split(s, [c])| == Count(s, c) + 1
  {
    SplitFromCount(s, c, 0);
    assert s[0..] == s;
  }

  /** The part before the first separator, and the rest of the split. */
  lemma SplitFromHead(s: string, sep: string, from: nat)
    requires |sep| > 0 && from <= |s|
    ensures Find(s, sep, from).None? ==> SplitFrom(s, sep, from) == [s[from..]]
    ensures Find(s, sep, from).Some? ==>
      var j := Find(s, sep, from).value;
      SplitFrom(s, sep, from)[0] == s[from..j] &&
      SplitFrom(s, sep, from)[1..] == SplitFrom(s, sep, j + |sep|)
  {
  }
}
