/**
 * Reading the bidscoin version out of a `bidsmap.yaml` file, as both
 * BIDScoin scripts do: the first line whose stripped form starts with
 * `version:` and whose text after the first `:` holds a match of
 * `\d+\.\d+\.\d+` gives the version, and that version names the virtual
 * environment to activate. Digits are the ASCII digits.
 */
module BidsVersion {
  import opened Wrappers
  import opened Strings
  import opened Paths
  import opened Seqs

  // ---------------------------------------------------------------- whitespace

  /** The characters for which Python's `str.isspace()` holds. */
  predicate IsSpace(c: char) {
    c == ' ' || ('\t' <= c <= '\r') || ('\U{1c}' <= c <= '\U{1f}') || c == '\U{85}' || c == '\U{a0}' ||
    c == '\U{1680}' || ('\U{2000}' <= c <= '\U{200a}') || c == '\U{2028}' || c == '\U{2029}' ||
    c == '\U{202f}' || c == '\U{205f}' || c == '\U{3000}'
  }

  /** The first index at or after `i` that does not hold whitespace, or `|s|`. */
  function SpaceEnd(s: string, i: nat): (e: nat)
    requires i <= |s|
    ensures i <= e <= |s| && (e == |s| || !IsSpace(s[e]))
    ensures forall k :: i <= k < e ==> IsSpace(s[k])
    decreases |s| - i
  {
    if i < |s| && IsSpace(s[i]) then SpaceEnd(s, i + 1) else i
  }

  /** The last index at or before `j`, and not before `a`, that does not follow whitespace. */
  function SpaceStart(s: string, a: nat, j: nat): (b: nat)
    requires a <= j <= |s|
    ensures a <= b <= j && (b == a || !IsSpace(s[b - 1]))
    ensures forall k :: b <= k < j ==> IsSpace(s[k])
  {
    if a < j && IsSpace(s[j - 1]) then SpaceStart(s, a, j - 1) else j
  }

  /** Where `str.strip()` cuts its input: the leading and the trailing whitespace. */
  function StripStart(s: string): nat {
    SpaceEnd(s, 0)
  }

  function StripEnd(s: string): nat {
    SpaceStart(s, StripStart(s), |s|)
  }

  /** `str.strip()`. */
  function Strip(s: string): string {
    s[StripStart(s)..StripEnd(s)]
  }

  /**
   * `str.strip()` returns a slice of its input that neither starts nor ends
   * with whitespace, and everything it removes on either side is whitespace.
   */
  lemma StripSlice(s: string)
    ensures var r, a, b := Strip(s), StripStart(s), StripEnd(s);
      a <= b <= |s| && r == s[a..b] &&
      (r == [] || (!IsSpace(r[0]) && !IsSpace(r[|r| - 1]))) &&
      (forall i :: 0 <= i < a ==> IsSpace(s[i])) &&
      (forall i :: b <= i < |s| ==> IsSpace(s[i]))
  {
    var a, b := StripStart(s), StripEnd(s);
    if a < b {
      assert Strip(s)[0] == s[a];
      assert Strip(s)[b - a - 1] == s[b - 1];
    }
  }

  // ---------------------------------------------------------------- \d+\.\d+\.\d+

  predicate IsDigit(c: char) {
    '0' <= c <= '9'
  }

  /** Every character of `s[a..b]` is a digit. */
  predicate DigitsIn(s: string, a: nat, b: nat)
    requires a <= b <= |s|
  {
    forall k :: a <= k < b ==> IsDigit(s[k])
  }

  /** `s` is, as a whole, a match of `\d+\.\d+\.\d+`. */
  predicate IsTriple(s: string) {
    exists p, q | 0 < p < q - 1 && q < |s| - 1 ::
      s[p] == '.' && s[q] == '.' && DigitsIn(s, 0, p) && DigitsIn(s, p + 1, q) && DigitsIn(s, q + 1, |s|)
  }

  /** Digits of a slice are digits of the sliced text. */
  lemma DigitsShift(s: string, i: nat, e: nat, x: nat, y: nat)
    requires i <= e <= |s| && x <= y <= e - i
    ensures DigitsIn(s[i..e], x, y) <==> DigitsIn(s, i + x, i + y)
  {
    var m := s[i..e];
    assert forall k :: x <= k < y ==> m[k] == s[i + k];
  }

  /** Some match of the pattern starts at index `j` of `s`. */
  predicate MatchesAt(s: string, j: nat) {
    exists e | j <= e <= |s| :: IsTriple(s[j..e])
  }

  /** Where a match found by `re.search` lies in the searched text. */
  datatype Span = Span(start: nat, end: nat)

  /** The end of the maximal run of digits starting at `i`. */
  function DigitEnd(s: string, i: nat): (e: nat)
    requires i <= |s|
    ensures i <= e <= |s| && DigitsIn(s, i, e) && (e == |s| || !IsDigit(s[e]))
    decreases |s| - i
  {
    if i < |s| && IsDigit(s[i]) then DigitEnd(s, i + 1) else i
  }

  /** The end of the greedy match of the pattern at `i`: each `\d+` takes a whole digit run. */
  function MatchEnd(s: string, i: nat): (r: Option<nat>)
    requires i <= |s|
    ensures r.Some? ==> i < r.value <= |s|
  {
    var a := DigitEnd(s, i);
    if a == i || a == |s| || s[a] != '.' then None
    else
      var b := DigitEnd(s, a + 1);
      if b == a + 1 || b == |s| || s[b] != '.' then None
      else
        var c := DigitEnd(s, b + 1);
        if c == b + 1 then None else Some(c)
  }

  /** `re.search` from index `i` on: the leftmost start of a match, and its end. */
  function SearchFrom(s: string, i: nat): (r: Option<Span>)
    requires i <= |s|
    ensures r.Some? ==> i <= r.value.start <= r.value.end <= |s|
    decreases |s| - i
  {
    match MatchEnd(s, i)
    case Some(e) => Some(Span(i, e))
    case None => if i == |s| then None else SearchFrom(s, i + 1)
  }

  /** `re.search(r"(\d+\.\d+\.\d+)", s)`. */
  function Search(s: string): (r: Option<Span>)
    ensures r.Some? ==> r.value.start <= r.value.end <= |s|
  {
    SearchFrom(s, 0)
  }

  /** `group(1)` of the match: the matched text. */
  function Matched(s: string, m: Span): string
    requires m.start <= m.end <= |s|
  {
    s[m.start..m.end]
  }

  /** A digit run that stops before a non-digit ends exactly there. */
  lemma DigitEndAt(s: string, i: nat, k: nat)
    requires i <= k <= |s| && DigitsIn(s, i, k) && (k == |s| || !IsDigit(s[k]))
    ensures DigitEnd(s, i) == k
    decreases k - i
  {
    if i < k {
      DigitEndAt(s, i + 1, k);
    }
  }

  /** A digit run extends at least as far as any run of digits starting where it starts. */
  lemma DigitEndPast(s: string, i: nat, k: nat)
    requires i <= k <= |s| && DigitsIn(s, i, k)
    ensures DigitEnd(s, i) >= k
    decreases k - i
  {
    if i < k {
      DigitEndPast(s, i + 1, k);
    }
  }

  /** What `MatchEnd` finds is a match, and it cannot be extended by a digit. */
  lemma MatchEndSound(s: string, i: nat)
    requires i <= |s| && MatchEnd(s, i).Some?
    ensures var e := MatchEnd(s, i).value;
      i <= e <= |s| && IsTriple(s[i..e]) && (e == |s| || !IsDigit(s[e]))
  {
    var a := DigitEnd(s, i);
    var b := DigitEnd(s, a + 1);
    var e := DigitEnd(s, b + 1);
    TripleOfRuns(s, i, a, b, e);
  }

  /** Three digit runs separated by dots, lying at `s[i..e]`, form a match. */
  lemma TripleOfRuns(s: string, i: nat, a: nat, b: nat, e: nat)
    requires i < a && a + 1 < b && b + 1 < e <= |s| && s[a] == '.' && s[b] == '.'
    requires DigitsIn(s, i, a) && DigitsIn(s, a + 1, b) && DigitsIn(s, b + 1, e)
    ensures IsTriple(s[i..e])
  {
    var m := s[i..e];
    var p, q := a - i, b - i;
    assert m[p] == '.' && m[q] == '.';
    DigitsShift(s, i, e, 0, p);
    DigitsShift(s, i, e, p + 1, q);
    DigitsShift(s, i, e, q + 1, e - i);
    assert DigitsIn(m, 0, p) && DigitsIn(m, p + 1, q) && DigitsIn(m, q + 1, |m|);
  }

  /** Where the two dots of a match lie. */
  lemma TripleDots(m: string) returns (p: nat, q: nat)
    requires IsTriple(m)
    ensures 0 < p < q - 1 && q < |m| - 1 && m[p] == '.' && m[q] == '.'
    ensures DigitsIn(m, 0, p) && DigitsIn(m, p + 1, q) && DigitsIn(m, q + 1, |m|)
  {
    p, q :| 0 < p < q - 1 && q < |m| - 1 &&
      m[p] == '.' && m[q] == '.' && DigitsIn(m, 0, p) && DigitsIn(m, p + 1, q) && DigitsIn(m, q + 1, |m|);
  }

  /** Three digit runs separated by dots, starting at `i`: `MatchEnd` finds a match. */
  lemma MatchEndOfRuns(s: string, i: nat, a: nat, b: nat, e: nat)
    requires i < a && a + 1 < b && b + 1 < e <= |s| && s[a] == '.' && s[b] == '.'
    requires DigitsIn(s, i, a) && DigitsIn(s, a + 1, b) && DigitsIn(s, b + 1, e)
    ensures MatchEnd(s, i).Some?
  {
    DigitEndAt(s, i, a);
    DigitEndAt(s, a + 1, b);
    DigitEndPast(s, b + 1, e);
  }

  /** The digit runs and dots of a match lying at `s[i..e]`, as positions in `s`. */
  lemma TripleAt(s: string, i: nat, e: nat) returns (a: nat, b: nat)
    requires i <= e <= |s| && IsTriple(s[i..e])
    ensures i < a && a + 1 < b && b + 1 < e && s[a] == '.' && s[b] == '.'
    ensures DigitsIn(s, i, a) && DigitsIn(s, a + 1, b) && DigitsIn(s, b + 1, e)
  {
    var m := s[i..e];
    var p, q := TripleDots(m);
    a, b := i + p, i + q;
    assert m[p] == s[a] && m[q] == s[b];
    DigitsShift(s, i, e, 0, p);
    DigitsShift(s, i, e, p + 1, q);
    DigitsShift(s, i, e, q + 1, e - i);
  }

  /** When a match starts at `i`, `MatchEnd` finds one. */
  lemma MatchEndComplete(s: string, i: nat)
    requires i <= |s| && MatchesAt(s, i)
    ensures MatchEnd(s, i).Some?
  {
    var e :| i <= e <= |s| && IsTriple(s[i..e]);
    var a, b := TripleAt(s, i, e);
    MatchEndOfRuns(s, i, a, b, e);
  }

  /** `SearchFrom` finds the leftmost match at or after `i`, with its greedy end. */
  lemma {:induction false} SearchFromSpec(s: string, i: nat)
    requires i <= |s|
    ensures var r := SearchFrom(s, i);
      (r.None? ==> forall j | i <= j <= |s| :: !MatchesAt(s, j)) &&
      (r.Some? ==> (i <= r.value.start <= r.value.end <= |s| &&
        IsTriple(s[r.value.start..r.value.end]) &&
        (r.value.end == |s| || !IsDigit(s[r.value.end])) &&
        forall j | i <= j < r.value.start :: !MatchesAt(s, j)))
    decreases |s| - i
  {
    if MatchEnd(s, i).Some? {
      MatchEndSound(s, i);
    } else {
      NoMatchAt(s, i);
      if i < |s| {
        SearchFromSpec(s, i + 1);
        var r := SearchFrom(s, i + 1);
        assert SearchFrom(s, i) == r;
        NoMatchFrom(s, i, if r.Some? then r.value.start else |s| + 1);
      }
    }
  }

  /** When `MatchEnd` finds nothing at `i`, no match starts there. */
  lemma NoMatchAt(s: string, i: nat)
    requires i <= |s| && MatchEnd(s, i).None?
    ensures !MatchesAt(s, i)
  {
    if MatchesAt(s, i) {
      MatchEndComplete(s, i);
    }
  }

  lemma NoMatchFrom(s: string, i: nat, t: nat)
    requires !MatchesAt(s, i) && forall j | i + 1 <= j < t :: !MatchesAt(s, j)
    ensures forall j | i <= j < t :: !MatchesAt(s, j)
  {
  }

  /**
   * `re.search` returns the leftmost match, each `\d+` taking a maximal run
   * of digits; it returns nothing exactly when no match starts anywhere.
   */
  lemma SearchSpec(s: string)
    ensures var r := Search(s);
      (r.None? <==> forall j | 0 <= j <= |s| :: !MatchesAt(s, j)) &&
      (r.Some? ==> (r.value.start <= r.value.end <= |s| &&
        IsTriple(Matched(s, r.value)) &&
        (r.value.end == |s| || !IsDigit(s[r.value.end])) &&
        MatchesAt(s, r.value.start) &&
        forall j | 0 <= j < r.value.start :: !MatchesAt(s, j)))
  {
    SearchFromSpec(s, 0);
    var r := Search(s);
    if r.Some? {
      var m := r.value;
      assert IsTriple(s[m.start..m.end]);
      assert MatchesAt(s, m.start);
    }
  }

  // ---------------------------------------------------------------- lines

  /** Line ends of text-mode iteration over a file (universal newlines). */
  predicate FileBreak(c: char) {
    c == '\n' || c == '\r'
  }

  /** Line ends of `str.splitlines()`. */
  predicate SplitLinesBreak(c: char) {
    c == '\n' || c == '\r' || c == '\U{0b}' || c == '\U{0c}' || ('\U{1c}' <= c <= '\U{1e}') ||
    c == '\U{85}' || c == '\U{2028}' || c == '\U{2029}'
  }

  /** Index of the first line end in `t`, or `|t|` when there is none. */
  function BreakAt(t: string, brk: char -> bool): (k: nat)
    ensures k <= |t| && (k < |t| ==> brk(t[k]))
    ensures forall i :: 0 <= i < k ==> !brk(t[i])
  {
    if t == [] || brk(t[0]) then 0 else 1 + BreakAt(t[1..], brk)
  }

  /** Where the line after a line end at `k` starts: "\r\n" is a single line end. */
  function NextLine(t: string, k: nat): (n: nat)
    requires k < |t|
    ensures k < n <= |t|
  {
    if t[k] == '\r' && k + 1 < |t| && t[k + 1] == '\n' then k + 2 else k + 1
  }

  /**
   * The lines of `t` without their line ends; text after the last line end
   * forms a last line, a final line end does not. Both scripts strip every
   * line before using it, and line ends are whitespace, so the lines are
   * modelled without them.
   */
  function Lines(t: string, brk: char -> bool): seq<string>
    decreases |t|
  {
    if t == [] then []
    else
      var k := BreakAt(t, brk);
      if k == |t| then [t] else [t[..k]] + Lines(t[NextLine(t, k)..], brk)
  }

  /** The lines laid end to end. */
  function Concat(ls: seq<string>): string {
    if ls == [] then [] else ls[0] + Concat(ls[1..])
  }

  /** `t` with its line-end characters removed. */
  function Unbroken(t: string, brk: char -> bool): string {
    if t == [] then [] else (if brk(t[0]) then [] else [t[0]]) + Unbroken(t[1..], brk)
  }

  lemma {:induction false} UnbrokenAppend(a: string, b: string, brk: char -> bool)
    ensures Unbroken(a + b, brk) == Unbroken(a, brk) + Unbroken(b, brk)
  {
    if a == [] {
      assert a + b == b;
    } else {
      var h := if brk(a[0]) then [] else [a[0]];
      assert (a + b)[0] == a[0];
      assert (a + b)[1..] == a[1..] + b;
      assert Unbroken(a + b, brk) == h + Unbroken(a[1..] + b, brk);
      UnbrokenAppend(a[1..], b, brk);
      assert h + (Unbroken(a[1..], brk) + Unbroken(b, brk)) == h + Unbroken(a[1..], brk) + Unbroken(b, brk);
    }
  }

  lemma {:induction false} UnbrokenFree(a: string, brk: char -> bool)
    requires forall i :: 0 <= i < |a| ==> !brk(a[i])
    ensures Unbroken(a, brk) == a
  {
    if a != [] {
      assert forall i :: 0 <= i < |a[1..]| ==> a[1..][i] == a[i + 1];
      UnbrokenFree(a[1..], brk);
      assert !brk(a[0]);
      assert Unbroken(a, brk) == [a[0]] + Unbroken(a[1..], brk);
      assert a == [a[0]] + a[1..];
    }
  }

  /** No line holds a line end. */
  lemma {:induction false} LinesUnbroken(t: string, brk: char -> bool)
    ensures forall l, i :: l in Lines(t, brk) && 0 <= i < |l| ==> !brk(l[i])
    decreases |t|
  {
    if t != [] {
      var k := BreakAt(t, brk);
      if k < |t| {
        LinesUnbroken(t[NextLine(t, k)..], brk);
      }
    }
  }

  /** The line end removed between two lines holds only line-end characters. */
  lemma LineEndRemoved(t: string, k: nat, brk: char -> bool)
    requires k < |t| && brk(t[k]) && brk('\n')
    ensures Unbroken(t[k..NextLine(t, k)], brk) == []
  {
    var u := t[k..NextLine(t, k)];
    assert u[0] == t[k];
    assert Unbroken(u, brk) == Unbroken(u[1..], brk);
    if |u| == 2 {
      var v := u[1..];
      assert v == ['\n'];
      assert Unbroken(v, brk) == Unbroken(v[1..], brk);
      assert v[1..] == [];
    } else {
      assert u[1..] == [];
    }
  }

  /** Removing the line ends of a text whose first line ends at `k`. */
  lemma UnbrokenFirstLine(t: string, k: nat, brk: char -> bool)
    requires k < |t| && brk(t[k]) && brk('\n')
    requires forall i :: 0 <= i < k ==> !brk(t[i])
    ensures Unbroken(t, brk) == t[..k] + Unbroken(t[NextLine(t, k)..], brk)
  {
    var n := NextLine(t, k);
    FirstLineParts(t, k, brk);
    SliceThree(t, 0, k, n);
    assert t[0..] == t && t[0..k] == t[..k];
    UnbrokenThree(t, t[..k], t[k..n], t[n..], brk);
  }

  /** The first line holds no line end, and its line end is removed entirely. */
  lemma FirstLineParts(t: string, k: nat, brk: char -> bool)
    requires k < |t| && brk(t[k]) && brk('\n')
    requires forall i :: 0 <= i < k ==> !brk(t[i])
    ensures Unbroken(t[..k], brk) == t[..k] && Unbroken(t[k..NextLine(t, k)], brk) == []
  {
    LineEndRemoved(t, k, brk);
    UnbrokenFree(t[..k], brk);
  }

  lemma UnbrokenThree(t: string, a: string, b: string, c: string, brk: char -> bool)
    requires t == a + b + c
    requires Unbroken(a, brk) == a && Unbroken(b, brk) == []
    ensures Unbroken(t, brk) == a + Unbroken(c, brk)
  {
    UnbrokenAppend(a, b, brk);
    assert a + [] == a;
    UnbrokenAppend(a + b, c, brk);
  }

  /** The lines hold every character of the text that is not a line end, in order. */
  lemma {:induction false} LinesConcat(t: string, brk: char -> bool)
    requires brk('\n')
    ensures Concat(Lines(t, brk)) == Unbroken(t, brk)
    decreases |t|
  {
    if t != [] {
      var k := BreakAt(t, brk);
      if k == |t| {
        UnbrokenFree(t, brk);
        assert Concat([t]) == t + Concat([]);
      } else {
        var n := NextLine(t, k);
        LinesConcat(t[n..], brk);
        UnbrokenFirstLine(t, k, brk);
        var ls := Lines(t, brk);
        assert ls == [t[..k]] + Lines(t[n..], brk);
        assert ls[1..] == Lines(t[n..], brk);
      }
    }
  }

  /** Two line-end sets that agree on every character of `t` split it alike. */
  lemma {:induction false} LinesAgree(t: string, b1: char -> bool, b2: char -> bool)
    requires forall i :: 0 <= i < |t| ==> (b1(t[i]) <==> b2(t[i]))
    ensures Lines(t, b1) == Lines(t, b2)
    decreases |t|
  {
    if t != [] {
      BreakAtAgree(t, b1, b2);
      var k := BreakAt(t, b1);
      if k < |t| {
        LinesAgree(t[NextLine(t, k)..], b1, b2);
      }
    }
  }

  lemma {:induction false} BreakAtAgree(t: string, b1: char -> bool, b2: char -> bool)
    requires forall i :: 0 <= i < |t| ==> (b1(t[i]) <==> b2(t[i]))
    ensures BreakAt(t, b1) == BreakAt(t, b2)
  {
    if t != [] && !b1(t[0]) {
      BreakAtAgree(t[1..], b1, b2);
    }
  }

  /**
   * A file without the extra line ends of `splitlines()` (vertical tab, form
   * feed, the separators 0x1c-0x1e, NEL, U+2028 and U+2029) has the same
   * lines for both scripts.
   */
  lemma SameLines(t: string)
    requires forall i :: 0 <= i < |t| ==> !SplitLinesBreak(t[i]) || FileBreak(t[i])
    ensures Lines(t, FileBreak) == Lines(t, SplitLinesBreak)
  {
    LinesAgree(t, FileBreak, SplitLinesBreak);
  }

  // ---------------------------------------------------------------- the version

  /** The version a single line gives: on a `version:` line, the first dotted triple after its first colon. */
  function LineVersion(line: string): Option<string> {
    if !StartsWith(Strip(line), "version:") then None
    else
      var value := ValueOf(line);
      match Search(value)
      case None => None
      case Some(m) => Some(Matched(value, m))
  }

  /** The version the scan returns: that of the first line that gives one. */
  function VersionIn(lines: seq<string>): Option<string> {
    FirstGiven(lines, LineVersion)
  }

  /** The scan of `get_bidscoin_version`, returning at the first line that gives a version. */
  method ScanVersion(lines: seq<string>) returns (v: Option<string>)
    ensures v == VersionIn(lines)
  {
    for i := 0 to |lines|
      invariant VersionIn(lines) == VersionIn(lines[i..])
    {
      assert lines[i..][1..] == lines[i + 1..];
      var found := LineVersion(lines[i]);
      if found.Some? {
        return found;
      }
    }
    return None;
  }

  /** The stripped text after the first colon of a `version:` line. */
  function ValueOf(line: string): string
    requires StartsWith(Strip(line), "version:")
  {
    VersionLineHasColon(line);
    Strip(line[Find(line, ":", 0).value + 1..])
  }

  /** A line whose stripped form starts with `version:` has a colon. */
  lemma VersionLineHasColon(line: string)
    requires StartsWith(Strip(line), "version:")
    ensures Find(line, ":", 0).Some?
  {
    StripSlice(line);
    FindLeftmost(line, ":", 0);
    var r, a := Strip(line), StripStart(line);
    assert line[a + 7] == r[7] == ':';
    assert OccursAt(line, ":", a + 7) by {
      assert line[a + 7..a + 8] == [line[a + 7]];
    }
  }

  /**
   * A line gives a version exactly when its stripped form starts with
   * `version:` and the stripped text after its first colon holds a match;
   * the version is then the leftmost match, a dotted triple.
   */
  lemma LineVersionSpec(line: string)
    ensures !StartsWith(Strip(line), "version:") ==> LineVersion(line).None?
    ensures StartsWith(Strip(line), "version:") ==>
      var value := ValueOf(line);
      (LineVersion(line).None? <==> forall j | 0 <= j <= |value| :: !MatchesAt(value, j)) &&
      (LineVersion(line).Some? ==>
        IsTriple(LineVersion(line).value) &&
        Search(value).Some? && LineVersion(line).value == Matched(value, Search(value).value))
  {
    if StartsWith(Strip(line), "version:") {
      SearchSpec(ValueOf(line));
    }
  }

  /** A version a line gives is a dotted triple. */
  lemma LineVersionTriple(line: string)
    ensures LineVersion(line).Some? ==> IsTriple(LineVersion(line).value)
  {
    if LineVersion(line).Some? {
      SearchSpec(ValueOf(line));
    }
  }

  /**
   * The scan returns the version of the first line that gives one, skipping
   * `version:` lines without a triple, and nothing when no line gives one;
   * a version returned is a dotted triple.
   */
  lemma VersionInSpec(lines: seq<string>)
    ensures VersionIn(lines).None? <==> forall i | 0 <= i < |lines| :: LineVersion(lines[i]).None?
    ensures VersionIn(lines).Some? ==>
      IsTriple(VersionIn(lines).value) &&
      exists i | 0 <= i < |lines| :: LineVersion(lines[i]) == VersionIn(lines) &&
        forall j | 0 <= j < i :: LineVersion(lines[j]).None?
  {
    FirstGivenSpec(lines, LineVersion);
    forall i | 0 <= i < |lines| ensures LineVersion(lines[i]).Some? ==> IsTriple(LineVersion(lines[i]).value) {
      LineVersionTriple(lines[i]);
    }
  }

  // ---------------------------------------------------------------- bidsmap.yaml and the environment

  /** What opening `bidsmap.yaml` finds: no file, a file that cannot be read or decoded, or its text. */
  datatype YamlFile = Missing | Unreadable | Text(content: string)

  /** `get_bidscoin_version`, for a given way of splitting the file into lines. */
  function VersionOf(f: YamlFile, brk: char -> bool): Option<string> {
    match f
    case Text(content) => VersionIn(Lines(content, brk))
    case _ => None
  }

  /** A version read from a file is a dotted triple. */
  lemma VersionOfTriple(f: YamlFile, brk: char -> bool)
    ensures VersionOf(f, brk).Some? ==> f.Text? && IsTriple(VersionOf(f, brk).value)
  {
    if f.Text? {
      VersionInSpec(Lines(f.content, brk));
    }
  }

  /**
   * `get_bidscoin_version`: no version for a missing or unreadable file,
   * otherwise the version of the first line of the text that gives one.
   */
  method GetBidscoinVersion(f: YamlFile, brk: char -> bool) returns (v: Option<string>)
    ensures v == VersionOf(f, brk)
    ensures !f.Text? ==> v.None?
    ensures v.Some? ==> IsTriple(v.value)
  {
    match f {
      case Text(content) =>
        var lines := Lines(content, brk);
        v := ScanVersion(lines);
        VersionInSpec(lines);
      case _ =>
        v := None;
    }
  }

  /** `<bds_dir>/_ENVIRONMENTS/bidscoin_v<version>`. */
  function EnvDir(bdsDir: Path, version: string): Path {
    bdsDir + ["_ENVIRONMENTS", "bidscoin_v" + version]
  }

  /** The activate script of the environment for `version`. */
  function ActivateScript(bdsDir: Path, version: string): Path {
    EnvDir(bdsDir, version) + ["env", "bin", "activate"]
  }

  /**
   * The activate script lies five levels below the BIDScoin directory, and
   * different versions (or directories) never share one.
   */
  lemma ActivateScriptSpec(bdsDir: Path, version: string, bdsDir2: Path, version2: string)
    ensures var p := ActivateScript(bdsDir, version);
      |p| == |bdsDir| + 5 && p[..|bdsDir|] == bdsDir &&
      p[|bdsDir|..] == ["_ENVIRONMENTS", "bidscoin_v" + version, "env", "bin", "activate"]
    ensures ActivateScript(bdsDir, version) == ActivateScript(bdsDir2, version2) <==>
      bdsDir == bdsDir2 && version == version2
  {
    var p, p2 := ActivateScript(bdsDir, version), ActivateScript(bdsDir2, version2);
    if p == p2 {
      assert |bdsDir| == |bdsDir2|;
      assert bdsDir == p[..|bdsDir|] == p2[..|bdsDir2|] == bdsDir2;
      assert "bidscoin_v" + version == p[|bdsDir| + 1] == p2[|bdsDir2| + 1] == "bidscoin_v" + version2;
      assert version == ("bidscoin_v" + version)[10..];
    }
  }
}
