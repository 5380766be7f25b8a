/**
 * The header-cleaning sweep over a directory tree: every `*.gz` file found
 * is checked in sorted order and, unless this is a dry run, rewritten in
 * place through a temporary sibling file. The file system is a map from
 * path to content; a path that is not a key (a directory named `*.gz`, say)
 * cannot be opened as a file.
 */
module GzSweep {
  import opened Wrappers
  import opened Strings
  import opened Paths
  import opened GzHeader

  type Files = map<Path, Bytes>

  /** Every path has a last component, as `rglob` results do. */
  predicate Named(order: seq<Path>) {
    forall q | q in order :: |q| > 0
  }

  /** Every path names a `*.gz` file, as the `rglob("*.gz")` results do. */
  predicate AllGz(order: seq<Path>) {
    forall q | q in order :: |q| > 0 && EndsWith(Basename(q), ".gz")
  }

  /** `path.with_suffix(path.suffix + ".tmp")`: the sibling whose name has ".tmp" appended. */
  function TmpOf(p: Path): (t: Path)
    requires |p| > 0
    ensures |t| == |p| && Parent(t) == Parent(p) && Basename(t) == Basename(p) + ".tmp"
  {
    p[..|p| - 1] + [p[|p| - 1] + ".tmp"]
  }

  /** The volume after `os.replace(tmp, p)`: `p` holds the new content and `tmp` is gone. */
  function Replaced(files: Files, p: Path, content: Bytes): Files
    requires |p| > 0
  {
    (files - {TmpOf(p)})[p := content]
  }

  datatype Counts = Counts(total: nat, changed: nat, errors: nat)

  datatype SweepError = DirectoryNotFound

  /** The file system and the counters between two files of the sweep. */
  datatype State = State(files: Files, counts: Counts)

  /** `needs_cleaning(p)`, or `None` where it raises (no such file, or a header that does not parse). */
  function Inspect(files: Files, p: Path): Option<Needs> {
    if p !in files then None
    else match NeedsCleaning(files[p])
      case Failure(_) => None
      case Success(n) => Some(n)
  }

  /** One file of the sweep: count it, then count an error or a cleaned file. */
  function Step(s: State, p: Path, dryRun: bool, readOnly: set<Path>): State
    requires |p| > 0
  {
    var c := s.counts.(total := s.counts.total + 1);
    match Inspect(s.files, p)
    case None => State(s.files, c.(errors := c.errors + 1))
    case Some(n) =>
      if !Dirty(n) || dryRun then State(s.files, c)
      else if p in readOnly then State(s.files, c.(errors := c.errors + 1))
      else
        var data := s.files[p];
        State(Replaced(s.files, p, Rewritten(data, Parse(data).value)), c.(changed := c.changed + 1))
  }

  /** The sweep over the files in `order`, one `Step` after another. */
  function Sweep(files: Files, order: seq<Path>, dryRun: bool, readOnly: set<Path>): State
    requires Named(order)
  {
    if order == [] then State(files, Counts(0, 0, 0))
    else Step(Sweep(files, order[..|order| - 1], dryRun, readOnly), order[|order| - 1], dryRun, readOnly)
  }

  /** What the sweep leaves in a file it checked: the rewritten member if it was dirty and could be rewritten. */
  function Cleaned(data: Bytes, dryRun: bool, writable: bool): Bytes {
    match Parse(data)
    case Failure(_) => data
    case Success(h) =>
      if Dirty(NeedsCleaning(data).value) && !dryRun && writable then Rewritten(data, h) else data
  }

  /** The sweep over one more file is one more `Step`. */
  lemma SweepPrefix(files: Files, order: seq<Path>, i: nat, dryRun: bool, readOnly: set<Path>)
    requires Named(order) && i < |order|
    ensures Named(order[..i]) && Named(order[..i + 1])
    ensures Sweep(files, order[..i + 1], dryRun, readOnly) ==
      Step(Sweep(files, order[..i], dryRun, readOnly), order[i], dryRun, readOnly)
  {
    assert order[..i + 1][..i] == order[..i];
  }

  /** `total` counts every file found; each file adds at most one to `changed` or `errors`. */
  lemma {:induction false} SweepCounts(files: Files, order: seq<Path>, dryRun: bool, readOnly: set<Path>)
    requires Named(order)
    ensures var c := Sweep(files, order, dryRun, readOnly).counts;
      c.total == |order| && c.changed + c.errors <= c.total
  {
    if order != [] {
      var init := order[..|order| - 1];
      SweepCounts(files, init, dryRun, readOnly);
      StepCounts(Sweep(files, init, dryRun, readOnly), order[|order| - 1], dryRun, readOnly);
    }
  }

  /** One step counts one file, and at most one change or error. */
  lemma StepCounts(s: State, p: Path, dryRun: bool, readOnly: set<Path>)
    requires |p| > 0
    ensures var c, d := s.counts, Step(s, p, dryRun, readOnly).counts;
      d.total == c.total + 1 && c.changed <= d.changed && c.errors <= d.errors &&
      d.changed + d.errors <= c.changed + c.errors + 1
  {
  }

  /** One step leaves alone every path other than the file it checks and that file's temporary sibling. */
  lemma StepFrame(s: State, p: Path, dryRun: bool, readOnly: set<Path>, q: Path)
    requires |p| > 0 && q != p && q != TmpOf(p)
    ensures var t := Step(s, p, dryRun, readOnly);
      (q in t.files <==> q in s.files) && (q in s.files ==> t.files[q] == s.files[q])
  {
  }

  /** A dry run rewrites nothing and reports nothing as cleaned. */
  lemma {:induction false} SweepDryRun(files: Files, order: seq<Path>, readOnly: set<Path>)
    requires Named(order)
    ensures var s := Sweep(files, order, true, readOnly);
      s.files == files && s.counts.changed == 0
  {
    if order != [] {
      SweepDryRun(files, order[..|order| - 1], readOnly);
    }
  }

  /** A path that is neither swept nor the temporary sibling of a swept file is left alone. */
  lemma {:induction false} SweepFrame(files: Files, order: seq<Path>, dryRun: bool, readOnly: set<Path>, q: Path)
    requires Named(order)
    requires q !in order && forall x | x in order :: q != TmpOf(x)
    ensures var s := Sweep(files, order, dryRun, readOnly);
      (q in s.files <==> q in files) && (q in files ==> s.files[q] == files[q])
  {
    if order != [] {
      var init := order[..|order| - 1];
      SweepFrame(files, init, dryRun, readOnly, q);
      StepFrame(Sweep(files, init, dryRun, readOnly), order[|order| - 1], dryRun, readOnly, q);
    }
  }

  /** A `*.gz` path is never the temporary sibling of a path. */
  lemma GzNotTmp(q: Path, x: Path)
    requires |x| > 0 && EndsWith(Basename(q), ".gz")
    ensures q != TmpOf(x)
  {
    var b := Basename(q);
    assert b[|b| - 1] == 'z' by {
      assert b[|b| - 3..][2] == 'z';
    }
    var t := Basename(TmpOf(x));
    assert t[|t| - 1] == 'p';
  }

  /** One step rewrites at most the file it checks, into `Cleaned`, and leaves every other `*.gz` file alone. */
  lemma StepContent(s: State, p: Path, dryRun: bool, readOnly: set<Path>, q: Path)
    requires |p| > 0 && EndsWith(Basename(q), ".gz")
    ensures var t := Step(s, p, dryRun, readOnly);
      (q in t.files <==> q in s.files) &&
      (q in s.files ==> t.files[q] == if q == p then Cleaned(s.files[q], dryRun, q !in readOnly) else s.files[q])
  {
    GzNotTmp(q, p);
  }

  /** Cleaning a file a second time changes nothing. */
  lemma CleanedIdempotent(data: Bytes, dryRun: bool, writable: bool)
    ensures Cleaned(Cleaned(data, dryRun, writable), dryRun, writable) == Cleaned(data, dryRun, writable)
  {
    if Parse(data).Success? {
      RewriteIdempotent(data, Parse(data).value);
    }
  }

  /** Membership in a non-empty sequence: in the part before the last element, or the last. */
  lemma InOrder<T>(xs: seq<T>, q: T)
    requires |xs| > 0
    ensures q in xs <==> q in xs[..|xs| - 1] || q == xs[|xs| - 1]
  {
    assert xs == xs[..|xs| - 1] + [xs[|xs| - 1]];
  }

  /**
   * After the sweep, each `*.gz` file found holds `Cleaned` of its old
   * content, even when it was found twice, and every other `*.gz` file is
   * as it was.
   */
  lemma {:induction false} SweepContent(files: Files, order: seq<Path>, dryRun: bool, readOnly: set<Path>, q: Path)
    requires AllGz(order) && EndsWith(Basename(q), ".gz")
    ensures var s := Sweep(files, order, dryRun, readOnly);
      (q in s.files <==> q in files) &&
      (q in files ==> s.files[q] == if q in order then Cleaned(files[q], dryRun, q !in readOnly) else files[q])
  {
    if order != [] {
      var pre, x := order[..|order| - 1], order[|order| - 1];
      assert AllGz(pre) && Named(pre);
      var s := Sweep(files, pre, dryRun, readOnly);
      assert Sweep(files, order, dryRun, readOnly) == Step(s, x, dryRun, readOnly);
      InOrder(order, q);
      SweepContent(files, pre, dryRun, readOnly, q);
      StepContent(s, x, dryRun, readOnly, q);
      if q in files && q == x && q in pre {
        CleanedIdempotent(files[q], dryRun, q !in readOnly);
      }
    }
  }

  /**
   * After a sweep that is not a dry run, every `*.gz` file found whose
   * header parses and that can be rewritten has MTIME zero and no FNAME.
   */
  lemma SweepLeavesClean(files: Files, order: seq<Path>, readOnly: set<Path>, q: Path)
    requires AllGz(order) && q in order && q in files && Parse(files[q]).Success? && q !in readOnly
    ensures var s := Sweep(files, order, false, readOnly);
      q in s.files && HeaderClean(s.files[q])
  {
    SweepContent(files, order, false, readOnly, q);
    var data := files[q];
    if Dirty(NeedsCleaning(data).value) {
      RewrittenIsClean(data, Parse(data).value);
    }
  }

  /**
   * A file whose MTIME is already zero and that has no FNAME is left
   * untouched, whatever FHCRC says.
   */
  lemma SweepSkipsClean(files: Files, order: seq<Path>, dryRun: bool, readOnly: set<Path>, q: Path)
    requires AllGz(order) && q in order && q in files
    requires NeedsCleaning(files[q]).Success? && !Dirty(NeedsCleaning(files[q]).value)
    ensures var s := Sweep(files, order, dryRun, readOnly);
      q in s.files && s.files[q] == files[q]
  {
    SweepContent(files, order, dryRun, readOnly, q);
  }

  class Volume {
    var files: Files

    constructor(files0: Files)
      ensures files == files0
    {
      files := files0;
    }

    /** `needs_cleaning(p)`; `None` stands for the exception it raises. */
    method NeedsCleaningAt(p: Path) returns (r: Option<Needs>)
      ensures r == Inspect(files, p)
    {
      if p !in files {
        return None;
      }
      var n := NeedsCleaningOf(files[p]);
      r := if n.Success? then Some(n.value) else None;
    }

    /**
     * `clean_file(p)`: parse, write the rewritten member to the temporary
     * sibling, then move it over `p`. It fails, changing nothing, when `p`
     * cannot be opened, its header does not parse, or the temporary file
     * cannot be created.
     */
    method CleanFile(p: Path, writable: bool) returns (ok: bool)
      requires |p| > 0
      modifies this
      ensures ok <==> p in old(files) && Parse(old(files)[p]).Success? && writable
      ensures ok ==> files == Replaced(old(files), p, Rewritten(old(files)[p], Parse(old(files)[p]).value))
      ensures !ok ==> files == old(files)
    {
      if p !in files {
        return false;
      }
      var data := files[p];
      var meta := ParseGzipHeader(data);
      if meta.Failure? || !writable {
        return false;
      }
      var out := RewriteHeaderOnly(data, meta.value);
      var tmp := TmpOf(p);
      files := files[tmp := out];
      files := (files - {tmp})[p := files[tmp]];
      ok := true;
    }

    /**
     * `clean_gzip_headers`: `rootExists` says whether the directory exists,
     * `found` is what `rglob("*.gz")` yields, and `readOnly` holds the files
     * whose temporary sibling cannot be created.
     */
    method CleanGzipHeaders(rootExists: bool, found: seq<Path>, dryRun: bool, readOnly: set<Path>)
      returns (r: Result<Counts, SweepError>)
      requires Named(found)
      modifies this
      ensures !rootExists ==> r == Failure(DirectoryNotFound) && files == old(files)
      ensures rootExists ==> (Named(Sort(found)) &&
        var s := Sweep(old(files), Sort(found), dryRun, readOnly);
        r == Success(s.counts) && files == s.files)
      ensures rootExists && found == [] ==> r == Success(Counts(0, 0, 0)) && files == old(files)
    {
      if !rootExists {
        return Failure(DirectoryNotFound);
      }
      if found == [] {
        return Success(Counts(0, 0, 0));
      }
      var order := Sort(found);
      SortPermutes(found);
      var counts := Counts(0, 0, 0);
      var i := 0;
      assert order[..0] == [];
      while i < |order|
        invariant 0 <= i <= |order|
        invariant State(files, counts) == Sweep(old(files), order[..i], dryRun, readOnly)
      {
        SweepPrefix(old(files), order, i, dryRun, readOnly);
        counts := CheckOne(order[i], dryRun, readOnly, counts);
        i := i + 1;
      }
      assert order[..i] == order;
      r := Success(counts);
    }

    /** One pass of the loop body of `clean_gzip_headers`, on the file `p`. */
    method CheckOne(p: Path, dryRun: bool, readOnly: set<Path>, counts: Counts) returns (next: Counts)
      requires |p| > 0
      modifies this
      ensures State(files, next) == Step(State(old(files), counts), p, dryRun, readOnly)
    {
      var total, changed, errors := counts.total + 1, counts.changed, counts.errors;
      var n := NeedsCleaningAt(p);
      if n.None? {
        errors := errors + 1;
      } else if Dirty(n.value) && !dryRun {
        var ok := CleanFile(p, p !in readOnly);
        if ok {
          changed := changed + 1;
        } else {
          errors := errors + 1;
        }
      }
      next := Counts(total, changed, errors);
    }
  }
}
