/**
 * The single-study BIDScoin script: the directory layout of a study, the
 * decoding of `sub-<study><subjnr>` subject directory names against the
 * study's name, the list of subjects to deface, and the `faced_` backups
 * that keep an image from being defaced twice.
 */
module BidsStudy {
  import opened Wrappers
  import opened Strings
  import opened Paths
  import opened Seqs
  import opened BidsVersion

  // ---------------------------------------------------------------- layout

  /** The directories the script derives from the study directory. */
  datatype Layout = Layout(bds: Path, bidsmap: Path, sourcedata: Path, rawdata: Path, faced: Path)

  function LayoutOf(studyDir: Path): Layout {
    var sourcedata := studyDir + ["sourcedata"];
    Layout(Parent(studyDir), studyDir + ["rawdata", "code", "bidscoin", "bidsmap.yaml"],
           sourcedata, studyDir + ["rawdata"], sourcedata + ["bidsonym", "faced"])
  }

  /**
   * The BIDScoin directory is the parent of the study; `bidsmap.yaml` lies in
   * `rawdata/code/bidscoin`, the backups in `sourcedata/bidsonym/faced`, and
   * the activate script is that of the BIDScoin directory's environment.
   */
  lemma LayoutSpec(studyDir: Path, version: string)
    requires studyDir != []
    ensures var l := LayoutOf(studyDir);
      l.sourcedata == studyDir + ["sourcedata"] && l.rawdata == studyDir + ["rawdata"] &&
      l.bidsmap == l.rawdata + ["code", "bidscoin", "bidsmap.yaml"] &&
      l.faced == l.sourcedata + ["bidsonym", "faced"]
    ensures var l := LayoutOf(studyDir);
      l.bds + [Basename(studyDir)] == studyDir &&
      l.bidsmap[..|studyDir|] == studyDir && l.rawdata[..|studyDir|] == studyDir &&
      l.bidsmap[..|l.rawdata|] == l.rawdata && l.faced[..|l.sourcedata|] == l.sourcedata &&
      Parent(Parent(Parent(l.bidsmap))) == l.rawdata &&
      l.sourcedata != l.rawdata && Parent(l.sourcedata) == Parent(l.rawdata) == studyDir
    ensures ActivateScript(LayoutOf(studyDir).bds, version) ==
      studyDir[..|studyDir| - 1] + ["_ENVIRONMENTS", "bidscoin_v" + version, "env", "bin", "activate"]
  {
    var l := LayoutOf(studyDir);
    assert l.rawdata[|studyDir|] == "rawdata" != "sourcedata" == l.sourcedata[|studyDir|];
    assert l.bidsmap[..|l.rawdata|] == l.rawdata;
    assert Parent(l.bidsmap) == studyDir + ["rawdata", "code", "bidscoin"];
    assert Parent(Parent(l.bidsmap)) == studyDir + ["rawdata", "code"];
  }

  // ---------------------------------------------------------------- subject names

  /** What the subject loop concludes about one directory name. */
  datatype Verdict =
    | NotSubject            // does not start with `sub-`
    | TooShort              // the remainder is shorter than the study name
    | OtherStudy(study: string)
    | Accepted(study: string, subjnr: string)

  /** A name that starts with `sub-` splits into at least two parts, the first empty. */
  lemma SplitAtSub(name: string)
    requires StartsWith(name, "sub-")
    ensures Find(name, "sub-", 0) == Some(0)
    ensures |Split(name, "sub-")| >= 2
    ensures Split(name, "sub-")[1] == SplitFrom(name, "sub-", 4)[0]
  {
    assert OccursAt(name, "sub-", 0);
    SplitFromHead(name, "sub-", 0);
  }

  /** `name.split('sub-')[1]` for a name that starts with `sub-`. */
  function Remainder(name: string): string
    requires StartsWith(name, "sub-")
  {
    SplitAtSub(name);
    Split(name, "sub-")[1]
  }

  /** Where the next `sub-` after the leading one starts, or the end of the name. */
  function NextSub(name: string): (j: nat)
    requires StartsWith(name, "sub-")
    ensures 4 <= j <= |name|
  {
    match Find(name, "sub-", 4)
    case None => |name|
    case Some(j) => j
  }

  /**
   * The remainder is the text between the leading `sub-` and the next
   * occurrence of `sub-`, or the end of the name when there is none.
   */
  lemma RemainderSpec(name: string)
    requires StartsWith(name, "sub-")
    ensures Remainder(name) == name[4..NextSub(name)]
    ensures !Contains(Remainder(name), "sub-")
  {
    SplitAtSub(name);
    SplitFromHead(name, "sub-", 4);
    SplitPartsFree(name, "sub-");
    assert Remainder(name) in Split(name, "sub-");
  }

  /** The subject loop's decision on the directory name `name` (lines 98-110). */
  function Decode(name: string, studyName: string): Verdict {
    if !StartsWith(name, "sub-") then NotSubject
    else
      var parts := Remainder(name);
      if |parts| < |studyName| then TooShort
      else if parts[..|studyName|] != studyName then OtherStudy(parts[..|studyName|])
      else Accepted(parts[..|studyName|], parts[|studyName|..])
  }

  /** The subject directory name of a subject. */
  function SubjectName(study: string, subjnr: string): string {
    "sub-" + study + subjnr
  }

  /**
   * A name is accepted exactly when it starts with `sub-` and the study name
   * starts its remainder; the study is then the study name, the subject
   * number the rest of the remainder (possibly empty), and a name with no
   * second `sub-` is the subject name of the two.
   */
  lemma DecodeSpec(name: string, studyName: string)
    ensures Decode(name, studyName).Accepted? <==>
      StartsWith(name, "sub-") && StartsWith(Remainder(name), studyName)
    ensures Decode(name, studyName).NotSubject? <==> !StartsWith(name, "sub-")
    ensures Decode(name, studyName).TooShort? <==>
      StartsWith(name, "sub-") && |Remainder(name)| < |studyName|
    ensures Decode(name, studyName).Accepted? ==>
      var v := Decode(name, studyName);
      v.study == studyName && Remainder(name) == v.study + v.subjnr &&
      (Find(name, "sub-", 4).None? ==> SubjectName(v.study, v.subjnr) == name)
  {
    if Decode(name, studyName).Accepted? {
      RemainderSpec(name);
      var v := Decode(name, studyName);
      assert Remainder(name) == v.study + v.subjnr;
      if Find(name, "sub-", 4).None? {
        assert name == "sub-" + name[4..];
      }
    }
  }

  /** `sub-` occurs in `"sub-" + x` past its start exactly where it occurs in `x`. */
  lemma ShiftedSub(x: string, i: nat)
    requires 4 <= i
    ensures OccursAt("sub-" + x, "sub-", i) <==> OccursAt(x, "sub-", i - 4)
  {
    var n := "sub-" + x;
    if i + 4 <= |n| {
      assert n[i..i + 4] == x[i - 4..i];
    }
  }

  /**
   * Decoding the subject name of a study name and a subject number gives
   * them back, provided neither holds `sub-` (together).
   */
  lemma DecodeSubjectName(study: string, subjnr: string)
    requires !Contains(study + subjnr, "sub-")
    ensures Decode(SubjectName(study, subjnr), study) == Accepted(study, subjnr)
  {
    var x := study + subjnr;
    var name := SubjectName(study, subjnr);
    assert name == "sub-" + x;
    assert StartsWith(name, "sub-");
    forall j | 4 <= j ensures !OccursAt(name, "sub-", j) {
      ShiftedSub(x, j);
      assert !OccursAt(x, "sub-", j - 4);
    }
    assert Find(name, "sub-", 4).None?;
    RemainderSpec(name);
    assert Remainder(name) == x;
    assert x[..|study|] == study && x[|study|..] == subjnr;
  }

  /**
   * A second `sub-` cuts the remainder short: `sub-ABsub-1` is accepted for
   * study `AB` with an empty subject number, whose subject name `sub-AB` is
   * a different directory.
   */
  lemma SecondSubCutsRemainder()
    ensures Decode("sub-ABsub-1", "AB") == Accepted("AB", "")
    ensures SubjectName("AB", "") != "sub-ABsub-1"
  {
    SecondSubRemainder();
    assert "AB"[..2] == "AB" && "AB"[2..] == "";
  }

  lemma SecondSubRemainder()
    ensures StartsWith("sub-ABsub-1", "sub-") && Remainder("sub-ABsub-1") == "AB"
  {
    var name := "sub-ABsub-1";
    assert StartsWith(name, "sub-");
    SecondSubFound();
    RemainderSpec(name);
  }

  lemma SecondSubFound()
    ensures Find("sub-ABsub-1", "sub-", 4) == Some(6)
  {
    var name := "sub-ABsub-1";
    assert OccursAt(name, "sub-", 6);
    assert name[4..8] == "ABsu" && name[5..9] == "Bsub";
    assert Find(name, "sub-", 6) == Some(6);
  }

  // ---------------------------------------------------------------- the subjects to deface

  /** A subject directory found under `rawdata`, with the `ses-*` entries found inside it. */
  datatype SubjectDir = SubjectDir(path: Path, sessionPaths: seq<Path>)

  /** A subject to deface. */
  datatype Meta = Meta(study: string, subjnr: string, sessions: seq<string>)

  /** The base names of the session entries. */
  function Basenames(ps: seq<Path>): (r: seq<string>)
    ensures |r| == |ps|
    ensures forall i :: 0 <= i < |ps| ==> r[i] == Basename(ps[i])
  {
    if ps == [] then [] else [Basename(ps[0])] + Basenames(ps[1..])
  }

  /** The entry a subject directory contributes to `metas`, if any. */
  function MetaOf(d: SubjectDir, studyName: string): Option<Meta> {
    match Decode(Basename(d.path), studyName)
    case Accepted(study, subjnr) =>
      if d.sessionPaths == [] then None else Some(Meta(study, subjnr, Basenames(d.sessionPaths)))
    case _ => None
  }

  /** What one directory appends to `metas`. */
  function Emitted(d: SubjectDir, studyName: string): seq<Meta> {
    match MetaOf(d, studyName)
    case Some(m) => [m]
    case None => []
  }

  /** `metas` after the loop over `dirs`. */
  function Metas(dirs: seq<SubjectDir>, studyName: string): seq<Meta> {
    if dirs == [] then [] else Metas(dirs[..|dirs| - 1], studyName) + Emitted(dirs[|dirs| - 1], studyName)
  }

  /** The loop of lines 96-117, appending one entry per accepted subject with sessions. */
  method CollectSubjects(dirs: seq<SubjectDir>, studyName: string) returns (metas: seq<Meta>)
    ensures metas == Metas(dirs, studyName)
  {
    metas := [];
    for i := 0 to |dirs|
      invariant metas == Metas(dirs[..i], studyName)
    {
      assert dirs[..i + 1][..i] == dirs[..i];
      var d := dirs[i];
      var v := Decode(Basename(d.path), studyName);
      if !v.Accepted? {
        continue;
      }
      var sessions := Basenames(d.sessionPaths);
      if sessions == [] {
        continue;
      }
      metas := metas + [Meta(v.study, v.subjnr, sessions)];
    }
    assert dirs[..|dirs|] == dirs;
  }

  /** The entries of two runs of directories follow each other: input order is kept. */
  lemma {:induction false} MetasAppend(a: seq<SubjectDir>, b: seq<SubjectDir>, studyName: string)
    ensures Metas(a + b, studyName) == Metas(a, studyName) + Metas(b, studyName)
    decreases |b|
  {
    if b == [] {
      assert a + b == a;
    } else {
      var init, last := b[..|b| - 1], b[|b| - 1];
      assert b == init + [last];
      assert a + b == (a + init) + [last];
      MetasSnoc(a + init, last, studyName);
      MetasSnoc(init, last, studyName);
      MetasAppend(a, init, studyName);
      AppendAssoc(Metas(a, studyName), Metas(init, studyName), Emitted(last, studyName));
    }
  }

  /** One more directory adds its own entry, if any, at the end. */
  lemma MetasSnoc(dirs: seq<SubjectDir>, d: SubjectDir, studyName: string)
    ensures Metas(dirs + [d], studyName) == Metas(dirs, studyName) + Emitted(d, studyName)
  {
    assert (dirs + [d])[..|dirs|] == dirs;
  }

  /**
   * `metas` holds exactly the entries of the accepted subjects with at least
   * one session: each is for the study, with a non-empty session list that
   * names the directory's sessions.
   */
  lemma MetasSpec(dirs: seq<SubjectDir>, studyName: string)
    ensures forall m :: m in Metas(dirs, studyName) <==>
      exists i | 0 <= i < |dirs| :: MetaOf(dirs[i], studyName) == Some(m)
    ensures forall m :: m in Metas(dirs, studyName) ==> m.study == studyName && m.sessions != []
    ensures |Metas(dirs, studyName)| <= |dirs|
  {
    MetasMembers(dirs, studyName);
    MetasEntries(dirs, studyName);
    MetasLength(dirs, studyName);
  }

  lemma {:induction false} MetasMembers(dirs: seq<SubjectDir>, studyName: string)
    ensures forall m :: m in Metas(dirs, studyName) <==>
      exists i | 0 <= i < |dirs| :: MetaOf(dirs[i], studyName) == Some(m)
  {
    if dirs != [] {
      var init, last := dirs[..|dirs| - 1], dirs[|dirs| - 1];
      MetasMembers(init, studyName);
      forall m ensures m in Metas(dirs, studyName) <==>
        exists i | 0 <= i < |dirs| :: MetaOf(dirs[i], studyName) == Some(m)
      {
        GivenByLast(dirs, init, d => MetaOf(d, studyName), m);
      }
    }
  }

  /** An entry a directory emits is for the study and has sessions. */
  lemma EmittedEntry(d: SubjectDir, studyName: string)
    ensures forall m :: m in Emitted(d, studyName) ==> m.study == studyName && m.sessions != []
  {
    DecodeSpec(Basename(d.path), studyName);
  }

  lemma {:induction false} MetasEntries(dirs: seq<SubjectDir>, studyName: string)
    ensures forall m :: m in Metas(dirs, studyName) ==> m.study == studyName && m.sessions != []
  {
    if dirs != [] {
      MetasEntries(dirs[..|dirs| - 1], studyName);
      EmittedEntry(dirs[|dirs| - 1], studyName);
    }
  }

  lemma {:induction false} MetasLength(dirs: seq<SubjectDir>, studyName: string)
    ensures |Metas(dirs, studyName)| <= |dirs|
  {
    if dirs != [] {
      MetasLength(dirs[..|dirs| - 1], studyName);
    }
  }

  /** `sub-<study><subjnr>` under `rawdata`: where the images of a subject are looked for. */
  function SubjectPath(rawdata: Path, m: Meta): Path {
    rawdata + [SubjectName(m.study, m.subjnr)]
  }

  /**
   * The images of a subject are looked for in the directory it was found as,
   * unless that directory's name holds a second `sub-`.
   */
  lemma SubjectPathSpec(rawdata: Path, d: SubjectDir, studyName: string)
    requires MetaOf(d, studyName).Some?
    requires Find(Basename(d.path), "sub-", 4).None?
    ensures SubjectPath(rawdata, MetaOf(d, studyName).value) == rawdata + [Basename(d.path)]
  {
    DecodeSpec(Basename(d.path), studyName);
  }

  // ---------------------------------------------------------------- backups

  /** `faced_dir/faced_<file name>`. */
  function BackupPath(facedDir: Path, img: Path): Path {
    facedDir + ["faced_" + Basename(img)]
  }

  /** Images with different file names have different backups, all in the faced directory. */
  lemma BackupPathSpec(facedDir: Path, img1: Path, img2: Path)
    ensures Parent(BackupPath(facedDir, img1)) == facedDir
    ensures BackupPath(facedDir, img1) == BackupPath(facedDir, img2) <==> Basename(img1) == Basename(img2)
  {
    var b1, b2 := BackupPath(facedDir, img1), BackupPath(facedDir, img2);
    assert Parent(b1) == facedDir;
    if b1 == b2 {
      assert ("faced_" + Basename(img1))[6..] == Basename(img1);
      assert ("faced_" + Basename(img2))[6..] == Basename(img2);
      assert b1[|facedDir|] == b2[|facedDir|];
    }
  }

  /** The backups of the images in `imgs`. */
  function Backups(facedDir: Path, imgs: seq<Path>): set<Path>
    decreases |imgs|
  {
    if imgs == [] then {}
    else Backups(facedDir, imgs[..|imgs| - 1]) + {BackupPath(facedDir, imgs[|imgs| - 1])}
  }

  /** A backup is made for `imgs` exactly when it is the backup of one of them. */
  lemma {:induction false} BackupsMembers(facedDir: Path, imgs: seq<Path>, b: Path)
    ensures b in Backups(facedDir, imgs) <==> exists i | 0 <= i < |imgs| :: BackupPath(facedDir, imgs[i]) == b
    decreases |imgs|
  {
    if imgs != [] {
      var init := imgs[..|imgs| - 1];
      BackupsMembers(facedDir, init, b);
      if exists i | 0 <= i < |imgs| :: BackupPath(facedDir, imgs[i]) == b {
        var i :| 0 <= i < |imgs| && BackupPath(facedDir, imgs[i]) == b;
        if i < |init| {
          assert init[i] == imgs[i];
        }
      }
      if exists i | 0 <= i < |init| :: BackupPath(facedDir, init[i]) == b {
        var i :| 0 <= i < |init| && BackupPath(facedDir, init[i]) == b;
        assert imgs[i] == init[i];
      }
    }
  }

  /**
   * The images of `imgs` that are copied and defaced, in order, when the
   * paths `ex` exist beforehand: those whose backup neither existed nor was
   * made for an earlier image.
   */
  function Fresh(facedDir: Path, imgs: seq<Path>, ex: set<Path>): seq<Path>
    decreases |imgs|
  {
    if imgs == [] then []
    else
      var init, img := imgs[..|imgs| - 1], imgs[|imgs| - 1];
      Fresh(facedDir, init, ex) +
      (if BackupPath(facedDir, img) in ex + Backups(facedDir, init) then [] else [img])
  }

  /** No image before position `i` has the same file name as `imgs[i]`. */
  predicate FirstOfName(imgs: seq<Path>, i: nat)
    requires i < |imgs|
  {
    forall j | 0 <= j < i :: Basename(imgs[j]) != Basename(imgs[i])
  }

  /** An image of `imgs` has a backup made for an earlier one exactly when it is not the first of its name. */
  lemma EarlierBackup(facedDir: Path, imgs: seq<Path>, i: nat)
    requires i < |imgs|
    ensures BackupPath(facedDir, imgs[i]) in Backups(facedDir, imgs[..i]) <==> !FirstOfName(imgs, i)
  {
    var b := BackupPath(facedDir, imgs[i]);
    BackupsMembers(facedDir, imgs[..i], b);
    if !FirstOfName(imgs, i) {
      var j :| 0 <= j < i && Basename(imgs[j]) == Basename(imgs[i]);
      BackupPathSpec(facedDir, imgs[j], imgs[i]);
      assert imgs[..i][j] == imgs[j];
    }
    if b in Backups(facedDir, imgs[..i]) {
      var j :| 0 <= j < i && BackupPath(facedDir, imgs[..i][j]) == b;
      assert imgs[..i][j] == imgs[j];
      BackupPathSpec(facedDir, imgs[j], imgs[i]);
    }
  }

  /** `x` is defaced as the image at position `i`. */
  predicate DefacedAt(facedDir: Path, imgs: seq<Path>, ex: set<Path>, x: Path, i: nat)
    requires i < |imgs|
  {
    imgs[i] == x && BackupPath(facedDir, x) !in ex && FirstOfName(imgs, i)
  }

  /**
   * An image is defaced exactly when it is, at some position, the first of
   * its file name and its backup did not exist beforehand.
   */
  lemma {:induction false} FreshMembers(facedDir: Path, imgs: seq<Path>, ex: set<Path>, x: Path)
    ensures x in Fresh(facedDir, imgs, ex) <==> exists i | 0 <= i < |imgs| :: DefacedAt(facedDir, imgs, ex, x, i)
    decreases |imgs|
  {
    if imgs != [] {
      var n := |imgs| - 1;
      var init := imgs[..n];
      FreshMembers(facedDir, init, ex, x);
      EarlierBackup(facedDir, imgs, n);
      assert Fresh(facedDir, imgs, ex) ==
        Fresh(facedDir, init, ex) + (if BackupPath(facedDir, imgs[n]) in ex + Backups(facedDir, init) then [] else [imgs[n]]);
      if x in Fresh(facedDir, imgs, ex) {
        if x in Fresh(facedDir, init, ex) {
          var i :| 0 <= i < |init| && DefacedAt(facedDir, init, ex, x, i);
          DefacedAtPrefix(facedDir, imgs, ex, x, n, i);
        } else {
          assert DefacedAt(facedDir, imgs, ex, x, n);
        }
      }
      if exists i | 0 <= i < |imgs| :: DefacedAt(facedDir, imgs, ex, x, i) {
        var i :| 0 <= i < |imgs| && DefacedAt(facedDir, imgs, ex, x, i);
        if i < n {
          DefacedAtPrefix(facedDir, imgs, ex, x, n, i);
        }
      }
    }
  }

  /** Being defaced at a position before `n` does not depend on the images from `n` on. */
  lemma DefacedAtPrefix(facedDir: Path, imgs: seq<Path>, ex: set<Path>, x: Path, n: nat, i: nat)
    requires i < n <= |imgs|
    ensures DefacedAt(facedDir, imgs[..n], ex, x, i) <==> DefacedAt(facedDir, imgs, ex, x, i)
  {
    assert forall j | 0 <= j <= i :: imgs[..n][j] == imgs[j];
  }

  /** Processing one more image: the backups and defaced images of a prefix, extended by one. */
  lemma FreshStep(facedDir: Path, imgs: seq<Path>, ex: set<Path>, i: nat)
    requires i < |imgs|
    ensures Backups(facedDir, imgs[..i + 1]) == Backups(facedDir, imgs[..i]) + {BackupPath(facedDir, imgs[i])}
    ensures Fresh(facedDir, imgs[..i + 1], ex) == Fresh(facedDir, imgs[..i], ex) +
      (if BackupPath(facedDir, imgs[i]) in ex + Backups(facedDir, imgs[..i]) then [] else [imgs[i]])
  {
    assert imgs[..i + 1][..i] == imgs[..i];
  }

  /** Copies of one more image extend the copies by that image and its backup. */
  lemma CopiesSnoc(facedDir: Path, imgs: seq<Path>, img: Path)
    ensures BackupCopies(facedDir, imgs + [img]) == BackupCopies(facedDir, imgs) + [(img, BackupPath(facedDir, img))]
  {
    assert (imgs + [img])[..|imgs|] == imgs;
  }

  /** The copies made for `imgs`: each image with its backup. */
  function BackupCopies(facedDir: Path, imgs: seq<Path>): seq<(Path, Path)>
    decreases |imgs|
  {
    if imgs == [] then []
    else BackupCopies(facedDir, imgs[..|imgs| - 1]) + [(imgs[|imgs| - 1], BackupPath(facedDir, imgs[|imgs| - 1]))]
  }

  /**
   * One turn of the loop over a subject's images: the state after the first
   * `i` images, updated as `process_image` does for image `i`, is the state
   * after the first `i + 1`.
   */
  lemma ImagesStep(facedDir: Path, imgs: seq<Path>, i: nat,
                   ex: set<Path>, cs: seq<(Path, Path)>, ds: seq<Path>,
                   e0: set<Path>, c0: seq<(Path, Path)>, d0: seq<Path>,
                   e1: set<Path>, c1: seq<(Path, Path)>, d1: seq<Path>)
    requires i < |imgs|
    requires e0 == ex + Backups(facedDir, imgs[..i])
    requires d0 == ds + Fresh(facedDir, imgs[..i], ex)
    requires c0 == cs + BackupCopies(facedDir, Fresh(facedDir, imgs[..i], ex))
    requires var dest := BackupPath(facedDir, imgs[i]);
      if dest in e0 then e1 == e0 && c1 == c0 && d1 == d0
      else e1 == e0 + {dest} && c1 == c0 + [(imgs[i], dest)] && d1 == d0 + [imgs[i]]
    ensures e1 == ex + Backups(facedDir, imgs[..i + 1])
    ensures d1 == ds + Fresh(facedDir, imgs[..i + 1], ex)
    ensures c1 == cs + BackupCopies(facedDir, Fresh(facedDir, imgs[..i + 1], ex))
  {
    var made := Fresh(facedDir, imgs[..i], ex);
    FreshStep(facedDir, imgs, ex, i);
    if BackupPath(facedDir, imgs[i]) in e0 {
      assert Fresh(facedDir, imgs[..i + 1], ex) == made + [] == made;
    } else {
      assert Fresh(facedDir, imgs[..i + 1], ex) == made + [imgs[i]];
      CopiesSnoc(facedDir, made, imgs[i]);
      AppendAssoc(ds, made, [imgs[i]]);
      AppendAssoc(cs, BackupCopies(facedDir, made), [(imgs[i], BackupPath(facedDir, imgs[i]))]);
    }
  }

  /**
   * The files `process_image` looks at and changes: the paths that exist,
   * the copies made into the faced directory and the images handed to
   * `pydeface`, in order.
   */
  class Workspace {
    const facedDir: Path
    var existing: set<Path>
    var copies: seq<(Path, Path)>
    var defaced: seq<Path>

    /** Every defaced image has its backup, and no two defaced images share one. */
    ghost predicate Valid()
      reads this
    {
      (forall i :: 0 <= i < |defaced| ==> BackupPath(facedDir, defaced[i]) in existing) &&
      (forall i, j :: 0 <= i < j < |defaced| ==>
        BackupPath(facedDir, defaced[i]) != BackupPath(facedDir, defaced[j]))
    }

    constructor(facedDir: Path, existing: set<Path>)
      ensures this.facedDir == facedDir && this.existing == existing
      ensures copies == [] && defaced == []
      ensures Valid()
    {
      this.facedDir := facedDir;
      this.existing := existing;
      copies := [];
      defaced := [];
    }

    /**
     * `process_image`: skip an image whose backup exists; otherwise copy it
     * to its backup and deface it, or, in a dry run, change nothing.
     */
    method ProcessImage(img: Path, dryRun: bool)
      requires Valid()
      modifies this
      ensures Valid()
      ensures var dest := BackupPath(facedDir, img);
        if dest in old(existing) || dryRun then
          existing == old(existing) && copies == old(copies) && defaced == old(defaced)
        else
          existing == old(existing) + {dest} && copies == old(copies) + [(img, dest)] &&
          defaced == old(defaced) + [img]
    {
      var dest := BackupPath(facedDir, img);
      if dest in existing {
        return;
      }
      if !dryRun {
        existing := existing + {dest};
        copies := copies + [(img, dest)];
        defaced := defaced + [img];
      }
    }

    /**
     * The images of one subject, one after the other: a dry run changes
     * nothing; otherwise every image gets its backup, and exactly the images
     * whose backup neither existed nor was made for an earlier image are
     * copied and defaced, in order.
     */
    method ProcessImages(imgs: seq<Path>, dryRun: bool)
      requires Valid()
      modifies this
      ensures Valid()
      ensures dryRun ==> existing == old(existing) && copies == old(copies) && defaced == old(defaced)
      ensures !dryRun ==> existing == old(existing) + Backups(facedDir, imgs)
      ensures !dryRun ==> defaced == old(defaced) + Fresh(facedDir, imgs, old(existing))
      ensures !dryRun ==> copies == old(copies) + BackupCopies(facedDir, Fresh(facedDir, imgs, old(existing)))
      ensures !dryRun ==> forall img :: img in imgs ==> BackupPath(facedDir, img) in existing
    {
      for i := 0 to |imgs|
        invariant Valid()
        invariant dryRun ==> existing == old(existing) && copies == old(copies) && defaced == old(defaced)
        invariant !dryRun ==> existing == old(existing) + Backups(facedDir, imgs[..i])
        invariant !dryRun ==> defaced == old(defaced) + Fresh(facedDir, imgs[..i], old(existing))
        invariant !dryRun ==> copies == old(copies) + BackupCopies(facedDir, Fresh(facedDir, imgs[..i], old(existing)))
      {
        ghost var existing0, copies0, defaced0 := existing, copies, defaced;
        ProcessImage(imgs[i], dryRun);
        if !dryRun {
          ImagesStep(facedDir, imgs, i, old(existing), old(copies), old(defaced),
            existing0, copies0, defaced0, existing, copies, defaced);
        }
      }
      assert imgs[..|imgs|] == imgs;
      if !dryRun {
        forall img | img in imgs
          ensures BackupPath(facedDir, img) in existing
        {
          BackupsMembers(facedDir, imgs, BackupPath(facedDir, img));
        }
      }
    }
  }

  /**
   * Processing an image twice copies and defaces it at most once: exactly
   * once when its backup did not exist, and not at all otherwise.
   */
  method ProcessTwice(w: Workspace, img: Path)
    requires w.Valid()
    modifies w
    ensures w.Valid()
    ensures BackupPath(w.facedDir, img) in w.existing
    ensures var dest := BackupPath(w.facedDir, img);
      if dest in old(w.existing) then
        w.existing == old(w.existing) && w.copies == old(w.copies) && w.defaced == old(w.defaced)
      else
        w.existing == old(w.existing) + {dest} && w.copies == old(w.copies) + [(img, dest)] &&
        w.defaced == old(w.defaced) + [img]
  {
    w.ProcessImage(img, false);
    ghost var existing, copies, defaced := w.existing, w.copies, w.defaced;
    w.ProcessImage(img, false);
    assert w.existing == existing && w.copies == copies && w.defaced == defaced;
  }
}
