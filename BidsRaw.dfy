/**
 * The raw-directory BIDScoin script: decoding `<study>_<subjnr>` directory
 * names, the session record kept for each, the staging path of a session,
 * and the grouping of records by subject with their sessions combined.
 */
module BidsRaw {
  import opened Wrappers
  import opened Strings
  import opened Paths
  import opened Seqs
  import opened BidsVersion
  import BidsStudy

  /** `params['bds_dir']`. */
  const BdsDir: Path := ["data", "local", "BIDSCOINER"]

  // ---------------------------------------------------------------- directory names

  datatype RawName = RawName(study: string, subjnr: string)

  /** `file_name.split('_')`, kept only when it has exactly two parts. */
  function DecodeRawName(name: string): Option<RawName> {
    var parts := Split(name, "_");
    if |parts| != 2 then None else Some(RawName(parts[0], parts[1]))
  }

  /** In `a + "_" + b` with no `_` in `a`, the first `_` is the one after `a`. */
  lemma FirstUnderscore(a: string, b: string)
    requires '_' !in a
    ensures (a + "_" + b)[|a|] == '_'
    ensures forall i :: 0 <= i < |a| ==> (a + "_" + b)[i] != '_'
  {
    var x := a + "_" + b;
    forall i | 0 <= i < |a| ensures x[i] != '_' {
      assert x[i] == a[i];
    }
  }

  /** Two `_`-joined strings whose first halves hold no `_` are equal only when both halves are. */
  lemma UnderscoreJoinInjective(a: string, b: string, c: string, d: string)
    requires '_' !in a && '_' !in c
    ensures a + "_" + b == c + "_" + d <==> a == c && b == d
  {
    var x, y := a + "_" + b, c + "_" + d;
    if x == y {
      FirstUnderscore(a, b);
      FirstUnderscore(c, d);
      assert |a| == |c|;
      assert a == x[..|a|] && c == y[..|c|];
      assert b == x[|a| + 1..] && d == y[|c| + 1..];
    }
  }

  /**
   * A name is accepted exactly when it holds one `_`; its two parts then
   * hold none and joined by `_` give the name back.
   */
  lemma DecodeRawNameSpec(name: string)
    ensures DecodeRawName(name).Some? <==> Count(name, '_') == 1
    ensures DecodeRawName(name).Some? ==>
      var n := DecodeRawName(name).value;
      n.study + "_" + n.subjnr == name && '_' !in n.study && '_' !in n.subjnr
  {
    SplitCount(name, '_');
    var parts := Split(name, "_");
    assert [('_')] == "_";
    if |parts| == 2 {
      SplitJoin(name, "_");
      assert Join(parts, "_") == parts[0] + "_" + Join(parts[1..], "_");
      SplitPartsFree(name, "_");
      ContainsChar(parts[0], '_');
      ContainsChar(parts[1], '_');
      assert parts[0] in parts && parts[1] in parts;
    }
  }

  /** Joining two `_`-free parts and decoding gives them back. */
  lemma DecodeRawNameInverse(study: string, subjnr: string)
    requires '_' !in study && '_' !in subjnr
    ensures DecodeRawName(study + "_" + subjnr) == Some(RawName(study, subjnr))
  {
    var name := study + "_" + subjnr;
    CountConcat(study + "_", subjnr, '_');
    CountConcat(study, "_", '_');
    CountAbsent(study, '_');
    CountAbsent(subjnr, '_');
    assert Count("_", '_') == 1 by { assert "_"[1..] == []; }
    assert Count(name, '_') == 1;
    DecodeRawNameSpec(name);
    var n := DecodeRawName(name).value;
    UnderscoreJoinInjective(n.study, n.subjnr, study, subjnr);
  }

  // ---------------------------------------------------------------- records

  /** `<bds_dir>/<study>/rawdata/code/bidscoin/bidsmap.yaml`. */
  function YamlPath(study: string): Path {
    BdsDir + [study, "rawdata", "code", "bidscoin", "bidsmap.yaml"]
  }

  /** Both scripts look for a study's `bidsmap.yaml` in the same place. */
  lemma YamlPathAgrees(study: string)
    ensures YamlPath(study) == BidsStudy.LayoutOf(BdsDir + [study]).bidsmap
  {
  }

  /** A raw session directory found by the glob, with the entries `os.listdir` gives for it, in its order. */
  datatype RawEntry = RawEntry(path: Path, listing: seq<string>)

  /** What `metas` keeps for one raw directory. */
  datatype Record = Record(study: string, subjnr: string, version: string, ses: string, path: Path)

  /** The `bidsmap.yaml` files: a path not in the map does not exist. */
  type YamlFiles = map<Path, YamlFile>

  function YamlAt(yamls: YamlFiles, p: Path): YamlFile {
    if p in yamls then yamls[p] else Missing
  }

  /** The version of a study, read with `splitlines()`. */
  function StudyVersion(yamls: YamlFiles, study: string): Option<string> {
    VersionOf(YamlAt(yamls, YamlPath(study)), SplitLinesBreak)
  }

  /** The record one raw directory contributes, if any (lines 43-60). */
  function RecordOf(e: RawEntry, yamls: YamlFiles): Option<Record> {
    match DecodeRawName(Basename(e.path))
    case None => None
    case Some(n) =>
      match StudyVersion(yamls, n.study)
      case None => None
      case Some(v) => if e.listing == [] then None else Some(Record(n.study, n.subjnr, v, e.listing[0], e.path))
  }

  /**
   * A directory gives a record exactly when its name holds one `_`, its
   * study has a version and its listing is not empty; the record carries
   * the two parts of the name, that version (a dotted triple) and the first
   * listed entry.
   */
  lemma RecordOfSpec(e: RawEntry, yamls: YamlFiles)
    ensures RecordOf(e, yamls).Some? <==>
      Count(Basename(e.path), '_') == 1 &&
      var n := DecodeRawName(Basename(e.path));
      n.Some? && StudyVersion(yamls, n.value.study).Some? && e.listing != []
    ensures RecordOf(e, yamls).Some? ==>
      var r := RecordOf(e, yamls).value;
      r.study + "_" + r.subjnr == Basename(e.path) && '_' !in r.study && '_' !in r.subjnr &&
      StudyVersion(yamls, r.study) == Some(r.version) && IsTriple(r.version) &&
      r.ses == e.listing[0] && r.path == e.path
  {
    DecodeRawNameSpec(Basename(e.path));
    if RecordOf(e, yamls).Some? {
      var r := RecordOf(e, yamls).value;
      VersionOfTriple(YamlAt(yamls, YamlPath(r.study)), SplitLinesBreak);
    }
  }

  /** What one directory appends to `metas`. */
  function Emitted(e: RawEntry, yamls: YamlFiles): seq<Record> {
    match RecordOf(e, yamls)
    case Some(r) => [r]
    case None => []
  }

  /** `metas` after the loop over `entries`. */
  function Records(entries: seq<RawEntry>, yamls: YamlFiles): seq<Record> {
    if entries == [] then [] else Records(entries[..|entries| - 1], yamls) + Emitted(entries[|entries| - 1], yamls)
  }

  /** The loop of lines 41-60. */
  method CollectRaw(entries: seq<RawEntry>, yamls: YamlFiles) returns (metas: seq<Record>)
    ensures metas == Records(entries, yamls)
  {
    metas := [];
    for i := 0 to |entries|
      invariant metas == Records(entries[..i], yamls)
    {
      assert entries[..i + 1][..i] == entries[..i];
      var e := entries[i];
      var name := DecodeRawName(Basename(e.path));
      if name.None? {
        continue;
      }
      var study, subjnr := name.value.study, name.value.subjnr;
      var version := GetBidscoinVersion(YamlAt(yamls, YamlPath(study)), SplitLinesBreak);
      if version.None? {
        continue;
      }
      if |e.listing| == 0 {
        continue;
      }
      var ses := e.listing[0];
      metas := metas + [Record(study, subjnr, version.value, ses, e.path)];
    }
    assert entries[..|entries|] == entries;
  }

  /** The records of two runs of directories follow each other: input order is kept. */
  lemma {:induction false} RecordsAppend(a: seq<RawEntry>, b: seq<RawEntry>, yamls: YamlFiles)
    ensures Records(a + b, yamls) == Records(a, yamls) + Records(b, yamls)
    decreases |b|
  {
    if b == [] {
      assert a + b == a;
    } else {
      var init, last := b[..|b| - 1], b[|b| - 1];
      assert b == init + [last];
      assert a + b == (a + init) + [last];
      RecordsSnoc(a + init, last, yamls);
      RecordsSnoc(init, last, yamls);
      RecordsAppend(a, init, yamls);
      AppendAssoc(Records(a, yamls), Records(init, yamls), Emitted(last, yamls));
    }
  }

  /** One more directory adds its own record, if any, at the end. */
  lemma RecordsSnoc(entries: seq<RawEntry>, e: RawEntry, yamls: YamlFiles)
    ensures Records(entries + [e], yamls) == Records(entries, yamls) + Emitted(e, yamls)
  {
    assert (entries + [e])[..|entries|] == entries;
  }

  /** The records are exactly those the directories give. */
  lemma RecordsSpec(entries: seq<RawEntry>, yamls: YamlFiles)
    ensures forall r :: r in Records(entries, yamls) <==>
      exists i | 0 <= i < |entries| :: RecordOf(entries[i], yamls) == Some(r)
    ensures |Records(entries, yamls)| <= |entries|
  {
    RecordsMembers(entries, yamls);
    RecordsLength(entries, yamls);
  }

  lemma {:induction false} RecordsMembers(entries: seq<RawEntry>, yamls: YamlFiles)
    ensures forall r :: r in Records(entries, yamls) <==>
      exists i | 0 <= i < |entries| :: RecordOf(entries[i], yamls) == Some(r)
  {
    if entries != [] {
      var init := entries[..|entries| - 1];
      RecordsMembers(init, yamls);
      forall r ensures r in Records(entries, yamls) <==>
        exists i | 0 <= i < |entries| :: RecordOf(entries[i], yamls) == Some(r)
      {
        GivenByLast(entries, init, e => RecordOf(e, yamls), r);
      }
    }
  }

  lemma {:induction false} RecordsLength(entries: seq<RawEntry>, yamls: YamlFiles)
    ensures |Records(entries, yamls)| <= |entries|
  {
    if entries != [] {
      RecordsLength(entries[..|entries| - 1], yamls);
    }
  }

  /** The records of one study all carry its version, and no study holds `_`. */
  ghost predicate Consistent(rs: seq<Record>, yamls: YamlFiles) {
    forall i :: 0 <= i < |rs| ==> '_' !in rs[i].study && StudyVersion(yamls, rs[i].study) == Some(rs[i].version)
  }

  lemma RecordsConsistent(entries: seq<RawEntry>, yamls: YamlFiles)
    ensures Consistent(Records(entries, yamls), yamls)
  {
    RecordsSpec(entries, yamls);
    var rs := Records(entries, yamls);
    forall i | 0 <= i < |rs|
      ensures '_' !in rs[i].study && StudyVersion(yamls, rs[i].study) == Some(rs[i].version)
    {
      assert rs[i] in rs;
      var j :| 0 <= j < |entries| && RecordOf(entries[j], yamls) == Some(rs[i]);
      RecordOfSpec(entries[j], yamls);
    }
  }

  // ---------------------------------------------------------------- paths

  /** `sub-<study>_<subjnr>`: the participant label handed to bidscoiner. */
  function SubLabel(study: string, subjnr: string): string {
    "sub-" + study + "_" + subjnr
  }

  /** `sub-<study><subjnr>`: the subject directory under `rawdata`. */
  function SubDir(study: string, subjnr: string): string {
    BidsStudy.SubjectName(study, subjnr)
  }

  /** `<bds_dir>/<study>/sourcedata/sub-<study>_<subjnr>/<ses>`. */
  function StagingPath(r: Record): Path {
    BidsStudy.LayoutOf(BdsDir + [r.study]).sourcedata + [SubLabel(r.study, r.subjnr), r.ses]
  }

  /**
   * The staging path lies in the study's `sourcedata`, and two records share
   * one exactly when they agree on study, subject number and session.
   */
  lemma StagingPathSpec(r1: Record, r2: Record)
    ensures StagingPath(r1) == BdsDir + [r1.study, "sourcedata", "sub-" + r1.study + "_" + r1.subjnr, r1.ses]
    ensures StagingPath(r1) == StagingPath(r2) <==>
      r1.study == r2.study && r1.subjnr == r2.subjnr && r1.ses == r2.ses
  {
    var p1, p2 := StagingPath(r1), StagingPath(r2);
    if p1 == p2 {
      assert p1[3] == r1.study && p2[3] == r2.study;
      assert p1[6] == r1.ses && p2[6] == r2.ses;
      var l1, l2 := SubLabel(r1.study, r1.subjnr), SubLabel(r2.study, r2.subjnr);
      assert l1 == p1[5] == p2[5] == l2;
      assert r1.subjnr == l1[|l1| - |r1.subjnr|..];
      assert r2.subjnr == l2[|l2| - |r2.subjnr|..];
    }
  }

  /**
   * The participant label holds the `_` the subject directory lacks: it is
   * one character longer and never names the same directory; and the
   * subject directory decodes, for the single-study script, to the same
   * study and subject number unless `sub-` occurs in them.
   */
  lemma SubLabelSpec(study: string, subjnr: string)
    ensures |SubLabel(study, subjnr)| == |SubDir(study, subjnr)| + 1
    ensures SubLabel(study, subjnr) != SubDir(study, subjnr)
    ensures SubLabel(study, subjnr) == "sub-" + GroupKey(study, subjnr)
    ensures !Contains(study + subjnr, "sub-") ==>
      BidsStudy.Decode(SubDir(study, subjnr), study) == BidsStudy.Accepted(study, subjnr)
  {
    if !Contains(study + subjnr, "sub-") {
      BidsStudy.DecodeSubjectName(study, subjnr);
    }
  }

  // ---------------------------------------------------------------- grouping

  /** The key `<study>_<subjnr>` a record is grouped under. */
  function GroupKey(study: string, subjnr: string): string {
    study + "_" + subjnr
  }

  function Key(r: Record): string {
    GroupKey(r.study, r.subjnr)
  }

  /** The keys in order of first appearance: the order of the `defaultdict`. */
  function Keys(rs: seq<Record>): seq<string> {
    if rs == [] then []
    else
      var ks := Keys(rs[..|rs| - 1]);
      var k := Key(rs[|rs| - 1]);
      if k in ks then ks else ks + [k]
  }

  /** The records grouped under `k`, in their order. */
  function Group(rs: seq<Record>, k: string): seq<Record> {
    if rs == [] then []
    else Group(rs[..|rs| - 1], k) + (if Key(rs[|rs| - 1]) == k then [rs[|rs| - 1]] else [])
  }

  /**
   * The loop of lines 80-84: `keys` lists the keys of the `defaultdict` in
   * insertion order and `groups` maps each to its list.
   */
  method GroupByKey(rs: seq<Record>) returns (keys: seq<string>, groups: map<string, seq<Record>>)
    ensures keys == Keys(rs)
    ensures forall k :: k in groups <==> k in keys
    ensures forall k :: k in groups ==> groups[k] == Group(rs, k)
  {
    keys, groups := [], map[];
    for i := 0 to |rs|
      invariant keys == Keys(rs[..i])
      invariant forall k :: k in groups <==> k in keys
      invariant forall k :: k in groups ==> groups[k] == Group(rs[..i], k)
      invariant forall k :: k !in groups ==> Group(rs[..i], k) == []
    {
      var pre := rs[..i + 1];
      assert pre[..i] == rs[..i] && pre[i] == rs[i];
      var key := Key(rs[i]);
      if key !in groups {
        keys := keys + [key];
        groups := groups[key := []];
      }
      groups := groups[key := groups[key] + [rs[i]]];
      forall k ensures k in groups ==> groups[k] == Group(pre, k)
        ensures k !in groups ==> Group(pre, k) == []
      {
        assert Group(pre, k) == Group(rs[..i], k) + (if key == k then [rs[i]] else []);
      }
    }
    assert rs[..|rs|] == rs;
  }

  /** The grouping is kept in pieces: records keep their order within a group. */
  lemma {:induction false} GroupAppend(a: seq<Record>, b: seq<Record>, k: string)
    ensures Group(a + b, k) == Group(a, k) + Group(b, k)
    decreases |b|
  {
    if b == [] {
      assert a + b == a;
    } else {
      var init, last := b[..|b| - 1], b[|b| - 1];
      assert b == init + [last];
      assert a + b == (a + init) + [last];
      GroupSnoc(a + init, last, k);
      GroupSnoc(init, last, k);
      GroupAppend(a, init, k);
      AppendAssoc(Group(a, k), Group(init, k), if Key(last) == k then [last] else []);
    }
  }

  /** One more record joins the end of its own group only. */
  lemma GroupSnoc(rs: seq<Record>, r: Record, k: string)
    ensures Group(rs + [r], k) == Group(rs, k) + (if Key(r) == k then [r] else [])
  {
    assert (rs + [r])[..|rs|] == rs;
  }

  /** A group holds exactly the records with its key. */
  lemma {:induction false} GroupSpec(rs: seq<Record>, k: string)
    ensures forall r :: r in Group(rs, k) <==> r in rs && Key(r) == k
    ensures |Group(rs, k)| <= |rs|
  {
    if rs != [] {
      GroupSpec(rs[..|rs| - 1], k);
      assert rs == rs[..|rs| - 1] + [rs[|rs| - 1]];
    }
  }

  /**
   * The keys are those of the records, each once, in the order of their
   * first records.
   */
  lemma KeysSpec(rs: seq<Record>)
    ensures forall k :: k in Keys(rs) <==> exists r :: r in rs && Key(r) == k
    ensures forall i, j :: 0 <= i < j < |Keys(rs)| ==> Keys(rs)[i] != Keys(rs)[j]
    ensures forall i, j :: 0 <= i < j < |Keys(rs)| ==> First(rs, Keys(rs)[i]) < First(rs, Keys(rs)[j])
  {
    KeysMembers(rs);
    KeysDistinct(rs);
    KeysOrdered(rs);
  }

  lemma {:induction false} KeysMembers(rs: seq<Record>)
    ensures forall k :: k in Keys(rs) <==> exists r :: r in rs && Key(r) == k
  {
    if rs != [] {
      var init, last := rs[..|rs| - 1], rs[|rs| - 1];
      KeysMembers(init);
      assert rs == init + [last];
      assert forall r :: r in rs <==> r in init || r == last;
    }
  }

  lemma {:induction false} KeysDistinct(rs: seq<Record>)
    ensures forall i, j :: 0 <= i < j < |Keys(rs)| ==> Keys(rs)[i] != Keys(rs)[j]
  {
    if rs != [] {
      KeysDistinct(rs[..|rs| - 1]);
    }
  }

  lemma {:induction false} KeysOrdered(rs: seq<Record>)
    ensures forall i, j :: 0 <= i < j < |Keys(rs)| ==> First(rs, Keys(rs)[i]) < First(rs, Keys(rs)[j])
  {
    if rs != [] {
      var init, last := rs[..|rs| - 1], rs[|rs| - 1];
      KeysOrdered(init);
      KeysMembers(init);
      assert rs == init + [last];
      forall i, j | 0 <= i < j < |Keys(rs)| ensures First(rs, Keys(rs)[i]) < First(rs, Keys(rs)[j]) {
        KeysOrderedStep(init, last, i, j);
      }
    }
  }

  /** Two keys keep their order when a record is added. */
  lemma KeysOrderedStep(init: seq<Record>, last: Record, i: nat, j: nat)
    requires i < j < |Keys(init + [last])|
    requires forall i, j :: 0 <= i < j < |Keys(init)| ==> First(init, Keys(init)[i]) < First(init, Keys(init)[j])
    requires forall k :: k in Keys(init) <==> exists r :: r in init && Key(r) == k
    ensures First(init + [last], Keys(init + [last])[i]) < First(init + [last], Keys(init + [last])[j])
  {
    var rs := init + [last];
    var pre, ks := Keys(init), Keys(rs);
    KeysSnoc(init, last);
    assert ks[i] == pre[i] && pre[i] in pre;
    FirstPrefix(init, last, pre[i]);
    if j < |pre| {
      assert ks[j] == pre[j] && pre[j] in pre;
      FirstPrefix(init, last, pre[j]);
    } else {
      assert ks == pre + [Key(last)];
      FirstLast(init, last);
      FirstBound(init, pre[i]);
    }
  }

  /** A record adds its key at the end, unless the key is already there. */
  lemma KeysSnoc(init: seq<Record>, last: Record)
    ensures Keys(init + [last]) == if Key(last) in Keys(init) then Keys(init) else Keys(init) + [Key(last)]
  {
    assert (init + [last])[..|init|] == init;
  }

  /** The index of the first record with key `k`, or the number of records. */
  function First(rs: seq<Record>, k: string): (i: nat)
    ensures i <= |rs|
    ensures i < |rs| ==> Key(rs[i]) == k
    ensures forall j :: 0 <= j < i ==> Key(rs[j]) != k
  {
    if rs == [] then 0 else if Key(rs[0]) == k then 0 else 1 + First(rs[1..], k)
  }

  lemma FirstBound(rs: seq<Record>, k: string)
    requires exists r :: r in rs && Key(r) == k
    ensures First(rs, k) < |rs|
  {
    var r :| r in rs && Key(r) == k;
    var j :| 0 <= j < |rs| && rs[j] == r;
  }

  lemma FirstPrefix(rs: seq<Record>, last: Record, k: string)
    requires exists r :: r in rs && Key(r) == k
    ensures First(rs + [last], k) == First(rs, k)
  {
    FirstBound(rs, k);
    FirstAt(rs + [last], k, First(rs, k));
  }

  lemma FirstLast(rs: seq<Record>, last: Record)
    requires forall r :: r in rs ==> Key(r) != Key(last)
    ensures First(rs + [last], Key(last)) == |rs|
  {
    var s := rs + [last];
    forall j | 0 <= j < |rs| ensures Key(s[j]) != Key(last) {
      assert s[j] == rs[j] && rs[j] in rs;
    }
    FirstAt(s, Key(last), |rs|);
  }

  /** `First` is the index of a record with the key before which none has it. */
  lemma {:induction false} FirstAt(rs: seq<Record>, k: string, i: nat)
    requires i < |rs| && Key(rs[i]) == k
    requires forall j :: 0 <= j < i ==> Key(rs[j]) != k
    ensures First(rs, k) == i
  {
    if i > 0 {
      assert Key(rs[0]) != k;
      forall j | 0 <= j < i - 1 ensures Key(rs[1..][j]) != k {
        assert rs[1..][j] == rs[j + 1];
      }
      FirstAt(rs[1..], k, i - 1);
    }
  }

  /** The sizes of the groups under `ks`, added up. */
  function GroupSizes(rs: seq<Record>, ks: seq<string>): nat {
    if ks == [] then 0 else GroupSizes(rs, ks[..|ks| - 1]) + |Group(rs, ks[|ks| - 1])|
  }

  lemma {:induction false} GroupSizesStep(init: seq<Record>, last: Record, ks: seq<string>)
    requires forall i, j :: 0 <= i < j < |ks| ==> ks[i] != ks[j]
    ensures GroupSizes(init + [last], ks) == GroupSizes(init, ks) + (if Key(last) in ks then 1 else 0)
  {
    if ks != [] {
      var pre := ks[..|ks| - 1];
      GroupSizesStep(init, last, pre);
      var rs := init + [last];
      assert rs[..|rs| - 1] == init;
      assert Key(last) in ks <==> Key(last) in pre || Key(last) == ks[|ks| - 1];
      assert Key(last) in pre ==> Key(last) != ks[|ks| - 1];
    }
  }

  /** Every record lands in exactly one group: the group sizes add up to the number of records. */
  lemma {:induction false} GroupsPartition(rs: seq<Record>)
    ensures GroupSizes(rs, Keys(rs)) == |rs|
  {
    if rs != [] {
      var init, last := rs[..|rs| - 1], rs[|rs| - 1];
      assert rs == init + [last];
      GroupsPartition(init);
      KeysSpec(init);
      GroupSizesStep(init, last, Keys(init));
      if Key(last) !in Keys(init) {
        NewKey(init, last);
      }
    }
  }

  /** A key first seen in the last record adds a group of one. */
  lemma NewKey(init: seq<Record>, last: Record)
    requires Key(last) !in Keys(init)
    ensures GroupSizes(init + [last], Keys(init + [last])) ==
      GroupSizes(init + [last], Keys(init)) + 1
  {
    var rs := init + [last];
    assert rs[..|rs| - 1] == init && rs[|rs| - 1] == last;
    var ks := Keys(rs);
    assert ks == Keys(init) + [Key(last)];
    assert ks[..|ks| - 1] == Keys(init);
    KeysSpec(init);
    GroupSpec(init, Key(last));
    assert Group(init, Key(last)) == [];
    assert Group(rs, Key(last)) == [last];
  }

  /**
   * In the records of the loop all records of a group share study, subject
   * number and version, so the group's first record stands for all of them.
   */
  lemma GroupUniform(rs: seq<Record>, yamls: YamlFiles, k: string, r1: Record, r2: Record)
    requires Consistent(rs, yamls)
    requires r1 in Group(rs, k) && r2 in Group(rs, k)
    ensures r1.study == r2.study && r1.subjnr == r2.subjnr && r1.version == r2.version
  {
    GroupSpec(rs, k);
    var i :| 0 <= i < |rs| && rs[i] == r1;
    var j :| 0 <= j < |rs| && rs[j] == r2;
    UnderscoreJoinInjective(r1.study, r1.subjnr, r2.study, r2.subjnr);
  }

  // ---------------------------------------------------------------- combined sessions and studies

  /** `combined_meta`: the group's first record with the set of its sessions. */
  datatype Combined = Combined(study: string, subjnr: string, version: string, sessions: set<string>)

  function Sessions(group: seq<Record>): set<string> {
    set r | r in group :: r.ses
  }

  function CombinedOf(group: seq<Record>): Combined
    requires group != []
  {
    Combined(group[0].study, group[0].subjnr, group[0].version, Sessions(group))
  }

  /** The sessions of a group, with duplicates removed, are no more than its records. */
  lemma {:induction false} SessionsSpec(group: seq<Record>)
    ensures forall s :: s in Sessions(group) <==> exists i | 0 <= i < |group| :: group[i].ses == s
    ensures |Sessions(group)| <= |group|
  {
    if group != [] {
      var init, last := group[..|group| - 1], group[|group| - 1];
      SessionsSpec(init);
      assert group == init + [last];
      assert Sessions(group) == Sessions(init) + {last.ses};
      forall s | s in Sessions(group) ensures exists i | 0 <= i < |group| :: group[i].ses == s {
        if s in Sessions(init) {
          var i :| 0 <= i < |init| && init[i].ses == s;
          assert group[i] == init[i];
        } else {
          assert group[|group| - 1].ses == s;
        }
      }
      forall s | exists i | 0 <= i < |group| :: group[i].ses == s ensures s in Sessions(group) {
        var i :| 0 <= i < |group| && group[i].ses == s;
        assert group[i] in group;
      }
    }
  }

  /**
   * The combined entry of a group agrees with every record of the group on
   * study, subject number and version, and holds each record's session.
   */
  lemma CombinedSpec(rs: seq<Record>, yamls: YamlFiles, k: string)
    requires Consistent(rs, yamls) && Group(rs, k) != []
    ensures var c := CombinedOf(Group(rs, k));
      forall r :: r in Group(rs, k) ==>
        r.study == c.study && r.subjnr == c.subjnr && r.version == c.version && r.ses in c.sessions
  {
    var g := Group(rs, k);
    forall r | r in g ensures r.study == g[0].study && r.subjnr == g[0].subjnr && r.version == g[0].version {
      GroupUniform(rs, yamls, k, r, g[0]);
    }
  }

  /** `unique_studies`: the studies of the groups' first records. */
  function UniqueStudies(keys: seq<string>, groups: map<string, seq<Record>>): set<string>
    requires forall k :: k in keys ==> k in groups && groups[k] != []
  {
    set k | k in keys :: groups[k][0].study
  }

  /** The unique studies of the grouping are the studies of the records. */
  lemma UniqueStudiesSpec(rs: seq<Record>, yamls: YamlFiles, keys: seq<string>, groups: map<string, seq<Record>>)
    requires Consistent(rs, yamls)
    requires keys == Keys(rs)
    requires forall k :: k in groups <==> k in keys
    requires forall k :: k in groups ==> groups[k] == Group(rs, k)
    ensures forall k :: k in keys ==> k in groups && groups[k] != []
    ensures UniqueStudies(keys, groups) == set r | r in rs :: r.study
  {
    GroupsNonEmpty(rs, keys, groups);
    StudiesOfGroups(rs, keys, groups);
    GroupsCoverStudies(rs, yamls, keys, groups);
  }

  lemma StudiesOfGroups(rs: seq<Record>, keys: seq<string>, groups: map<string, seq<Record>>)
    requires forall k :: k in keys ==> k in groups && groups[k] != []
    requires forall k :: k in groups ==> groups[k] == Group(rs, k)
    ensures UniqueStudies(keys, groups) <= set r | r in rs :: r.study
  {
    forall s | s in UniqueStudies(keys, groups) ensures s in set r | r in rs :: r.study {
      var k :| k in keys && groups[k][0].study == s;
      GroupSpec(rs, k);
      assert groups[k][0] in rs;
    }
  }

  lemma GroupsCoverStudies(rs: seq<Record>, yamls: YamlFiles, keys: seq<string>, groups: map<string, seq<Record>>)
    requires Consistent(rs, yamls)
    requires keys == Keys(rs)
    requires forall k :: k in keys ==> k in groups && groups[k] != []
    requires forall k :: k in groups ==> groups[k] == Group(rs, k)
    ensures (set r | r in rs :: r.study) <= UniqueStudies(keys, groups)
  {
    KeysMembers(rs);
    forall r | r in rs ensures r.study in UniqueStudies(keys, groups) {
      StudyOfGroup(rs, yamls, r);
      var k := Key(r);
      assert k in keys && groups[k][0].study == r.study;
    }
  }

  /** Every key of the grouping has a group, and no group is empty. */
  lemma GroupsNonEmpty(rs: seq<Record>, keys: seq<string>, groups: map<string, seq<Record>>)
    requires keys == Keys(rs)
    requires forall k :: k in groups <==> k in keys
    requires forall k :: k in groups ==> groups[k] == Group(rs, k)
    ensures forall k :: k in keys ==> k in groups && groups[k] != []
  {
    KeysMembers(rs);
    forall k | k in keys ensures k in groups && groups[k] != [] {
      var r :| r in rs && Key(r) == k;
      GroupSpec(rs, k);
      assert r in groups[k];
    }
  }

  /** A record's study is that of the first record of its group. */
  lemma StudyOfGroup(rs: seq<Record>, yamls: YamlFiles, r: Record)
    requires Consistent(rs, yamls) && r in rs
    ensures Group(rs, Key(r)) != [] && Group(rs, Key(r))[0].study == r.study
  {
    var g := Group(rs, Key(r));
    GroupSpec(rs, Key(r));
    assert r in g && g[0] in g;
    GroupUniform(rs, yamls, Key(r), r, g[0]);
  }
}
