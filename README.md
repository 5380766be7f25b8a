# Verified model of the MRI-Lab-Graz BIDS helper scripts

This project models three pieces of byte and string logic from the
MRI-Lab-Graz data-management scripts in Dafny, and proves properties about
them.

- **`gz_header_cleaner.py`** makes gzip-compressed NIfTI files reproducible for
  BIDS validation. It parses the header of the first gzip member of each
  file, as laid out in section 2.3.1 of RFC 1952, then rewrites that header:
  - MTIME is set to zero;
  - the FNAME string and the FHCRC bytes are dropped;
  - FEXTRA, FCOMMENT and the compressed payload are copied unchanged.

  A sweep visits every `*.gz` file under a directory in sorted order. It
  counts the files checked, cleaned and failed, and replaces each cleaned file
  through a temporary sibling.
- **`BIDScoin_study.py`** reads the bidscoin version from a study's
  `bidsmap.yaml`, which selects the virtual environment to activate. It decodes
  `sub-<study><subjnr>` subject directories against the study's name and keeps
  a `faced_` backup of every image it defaces.
- **`BIDScoin_no_docker.py`** reads the same version. It decodes
  `<study>_<subjnr>` raw directory names, builds each session's staging path,
  and groups the session records by subject. Each group's sessions are
  combined, and the set of studies involved is collected.

## Modules

- `Wrappers` holds `Option` and `Result`.
- `Strings` models Python's `startswith`, `endswith`, `find`, `split` and
  `join` for a non-empty separator, and character counts.
- `Seqs` holds generic facts about sequences, among them `FirstGiven`, the
  scan that stops at the first element giving a value.
- `Paths` models paths as lists of components, the ordering `sorted()` uses
  on `pathlib` paths, and that sort.
- `GzHeader` is the header parser and the header rewrite.
  - The specification functions are `Parse`, `NeedsCleaning` and `Rewritten`.
  - The methods mirror the source's cursor loops: `SkipCString`,
    `ParseGzipHeader`, `PatchFixed`, `CopyRest` and `RewriteHeaderOnly`.
  - A file is its byte sequence. A read past the end yields fewer bytes, as
    a Python file does after an unchecked `seek`.
- `GzSweep` is the directory sweep.
  - The specification functions are `Step`, a fold over the sorted paths
    called `Sweep`, and `Cleaned`.
  - The class `Volume` owns the file system, a map from path to bytes. Its
    methods `CleanFile` and `CleanGzipHeaders` update that map in place.
- `BidsVersion` holds the version scan shared by both scripts:
  - `str.strip`;
  - a leftmost, maximal-run search for `\d+\.\d+\.\d+`;
  - the two ways the scripts split a file into lines;
  - the `get_bidscoin_version` scan;
  - the environment path.
- `BidsStudy` holds the study layout, the subject-name decoder, the `metas`
  loop and the backup bookkeeping of `process_image`.
- `BidsRaw` holds the raw-name decoder, the record loop, the staging paths,
  the grouping, the combined sessions and the unique studies.

## Behaviour worth knowing

- The two scripts do not read `bidsmap.yaml` alike.
  - The study script iterates over the file in text mode, so only `\n`,
    `\r` and `\r\n` end a line.
  - The raw-directory script uses `str.splitlines()`. That also breaks at
    vertical tab, form feed, `\x1c`-`\x1e`, NEL, U+2028 and U+2029.
  - Both are modelled, as `FileBreak` and `SplitLinesBreak`. `SameLines`
    proves that they agree on files without those extra characters.
- The parser does not detect an XLEN that runs past end-of-file, or missing
  FHCRC bytes. The model keeps that: `payloadStart` may lie beyond the end of
  the file, and the copy of the rest is then empty.

## Model

| member | source | states |
|---|---|---|
| `GzHeader.CStringEnd` | gz_header_cleaner.py:42-64 | A C string ends just past the first zero byte at or after its start; there is no end when no zero byte follows |
| `GzHeader.ParseShape` | gz_header_cleaner.py:16-83 | A parse that succeeds keeps bytes 0-9, FLG = byte 3, MTIME = LE uint32 of bytes 4..7; the optional fields lie end to end from offset 10 in RFC 1952 order, each present iff its FLG bit is set; offsets are non-decreasing; `payload_start` is the end of the last present field (FHCRC adds 2) or 10 |
| `GzHeader.ParseErrors` | gz_header_cleaner.py:19-60 | Exactly when each error is raised: fewer than 10 bytes or bad ID1/ID2/CM; FEXTRA set with fewer than 2 XLEN bytes; FNAME set with no zero byte after the extra field; FCOMMENT set with no zero byte after the name |
| `GzHeader.TruncationUndetected` | gz_header_cleaner.py:35-69 | Every header with good magic and neither FNAME nor FCOMMENT parses, with `payload_start` at 12 plus XLEN (or 10 without FEXTRA) plus 2 with FHCRC, whatever the length of the file |
| `GzHeader.TruncationExamples` | gz_header_cleaner.py:35-69 | An XLEN running past end-of-file and missing FHCRC bytes both parse successfully, with `payload_start` beyond the end of the data |
| `GzHeader.LE32Zero` | gz_header_cleaner.py:23 | MTIME is zero exactly when its four bytes are zero |
| `GzHeader.NeedsCleaningExactly` | gz_header_cleaner.py:85-92 | `needs_cleaning` fails exactly when parsing fails; otherwise it reports exactly MTIME bytes non-zero, the FNAME bit and the FHCRC bit, with FLG and MTIME |
| `GzHeader.CleanedFlags` | gz_header_cleaner.py:101-107 | The new FLG clears FNAME and FHCRC, keeps FEXTRA and FCOMMENT, keeps every other bit, and clearing again changes nothing |
| `GzHeader.RewriteFixedHeader` | gz_header_cleaner.py:101-115 | The output starts with the input's bytes 0-2, then `flg & ~FNAME & ~FHCRC`, four zero MTIME bytes, and the input's bytes 8-9 |
| `GzHeader.RewrittenSegs` | gz_header_cleaner.py:117-142 | The output is the new fixed header (built from the input's first 10 bytes and FLG), the input's bytes from 10 to the end of FEXTRA (XLEN included), the FCOMMENT bytes, and every byte from `payload_start` on |
| `GzHeader.RewriteLayout` | gz_header_cleaner.py:117-142 | The input is fixed header + extra + name + comment + FHCRC + rest; the output is the same without the name and FHCRC pieces, so it is shorter by exactly their lengths |
| `GzHeader.ParseRewritten` | gz_header_cleaner.py:94-115 | The output parses again, with the extra field and the comment at their new offsets and no name field |
| `GzHeader.RewriteCleanUnchanged` | gz_header_cleaner.py:94-142 | A header with zero MTIME and neither FNAME nor FHCRC is rewritten to the identical bytes |
| `GzHeader.RewriteIdempotent` | gz_header_cleaner.py:94-112 | Re-parsing the output gives MTIME 0 with FNAME and FHCRC clear, `needs_cleaning` is all false, and rewriting it again yields identical bytes |
| `GzHeader.RewrittenIsClean` | gz_header_cleaner.py:89-92 | The output of a rewrite needs no cleaning |
| `GzHeader.SkipCString` | gz_header_cleaner.py:45-52 | The byte loop stops just past the first zero byte, or reports truncation |
| `GzHeader.ParseGzipHeader` | gz_header_cleaner.py:16-83 | The cursor-advancing parser computes `Parse` |
| `GzHeader.NeedsCleaningOf` | gz_header_cleaner.py:85-92 | `needs_cleaning` computes `NeedsCleaning` |
| `GzHeader.PatchFixed` | gz_header_cleaner.py:110-112 | Patching a copy of the first 10 bytes gives the new fixed header |
| `GzHeader.CopyRest` | gz_header_cleaner.py:135-142 | The chunked copy loop copies every byte from the given offset to end-of-file |
| `GzHeader.RewriteHeaderOnly` | gz_header_cleaner.py:94-142 | The sequential writes produce `Rewritten` |
| `Paths.Sort` | gz_header_cleaner.py:174 | `sorted()` returns a permutation (same multiset) of its input |
| `Paths.SortSorted` | gz_header_cleaner.py:174 | `sorted()` returns its paths in `pathlib` order |
| `Paths.SortPermutes` | gz_header_cleaner.py:174 | The sorted list has the same length and the same members as the input |
| `Paths.PathLeTotal` | gz_header_cleaner.py:174 | Any two paths are ordered one way or the other |
| `Paths.PathLeTransitive` | gz_header_cleaner.py:174 | The path order is transitive |
| `GzSweep.TmpOf` | gz_header_cleaner.py:148 | The temporary file is the sibling whose name is the file's name plus `.tmp` |
| `GzSweep.GzNotTmp` | gz_header_cleaner.py:148 | No `*.gz` path is the temporary file of any path |
| `GzSweep.SweepCounts` | gz_header_cleaner.py:169-207 | `total` is the number of `.gz` files, and `changed + errors <= total` |
| `GzSweep.StepCounts` | gz_header_cleaner.py:175-205 | One file adds one to `total` and at most one to `changed` or `errors`, and no counter decreases |
| `GzSweep.StepFrame` | gz_header_cleaner.py:144-151 | One step touches no path other than the file it checks and that file's temporary sibling |
| `GzSweep.SweepDryRun` | gz_header_cleaner.py:193-195 | A dry run modifies no file and reports `changed = 0` |
| `GzSweep.SweepFrame` | gz_header_cleaner.py:174-205 | A path that is not in the sweep, and is not the temporary file of one, keeps its existence and content |
| `GzSweep.StepContent` | gz_header_cleaner.py:175-205 | One step changes only the visited `.gz` file, to its cleaned content |
| `GzSweep.CleanedIdempotent` | gz_header_cleaner.py:184-201 | Cleaning cleaned content changes nothing |
| `GzSweep.SweepContent` | gz_header_cleaner.py:174-205 | After the sweep, each listed `.gz` file holds its cleaned content, and every other `.gz` file is unchanged |
| `GzSweep.SweepLeavesClean` | gz_header_cleaner.py:184-201 | After a real sweep, every listed, parseable, writable file needs no cleaning |
| `GzSweep.SweepSkipsClean` | gz_header_cleaner.py:184 | A file with MTIME 0 and no FNAME, FHCRC only or not, is left untouched |
| `GzSweep.SweepPrefix` | gz_header_cleaner.py:174-175 | The sweep over one more file is one more step |
| `GzSweep.Volume.NeedsCleaningAt` | gz_header_cleaner.py:176-182 | Checking a path gives its findings, or nothing when it is no file or does not parse |
| `GzSweep.Volume.CleanFile` | gz_header_cleaner.py:144-151 | `clean_file` succeeds iff the file exists, parses and is writable; it then replaces only that file's content with the rewrite (the temporary file is gone); on failure nothing changes |
| `GzSweep.Volume.CleanGzipHeaders` | gz_header_cleaner.py:153-207 | A missing directory fails with nothing changed; otherwise the counts and the new file system are those of the sweep over the sorted `.gz` files, and no files gives (0, 0, 0) |
| `GzSweep.Volume.CheckOne` | gz_header_cleaner.py:175-205 | One loop iteration updates the counters and the files as `Step` does |
| `Strings.Find` | BIDScoin_study.py:22 | A position found is at or after the start and holds an occurrence of the separator |
| `Strings.FindLeftmost` | BIDScoin_study.py:22 | No occurrence lies between the start and the position found, and none lies at or after the start when nothing is found |
| `Strings.SplitJoin` | BIDScoin_no_docker.py:44 | Joining the parts of `split(sep)` with `sep` gives the string back |
| `Strings.SplitPartsFree` | BIDScoin_study.py:103 | No part of `split(sep)` contains `sep` |
| `Strings.SplitCount` | BIDScoin_no_docker.py:44-45 | `split` on a character gives one more part than there are occurrences of it |
| `BidsVersion.SpaceEnd` | BIDScoin_study.py:21 | Leading whitespace ends at the first non-whitespace character at or after the start, or at the end of the text |
| `BidsVersion.SpaceStart` | BIDScoin_study.py:21 | Trailing whitespace starts just after the last non-whitespace character, or at the lower bound |
| `BidsVersion.StripSlice` | BIDScoin_study.py:21-22 | `strip()` returns a slice of its input; everything removed on either side is whitespace, and the result neither starts nor ends with whitespace |
| `BidsVersion.DigitEnd` | BIDScoin_study.py:23 | A `\d+` run extends as far as the digits go |
| `BidsVersion.SearchSpec` | BIDScoin_study.py:23-25 | `re.search` finds nothing iff no position starts a match; otherwise it returns a dotted triple starting at the leftmost matching position, with maximal digit runs |
| `BidsVersion.LinesUnbroken` | BIDScoin_study.py:20 | No line holds a line-end character |
| `BidsVersion.LinesConcat` | BIDScoin_no_docker.py:29 | The lines, laid end to end, are the text without its line-end characters |
| `BidsVersion.LinesAgree` | BIDScoin_no_docker.py:29 | Two line-end sets that agree on every character of the text split it alike |
| `BidsVersion.SameLines` | BIDScoin_no_docker.py:29 | Text without the extra `splitlines()` line ends has the same lines under both scripts |
| `BidsVersion.VersionLineHasColon` | BIDScoin_study.py:21-22 | A line whose stripped form starts with `version:` has a colon, so `split(":", 1)[1]` exists |
| `BidsVersion.LineVersionSpec` | BIDScoin_study.py:21-25 | A line gives a version iff its stripped form starts with `version:` and the stripped text after its first colon holds a match; the version is that leftmost match, a dotted triple |
| `BidsVersion.LineVersionTriple` | BIDScoin_study.py:23-25 | A version a line gives is a dotted triple |
| `Seqs.FirstGivenSpec` | BIDScoin_study.py:20-25 | Scanning a list for the first element that gives a value finds nothing iff no element gives one, and otherwise returns the value of an element before which none gives one |
| `BidsVersion.ScanVersion` | BIDScoin_study.py:20-25 | The loop with early return gives the version of the first line that has one |
| `BidsVersion.VersionInSpec` | BIDScoin_study.py:20-27 | Nothing is found iff no line gives a version; otherwise the result is the version of the first line that gives one, `version:` lines without a triple are skipped, and the result is a dotted triple |
| `BidsVersion.VersionOfTriple` | BIDScoin_no_docker.py:22-37 | A version read from a file comes from a readable file and is a dotted triple |
| `BidsVersion.GetBidscoinVersion` | BIDScoin_study.py:13-30 | A missing or unreadable file gives no version; otherwise the scan of its lines, which is a dotted triple when found (the raw-directory script's copy, BIDScoin_no_docker.py lines 22-37, is the same with `splitlines()` line ends) |
| `BidsVersion.ActivateScriptSpec` | BIDScoin_study.py:65-66 | The activate script is `<bds>/_ENVIRONMENTS/bidscoin_v<version>/env/bin/activate`, and different directories or versions never share one |
| `BidsStudy.LayoutSpec` | BIDScoin_study.py:53-93 | `bds_dir` is the study's parent; `sourcedata` and `rawdata` are children of the study; `bidsmap.yaml` is `rawdata/code/bidscoin/bidsmap.yaml`; the backups lie in `sourcedata/bidsonym/faced`; the activate script is a sibling environment of the study |
| `BidsStudy.SplitAtSub` | BIDScoin_study.py:103 | A name starting with `sub-` splits into at least two parts, so `split('sub-')[1]` exists |
| `BidsStudy.RemainderSpec` | BIDScoin_study.py:103 | The remainder is the text between the leading `sub-` and the next `sub-`, or the end of the name, and holds no `sub-` |
| `BidsStudy.DecodeSpec` | BIDScoin_study.py:99-110 | A name is rejected iff it does not start with `sub-`, or its remainder is shorter than the study name, or it does not start with the study name. An accepted name has study = study name and subjnr = the rest of the remainder. A name with one `sub-` is rebuilt as `"sub-" + study + subjnr` |
| `BidsStudy.ShiftedSub` | BIDScoin_study.py:103 | An occurrence of `sub-` past the prefix of `"sub-" + x` is an occurrence in `x` |
| `BidsStudy.DecodeSubjectName` | BIDScoin_study.py:107 | Decoding `sub-<study><subjnr>` gives back the study and subject number when they hold no `sub-` |
| `BidsStudy.SecondSubCutsRemainder` | BIDScoin_study.py:103-107 | `sub-ABsub-1` is accepted for study `AB` with an empty subject number, whose subject name `sub-AB` is a different directory |
| `BidsStudy.Basenames` | BIDScoin_study.py:112 | The session list holds the base name of each `ses-*` entry, in order |
| `BidsStudy.CollectSubjects` | BIDScoin_study.py:96-117 | The loop builds exactly `Metas` |
| `BidsStudy.MetasAppend` | BIDScoin_study.py:96-117 | `metas` keeps the input order: the entries of two runs of directories follow each other |
| `BidsStudy.MetasSpec` | BIDScoin_study.py:97-117 | `metas` holds exactly the accepted subjects with a non-empty session list; every entry is for the study and has sessions |
| `BidsStudy.SubjectPathSpec` | BIDScoin_study.py:166 | The images of an accepted subject are looked for in the directory it was found as, when its name holds one `sub-` |
| `BidsStudy.BackupPathSpec` | BIDScoin_study.py:146 | A backup lies in the faced directory, and two images share a backup iff their file names are equal |
| `BidsStudy.Workspace.ProcessImage` | BIDScoin_study.py:143-160 | An image whose backup exists is skipped with no copy and no deface, and so is every image in a dry run; otherwise it is copied to `faced_<name>` and then defaced; no two defaced images share a backup |
| `BidsStudy.BackupsMembers` | BIDScoin_study.py:144-146 | A path is among the backups made for a list of images iff it is the backup of one of them |
| `BidsStudy.EarlierBackup` | BIDScoin_study.py:144-149 | An image's backup was already made for an earlier image iff an earlier image has the same file name |
| `BidsStudy.FreshMembers` | BIDScoin_study.py:144-160 | An image is copied and defaced iff, at some position, no earlier image has its file name and its backup did not exist beforehand |
| `BidsStudy.Workspace.ProcessImages` | BIDScoin_study.py:143-187 | A dry run changes nothing; otherwise the existing paths grow by exactly the backups of the images, and the images copied and defaced are exactly, in order, those whose backup neither existed nor was made for an earlier image of the same name |
| `BidsStudy.ProcessTwice` | BIDScoin_study.py:143-160 | Processing an image twice copies and defaces it exactly once when its backup was missing and not at all otherwise |
| `BidsRaw.FirstUnderscore` | BIDScoin_no_docker.py:83 | In `study + "_" + subjnr` with a `_`-free study, the first `_` follows the study |
| `BidsRaw.UnderscoreJoinInjective` | BIDScoin_no_docker.py:83 | Two keys `study_subjnr` with `_`-free studies are equal iff both their halves are |
| `BidsRaw.DecodeRawNameSpec` | BIDScoin_no_docker.py:43-48 | A basename is accepted iff it holds exactly one `_`; then `study + "_" + subjnr` is the basename and neither part holds `_` |
| `BidsRaw.DecodeRawNameInverse` | BIDScoin_no_docker.py:44-48 | Two `_`-free parts joined by `_` decode to themselves |
| `BidsRaw.YamlPathAgrees` | BIDScoin_no_docker.py:49 | Both scripts look for a study's `bidsmap.yaml` in the same place |
| `BidsRaw.RecordOfSpec` | BIDScoin_no_docker.py:43-60 | A directory is dropped iff its name is invalid, its study has no version, or its listing is empty. A kept record carries the name's two parts, the version (a dotted triple) and the first listed entry |
| `BidsRaw.CollectRaw` | BIDScoin_no_docker.py:41-60 | The loop builds exactly `Records` |
| `BidsRaw.RecordsAppend` | BIDScoin_no_docker.py:41-60 | Records keep the input order |
| `BidsRaw.RecordsSpec` | BIDScoin_no_docker.py:42-60 | The records are exactly those the directories give |
| `BidsRaw.RecordsConsistent` | BIDScoin_no_docker.py:48-59 | Every record's study holds no `_` and the record carries that study's version |
| `BidsRaw.StagingPathSpec` | BIDScoin_no_docker.py:68 | The staging path is `bds_dir/study/sourcedata/sub-<study>_<subjnr>/<ses>`; two records share one iff they agree on study, subject number and session |
| `BidsRaw.SubLabelSpec` | BIDScoin_no_docker.py:101-102 | `sub_label` has the `_` that `sub_dir` lacks, so the two always differ; `sub_dir` decodes under the study script to the same subject when `sub-` does not occur in it |
| `BidsRaw.GroupByKey` | BIDScoin_no_docker.py:80-84 | The dictionary's keys, in insertion order, are `Keys`; each key maps to its `Group` |
| `BidsRaw.GroupAppend` | BIDScoin_no_docker.py:80-84 | Records keep their original order within a group |
| `BidsRaw.GroupSpec` | BIDScoin_no_docker.py:80-84 | A group holds exactly the records with its key |
| `BidsRaw.First` | BIDScoin_no_docker.py:80-84 | The index of the first record with a key |
| `BidsRaw.KeysSpec` | BIDScoin_no_docker.py:80-84 | The keys are those of the records, each once, ordered by first appearance |
| `BidsRaw.GroupsPartition` | BIDScoin_no_docker.py:80-84 | Every record lands in exactly one group: the group sizes add up to the number of records |
| `BidsRaw.GroupUniform` | BIDScoin_no_docker.py:83-87 | All records of a group share study, subject number and version |
| `BidsRaw.SessionsSpec` | BIDScoin_no_docker.py:88 | The combined sessions are exactly the records' sessions with duplicates removed, no more than the records |
| `BidsRaw.CombinedSpec` | BIDScoin_no_docker.py:87-88 | The copy of a group's first record agrees with every record of the group, and holds each record's session |
| `BidsRaw.UniqueStudiesSpec` | BIDScoin_no_docker.py:148 | `unique_studies` is the set of the records' studies |
| `BidsRaw.StudyOfGroup` | BIDScoin_no_docker.py:148 | A record's study is that of the first record of its group |

## Left out

- `server.py`: Flask routes, Socket.IO, threads and port probing. It is UI and network glue.
- The bulk-conversion shell pipeline `bids2datalad.sh` is not part of this model.
- External processes and prompts are left out: `bidscoiner`, `pydeface`, `chown`, `cp`, `adjust_json.sh`, `subprocess.run` and `input()`.
  - A deface appears only as the image being appended to the defaced list.
  - A `pydeface` failure, which the study script catches and prints, is not distinguished from a success.
- Concurrency is left out: the `ThreadPoolExecutor` that processes a subject's images is modelled as a sequential loop. Interleavings are not modelled.
- File-system enumeration enters as given sequences, in the order the caller supplies: `rglob("*.gz")`, `glob("sub-*")`, `glob("ses-*")`, the anatomical image globs and the raw-directory glob. So does `os.listdir(path)`, whose first entry is the session.
- The existence of the directory to sweep enters as an input. So do the readable or missing state of a `bidsmap.yaml`, and which files can be written.
  - Any failure while writing, and any other exception, is not modelled.
  - A temporary file left behind by a failed write is not modelled.
- A read error partway through `bidsmap.yaml` is treated as if the whole file were unreadable (no version).
- Parsing always starts at offset 0 of the file. The `start` and `after_fixed` offsets are therefore constant, and are not stored.
- The DEFLATE payload, the CRC32/ISIZE trailer and any later gzip members are copied as opaque bytes. No CRC is computed.
- Only ASCII digits count as `\d`. Python's `re` with Unicode strings also accepts other decimal digits.
- Paths are lists of components. `Path.resolve()`, `os.path.join` formatting and text encodings are not modelled.
- All printing and verbosity are left out. This includes the dry-run listings, whose backup check is the same as `process_image`'s, and the print-only defacing listing of the raw-directory script.
- The control flow of the scripts' `main` sections is not modelled as a whole. This covers:
  - aborting on a missing version or environment;
  - running `bidscoiner`;
  - the copy and `chown` loops;
  - the JSON adjustment loop.

  Their paths are covered by the path lemmas above.
- The defacing section of the raw-directory script (lines 180-242) is left out.
- The order of the combined session list is left out. `list(set(...))` gives an arbitrary order, so the sessions are modelled as a set.
