# osx_verify: the snapshot and comparison engine, in Dafny

`osx_verify` checks the integrity of an installed file tree (an application
bundle, an installer) against stored reference snapshots. A scan walks the
tree. For every non-directory name it computes a path relative to the scanned
root. It drops the names that an ignore pattern matches and records the rest
as a `[kind, data, path]` entry:

- `l` and the link target for a symbolic link;
- `f` and the SHA-256 digest for a regular file;
- `o` and the text `None` for anything else.

The entries are sorted by path. The comparison then judges the scan against
every reference in two passes, and each pass applies the *other* side's
ignore list:

- Pass 1 reports a reference entry the scan does not reproduce. The message is
  "is different" when the scan has the path, and "not found in scanned files"
  otherwise.
- Pass 2 reports a scanned entry whose path the reference lacks. It stays
  silent about a path the reference has, on the assumption that pass 1
  reported it. Pass 1 did not when the scan's own ignore list matches that
  path, which only a loaded snapshot can hold; such a change is never
  reported (`Comparator.SelfIgnoredChangeExample`).

The per-reference results are ranked, most messages first.

The model consists of these modules:

- `Wrappers`: `Option` and `Result`.
- `Glob`: `fnmatch.fnmatch` as POSIX Python 2 performs it. A tokeniser mirrors
  `fnmatch.translate`:
  - `*` and `?`;
  - bracket classes, where a leading `!` negates and a leading `]` is literal;
  - an unclosed `[` stands for itself.

  A matcher applies the tokens to the whole name.
- `Paths`: the string arithmetic of the relative name. It covers
  `str.split('/')`, `'/'.join`, the two-argument `posixpath.join`, and
  `os.path.join(*parts)`. It also holds the number of leading components
  dropped for a root, both as the code computes it and as corrected.
- `Snapshots`: the entry and snapshot records, `isignored`,
  `find_by_filename`, the path order and the sort by path.
- `Traverser`: `traverse` as two nested loops over the walk, which is given
  as data. It also holds the scan step that sorts the result and labels it.
  Specification functions (`Flatten`, `ScanLeaves`, `TraverseSpec`) state
  what the loops compute, and lemmas state what that result contains.
- `Comparator`: the two passes as one method each, the loop over the
  database, and the ranking. Specification functions (`Pass1`, `Pass2`,
  `Discrepancies`) back lemmas about which messages arise and how many.

Three behaviours of the code are kept as they are:

- **Other nodes carry "None".** A node that is neither a link nor a regular
  file is recorded with the text `None`, because the code stores
  `unicode(None)` (osx_verify.py:72-74).
- **Ties keep dictionary order.** References with equal message counts stay
  in dictionary order, because the sort key is the count alone
  (osx_verify.py:220). The model fixes no order among equal counts.
- **The root `/` loses a component.** `traverse` drops as many leading
  components as the root splits into (osx_verify.py:54), and `/` splits into
  two. `Traverser.Traverse` computes that depth as the code does, so under `/`
  it shows the behaviour described under Findings. `Paths.RootDepthAgrees`
  shows that the depth is right for every other normalised root.
  `Paths.RelPathUnderRoot` states the corrected behaviour for all roots.

## Model

| member | source | states |
|---|---|---|
| Glob.Translate | osx_verify.py:48 | defines `fnmatch.translate` as tokens: `*`, `?`, a bracket class in which a leading `!` negates and a leading `]` is a member, an unclosed `[` as itself, and any other character as itself; the Glob lemmas below state what the tokens match |
| Glob.FnMatch | osx_verify.py:48 | defines `fnmatch.fnmatch` on POSIX: the tokens of `translate` matched against the whole name |
| Glob.StarMatchesSuffix | osx_verify.py:48 | a `*` followed by the rest of a pattern matches a name exactly when the rest matches some suffix of it, so `*` spans any run of characters, separators included |
| Glob.StarMatchesEverything | osx_verify.py:48 | the pattern `*` matches every name, including names that contain `/` |
| Glob.QuestionMatchesOneChar | osx_verify.py:48 | the pattern `?` matches a name if and only if the name has exactly one character |
| Glob.ClassMatches | osx_verify.py:48 | the class `[c]`, for `c` other than `!`, matches a name if and only if the name is `c` |
| Glob.NegatedClassMatches | osx_verify.py:48 | the class `[!c]` matches a name if and only if the name is one character other than `c`; this holds for `c` = `]` too |
| Glob.RangeMatches | osx_verify.py:48 | the class `[lo-hi]` matches a name if and only if the name is one character between `lo` and `hi` |
| Glob.UnclosedBracketIsLiteral | osx_verify.py:48 | a `[` that no `]` closes matches only the name `[` |
| Glob.LitsMatch | osx_verify.py:48 | a run of literal tokens matches exactly the identical text |
| Glob.LitsStarMatch | osx_verify.py:48 | literal tokens followed by `*` match exactly the names that begin with that text |
| Glob.TranslatePlain | osx_verify.py:48 | characters with no wildcard meaning translate one literal token each |
| Glob.PlainPatternMatchesItself | osx_verify.py:48 | a pattern without `*`, `?` or `[` matches a name if and only if the name equals it, so matching is case-sensitive and applies to the whole name |
| Glob.PrefixStarMatches | osx_verify.py:48 | `prefix*` with a plain prefix matches a name if and only if the name starts with the prefix |
| Paths.PathJoin | osx_verify.py:59 | `os.path.join(root, fn)`: a name that starts with `/` replaces the root |
| Paths.PathJoinKeepsBoth | osx_verify.py:59 | unless the name starts with `/`, the joined path is the root, then `/` exactly when the root is non-empty and does not end with `/`, then the name |
| Paths.JoinAll | osx_verify.py:60 | defines `os.path.join(*parts)` as the left fold of the two-argument join over at least one part; Paths.JoinAllProper states its result |
| Paths.RelPath | osx_verify.py:60 | defines the relative name: the components after the first `depth`, joined by `os.path.join`, or none where no component is left, since there `os.path.join()` raises |
| Paths.RootDepthAsWritten | osx_verify.py:54 | the code's `pathlen` is at least 1, is 1 for a root without `/`, and is 2 for the root `/` |
| Paths.Split | osx_verify.py:54 | splitting on `/` yields at least one piece, and no piece contains `/` |
| Paths.SplitPlain | osx_verify.py:60 | text without `/` splits into itself |
| Paths.SplitAtSep | osx_verify.py:60 | splitting `a/b` gives the pieces of `a` followed by the pieces of `b` |
| Paths.SplitJoinSlash | osx_verify.py:60 | splitting undoes joining with `/` whenever no part contains `/` |
| Paths.JoinSlashSplit | osx_verify.py:60 | joining with `/` undoes splitting, for every string |
| Paths.JoinAllProper | osx_verify.py:60 | `os.path.join` over non-empty separator-free parts equals `'/'.join` over them, and its result neither starts nor ends with `/` |
| Paths.RelPathUnderRoot | osx_verify.py:53-60 | with the corrected depth, any relative path `r` joined under a normalised root (`/` included) is recorded as exactly `r` |
| Paths.RootDepthAgrees | osx_verify.py:54 | for a normalised root other than `/`, the code's depth `len(path.split('/'))` equals the corrected depth |
| Paths.RelPathBelow | osx_verify.py:53-60 | with the code's depth, under a normalised root other than `/`, a path `root/r` whose components are non-empty is recorded as exactly `r` |
| Paths.RootSlashAsWritten | osx_verify.py:54-60 | as written, the root `/` drops two components: `/c1/.../cn` is recorded as `c2/.../cn`, and a file directly in `/` has no name, because `os.path.join()` with no argument raises |
| Paths.RootSlashExample | osx_verify.py:54-60 | as written, under `/` the file `/usr/bin/ls` is recorded as `bin/ls` and `/a` has no name |
| Paths.RootSlashCorrected | osx_verify.py:54-60 | with the corrected depth, `/` drops one component, `/usr/bin/ls` is `usr/bin/ls` and `/a` is `a` |
| Paths.SplitUnderRoot | osx_verify.py:54-60 | `/` followed by a `/`-joined path splits into an empty piece and then its parts |
| Snapshots.IsIgnored | osx_verify.py:44-50 | false for an empty list; otherwise true if and only if some pattern of the list matches the whole path |
| Snapshots.FindByFilename | osx_verify.py:77-81 | `None` if and only if no entry has the path; otherwise the first entry whose path equals the name |
| Snapshots.PathLeTotal | osx_verify.py:175 | any two paths are ordered one way or the other |
| Snapshots.PathLeTransitive | osx_verify.py:175 | the path order is transitive |
| Snapshots.PathLeAntisymmetric | osx_verify.py:175 | paths ordered both ways are equal |
| Snapshots.InsertByPath | osx_verify.py:175 | inserting into a sorted list keeps it sorted by path and adds exactly the one entry |
| Snapshots.SortByPath | osx_verify.py:175 | the result is sorted ascending by path and is a permutation of the input |
| Snapshots.PermutationKeepsPathsUnique | osx_verify.py:175 | a permutation of entries with distinct paths still has distinct paths, so the sort keeps a scan's paths distinct |
| Snapshots.DefaultIgnoreMatches | osx_verify.py:115 | the default ignore list ignores a path if and only if it begins with `Contents/_MASReceipt/` |
| Snapshots.ReceiptPatternMatches | osx_verify.py:115 | the receipt pattern matches exactly the paths under `Contents/_MASReceipt/` |
| Traverser.Classify | osx_verify.py:66-74 | a link is `l` with its target even when it leads to a regular file; otherwise a regular file is `f` with its digest; anything else is `o` with `None`; the path is the relative name |
| Traverser.Traverse | osx_verify.py:52-75 | the nested loops compute exactly the specified scan of the walk, dropping as many components as the code's `len(path.split('/'))`: the entries in walk order, or an error at the first name for which no relative name is left; there the code raises `TypeError` from `os.path.join()` and reports no path, and `Err` with the name's full path is the model's label for that abort |
| Traverser.ScanDir | osx_verify.py:58-74 | the inner loop over one directory continues the scan by exactly that directory's names, and it stops at the first name with no relative name |
| Traverser.Scan | osx_verify.py:172-176 | a failed traverse propagates its error; otherwise the snapshot carries the description and the ignore list, and its files are sorted by path and are a permutation of the traverse result |
| Traverser.FlattenMembers | osx_verify.py:56-58 | every name of every walked directory is visited, and nothing else |
| Traverser.FlattenAppend | osx_verify.py:56-58 | walking two runs of directories visits the names of the first run, then those of the second |
| Traverser.ErrorPersists | osx_verify.py:60 | once an early name has aborted the scan, the whole scan fails with that name's path |
| Traverser.ErrorAbortsDir | osx_verify.py:58-60 | an error among the first names of a directory aborts the scan of the whole directory |
| Traverser.ErrorAbortsWalk | osx_verify.py:56-60 | an error in the first directories aborts the scan of the whole walk |
| Traverser.ScanFailsIffNameless | osx_verify.py:60 | the scan succeeds if and only if every visited name has a relative name |
| Traverser.ScanReportsFirstNameless | osx_verify.py:59-60 | a failed scan stops at the first name that has no relative name, where the code raises `TypeError`; the model labels that abort with the name's full path |
| Traverser.ScanSkipsIgnored | osx_verify.py:62-64 | no recorded entry has a path that the ignore list matches |
| Traverser.ScanCountsKept | osx_verify.py:58-74 | a successful scan records exactly one entry per name that is not ignored |
| Traverser.ScanRecordsEveryKept | osx_verify.py:58-74 | every name that is not ignored is recorded with its classification |
| Traverser.ScanRecordsOnlyKept | osx_verify.py:58-74 | every recorded entry is the classification of some name that is not ignored |
| Traverser.ScannedFiles | osx_verify.py:172-176 | the sorted snapshot of a successful scan has no ignored file, one file per non-ignored name, every such name's entry, and nothing else |
| Traverser.ScanKeepsPathsUnique | osx_verify.py:58-74 | names with distinct relative names scan to entries with distinct paths |
| Traverser.ScanHasUniquePaths | osx_verify.py:52-75 | under a normalised root other than `/`, a walk listing only files below the root, each once, scans without error to entries with distinct paths |
| Traverser.ScannedSnapshotHasUniquePaths | osx_verify.py:172-176 | the sorted snapshot of such a walk has distinct paths |
| Traverser.RootScanAbortsAtTopFile | osx_verify.py:54-60 | as written, a scan of `/` aborts at a file directly in `/`, since no relative name is left for it |
| Comparator.RefVerdict | osx_verify.py:198-207 | a reference entry is reported if and only if the scan's list does not ignore its path and the scan lacks the exact entry; the message is "is different" if and only if the scan has the path, else "not found in scanned files" |
| Comparator.LiveVerdict | osx_verify.py:209-217 | a scanned entry is reported if and only if the reference's list does not ignore its path and no reference entry has the path; the message is "not found in" the reference |
| Comparator.ReferencePass | osx_verify.py:198-207 | the first loop produces, in reference order, exactly one verdict per reference entry |
| Comparator.ScanPass | osx_verify.py:209-217 | the second loop produces, in scan order, exactly one verdict per scanned entry |
| Comparator.CompareOne | osx_verify.py:197-217 | the messages for one reference are those of pass 1 followed by those of pass 2 |
| Comparator.CompareAll | osx_verify.py:194-217 | the results have exactly the database's keys, and each key's list is that reference's messages, whatever the iteration order |
| Comparator.InsertByCount | osx_verify.py:220 | inserting into a ranking keeps it in non-increasing message count and adds exactly the one report |
| Comparator.RankByCount | osx_verify.py:220 | the ranking has non-increasing message counts and is a permutation of its input |
| Comparator.Items | osx_verify.py:220 | the items list has one report per key of the results, with that key's messages |
| Comparator.RankResults | osx_verify.py:220 | the reports are ranked most messages first, with one report per result key carrying that key's messages, and no others |
| Comparator.Reordered | osx_verify.py:220 | a permutation of the items still has one report per key, with its messages |
| Comparator.Pass1Members | osx_verify.py:198-207 | a message arises in pass 1 if and only if it is the verdict of some reference entry |
| Comparator.Pass2Members | osx_verify.py:209-217 | a message arises in pass 2 if and only if it is the verdict of some scanned entry |
| Comparator.Pass1Count | osx_verify.py:198-207 | pass 1 yields exactly one message per reference entry that is not ignored by the scan and not present in it |
| Comparator.Pass2Count | osx_verify.py:209-217 | pass 2 yields exactly one message per scanned entry that is not ignored by the reference and whose path the reference lacks |
| Comparator.IgnoreListsCrossApplied | osx_verify.py:200-215 | no pass-1 message concerns a path the scan ignores; no pass-2 message concerns a path the reference ignores or has |
| Comparator.DiscrepancyBound | osx_verify.py:197-217 | one reference never yields more messages than its entries plus the scanned entries |
| Comparator.Pass1Bound | osx_verify.py:198-207 | pass 1 yields at most one message per reference entry |
| Comparator.Pass2Bound | osx_verify.py:209-217 | pass 2 yields at most one message per scanned entry |
| Comparator.SameEntriesNoDiscrepancies | osx_verify.py:197-217 | two snapshots holding the same entries give no message, whatever their ignore lists |
| Comparator.SelfComparisonIsClean | osx_verify.py:197-217 | comparing a snapshot with itself yields no message |
| Comparator.CountAboutAppend | osx_verify.py:207-217 | messages about a path add up over concatenated lists |
| Comparator.Pass1CountAbout | osx_verify.py:198-207 | with unique reference paths, pass 1 says one thing about a path if its entry is flagged, and nothing otherwise |
| Comparator.Pass2CountAbout | osx_verify.py:209-217 | with unique scanned paths, pass 2 says one thing about a path if its entry is flagged, and nothing otherwise |
| Comparator.ReportedExactlyOnce | osx_verify.py:197-217 | with unique paths on both sides, every path that differs gets exactly one message across both passes, and every other path none |
| Comparator.Text | osx_verify.py:204-216 | defines the three message lines: `key: path is different`, `key: path not found in scanned files`, `path not found in key`; Comparator.TextNamesKeyAndPath states what they contain |
| Comparator.TextNamesKeyAndPath | osx_verify.py:204-216 | every reported line names the reference and the path: a pass-1 line starts with the key, a colon and a space, then the path; a pass-2 line starts with the path and ends with the key |
| Comparator.ChangedFileReportedOnce | osx_verify.py:202-215 | a file present on both sides with other contents, not ignored by the scan, is reported as "different", exactly once |
| Comparator.ChangedDigestExample | osx_verify.py:202-215 | `a.txt` with another digest on each side yields exactly one "is different" message |
| Comparator.IgnoredByScanExample | osx_verify.py:200-201 | a reference file `secret/key` that the scan ignores with `secret/*` yields no message |
| Comparator.MissingFileExample | osx_verify.py:205-206 | a reference file the scan lacks yields exactly one "not found in scanned files" message, and pass 2 adds nothing |
| Comparator.NewFileExample | osx_verify.py:216 | a scanned file the reference lacks yields exactly one "not found in" message |
| Comparator.SelfIgnoredChangeExample | osx_verify.py:200-215 | a file `p` with another digest on each side, where the scan's own ignore list matches `p`, yields no message at all |
| Comparator.RetargetedLinkExample | osx_verify.py:202-204 | a link whose target changed is reported as different, though no content was hashed |

## Left out

- Argument parsing and validation (osx_verify.py:89-157) are not modelled. This includes how a user's `--ignore` list replaces the default one. They are command-line plumbing over a global.
- Loading references with `glob` and `json.load`, and storing a scan with `json.dump` (osx_verify.py:163-188), are not modelled. They are file I/O and library serialisation. A loaded reference enters the model as a `Snapshot` value.
- `fhash` (osx_verify.py:34-42) is not modelled. It is SHA-256 computed by `hashlib`. The digest enters each leaf as an opaque string.
- `os.walk`, `os.path.islink`, `os.path.isfile` and `os.readlink` are not modelled. They are filesystem calls, and their results enter as the walk data. The walk lists only non-directory names, as `files` does.
- `os.path.normpath` is not modelled. `Traverser.Traverse` and `Traverser.Scan` take the root string as given, and their contracts hold for every root. The lemmas about relative names require a normalised root, which `Paths.NormalRoot` defines.
- A symbolic link to a directory is not excluded from the walk data. Python 2.7's `os.walk` sorts names with `os.path.isdir`, which follows links, so such a link lands in `dirs` and is never recorded. The model takes `files` as given, so it also admits a link leaf that points to a directory.
- An `IOError` from `open` or `read` in `fhash` (osx_verify.py:36-38), or an `OSError` from `os.readlink` (osx_verify.py:68), aborts the whole scan. These aborts are not modelled. The digest and the link target enter the model as data that is always available.
- `puts`, `dputs`, the `verbose` flag and the printed report (osx_verify.py:26-32, 219-232) are left out. They are console output. The message lines are modelled by `Comparator.Text`.
- `unicode()` conversion and encoding errors are left out, both for file names and for link targets (osx_verify.py:74). In Python 2 a non-ASCII name or `os.readlink` target raises `UnicodeDecodeError` there and aborts the scan. Names and targets are sequences of characters.
- The order of paths is by code point. A narrow Python 2 build compares UTF-16 units instead, and that order is not modelled.
- A bracket range whose bounds are reversed is not rejected. The model treats it as a class member that matches no character: `[z-a]` matches nothing, `[z-ab]` matches `b`, and `[!z-a]` matches any one character. Python raises `re.error` at such a pattern, and the run aborts.
- `fnmatch`'s pattern cache and its `normcase` step are left out. On POSIX `normcase` is the identity.
- The iteration order of the database and of `result.items()` is left unspecified. The model picks keys in an arbitrary order, and its contracts hold for every order.
- Comparator.RankByCount: the relative order of references with equal message counts is not stated. The code leaves it to dictionary order.
- Snapshots.SortByPath: sort stability is not stated. Entries sharing a path are not distinguished by it.
- Comparator.ReportedExactlyOnce: assumes unique paths on each side. A scan of a normalised root other than `/` whose walk lists each file once has unique paths (Traverser.ScannedSnapshotHasUniquePaths). A scan of `/` as written need not have them: `/usr/bin/ls` and `/opt/bin/ls` are both recorded as `bin/ls`. A stored reference with a repeated path can be reported more than once.

## Findings

| source | as written | input that shows it | evidently intended | confidence | as-written member | corrected member |
|---|---|---|---|---|---|---|
| osx_verify.py:54 | the number of components to drop is the number of pieces the root splits into, and `/` splits into two empty pieces | scanning `/`: the file `/usr/bin/ls` is recorded as `bin/ls`, and a file `/a` directly in the root makes `os.path.join()` raise for want of arguments | every file is recorded by its full path below the root: `usr/bin/ls` and `a` | not executed | Traverser.RootScanAbortsAtTopFile | Paths.RelPathUnderRoot |
