# Duplicate recording detection, modelled in Dafny

`duplicateRemover.py` looks through a directory of digibox recordings. Each
recording `X.ts` has a metadata sidecar named `X.ts.meta`. The script finds
recordings of the same broadcast and suggests which copies to remove. This
project models the decision core of the script as pure functions over a
directory listing, and proves what those functions guarantee:

- **Recognition** (`Records`, lines 111-135). A listed name counts when its
  dot-separated parts end in `ts`, `meta` and the part before them splits on
  `" - "` into at least three parts. Recognised names are collected into
  `meta_texts` with the 2nd and 3rd lines of their sidecar. Their positions
  there are the *meta indices* used from then on.
- **Matcher** (`Matcher`, lines 139-157). For every anchor `i`, the later
  records with the same title line and description line form one group
  `[i, j, k, ...]`. With `use_empty_epg_description` off, an anchor with an
  empty description opens no group.
- **Merger** (`Merger`, lines 161-176). A group deletes the later groups whose
  first element is its 2nd, 3rd, ... element, in turn. Its last element is
  never used as a key.
- **Classes** (`Classes`). Call the records that share a title line and a
  description line a *class*. Fed the matcher's groups, the merger keeps
  exactly the group of the first record of each class, and that group is
  the whole class. So no meta index is in two clusters. From this the model
  derives the end-to-end results in `Pipeline`: the annotation pass never
  prints its internal error, and a meta index is removed exactly when it is
  in a cluster and is not that cluster's keeper.
- **Keeper selection** (`Keeper`, lines 180-209). In each cluster, the last
  position holding the largest file is found. Its member is swapped into the
  last (keeper) slot when it is larger than the last file times
  `file_size_factor`.
- **Annotation** (`Annotation`, lines 212-220). Each member gets a log mark,
  `"+ "` for the keeper and `"- "` otherwise. An index that already has a mark
  is reported as an internal error.
- **Classifier** (`Classifier`, lines 224-249). Each meta index in turn is
  looked for at a non-last slot of the remaining clusters. A hit marks it for
  removal and shrinks that cluster, or drops the cluster once it is down to
  two members. An index without a hit is kept.
- **Pipeline** (`Pipeline`) composes the parts. It also carries the
  discrepancy described under Findings.

The sidecar suffix removal `string_without_extension` (lines 12-13) is
modelled in `Text`, together with Python's `str.split` and `str.join`.

Module layout:

| file | module |
|---|---|
| `seqs.dfy` | `Seqs`: `Option`, increasing sequences, subsequences, clusters in which every index occurs once |
| `text.dfy` | `Text`: split, join, suffix removal |
| `records.dfy` | `Records`: recognition, `meta_texts` |
| `matcher.dfy` | `Matcher`: `found_duplicates` |
| `merger.dfy` | `Merger`: `cleaned_duplicates` after the merge loop |
| `classes.dfy` | `Classes`: merged clusters are same-content classes |
| `keeper.dfy` | `Keeper`: keeper selection |
| `annotation.dfy` | `Annotation`: `dupl_inx` log marks |
| `classifier.dfy` | `Classifier`: removal and keep lists |
| `pipeline.dfy` | `Pipeline`: the whole run, and the finding |

## Model

| member | source | states |
|---|---|---|
| Text.StripMetaExtension | duplicateRemover.py:12-13 | removing `.ts.meta` at the end of a name and appending it back gives the name; before a final newline the suffix goes and the newline stays; other names are unchanged |
| Text.SplitJoin | duplicateRemover.py:113 | joining the parts of `s.split(sep)` with `sep` gives `s` back |
| Text.SplitPartsFree | duplicateRemover.py:118 | no part of a split contains the separator |
| Text.FindSepSpec | duplicateRemover.py:113 | the separator search finds the leftmost occurrence, and finds none exactly when the separator does not occur |
| Text.SplitAround | duplicateRemover.py:113 | with a one-character separator, `(p + sep + q).split(sep)` is the parts of `p` followed by the parts of `q` |
| Records.SidecarPartsIffSuffix | duplicateRemover.py:113-115 | the part test `name[-2] == 'ts' and name[-1] == 'meta'` with at least three parts holds exactly when the name ends in `.ts.meta` |
| Records.Recognize | duplicateRemover.py:111-131 | a candidate is recognised iff it ends in `.ts.meta` and its title segment has at least three `" - "` parts; the record keeps the file name, the two lines, and exactly the split title segment |
| Records.RecognizeDotFree | duplicateRemover.py:113-122 | a dot-free title followed by `.ts.meta` is recognised exactly when it has three or more name parts, with those parts |
| Records.CollectMetaAtPositions | duplicateRemover.py:111-135 | `meta_texts` holds, in listing order, the record of each recognised candidate and nothing else: its i-th record comes from the i-th recognised position |
| Matcher.Partners | duplicateRemover.py:143-156 | the indices collected for an anchor are increasing and are exactly the later records with the same title and description |
| Matcher.GroupAt | duplicateRemover.py:140-156 | an anchor opens a group exactly when it may anchor and has a later duplicate, and the group is its complete group |
| Matcher.OuterScanIsGroups | duplicateRemover.py:139-157 | the two nested loops append exactly the reference groups, in anchor order |
| Matcher.FindDuplicates | duplicateRemover.py:139-157 | every group has at least two members, starts with its anchor, is increasing and holds exactly the later records with the anchor's content; anchors increase; every index that may anchor and has a later duplicate anchors a group |
| Matcher.EmptyDescriptionNeverGrouped | duplicateRemover.py:144-147 | with the flag off, a record with an empty description is in no group at all |
| Merger.Absorb | duplicateRemover.py:169-175 | the kept and the deleted groups are subsequences of the later groups, one per later group in total; the t-th deleted group starts with the group's element at `rec_inx` = k + t, and the last element is never used as a key |
| Merger.AbsorbSplits | duplicateRemover.py:169-175 | the kept and the deleted groups together are exactly the later groups (as multisets): the inner loop loses and invents none |
| Merger.MergeFrom | duplicateRemover.py:165-176 | the outer loop keeps a subsequence of the groups, each unchanged, and the groups up to the current position all survive |
| Merger.Merge | duplicateRemover.py:161-176 | `cleaned_duplicates` is a subsequence of `found_duplicates`, groups unchanged, and the first group survives |
| Merger.AbsorbDrops | duplicateRemover.py:169-175 | for an increasing group, when the later groups have increasing anchors and each key anchors one of them, the inner loop from `rec_inx = k` deletes exactly the groups anchored at `rec[k]` up to the last-but-one element of `rec` |
| Merger.AbsorbStepDrops | duplicateRemover.py:165-176 | one pass of the outer loop, over the groups with some anchors already deleted, deletes the groups anchored at the current group's keys as well |
| Classes.NextAnchorIsFirst | duplicateRemover.py:165-176 | every group the outer loop reaches is opened by the first record of its class |
| Classes.MergeStep | duplicateRemover.py:165-176 | one pass keeps the loop invariant: the list is the matcher's groups minus the deleted anchors, the groups passed start their class, and only their keys have been deleted |
| Classes.MergeKeepsFirsts | duplicateRemover.py:161-176 | `cleaned_duplicates` is exactly `found_duplicates` without the groups opened by a record that is not the first of its class |
| Classes.MergedAreClasses | duplicateRemover.py:139-176 | each merged cluster is opened by the first record of its class, is increasing, and holds exactly the records with the opener's content |
| Classes.ClustersOccurOnce | duplicateRemover.py:161-176 | no meta index is in two merged clusters, nor twice in one |
| Classes.ClusteredIff | duplicateRemover.py:139-176 | a record is in a merged cluster exactly when another record shares its content and the first record of its class may open a group |
| Keeper.MaxScan | duplicateRemover.py:181-203 | the size loop ends at the last position holding the largest size, with that size |
| Keeper.SelectKeeper | duplicateRemover.py:181-209 | keeper selection permutes the cluster (same length, same multiset), and the keeper slot then holds the last file, or a file at least as large as every member whose size exceeds the last size times the factor |
| Keeper.SelectKeeperSwaps | duplicateRemover.py:201-209 | the max position and the last slot are exchanged exactly when the max position is not last and its size exceeds the last size times the factor; otherwise nothing moves |
| Keeper.SelectKeeperIsSwap | duplicateRemover.py:201-209 | keeper selection always amounts to exchanging one slot with the last slot, the last slot itself when nothing moves |
| Keeper.LastMaxUnique | duplicateRemover.py:201-203 | there is only one last position holding the largest size |
| Keeper.KeeperChoice | duplicateRemover.py:201-209 | the keeper slot ends up holding the largest file when it exceeded the factor test, and the old last member otherwise |
| Keeper.SelectKeepers | duplicateRemover.py:181-209 | every cluster keeps its length and its members, and its keeper slot holds the last file or a file at least as large as every member and larger than the last file times the factor |
| Annotation.MarkClusterKeys | duplicateRemover.py:213-220 | one cluster's pass gives a mark to each of its members and leaves the marks of other indices alone |
| Annotation.MarkClusterConflicts | duplicateRemover.py:213-216 | one cluster's pass reports no internal error exactly when its members are distinct and had no mark before |
| Annotation.MarkClusterMarks | duplicateRemover.py:217-220 | without an internal error, a member is marked as keeper exactly when it is the last one, with its cluster |
| Annotation.MarkAllKeys | duplicateRemover.py:212-220 | the marks written are exactly the members of all clusters |
| Annotation.MarkAllConflicts | duplicateRemover.py:212-216 | no internal error is printed exactly when every index occurs in one cluster slot only |
| Annotation.MarkAllMarks | duplicateRemover.py:212-220 | without an internal error, every member's mark names its own cluster and says keeper exactly for the last slot |
| Annotation.AnnotateSpec | duplicateRemover.py:211-220 | the whole pass from an empty log: marks for exactly the members; no internal error iff every index occurs once; then each member's mark names its own cluster and role |
| Classifier.FindInCluster | duplicateRemover.py:231-244 | the inner scan finds the first non-last slot holding the index |
| Classifier.FindHit | duplicateRemover.py:228-245 | the nested scan finds a non-last slot holding the index, and no earlier one in scan order |
| Classifier.Prune | duplicateRemover.py:239-242 | after a hit, a cluster of more than two loses that member and keeps its last element and the other clusters; a cluster of two is dropped and the others keep their order |
| Classifier.Skip | duplicateRemover.py:227-245 | `skip_this_index` is set exactly when the index sits at a non-last slot of some cluster |
| Classifier.ClassifyFrom | duplicateRemover.py:224-249 | every index from `m` below `n` is in exactly one of the two lists, no other index is in either, both lists are increasing, and together they have `n - m` entries |
| Classifier.ClassifyPartitions | duplicateRemover.py:224-249 | the current index is removed exactly when the scan finds it at a non-last slot of a cluster |
| Classifier.Classify | duplicateRemover.py:224-249 | both lists increasing, every index below `len(meta_texts)` in exactly one of them |
| Classifier.PruneRemovesOnlyHit | duplicateRemover.py:239-242 | when every index occurs once, a deletion leaves every index occurring once and removes exactly the hit index from the non-last members |
| Classifier.NextTakesOut | duplicateRemover.py:227-245 | one iteration keeps every index occurring once and takes the current index out of the non-last members |
| Classifier.ClassifyRemovesNonLast | duplicateRemover.py:224-249 | when every index occurs once, an index is removed exactly when it is a non-last member of a cluster |
| Classifier.ClassifyIsNonLast | duplicateRemover.py:224-249 | when every index occurs once, the removed indices are exactly the non-last members and the kept ones are exactly the rest |
| Pipeline.Resolve | duplicateRemover.py:139-209 | after matcher, merger and keeper selection every cluster has at least two members, all of them meta indices |
| Pipeline.SelectKeepersMembers | duplicateRemover.py:181-209 | keeper selection leaves each cluster with the same members |
| Pipeline.SelectKeepersOccurOnce | duplicateRemover.py:181-209 | keeper selection keeps every index occurring once when it did before |
| Pipeline.RunClustersOccurOnce | duplicateRemover.py:139-209 | no meta index is in two clusters of a run, nor twice in one |
| Pipeline.RunClusterIsClass | duplicateRemover.py:139-209 | a cluster of a run holds exactly the records with the content of any one of its members |
| Pipeline.RunClusteredIff | duplicateRemover.py:139-209 | a record is in a cluster of a run exactly when another record shares its content and the first record of its class may open a group |
| Pipeline.RunRemovesAllButKeepers | duplicateRemover.py:211-249 | on every listing the internal error of the annotation pass is never printed, a meta index is removed exactly when it is in a cluster and is not its keeper (last slot), and kept otherwise |
| Classifier.NonLastMemberIff | duplicateRemover.py:227-245 | when every index occurs once, an index sits at a non-last slot exactly when it is in a cluster and differs from that cluster's last element |
| Pipeline.RunWith | duplicateRemover.py:224-249 | for every meta index, the name the chosen naming gives it is reported as removed or kept, and the two lists hold one entry per recognised record in total; with names taken from the records (`meta_texts[k][0]`), every recognised record's own file name is reported |
| Pipeline.ReportedNamesAreRecognised | duplicateRemover.py:236 | when names are taken from the records, every reported name is a recognised sidecar of the listing |
| Pipeline.ListedNamesMisreport | duplicateRemover.py:236 | on the sorted three-name sample, whose first name is not recognised, with media files of equal size, looking the meta index up in the listing reports that unrecognised name for removal, while looking it up by record reports the intended recording |

## Left out

- Reading the directory, `chdir` and the exit on failure (lines 17-23): the
  listing is the parameter `cands`.
- The JSON configuration (lines 45-80): `use_empty_epg_description` and
  `file_size_factor` are the fields of `Settings`.
- The pattern filter that removes names from the listing before recognition
  (lines 84-107): the model starts from the filtered listing.
- Opening and reading the sidecar files (lines 124-128): each candidate
  carries its 2nd and 3rd lines, already stripped.
- `os.stat`, `os.path.splitext`, the `file_sizes` cache and the
  `FileNotFoundError` rule (lines 180-199): they are folded into the
  parameter `mediaSize`, a function from the name used to the size of its
  media file (0 when missing). The cache only avoids repeated `stat` calls
  of a listing that does not change.
- Printing, the CSV log file, and deletion via `glob` (lines 35-42, 159, 178,
  252-265): the model stops at the two name lists and the log marks. The
  fields of `csv_log` other than `dupl_inx` are not modelled.
- `file_size_factor` and the `* 1.0` conversion are floating point in the
  source; the model compares exact reals, so rounding is not modelled.
- A cluster is never empty, so the crash `sizes[-1]` would cause on an empty
  cluster cannot happen; `SelectKeeper` requires a non-empty cluster.
- Classifier.ClassifyRemovesNonLast: the exact removed set is proved only
  for clusters in which every index occurs once; other inputs get only the
  partition and ordering facts of `Classify`. The clusters of every run do
  satisfy this (`Pipeline.RunClustersOccurOnce`).

## Findings

| source | as written | input that shows it | evidently intended | confidence | as-written member | corrected member |
|---|---|---|---|---|---|---|
| duplicateRemover.py:186 | the file of meta index `k` is looked up as `all_files[k]` (also at lines 194, 215-220, 236, 237 and 249, where `csv_log` holds one entry per listed file), a position in the full listing | the listing, sorted as lines 93-96 sort it under the default non-empty `files_searched` (line 53), `0.ts.meta`, `a - b - c.ts.meta`, `d - b - c.ts.meta`, all with lines `T` and `D` and with media files of equal size (as `Pipeline.ListedNamesMisreport` requires): `0.ts.meta` has too few name parts, so meta indices 0 and 1 belong to the 2nd and 3rd names | look the file up as `meta_texts[k][0]`, the record's own name | high; not executed | Pipeline.ListedNamesMisreport (on `Pipeline.RunAsWritten`: removes `0.ts.meta`) | Pipeline.ReportedNamesAreRecognised (on `Pipeline.Run`: every reported name is a recognised sidecar; the sample removes `a - b - c.ts.meta`) |

With the lookup as written and media files of equal size, the run reports
`0.ts.meta` for removal. That file
is not a recognised recording and duplicates nothing. With deletion enabled,
the script would delete every file matching `0.*`. The sizes compared in keeper
selection are also those of the wrong files. The corrected lookup names the
earlier of the two recordings of the broadcast.
