# File Manager core, modelled in Dafny

This project models the two algorithmic components of a desktop file manager.

**`DuplicateFinder`** (core/duplicate_finder.py) scans a list of root
directories in four ways:
- buckets files by the MD5 of their contents;
- buckets files by `(filename, size)`, keyed `f"{name}_{size}"`;
- groups files whose names are similar with a first-match,
  non-transitive merge;
- computes statistics: totals, a per-extension table and the ten largest
  files.

A scan can be cancelled cooperatively: `stop_scan` sets `scan_stopped`, and
the scans poll that flag at fixed check points.

**`FileTracker`** (core/file_tracker.py) keeps a history that maps dates to
path lists, plus the set `today_files`. It supports:
- backfilling a date from file modification times;
- ingesting file events;
- querying by path prefix;
- removing by path prefix.

Every change goes through `save_history`, which first overwrites today's
bucket with `today_files`.

## How the model is built

**Walks and stop requests** (`files.dfy`)
- A walk of the roots is a given `seq<FileEntry>` in walk order. Each entry
  holds:
  - its joined path and bare name;
  - the size `getsize` gives, or `None` where it raises;
  - the blocks the reads return (`FileData`).
- A stop request is a schedule of booleans, one per check point.
  `StoppedBy(schedule, c)` is the flag after the first `c` check points.
- `StopPoint` is the first check point that sees the flag set.
- Each scan returns, in order, the `(percent, count)` pairs its callback
  would be called with.

**The imperative scans** (`duplicate_finder.dfy`)
- These are the methods of the class `DuplicateFinder`, which has the fields
  `isScanning` and `scanStopped`. Check points are calls of `Poll`, which
  calls `StopScan` when a request is due there.
- Each loop body is a small method proved against a specification
  function. `BucketByHash` is a method of the class, since the hash it
  computes polls and sets `scanStopped`. The other loop bodies change no
  field of the finder and are module-level methods.
- Each scan's `ensures` ties its result, its reports and its final flags to
  that function.

**The specification functions and their lemmas**
- `hashing.dfy`:
  - the read loop of `calculate_file_hash`;
  - the numbering of check points across the hash scan, with one check
    before each file and one before each block.
- `buckets.dfy`: the dict-of-lists bucketing and the `len(files) > 1`
  filter. Each bucket is stated against a reference definition: the paths of
  the walked files with that key, in walk order.
- `name_size.dfy` and `decimal.dfy`: the name and size key, and the
  injectivity of its rendering.
- `similarity.dfy`: the pairwise comparison loops of `find_similar_files` as
  recursive functions, and the merge rule.
- `statistics.dfy`: the statistics as a fold over the walk, with a reference
  sort for `largest_files`.

**The history store** (`tracking.dfy`)
- The class `FileTracker` has the fields `today`, `todayFiles`, `history` and
  `stored`. `stored` stands for the history file.
- `list(set)` is the method `ListOf`. It fixes only the contents and
  distinctness of the list, not its order.
- Contracts about the history after a save are stated on `View`, which
  forgets the order within each list.
- `get_files_for_date` is the pure function `GetFilesForDate`.
- `seqs.dfy` holds the list comprehension `Filter`, with the lemmas that it
  keeps exactly the passing elements, in order.

**Behaviours of the code that the model pins down**
- A stop request that arrives while the *last* file of the hash scan is
  being hashed is never re-checked. The scan then returns a non-empty result
  without that file (`Hashing.StopDuringLastHashDropsLastFile`).
- The merge rule never unites groups, so one path can end up in two groups
  (`Similarity.MergeIsNotTransitive`).
- A file whose size cannot be read leaves `total_files` as it is, and fires
  the callback again exactly when that count is a multiple of 100. So it
  reports `Scanned 0 files...` before the first readable file, repeats the
  report right after each hundredth, and is silent otherwise
  (`Statistics.UnreadableRepeatsReport`, `Statistics.UnreadableFilesReportZero`,
  `Statistics.UnreadableAfterReadableSilent`).
- A backfill into today's date is discarded by the save that follows it
  (`Tracking.BackfillTodayDiscarded`).
- Cleaning a path leaves today's matching entries in place.
- Cleaning tests a character prefix, not path components
  (`Tracking.CleanIsNotComponentAware`).

## Model

| member | source | states |
|---|---|---|
| DuplicateFinding.DuplicateFinder.constructor | core/duplicate_finder.py:8-10 | a new finder is neither scanning nor stopped |
| DuplicateFinding.DuplicateFinder.StopScan | core/duplicate_finder.py:270-272 | sets `scan_stopped` and nothing else |
| DuplicateFinding.DuplicateFinder.Poll | core/duplicate_finder.py:56-58 | at check point `k` the flag becomes set exactly when a request is due there or it was already set; it then equals `StoppedBy(schedule, k + 1)` |
| DuplicateFinding.DuplicateFinder.CalculateFileHash | core/duplicate_finder.py:12-26 | with a stop check before each non-empty block: `None` when the flag is seen at a check, or when the open or a read raises; otherwise the MD5 of the bytes read; the flag ends as the schedule sets it over those checks |
| Hashing.LivePrefix | core/duplicate_finder.py:17-22 | the blocks fed to the hasher are the reads before the first empty one, all non-empty |
| Hashing.DigestOfAllBlocks | core/duplicate_finder.py:16-23 | if every read returns data and the file then ends, the digest is the MD5 of all blocks in read order |
| Hashing.ReadErrorVoidsDigest | core/duplicate_finder.py:24-26 | a read error after the data makes the result `None` |
| Hashing.StartCheckMonotone | core/duplicate_finder.py:53-66 | check points of later files come later, past all the hash checks of earlier files |
| Hashing.HashFileStep | core/duplicate_finder.py:61-66 | after its check passes, a file whose hash is a digest is appended to that digest's bucket; a `None` hash (error, or stop seen while hashing) leaves the buckets unchanged |
| Hashing.AbortAtFile | core/duplicate_finder.py:56-58 | a stop seen at a file's check means the whole scan is aborted, and the flag is still set at its nominal end |
| Hashing.HashScanEnd | core/duplicate_finder.py:75-79 | a scan that passed every file's check returns the duplicate buckets of the files it hashed |
| Hashing.HashScanNeverStopped | core/duplicate_finder.py:53-79 | with no stop request, the result is the duplicate buckets of every walked file by full digest |
| Hashing.HashScanBuckets | core/duplicate_finder.py:62-76 | every returned bucket has at least two paths, each of a walked file whose digest is the bucket's key; a file whose hash is `None` is in none |
| Hashing.StopDuringLastHashDropsLastFile | core/duplicate_finder.py:19-20 | three identical single-block files, with a stop during the third file's hash: the result is the bucket of the first two, not `{}` |
| Hashing.OneBlockChecks | core/duplicate_finder.py:56-66 | each single-block file takes one file check and one block check |
| Hashing.SameBlockBucket | core/duplicate_finder.py:62-66 | two files with the same single block share one bucket, in walk order |
| DuplicateFinding.DuplicateFinder.BucketByHash | core/duplicate_finder.py:60-68 | the body for one file: its hash from the next check point on; the buckets then hold the walk through that file, or up to it when the stop came during its hash |
| DuplicateFinding.DuplicateFinder.FindDuplicatesByHash | core/duplicate_finder.py:28-79 | result equals `HashScanResult`; progress report k is `(k/total*100, k)`; there is one report per file whose check passed, so the count is pinned: every reported file passed its check, and when fewer files are reported than walked, the next file's check saw the flag; one report per walked file exactly when not aborted; `is_scanning` false on return |
| Files.ProgressReports | core/duplicate_finder.py:70-73 | the report after file `k` is `(k/total*100, k)`, at most 100 percent and exactly 100 after the last file |
| Files.ProgressReportsNext | core/duplicate_finder.py:70-73 | each processed file adds exactly its own report |
| Files.Percent | core/duplicate_finder.py:72 | `done/total*100` lies between 0 and 100 when `done <= total`, and is 100 at `total` |
| Files.StoppedByIff | core/duplicate_finder.py:270-272 | the flag is set after `c` check points exactly when a request came at one of them |
| Files.StoppedByMonotone | core/duplicate_finder.py:270-272 | the flag, once set, stays set for the rest of the scan |
| Files.StoppedByStep | core/duplicate_finder.py:56-58 | one more check point sets the flag exactly when a request is due there |
| Files.NeverStopsNotStopped | core/duplicate_finder.py:270-272 | with no request the flag is never set |
| Files.StopPoint | core/duplicate_finder.py:233-235 | first check point that sees the flag set, or `n`; no earlier one sees it |
| Files.StopPointAt | core/duplicate_finder.py:233-235 | the first check point that sees the flag is where the scan stops |
| Files.StopPointNone | core/duplicate_finder.py:233-235 | a scan that never sees the flag runs to the end |
| Files.FirstStopIsFirst | core/duplicate_finder.py:270-272 | no request comes before the first one |
| Buckets.PathsOf | core/duplicate_finder.py:66 | definition: the paths of the entries, one per entry, in order; what a bucket holds is stated by `Buckets.MembersPaths` |
| Buckets.Duplicates | core/duplicate_finder.py:76 | definition: the buckets of more than one path; what they hold is stated by `Buckets.DuplicatesOfGroupBy` |
| Buckets.GroupByMembers | core/duplicate_finder.py:62-66 | the dict built entry by entry holds a key exactly when some entry has it, and each bucket is exactly that key's entries' paths, each walked entry appended once, in walk order |
| Buckets.MembersSnoc | core/duplicate_finder.py:118-120 | one more walked entry is appended to its key's bucket and to no other |
| Buckets.DuplicatesOfGroupBy | core/duplicate_finder.py:76 | a key is returned exactly when at least two entries have it, with exactly their paths |
| Buckets.MembersPaths | core/duplicate_finder.py:64-66 | a path is in a bucket exactly when some walked entry with that path has the bucket's key |
| Buckets.MemberIndex | core/duplicate_finder.py:64-66 | names the walked entry a bucket member comes from |
| Buckets.IndexMember | core/duplicate_finder.py:64-66 | a walked entry with key `k` is in `k`'s bucket |
| Buckets.SameKeySameBucket | core/duplicate_finder.py:118-120 | two walked entries with the same defined key share a returned bucket |
| Buckets.FilterPrefixShorter | core/duplicate_finder.py:118-120 | more walked entries never shrink a bucket |
| Buckets.SameBucketIff | core/duplicate_finder.py:62-76 | with pairwise different paths, two files share a returned bucket exactly when their keys are equal and defined |
| Buckets.MembersDistinct | core/duplicate_finder.py:53-66 | with pairwise different paths (disjoint roots), no bucket repeats a path |
| Buckets.RepeatedWalkRepeatsPath | core/duplicate_finder.py:53-66 | a file walked twice (nested roots) appears twice in its bucket |
| Buckets.PairBucket | core/duplicate_finder.py:118-120 | two entries with the same key make one bucket of both paths, in walk order |
| Buckets.GroupBySnoc | core/duplicate_finder.py:118-120 | the dict after one more entry, as the loop body builds it |
| Buckets.GroupByNext | core/duplicate_finder.py:62-66 | the same, for the next entry of the walk |
| Buckets.PathsOfConcat | core/duplicate_finder.py:66 | the paths of two walks joined are the paths of each, joined |
| DuplicateFinding.BucketByNameSize | core/duplicate_finder.py:113-122 | one file's path is appended to the bucket of `(filename, size)`, created empty when missing; a file whose `getsize` raises is skipped |
| DuplicateFinding.DuplicateFinder.FindDuplicatesByNameSize | core/duplicate_finder.py:81-133 | result equals `NameSizeResult` (`{}` when a file check sees the flag); reports for the files processed before that check; `is_scanning` false on return |
| Decimal.DigitChar | core/duplicate_finder.py:130 | a digit below ten renders as its decimal character |
| Decimal.NatToString | core/duplicate_finder.py:130 | `str(size)` is a non-empty string of decimal digits |
| Decimal.NatToStringInjective | core/duplicate_finder.py:130 | different sizes render differently |
| Decimal.LastUnderscore | core/duplicate_finder.py:130 | in `f"{name}_{size}"` the last underscore is the one before the size |
| Decimal.UnderscoreSplit | core/duplicate_finder.py:130 | `prefix + "_" + digits` determines both the prefix and the digits |
| Decimal.UnderscoredInjective | core/duplicate_finder.py:130 | `f"{name}_{size}"` determines both `name` and `size` |
| NameSize.RenderKeyInjective | core/duplicate_finder.py:130 | different `(name, size)` keys render to different strings |
| NameSize.Render | core/duplicate_finder.py:130 | every bucket appears under its rendered key, and there are no other keys; no two buckets collapse |
| NameSize.NameSizeBuckets | core/duplicate_finder.py:114-130 | bucket `name_size` has at least two paths, and a path is in it exactly when a walked file with that path has exactly that name and a readable size equal to `size` |
| NameSize.RenderSameBucket | core/duplicate_finder.py:130 | rendering the keys as `f"{name}_{size}"` neither joins nor splits buckets: two paths share a rendered bucket exactly when they share a key's bucket |
| NameSize.NameSizeSameBucketIff | core/duplicate_finder.py:114-122 | with pairwise different paths, two files share a bucket exactly when both names are equal and both sizes were read and are equal |
| NameSize.EmptyNamesakesCollide | core/duplicate_finder.py:114-130 | two different empty `a.txt` files are reported together under `a.txt_0` |
| Similarity.FirstGroupWith | core/duplicate_finder.py:183-187 | a found group holds one of the two paths |
| Similarity.FirstGroupWithIsFirst | core/duplicate_finder.py:183-187 | no group before the found one holds either path, and none at all when none is found |
| DuplicateFinding.FindExistingGroup | core/duplicate_finder.py:183-187 | the loop over the groups in creation order finds exactly the first group holding either path |
| Similarity.AppendNew | core/duplicate_finder.py:191-194 | appending a path if missing: it is then present, only it is added, the group only grows, and a group without repeats stays without them |
| Similarity.MergeEffect | core/duplicate_finder.py:183-198 | after a merge both paths share a group and no group shrinks; a group is created exactly when neither path was in any group, and it is `[p1, p2]` |
| DuplicateFinding.MergePair | core/duplicate_finder.py:189-198 | the merge step equals the reference `Merge` |
| Similarity.ExtendsKeepsCoGrouped | core/duplicate_finder.py:189-198 | two paths that share a group still share one after the groups grow |
| Similarity.MergeWellFormed | core/duplicate_finder.py:189-198 | a merge keeps every group at two or more walked paths, without repeats when the merged paths differ |
| Similarity.MergeIsNotTransitive | core/duplicate_finder.py:183-194 | with groups `[a, b]` and `[c, d]`, the pair `(b, d)` gives `[a, b, d]` and `[c, d]`: groups are never united |
| Similarity.CompareNext | core/duplicate_finder.py:169-198 | one more pair of the inner loop |
| Similarity.CompareWellFormed | core/duplicate_finder.py:169-198 | the inner loop keeps the groups well formed |
| Similarity.CompareAllWellFormed | core/duplicate_finder.py:166-198 | the outer loop keeps the groups well formed |
| Similarity.SimilarGroupsWellFormed | core/duplicate_finder.py:166-198 | every group has at least two paths, all walked, and no repeats when the walk lists each path once |
| Similarity.CompareExtends | core/duplicate_finder.py:169-198 | the inner loop only grows the groups |
| Similarity.CompareAllExtends | core/duplicate_finder.py:166-198 | the outer loop only grows the groups |
| Similarity.CompareCoGroups | core/duplicate_finder.py:169-198 | after row `i`, file `i` shares a group with every later file it qualifies with |
| Similarity.CompareAllCoGroups | core/duplicate_finder.py:166-198 | every qualifying pair `a < b` from row `i` on shares a group at the end |
| Similarity.QualifyingPairsShareGroup | core/duplicate_finder.py:166-198 | both files of every pair `i < j` whose ratio reaches the threshold end up in one group |
| Similarity.GroupDict | core/duplicate_finder.py:180-198 | the keys are `group_0` .. `group_{k-1}`, one per group in creation order, and there are no others |
| Similarity.GroupKeyInjective | core/duplicate_finder.py:180 | different group numbers give different keys |
| Similarity.AllPairs | core/duplicate_finder.py:158 | the pairs `i < j` number `n(n-1)/2` |
| Similarity.PairsBeforeMonotone | core/duplicate_finder.py:166-169 | later rows start after more comparisons |
| Similarity.SimilarReportsShape | core/duplicate_finder.py:200-203 | one report per hundred comparisons, report k after comparison `100 * (k + 1)`, at most 100 percent |
| Similarity.FewFilesNoGroups | core/duplicate_finder.py:158-206 | fewer than two files give `{}` |
| DuplicateFinding.ComparePair | core/duplicate_finder.py:174-198 | the inner loop body: a pair at or above the threshold is merged, and the rest of the row is unchanged by taking one step |
| DuplicateFinding.ReportComparison | core/duplicate_finder.py:200-203 | the report after a comparison, at every hundredth |
| DuplicateFinding.CompareRow | core/duplicate_finder.py:169-203 | the inner loop for file `i` with a stop check before each comparison: either the whole row of groups and reports, or stops at the first check that sees a request, with the comparisons before it counted |
| DuplicateFinding.DuplicateFinder.FindSimilarFiles | core/duplicate_finder.py:135-206 | result equals `SimilarResult` (`{}` when a check sees the flag, else the groups keyed `group_0..`); `n(n-1)/2` comparisons; reports up to the stop; `is_scanning` false on return |
| Statistics.LastDot | core/duplicate_finder.py:245 | the position of the last dot, and no dot after it; `None` when there is no dot |
| Statistics.Extension | core/duplicate_finder.py:245 | `splitext`'s suffix: from the last dot on, unless only dots precede it; `""` when there is none |
| Statistics.LastDotAt | core/duplicate_finder.py:245 | a dot with no dot after it is the last dot |
| Statistics.ExtensionExamples | core/duplicate_finder.py:245 | `photo.JPG` → `.JPG`, `archive.tar.gz` → `.gz`, `.bashrc` → `""`, `notes.` → `.` |
| Statistics.LowerChar | core/duplicate_finder.py:246 | an upper-case ASCII letter becomes its lower-case letter; every other character is kept |
| Statistics.Lower | core/duplicate_finder.py:246 | definition: `LowerChar` on each character in place; the extension counts it keys are stated by `Statistics.StatsExtensions` |
| Statistics.Top | core/duplicate_finder.py:259 | `s[:n]`: a prefix of length `min(n, len(s))` |
| Statistics.InsertBySize | core/duplicate_finder.py:257-258 | the new entry is added, and nothing is lost or duplicated |
| Statistics.InsertSorted | core/duplicate_finder.py:257-258 | appending and re-sorting keeps the list largest first |
| Statistics.TopInsert | core/duplicate_finder.py:257-259 | truncating to ten before each insertion keeps the same first ten as keeping everything |
| Statistics.SortBySize | core/duplicate_finder.py:258 | the sort is a permutation of its input |
| Statistics.SortBySizeSorted | core/duplicate_finder.py:258 | the sort is largest first |
| Statistics.NoneOfSize | core/duplicate_finder.py:258 | a largest-first list whose first entry is smaller than `n` has no entry of size `n` |
| Statistics.SortedTail | core/duplicate_finder.py:258 | the rest of a largest-first list is largest first |
| Statistics.InsertAhead | core/duplicate_finder.py:258 | an entry larger than the whole list goes in front |
| Statistics.InsertBehind | core/duplicate_finder.py:258 | an entry no larger than the first goes where it goes in the rest |
| Statistics.InsertStable | core/duplicate_finder.py:258 | the new entry goes after every earlier entry of its size (stable sort) |
| Statistics.SortBySizeStable | core/duplicate_finder.py:258 | among entries of one size, the sort keeps input order |
| Statistics.SizedFiles | core/duplicate_finder.py:257 | there is at most one `(path, size)` per walked file |
| Statistics.TallyRead | core/duplicate_finder.py:240-259 | the loop body of one readable file, field by field |
| Statistics.StatsOfSnoc | core/duplicate_finder.py:230-265 | one more file tallies it, and adds a report when the count is then a multiple of 100 |
| Statistics.StatsTotals | core/duplicate_finder.py:240-242 | `total_files` is the number of files whose size was read, and `total_size` their size sum |
| Statistics.StatsExtensions | core/duplicate_finder.py:245-254 | an extension is listed exactly when a read file has it, with their count and size sum |
| Statistics.ExtTotalRemove | core/duplicate_finder.py:245-254 | any one extension can be summed first |
| Statistics.ExtTotalAgree | core/duplicate_finder.py:245-254 | two tables that agree on some extensions have the same sums over them |
| Statistics.TallyExtTotals | core/duplicate_finder.py:245-254 | a read file adds one to the sum of counts and its size to the sum of sizes |
| Statistics.ExtensionTotals | core/duplicate_finder.py:240-254 | the per-extension counts sum to `total_files`, and the sizes to `total_size` |
| Statistics.TallyLargest | core/duplicate_finder.py:256-259 | a read file is inserted into `largest_files`, which is then cut to ten |
| Statistics.StatsLargest | core/duplicate_finder.py:256-259 | `largest_files` is the first ten of all read files sorted largest first |
| Statistics.LargestBound | core/duplicate_finder.py:256-259 | `largest_files` holds `min(10, files read)` entries, is sorted non-increasing, and is drawn from the files read |
| Statistics.LargestStable | core/duplicate_finder.py:256-259 | on ties the earlier-read files are kept: the kept files of one size are the first ones read of that size, in read order |
| Statistics.SortedPrefixDominates | core/duplicate_finder.py:258-259 | in a largest-first list, nothing after the first `k` is larger than one of them |
| Statistics.LargestAreLargest | core/duplicate_finder.py:256-259 | no read file left out is larger than a kept one |
| Statistics.StatsReportsShape | core/duplicate_finder.py:264-265 | every report's percent is 0, at a count that is a multiple of 100, and there is at most one per file |
| Statistics.UnreadableFilesReportZero | core/duplicate_finder.py:238-265 | two unreadable files first give no statistics and two reports of 0 files |
| Statistics.UnreadableRepeatsReport | core/duplicate_finder.py:238-265 | a file whose size cannot be read leaves the statistics as they are and adds a report of the current count exactly when that count is a multiple of 100 |
| Statistics.UnreadableAfterReadableSilent | core/duplicate_finder.py:238-265 | after one readable file, an unreadable one fires no callback, since the count stays at 1 |
| DuplicateFinding.CountFile | core/duplicate_finder.py:238-259 | the loop body for one file equals `Tally`: count, size, extension and top ten; nothing when `getsize` raises |
| DuplicateFinding.ScanFile | core/duplicate_finder.py:237-265 | the statistics and reports after one more file |
| DuplicateFinding.DuplicateFinder.ScanDirectories | core/duplicate_finder.py:208-268 | the stats and reports of the walk up to the file check that sees the flag; on stop the partial stats, not `{}`; `is_scanning` false on return |
| Seqs.SnocDistinct | core/file_tracker.py:35 | appending a new element keeps a list without repeats |
| Tracking.ListOf | core/file_tracker.py:35 | `list(s)` holds each element of the set exactly once |
| Tracking.FileTracker.constructor | core/file_tracker.py:10-18 | fixes `today`; after the load, the history is the parsed file and `today_files` is today's bucket, or empty; without a readable file both are empty |
| Tracking.FileTracker.LoadHistory | core/file_tracker.py:20-30 | a missing file changes nothing, an unreadable one empties the history, a parsed one replaces it and sets `today_files` from today's bucket when there is one |
| Tracking.ViewUpdate | core/file_tracker.py:35 | replacing one date's list changes only that date's set |
| Tracking.FileTracker.SaveHistory | core/file_tracker.py:32-39 | today's bucket becomes `list(today_files)`, no other date changes, and the file holds the history |
| Tracking.MatchingIff | core/file_tracker.py:47-58 | a path is collected exactly when a walked file with that path was modified on `date`; files whose `getmtime` raises are skipped |
| Tracking.FileTracker.AddCurrentFilesForDate | core/file_tracker.py:41-72 | `False` and no change when the path is missing; otherwise that date's set gains exactly the matching files, loses none, only today is reset from `today_files`, no other date changes, the file is saved, `True` |
| Tracking.BackfillIdempotent | core/file_tracker.py:60-67 | backfilling an unchanged tree twice leaves the history as one backfill does |
| Tracking.BackfillTodayDiscarded | core/file_tracker.py:35-67 | a backfill into today's date is undone by the save that follows |
| Tracking.FileTracker.HandleEvent | core/file_tracker.py:90-100 | a file event adds its path to `today_files` (a set, so re-adding changes nothing) and saves: today's list then holds `today_files` without repeats, and every other date keeps its list unchanged; a directory event changes nothing |
| Tracking.FileTracker.GetFilesForDate | core/file_tracker.py:102-107 | `[]` for an unknown date; the whole bucket when `selected_paths` is `None` or empty; otherwise exactly the entries starting with some selected path, each as often as in the bucket |
| Seqs.Filter | core/file_tracker.py:107 | a list comprehension is never longer than its input |
| Seqs.FilterCount | core/file_tracker.py:107 | each passing element is kept as often as it occurs, and each failing one is dropped |
| Seqs.FilterMembers | core/file_tracker.py:107 | an element is in the result exactly when it is in the input and passes |
| Seqs.FilterSnoc | core/file_tracker.py:107 | filtering one more element appends it when it passes |
| Seqs.FilterSingle | core/file_tracker.py:107 | a one-element list passes whole or not at all |
| Seqs.FilterAppend | core/file_tracker.py:107 | filtering works piecewise, so the result keeps the input order |
| Seqs.FilterConsShift | core/file_tracker.py:107 | what filtering adds after one list, it adds after the same head |
| Seqs.FilterNone | core/file_tracker.py:113-114 | nothing passes when every element fails |
| Seqs.FilterAll | core/file_tracker.py:113-114 | nothing is dropped when every element passes |
| Seqs.FilterDistinct | core/file_tracker.py:113-114 | filtering keeps a list without repeats |
| Seqs.DistinctCount | core/file_tracker.py:113-114 | an element of a list without repeats occurs once |
| Seqs.CountOneDistinct | core/file_tracker.py:113-114 | a list whose elements each occur once has no repeats |
| Tracking.CleanedEntries | core/file_tracker.py:113-114 | cleaning keeps exactly the entries not starting with the removed path, each as often as before; a list without repeats keeps none; a list with nothing under the path is unchanged |
| Tracking.CleanIsNotComponentAware | core/file_tracker.py:113-114 | removing `/data/photos` also drops `/data/photos-old/a.jpg` |
| Tracking.FileTracker.CleanHistoryForPath | core/file_tracker.py:109-119 | every date other than today loses exactly the entries starting with the removed path, in order; today's bucket is `today_files`, so its matching entries survive; the file is saved; `True` |

## Left out

- I/O is given as inputs:
  - `os.walk` over the roots is the given walk, in walk order, and the first
    counting pass is assumed to see the same files as the second;
  - `os.path.getsize`, `open` and `read` are the fields of each walked file;
  - `os.path.exists`, `os.walk` and `getmtime` with `strftime` are the
    parameters of the backfill;
  - `datetime.now()` is the constructor's date.
- The history file and JSON are the field `stored`. `json.load` either
  yields a date → list object or fails. A readable JSON value of any other
  shape is not modelled.
- `save_history` failures are not modelled: its `open` or `json.dump`
  raising is caught there and printed, and the model's save always succeeds.
- The outer `except` branches of `add_current_files_for_date` and
  `clean_history_for_path` are not modelled, so the model returns `True`
  whenever the path exists. `os.walk` swallows its own errors, the save
  catches its own, and `clean_history_for_path` walks nothing. These
  branches are reached only by a history value outside the modelled date →
  list-of-strings shape, where `set(...)` or `startswith` raises.
- MD5 and `SequenceMatcher(...).ratio()` are function parameters, because
  they are foreign library code. The threshold comparison is on `real`.
- Floating point: the progress percent `(processed / total) * 100` is an
  exact `real` in the model (`Files.Percent`), where Python computes it in
  binary floating point and may round it.
- Dictionary order: the buckets of the hash and name-size scans and the
  `extensions` table are Dafny maps, which have no order. Python's dicts
  keep the keys in the order each key was first reached in the walk, and
  the user interface numbers the groups in that order. The model does not
  capture that order. The similarity groups keep their creation order in
  their keys `group_0`, `group_1`, ...
- `Statistics.Lower`: lowercases ASCII letters only, whereas `str.lower`
  also maps other Unicode letters.
- `Tracking.ListOf`: the order of `list(set)` is left open. Contracts about
  the history are stated on sets (`View`), and for the dates other than
  today they also state the lists themselves.
- Printed messages and the message strings of the callbacks are not
  modelled. Each scan returns its callbacks' `(percent, count)` pairs.
  The case `callback is None` gives the same state and result.
- `format_file_size` (float formatting) is not part of this model.
- The watchdog observer of `start`/`stop` is not part of this model. Only
  the handler bodies of `on_modified`/`on_created` are modelled, as
  `HandleEvent`.
- Concurrency: another thread calling `stop_scan` is a fixed stop schedule.
  The schedule says at which check points the scan sees a request.
- `DuplicateFinding.CompareRow`: when a check sees the request, it returns
  `stopSeen` instead of setting `scan_stopped` itself. `FindSimilarFiles`
  then calls `StopScan` before anything else reads the flag, so the
  finder's state on return is the same.
