/** `DuplicateFinder` (core/duplicate_finder.py): the scanning object whose
    `is_scanning` and `scan_stopped` flags the scans set and clear. Each scan
    walks a fixed list of files (`walk`), and a stop schedule says at which
    of its check points `stop_scan` is called (see `Files.StoppedBy`). A
    check point is modelled by `Poll`, which calls `StopScan` when a request
    is due there. Each scan returns what its callback would be called with,
    in order. */
module DuplicateFinding {
  import opened Wrappers
  import opened Files
  import opened Buckets
  import opened Hashing
  import opened NameSize
  import opened Similarity
  import opened Statistics

  /** The search of `similar_files` for the first group holding either path. */
  method FindExistingGroup(groups: Groups, p1: Path, p2: Path) returns (existing: Option<nat>)
    ensures existing == FirstGroupWith(groups, p1, p2)
  {
    existing := None;
    var g := 0;
    while g < |groups|
      invariant 0 <= g <= |groups|
      invariant forall h :: 0 <= h < g ==> p1 !in groups[h] && p2 !in groups[h]
    {
      if p1 in groups[g] || p2 in groups[g] {
        existing := Some(g);
        break;
      }
      g := g + 1;
    }
    FirstGroupWithIsFirst(groups, p1, p2);
  }

  /** The `try` body of the `scan_directories` loop for one file: count it,
      add its size, tally its extension and keep it if among the ten
      largest; nothing when `getsize` raises. */
  method CountFile(stats: Stats, e: FileEntry) returns (next: Stats)
    ensures next == Tally(stats, e)
  {
    next := stats;
    match e.size {
      case Some(fileSize) =>
        var extension := ExtKey(e.name);
        var extensions := stats.extensions;
        if extension in extensions {
          extensions := extensions[extension := ExtStat(extensions[extension].count + 1, extensions[extension].size + fileSize)];
        } else {
          extensions := extensions[extension := ExtStat(1, fileSize)];
        }
        var largest := InsertBySize(stats.largest, (e.path, fileSize));
        largest := Top(largest, KEEP);
        TallyRead(stats, e, fileSize, extensions, largest);
        next := Stats(stats.totalFiles + 1, stats.totalSize + fileSize, extensions, largest);
      case None =>
    }
  }

  /** One file of the name-and-size scan: its path is appended to the bucket
      of `(filename, size)`, created empty when missing; nothing when
      `getsize` raises. */
  method BucketByNameSize(walk: seq<FileEntry>, i: nat, filesByNameSize: map<NameSizeKey, seq<Path>>)
    returns (next: map<NameSizeKey, seq<Path>>)
    requires i < |walk| && filesByNameSize == GroupBy(walk[..i], KeyOf)
    ensures next == GroupBy(walk[..i + 1], KeyOf)
  {
    var e := walk[i];
    assert walk[..i + 1] == walk[..i] + [e];
    GroupBySnoc(walk[..i], e, KeyOf);
    next := filesByNameSize;
    match e.size {
      case Some(fileSize) =>
        var k := (e.name, fileSize);
        if k !in next {
          next := next[k := []];
        }
        next := next[k := next[k] + [e.path]];
      case None =>
    }
  }

  /** One file of `scan_directories`: it is counted, and the callback
      fires when the count of files read is then a multiple of 100. */
  method ScanFile(walk: seq<FileEntry>, i: nat, stats: Stats, reports: seq<Progress>)
    returns (next: Stats, out: seq<Progress>)
    requires i < |walk| && stats == StatsOf(walk[..i]) && reports == StatsReports(walk[..i])
    ensures next == StatsOf(walk[..i + 1]) && out == StatsReports(walk[..i + 1])
  {
    var e := walk[i];
    assert walk[..i + 1] == walk[..i] + [e];
    StatsOfSnoc(walk[..i], e);
    next := CountFile(stats, e);
    out := reports;
    if next.totalFiles % 100 == 0 {
      out := out + [Progress(0.0, next.totalFiles)];
    }
  }

  /** A qualifying pair joins the first group holding either path, each
      path appended if missing, or it becomes the new group `[p1, p2]`. */
  method MergePair(groups: Groups, p1: Path, p2: Path) returns (merged: Groups)
    ensures merged == Merge(groups, p1, p2)
  {
    var existing := FindExistingGroup(groups, p1, p2);
    match existing {
      case Some(g) =>
        var files := groups[g];
        if p1 !in files {
          files := files + [p1];
        }
        if p2 !in files {
          files := files + [p2];
        }
        merged := groups[g := files];
      case None =>
        merged := groups + [[p1, p2]];
    }
  }

  /** The body of the inner loop: the names of files `i` and `j` are
      compared, and a pair at or above the threshold is merged. */
  method ComparePair(walk: seq<FileEntry>, ratio: (string, string) -> real, threshold: real, i: nat, j: nat, groups: Groups)
    returns (next: Groups)
    requires i < |walk| && j < |walk|
    ensures next == Step(walk, ratio, threshold, i, j, groups)
    ensures Compare(walk, ratio, threshold, i, j + 1, next) == Compare(walk, ratio, threshold, i, j, groups)
  {
    var similarity := ratio(walk[i].name, walk[j].name);
    next := groups;
    if similarity >= threshold {
      next := MergePair(groups, walk[i].path, walk[j].path);
    }
    CompareNext(walk, ratio, threshold, i, j, groups);
  }

  /** One pass of the inner loop of `find_similar_files`: file `i` against
      every later file, with a stop check before each comparison. The check
      at number `done` sees the request the schedule holds there; the row
      then returns at once with the comparisons done before it, and
      `stopSeen` tells the scan to record the request (`StopScan`). */
  method CompareRow(walk: seq<FileEntry>, ratio: (string, string) -> real, threshold: real, schedule: seq<bool>,
                    i: nat, groups: Groups, processed: nat, reports: seq<Progress>, total: nat)
    returns (next: Groups, done: nat, out: seq<Progress>, stopSeen: bool)
    requires i < |walk|
    requires processed + (|walk| - i - 1) <= total
    requires !StoppedBy(schedule, processed)
    requires reports == SimilarReports(processed, total)
    ensures processed <= done <= processed + (|walk| - i - 1)
    ensures !StoppedBy(schedule, done) && out == SimilarReports(done, total)
    ensures stopSeen ==> done < processed + (|walk| - i - 1) && StoppedBy(schedule, done + 1)
    ensures !stopSeen ==> (done == processed + (|walk| - i - 1) &&
      next == Compare(walk, ratio, threshold, i, i + 1, groups))
  {
    var n := |walk|;
    ghost var row := Compare(walk, ratio, threshold, i, i + 1, groups);
    next, done, out := groups, processed, reports;
    stopSeen := false;
    var j := i + 1;
    while j < n
      invariant i + 1 <= j <= n
      invariant done == processed + (j - i - 1)
      invariant !StoppedBy(schedule, done)
      invariant Compare(walk, ratio, threshold, i, j, next) == row
      invariant out == SimilarReports(done, total)
    {
      StoppedByStep(schedule, done);
      if done < |schedule| && schedule[done] {
        stopSeen := true;
        return;
      }
      next := ComparePair(walk, ratio, threshold, i, j, next);
      out := ReportComparison(done, total, out);
      done := done + 1;
      j := j + 1;
    }
    CompareEnd(walk, ratio, threshold, i, j, next);
  }

  /** The progress report after a comparison, at every hundredth. */
  method ReportComparison(done: nat, total: nat, reports: seq<Progress>) returns (next: seq<Progress>)
    requires done < total && reports == SimilarReports(done, total)
    ensures next == SimilarReports(done + 1, total)
  {
    next := reports;
    if (done + 1) % 100 == 0 {
      next := reports + [Progress(Percent(done + 1, total), done + 1)];
    }
  }

  class DuplicateFinder {
    var isScanning: bool
    var scanStopped: bool

    constructor()
      ensures !isScanning && !scanStopped
    {
      isScanning := false;
      scanStopped := false;
    }

    method StopScan()
      modifies this
      ensures scanStopped && isScanning == old(isScanning)
    {
      scanStopped := true;
    }

    /** Check point `k` of a scan: a stop request due there sets the flag. */
    method Poll(schedule: seq<bool>, k: nat)
      requires scanStopped == StoppedBy(schedule, k)
      modifies this
      ensures scanStopped == (old(scanStopped) || (k < |schedule| && schedule[k]))
      ensures scanStopped == StoppedBy(schedule, k + 1) && isScanning == old(isScanning)
    {
      StoppedByStep(schedule, k);
      if k < |schedule| && schedule[k] {
        StopScan();
      }
    }

    /** MD5 of a file's contents, read block by block, with a stop check before
        each non-empty block; `None` when the open or a read raises, or when
        the flag is set at a check. The checks are numbered from `clock`. */
    method CalculateFileHash(data: FileData, md5: seq<bv8> -> HexDigest, schedule: seq<bool>, clock: nat)
      returns (h: Option<HexDigest>)
      requires scanStopped == StoppedBy(schedule, clock)
      modifies this
      ensures scanStopped == StoppedBy(schedule, clock + HashChecks(data))
      ensures isScanning == old(isScanning)
      ensures h == if scanStopped && HashChecks(data) > 0 then None else FullDigest(data, md5)
    {
      match data
      case Unopenable =>
        h := None;
      case Stream(blocks, failsAfter) =>
        var live := Live(blocks);
        LivePrefix(blocks);
        var hashed: seq<bv8> := [];
        var i := 0;
        while i < |blocks| && |blocks[i]| > 0
          invariant 0 <= i <= |live|
          invariant hashed == Concat(live[..i])
          invariant scanStopped == StoppedBy(schedule, clock + i)
          invariant 0 < i ==> !scanStopped
          invariant isScanning == old(isScanning)
          decreases |blocks| - i
        {
          Poll(schedule, clock + i);
          if scanStopped {
            StoppedByMonotone(schedule, clock + i + 1, clock + |live|);
            h := None;
            return;
          }
          assert live[..i + 1] == live[..i] + [blocks[i]];
          hashed := hashed + blocks[i];
          i := i + 1;
        }
        assert i == |live|;
        assert live[..i] == live;
        if i == |blocks| && failsAfter {
          h := None;
        } else {
          h := Some(md5(hashed));
        }
    }

    /** One file of the hash scan, after its check passed: its hash is
        computed with the checks numbered on from the file's own, and the
        path is appended to the bucket of its digest when there is one. */
    method BucketByHash(walk: seq<FileEntry>, md5: seq<bv8> -> HexDigest, schedule: seq<bool>, i: nat, clock: nat,
                        filesByHash: map<HexDigest, seq<Path>>)
      returns (next: map<HexDigest, seq<Path>>)
      requires i < |walk| && clock == StartCheck(walk, i)
      requires filesByHash == GroupBy(walk[..i], HashKey(md5))
      requires !scanStopped && !StoppedBy(schedule, clock + 1)
      modifies this
      ensures isScanning == old(isScanning)
      ensures scanStopped == StoppedBy(schedule, StartCheck(walk, i + 1))
      ensures next == GroupBy(walk[..if scanStopped then i else i + 1], HashKey(md5))
    {
      var e := walk[i];
      var fileHash := CalculateFileHash(e.data, md5, schedule, clock + 1);
      HashFileStep(walk, md5, schedule, i, filesByHash, fileHash, scanStopped);
      next := filesByHash;
      if fileHash.Some? {
        var d := fileHash.value;
        var files := if d in filesByHash then filesByHash[d] else [];
        next := filesByHash[d := files + [e.path]];
      }
    }

    /** Buckets of walked files by content hash, keeping those with more
        than one path; `{}` when stopped at a file's check. */
    method FindDuplicatesByHash(walk: seq<FileEntry>, md5: seq<bv8> -> HexDigest, schedule: seq<bool>)
      returns (result: map<HexDigest, seq<Path>>, reports: seq<Progress>)
      modifies this
      ensures result == HashScanResult(walk, md5, schedule)
      ensures |reports| <= |walk| && reports == ProgressReports(|reports|, |walk|)
      ensures |reports| == |walk| <==> !HashScanAborted(walk, schedule)
      ensures forall i :: 0 <= i < |reports| ==> !StoppedBy(schedule, StartCheck(walk, i) + 1)
      ensures |reports| < |walk| ==> StoppedBy(schedule, StartCheck(walk, |reports|) + 1)
      ensures !isScanning && scanStopped == StoppedBy(schedule, StartCheck(walk, |walk|))
    {
      isScanning := true;
      scanStopped := false;
      var total := |walk|;
      var filesByHash: map<HexDigest, seq<Path>> := map[];
      reports := [];
      var clock := 0;
      var i := 0;
      ghost var hashed := 0;
      while i < |walk|
        invariant 0 <= i <= |walk|
        invariant clock == StartCheck(walk, i)
        invariant scanStopped == StoppedBy(schedule, clock)
        invariant 0 < i ==> !StoppedBy(schedule, StartCheck(walk, i - 1) + 1)
        invariant hashed == if scanStopped then i - 1 else i
        invariant filesByHash == GroupBy(walk[..hashed], HashKey(md5))
        invariant reports == ProgressReports(i, total)
        invariant isScanning
      {
        Poll(schedule, clock);
        if scanStopped {
          isScanning := false;
          AbortAtFile(walk, schedule, i);
          ChecksPassedBefore(walk, schedule, i);
          result := map[];
          return;
        }
        filesByHash := BucketByHash(walk, md5, schedule, i, clock, filesByHash);
        hashed := if scanStopped then i else i + 1;
        ProgressReportsNext(i, total);
        reports := reports + [Progress(Percent(i + 1, total), i + 1)];
        StartCheckNext(walk, i);
        clock := clock + 1 + HashChecks(walk[i].data);
        i := i + 1;
      }
      result := Duplicates(filesByHash);
      isScanning := false;
      assert walk[..|walk|] == walk;
      HashScanEnd(walk, md5, schedule, filesByHash);
      ChecksPassedBefore(walk, schedule, |walk|);
    }

    /** Buckets of walked files by `(filename, size)`, keeping those with more
        than one path, keyed `f"{name}_{size}"`; `{}` when stopped at a file's
        check. */
    method FindDuplicatesByNameSize(walk: seq<FileEntry>, schedule: seq<bool>)
      returns (result: map<string, seq<Path>>, reports: seq<Progress>)
      modifies this
      ensures result == NameSizeResult(walk, schedule)
      ensures reports == ProgressReports(StopPoint(schedule, |walk|), |walk|)
      ensures !isScanning && scanStopped == StoppedBy(schedule, |walk|)
    {
      isScanning := true;
      scanStopped := false;
      var total := |walk|;
      var filesByNameSize: map<NameSizeKey, seq<Path>> := map[];
      reports := [];
      var i := 0;
      while i < |walk|
        invariant 0 <= i <= |walk|
        invariant !scanStopped && !StoppedBy(schedule, i)
        invariant filesByNameSize == GroupBy(walk[..i], KeyOf)
        invariant reports == ProgressReports(i, total)
        invariant isScanning
      {
        Poll(schedule, i);
        if scanStopped {
          isScanning := false;
          StopPointAt(schedule, |walk|, i);
          StoppedByMonotone(schedule, i + 1, |walk|);
          result := map[];
          return;
        }
        filesByNameSize := BucketByNameSize(walk, i, filesByNameSize);
        reports := reports + [Progress(Percent(i + 1, total), i + 1)];
        i := i + 1;
      }
      assert walk[..|walk|] == walk;
      result := Render(Duplicates(filesByNameSize));
      isScanning := false;
      StopPointNone(schedule, |walk|);
    }

    /** Groups of walked files whose names are similar, compared pair by
        pair with a stop check before each comparison; `{}` when stopped. */
    method FindSimilarFiles(walk: seq<FileEntry>, ratio: (string, string) -> real, threshold: real, schedule: seq<bool>)
      returns (result: map<string, seq<Path>>, reports: seq<Progress>)
      modifies this
      ensures result == SimilarResult(walk, ratio, threshold, schedule)
      ensures PairsBefore(|walk|, |walk|) == |walk| * (|walk| - 1) / 2
      ensures reports == SimilarReports(StopPoint(schedule, PairsBefore(|walk|, |walk|)), PairsBefore(|walk|, |walk|))
      ensures !isScanning && scanStopped == StoppedBy(schedule, PairsBefore(|walk|, |walk|))
    {
      isScanning := true;
      scanStopped := false;
      var n := |walk|;
      AllPairs(n, n);
      var total := n * (n - 1) / 2;
      var processed := 0;
      var groups: Groups := [];
      reports := [];
      var i := 0;
      while i < n
        invariant 0 <= i <= n
        invariant processed == PairsBefore(n, i) <= total
        invariant !scanStopped && !StoppedBy(schedule, processed)
        invariant SimilarGroups(walk, ratio, threshold) == CompareAll(walk, ratio, threshold, i, groups)
        invariant reports == SimilarReports(processed, total)
        invariant isScanning
      {
        PairsBeforeMonotone(n, i + 1, n);
        assert PairsBefore(n, i + 1) == processed + (n - i - 1);
        ghost var before := groups;
        var stopSeen;
        groups, processed, reports, stopSeen := CompareRow(walk, ratio, threshold, schedule, i, groups, processed, reports, total);
        if stopSeen {
          StopScan();
          isScanning := false;
          StopPointAt(schedule, total, processed);
          StoppedByMonotone(schedule, processed + 1, total);
          result := map[];
          return;
        }
        assert CompareAll(walk, ratio, threshold, i, before) == CompareAll(walk, ratio, threshold, i + 1, groups);
        i := i + 1;
      }
      isScanning := false;
      StopPointNone(schedule, total);
      result := GroupDict(groups);
    }

    /** File statistics of the walk up to the check at which a stop request
        is seen; those partial statistics are returned. */
    method ScanDirectories(walk: seq<FileEntry>, schedule: seq<bool>)
      returns (stats: Stats, reports: seq<Progress>)
      modifies this
      ensures stats == StatsOf(walk[..StopPoint(schedule, |walk|)])
      ensures reports == StatsReports(walk[..StopPoint(schedule, |walk|)])
      ensures !isScanning && scanStopped == StoppedBy(schedule, |walk|)
    {
      isScanning := true;
      scanStopped := false;
      stats := Stats(0, 0, map[], []);
      reports := [];
      var i := 0;
      while i < |walk|
        invariant 0 <= i <= |walk|
        invariant !scanStopped && !StoppedBy(schedule, i)
        invariant stats == StatsOf(walk[..i])
        invariant reports == StatsReports(walk[..i])
        invariant isScanning
      {
        Poll(schedule, i);
        if scanStopped {
          isScanning := false;
          StopPointAt(schedule, |walk|, i);
          StoppedByMonotone(schedule, i + 1, |walk|);
          return;
        }
        stats, reports := ScanFile(walk, i, stats, reports);
        i := i + 1;
      }
      isScanning := false;
      StopPointNone(schedule, |walk|);
      assert walk[..|walk|] == walk;
    }
  }
}
