/** `calculate_file_hash` and the outcome of `find_duplicates_by_hash`
    (core/duplicate_finder.py), stated as functions of the walk, the MD5
    function and the stop schedule. */
module Hashing {
  import opened Wrappers
  import opened Files
  import opened Buckets

  /** The blocks the read loop feeds to the hasher: the reads before the first
      empty one. */
  function Live(blocks: seq<Block>): seq<Block>
    decreases |blocks|
  {
    if |blocks| == 0 || |blocks[0]| == 0 then [] else [blocks[0]] + Live(blocks[1..])
  }

  /** The live blocks are a prefix of the reads, all non-empty, and the read
      after them, if any, is empty. */
  lemma {:induction false} LivePrefix(blocks: seq<Block>)
    ensures |Live(blocks)| <= |blocks|
    ensures forall i :: 0 <= i < |Live(blocks)| ==> Live(blocks)[i] == blocks[i] && |blocks[i]| > 0
    ensures |Live(blocks)| < |blocks| ==> |blocks[|Live(blocks)|]| == 0
    decreases |blocks|
  {
    if |blocks| > 0 && |blocks[0]| > 0 {
      LivePrefix(blocks[1..]);
    }
  }

  /** The bytes of the blocks, in order. */
  function Concat(bs: seq<Block>): seq<bv8>
    decreases |bs|
  {
    if |bs| == 0 then [] else Concat(bs[..|bs| - 1]) + bs[|bs| - 1]
  }

  /** The number of stop checks `calculate_file_hash` makes when the flag
      stays clear: one before each block it feeds to the hasher. */
  function HashChecks(data: FileData): nat {
    match data
    case Unopenable => 0
    case Stream(blocks, _) => |Live(blocks)|
  }

  /** What `calculate_file_hash` returns when the stop flag stays clear:
      `None` when the open fails or a read raises, otherwise the MD5 of the
      bytes read. */
  function FullDigest(data: FileData, md5: seq<bv8> -> HexDigest): Option<HexDigest> {
    match data
    case Unopenable => None
    case Stream(blocks, failsAfter) =>
      if |Live(blocks)| == |blocks| && failsAfter then None else Some(md5(Concat(Live(blocks))))
  }

  /** When every read returns data and the file ends normally, the digest is
      that of all blocks in read order. */
  lemma {:induction false} DigestOfAllBlocks(blocks: seq<Block>, md5: seq<bv8> -> HexDigest)
    requires forall i :: 0 <= i < |blocks| ==> |blocks[i]| > 0
    ensures FullDigest(Stream(blocks, false), md5) == Some(md5(Concat(blocks)))
  {
    LiveAll(blocks);
  }

  lemma {:induction false} LiveAll(blocks: seq<Block>)
    requires forall i :: 0 <= i < |blocks| ==> |blocks[i]| > 0
    ensures Live(blocks) == blocks
    decreases |blocks|
  {
    if |blocks| > 0 {
      LiveAll(blocks[1..]);
      assert blocks == [blocks[0]] + blocks[1..];
    }
  }

  /** A read error that comes after all data voids the file's digest. */
  lemma ReadErrorVoidsDigest(blocks: seq<Block>, md5: seq<bv8> -> HexDigest)
    requires forall i :: 0 <= i < |blocks| ==> |blocks[i]| > 0
    ensures FullDigest(Stream(blocks, true), md5) == None
  {
    LiveAll(blocks);
  }

  /** The key the hash scan buckets a walked file by. */
  function HashKey(md5: seq<bv8> -> HexDigest): FileEntry -> Option<HexDigest> {
    (e: FileEntry) => FullDigest(e.data, md5)
  }

  /** The check point at which the hash scan examines file `i`: each earlier
      file took its own check and its hash checks. */
  function StartCheck(walk: seq<FileEntry>, i: nat): (c: nat)
    requires i <= |walk|
    ensures c >= i
  {
    i + ChecksOf(walk[..i])
  }

  /** The hash checks of the files of `ws`. */
  function ChecksOf(ws: seq<FileEntry>): nat
    decreases |ws|
  {
    if |ws| == 0 then 0 else ChecksOf(ws[..|ws| - 1]) + HashChecks(ws[|ws| - 1].data)
  }

  lemma StartCheckNext(walk: seq<FileEntry>, i: nat)
    requires i < |walk|
    ensures StartCheck(walk, i + 1) == StartCheck(walk, i) + 1 + HashChecks(walk[i].data)
  {
    assert walk[..i + 1][..i] == walk[..i];
  }

  lemma {:induction false} StartCheckMonotone(walk: seq<FileEntry>, i: nat, j: nat)
    requires i <= j <= |walk|
    ensures StartCheck(walk, i) <= StartCheck(walk, j)
    ensures i < j ==> StartCheck(walk, i) + 1 + HashChecks(walk[i].data) <= StartCheck(walk, j)
    decreases j - i
  {
    if i < j {
      StartCheckNext(walk, i);
      StartCheckMonotone(walk, i + 1, j);
    }
  }

  /** The scan returns `{}`: a stop request arrived by the check made before
      the last file (the flag is sticky, so every later check sees it too). */
  predicate HashScanAborted(walk: seq<FileEntry>, schedule: seq<bool>) {
    |walk| > 0 && StoppedBy(schedule, StartCheck(walk, |walk| - 1) + 1)
  }

  /** How many walked files contribute to the buckets of a scan that is not
      aborted: all of them, unless the stop request arrived while the last
      file was being hashed, which then yields `None` and is never
      re-checked. */
  function HashedCount(walk: seq<FileEntry>, schedule: seq<bool>): (m: nat)
    ensures m <= |walk| && |walk| - 1 <= m
  {
    if |walk| > 0 && StoppedBy(schedule, StartCheck(walk, |walk|)) then |walk| - 1 else |walk|
  }

  /** The outcome of `find_duplicates_by_hash`. */
  function HashScanResult(walk: seq<FileEntry>, md5: seq<bv8> -> HexDigest, schedule: seq<bool>): map<HexDigest, seq<Path>> {
    if HashScanAborted(walk, schedule) then map[]
    else Duplicates(GroupBy(walk[..HashedCount(walk, schedule)], HashKey(md5)))
  }

  /** One file of the scan, after its check passed: the buckets take its
      hash unless the stop request arrived while it was hashed. */
  lemma HashFileStep(walk: seq<FileEntry>, md5: seq<bv8> -> HexDigest, schedule: seq<bool>, i: nat,
                     g: map<HexDigest, seq<Path>>, h: Option<HexDigest>, stopped: bool)
    requires i < |walk| && g == GroupBy(walk[..i], HashKey(md5))
    requires !StoppedBy(schedule, StartCheck(walk, i) + 1)
    requires stopped == StoppedBy(schedule, StartCheck(walk, i) + 1 + HashChecks(walk[i].data))
    requires h == if stopped && HashChecks(walk[i].data) > 0 then None else FullDigest(walk[i].data, md5)
    ensures StartCheck(walk, i + 1) == StartCheck(walk, i) + 1 + HashChecks(walk[i].data)
    ensures stopped ==> h.None?
    ensures (match h
      case None => g
      case Some(d) => g[d := (if d in g then g[d] else []) + [walk[i].path]])
      == GroupBy(walk[..if stopped then i else i + 1], HashKey(md5))
  {
    StartCheckNext(walk, i);
    GroupByNext(walk, i, HashKey(md5));
  }

  /** A stop seen at the check of file `i` aborts the scan, and the flag is
      set at the nominal end of the scan. */
  lemma AbortAtFile(walk: seq<FileEntry>, schedule: seq<bool>, i: nat)
    requires i < |walk| && StoppedBy(schedule, StartCheck(walk, i) + 1)
    ensures HashScanAborted(walk, schedule) && StoppedBy(schedule, StartCheck(walk, |walk|))
  {
    StartCheckMonotone(walk, i, |walk| - 1);
    StoppedByMonotone(schedule, StartCheck(walk, i) + 1, StartCheck(walk, |walk| - 1) + 1);
    StartCheckMonotone(walk, i, |walk|);
    StoppedByMonotone(schedule, StartCheck(walk, i) + 1, StartCheck(walk, |walk|));
  }

  /** The check of file `i - 1` passed, so the checks of all files before
      it passed too: the flag only becomes set. */
  lemma {:induction false} ChecksPassedBefore(walk: seq<FileEntry>, schedule: seq<bool>, i: nat)
    requires i <= |walk|
    requires 0 < i ==> !StoppedBy(schedule, StartCheck(walk, i - 1) + 1)
    ensures forall j :: 0 <= j < i ==> !StoppedBy(schedule, StartCheck(walk, j) + 1)
  {
    forall j | 0 <= j < i
      ensures !StoppedBy(schedule, StartCheck(walk, j) + 1)
    {
      StartCheckMonotone(walk, j, i - 1);
    }
  }

  /** A scan that passed every file's check returns the duplicate buckets of
      the files it hashed. */
  lemma HashScanEnd(walk: seq<FileEntry>, md5: seq<bv8> -> HexDigest, schedule: seq<bool>, g: map<HexDigest, seq<Path>>)
    requires |walk| > 0 ==> !StoppedBy(schedule, StartCheck(walk, |walk| - 1) + 1)
    requires g == GroupBy(walk[..HashedCount(walk, schedule)], HashKey(md5))
    ensures !HashScanAborted(walk, schedule)
    ensures HashScanResult(walk, md5, schedule) == Duplicates(g)
  {
    assert !HashScanAborted(walk, schedule);
  }

  /** Without a stop request the scan buckets every walked file. */
  lemma HashScanNeverStopped(walk: seq<FileEntry>, md5: seq<bv8> -> HexDigest, schedule: seq<bool>)
    requires NeverStops(schedule)
    ensures HashScanResult(walk, md5, schedule) == Duplicates(GroupBy(walk, HashKey(md5)))
  {
    NeverStopsNotStopped(schedule, StartCheck(walk, |walk|));
    if |walk| > 0 {
      NeverStopsNotStopped(schedule, StartCheck(walk, |walk| - 1) + 1);
    }
    assert walk[..|walk|] == walk;
  }

  /** Every bucket the scan returns holds at least two paths, each the path of
      a walked file whose full digest is the bucket's key; a file whose hash is
      `None` is in no bucket. */
  lemma HashScanBuckets(walk: seq<FileEntry>, md5: seq<bv8> -> HexDigest, schedule: seq<bool>, d: HexDigest, p: Path)
    requires d in HashScanResult(walk, md5, schedule)
    ensures |HashScanResult(walk, md5, schedule)[d]| >= 2
    ensures p in HashScanResult(walk, md5, schedule)[d] ==>
      exists i :: 0 <= i < |walk| && walk[i].path == p && FullDigest(walk[i].data, md5) == Some(d)
  {
    var r := HashScanResult(walk, md5, schedule);
    var ws, key := walk[..HashedCount(walk, schedule)], HashKey(md5);
    assert !HashScanAborted(walk, schedule);
    assert r == Duplicates(GroupBy(ws, key));
    DuplicatesOfGroupBy(ws, key);
    assert r[d] == Members(ws, key, d);
    MembersPaths(ws, key, d, p);
    if p in r[d] {
      var i :| 0 <= i < |ws| && ws[i].path == p && key(ws[i]) == Some(d);
      assert walk[i] == ws[i];
    }
  }

  /** An example of the unchecked last file: three files with the same single
      block, and a stop request that arrives while the third is hashed. The
      result is not empty, and the third file, although a duplicate, is
      missing from it. */
  lemma StopDuringLastHashDropsLastFile(a: FileEntry, b: FileEntry, c: FileEntry, block: Block, md5: seq<bv8> -> HexDigest)
    requires |block| > 0
    requires a.data == b.data == c.data == Stream([block], false)
    ensures HashScanResult([a, b, c], md5, [false, false, false, false, false, true])
         == map[md5(block) := [a.path, b.path]]
  {
    var walk, schedule := [a, b, c], [false, false, false, false, false, true];
    OneBlockChecks(walk, block);
    assert !StoppedBy(schedule, 5) && StoppedBy(schedule, 6) by {
      FirstStopIsFirst(schedule);
      assert schedule[5];
    }
    assert HashedCount(walk, schedule) == 2;
    assert walk[..2] == [a, b];
    var g := GroupBy([a, b], HashKey(md5));
    SameBlockBucket(a, b, block, md5);
    assert Duplicates(g) == g;
  }

  /** Each file of one non-empty block takes one check of its own and one
      hash check. */
  lemma OneBlockChecks(walk: seq<FileEntry>, block: Block)
    requires |block| > 0 && |walk| == 3
    requires forall i :: 0 <= i < 3 ==> walk[i].data == Stream([block], false)
    ensures StartCheck(walk, 2) == 4 && StartCheck(walk, 3) == 6
  {
    assert Live([block]) == [block] by { LiveAll([block]); }
    assert StartCheck(walk, 0) == 0 by { assert walk[..0] == []; }
    StartCheckNext(walk, 0);
    StartCheckNext(walk, 1);
    StartCheckNext(walk, 2);
  }

  /** Two files of the same single block share one bucket. */
  lemma SameBlockBucket(a: FileEntry, b: FileEntry, block: Block, md5: seq<bv8> -> HexDigest)
    requires |block| > 0
    requires a.data == b.data == Stream([block], false)
    ensures GroupBy([a, b], HashKey(md5)) == map[md5(block) := [a.path, b.path]]
  {
    assert Live([block]) == [block] by { LiveAll([block]); }
    assert Concat([block]) == block by { assert [block][..0] == []; }
    var key := HashKey(md5);
    assert key(a) == key(b) == Some(md5(block));
    PairBucket(a, b, key, md5(block));
  }
}
