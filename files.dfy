/** What the scans see of the file system, the stop requests that reach a
    running scan, and the progress reports it emits. */
module Files {
  import opened Wrappers

  type Path = string
  type Block = seq<bv8>

  /** An MD5 `hexdigest()`: 32 hexadecimal characters, so never the empty
      (false) string. */
  type HexDigest = s: string | |s| == 32 witness "00000000000000000000000000000000"

  /** What opening and reading a file gives: the open fails, or the successive
      reads return `blocks` and then end of file (an empty read) or, when
      `failsAfter` holds, an error. A read that returns an empty block ends
      the file early. */
  datatype FileData = Unopenable | Stream(blocks: seq<Block>, failsAfter: bool)

  /** One file as the walk reports it: its joined path, its bare name, and what
      `getsize` (`None` where it raises) and `open`/`read` give for it. */
  datatype FileEntry = FileEntry(
    path: Path,
    name: string,
    size: Option<nat>,
    data: FileData)

  /** The arguments of one progress callback: percent and the running count. */
  datatype Progress = Progress(percent: real, count: nat)

  /** `done / total * 100`. */
  function Percent(done: nat, total: nat): (r: real)
    requires 0 < total
    ensures 0.0 <= r
    ensures done <= total ==> r <= 100.0
    ensures done == total ==> r == 100.0
  {
    var q := done as real / total as real;
    assert q * total as real == done as real;
    q * 100.0
  }

  /** A stop schedule says, for each check point of a scan in order, whether
      `stop_scan` has been called just before it. The flag it sets stays set
      until the next scan starts. `StoppedBy(schedule, c)` is the flag once
      the first `c` check points have passed. */
  predicate StoppedBy(schedule: seq<bool>, c: nat) {
    FirstStop(schedule) < |schedule| && FirstStop(schedule) < c
  }

  /** The first check point with a request, `|schedule|` when none has. */
  function FirstStop(schedule: seq<bool>): (f: nat)
    ensures f <= |schedule|
    decreases |schedule|
  {
    if |schedule| == 0 || schedule[0] then 0 else 1 + FirstStop(schedule[1..])
  }

  /** No request comes before the first one. */
  lemma {:induction false} FirstStopIsFirst(schedule: seq<bool>)
    ensures forall j :: 0 <= j < FirstStop(schedule) ==> !schedule[j]
    ensures FirstStop(schedule) < |schedule| ==> schedule[FirstStop(schedule)]
    decreases |schedule|
  {
    if |schedule| > 0 && !schedule[0] {
      var rest := schedule[1..];
      FirstStopIsFirst(rest);
      forall j | 0 <= j < FirstStop(schedule) ensures !schedule[j] {
        if j > 0 {
          assert schedule[j] == rest[j - 1];
        }
      }
    }
  }

  /** The flag is set exactly when a request came at one of the first `c`
      check points. */
  lemma StoppedByIff(schedule: seq<bool>, c: nat)
    ensures StoppedBy(schedule, c) <==> exists j :: 0 <= j < c && j < |schedule| && schedule[j]
  {
    FirstStopIsFirst(schedule);
    var f := FirstStop(schedule);
    if f < |schedule| && f < c {
      assert schedule[f];
    }
  }

  /** Once set, the flag stays set. */
  lemma StoppedByMonotone(schedule: seq<bool>, c: nat, d: nat)
    requires c <= d && StoppedBy(schedule, c)
    ensures StoppedBy(schedule, d)
  {
  }

  lemma StoppedByStep(schedule: seq<bool>, c: nat)
    ensures StoppedBy(schedule, c + 1) == (StoppedBy(schedule, c) || (c < |schedule| && schedule[c]))
  {
    FirstStopIsFirst(schedule);
  }

  /** A schedule that never asks to stop. */
  predicate NeverStops(schedule: seq<bool>) {
    forall j :: 0 <= j < |schedule| ==> !schedule[j]
  }

  lemma NeverStopsNotStopped(schedule: seq<bool>, c: nat)
    requires NeverStops(schedule)
    ensures !StoppedBy(schedule, c)
  {
    FirstStopIsFirst(schedule);
  }

  /** The index of the first check point that reads a set flag (the check at
      point `k` reads `StoppedBy(schedule, k + 1)`), or `n` when none of the
      first `n` check points does. */
  function StopPoint(schedule: seq<bool>, n: nat): (m: nat)
    ensures m <= n
    ensures forall k :: 0 < k <= m ==> !StoppedBy(schedule, k)
    ensures m < n ==> StoppedBy(schedule, m + 1)
  {
    var f := FirstStop(schedule);
    if f < |schedule| && f < n then f else n
  }

  lemma StoppedByMonotoneAll(schedule: seq<bool>)
    ensures forall c: nat, d: nat :: c <= d && StoppedBy(schedule, c) ==> StoppedBy(schedule, d)
  {
  }

  /** A scan whose check point `c` is the first to read a set flag stops
      there. */
  lemma StopPointAt(schedule: seq<bool>, n: nat, c: nat)
    requires c < n && !StoppedBy(schedule, c) && StoppedBy(schedule, c + 1)
    ensures StopPoint(schedule, n) == c
  {
    StoppedByMonotoneAll(schedule);
  }

  /** A scan whose flag is still clear after its `n` check points runs to
      the end. */
  lemma StopPointNone(schedule: seq<bool>, n: nat)
    requires !StoppedBy(schedule, n)
    ensures StopPoint(schedule, n) == n
  {
    StoppedByMonotoneAll(schedule);
  }

  /** The reports of a scan that calls back after each of the first `k` of
      `total` files: `(k / total * 100, k)` for k = 1, 2, ... */
  function ProgressReports(k: nat, total: nat): (r: seq<Progress>)
    requires k <= total
    ensures |r| == k
    ensures forall i :: 0 <= i < k ==> r[i].count == i + 1 && r[i].percent <= 100.0
    ensures 0 < k == total ==> r[k - 1].percent == 100.0
  {
    seq(k, i requires 0 <= i < k => Progress(Percent(i + 1, total), i + 1))
  }

  lemma ProgressReportsNext(k: nat, total: nat)
    requires k < total
    ensures ProgressReports(k + 1, total) == ProgressReports(k, total) + [Progress(Percent(k + 1, total), k + 1)]
  {
  }
}
