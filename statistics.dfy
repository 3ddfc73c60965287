/** The statistics of `scan_directories` (core/duplicate_finder.py) as a fold
    over the walked files: file count, byte total, per-extension count and
    size, and the ten largest files. A file whose size cannot be read adds
    nothing. */
module Statistics {
  import opened Wrappers
  import opened Files
  import opened Seqs

  /** The position of the last `.` in `s`, if any. */
  function LastDot(s: string): (r: Option<nat>)
    ensures r.Some? ==> (r.value < |s| && s[r.value] == '.' &&
      forall k :: r.value < k < |s| ==> s[k] != '.')
    ensures r.None? ==> forall k :: 0 <= k < |s| ==> s[k] != '.'
    decreases |s|
  {
    if |s| == 0 then None
    else if s[|s| - 1] == '.' then Some(|s| - 1)
    else LastDot(s[..|s| - 1])
  }

  predicate AllDots(s: string) {
    forall k :: 0 <= k < |s| ==> s[k] == '.'
  }

  /** The extension part of `os.path.splitext` on a bare file name: from the
      last dot on, unless everything before that dot is dots (`.bashrc`,
      `..`), in which case there is none. */
  function Extension(name: string): (ext: string)
    ensures |ext| <= |name| && ext == name[|name| - |ext|..]
    ensures ext != "" ==> (ext[0] == '.' && (forall k :: 0 < k < |ext| ==> ext[k] != '.') &&
      !AllDots(name[..|name| - |ext|]))
    ensures ext == "" ==> forall d :: 0 <= d < |name| && name[d] == '.' ==>
      (exists k :: d < k < |name| && name[k] == '.') || AllDots(name[..d])
  {
    match LastDot(name)
    case None => ""
    case Some(d) =>
      if AllDots(name[..d]) then ""
      else
        assert name[d..][0] == '.';
        name[d..]
  }

  lemma LastDotAt(s: string, d: nat)
    requires d < |s| && s[d] == '.' && forall k :: d < k < |s| ==> s[k] != '.'
    ensures LastDot(s) == Some(d)
  {
  }

  lemma ExtensionExamples()
    ensures Extension("photo.JPG") == ".JPG"
    ensures Extension("archive.tar.gz") == ".gz"
    ensures Extension(".bashrc") == ""
    ensures Extension("notes.") == "."
  {
    LastDotAt("photo.JPG", 5);
    assert "photo.JPG"[..5][0] == 'p';
    assert "photo.JPG"[5..] == ".JPG";
    LastDotAt("archive.tar.gz", 11);
    assert "archive.tar.gz"[..11][0] == 'a';
    assert "archive.tar.gz"[11..] == ".gz";
    LastDotAt(".bashrc", 0);
    LastDotAt("notes.", 5);
    assert "notes."[..5][0] == 'n';
    assert "notes."[5..] == ".";
  }

  function LowerChar(c: char): (l: char)
    ensures 'A' <= c <= 'Z' ==> 'a' <= l <= 'z' && l as int - 'a' as int == c as int - 'A' as int
    ensures !('A' <= c <= 'Z') ==> l == c
  {
    if 'A' <= c <= 'Z' then (c as int - 'A' as int + 'a' as int) as char else c
  }

  /** `str.lower` on the ASCII letters. */
  function Lower(s: string): (r: string)
    ensures |r| == |s| && forall k :: 0 <= k < |s| ==> r[k] == LowerChar(s[k])
  {
    seq(|s|, k requires 0 <= k < |s| => LowerChar(s[k]))
  }

  /** The key a file is counted under in `extensions`. */
  function ExtKey(name: string): string {
    Lower(Extension(name))
  }

  datatype ExtStat = ExtStat(count: nat, size: nat)

  /** One of `largest_files`: `(filepath, file_size)`. */
  type Sized = (Path, nat)

  datatype Stats = Stats(totalFiles: nat, totalSize: nat, extensions: map<string, ExtStat>, largest: seq<Sized>)

  const Empty := Stats(0, 0, map[], [])

  /** At most this many of the largest files are kept. */
  const KEEP: nat := 10

  /** `s[:n]`. */
  function Top<T>(s: seq<T>, n: nat): (r: seq<T>)
    ensures |r| == if |s| <= n then |s| else n
    ensures r <= s
  {
    if |s| <= n then s else s[..n]
  }

  /** Sorted by size, largest first. */
  predicate SortedBySize(s: seq<Sized>) {
    forall i, j :: 0 <= i < j < |s| ==> s[i].1 >= s[j].1
  }

  /** Appending `x` and sorting a largest-first list stably by size, largest
      first: `x` goes after every entry at least as large. */
  function InsertBySize(l: seq<Sized>, x: Sized): (r: seq<Sized>)
    ensures |r| == |l| + 1
    ensures multiset(r) == multiset(l) + multiset{x}
    decreases |l|
  {
    if |l| == 0 then [x]
    else if l[0].1 < x.1 then [x] + l
    else
      assert l == [l[0]] + l[1..];
      [l[0]] + InsertBySize(l[1..], x)
  }

  /** Insertion keeps the list largest first. */
  lemma {:induction false} InsertSorted(l: seq<Sized>, x: Sized)
    requires SortedBySize(l)
    ensures SortedBySize(InsertBySize(l, x))
    decreases |l|
  {
    if |l| > 0 && l[0].1 >= x.1 {
      var rest := InsertBySize(l[1..], x);
      InsertSorted(l[1..], x);
      forall y | y in rest ensures l[0].1 >= y.1 {
        assert y in multiset(rest);
        assert y in multiset(l[1..]) || y == x;
      }
      assert InsertBySize(l, x) == [l[0]] + rest;
    }
  }

  lemma {:induction false} TopCons<T>(h: T, s: seq<T>, n: nat)
    requires n > 0
    ensures Top([h] + s, n) == [h] + Top(s, n - 1)
  {
    if |s| + 1 > n {
      assert ([h] + s)[..n] == [h] + s[..n - 1];
    }
  }

  /** Truncating before the insertion keeps the same first `n`. */
  lemma {:induction false} TopInsert(l: seq<Sized>, x: Sized, n: nat)
    ensures Top(InsertBySize(Top(l, n), x), n) == Top(InsertBySize(l, x), n)
    decreases |l|
  {
    if |l| > n && n > 0 {
      var t := Top(l, n);
      assert l == [l[0]] + l[1..];
      TopCons(l[0], l[1..], n);
      if l[0].1 < x.1 {
        assert InsertBySize(t, x) == [x] + t;
        TopCons(x, t, n);
        TopCons(x, l, n);
        assert Top(t, n - 1) == Top(l, n - 1);
      } else {
        TopInsert(l[1..], x, n - 1);
        var a := InsertBySize(Top(l[1..], n - 1), x);
        var b := InsertBySize(l[1..], x);
        assert InsertBySize(t, x) == [l[0]] + a;
        assert InsertBySize(l, x) == [l[0]] + b;
        TopCons(l[0], a, n);
        TopCons(l[0], b, n);
      }
    } else if |l| > n {
      assert Top(l, n) == [];
    }
  }

  /** Reference: every file read, sorted largest first. */
  function SortBySize(ps: seq<Sized>): (r: seq<Sized>)
    ensures multiset(r) == multiset(ps)
  {
    if |ps| == 0 then []
    else
      assert ps == ps[..|ps| - 1] + [ps[|ps| - 1]];
      InsertBySize(SortBySize(ps[..|ps| - 1]), ps[|ps| - 1])
  }

  lemma {:induction false} SortBySizeSorted(ps: seq<Sized>)
    ensures SortedBySize(SortBySize(ps))
  {
    if |ps| > 0 {
      SortBySizeSorted(ps[..|ps| - 1]);
      InsertSorted(SortBySize(ps[..|ps| - 1]), ps[|ps| - 1]);
    }
  }

  /** The entries of size `n`. */
  function HasSize(n: nat): Sized -> bool {
    (x: Sized) => x.1 == n
  }

  /** A largest-first list whose first entry is smaller than `n` has no
      entry of size `n`. */
  lemma {:induction false} NoneOfSize(l: seq<Sized>, n: nat)
    requires SortedBySize(l) && |l| > 0 && l[0].1 < n
    ensures Filter(l, HasSize(n)) == []
  {
    forall k | 0 <= k < |l| ensures !HasSize(n)(l[k]) {
      assert l[k].1 <= l[0].1;
    }
    FilterNone(l, HasSize(n));
  }

  /** Dropping the first entry keeps a list largest first. */
  lemma {:induction false} SortedTail(l: seq<Sized>)
    requires SortedBySize(l) && |l| > 0
    ensures SortedBySize(l[1..])
  {
    forall i, j | 0 <= i < j < |l| - 1 ensures l[1..][i].1 >= l[1..][j].1 {
      assert l[1..][i] == l[i + 1] && l[1..][j] == l[j + 1];
    }
  }

  /** An entry larger than the whole list goes in front of it. */
  lemma {:induction false} InsertAhead(l: seq<Sized>, x: Sized, n: nat)
    requires SortedBySize(l) && |l| > 0 && l[0].1 < x.1
    ensures Filter(InsertBySize(l, x), HasSize(n)) == Filter(l, HasSize(n)) + (if x.1 == n then [x] else [])
  {
    var keep := HasSize(n);
    assert InsertBySize(l, x) == [x] + l;
    FilterSingle(x, keep);
    FilterAppend([x], l, keep);
    if x.1 == n {
      NoneOfSize(l, n);
    }
  }

  /** Inserting `x` puts it after every earlier entry of its size: among the
      entries of any one size, the insertion keeps the order they came in. */
  lemma {:induction false} InsertStable(l: seq<Sized>, x: Sized, n: nat)
    requires SortedBySize(l)
    ensures Filter(InsertBySize(l, x), HasSize(n)) == Filter(l, HasSize(n)) + (if x.1 == n then [x] else [])
    decreases |l|
  {
    if |l| == 0 {
      assert InsertBySize(l, x) == [x];
      FilterSingle(x, HasSize(n));
    } else if l[0].1 < x.1 {
      InsertAhead(l, x, n);
    } else {
      SortedTail(l);
      InsertStable(l[1..], x, n);
      InsertBehind(l, x, n);
    }
  }

  /** An entry no larger than the first goes where it goes in the rest. */
  lemma {:induction false} InsertBehind(l: seq<Sized>, x: Sized, n: nat)
    requires |l| > 0 && l[0].1 >= x.1
    requires Filter(InsertBySize(l[1..], x), HasSize(n)) == Filter(l[1..], HasSize(n)) + (if x.1 == n then [x] else [])
    ensures Filter(InsertBySize(l, x), HasSize(n)) == Filter(l, HasSize(n)) + (if x.1 == n then [x] else [])
  {
    assert InsertBySize(l, x) == [l[0]] + InsertBySize(l[1..], x);
    assert l == [l[0]] + l[1..];
    FilterConsShift(l[0], InsertBySize(l[1..], x), l[1..], if x.1 == n then [x] else [], HasSize(n));
  }

  /** The sort is stable: the entries of any one size keep their input order. */
  lemma {:induction false} SortBySizeStable(ps: seq<Sized>, n: nat)
    ensures Filter(SortBySize(ps), HasSize(n)) == Filter(ps, HasSize(n))
  {
    if |ps| > 0 {
      var init, last := ps[..|ps| - 1], ps[|ps| - 1];
      assert ps == init + [last];
      SortBySizeStable(init, n);
      SortBySizeSorted(init);
      InsertStable(SortBySize(init), last, n);
      FilterSnoc(init, last, HasSize(n));
    }
  }

  /** The files whose size was read. */
  predicate Readable(e: FileEntry) {
    e.size.Some?
  }

  function ReadFiles(ws: seq<FileEntry>): seq<FileEntry> {
    Filter(ws, (e: FileEntry) => Readable(e))
  }

  function WithExt(ext: string): FileEntry -> bool {
    (e: FileEntry) => Readable(e) && ExtKey(e.name) == ext
  }

  function ReadWith(ws: seq<FileEntry>, ext: string): seq<FileEntry> {
    Filter(ws, WithExt(ext))
  }

  lemma {:induction false} ReadWithSnoc(ws: seq<FileEntry>, e: FileEntry, ext: string)
    ensures ReadWith(ws + [e], ext) == ReadWith(ws, ext) + (if Readable(e) && ExtKey(e.name) == ext then [e] else [])
  {
    FilterSnoc(ws, e, WithExt(ext));
  }

  lemma {:induction false} SizeSumSnoc(ws: seq<FileEntry>, e: FileEntry)
    ensures SizeSum(ws + [e]) == SizeSum(ws) + (match e.size case Some(n) => n case None => 0)
  {
    assert (ws + [e])[..|ws|] == ws;
  }

  function SizeSum(ws: seq<FileEntry>): nat {
    if |ws| == 0 then 0
    else SizeSum(ws[..|ws| - 1]) + (match ws[|ws| - 1].size case Some(n) => n case None => 0)
  }

  /** Reference: `(filepath, file_size)` of every file read, in walk order. */
  function SizedFiles(ws: seq<FileEntry>): (r: seq<Sized>)
    ensures |r| <= |ws|
  {
    if |ws| == 0 then []
    else
      var e := ws[|ws| - 1];
      SizedFiles(ws[..|ws| - 1]) + (match e.size case Some(n) => [(e.path, n)] case None => [])
  }

  /** The body of the loop for one file. */
  function Tally(s: Stats, e: FileEntry): Stats {
    match e.size
    case None => s
    case Some(n) =>
      var ext := ExtKey(e.name);
      var es := if ext in s.extensions then ExtStat(s.extensions[ext].count + 1, s.extensions[ext].size + n) else ExtStat(1, n);
      Stats(s.totalFiles + 1, s.totalSize + n, s.extensions[ext := es], Top(InsertBySize(s.largest, (e.path, n)), KEEP))
  }

  /** The statistics after the files of `ws`, in walk order. */
  function StatsOf(ws: seq<FileEntry>): Stats {
    if |ws| == 0 then Empty else Tally(StatsOf(ws[..|ws| - 1]), ws[|ws| - 1])
  }

  lemma TallyRead(s: Stats, e: FileEntry, n: nat, counts: map<string, ExtStat>, largest: seq<Sized>)
    requires e.size == Some(n)
    requires var ext := ExtKey(e.name);
      counts == s.extensions[ext := if ext in s.extensions then ExtStat(s.extensions[ext].count + 1, s.extensions[ext].size + n) else ExtStat(1, n)]
    requires largest == Top(InsertBySize(s.largest, (e.path, n)), KEEP)
    ensures Tally(s, e) == Stats(s.totalFiles + 1, s.totalSize + n, counts, largest)
  {
  }

  lemma StatsOfSnoc(ws: seq<FileEntry>, e: FileEntry)
    ensures StatsOf(ws + [e]) == Tally(StatsOf(ws), e)
    ensures StatsReports(ws + [e]) == StatsReports(ws) +
      (if Tally(StatsOf(ws), e).totalFiles % 100 == 0 then [Progress(0.0, Tally(StatsOf(ws), e).totalFiles)] else [])
  {
    assert (ws + [e])[..|ws|] == ws;
  }

  /** `total_files` and `total_size` count exactly the files whose size was read. */
  lemma {:induction false} StatsTotals(ws: seq<FileEntry>)
    ensures StatsOf(ws).totalFiles == |ReadFiles(ws)|
    ensures StatsOf(ws).totalSize == SizeSum(ReadFiles(ws))
  {
    if |ws| > 0 {
      var init, e := ws[..|ws| - 1], ws[|ws| - 1];
      assert ws == init + [e];
      StatsTotals(init);
      FilterSnoc(init, e, (e: FileEntry) => Readable(e));
      var r := ReadFiles(init);
      if Readable(e) {
        assert (r + [e])[..|r|] == r;
      }
    }
  }

  /** An extension is listed exactly when some read file has it, with the
      number and the byte total of those files. */
  lemma {:induction false} StatsExtensions(ws: seq<FileEntry>, ext: string)
    ensures ext in StatsOf(ws).extensions <==> |ReadWith(ws, ext)| > 0
    ensures ext in StatsOf(ws).extensions ==>
      StatsOf(ws).extensions[ext] == ExtStat(|ReadWith(ws, ext)|, SizeSum(ReadWith(ws, ext)))
  {
    if |ws| > 0 {
      var init, e := ws[..|ws| - 1], ws[|ws| - 1];
      assert ws == init + [e];
      StatsExtensions(init, ext);
      ReadWithSnoc(init, e, ext);
      assert StatsOf(ws) == Tally(StatsOf(init), e);
      ExtensionStep(StatsOf(init), e, ext, ReadWith(init, ext));
    }
  }

  /** The induction step of `StatsExtensions`, for one more file. */
  lemma {:induction false} ExtensionStep(s: Stats, e: FileEntry, ext: string, r: seq<FileEntry>)
    requires ext in s.extensions <==> |r| > 0
    requires ext in s.extensions ==> s.extensions[ext] == ExtStat(|r|, SizeSum(r))
    ensures var r' := r + (if Readable(e) && ExtKey(e.name) == ext then [e] else []);
      (ext in Tally(s, e).extensions <==> |r'| > 0) &&
      (ext in Tally(s, e).extensions ==> Tally(s, e).extensions[ext] == ExtStat(|r'|, SizeSum(r')))
  {
    TallyExtension(s, e, ext);
    if Readable(e) && ExtKey(e.name) == ext {
      SizeSumSnoc(r, e);
    } else {
      assert r + [] == r;
    }
  }

  /** What tallying one file does to the entry of one extension. */
  lemma {:induction false} TallyExtension(s: Stats, e: FileEntry, ext: string)
    ensures Readable(e) && ExtKey(e.name) == ext ==>
      ext in Tally(s, e).extensions &&
      Tally(s, e).extensions[ext] == (if ext in s.extensions
        then ExtStat(s.extensions[ext].count + 1, s.extensions[ext].size + e.size.value)
        else ExtStat(1, e.size.value))
    ensures !(Readable(e) && ExtKey(e.name) == ext) ==>
      (ext in Tally(s, e).extensions <==> ext in s.extensions) &&
      (ext in s.extensions ==> Tally(s, e).extensions[ext] == s.extensions[ext])
  {
  }

  /** The counts (`byCount`) or the byte totals of the extensions `keys`. */
  ghost function ExtTotal(m: map<string, ExtStat>, keys: set<string>, byCount: bool): nat
    requires keys <= m.Keys
    decreases |keys|
  {
    if keys == {} then 0
    else
      var k :| k in keys;
      (if byCount then m[k].count else m[k].size) + ExtTotal(m, keys - {k}, byCount)
  }

  /** Any one extension can be taken out of the total first. */
  lemma {:induction false} ExtTotalRemove(m: map<string, ExtStat>, keys: set<string>, byCount: bool, k: string)
    requires keys <= m.Keys && k in keys
    ensures ExtTotal(m, keys, byCount) == (if byCount then m[k].count else m[k].size) + ExtTotal(m, keys - {k}, byCount)
    decreases |keys|
  {
    var j :| j in keys && ExtTotal(m, keys, byCount) == (if byCount then m[j].count else m[j].size) + ExtTotal(m, keys - {j}, byCount);
    if j != k {
      ExtTotalRemove(m, keys - {j}, byCount, k);
      ExtTotalRemove(m, keys - {k}, byCount, j);
      assert keys - {j} - {k} == keys - {k} - {j};
    }
  }

  /** Two maps that agree on `keys` have the same total over them. */
  lemma {:induction false} ExtTotalAgree(m: map<string, ExtStat>, n: map<string, ExtStat>, keys: set<string>, byCount: bool)
    requires keys <= m.Keys && keys <= n.Keys
    requires forall k :: k in keys ==> m[k] == n[k]
    ensures ExtTotal(m, keys, byCount) == ExtTotal(n, keys, byCount)
    decreases |keys|
  {
    if keys != {} {
      var k :| k in keys;
      ExtTotalRemove(m, keys, byCount, k);
      ExtTotalRemove(n, keys, byCount, k);
      ExtTotalAgree(m, n, keys - {k}, byCount);
    }
  }

  /** Tallying a read file adds one to the extension counts and its size to
      the extension byte totals. */
  lemma TallyExtTotals(s: Stats, e: FileEntry, byCount: bool)
    requires e.size.Some?
    ensures var m, m' := s.extensions, Tally(s, e).extensions;
      ExtTotal(m', m'.Keys, byCount) == ExtTotal(m, m.Keys, byCount) + (if byCount then 1 else e.size.value)
  {
    var n := e.size.value;
    var ext := ExtKey(e.name);
    var m, m' := s.extensions, Tally(s, e).extensions;
    var es := m'[ext];
    ExtTotalRemove(m', m'.Keys, byCount, ext);
    ExtTotalAgree(m, m', m.Keys - {ext}, byCount);
    if ext in m {
      ExtTotalRemove(m, m.Keys, byCount, ext);
      assert m'.Keys - {ext} == m.Keys - {ext};
    } else {
      assert m'.Keys - {ext} == m.Keys;
      assert m.Keys - {ext} == m.Keys;
    }
  }

  /** The per-extension counts add up to `total_files`, and the per-extension
      byte totals to `total_size`. */
  lemma {:induction false} ExtensionTotals(ws: seq<FileEntry>)
    ensures var st := StatsOf(ws);
      ExtTotal(st.extensions, st.extensions.Keys, true) == st.totalFiles &&
      ExtTotal(st.extensions, st.extensions.Keys, false) == st.totalSize
  {
    if |ws| > 0 {
      var init, e := ws[..|ws| - 1], ws[|ws| - 1];
      ExtensionTotals(init);
      var before := StatsOf(init);
      assert StatsOf(ws) == Tally(before, e);
      if e.size.Some? {
        TallyExtTotals(before, e, true);
        TallyExtTotals(before, e, false);
      }
    }
  }

  lemma TallyLargest(s: Stats, e: FileEntry)
    ensures Tally(s, e).largest == match e.size
      case Some(n) => Top(InsertBySize(s.largest, (e.path, n)), KEEP)
      case None => s.largest
  {
  }

  /** `largest_files` is the first ten of all read files sorted largest
      first. */
  lemma {:induction false} StatsLargest(ws: seq<FileEntry>)
    ensures StatsOf(ws).largest == Top(SortBySize(SizedFiles(ws)), KEEP)
  {
    if |ws| > 0 {
      var init, e := ws[..|ws| - 1], ws[|ws| - 1];
      StatsLargest(init);
      var before := StatsOf(init);
      var ps := SizedFiles(init);
      var qs := SizedFiles(ws);
      TallyLargest(before, e);
      assert StatsOf(ws).largest == Tally(before, e).largest;
      if e.size.Some? {
        var x := (e.path, e.size.value);
        assert qs == ps + [x];
        assert qs[..|qs| - 1] == ps;
        var sorted := SortBySize(ps);
        assert SortBySize(qs) == InsertBySize(sorted, x);
        TopInsert(sorted, x, KEEP);
      } else {
        assert qs == ps;
      }
    }
  }

  /** The kept files are sorted largest first, are among the files read, and
      are as many as the files read, up to ten. */
  lemma LargestBound(ws: seq<FileEntry>)
    ensures |StatsOf(ws).largest| == if |SizedFiles(ws)| <= KEEP then |SizedFiles(ws)| else KEEP
    ensures SortedBySize(StatsOf(ws).largest)
    ensures multiset(StatsOf(ws).largest) <= multiset(SizedFiles(ws))
  {
    StatsLargest(ws);
    var sorted := SortBySize(SizedFiles(ws));
    SortBySizeSorted(SizedFiles(ws));
    var top := Top(sorted, KEEP);
    assert sorted == top + sorted[|top|..];
    assert multiset(sorted) == multiset(top) + multiset(sorted[|top|..]);
  }

  /** Ties go to the files read first: the kept files of any one size are
      the first ones read of that size, in the order they were read. */
  lemma LargestStable(ws: seq<FileEntry>, n: nat)
    ensures Filter(StatsOf(ws).largest, HasSize(n)) <= Filter(SizedFiles(ws), HasSize(n))
  {
    StatsLargest(ws);
    var sorted := SortBySize(SizedFiles(ws));
    var top := Top(sorted, KEEP);
    assert sorted == top + sorted[|top|..];
    FilterAppend(top, sorted[|top|..], HasSize(n));
    SortBySizeStable(SizedFiles(ws), n);
  }

  /** In a largest-first list, every entry past the first `k` is no larger
      than any of the first `k`. */
  lemma {:induction false} SortedPrefixDominates(sorted: seq<Sized>, k: nat, i: nat, x: Sized)
    requires SortedBySize(sorted)
    requires i < k <= |sorted|
    requires x in multiset(sorted[k..])
    ensures x.1 <= sorted[i].1
  {
    var rest := sorted[k..];
    assert x in rest;
    var j :| 0 <= j < |rest| && rest[j] == x;
    assert sorted[k + j] == x;
  }

  /** No file left out is larger than a kept one. */
  lemma LargestAreLargest(ws: seq<FileEntry>, i: nat, x: Sized)
    requires i < |StatsOf(ws).largest|
    requires x in multiset(SizedFiles(ws)) - multiset(StatsOf(ws).largest)
    ensures x.1 <= StatsOf(ws).largest[i].1
  {
    StatsLargest(ws);
    SortBySizeSorted(SizedFiles(ws));
    TopDominates(SortBySize(SizedFiles(ws)), i, x);
  }

  /** What the first ten of a largest-first list leave out is no larger than
      any of them. */
  lemma {:induction false} TopDominates(sorted: seq<Sized>, i: nat, x: Sized)
    requires SortedBySize(sorted)
    requires i < |Top(sorted, KEEP)|
    requires x in multiset(sorted) - multiset(Top(sorted, KEEP))
    ensures x.1 <= Top(sorted, KEEP)[i].1
  {
    var top := Top(sorted, KEEP);
    var k := |top|;
    assert sorted == top + sorted[k..];
    assert multiset(sorted) == multiset(top) + multiset(sorted[k..]);
    SortedPrefixDominates(sorted, k, i, x);
  }

  /** `callback(0, ...)` fires after each file at which `total_files` is a
      multiple of 100, read or not. */
  function StatsReports(ws: seq<FileEntry>): seq<Progress> {
    if |ws| == 0 then []
    else
      var count := StatsOf(ws).totalFiles;
      StatsReports(ws[..|ws| - 1]) + (if count % 100 == 0 then [Progress(0.0, count)] else [])
  }

  /** Each report reads `0%` at a count that is a multiple of 100, and there
      is at most one report per file. */
  lemma {:induction false} StatsReportsShape(ws: seq<FileEntry>)
    ensures |StatsReports(ws)| <= |ws|
    ensures forall k :: 0 <= k < |StatsReports(ws)| ==>
      StatsReports(ws)[k].percent == 0.0 && StatsReports(ws)[k].count % 100 == 0
  {
    if |ws| > 0 {
      StatsReportsShape(ws[..|ws| - 1]);
    }
  }

  /** An unreadable file leaves the statistics as they are, and it repeats
      the report of the current count exactly when that count is a multiple
      of 100: before the first readable file, or right after a hundredth. */
  lemma UnreadableRepeatsReport(ws: seq<FileEntry>, f: FileEntry)
    requires !Readable(f)
    ensures StatsOf(ws + [f]) == StatsOf(ws)
    ensures StatsReports(ws + [f]) == StatsReports(ws) +
      (if StatsOf(ws).totalFiles % 100 == 0 then [Progress(0.0, StatsOf(ws).totalFiles)] else [])
  {
    StatsOfSnoc(ws, f);
  }

  /** After one readable file, an unreadable one fires no callback: the
      count stays at 1. */
  lemma UnreadableAfterReadableSilent(e: FileEntry, f: FileEntry)
    requires Readable(e) && !Readable(f)
    ensures StatsReports([e, f]) == []
    ensures StatsOf([e, f]).totalFiles == 1
  {
    var one: seq<FileEntry> := [e];
    var two: seq<FileEntry> := [e, f];
    assert two[..1] == one;
    assert one[..0] == [];
    assert StatsOf(one).totalFiles == 1;
    assert StatsReports(one) == [];
  }

  /** Before the first readable file, each unreadable file reports
      `Scanned 0 files...`. */
  lemma UnreadableFilesReportZero(e: FileEntry, f: FileEntry)
    requires !Readable(e) && !Readable(f)
    ensures StatsReports([e, f]) == [Progress(0.0, 0), Progress(0.0, 0)]
    ensures StatsOf([e, f]) == Empty
  {
    var one: seq<FileEntry> := [e];
    var two: seq<FileEntry> := [e, f];
    assert two[..1] == one;
    assert one[..0] == [];
    assert StatsOf(one) == Empty;
    assert StatsOf(two) == Empty;
    assert StatsReports(one) == [Progress(0.0, 0)];
  }
}
