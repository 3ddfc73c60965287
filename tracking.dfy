/** `FileTracker` (core/file_tracker.py): a history store mapping dates
    (`%Y-%m-%d` strings) to lists of paths, plus the set `today_files` of
    paths seen today. Every change goes through `save_history`, which first
    overwrites today's bucket with `today_files` and then writes the whole
    map to the history file. The file is modelled by the field `stored`;
    the clock that fixes `today`, `os.path.exists`, `os.walk` and `getmtime`
    are parameters. */
module Tracking {
  import opened Wrappers
  import opened Files
  import opened Seqs

  /** A `%Y-%m-%d` date string, used as the history key. */
  type Date = string

  /** `self.history`: date -> list of paths. */
  type History = map<Date, seq<Path>>

  /** What `load_history` finds at `history_file`: no file, a file that
      `json.load` rejects, or a JSON object of date -> list of paths. */
  datatype Stored = Missing | Unparseable | Parsed(content: History)

  /** A file met by `os.walk` under the backfilled path: its full path and
      the `%Y-%m-%d` date of its modification time, `None` when `getmtime`
      raises. */
  datatype TreeFile = TreeFile(path: Path, modified: Option<Date>)

  /** A watchdog event as the handlers read it. */
  datatype FileEvent = FileEvent(isDirectory: bool, srcPath: Path)

  /** `current_files` after the walk of `tree`: the paths whose modification
      date is `date`. */
  function Matching(tree: seq<TreeFile>, date: Date): set<Path>
    decreases |tree|
  {
    if |tree| == 0 then {}
    else
      var f := tree[|tree| - 1];
      Matching(tree[..|tree| - 1], date) + (if f.modified == Some(date) then {f.path} else {})
  }

  /** A path is collected exactly when some walked file with that path has
      its modification date equal to `date`; files whose `getmtime` raised
      are skipped. */
  lemma {:induction false} MatchingIff(tree: seq<TreeFile>, date: Date, p: Path)
    ensures p in Matching(tree, date) <==>
      exists k :: 0 <= k < |tree| && tree[k].path == p && tree[k].modified == Some(date)
    decreases |tree|
  {
    if |tree| > 0 {
      var init := tree[..|tree| - 1];
      MatchingIff(init, date, p);
      if p in Matching(init, date) {
        var k :| 0 <= k < |init| && init[k].path == p && init[k].modified == Some(date);
        assert tree[k] == init[k];
      }
      if exists k :: 0 <= k < |tree| && tree[k].path == p && tree[k].modified == Some(date) {
        var k :| 0 <= k < |tree| && tree[k].path == p && tree[k].modified == Some(date);
        if k < |init| {
          assert init[k] == tree[k];
        }
      }
    }
  }

  /** The history with the order of each list forgotten: what survives of it
      through `set(...)` and `list(...)`. */
  function View(h: History): map<Date, set<Path>> {
    map d | d in h :: Elems(h[d])
  }

  /** The view after `save_history`: today's bucket is `today_files`. */
  function Saved(v: map<Date, set<Path>>, today: Date, todayFiles: set<Path>): map<Date, set<Path>> {
    v[today := todayFiles]
  }

  /** The view after the merge of `add_current_files_for_date`, before its
      save: the found paths are added to the date's bucket, created when
      missing. */
  function Backfilled(v: map<Date, set<Path>>, date: Date, found: set<Path>): map<Date, set<Path>> {
    v[date := (if date in v then v[date] else {}) + found]
  }

  lemma ViewUpdate(h: History, d: Date, l: seq<Path>)
    ensures View(h[d := l]) == View(h)[d := Elems(l)]
  {
    var a, b := View(h[d := l]), View(h)[d := Elems(l)];
    assert a.Keys == b.Keys;
    forall e | e in a.Keys ensures a[e] == b[e] {
    }
  }

  /** Backfilling the same found paths twice, each followed by a save, ends
      where one backfill ends. */
  lemma BackfillIdempotent(v: map<Date, set<Path>>, today: Date, todayFiles: set<Path>, date: Date, found: set<Path>)
    ensures var once := Saved(Backfilled(v, date, found), today, todayFiles);
      Saved(Backfilled(once, date, found), today, todayFiles) == once
  {
    var once := Saved(Backfilled(v, date, found), today, todayFiles);
    var twice := Saved(Backfilled(once, date, found), today, todayFiles);
    assert twice.Keys == once.Keys;
    if date != today {
      assert once[date] == (if date in v then v[date] else {}) + found;
      assert twice[date] == once[date] + found;
    }
  }

  /** A backfill into today's date is lost: the save that follows it resets
      today's bucket from `today_files`. */
  lemma BackfillTodayDiscarded(v: map<Date, set<Path>>, today: Date, todayFiles: set<Path>, found: set<Path>)
    ensures Saved(Backfilled(v, today, found), today, todayFiles) == Saved(v, today, todayFiles)
  {
    var a, b := Saved(Backfilled(v, today, found), today, todayFiles), Saved(v, today, todayFiles);
    assert a.Keys == b.Keys;
  }

  /** The list comprehension of `clean_history_for_path`: entries not
      starting with `removed`. */
  function Outside(removed: Path): Path -> bool {
    (f: Path) => !(removed <= f)
  }

  /** Cleaning keeps exactly the entries that do not start with the removed
      path, each as often as before; a list without repeats keeps none, and a
      list with no entry under the removed path is unchanged. */
  lemma CleanedEntries(l: seq<Path>, removed: Path)
    ensures forall f :: f in Filter(l, Outside(removed)) <==> f in l && !(removed <= f)
    ensures forall f :: multiset(Filter(l, Outside(removed)))[f] == if removed <= f then 0 else multiset(l)[f]
    ensures Distinct(l) ==> Distinct(Filter(l, Outside(removed)))
    ensures (forall f :: f in l ==> !(removed <= f)) ==> Filter(l, Outside(removed)) == l
  {
    FilterCount(l, Outside(removed));
    FilterMembers(l, Outside(removed));
    if Distinct(l) {
      FilterDistinct(l, Outside(removed));
    }
    if forall f :: f in l ==> !(removed <= f) {
      FilterAll(l, Outside(removed));
    }
  }

  /** The prefix test is on characters, not on path components: removing
      `/data/photos` also drops `/data/photos-old/a.jpg`. */
  lemma CleanIsNotComponentAware()
    ensures Filter(["/data/photos-old/a.jpg"], Outside("/data/photos")) == []
  {
    var l: seq<Path> := ["/data/photos-old/a.jpg"];
    var removed: Path := "/data/photos";
    assert removed <= l[0];
    FilterMembers(l, Outside(removed));
  }

  /** `any(f.startswith(path) for path in selected_paths)`. */
  predicate UnderAny(selected: seq<Path>, f: Path) {
    exists k :: 0 <= k < |selected| && selected[k] <= f
  }

  function Selected(selected: seq<Path>): Path -> bool {
    (f: Path) => UnderAny(selected, f)
  }

  /** `list(s)`: the elements of a set, each once, in the set's iteration
      order, which is left open. */
  method ListOf(s: set<Path>) returns (l: seq<Path>)
    ensures Elems(l) == s && Distinct(l) && |l| == |s|
  {
    l := [];
    var rest := s;
    while rest != {}
      invariant Elems(l) + rest == s && Elems(l) !! rest
      invariant Distinct(l) && |l| + |rest| == |s|
      decreases |rest|
    {
      var x :| x in rest;
      assert x !in Elems(l);
      SnocDistinct(l, x);
      l := l + [x];
      rest := rest - {x};
    }
  }

  class FileTracker {
    /** `datetime.now().strftime('%Y-%m-%d')` at construction; never advanced. */
    var today: Date
    var todayFiles: set<Path>
    var history: History
    /** The contents of `history_file`. */
    var stored: Stored

    /** `__init__`: an empty history and `today_files`, then `load_history`. */
    constructor (now: Date, file: Stored)
      ensures today == now && stored == file
      ensures file.Parsed? ==> (history == file.content &&
        todayFiles == if now in file.content then Elems(file.content[now]) else {})
      ensures !file.Parsed? ==> history == map[] && todayFiles == {}
    {
      today := now;
      todayFiles := {};
      history := map[];
      stored := file;
      new;
      LoadHistory();
    }

    /** `load_history`: a missing file changes nothing, an unreadable one
        empties the history, a readable one replaces it and, when it holds
        today, `today_files` becomes that bucket's set. */
    method LoadHistory()
      modifies this
      ensures today == old(today) && stored == old(stored)
      ensures stored.Missing? ==> history == old(history) && todayFiles == old(todayFiles)
      ensures stored.Unparseable? ==> history == map[] && todayFiles == old(todayFiles)
      ensures stored.Parsed? ==> (history == stored.content &&
        todayFiles == if today in stored.content then Elems(stored.content[today]) else old(todayFiles))
    {
      match stored {
        case Missing =>
        case Unparseable =>
          history := map[];
        case Parsed(content) =>
          history := content;
          if today in history {
            todayFiles := Elems(history[today]);
          }
      }
    }

    /** `save_history`: today's bucket becomes `list(today_files)`, nothing
        else in the history changes, and the file then holds the history. */
    method SaveHistory()
      modifies this
      ensures today == old(today) && todayFiles == old(todayFiles)
      ensures today in history && Elems(history[today]) == todayFiles && Distinct(history[today])
      ensures history == old(history)[today := history[today]]
      ensures View(history) == Saved(View(old(history)), today, todayFiles)
      ensures stored == Parsed(history)
    {
      var files := ListOf(todayFiles);
      ViewUpdate(history, today, files);
      history := history[today := files];
      stored := Parsed(history);
    }

    /** `add_current_files_for_date`: `False` and no change when the path does
        not exist; otherwise the paths under it modified on `date` are merged
        into that date's bucket, the history is saved, and `True` is
        returned. */
    method AddCurrentFilesForDate(date: Date, pathExists: bool, tree: seq<TreeFile>) returns (added: bool)
      modifies this
      ensures added == pathExists
      ensures today == old(today) && todayFiles == old(todayFiles)
      ensures !pathExists ==> history == old(history) && stored == old(stored)
      ensures pathExists ==> stored == Parsed(history) && history.Keys == old(history).Keys + {date, today}
      ensures pathExists ==> View(history) == Saved(Backfilled(View(old(history)), date, Matching(tree, date)), today, todayFiles)
      ensures pathExists ==> forall d :: d in old(history) && d != date && d != today ==> history[d] == old(history)[d]
      ensures pathExists && date != today ==> Distinct(history[date])
    {
      if !pathExists {
        return false;
      }
      var currentFiles: set<Path> := {};
      var k := 0;
      while k < |tree|
        invariant 0 <= k <= |tree| && currentFiles == Matching(tree[..k], date)
      {
        var f := tree[k];
        assert tree[..k + 1][..k] == tree[..k];
        match f.modified {
          case Some(fileDate) =>
            if fileDate == date {
              currentFiles := currentFiles + {f.path};
            }
          case None =>
        }
        k := k + 1;
      }
      assert tree[..|tree|] == tree;
      ghost var before := View(history);
      var files: seq<Path>;
      if date in history {
        var existing := Elems(history[date]);
        existing := existing + currentFiles;
        files := ListOf(existing);
      } else {
        files := ListOf(currentFiles);
      }
      ViewUpdate(history, date, files);
      history := history[date := files];
      assert View(history) == Backfilled(before, date, currentFiles);
      SaveHistory();
      added := true;
    }

    /** `on_modified` and `on_created`, whose bodies are the same: a file
        event adds its path to `today_files` and saves; a directory event
        changes nothing. */
    method HandleEvent(event: FileEvent)
      modifies this
      ensures today == old(today)
      ensures event.isDirectory ==> todayFiles == old(todayFiles) && history == old(history) && stored == old(stored)
      ensures !event.isDirectory ==> todayFiles == old(todayFiles) + {event.srcPath}
      ensures !event.isDirectory ==> today in history && Elems(history[today]) == todayFiles && Distinct(history[today])
      ensures !event.isDirectory ==> history == old(history)[today := history[today]]
      ensures !event.isDirectory ==> View(history) == Saved(View(old(history)), today, todayFiles)
      ensures !event.isDirectory ==> stored == Parsed(history)
    {
      if !event.isDirectory {
        todayFiles := todayFiles + {event.srcPath};
        SaveHistory();
      }
    }

    /** `get_files_for_date`: the date's bucket, `[]` for an unknown date;
        unfiltered when `selected_paths` is `None` or empty, otherwise the
        entries starting with some selected path, as often as in the bucket
        and in its order (`Seqs.FilterAppend`). */
    function GetFilesForDate(date: Date, selectedPaths: Option<seq<Path>>): (r: seq<Path>)
      reads this
      ensures date !in history ==> r == []
      ensures selectedPaths.None? || |selectedPaths.value| == 0 ==>
        r == if date in history then history[date] else []
      ensures selectedPaths.Some? && |selectedPaths.value| > 0 ==>
        forall f :: f in r <==> date in history && f in history[date] && UnderAny(selectedPaths.value, f)
      ensures selectedPaths.Some? && |selectedPaths.value| > 0 && date in history ==>
        forall f :: multiset(r)[f] == if UnderAny(selectedPaths.value, f) then multiset(history[date])[f] else 0
    {
      var allFiles := if date in history then history[date] else [];
      match selectedPaths
      case None => allFiles
      case Some(paths) =>
        if |paths| == 0 then allFiles
        else
          FilterCount(allFiles, Selected(paths));
          FilterMembers(allFiles, Selected(paths));
          Filter(allFiles, Selected(paths))
    }

    /** `clean_history_for_path`: every date's list loses exactly the entries
        starting with `removed`, keeping the rest in order; the save then
        resets today's bucket from `today_files`, so today's matching
        entries survive. Always `True`. */
    method CleanHistoryForPath(removed: Path) returns (cleaned: bool)
      modifies this
      ensures cleaned
      ensures today == old(today) && todayFiles == old(todayFiles)
      ensures history.Keys == old(history).Keys + {today}
      ensures forall d :: d in old(history) && d != today ==> history[d] == Filter(old(history)[d], Outside(removed))
      ensures Elems(history[today]) == todayFiles && Distinct(history[today])
      ensures forall f :: f in todayFiles && removed <= f ==> f in history[today]
      ensures stored == Parsed(history)
    {
      ghost var before := history;
      var dates := history.Keys;
      while dates != {}
        invariant dates <= before.Keys && history.Keys == before.Keys
        invariant forall d :: d in before && d !in dates ==> history[d] == Filter(before[d], Outside(removed))
        invariant forall d :: d in dates ==> history[d] == before[d]
        invariant today == old(today) && todayFiles == old(todayFiles)
        decreases |dates|
      {
        var date :| date in dates;
        history := history[date := Filter(history[date], Outside(removed))];
        dates := dates - {date};
      }
      SaveHistory();
      cleaned := true;
    }
  }
}
