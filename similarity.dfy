/** The grouping of `find_similar_files` (core/duplicate_finder.py): every
    pair `i < j` of walked files is compared by name, and a qualifying pair
    joins the first existing group that holds either path, or starts a new
    group. Groups are kept in creation order; group number `g` is the dict
    key `f"group_{g}"`. */
module Similarity {
  import opened Wrappers
  import opened Files
  import opened Seqs
  import opened Decimal
  import opened Buckets

  type Groups = seq<seq<Path>>

  /** The first group, in creation order, that holds `p1` or `p2`. */
  function FirstGroupWith(groups: Groups, p1: Path, p2: Path): (r: Option<nat>)
    ensures r.Some? ==> r.value < |groups| && (p1 in groups[r.value] || p2 in groups[r.value])
    decreases |groups|
  {
    if |groups| == 0 then None
    else if p1 in groups[0] || p2 in groups[0] then Some(0)
    else
      match FirstGroupWith(groups[1..], p1, p2)
      case None => None
      case Some(g) => Some(g + 1)
  }

  /** No group before the one found holds either path, and none at all when
      none is found. */
  lemma {:induction false} FirstGroupWithIsFirst(groups: Groups, p1: Path, p2: Path)
    ensures var r := FirstGroupWith(groups, p1, p2);
      forall g :: 0 <= g < |groups| && (r.None? || g < r.value) ==> p1 !in groups[g] && p2 !in groups[g]
    decreases |groups|
  {
    if |groups| > 0 && p1 !in groups[0] && p2 !in groups[0] {
      FirstGroupWithIsFirst(groups[1..], p1, p2);
      var r := FirstGroupWith(groups, p1, p2);
      forall g | 0 <= g < |groups| && (r.None? || g < r.value) ensures p1 !in groups[g] && p2 !in groups[g] {
        if g > 0 {
          assert groups[g] == groups[1..][g - 1];
        }
      }
    }
  }

  /** `if p not in group: group.append(p)`. */
  function AppendNew(group: seq<Path>, p: Path): (r: seq<Path>)
    ensures p in r && Elems(r) == Elems(group) + {p}
    ensures group <= r && |r| <= |group| + 1
    ensures Distinct(group) ==> Distinct(r)
  {
    if p in group then group else group + [p]
  }

  /** One qualifying pair: it joins the first group holding either path, or
      becomes the new group `[p1, p2]`. */
  function Merge(groups: Groups, p1: Path, p2: Path): Groups {
    match FirstGroupWith(groups, p1, p2)
    case None => groups + [[p1, p2]]
    case Some(g) => groups[g := AppendNew(AppendNew(groups[g], p1), p2)]
  }

  /** No group disappears or loses a path, and earlier paths keep their
      positions. */
  predicate Extends(before: Groups, after: Groups) {
    |before| <= |after| &&
    forall g :: 0 <= g < |before| ==> before[g] <= after[g]
  }

  /** One merge: the groups extend and at most one group is added. */
  predicate Grows(before: Groups, after: Groups) {
    Extends(before, after) && |after| <= |before| + 1
  }

  /** Two paths that share a group. */
  predicate CoGrouped(groups: Groups, p: Path, q: Path) {
    exists g :: 0 <= g < |groups| && p in groups[g] && q in groups[g]
  }

  lemma ExtendsKeepsCoGrouped(before: Groups, after: Groups, p: Path, q: Path)
    requires Extends(before, after) && CoGrouped(before, p, q)
    ensures CoGrouped(after, p, q)
  {
    var g :| 0 <= g < |before| && p in before[g] && q in before[g];
    assert before[g] <= after[g];
    assert p in after[g] && q in after[g];
  }

  /** What a merge does: both paths end up in one group; the groups grow; a
      group is created only when neither path was in any group, and it is
      exactly `[p1, p2]`. */
  lemma MergeEffect(groups: Groups, p1: Path, p2: Path)
    ensures Grows(groups, Merge(groups, p1, p2))
    ensures CoGrouped(Merge(groups, p1, p2), p1, p2)
    ensures |Merge(groups, p1, p2)| == |groups| + 1 <==>
      (forall g :: 0 <= g < |groups| ==> p1 !in groups[g] && p2 !in groups[g])
    ensures |Merge(groups, p1, p2)| == |groups| + 1 ==> Merge(groups, p1, p2)[|groups|] == [p1, p2]
  {
    var m := Merge(groups, p1, p2);
    FirstGroupWithIsFirst(groups, p1, p2);
    match FirstGroupWith(groups, p1, p2)
    case None =>
      assert p1 in m[|groups|] && p2 in m[|groups|];
    case Some(g) =>
      assert p1 in m[g] && p2 in m[g];
  }

  /** The shape every group keeps: at least two paths, all of them paths of
      `files`; no repeated path when the merged pairs are of different paths. */
  predicate WellFormed(groups: Groups, files: seq<FileEntry>, distinct: bool) {
    forall g :: 0 <= g < |groups| ==>
      |groups[g]| >= 2 &&
      (distinct ==> Distinct(groups[g])) &&
      forall p :: p in groups[g] ==> p in PathsOf(files)
  }

  lemma MergeWellFormed(groups: Groups, files: seq<FileEntry>, distinct: bool, p1: Path, p2: Path)
    requires WellFormed(groups, files, distinct)
    requires p1 in PathsOf(files) && p2 in PathsOf(files)
    requires distinct ==> p1 != p2
    ensures WellFormed(Merge(groups, p1, p2), files, distinct)
  {
    var m := Merge(groups, p1, p2);
    match FirstGroupWith(groups, p1, p2)
    case None =>
      assert m[|groups|] == [p1, p2];
    case Some(g) =>
      var grown := AppendNew(AppendNew(groups[g], p1), p2);
      assert m[g] == grown;
      assert Elems(grown) == Elems(groups[g]) + {p1, p2};
      forall p | p in grown ensures p in PathsOf(files) {
        assert p in Elems(grown);
      }
  }

  /** Merging the pair of files `i`, `j` when their names are similar enough. */
  function Step(files: seq<FileEntry>, ratio: (string, string) -> real, threshold: real, i: nat, j: nat, groups: Groups): Groups
    requires i < |files| && j < |files|
  {
    if ratio(files[i].name, files[j].name) >= threshold then Merge(groups, files[i].path, files[j].path) else groups
  }

  /** The inner loop from `j` on: file `i` against files `j ..`. */
  function Compare(files: seq<FileEntry>, ratio: (string, string) -> real, threshold: real, i: nat, j: nat, groups: Groups): Groups
    requires i < |files|
    decreases |files| - j
  {
    if j >= |files| then groups
    else Compare(files, ratio, threshold, i, j + 1, Step(files, ratio, threshold, i, j, groups))
  }

  lemma CompareNext(files: seq<FileEntry>, ratio: (string, string) -> real, threshold: real, i: nat, j: nat, groups: Groups)
    requires i < |files| && j < |files|
    ensures Compare(files, ratio, threshold, i, j, groups) ==
      Compare(files, ratio, threshold, i, j + 1, Step(files, ratio, threshold, i, j, groups))
  {
  }

  lemma CompareEnd(files: seq<FileEntry>, ratio: (string, string) -> real, threshold: real, i: nat, j: nat, groups: Groups)
    requires i < |files| <= j
    ensures Compare(files, ratio, threshold, i, j, groups) == groups
  {
  }

  /** The outer loop from `i` on. */
  function CompareAll(files: seq<FileEntry>, ratio: (string, string) -> real, threshold: real, i: nat, groups: Groups): Groups
    decreases |files| - i
  {
    if i >= |files| then groups
    else CompareAll(files, ratio, threshold, i + 1, Compare(files, ratio, threshold, i, i + 1, groups))
  }

  /** The groups of an uninterrupted scan. */
  function SimilarGroups(files: seq<FileEntry>, ratio: (string, string) -> real, threshold: real): Groups {
    CompareAll(files, ratio, threshold, 0, [])
  }

  lemma {:induction false} CompareWellFormed(files: seq<FileEntry>, ratio: (string, string) -> real, threshold: real, i: nat, j: nat, groups: Groups)
    requires i < |files| && i < j
    requires WellFormed(groups, files, DistinctPaths(files))
    ensures WellFormed(Compare(files, ratio, threshold, i, j, groups), files, DistinctPaths(files))
    decreases |files| - j
  {
    if j < |files| {
      if ratio(files[i].name, files[j].name) >= threshold {
        assert files[i].path == PathsOf(files)[i] && files[j].path == PathsOf(files)[j];
        MergeWellFormed(groups, files, DistinctPaths(files), files[i].path, files[j].path);
      }
      CompareWellFormed(files, ratio, threshold, i, j + 1, Step(files, ratio, threshold, i, j, groups));
    }
  }

  lemma {:induction false} CompareAllWellFormed(files: seq<FileEntry>, ratio: (string, string) -> real, threshold: real, i: nat, groups: Groups)
    requires WellFormed(groups, files, DistinctPaths(files))
    ensures WellFormed(CompareAll(files, ratio, threshold, i, groups), files, DistinctPaths(files))
    decreases |files| - i
  {
    if i < |files| {
      CompareWellFormed(files, ratio, threshold, i, i + 1, groups);
      CompareAllWellFormed(files, ratio, threshold, i + 1, Compare(files, ratio, threshold, i, i + 1, groups));
    }
  }

  /** Every group of the result has at least two paths, all walked ones, and,
      when the walk lists each path once, no path twice. */
  lemma SimilarGroupsWellFormed(files: seq<FileEntry>, ratio: (string, string) -> real, threshold: real)
    ensures WellFormed(SimilarGroups(files, ratio, threshold), files, DistinctPaths(files))
  {
    CompareAllWellFormed(files, ratio, threshold, 0, []);
  }

  lemma {:induction false} CompareExtends(files: seq<FileEntry>, ratio: (string, string) -> real, threshold: real, i: nat, j: nat, groups: Groups)
    requires i < |files|
    ensures Extends(groups, Compare(files, ratio, threshold, i, j, groups))
    decreases |files| - j
  {
    if j < |files| {
      if ratio(files[i].name, files[j].name) >= threshold {
        MergeEffect(groups, files[i].path, files[j].path);
      }
      CompareExtends(files, ratio, threshold, i, j + 1, Step(files, ratio, threshold, i, j, groups));
    }
  }

  lemma {:induction false} CompareAllExtends(files: seq<FileEntry>, ratio: (string, string) -> real, threshold: real, i: nat, groups: Groups)
    ensures Extends(groups, CompareAll(files, ratio, threshold, i, groups))
    decreases |files| - i
  {
    if i < |files| {
      CompareExtends(files, ratio, threshold, i, i + 1, groups);
      CompareAllExtends(files, ratio, threshold, i + 1, Compare(files, ratio, threshold, i, i + 1, groups));
    }
  }

  predicate Qualifies(files: seq<FileEntry>, ratio: (string, string) -> real, threshold: real, i: nat, j: nat)
    requires i < |files| && j < |files|
  {
    ratio(files[i].name, files[j].name) >= threshold
  }

  lemma {:induction false} CompareCoGroups(files: seq<FileEntry>, ratio: (string, string) -> real, threshold: real, i: nat, j: nat, groups: Groups)
    requires i < |files|
    ensures forall k :: j <= k < |files| && Qualifies(files, ratio, threshold, i, k) ==>
      CoGrouped(Compare(files, ratio, threshold, i, j, groups), files[i].path, files[k].path)
    decreases |files| - j
  {
    if j < |files| {
      var next := Step(files, ratio, threshold, i, j, groups);
      var result := Compare(files, ratio, threshold, i, j, groups);
      CompareNext(files, ratio, threshold, i, j, groups);
      CompareCoGroups(files, ratio, threshold, i, j + 1, next);
      if Qualifies(files, ratio, threshold, i, j) {
        MergeEffect(groups, files[i].path, files[j].path);
        CompareExtends(files, ratio, threshold, i, j + 1, next);
        ExtendsKeepsCoGrouped(next, result, files[i].path, files[j].path);
      }
      forall k | j <= k < |files| && Qualifies(files, ratio, threshold, i, k)
        ensures CoGrouped(result, files[i].path, files[k].path)
      {
        if k > j {
          assert j + 1 <= k;
        }
      }
    }
  }

  lemma {:induction false} CompareAllCoGroups(files: seq<FileEntry>, ratio: (string, string) -> real, threshold: real, i: nat, groups: Groups)
    ensures forall a, b :: i <= a < b < |files| && Qualifies(files, ratio, threshold, a, b) ==>
      CoGrouped(CompareAll(files, ratio, threshold, i, groups), files[a].path, files[b].path)
    decreases |files| - i
  {
    if i < |files| {
      var inner := Compare(files, ratio, threshold, i, i + 1, groups);
      var result := CompareAll(files, ratio, threshold, i, groups);
      CompareAllCoGroups(files, ratio, threshold, i + 1, inner);
      CompareCoGroups(files, ratio, threshold, i, i + 1, groups);
      CompareAllExtends(files, ratio, threshold, i + 1, inner);
      forall b | i < b < |files| && Qualifies(files, ratio, threshold, i, b)
        ensures CoGrouped(result, files[i].path, files[b].path)
      {
        ExtendsKeepsCoGrouped(inner, result, files[i].path, files[b].path);
      }
    }
  }

  /** Both files of every qualifying pair end up in one group. */
  lemma QualifyingPairsShareGroup(files: seq<FileEntry>, ratio: (string, string) -> real, threshold: real, i: nat, j: nat)
    requires i < j < |files| && ratio(files[i].name, files[j].name) >= threshold
    ensures CoGrouped(SimilarGroups(files, ratio, threshold), files[i].path, files[j].path)
  {
    CompareAllCoGroups(files, ratio, threshold, 0, []);
    assert Qualifies(files, ratio, threshold, i, j);
  }

  /** Groups are never united: with groups `[a, b]` and `[c, d]`, the pair
      `(b, d)` appends `d` to the first group, and `d` is then in both. */
  lemma MergeIsNotTransitive(a: Path, b: Path, c: Path, d: Path)
    requires a != c && a != d && b != c && b != d && a != b && c != d
    ensures Merge([[a, b], [c, d]], b, d) == [[a, b, d], [c, d]]
  {
    var groups: Groups := [[a, b], [c, d]];
    assert b in groups[0];
    assert FirstGroupWith(groups, b, d) == Some(0);
    var first: seq<Path> := [a, b];
    assert AppendNew(first, b) == first;
    assert d !in first;
    assert AppendNew(first, d) == [a, b, d];
  }

  /** The dict key of group number `g`. */
  function GroupKey(g: nat): string {
    Underscored("group", g)
  }

  /** `similar_files` as a dict: the keys are `group_0` .. `group_{k-1}`,
      one per group, all different. */
  function GroupDict(groups: Groups): (d: map<string, seq<Path>>)
    ensures forall g :: 0 <= g < |groups| ==> GroupKey(g) in d && d[GroupKey(g)] == groups[g]
    ensures forall key :: key in d ==> exists g :: 0 <= g < |groups| && key == GroupKey(g)
  {
    GroupKeyInjective();
    map g | 0 <= g < |groups| :: GroupKey(g) := groups[g]
  }

  lemma GroupKeyInjective()
    ensures forall g, h :: GroupKey(g) == GroupKey(h) ==> g == h
  {
    forall g, h | GroupKey(g) == GroupKey(h) ensures g == h {
      UnderscoredInjective("group", g, "group", h);
    }
  }

  /** The number of comparisons before row `i` of the loops: files `0 .. i-1`
      each against all later files. */
  function PairsBefore(n: nat, i: nat): nat
    requires i <= n
  {
    if i == 0 then 0 else PairsBefore(n, i - 1) + (n - i)
  }

  /** `len(all_files) * (len(all_files) - 1) // 2` comparisons in all. */
  lemma {:induction false} AllPairs(n: nat, i: nat)
    requires i <= n
    ensures 2 * PairsBefore(n, i) == i * (2 * n - i - 1)
    ensures i == n ==> PairsBefore(n, n) == n * (n - 1) / 2
  {
    if i > 0 {
      AllPairs(n, i - 1);
    }
  }

  lemma {:induction false} PairsBeforeMonotone(n: nat, i: nat, k: nat)
    requires i <= k <= n
    ensures PairsBefore(n, i) <= PairsBefore(n, k)
    decreases k - i
  {
    if i < k {
      PairsBeforeMonotone(n, i, k - 1);
    }
  }

  /** The reports after the first `done` of `total` comparisons: one after
      each comparison whose number is a multiple of 100. */
  function SimilarReports(done: nat, total: nat): seq<Progress>
    requires done <= total
  {
    if done == 0 then []
    else SimilarReports(done - 1, total) + (if done % 100 == 0 then [Progress(Percent(done, total), done)] else [])
  }

  /** One report per hundred comparisons, report k at comparison
      `100 * (k + 1)`, and at most 100 percent. */
  lemma {:induction false} SimilarReportsShape(done: nat, total: nat)
    requires done <= total
    ensures var r := SimilarReports(done, total);
      |r| == done / 100 &&
      forall k :: 0 <= k < |r| ==> r[k].count == 100 * (k + 1) && r[k].percent <= 100.0
    decreases done
  {
    if done > 0 {
      SimilarReportsShape(done - 1, total);
      if done % 100 == 0 {
        assert done / 100 == (done - 1) / 100 + 1;
        assert done == 100 * ((done - 1) / 100 + 1);
      } else {
        assert done / 100 == (done - 1) / 100;
      }
    }
  }

  /** The outcome of `find_similar_files`: `{}` when a stop request arrived
      by the check before the last comparison, else the groups as a dict. */
  function SimilarResult(files: seq<FileEntry>, ratio: (string, string) -> real, threshold: real, schedule: seq<bool>): map<string, seq<Path>> {
    if StoppedBy(schedule, PairsBefore(|files|, |files|)) then map[]
    else GroupDict(SimilarGroups(files, ratio, threshold))
  }

  /** Fewer than two files make no comparison and no group. */
  lemma FewFilesNoGroups(files: seq<FileEntry>, ratio: (string, string) -> real, threshold: real, schedule: seq<bool>)
    requires |files| < 2
    ensures SimilarResult(files, ratio, threshold, schedule) == map[]
  {
    AllPairs(|files|, |files|);
    assert PairsBefore(|files|, |files|) == 0;
    var none: Groups := [];
    if |files| == 1 {
      assert Compare(files, ratio, threshold, 0, 1, none) == none;
      assert CompareAll(files, ratio, threshold, 1, none) == none;
    }
    assert SimilarGroups(files, ratio, threshold) == none;
    var d := GroupDict(none);
    assert forall key :: key !in d;
  }
}
