/** The dictionary of lists that the hash and name+size scans build:
    `files_by_key.setdefault(key, []).append(path)` for every walked file whose
    key could be computed, followed by the filter that keeps the lists with
    more than one path. */
module Buckets {
  import opened Wrappers
  import opened Files
  import opened Seqs

  function PathsOf(ws: seq<FileEntry>): (ps: seq<Path>)
    ensures |ps| == |ws|
    ensures forall i :: 0 <= i < |ws| ==> ps[i] == ws[i].path
  {
    seq(|ws|, i requires 0 <= i < |ws| => ws[i].path)
  }

  lemma PathsOfConcat(a: seq<FileEntry>, b: seq<FileEntry>)
    ensures PathsOf(a + b) == PathsOf(a) + PathsOf(b)
  {
  }

  predicate DistinctPaths(ws: seq<FileEntry>) {
    forall i, j :: 0 <= i < j < |ws| ==> ws[i].path != ws[j].path
  }

  function HasKey<K(==)>(key: FileEntry -> Option<K>, k: K): FileEntry -> bool {
    (e: FileEntry) => key(e) == Some(k)
  }

  /** The reference definition of a bucket: the paths of exactly the walked
      entries whose key is `k`, each once, in walk order. */
  function Members<K(==)>(ws: seq<FileEntry>, key: FileEntry -> Option<K>, k: K): seq<Path> {
    PathsOf(Filter(ws, HasKey(key, k)))
  }

  /** The dictionary as the scan loop builds it, one walked entry at a time. */
  function GroupBy<K(==)>(ws: seq<FileEntry>, key: FileEntry -> Option<K>): map<K, seq<Path>>
    decreases |ws|
  {
    if |ws| == 0 then map[]
    else
      var g := GroupBy(ws[..|ws| - 1], key);
      var e := ws[|ws| - 1];
      match key(e)
      case None => g
      case Some(k) => g[k := (if k in g then g[k] else []) + [e.path]]
  }

  /** `{k: files for k, files in g.items() if len(files) > 1}`. */
  function Duplicates<K(==,!new)>(g: map<K, seq<Path>>): (d: map<K, seq<Path>>)
    ensures forall k :: k in d <==> k in g && |g[k]| > 1
  {
    map k | k in g && |g[k]| > 1 :: g[k]
  }

  lemma MembersSnoc<K(!new)>(ws: seq<FileEntry>, e: FileEntry, key: FileEntry -> Option<K>, k: K)
    ensures Members(ws + [e], key, k) == Members(ws, key, k) + (if key(e) == Some(k) then [e.path] else [])
  {
    FilterSnoc(ws, e, HasKey(key, k));
    PathsOfConcat(Filter(ws, HasKey(key, k)), if key(e) == Some(k) then [e] else []);
  }

  /** The dictionary built entry by entry holds, under every key, exactly that
      key's members, and holds a key exactly when it has a member. */
  lemma {:induction false} GroupByMembers<K(!new)>(ws: seq<FileEntry>, key: FileEntry -> Option<K>)
    ensures forall k :: k in GroupBy(ws, key) <==> |Members(ws, key, k)| > 0
    ensures forall k :: k in GroupBy(ws, key) ==> GroupBy(ws, key)[k] == Members(ws, key, k)
    decreases |ws|
  {
    if |ws| > 0 {
      var init, e := ws[..|ws| - 1], ws[|ws| - 1];
      assert ws == init + [e];
      GroupByMembers(init, key);
      forall k ensures Members(ws, key, k) == Members(init, key, k) + (if key(e) == Some(k) then [e.path] else []) {
        MembersSnoc(init, e, key, k);
      }
    }
  }

  /** The scan result: every bucket has at least two paths and is exactly the
      members of its key, and every key with two or more members has a bucket. */
  lemma DuplicatesOfGroupBy<K(!new)>(ws: seq<FileEntry>, key: FileEntry -> Option<K>)
    ensures forall k :: k in Duplicates(GroupBy(ws, key)) <==> |Members(ws, key, k)| >= 2
    ensures forall k :: k in Duplicates(GroupBy(ws, key)) ==> Duplicates(GroupBy(ws, key))[k] == Members(ws, key, k)
  {
    GroupByMembers(ws, key);
  }

  /** A path is in a bucket exactly when some walked entry with that path has
      the bucket's key. */
  lemma MembersPaths<K(!new)>(ws: seq<FileEntry>, key: FileEntry -> Option<K>, k: K, p: Path)
    ensures p in Members(ws, key, k) <==> exists i :: 0 <= i < |ws| && ws[i].path == p && key(ws[i]) == Some(k)
  {
    var f := Filter(ws, HasKey(key, k));
    FilterMembers(ws, HasKey(key, k));
    if p in Members(ws, key, k) {
      var m :| 0 <= m < |f| && f[m].path == p;
      assert f[m] in ws;
      var i :| 0 <= i < |ws| && ws[i] == f[m];
    }
    if exists i :: 0 <= i < |ws| && ws[i].path == p && key(ws[i]) == Some(k) {
      var i :| 0 <= i < |ws| && ws[i].path == p && key(ws[i]) == Some(k);
      assert ws[i] in f;
      var m :| 0 <= m < |f| && f[m] == ws[i];
      assert PathsOf(f)[m] == p;
    }
  }

  /** The walked entry a bucket member comes from. */
  lemma MemberIndex<K(!new)>(ws: seq<FileEntry>, key: FileEntry -> Option<K>, k: K, p: Path) returns (i: nat)
    requires p in Members(ws, key, k)
    ensures i < |ws| && ws[i].path == p && key(ws[i]) == Some(k)
  {
    MembersPaths(ws, key, k, p);
    i :| 0 <= i < |ws| && ws[i].path == p && key(ws[i]) == Some(k);
  }

  lemma IndexMember<K(!new)>(ws: seq<FileEntry>, key: FileEntry -> Option<K>, k: K, i: nat)
    requires i < |ws| && key(ws[i]) == Some(k)
    ensures ws[i].path in Members(ws, key, k)
  {
    MembersPaths(ws, key, k, ws[i].path);
  }

  /** Two different walked entries with the same key land in the same
      (reported) bucket. */
  lemma {:induction false} SameKeySameBucket<K(!new)>(ws: seq<FileEntry>, key: FileEntry -> Option<K>, i: nat, j: nat)
    requires i < j < |ws|
    requires key(ws[i]).Some? && key(ws[i]) == key(ws[j])
    ensures var k := key(ws[i]).value;
      k in Duplicates(GroupBy(ws, key)) &&
      ws[i].path in Duplicates(GroupBy(ws, key))[k] && ws[j].path in Duplicates(GroupBy(ws, key))[k]
  {
    var k := key(ws[i]).value;
    var keep := HasKey(key, k);
    var a, b, c := ws[..i], ws[i + 1..j], ws[j + 1..];
    assert ws == a + [ws[i]] + b + [ws[j]] + c;
    FilterSnoc(a, ws[i], keep);
    FilterSnoc(a + [ws[i]] + b, ws[j], keep);
    assert |Filter(a + [ws[i]] + b, keep)| >= |Filter(a + [ws[i]], keep)| by {
      FilterPrefixShorter(a + [ws[i]], b, keep);
    }
    assert |Filter(ws, keep)| >= |Filter(a + [ws[i]] + b + [ws[j]], keep)| by {
      FilterPrefixShorter(a + [ws[i]] + b + [ws[j]], c, keep);
    }
    DuplicatesOfGroupBy(ws, key);
    MembersPaths(ws, key, k, ws[i].path);
    MembersPaths(ws, key, k, ws[j].path);
  }

  lemma {:induction false} FilterPrefixShorter(a: seq<FileEntry>, b: seq<FileEntry>, keep: FileEntry -> bool)
    ensures |Filter(a, keep)| <= |Filter(a + b, keep)|
    decreases |b|
  {
    if |b| > 0 {
      var b', x := b[..|b| - 1], b[|b| - 1];
      assert a + b == (a + b') + [x];
      FilterSnoc(a + b', x, keep);
      FilterPrefixShorter(a, b', keep);
    } else {
      assert a + b == a;
    }
  }

  /** With pairwise different paths (disjoint roots), two files share a
      reported bucket exactly when their keys are equal and defined. */
  lemma SameBucketIff<K(!new)>(ws: seq<FileEntry>, key: FileEntry -> Option<K>, i: nat, j: nat)
    requires DistinctPaths(ws)
    requires i < j < |ws|
    ensures (exists k :: k in Duplicates(GroupBy(ws, key)) &&
               ws[i].path in Duplicates(GroupBy(ws, key))[k] && ws[j].path in Duplicates(GroupBy(ws, key))[k])
        <==> (key(ws[i]).Some? && key(ws[i]) == key(ws[j]))
  {
    var d := Duplicates(GroupBy(ws, key));
    if key(ws[i]).Some? && key(ws[i]) == key(ws[j]) {
      SameKeySameBucket(ws, key, i, j);
    }
    if exists k :: k in d && ws[i].path in d[k] && ws[j].path in d[k] {
      var k :| k in d && ws[i].path in d[k] && ws[j].path in d[k];
      DuplicatesOfGroupBy(ws, key);
      MembersPaths(ws, key, k, ws[i].path);
      MembersPaths(ws, key, k, ws[j].path);
      var i' :| 0 <= i' < |ws| && ws[i'].path == ws[i].path && key(ws[i']) == Some(k);
      var j' :| 0 <= j' < |ws| && ws[j'].path == ws[j].path && key(ws[j']) == Some(k);
      assert i' == i && j' == j;
    }
  }

  /** With pairwise different paths no bucket repeats a path. */
  lemma {:induction false} MembersDistinct<K(!new)>(ws: seq<FileEntry>, key: FileEntry -> Option<K>, k: K)
    requires DistinctPaths(ws)
    ensures Distinct(Members(ws, key, k))
    decreases |ws|
  {
    if |ws| > 0 {
      var init, e := ws[..|ws| - 1], ws[|ws| - 1];
      assert ws == init + [e];
      MembersDistinct(init, key, k);
      MembersSnoc(init, e, key, k);
      if e.path in Members(init, key, k) {
        MembersPaths(init, key, k, e.path);
      }
    }
  }

  /** Overlapping roots walk the same file twice, and the bucket then repeats
      its path. */
  lemma RepeatedWalkRepeatsPath<K(!new)>(e: FileEntry, key: FileEntry -> Option<K>)
    requires key(e).Some?
    ensures Duplicates(GroupBy([e, e], key)) == map[key(e).value := [e.path, e.path]]
  {
    PairBucket(e, e, key, key(e).value);
    var g := GroupBy([e, e], key);
    assert Duplicates(g).Keys == {key(e).value};
  }

  /** Two walked entries with the same key make one bucket of both paths. */
  lemma PairBucket<K(!new)>(a: FileEntry, b: FileEntry, key: FileEntry -> Option<K>, k: K)
    requires key(a) == key(b) == Some(k)
    ensures GroupBy([a, b], key) == map[k := [a.path, b.path]]
  {
    var none: seq<FileEntry> := [];
    assert GroupBy(none, key) == map[];
    GroupBySnoc(none, a, key);
    assert none + [a] == [a];
    var empty: map<K, seq<Path>> := map[];
    var first: seq<Path> := [] + [a.path];
    assert first == [a.path];
    assert GroupBy([a], key) == empty[k := first] == map[k := [a.path]];
    GroupBySnoc([a], b, key);
    assert [a] + [b] == [a, b];
    var second: seq<Path> := [a.path] + [b.path];
    assert second == [a.path, b.path];
  }

  lemma GroupBySnoc<K(!new)>(ws: seq<FileEntry>, e: FileEntry, key: FileEntry -> Option<K>)
    ensures GroupBy(ws + [e], key) ==
      var g := GroupBy(ws, key);
      match key(e)
      case None => g
      case Some(k) => g[k := (if k in g then g[k] else []) + [e.path]]
  {
    var w := ws + [e];
    assert w[..|w| - 1] == ws;
    assert w[|w| - 1] == e;
  }

  /** One more walked entry, as the scan loops add it. */
  lemma GroupByNext<K(!new)>(ws: seq<FileEntry>, i: nat, key: FileEntry -> Option<K>)
    requires i < |ws|
    ensures GroupBy(ws[..i + 1], key) ==
      var g := GroupBy(ws[..i], key);
      match key(ws[i])
      case None => g
      case Some(k) => g[k := (if k in g then g[k] else []) + [ws[i].path]]
  {
    assert ws[..i + 1][..i] == ws[..i];
  }
}
