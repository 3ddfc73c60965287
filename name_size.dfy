/** The outcome of `find_duplicates_by_name_size` (core/duplicate_finder.py):
    buckets keyed by `(filename, size)`, rendered as `f"{name}_{size}"`. */
module NameSize {
  import opened Wrappers
  import opened Files
  import opened Buckets
  import opened Decimal

  type NameSizeKey = (string, nat)

  /** The key of a walked file, `None` when `getsize` raises. */
  function KeyOf(e: FileEntry): Option<NameSizeKey> {
    if e.size.Some? then Some((e.name, e.size.value)) else None
  }

  function RenderKey(k: NameSizeKey): string {
    Underscored(k.0, k.1)
  }

  /** Sizes render as digits only, so different keys render differently. */
  lemma RenderKeyInjective()
    ensures forall a, b :: RenderKey(a) == RenderKey(b) ==> a == b
  {
    forall a, b | RenderKey(a) == RenderKey(b) ensures a == b {
      UnderscoredInjective(a.0, a.1, b.0, b.1);
    }
  }

  /** `{f"{name}_{size}": files for (name, size), files in g.items()}`: no two
      buckets collapse into one rendered key. */
  function Render(g: map<NameSizeKey, seq<Path>>): (r: map<string, seq<Path>>)
    ensures forall k :: k in g ==> RenderKey(k) in r && r[RenderKey(k)] == g[k]
    ensures forall s :: s in r ==> exists k :: k in g && RenderKey(k) == s
  {
    RenderKeyInjective();
    map k | k in g :: RenderKey(k) := g[k]
  }

  /** The outcome of the scan on a walk: `{}` when a stop request arrived by
      the check before the last file, else the rendered duplicate buckets. */
  function NameSizeResult(walk: seq<FileEntry>, schedule: seq<bool>): map<string, seq<Path>> {
    if StoppedBy(schedule, |walk|) then map[] else Render(Duplicates(GroupBy(walk, KeyOf)))
  }

  /** The bucket `name_size` holds at least two paths, and a path is in it
      exactly when some walked file with that path has exactly that name and
      a readable size equal to `size`. (Every key has this form, by `Render`.) */
  lemma NameSizeBuckets(walk: seq<FileEntry>, schedule: seq<bool>, name: string, size: nat, p: Path)
    requires Underscored(name, size) in NameSizeResult(walk, schedule)
    ensures |NameSizeResult(walk, schedule)[Underscored(name, size)]| >= 2
    ensures p in NameSizeResult(walk, schedule)[Underscored(name, size)] <==>
      exists i :: 0 <= i < |walk| && walk[i].path == p && walk[i].name == name && walk[i].size == Some(size)
  {
    var g := Duplicates(GroupBy(walk, KeyOf));
    var r := NameSizeResult(walk, schedule);
    assert !StoppedBy(schedule, |walk|);
    assert r == Render(g);
    var k: NameSizeKey := (name, size);
    var k' :| k' in g && RenderKey(k') == Underscored(name, size);
    UnderscoredInjective(k'.0, k'.1, name, size);
    assert k' == k;
    assert r[Underscored(name, size)] == g[k];
    DuplicatesOfGroupBy(walk, KeyOf);
    assert g[k] == Members(walk, KeyOf, k);
    if p in g[k] {
      var i := MemberIndex(walk, KeyOf, k, p);
      var e := walk[i];
      assert KeyOf(e) == Some(k);
      assert e.size.Some?;
      assert e.name == name && e.size == Some(size);
    }
    if exists i :: 0 <= i < |walk| && walk[i].path == p && walk[i].name == name && walk[i].size == Some(size) {
      var i :| 0 <= i < |walk| && walk[i].path == p && walk[i].name == name && walk[i].size == Some(size);
      var e := walk[i];
      assert KeyOf(e) == Some(k);
      IndexMember(walk, KeyOf, k, i);
    }
  }

  /** Rendering the keys neither joins nor splits buckets: two paths share
      a rendered bucket exactly when they share a bucket of `g`. */
  lemma {:induction false} RenderSameBucket(g: map<NameSizeKey, seq<Path>>, p: Path, q: Path)
    ensures (exists s :: s in Render(g) && p in Render(g)[s] && q in Render(g)[s])
        <==> (exists k :: k in g && p in g[k] && q in g[k])
  {
    var r := Render(g);
    if exists s :: s in r && p in r[s] && q in r[s] {
      var s :| s in r && p in r[s] && q in r[s];
      var k :| k in g && RenderKey(k) == s;
      assert r[RenderKey(k)] == g[k];
      assert p in g[k] && q in g[k];
    }
    if exists k :: k in g && p in g[k] && q in g[k] {
      var k :| k in g && p in g[k] && q in g[k];
      assert RenderKey(k) in r && r[RenderKey(k)] == g[k];
      assert p in r[RenderKey(k)] && q in r[RenderKey(k)];
    }
  }

  /** With pairwise different paths, two walked files share a bucket exactly
      when they have the same name and both sizes were read and are equal —
      whatever their contents. */
  lemma {:induction false} NameSizeSameBucketIff(walk: seq<FileEntry>, schedule: seq<bool>, i: nat, j: nat)
    requires DistinctPaths(walk) && i < j < |walk|
    requires !StoppedBy(schedule, |walk|)
    ensures (exists s :: s in NameSizeResult(walk, schedule) &&
               walk[i].path in NameSizeResult(walk, schedule)[s] && walk[j].path in NameSizeResult(walk, schedule)[s])
        <==> (walk[i].size.Some? && walk[i].size == walk[j].size && walk[i].name == walk[j].name)
  {
    var g := Duplicates(GroupBy(walk, KeyOf));
    assert NameSizeResult(walk, schedule) == Render(g);
    RenderSameBucket(g, walk[i].path, walk[j].path);
    SameBucketIff(walk, KeyOf, i, j);
    assert (KeyOf(walk[i]).Some? && KeyOf(walk[i]) == KeyOf(walk[j]))
       == (walk[i].size.Some? && walk[i].size == walk[j].size && walk[i].name == walk[j].name);
  }

  /** Two different empty files both named `a.txt` under two roots are
      reported as duplicates, under the key `a.txt_0`. */
  lemma EmptyNamesakesCollide(x: FileEntry, y: FileEntry)
    requires x.name == y.name == "a.txt" && x.size == y.size == Some(0)
    requires x.data != y.data
    ensures NameSizeResult([x, y], []) == map["a.txt_0" := [x.path, y.path]]
  {
    var k: NameSizeKey := ("a.txt", 0);
    assert KeyOf(x) == KeyOf(y) == Some(k);
    PairBucket(x, y, KeyOf, k);
    var g := GroupBy([x, y], KeyOf);
    assert g == map[k := [x.path, y.path]];
    assert Duplicates(g) == g;
    assert NatToString(0) == "0";
    assert RenderKey(k) == "a.txt_0";
    var r := Render(g);
    assert r.Keys == {"a.txt_0"};
  }
}
