/** Sequence helpers shared by the model: distinctness, the set of elements,
    and an order-preserving filter (a Python list comprehension with `if`). */
module Seqs {

  predicate Distinct<T(==)>(s: seq<T>) {
    forall i, j :: 0 <= i < j < |s| ==> s[i] != s[j]
  }

  function Elems<T(==)>(s: seq<T>): set<T> {
    set x | x in s
  }

  /** Appending a new element keeps a sequence distinct and adds it to the
      elements. */
  lemma SnocDistinct<T>(s: seq<T>, x: T)
    requires Distinct(s) && x !in s
    ensures Distinct(s + [x]) && Elems(s + [x]) == Elems(s) + {x}
  {
    var t := s + [x];
    forall i, j | 0 <= i < j < |t| ensures t[i] != t[j] {
      if j < |s| {
        assert t[i] == s[i] && t[j] == s[j];
      } else {
        assert t[i] == s[i];
      }
    }
    assert Elems(t) == Elems(s) + {x};
  }

  /** `[x for x in s if keep(x)]`. */
  function Filter<T(!new)>(s: seq<T>, keep: T -> bool): (r: seq<T>)
    ensures |r| <= |s|
    decreases |s|
  {
    if |s| == 0 then [] else
      var rest := Filter(s[..|s| - 1], keep);
      if keep(s[|s| - 1]) then rest + [s[|s| - 1]] else rest
  }

  /** The filter keeps each element exactly as often as it occurs, when the
      element passes, and drops it otherwise. */
  lemma {:induction false} FilterCount<T(!new)>(s: seq<T>, keep: T -> bool)
    ensures forall x :: multiset(Filter(s, keep))[x] == if keep(x) then multiset(s)[x] else 0
    decreases |s|
  {
    if |s| > 0 {
      var init, last := s[..|s| - 1], s[|s| - 1];
      assert s == init + [last];
      FilterCount(init, keep);
    }
  }

  /** An element is in the filtered sequence exactly when it is in the input
      and passes. */
  lemma FilterMembers<T(!new)>(s: seq<T>, keep: T -> bool)
    ensures forall x :: x in Filter(s, keep) <==> x in s && keep(x)
  {
    FilterCount(s, keep);
    forall x ensures x in Filter(s, keep) <==> x in s && keep(x) {
      assert x in Filter(s, keep) <==> multiset(Filter(s, keep))[x] > 0;
      assert x in s <==> multiset(s)[x] > 0;
    }
  }

  /** Filtering a prefix and then the next element is filtering the longer prefix. */
  lemma FilterSnoc<T(!new)>(s: seq<T>, x: T, keep: T -> bool)
    ensures Filter(s + [x], keep) == Filter(s, keep) + (if keep(x) then [x] else [])
  {
    assert (s + [x])[..|s|] == s;
  }

  /** A one-element sequence passes whole or not at all. */
  lemma {:induction false} FilterSingle<T(!new)>(x: T, keep: T -> bool)
    ensures Filter([x], keep) == if keep(x) then [x] else []
  {
    assert [x][..0] == [];
  }

  /** Filtering works piecewise, so it keeps the relative order of what it
      keeps. */
  lemma {:induction false} FilterAppend<T(!new)>(a: seq<T>, b: seq<T>, keep: T -> bool)
    ensures Filter(a + b, keep) == Filter(a, keep) + Filter(b, keep)
    decreases |b|
  {
    if b != [] {
      var init, last := b[..|b| - 1], b[|b| - 1];
      assert b == init + [last];
      assert a + b == (a + init) + [last];
      FilterAppend(a, init, keep);
      FilterSnoc(a + init, last, keep);
      FilterSnoc(init, last, keep);
    } else {
      assert a + b == a;
    }
  }

  /** Whatever the filter adds to `b` to give `a`, it adds after the same head. */
  lemma {:induction false} FilterConsShift<T(!new)>(h: T, a: seq<T>, b: seq<T>, extra: seq<T>, keep: T -> bool)
    requires Filter(a, keep) == Filter(b, keep) + extra
    ensures Filter([h] + a, keep) == Filter([h] + b, keep) + extra
  {
    FilterAppend([h], a, keep);
    FilterAppend([h], b, keep);
    assert Filter([h], keep) + (Filter(b, keep) + extra) == (Filter([h], keep) + Filter(b, keep)) + extra;
  }

  /** Filtering with a predicate false of every element leaves nothing. */
  lemma {:induction false} FilterNone<T(!new)>(s: seq<T>, keep: T -> bool)
    requires forall k :: 0 <= k < |s| ==> !keep(s[k])
    ensures Filter(s, keep) == []
    decreases |s|
  {
    if s != [] {
      FilterNone(s[..|s| - 1], keep);
      assert !keep(s[|s| - 1]);
    }
  }

  /** Filtering with a predicate true of every element changes nothing. */
  lemma {:induction false} FilterAll<T(!new)>(s: seq<T>, keep: T -> bool)
    requires forall x :: x in s ==> keep(x)
    ensures Filter(s, keep) == s
    decreases |s|
  {
    if s != [] {
      var init, last := s[..|s| - 1], s[|s| - 1];
      assert s == init + [last];
      FilterAll(init, keep);
      assert keep(last);
      assert Filter(s, keep) == Filter(init, keep) + [last];
    }
  }

  /** A filter keeps distinct elements distinct. */
  lemma FilterDistinct<T(!new)>(s: seq<T>, keep: T -> bool)
    requires Distinct(s)
    ensures Distinct(Filter(s, keep))
  {
    var r := Filter(s, keep);
    FilterCount(s, keep);
    FilterMembers(s, keep);
    forall x | x in r ensures multiset(r)[x] == 1 {
      DistinctCount(s, x);
    }
    CountOneDistinct(r);
  }

  lemma {:induction false} DistinctCount<T>(s: seq<T>, x: T)
    requires Distinct(s) && x in s
    ensures multiset(s)[x] == 1
    decreases |s|
  {
    var last := s[|s| - 1];
    var init := s[..|s| - 1];
    assert s == init + [last];
    assert Distinct(init);
    if x == last {
      assert x !in init;
    } else {
      DistinctCount(init, x);
    }
  }

  lemma {:induction false} CountOneDistinct<T(!new)>(s: seq<T>)
    requires forall x :: x in s ==> multiset(s)[x] == 1
    ensures Distinct(s)
    decreases |s|
  {
    if s != [] {
      var last := s[|s| - 1];
      var init := s[..|s| - 1];
      assert s == init + [last];
      assert multiset(s) == multiset(init) + multiset{last};
      forall x | x in init ensures multiset(init)[x] == 1 {
        assert x in s;
      }
      CountOneDistinct(init);
      assert multiset(s)[last] == multiset(init)[last] + 1 == 1;
      assert multiset(init)[last] == 0;
    }
  }
}
