/** The two collection idioms the scripts share: collecting keys into a JS `Set`
    (distinct, in order of first insertion) and Array.prototype.sort, written as a
    stable insertion sort over a total preorder. */
module Sorting {
  import opened Text

  /** `le(a, b)` says that `a` may stand before `b`; it orders every pair and is transitive. */
  ghost predicate TotalPreorder<T(!new)>(le: (T, T) -> bool) {
    && (forall a, b :: le(a, b) || le(b, a))
    && (forall a, b, c :: le(a, b) && le(b, c) ==> le(a, c))
  }

  ghost predicate SortedBy<T>(s: seq<T>, le: (T, T) -> bool) {
    forall i, j :: 0 <= i < j < |s| ==> le(s[i], s[j])
  }

  /** Puts `x` in front of the first element it may precede, so that among equal
      elements the one inserted first stays first. */
  function Insert<T>(x: T, s: seq<T>, le: (T, T) -> bool): (r: seq<T>)
    ensures |r| == |s| + 1
  {
    if s == [] then [x]
    else if le(x, s[0]) then [x] + s
    else [s[0]] + Insert(x, s[1..], le)
  }

  /** The sorted permutation of `s`. */
  function SortBy<T>(s: seq<T>, le: (T, T) -> bool): (r: seq<T>)
    ensures |r| == |s|
  {
    if s == [] then []
    else Insert(s[0], SortBy(s[1..], le), le)
  }

  /** Inserting adds `x` and loses nothing. */
  lemma {:induction false} InsertPermutation<T>(x: T, s: seq<T>, le: (T, T) -> bool)
    ensures multiset(Insert(x, s, le)) == multiset{x} + multiset(s)
  {
    if s != [] {
      assert s == [s[0]] + s[1..];
      if !le(x, s[0]) {
        InsertPermutation(x, s[1..], le);
      }
    }
  }

  /** Sorting permutes its input. */
  lemma {:induction false} SortByPermutation<T>(s: seq<T>, le: (T, T) -> bool)
    ensures multiset(SortBy(s, le)) == multiset(s)
  {
    if s != [] {
      assert s == [s[0]] + s[1..];
      SortByPermutation(s[1..], le);
      InsertPermutation(s[0], SortBy(s[1..], le), le);
    }
  }

  /** One step of sorting: the first element is inserted into the sorted rest. */
  lemma SortByFirst<T>(s: seq<T>, le: (T, T) -> bool)
    requires s != []
    ensures SortBy(s, le) == Insert(s[0], SortBy(s[1..], le), le)
  {}

  /** Inserting in front of an element `x` may precede. */
  lemma InsertFirst<T>(x: T, s: seq<T>, le: (T, T) -> bool)
    requires s != [] && le(x, s[0])
    ensures Insert(x, s, le) == [x] + s
  {}

  /** Inserting past an element `x` may not precede. */
  lemma InsertAfter<T>(x: T, s: seq<T>, le: (T, T) -> bool)
    requires s != [] && !le(x, s[0])
    ensures Insert(x, s, le) == [s[0]] + Insert(x, s[1..], le)
  {}

  lemma {:induction false} InsertSorted<T(!new)>(x: T, s: seq<T>, le: (T, T) -> bool)
    requires TotalPreorder(le)
    requires SortedBy(s, le)
    ensures SortedBy(Insert(x, s, le), le)
  {
    if s != [] && !le(x, s[0]) {
      var t := s[1..];
      assert SortedBy(t, le) by {
        forall i, j | 0 <= i < j < |t| ensures le(t[i], t[j]) { assert le(s[i + 1], s[j + 1]); }
      }
      InsertSorted(x, t, le);
      var u := Insert(x, t, le);
      InsertPermutation(x, t, le);
      assert le(s[0], x);
      forall k | 0 <= k < |u| ensures le(s[0], u[k]) {
        assert u[k] in multiset(u);
        if u[k] != x {
          assert u[k] in multiset(t);
          var m :| 0 <= m < |t| && t[m] == u[k];
          assert le(s[0], s[m + 1]);
        }
      }
      SortedCons(s[0], u, le);
    } else if s != [] {
      forall k | 0 <= k < |s| ensures le(x, s[k]) {
        if k > 0 { assert le(s[0], s[k]); }
      }
      SortedCons(x, s, le);
    }
  }

  /** An element that may precede every element of a sorted sequence may head it. */
  lemma SortedCons<T>(h: T, u: seq<T>, le: (T, T) -> bool)
    requires SortedBy(u, le) && forall k :: 0 <= k < |u| ==> le(h, u[k])
    ensures SortedBy([h] + u, le)
  {
    var r := [h] + u;
    forall i, j | 0 <= i < j < |r| ensures le(r[i], r[j]) {
      if i > 0 { assert r[i] == u[i - 1] && r[j] == u[j - 1]; } else { assert r[j] == u[j - 1]; }
    }
  }

  /** SortBy returns its input in order. */
  lemma {:induction false} SortBySorted<T(!new)>(s: seq<T>, le: (T, T) -> bool)
    requires TotalPreorder(le)
    ensures SortedBy(SortBy(s, le), le)
  {
    if s != [] {
      SortBySorted(s[1..], le);
      InsertSorted(s[0], SortBy(s[1..], le), le);
    }
  }

  /** The first `n` elements of a sorted permutation come from `s`, in order, and
      every element left out may follow each of them. */
  lemma SortedPrefix<T(!new)>(s: seq<T>, le: (T, T) -> bool, n: nat)
    requires TotalPreorder(le) && n <= |s|
    ensures multiset(SortBy(s, le)[..n]) <= multiset(s)
    ensures SortedBy(SortBy(s, le)[..n], le)
    ensures forall u :: multiset(SortBy(s, le)[..n])[u] < multiset(s)[u] ==>
      forall i :: 0 <= i < n ==> le(SortBy(s, le)[..n][i], u)
  {
    var sorted := SortBy(s, le);
    SortBySorted(s, le);
    SortByPermutation(s, le);
    PrefixOfSorted(sorted, le, n);
  }

  /** The first `n` elements of a sorted sequence are sorted, and each of them may
      precede every element after them. */
  lemma PrefixOfSorted<T>(t: seq<T>, le: (T, T) -> bool, n: nat)
    requires SortedBy(t, le) && n <= |t|
    ensures multiset(t[..n]) <= multiset(t)
    ensures SortedBy(t[..n], le)
    ensures forall u :: multiset(t[..n])[u] < multiset(t)[u] ==> forall i :: 0 <= i < n ==> le(t[..n][i], u)
  {
    var r := t[..n];
    assert t == r + t[n..];
    assert multiset(t) == multiset(r) + multiset(t[n..]);
    forall u | multiset(r)[u] < multiset(t)[u]
      ensures forall i :: 0 <= i < n ==> le(r[i], u)
    {
      assert u in multiset(t[n..]);
      var j :| 0 <= j < |t[n..]| && t[n..][j] == u;
      forall i | 0 <= i < n ensures le(r[i], u) {
        assert r[i] == t[i] && u == t[n + j];
      }
    }
  }

  ghost predicate Distinct<T>(s: seq<T>) {
    forall i, j :: 0 <= i < j < |s| ==> s[i] != s[j]
  }

  /** A sequence has no duplicates exactly when no element occurs twice in its multiset. */
  lemma {:induction false} DistinctMultiset<T>(s: seq<T>)
    ensures Distinct(s) <==> forall x :: multiset(s)[x] <= 1
  {
    if s != [] {
      var t := s[1..];
      DistinctMultiset(t);
      assert s == [s[0]] + t;
      assert multiset(s) == multiset{s[0]} + multiset(t);
      if Distinct(s) {
        assert Distinct(t) by {
          forall i, j | 0 <= i < j < |t| ensures t[i] != t[j] { assert s[i + 1] != s[j + 1]; }
        }
        assert s[0] !in t by {
          forall j | 0 <= j < |t| ensures t[j] != s[0] { assert s[0] != s[j + 1]; }
        }
      } else {
        var i, j :| 0 <= i < j < |s| && s[i] == s[j];
        if i == 0 {
          assert s[j] == t[j - 1];
          assert multiset(s)[s[0]] >= 2;
        } else {
          assert t[i - 1] == t[j - 1];
          assert !Distinct(t);
          var x :| multiset(t)[x] > 1;
          assert multiset(s)[x] > 1;
        }
      }
    }
  }

  /** Sorting a duplicate-free sequence keeps it duplicate-free. */
  lemma SortedDistinct<T>(s: seq<T>, le: (T, T) -> bool)
    requires Distinct(s)
    ensures Distinct(SortBy(s, le))
  {
    DistinctMultiset(s);
    DistinctMultiset(SortBy(s, le));
    SortByPermutation(s, le);
  }

  /** The keys that `key` gives the elements of `xs`, each once, in order of first
      occurrence: what iterating over a `Set` filled from `xs` yields. */
  function DistinctKeys<T, K(==)>(xs: seq<T>, key: T -> Option<K>): seq<K> {
    if xs == [] then []
    else
      var prev := DistinctKeys(xs[..|xs| - 1], key);
      var k := key(xs[|xs| - 1]);
      if k.Some? && k.value !in prev then prev + [k.value] else prev
  }

  /** Each key appears once, and exactly the keys of elements appear. */
  lemma {:induction false} DistinctKeysSpec<T, K>(xs: seq<T>, key: T -> Option<K>)
    ensures Distinct(DistinctKeys(xs, key))
    ensures forall k :: k in DistinctKeys(xs, key) <==> exists i :: 0 <= i < |xs| && key(xs[i]) == Some(k)
  {
    if xs != [] {
      var init := xs[..|xs| - 1];
      DistinctKeysSpec(init, key);
      var prev := DistinctKeys(init, key);
      var r := DistinctKeys(xs, key);
      forall k ensures k in r <==> exists i :: 0 <= i < |xs| && key(xs[i]) == Some(k) {
        if k in r {
          if k in prev {
            var i :| 0 <= i < |init| && key(init[i]) == Some(k);
            assert xs[i] == init[i];
          } else {
            assert key(xs[|xs| - 1]) == Some(k);
          }
        } else {
          forall i | 0 <= i < |xs| ensures key(xs[i]) != Some(k) {
            if i < |init| {
              assert xs[i] == init[i];
            }
          }
        }
      }
      if r != prev {
        forall i, j | 0 <= i < j < |r| ensures r[i] != r[j] {
          if j == |r| - 1 {
            assert r[i] in prev;
          } else {
            assert r[i] == prev[i] && r[j] == prev[j];
          }
        }
      }
    }
  }

  /** `s.filter(p)`: the elements satisfying `p`, in their order. */
  function Filter<T>(s: seq<T>, p: T -> bool): (r: seq<T>)
    ensures |r| <= |s|
  {
    if s == [] then []
    else (if p(s[0]) then [s[0]] else []) + Filter(s[1..], p)
  }

  /** `r` can be obtained from `s` by deleting elements: matching greedily from
      the front, every element of `r` is found in `s` after the previous one. */
  ghost predicate Subsequence<T>(r: seq<T>, s: seq<T>)
    decreases |s|
  {
    if r == [] then true
    else if s == [] then false
    else if r[0] == s[0] then Subsequence(r[1..], s[1..])
    else Subsequence(r, s[1..])
  }

  /** The filter keeps every element satisfying `p`, as often as it occurs and in
      its original order, and nothing else. */
  lemma FilterSpec<T>(s: seq<T>, p: T -> bool)
    ensures forall k :: 0 <= k < |Filter(s, p)| ==> p(Filter(s, p)[k])
    ensures forall x :: multiset(Filter(s, p))[x] == if p(x) then multiset(s)[x] else 0
    ensures Subsequence(Filter(s, p), s)
  {
    FilterKeeps(s, p);
    FilterCounts(s, p);
    FilterOrder(s, p);
  }

  lemma {:induction false} FilterKeeps<T>(s: seq<T>, p: T -> bool)
    ensures forall k :: 0 <= k < |Filter(s, p)| ==> p(Filter(s, p)[k])
  {
    if s != [] {
      FilterKeeps(s[1..], p);
      var head := if p(s[0]) then [s[0]] else [];
      var r := Filter(s, p);
      assert r == head + Filter(s[1..], p);
      forall k | 0 <= k < |r| ensures p(r[k]) {
        if k >= |head| {
          assert r[k] == Filter(s[1..], p)[k - |head|];
        }
      }
    }
  }

  lemma {:induction false} FilterCounts<T>(s: seq<T>, p: T -> bool)
    ensures forall x :: multiset(Filter(s, p))[x] == if p(x) then multiset(s)[x] else 0
  {
    if s != [] {
      assert s == [s[0]] + s[1..];
      FilterCounts(s[1..], p);
      var head := if p(s[0]) then [s[0]] else [];
      assert Filter(s, p) == head + Filter(s[1..], p);
    }
  }

  lemma {:induction false} FilterOrder<T>(s: seq<T>, p: T -> bool)
    ensures Subsequence(Filter(s, p), s)
  {
    if s != [] {
      FilterOrder(s[1..], p);
      var r := Filter(s, p);
      if p(s[0]) {
        assert r[0] == s[0] && r[1..] == Filter(s[1..], p);
      } else if r != [] {
        assert r == Filter(s[1..], p);
        SubsequenceSkip(r, s);
      }
    }
  }

  /** A subsequence of the tail of `s` is a subsequence of `s`. */
  lemma {:induction false} SubsequenceSkip<T>(r: seq<T>, s: seq<T>)
    requires r != [] && s != [] && Subsequence(r, s[1..])
    ensures Subsequence(r, s)
    decreases |s|, 0
  {
    if r[0] == s[0] {
      SubsequenceTail(r, s[1..]);
    }
  }

  /** Dropping the first element keeps a subsequence a subsequence. */
  lemma {:induction false} SubsequenceTail<T>(r: seq<T>, s: seq<T>)
    requires r != [] && Subsequence(r, s)
    ensures Subsequence(r[1..], s)
    decreases |s|, 1
  {
    if r[1..] != [] {
      if r[0] != s[0] {
        SubsequenceTail(r, s[1..]);
      }
      SubsequenceSkip(r[1..], s);
    }
  }

  /** An element satisfying `p` has its place in the filtered sequence. */
  lemma {:induction false} FilterIndex<T>(s: seq<T>, p: T -> bool, k: nat) returns (n: nat)
    requires k < |s| && p(s[k])
    ensures n < |Filter(s, p)| && Filter(s, p)[n] == s[k]
  {
    var head := if p(s[0]) then [s[0]] else [];
    assert Filter(s, p) == head + Filter(s[1..], p);
    if k == 0 {
      n := 0;
    } else {
      var n0 := FilterIndex(s[1..], p, k - 1);
      n := |head| + n0;
    }
  }

  /** A sequence whose every element satisfies `p` passes the filter whole. */
  lemma {:induction false} FilterAll<T>(s: seq<T>, p: T -> bool)
    requires forall k :: 0 <= k < |s| ==> p(s[k])
    ensures Filter(s, p) == s
  {
    if s != [] {
      FilterAll(s[1..], p);
      assert [s[0]] + s[1..] == s;
    }
  }
}
