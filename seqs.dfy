/**
 * Generic sequence operations behind calculator.js's collection code: the
 * filter-map that `forEach` + `push` under a condition amounts to, and the
 * stable sort of `Array.prototype.sort` with a comparator.
 */
module Seqs {
  import opened Wrappers

  /** Keep `f(x)` for every `x` that `f` accepts, in order. */
  function FilterMap<T, U>(f: T -> Option<U>, s: seq<T>): (r: seq<U>)
    ensures |r| <= |s|
  {
    if s == [] then []
    else (match f(s[0]) case Some(u) => [u] case None => []) + FilterMap(f, s[1..])
  }

  lemma SliceExtend<T>(s: seq<T>, i: nat, j: nat)
    requires i <= j < |s|
    ensures s[i..j + 1] == s[i..j] + [s[j]]
  {
  }

  lemma PrefixExtend<T>(done: seq<T>, s: seq<T>, j: nat)
    requires j < |s|
    ensures (done + s[..j]) + [s[j]] == done + s[..j + 1]
  {
    assert s[..j + 1] == s[..j] + [s[j]];
  }

  lemma FilterMapOne<T, U>(f: T -> Option<U>, x: T)
    ensures FilterMap(f, [x]) == match f(x) case Some(u) => [u] case None => []
  {
    assert [x][1..] == [];
  }

  /** Extending a slice by one element adds that element's image, if any. */
  lemma FilterMapSnoc<T, U>(f: T -> Option<U>, s: seq<T>, lo: nat, hi: nat)
    requires lo <= hi < |s|
    ensures FilterMap(f, s[lo..hi + 1]) == FilterMap(f, s[lo..hi]) + match f(s[hi]) case Some(u) => [u] case None => []
  {
    SliceExtend(s, lo, hi);
    FilterMapAppend(f, s[lo..hi], [s[hi]]);
    FilterMapOne(f, s[hi]);
  }

  /** One step of a loop that pushes the accepted image of `s[hi]`. */
  lemma FilterMapStep<T, U>(f: T -> Option<U>, s: seq<T>, lo: nat, hi: nat, done: seq<U>, next: Option<U>)
    requires lo <= hi < |s| && done == FilterMap(f, s[lo..hi]) && next == f(s[hi])
    ensures FilterMap(f, s[lo..hi + 1]) == if next.Some? then done + [next.value] else done
  {
    FilterMapSnoc(f, s, lo, hi);
  }

  /** Filtering distributes over concatenation: the order of the input is kept. */
  lemma {:induction false} FilterMapAppend<T, U>(f: T -> Option<U>, a: seq<T>, b: seq<T>)
    ensures FilterMap(f, a + b) == FilterMap(f, a) + FilterMap(f, b)
  {
    if a != [] {
      assert (a + b)[1..] == a[1..] + b;
      FilterMapAppend(f, a[1..], b);
    } else {
      assert a + b == b;
    }
  }

  /** What the filter-map keeps: exactly the accepted images of the input. */
  lemma {:induction false} FilterMapMember<T, U>(f: T -> Option<U>, s: seq<T>, u: U)
    ensures u in FilterMap(f, s) <==> exists i :: 0 <= i < |s| && f(s[i]) == Some(u)
  {
    if s != [] {
      FilterMapMember(f, s[1..], u);
      if u in FilterMap(f, s[1..]) {
        var i :| 0 <= i < |s[1..]| && f(s[1..][i]) == Some(u);
        assert f(s[i + 1]) == Some(u);
      }
      if exists i :: 0 <= i < |s| && f(s[i]) == Some(u) {
        var i :| 0 <= i < |s| && f(s[i]) == Some(u);
        if i > 0 {
          assert f(s[1..][i - 1]) == Some(u);
        }
      }
    }
  }

  /** What the filter-map of a suffix keeps: the accepted images from index `k` on. */
  lemma FilterMapFrom<T, U>(f: T -> Option<U>, s: seq<T>, k: nat, u: U)
    requires k <= |s|
    ensures u in FilterMap(f, s[k..]) <==> exists i :: k <= i < |s| && f(s[i]) == Some(u)
  {
    FilterMapMember(f, s[k..], u);
    if exists i :: 0 <= i < |s[k..]| && f(s[k..][i]) == Some(u) {
      var i :| 0 <= i < |s[k..]| && f(s[k..][i]) == Some(u);
      assert f(s[k + i]) == Some(u);
    }
    if exists i :: k <= i < |s| && f(s[i]) == Some(u) {
      var i :| k <= i < |s| && f(s[i]) == Some(u);
      assert f(s[k..][i - k]) == Some(u);
    }
  }

  /** Every element is kept when `f` accepts each one. */
  lemma {:induction false} FilterMapAll<T, U>(f: T -> Option<U>, s: seq<T>, r: seq<U>)
    requires |r| == |s| && forall i :: 0 <= i < |s| ==> f(s[i]) == Some(r[i])
    ensures FilterMap(f, s) == r
  {
    if s != [] {
      FilterMapAll(f, s[1..], r[1..]);
      assert r == [r[0]] + r[1..];
    }
  }

  /** Some element satisfies `p`. */
  ghost predicate AnyOf<T>(xs: seq<T>, p: T -> bool) {
    exists i :: 0 <= i < |xs| && p(xs[i])
  }

  lemma AnyOfSnoc<T>(xs: seq<T>, p: T -> bool)
    requires xs != []
    ensures AnyOf(xs, p) <==> AnyOf(xs[..|xs| - 1], p) || p(xs[|xs| - 1])
  {
    var n := |xs| - 1;
    if AnyOf(xs[..n], p) {
      var i :| 0 <= i < n && p(xs[..n][i]);
      assert xs[..n][i] == xs[i];
    }
    if AnyOf(xs, p) && !p(xs[n]) {
      var i :| 0 <= i < |xs| && p(xs[i]);
      assert xs[..n][i] == xs[i];
    }
  }

  /** The index of the last element that satisfies `p`, if any. */
  function LastIndex<T>(xs: seq<T>, p: T -> bool): (r: Option<nat>)
    ensures r.None? <==> forall i :: 0 <= i < |xs| ==> !p(xs[i])
    ensures r.Some? ==> r.value < |xs| && p(xs[r.value]) && forall j :: r.value < j < |xs| ==> !p(xs[j])
  {
    if xs == [] then None
    else if p(xs[|xs| - 1]) then Some(|xs| - 1)
    else LastIndex(xs[..|xs| - 1], p)
  }

  /** No two elements in the wrong order: `after(a, b)` means `a` must come after `b`. */
  ghost predicate SortedBy<T>(s: seq<T>, after: (T, T) -> bool) {
    forall i, j :: 0 <= i < j < |s| ==> !after(s[i], s[j])
  }

  /** `after` is a strict order on the elements of `s`. */
  ghost predicate StrictOn<T>(s: seq<T>, after: (T, T) -> bool) {
    && (forall a, b :: a in s && b in s && after(a, b) ==> !after(b, a))
    && (forall a, b, c :: a in s && b in s && c in s && after(a, b) && after(b, c) ==> after(a, c))
  }

  /** Insert `x` before the first element that must come after it. */
  function Insert<T>(x: T, t: seq<T>, after: (T, T) -> bool): (r: seq<T>)
    ensures multiset(r) == multiset(t) + multiset{x}
  {
    if t == [] then [x]
    else if after(t[0], x) then [x] + t
    else
      assert t == [t[0]] + t[1..];
      [t[0]] + Insert(x, t[1..], after)
  }

  /**
   * Stable insertion sort: each element, in input order, goes after every
   * element already placed that need not follow it.
   */
  function SortBy<T>(s: seq<T>, after: (T, T) -> bool): (r: seq<T>)
    ensures multiset(r) == multiset(s)
  {
    if s == [] then []
    else
      assert s == s[..|s| - 1] + [s[|s| - 1]];
      Insert(s[|s| - 1], SortBy(s[..|s| - 1], after), after)
  }

  lemma {:induction false} InsertSorted<T>(x: T, t: seq<T>, after: (T, T) -> bool)
    requires SortedBy(t, after)
    requires StrictOn(t + [x], after)
    ensures SortedBy(Insert(x, t, after), after)
  {
    if t != [] {
      if after(t[0], x) {
        var r := [x] + t;
        forall i, j | 0 <= i < j < |r| ensures !after(r[i], r[j]) {
          if i == 0 {
            assert r[j] == t[j - 1] && t[0] in t + [x] && x in t + [x] && t[j - 1] in t + [x];
            if j - 1 > 0 {
              assert !after(t[0], t[j - 1]);
            }
          } else {
            assert r[i] == t[i - 1] && r[j] == t[j - 1];
          }
        }
      } else {
        var rest := Insert(x, t[1..], after);
        assert forall y :: y in t[1..] + [x] ==> y in t + [x];
        InsertSorted(x, t[1..], after);
        var r := [t[0]] + rest;
        forall i, j | 0 <= i < j < |r| ensures !after(r[i], r[j]) {
          if i == 0 {
            assert r[j] in multiset(rest);
            if r[j] != x {
              assert r[j] in multiset(t[1..]);
              var k :| 0 <= k < |t[1..]| && t[1..][k] == r[j];
              assert t[k + 1] == r[j];
            }
          } else {
            assert r[i] == rest[i - 1] && r[j] == rest[j - 1];
          }
        }
      }
    }
  }

  /** The sort's output is ordered whenever `after` is a strict order on the input. */
  lemma {:induction false} SortBySorted<T>(s: seq<T>, after: (T, T) -> bool)
    requires StrictOn(s, after)
    ensures SortedBy(SortBy(s, after), after)
  {
    if s != [] {
      var init := s[..|s| - 1];
      assert forall y :: y in init ==> y in s;
      SortBySorted(init, after);
      var t := SortBy(init, after);
      forall y | y in t + [s[|s| - 1]] ensures y in s {
        if y in t {
          assert y in multiset(init);
        }
      }
      InsertSorted(s[|s| - 1], t, after);
    }
  }

  /** No two elements share a key. */
  ghost predicate KeysDistinct<T, K>(s: seq<T>, key: T -> K) {
    forall i, j :: 0 <= i < j < |s| ==> key(s[i]) != key(s[j])
  }

  lemma {:induction false} InsertKeysDistinct<T, K>(x: T, t: seq<T>, after: (T, T) -> bool, key: T -> K)
    requires KeysDistinct(t, key)
    requires forall y :: y in t ==> key(y) != key(x)
    ensures KeysDistinct(Insert(x, t, after), key)
  {
    if t != [] && !after(t[0], x) {
      var rest := Insert(x, t[1..], after);
      InsertKeysDistinct(x, t[1..], after, key);
      forall j | 0 <= j < |rest| ensures key(t[0]) != key(rest[j]) {
        assert rest[j] in multiset(rest);
        if rest[j] != x {
          assert rest[j] in multiset(t[1..]);
          var k :| 0 <= k < |t[1..]| && t[1..][k] == rest[j];
          assert t[k + 1] == rest[j];
        }
      }
    }
  }

  /** Sorting never makes two elements share a key. */
  lemma {:induction false} SortByKeysDistinct<T, K>(s: seq<T>, after: (T, T) -> bool, key: T -> K)
    requires KeysDistinct(s, key)
    ensures KeysDistinct(SortBy(s, after), key)
  {
    if s != [] {
      var init := s[..|s| - 1];
      SortByKeysDistinct(init, after, key);
      var t := SortBy(init, after);
      forall y | y in t ensures key(y) != key(s[|s| - 1]) {
        assert y in multiset(init);
        var k :| 0 <= k < |init| && init[k] == y;
      }
      InsertKeysDistinct(s[|s| - 1], t, after, key);
    }
  }

  /** Sorting keeps exactly the elements of the input. */
  lemma SortByMembers<T>(s: seq<T>, after: (T, T) -> bool)
    ensures |SortBy(s, after)| == |s|
    ensures forall y :: y in SortBy(s, after) <==> y in s
  {
    var r := SortBy(s, after);
    assert |r| == |multiset(r)| == |multiset(s)| == |s|;
    forall y ensures y in r <==> y in s {
      assert y in r <==> y in multiset(r);
      assert y in s <==> y in multiset(s);
    }
  }

  /** One element is in the sorted output exactly when it is in the input. */
  lemma SortByHas<T>(s: seq<T>, after: (T, T) -> bool, y: T)
    ensures y in SortBy(s, after) <==> y in s
  {
    assert y in SortBy(s, after) <==> y in multiset(SortBy(s, after));
    assert y in s <==> y in multiset(s);
  }
}
