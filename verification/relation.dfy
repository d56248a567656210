/**
  Relational building blocks shared by every step of the pipeline.

  A dataframe is modelled as a sequence of rows: the order is kept (it is
  what `slice` and `with_row_index` see) and duplicates are kept (it is what
  `unique()` removes). Each combinator states its meaning in terms of
  membership, so that the steps built from them can be reasoned about as
  relations.
*/
module Relation {

  /** No row occurs twice. */
  predicate NoDup<T(==)>(s: seq<T>) {
    forall i, j :: 0 <= i < j < |s| ==> s[i] != s[j]
  }

  /** No two rows share a key: the frame is unique on `key`. */
  predicate UniqueOn<T, K(==)>(s: seq<T>, key: T -> K) {
    forall i, j :: 0 <= i < j < |s| ==> key(s[i]) != key(s[j])
  }

  /** `filter`: the rows satisfying `p`, in their original order. */
  function Filter<T(!new)>(s: seq<T>, p: T -> bool): (r: seq<T>)
    ensures |r| <= |s|
    ensures forall x :: x in r <==> x in s && p(x)
  {
    if |s| == 0 then []
    else
      var rest := Filter(s[1..], p);
      assert s == [s[0]] + s[1..];
      if p(s[0]) then [s[0]] + rest else rest
  }

  /** A filter keeps every row that passes as many times as it occurs, and no other. */
  lemma {:induction false} FilterCount<T(!new)>(s: seq<T>, p: T -> bool, x: T)
    ensures multiset(Filter(s, p))[x] == if p(x) then multiset(s)[x] else 0
  {
    if |s| > 0 {
      FilterCount(s[1..], p, x);
      assert s == [s[0]] + s[1..];
      assert multiset(s) == multiset{s[0]} + multiset(s[1..]);
    }
  }

  /** Filtering keeps a duplicate-free frame duplicate-free. */
  lemma {:induction false} FilterNoDup<T(!new)>(s: seq<T>, p: T -> bool)
    requires NoDup(s)
    ensures NoDup(Filter(s, p))
  {
    if |s| > 0 {
      FilterNoDup(s[1..], p);
      var rest := Filter(s[1..], p);
      if p(s[0]) {
        var r := [s[0]] + rest;
        forall i, j | 0 <= i < j < |r|
          ensures r[i] != r[j]
        {
          if i == 0 {
            assert r[j] in rest;
            assert s[0] !in s[1..];
          }
        }
      }
    }
  }

  /** Filtering keeps a frame unique on a key. */
  lemma {:induction false} FilterUniqueOn<T(!new), K>(s: seq<T>, p: T -> bool, key: T -> K)
    requires UniqueOn(s, key)
    ensures UniqueOn(Filter(s, p), key)
  {
    if |s| > 0 {
      FilterUniqueOn(s[1..], p, key);
      var rest := Filter(s[1..], p);
      if p(s[0]) {
        var r := [s[0]] + rest;
        forall i, j | 0 <= i < j < |r|
          ensures key(r[i]) != key(r[j])
        {
          if i == 0 {
            assert r[j] in s[1..];
            var k :| 0 <= k < |s[1..]| && s[1..][k] == r[j];
            assert s[k + 1] == r[j];
          }
        }
      }
    }
  }

  /** A column expression evaluated on every row (`select`, `with_columns`). */
  function Map<T(!new), U(!new)>(s: seq<T>, f: T -> U): (r: seq<U>)
    ensures |r| == |s|
    ensures forall x :: x in s ==> f(x) in r
  {
    var r := seq(|s|, i requires 0 <= i < |s| => f(s[i]));
    assert forall x :: x in s ==> f(x) in r by {
      forall x | x in s
        ensures f(x) in r
      {
        var i :| 0 <= i < |s| && s[i] == x;
        assert r[i] == f(x);
      }
    }
    r
  }

  /** The `i`-th row of a mapped frame is the image of the `i`-th input row. */
  lemma MapAt<T(!new), U(!new)>(s: seq<T>, f: T -> U, i: int)
    requires 0 <= i < |s|
    ensures Map(s, f)[i] == f(s[i])
  {
  }

  /** Every row of a mapped frame comes from some row of the input. */
  lemma MapSource<T(!new), U(!new)>(s: seq<T>, f: T -> U, y: U)
    requires y in Map(s, f)
    ensures exists x :: x in s && y == f(x)
  {
    var i :| 0 <= i < |s| && Map(s, f)[i] == y;
    assert s[i] in s;
  }

  /** Every row of `s` expanded into the rows `f` gives for it, concatenated in order;
      joins and `explode` are built from this. */
  function FlatMap<T(!new), U(!new)>(s: seq<T>, f: T -> seq<U>): (r: seq<U>)
    ensures forall x, y :: x in s && y in f(x) ==> y in r
  {
    if |s| == 0 then []
    else
      var rest := FlatMap(s[1..], f);
      assert forall x :: x in s ==> x == s[0] || x in s[1..];
      f(s[0]) + rest
  }

  /** Every row `FlatMap` produces comes from the expansion of some input row. */
  lemma {:induction false} FlatMapSource<T(!new), U(!new)>(s: seq<T>, f: T -> seq<U>, y: U)
    requires y in FlatMap(s, f)
    ensures exists x :: x in s && y in f(x)
  {
    if y !in f(s[0]) {
      FlatMapSource(s[1..], f, y);
      var x :| x in s[1..] && y in f(x);
      assert x in s;
    }
  }

  /** The number of rows `FlatMap` produces, bounded by a uniform per-row bound. */
  lemma {:induction false} FlatMapBound<T(!new), U(!new)>(s: seq<T>, f: T -> seq<U>, k: nat)
    requires forall x :: x in s ==> |f(x)| <= k
    ensures |FlatMap(s, f)| <= k * |s|
  {
    if |s| > 0 {
      var tail := s[1..];
      assert forall x :: x in tail ==> x in s;
      FlatMapBound(tail, f, k);
      assert s[0] in s;
      var n := |tail|;
      assert |FlatMap(s, f)| == |f(s[0])| + |FlatMap(tail, f)|;
      MulSucc(k, n);
    }
  }

  lemma MulSucc(k: nat, n: nat)
    ensures k * (n + 1) == k + k * n
  {
  }

  /** `unique()`: the first occurrence of every distinct row, in order. */
  function Dedup<T(==,!new)>(s: seq<T>): (r: seq<T>)
    ensures NoDup(r)
    ensures forall x :: x in r <==> x in s
    ensures |r| <= |s|
  {
    if |s| == 0 then []
    else
      var prefix := s[..|s| - 1];
      var last := s[|s| - 1];
      var rest := Dedup(prefix);
      assert s == prefix + [last];
      if last in rest then rest else rest + [last]
  }

  /** `y` is the first row of `s` with its key. */
  predicate FirstWithKey<T(==), K(==)>(s: seq<T>, key: T -> K, y: T) {
    exists i :: 0 <= i < |s| && s[i] == y && forall j :: 0 <= j < i ==> key(s[j]) != key(y)
  }

  /** `unique(subset)` with keep="first": the first row for every distinct key. */
  function DedupBy<T(==,!new), K(==)>(s: seq<T>, key: T -> K): (r: seq<T>)
    ensures UniqueOn(r, key)
    ensures forall y :: y in r ==> y in s
    ensures |r| <= |s|
  {
    if |s| == 0 then []
    else
      var prefix := s[..|s| - 1];
      var last := s[|s| - 1];
      var rest := DedupBy(prefix, key);
      assert s == prefix + [last];
      if exists y :: y in rest && key(y) == key(last) then rest
      else rest + [last]
  }

  /** Every key of the input is kept by `DedupBy`. */
  lemma {:induction false} DedupByCovers<T(!new), K>(s: seq<T>, key: T -> K, x: T)
    requires x in s
    ensures exists y :: y in DedupBy(s, key) && key(y) == key(x)
  {
    var prefix := s[..|s| - 1];
    var last := s[|s| - 1];
    assert s == prefix + [last];
    var rest := DedupBy(prefix, key);
    if x in prefix {
      DedupByCovers(prefix, key, x);
      var y :| y in rest && key(y) == key(x);
      assert y in DedupBy(s, key);
    } else if !exists y :: y in rest && key(y) == key(last) {
      assert last in DedupBy(s, key);
    }
  }

  /** The row `DedupBy` keeps for a key is the first input row with that key. */
  lemma {:induction false} DedupByFirst<T(!new), K>(s: seq<T>, key: T -> K, y: T)
    requires y in DedupBy(s, key)
    ensures FirstWithKey(s, key, y)
  {
    var prefix := s[..|s| - 1];
    var last := s[|s| - 1];
    assert s == prefix + [last];
    var rest := DedupBy(prefix, key);
    if y in rest {
      DedupByFirst(prefix, key, y);
      var i :| 0 <= i < |prefix| && prefix[i] == y && forall j :: 0 <= j < i ==> key(prefix[j]) != key(y);
      assert s[i] == y;
    } else {
      assert y == last;
      forall j | 0 <= j < |prefix|
        ensures key(s[j]) != key(last)
      {
        if key(s[j]) == key(last) {
          DedupByCovers(prefix, key, s[j]);
        }
      }
      assert s[|s| - 1] == y;
    }
  }

  /** An inner join on `lk(l) == rk(r)`, each matching pair combined into one row. */
  function InnerJoin<L(!new), R(!new), K(==), O(!new)>(left: seq<L>, right: seq<R>, lk: L -> K, rk: R -> K, combine: (L, R) -> O): seq<O> {
    FlatMap(left, (l: L) => Map(Filter(right, (r: R) => rk(r) == lk(l)), (r: R) => combine(l, r)))
  }

  /** A matching pair reaches the join. */
  lemma InnerJoinHas<L(!new), R(!new), K, O(!new)>(left: seq<L>, right: seq<R>, lk: L -> K, rk: R -> K, combine: (L, R) -> O, l: L, r: R)
    requires l in left && r in right && rk(r) == lk(l)
    ensures combine(l, r) in InnerJoin(left, right, lk, rk, combine)
  {
    var f := (l: L) => Map(Filter(right, (r: R) => rk(r) == lk(l)), (r: R) => combine(l, r));
    assert r in Filter(right, (r: R) => rk(r) == lk(l));
    assert combine(l, r) in f(l);
  }

  /** Every joined row combines a matching pair. */
  lemma InnerJoinSource<L(!new), R(!new), K, O(!new)>(left: seq<L>, right: seq<R>, lk: L -> K, rk: R -> K, combine: (L, R) -> O, o: O)
    requires o in InnerJoin(left, right, lk, rk, combine)
    ensures exists l, r :: l in left && r in right && rk(r) == lk(l) && o == combine(l, r)
  {
    var f := (l: L) => Map(Filter(right, (r: R) => rk(r) == lk(l)), (r: R) => combine(l, r));
    FlatMapSource(left, f, o);
    var l :| l in left && o in f(l);
    MapSource(Filter(right, (r: R) => rk(r) == lk(l)), (r: R) => combine(l, r), o);
  }

  /** The join of a non-empty left frame starts with the matches of its first row. */
  lemma InnerJoinCons<L(!new), R(!new), K, O(!new)>(left: seq<L>, right: seq<R>, lk: L -> K, rk: R -> K, combine: (L, R) -> O)
    requires |left| > 0
    ensures InnerJoin(left, right, lk, rk, combine)
         == Map(Filter(right, (r: R) => rk(r) == lk(left[0])), (r: R) => combine(left[0], r))
          + InnerJoin(left[1..], right, lk, rk, combine)
  {
  }

  /** A key that is unique on the right matches at most one right row. */
  lemma {:induction false} FilterUniqueKey<T(!new), K>(s: seq<T>, key: T -> K, k: K)
    requires UniqueOn(s, key)
    ensures |Filter(s, (x: T) => key(x) == k)| <= 1
  {
    if |s| > 0 {
      assert UniqueOn(s[1..], key) by {
        forall i, j | 0 <= i < j < |s[1..]|
          ensures key(s[1..][i]) != key(s[1..][j])
        {
          assert s[1..][i] == s[i + 1] && s[1..][j] == s[j + 1];
        }
      }
      FilterUniqueKey(s[1..], key, k);
      if key(s[0]) == k {
        forall x | x in s[1..]
          ensures key(x) != k
        {
          var j :| 0 <= j < |s[1..]| && s[1..][j] == x;
          assert s[j + 1] == x;
        }
        var rest := Filter(s[1..], (x: T) => key(x) == k);
        assert |rest| == 0 || rest[0] in rest;
      }
    }
  }

  /** A many-to-one join yields at most one row per left row. */
  lemma InnerJoinManyToOne<L(!new), R(!new), K, O(!new)>(left: seq<L>, right: seq<R>, lk: L -> K, rk: R -> K, combine: (L, R) -> O)
    requires UniqueOn(right, rk)
    ensures |InnerJoin(left, right, lk, rk, combine)| <= |left|
  {
    var f := (l: L) => Map(Filter(right, (r: R) => rk(r) == lk(l)), (r: R) => combine(l, r));
    forall l | l in left
      ensures |f(l)| <= 1
    {
      FilterUniqueKey(right, rk, lk(l));
      assert Filter(right, (r: R) => rk(r) == lk(l)) == Filter(right, (x: R) => rk(x) == lk(l));
    }
    FlatMapBound(left, f, 1);
  }

  /** Two frames unique on a key with no key in common concatenate to one unique on it. */
  lemma UniqueOnConcat<T, K>(a: seq<T>, b: seq<T>, key: T -> K)
    requires UniqueOn(a, key) && UniqueOn(b, key)
    requires forall x, y :: x in a && y in b ==> key(x) != key(y)
    ensures UniqueOn(a + b, key)
  {
    var c := a + b;
    forall i, j | 0 <= i < j < |c|
      ensures key(c[i]) != key(c[j])
    {
      if j < |a| {
        assert c[i] == a[i] && c[j] == a[j];
      } else if i >= |a| {
        assert c[i] == b[i - |a|] && c[j] == b[j - |a|];
      } else {
        assert c[i] == a[i] && c[j] == b[j - |a|];
        assert a[i] in a && b[j - |a|] in b;
      }
    }
  }

  /** Expanding every row into at most one row that carries the row's key
      keeps a frame unique on that key. */
  lemma {:induction false} FlatMapUniqueOn<T(!new), U(!new), K>(s: seq<T>, f: T -> seq<U>, key: T -> K, ukey: U -> K)
    requires UniqueOn(s, key)
    requires forall x :: x in s ==> |f(x)| <= 1
    requires forall x, y :: x in s && y in f(x) ==> ukey(y) == key(x)
    ensures UniqueOn(FlatMap(s, f), ukey)
  {
    if |s| > 0 {
      assert UniqueOn(s[1..], key) by {
        forall i, j | 0 <= i < j < |s[1..]|
          ensures key(s[1..][i]) != key(s[1..][j])
        {
          assert s[1..][i] == s[i + 1] && s[1..][j] == s[j + 1];
        }
      }
      assert forall x :: x in s[1..] ==> x in s;
      FlatMapUniqueOn(s[1..], f, key, ukey);
      var rest := FlatMap(s[1..], f);
      forall y, z | y in f(s[0]) && z in rest
        ensures ukey(y) != ukey(z)
      {
        FlatMapSource(s[1..], f, z);
        var x :| x in s[1..] && z in f(x);
        var k :| 0 <= k < |s[1..]| && s[1..][k] == x;
        assert s[k + 1] == x;
      }
      UniqueOnConcat(f(s[0]), rest, ukey);
    }
  }

  /** A many-to-one join whose output rows carry their left row's key keeps
      the left frame's uniqueness on that key. */
  lemma InnerJoinUniqueOn<L(!new), R(!new), K, O(!new), J>(left: seq<L>, right: seq<R>, lk: L -> K, rk: R -> K, combine: (L, R) -> O,
                                                          lkey: L -> J, okey: O -> J)
    requires UniqueOn(left, lkey) && UniqueOn(right, rk)
    requires forall l, r :: okey(combine(l, r)) == lkey(l)
    ensures UniqueOn(InnerJoin(left, right, lk, rk, combine), okey)
  {
    var f := (l: L) => Map(Filter(right, (r: R) => rk(r) == lk(l)), (r: R) => combine(l, r));
    forall l | l in left
      ensures |f(l)| <= 1
    {
      FilterUniqueKey(right, rk, lk(l));
      assert Filter(right, (r: R) => rk(r) == lk(l)) == Filter(right, (x: R) => rk(x) == lk(l));
    }
    forall l, y | l in left && y in f(l)
      ensures okey(y) == lkey(l)
    {
      MapSource(Filter(right, (r: R) => rk(r) == lk(l)), (r: R) => combine(l, r), y);
    }
    FlatMapUniqueOn(left, f, lkey, okey);
  }

  /** Two duplicate-free frames with no row in common concatenate to a duplicate-free frame. */
  lemma NoDupConcat<T>(a: seq<T>, b: seq<T>)
    requires NoDup(a) && NoDup(b)
    requires forall x :: x in a ==> x !in b
    ensures NoDup(a + b)
  {
    var c := a + b;
    forall i, j | 0 <= i < j < |c|
      ensures c[i] != c[j]
    {
      if j < |a| {
        assert c[i] == a[i] && c[j] == a[j];
      } else if i >= |a| {
        assert c[i] == b[i - |a|] && c[j] == b[j - |a|];
      } else {
        assert c[i] == a[i] && c[j] == b[j - |a|];
        assert a[i] in a;
      }
    }
  }

  /** Expanding the rows of a duplicate-free frame into duplicate-free groups,
      no two of which share a row, gives a duplicate-free frame. */
  lemma {:induction false} FlatMapNoDup<T(!new), U(!new)>(s: seq<T>, f: T -> seq<U>)
    requires NoDup(s)
    requires forall x :: x in s ==> NoDup(f(x))
    requires forall x, y, z :: x in s && y in s && x != y && z in f(x) ==> z !in f(y)
    ensures NoDup(FlatMap(s, f))
  {
    if |s| > 0 {
      assert forall x :: x in s[1..] ==> x in s;
      assert NoDup(s[1..]) by {
        forall i, j | 0 <= i < j < |s[1..]|
          ensures s[1..][i] != s[1..][j]
        {
          assert s[1..][i] == s[i + 1] && s[1..][j] == s[j + 1];
        }
      }
      FlatMapNoDup(s[1..], f);
      var rest := FlatMap(s[1..], f);
      forall z | z in f(s[0])
        ensures z !in rest
      {
        if z in rest {
          FlatMapSource(s[1..], f, z);
        }
      }
      assert s[0] in s;
      NoDupConcat(f(s[0]), rest);
    }
  }

  /** The largest value, or `d` when there is none: `max().over(...)`. */
  function MaxOr(s: seq<int>, d: int): (m: int)
    ensures |s| == 0 ==> m == d
    ensures |s| > 0 ==> m in s && forall x :: x in s ==> x <= m
  {
    if |s| == 0 then d
    else
      var rest := MaxOr(s[1..], s[0]);
      assert forall x :: x in s ==> x == s[0] || x in s[1..];
      if s[0] <= rest then rest else s[0]
  }

  /** The smallest value, or `d` when there is none: `min().over(...)`. */
  function MinOr(s: seq<int>, d: int): (m: int)
    ensures |s| == 0 ==> m == d
    ensures |s| > 0 ==> m in s && forall x :: x in s ==> m <= x
  {
    if |s| == 0 then d
    else
      var rest := MinOr(s[1..], s[0]);
      assert forall x :: x in s ==> x == s[0] || x in s[1..];
      if rest <= s[0] then rest else s[0]
  }
}
