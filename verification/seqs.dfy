/** Sequence operations that stand for the relational part of the SQL the
    application issues: WHERE (Filter), projection (Map), COUNT/SUM (SumOf),
    primary-key and UNIQUE constraints (UniqueBy), and ORDER BY ... DESC
    (SortDesc, a stable insertion sort; SQL leaves ties unordered, so the
    contracts only promise order and permutation). */
module Seqs {

  /** The elements of `s` that satisfy `keep`, in their original order. */
  function Filter<T>(s: seq<T>, keep: T -> bool): (r: seq<T>)
    ensures |r| <= |s|
    ensures forall x | x in r :: x in s && keep(x)
    ensures forall x | x in s && keep(x) :: x in r
    ensures forall i :: 0 <= i < |r| ==> keep(r[i])
    decreases |s|
  {
    if s == [] then []
    else (if keep(s[0]) then [s[0]] else []) + Filter(s[1..], keep)
  }

  /** Projection of every element through `f`. */
  function Map<T, U>(s: seq<T>, f: T -> U): (r: seq<U>)
    ensures |r| == |s|
    ensures forall i :: 0 <= i < |s| ==> r[i] == f(s[i])
  {
    seq(|s|, i requires 0 <= i < |s| => f(s[i]))
  }

  /** The sum of `f` over the elements of `s`. */
  function SumOf<T>(s: seq<T>, f: T -> int): int
    decreases |s|
  {
    if s == [] then 0 else f(s[0]) + SumOf(s[1..], f)
  }

  /** At most the first `n` elements (a SQL LIMIT). */
  function Take<T>(s: seq<T>, n: nat): (r: seq<T>)
    ensures |r| <= n && |r| <= |s|
    ensures r <= s
    ensures |s| <= n ==> r == s
  {
    if |s| <= n then s else s[..n]
  }

  /** No two positions of `s` carry the same key. */
  ghost predicate UniqueBy<T, K>(s: seq<T>, key: T -> K) {
    forall i, j | 0 <= i < j < |s| :: key(s[i]) != key(s[j])
  }

  /** No two positions of `s` hold the same value. */
  ghost predicate NoDuplicates<T>(s: seq<T>) {
    forall i, j | 0 <= i < j < |s| :: s[i] != s[j]
  }

  /** Ranks never increase from left to right. */
  ghost predicate NonIncreasing<T>(s: seq<T>, rank: T -> int) {
    forall i, j | 0 <= i < j < |s| :: rank(s[i]) >= rank(s[j])
  }

  /** Places `x` before the first element of strictly smaller rank. */
  function InsertDesc<T>(x: T, s: seq<T>, rank: T -> int): (r: seq<T>)
    requires NonIncreasing(s, rank)
    ensures NonIncreasing(r, rank)
    ensures multiset(r) == multiset{x} + multiset(s)
    decreases |s|
  {
    if s == [] || rank(x) >= rank(s[0]) then [x] + s
    else
      var tail := InsertDesc(x, s[1..], rank);
      assert s == [s[0]] + s[1..];
      HeadBoundsTail(x, s, tail, rank);
      [s[0]] + tail
  }

  /** The proof step of InsertDesc: when `x` goes after the head, the head
      still outranks everything behind it. */
  lemma HeadBoundsTail<T>(x: T, s: seq<T>, tail: seq<T>, rank: T -> int)
    requires s != [] && NonIncreasing(s, rank) && rank(x) < rank(s[0])
    requires NonIncreasing(tail, rank)
    requires multiset(tail) == multiset{x} + multiset(s[1..])
    ensures NonIncreasing([s[0]] + tail, rank)
  {
    var r := [s[0]] + tail;
    forall i, j | 0 <= i < j < |r| ensures rank(r[i]) >= rank(r[j]) {
      if i == 0 {
        var y := r[j];
        assert y == tail[j - 1];
        assert y in multiset(tail);
        if y != x {
          assert y in multiset(s[1..]);
          var k :| 0 <= k < |s[1..]| && s[1..][k] == y;
          assert s[k + 1] == y;
        }
      } else {
        assert r[i] == tail[i - 1] && r[j] == tail[j - 1];
      }
    }
  }

  /** ORDER BY rank DESC, keeping equal ranks in their input order. */
  function SortDesc<T>(s: seq<T>, rank: T -> int): (r: seq<T>)
    ensures NonIncreasing(r, rank)
    ensures multiset(r) == multiset(s)
    decreases |s|
  {
    if s == [] then []
    else
      assert s == [s[0]] + s[1..];
      InsertDesc(s[0], SortDesc(s[1..], rank), rank)
  }

  lemma {:induction false} FilterAppend<T>(a: seq<T>, b: seq<T>, keep: T -> bool)
    ensures Filter(a + b, keep) == Filter(a, keep) + Filter(b, keep)
    decreases |a|
  {
    if a == [] {
      assert a + b == b;
    } else {
      assert (a + b)[1..] == a[1..] + b;
      FilterAppend(a[1..], b, keep);
    }
  }

  /** Tests that agree on every element keep the same elements. */
  lemma {:induction false} FilterCongruent<T>(s: seq<T>, p: T -> bool, q: T -> bool)
    requires forall x | x in s :: p(x) == q(x)
    ensures Filter(s, p) == Filter(s, q)
    decreases |s|
  {
    if s != [] {
      assert forall x | x in s[1..] :: x in s;
      FilterCongruent(s[1..], p, q);
    }
  }

  /** Filtering with a test every element passes changes nothing. */
  lemma {:induction false} FilterAllKept<T>(s: seq<T>, keep: T -> bool)
    requires forall i | 0 <= i < |s| :: keep(s[i])
    ensures Filter(s, keep) == s
    decreases |s|
  {
    if s != [] {
      FilterAllKept(s[1..], keep);
      assert s == [s[0]] + s[1..];
    }
  }

  /** Filtering with a test no element passes leaves nothing. */
  lemma {:induction false} FilterNoneKept<T>(s: seq<T>, keep: T -> bool)
    requires forall x | x in s :: !keep(x)
    ensures Filter(s, keep) == []
    decreases |s|
  {
    if s != [] {
      assert s[0] in s;
      FilterNoneKept(s[1..], keep);
    }
  }

  /** Filtering out some element shortens the sequence. */
  lemma {:induction false} FilterDropsSome<T>(s: seq<T>, keep: T -> bool, i: nat)
    requires i < |s| && !keep(s[i])
    ensures |Filter(s, keep)| < |s|
    decreases |s|
  {
    if i > 0 {
      FilterDropsSome(s[1..], keep, i - 1);
    }
  }

  /** When `whole` holds of exactly one of `a` and `b` wherever either
      holds, the rows `whole` keeps are the rows of `a` plus those of `b`. */
  lemma {:induction false} FilterSplit<T>(s: seq<T>, whole: T -> bool, a: T -> bool, b: T -> bool)
    requires forall x | x in s :: whole(x) == (a(x) || b(x)) && !(a(x) && b(x))
    ensures |Filter(s, whole)| == |Filter(s, a)| + |Filter(s, b)|
    decreases |s|
  {
    if s != [] {
      assert s[0] in s;
      forall x | x in s[1..] ensures whole(x) == (a(x) || b(x)) && !(a(x) && b(x)) {
        assert x in s;
      }
      FilterSplit(s[1..], whole, a, b);
    }
  }

  /** Sums of two sequences that agree position by position are equal. */
  lemma {:induction false} SumOfPointwise<T, U>(s: seq<T>, f: T -> int, t: seq<U>, g: U -> int)
    requires |s| == |t|
    requires forall i | 0 <= i < |s| :: f(s[i]) == g(t[i])
    ensures SumOf(s, f) == SumOf(t, g)
    decreases |s|
  {
    if s != [] {
      SumOfPointwise(s[1..], f, t[1..], g);
    }
  }

  lemma {:induction false} FilterKeepsUnique<T, K>(s: seq<T>, keep: T -> bool, key: T -> K)
    requires UniqueBy(s, key)
    ensures UniqueBy(Filter(s, keep), key)
    decreases |s|
  {
    if s != [] {
      FilterKeepsUnique(s[1..], keep, key);
      var tail := Filter(s[1..], keep);
      forall y | y in tail ensures key(y) != key(s[0]) {
        var j :| 1 <= j < |s| && s[j] == y;
      }
      if keep(s[0]) {
        UniqueCons(s[0], tail, key);
      }
    }
  }

  lemma UniqueCons<T, K>(x: T, s: seq<T>, key: T -> K)
    requires UniqueBy(s, key)
    requires forall y | y in s :: key(y) != key(x)
    ensures UniqueBy([x] + s, key)
  {
    var r := [x] + s;
    forall i, j | 0 <= i < j < |r| ensures key(r[i]) != key(r[j]) {
      if i == 0 {
        assert r[j] == s[j - 1];
        assert r[j] in s;
      } else {
        assert r[i] == s[i - 1] && r[j] == s[j - 1];
      }
    }
  }

  /** Appending an element whose key is new keeps the keys unique. */
  lemma UniqueSnoc<T, K>(s: seq<T>, x: T, key: T -> K)
    requires UniqueBy(s, key)
    requires forall y | y in s :: key(y) != key(x)
    ensures UniqueBy(s + [x], key)
  {
    var r := s + [x];
    forall i, j | 0 <= i < j < |r| ensures key(r[i]) != key(r[j]) {
      if j == |s| {
        assert r[i] == s[i] && r[i] in s;
      } else {
        assert r[i] == s[i] && r[j] == s[j];
      }
    }
  }

  lemma AppendAssoc<T>(a: seq<T>, b: seq<T>, c: seq<T>)
    ensures a + (b + c) == (a + b) + c
  {
  }

  lemma {:induction false} SumOfAppend<T>(a: seq<T>, b: seq<T>, f: T -> int)
    ensures SumOf(a + b, f) == SumOf(a, f) + SumOf(b, f)
    decreases |a|
  {
    if a == [] {
      assert a + b == b;
    } else {
      assert (a + b)[1..] == a[1..] + b;
      SumOfAppend(a[1..], b, f);
    }
  }

  lemma {:induction false} SumOfInsertDesc<T>(x: T, s: seq<T>, rank: T -> int, f: T -> int)
    requires NonIncreasing(s, rank)
    ensures SumOf(InsertDesc(x, s, rank), f) == f(x) + SumOf(s, f)
    decreases |s|
  {
    if s == [] || rank(x) >= rank(s[0]) {
      assert ([x] + s)[1..] == s;
    } else {
      var tail := InsertDesc(x, s[1..], rank);
      assert ([s[0]] + tail)[1..] == tail;
      SumOfInsertDesc(x, s[1..], rank, f);
    }
  }

  /** Sorting does not change a sum over the rows. */
  lemma {:induction false} SumOfSortDesc<T>(s: seq<T>, rank: T -> int, f: T -> int)
    ensures SumOf(SortDesc(s, rank), f) == SumOf(s, f)
    decreases |s|
  {
    if s != [] {
      SumOfSortDesc(s[1..], rank, f);
      SumOfInsertDesc(s[0], SortDesc(s[1..], rank), rank, f);
    }
  }

  lemma {:induction false} InsertDescKeepsUnique<T, K>(x: T, s: seq<T>, rank: T -> int, key: T -> K)
    requires NonIncreasing(s, rank)
    requires UniqueBy(s, key)
    requires forall y | y in s :: key(y) != key(x)
    ensures UniqueBy(InsertDesc(x, s, rank), key)
    decreases |s|
  {
    if s == [] || rank(x) >= rank(s[0]) {
      UniqueCons(x, s, key);
    } else {
      UniqueTail(s, key);
      InsertDescKeepsUnique(x, s[1..], rank, key);
      var tail := InsertDesc(x, s[1..], rank);
      HeadKeyStaysApart(x, s, tail, key);
      UniqueCons(s[0], tail, key);
    }
  }

  lemma UniqueTail<T, K>(s: seq<T>, key: T -> K)
    requires s != [] && UniqueBy(s, key)
    ensures UniqueBy(s[1..], key)
  {
    forall i, j | 0 <= i < j < |s[1..]| ensures key(s[1..][i]) != key(s[1..][j]) {
      assert s[1..][i] == s[i + 1] && s[1..][j] == s[j + 1];
    }
  }

  /** The head's key differs from every key of the rest with `x` inserted. */
  lemma HeadKeyStaysApart<T, K>(x: T, s: seq<T>, tail: seq<T>, key: T -> K)
    requires s != [] && UniqueBy(s, key)
    requires key(s[0]) != key(x)
    requires multiset(tail) == multiset{x} + multiset(s[1..])
    ensures forall y | y in tail :: key(y) != key(s[0])
  {
    forall y | y in tail ensures key(y) != key(s[0]) {
      assert y in multiset(tail);
      if y != x {
        assert y in multiset(s[1..]);
        var j :| 0 <= j < |s[1..]| && s[1..][j] == y;
        assert s[j + 1] == y;
      }
    }
  }

  /** Sorting a key-unique sequence leaves its keys unique. */
  lemma {:induction false} SortDescKeepsUnique<T, K>(s: seq<T>, rank: T -> int, key: T -> K)
    requires UniqueBy(s, key)
    ensures UniqueBy(SortDesc(s, rank), key)
    decreases |s|
  {
    if s != [] {
      UniqueTail(s, key);
      SortDescKeepsUnique(s[1..], rank, key);
      var sorted := SortDesc(s[1..], rank);
      forall y | y in sorted ensures key(y) != key(s[0]) {
        assert y in multiset(sorted);
        var j :| 1 <= j < |s| && s[j] == y;
      }
      InsertDescKeepsUnique(s[0], sorted, rank, key);
    }
  }
}
