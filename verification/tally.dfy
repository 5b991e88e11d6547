/** `SELECT col, COUNT(*) ... GROUP BY col`, followed by `ORDER BY count DESC`
    or by the grouped column ascending. A group is one distinct value of the
    column together with the number of rows that carry it. */
module Tally {
  import opened Seqs

  datatype Group<K> = Group(key: K, count: nat)

  function KeyOf<K>(g: Group<K>): K { g.key }

  function CountOf<K>(g: Group<K>): int { g.count }

  function Keys<K>(gs: seq<Group<K>>): seq<K> { Map(gs, KeyOf) }

  /** How many times `k` occurs in `ks`. */
  function Occurrences<K(==)>(ks: seq<K>, k: K): nat
    decreases |ks|
  {
    if ks == [] then 0
    else Occurrences(ks[..|ks| - 1], k) + (if ks[|ks| - 1] == k then 1 else 0)
  }

  /** The distinct values of `ks`, in order of first occurrence. */
  function Distinct<K(==)>(ks: seq<K>): (d: seq<K>)
    ensures NoDuplicates(d)
    ensures forall k | k in d :: k in ks
    ensures forall k | k in ks :: k in d
    decreases |ks|
  {
    if ks == [] then []
    else
      var prefix := ks[..|ks| - 1];
      var last := ks[|ks| - 1];
      assert ks == prefix + [last];
      var d := Distinct(prefix);
      if last in d then d else d + [last]
  }

  /** One group per value of `d`, counting that value in `ks`. */
  function GroupsOf<K(==)>(ks: seq<K>, d: seq<K>): (gs: seq<Group<K>>)
    ensures |gs| == |d|
    ensures forall i | 0 <= i < |d| :: gs[i] == Group(d[i], Occurrences(ks, d[i]))
    decreases |d|
  {
    if d == [] then [] else [Group(d[0], Occurrences(ks, d[0]))] + GroupsOf(ks, d[1..])
  }

  /** `gs` is the result of grouping `ks` by value and counting, in some
      order: one group per distinct value, each with that value's count, and
      the counts add up to the number of rows. */
  ghost predicate IsTallyOf<K>(gs: seq<Group<K>>, ks: seq<K>) {
    && UniqueBy(gs, KeyOf)
    && (forall g | g in gs :: g.key in ks && g.count == Occurrences(ks, g.key))
    && (forall k | k in ks :: k in Keys(gs))
    && SumOf(gs, CountOf) == |ks|
  }

  /** GROUP BY value ORDER BY COUNT(*) DESC. */
  function GroupCount<K(==)>(ks: seq<K>): (gs: seq<Group<K>>)
    ensures IsTallyOf(gs, ks)
    ensures NonIncreasing(gs, CountOf)
  {
    var unsorted := GroupsOf(ks, Distinct(ks));
    GroupsOfIsTally(ks);
    SortKeepsTally(unsorted, ks, CountOf);
    SortDesc(unsorted, CountOf)
  }

  function NegatedKey(g: Group<int>): int { -g.key }

  /** GROUP BY value ORDER BY value (ascending). */
  function GroupByAscending(ks: seq<int>): (gs: seq<Group<int>>)
    ensures IsTallyOf(gs, ks)
    ensures forall i, j | 0 <= i < j < |gs| :: gs[i].key < gs[j].key
  {
    var unsorted := GroupsOf(ks, Distinct(ks));
    GroupsOfIsTally(ks);
    SortKeepsTally(unsorted, ks, NegatedKey);
    var gs := SortDesc(unsorted, NegatedKey);
    AscendingKeys(gs);
    gs
  }

  /** Distinct keys sorted by descending negated key are strictly ascending. */
  lemma AscendingKeys(gs: seq<Group<int>>)
    requires UniqueBy(gs, KeyOf)
    requires NonIncreasing(gs, NegatedKey)
    ensures forall i, j | 0 <= i < j < |gs| :: gs[i].key < gs[j].key
  {
    forall i, j | 0 <= i < j < |gs| ensures gs[i].key < gs[j].key {
      assert KeyOf(gs[i]) != KeyOf(gs[j]);
      assert NegatedKey(gs[i]) >= NegatedKey(gs[j]);
    }
  }

  lemma {:induction false} OccurrencesSnoc<K>(ks: seq<K>, x: K, k: K)
    ensures Occurrences(ks + [x], k) == Occurrences(ks, k) + (if x == k then 1 else 0)
  {
    assert (ks + [x])[..|ks|] == ks;
  }

  lemma {:induction false} GroupsOfEmpty<K>(d: seq<K>)
    ensures SumOf(GroupsOf([], d), CountOf) == 0
    decreases |d|
  {
    if d != [] {
      GroupsOfEmpty(d[1..]);
    }
  }

  lemma {:induction false} GroupsOfSnoc<K>(ks: seq<K>, x: K, d: seq<K>)
    requires NoDuplicates(d)
    ensures SumOf(GroupsOf(ks + [x], d), CountOf)
         == SumOf(GroupsOf(ks, d), CountOf) + (if x in d then 1 else 0)
    decreases |d|
  {
    if d != [] {
      assert NoDuplicates(d[1..]) by {
        forall i, j | 0 <= i < j < |d[1..]| ensures d[1..][i] != d[1..][j] {
          assert d[1..][i] == d[i + 1] && d[1..][j] == d[j + 1];
        }
      }
      GroupsOfSnoc(ks, x, d[1..]);
      OccurrencesSnoc(ks, x, d[0]);
      assert d == [d[0]] + d[1..];
      if x == d[0] {
        forall j | 0 <= j < |d[1..]| ensures d[1..][j] != x {
          assert d[1..][j] == d[j + 1];
        }
      }
    }
  }

  /** Counting each distinct value once accounts for every row. */
  lemma {:induction false} GroupsOfCoversRows<K>(ks: seq<K>, d: seq<K>)
    requires NoDuplicates(d)
    requires forall k | k in ks :: k in d
    ensures SumOf(GroupsOf(ks, d), CountOf) == |ks|
    decreases |ks|
  {
    if ks == [] {
      GroupsOfEmpty(d);
    } else {
      var prefix := ks[..|ks| - 1];
      var last := ks[|ks| - 1];
      assert ks == prefix + [last];
      GroupsOfCoversRows(prefix, d);
      GroupsOfSnoc(prefix, last, d);
    }
  }

  lemma GroupsOfIsTally<K>(ks: seq<K>)
    ensures IsTallyOf(GroupsOf(ks, Distinct(ks)), ks)
  {
    var d := Distinct(ks);
    var gs := GroupsOf(ks, d);
    GroupsOfCoversRows(ks, d);
    forall i, j | 0 <= i < j < |gs| ensures KeyOf(gs[i]) != KeyOf(gs[j]) {
    }
    forall k | k in ks ensures k in Keys(gs) {
      var i :| 0 <= i < |d| && d[i] == k;
      assert Keys(gs)[i] == k;
    }
  }

  /** Reordering the groups keeps them a tally of the same rows. */
  lemma SortKeepsTally<K>(gs: seq<Group<K>>, ks: seq<K>, rank: Group<K> -> int)
    requires IsTallyOf(gs, ks)
    ensures IsTallyOf(SortDesc(gs, rank), ks)
  {
    var r := SortDesc(gs, rank);
    SortDescKeepsUnique(gs, rank, KeyOf);
    SumOfSortDesc(gs, rank, CountOf);
    forall g | g in r ensures g in gs {
      assert g in multiset(r);
    }
    forall k | k in ks ensures k in Keys(r) {
      var i :| 0 <= i < |gs| && Keys(gs)[i] == k;
      assert gs[i] in multiset(r);
      var j :| 0 <= j < |r| && r[j] == gs[i];
      assert Keys(r)[j] == k;
    }
  }

  /** The groups of `gs` are at most `limit` of the groups of `ks`, most
      frequent first, and any value left out is no more frequent than every
      value kept (which can only happen once the limit is reached). */
  ghost predicate IsTopTallyOf<K>(gs: seq<Group<K>>, ks: seq<K>, limit: nat) {
    && |gs| <= limit
    && UniqueBy(gs, KeyOf)
    && NonIncreasing(gs, CountOf)
    && (forall g | g in gs :: g.key in ks && g.count == Occurrences(ks, g.key))
    && (forall k | k in ks && k !in Keys(gs) ::
          |gs| == limit && forall g | g in gs :: Occurrences(ks, k) <= g.count)
  }

  /** GROUP BY value ORDER BY COUNT(*) DESC LIMIT limit. */
  function TopGroupCount<K(==)>(ks: seq<K>, limit: nat): (gs: seq<Group<K>>)
    ensures IsTopTallyOf(gs, ks, limit)
  {
    var all := GroupCount(ks);
    var gs := Take(all, limit);
    TakeKeepsTop(all, ks, limit);
    gs
  }

  lemma TakeKeepsTop<K>(all: seq<Group<K>>, ks: seq<K>, limit: nat)
    requires IsTallyOf(all, ks) && NonIncreasing(all, CountOf)
    ensures IsTopTallyOf(Take(all, limit), ks, limit)
  {
    var gs := Take(all, limit);
    assert forall i | 0 <= i < |gs| :: gs[i] == all[i];
    forall g | g in gs ensures g in all {
      var i :| 0 <= i < |gs| && gs[i] == g;
    }
    forall k | k in ks && k !in Keys(gs)
      ensures |gs| == limit && forall g | g in gs :: Occurrences(ks, k) <= g.count
    {
      var j :| 0 <= j < |all| && Keys(all)[j] == k;
      assert j >= |gs|;
      forall g | g in gs ensures Occurrences(ks, k) <= g.count {
        var i :| 0 <= i < |gs| && gs[i] == g;
        assert CountOf(all[i]) >= CountOf(all[j]);
      }
    }
  }
}
