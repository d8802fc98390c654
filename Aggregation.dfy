/** Generic aggregation passes over a column of keys: a group-by that counts
    rows per key, the distinct values of a column, and sums. */
module Aggregation {

  datatype Option<T> = None | Some(value: T)

  /** Row counts per key, built in one pass over the column: the key set is
      exactly the set of values present, and each key maps to its multiplicity. */
  function Tally<K>(keys: seq<K>): (r: map<K, nat>)
    ensures r.Keys == set k | k in keys
    ensures forall k | k in r :: r[k] == multiset(keys)[k] && r[k] >= 1
  {
    if keys == [] then map[]
    else
      var rest := keys[..|keys| - 1];
      var k := keys[|keys| - 1];
      assert keys == rest + [k];
      var counts := Tally(rest);
      counts[k := if k in counts then counts[k] + 1 else 1]
  }

  /** The distinct values of a column, in order of first appearance. */
  function Distinct<K(==)>(xs: seq<K>): (r: seq<K>)
    ensures forall i, j | 0 <= i < j < |r| :: r[i] != r[j]
    ensures (set x | x in r) == (set x | x in xs)
    ensures |r| <= |xs|
  {
    if xs == [] then []
    else
      var init := xs[..|xs| - 1];
      var rest := Distinct(init);
      var x := xs[|xs| - 1];
      assert xs == init + [x];
      assert (set y | y in xs) == (set y | y in init) + {x};
      assert (set y | y in rest + [x]) == (set y | y in rest) + {x};
      if x in rest then rest else rest + [x]
  }

  /** A column without repeats has as many distinct values as entries. */
  lemma {:induction false} DistinctCardinality<V>(vs: seq<V>)
    requires forall i, j | 0 <= i < j < |vs| :: vs[i] != vs[j]
    ensures |set v | v in vs| == |vs|
  {
    if vs != [] {
      var rest := vs[1..];
      assert forall i, j | 0 <= i < j < |rest| :: rest[i] != rest[j] by {
        forall i, j | 0 <= i < j < |rest| ensures rest[i] != rest[j] {
          assert rest[i] == vs[i + 1] && rest[j] == vs[j + 1];
        }
      }
      DistinctCardinality(rest);
      assert (set v | v in vs) == {vs[0]} + (set v | v in rest);
      assert vs[0] !in rest;
    }
  }

  /** The values of the first column of a two-column table. */
  ghost function KeysOf<K, V>(pairs: seq<(K, V)>): set<K> {
    set p | p in pairs :: p.0
  }

  /** The values of the second column in the rows whose first column is `k`. */
  ghost function ValuesOf<K, V>(pairs: seq<(K, V)>, k: K): set<V> {
    set p | p in pairs && p.0 == k :: p.1
  }

  /** `groups` lists, for every key of `pairs`, the distinct values paired with
      it, without repeats. */
  ghost predicate IsGrouping<K, V>(pairs: seq<(K, V)>, groups: map<K, seq<V>>) {
    && groups.Keys == KeysOf(pairs)
    && (forall k | k in groups :: forall i, j | 0 <= i < j < |groups[k]| :: groups[k][i] != groups[k][j])
    && (forall k | k in groups :: (set v | v in groups[k]) == ValuesOf(pairs, k))
  }

  /** Adding one pair to a grouping. */
  function AddToGroup<K, V(==)>(groups: map<K, seq<V>>, p: (K, V)): map<K, seq<V>> {
    var vs := if p.0 in groups then groups[p.0] else [];
    groups[p.0 := if p.1 in vs then vs else vs + [p.1]]
  }

  lemma AddToGroupKeeps<K, V>(init: seq<(K, V)>, groups: map<K, seq<V>>, p: (K, V))
    requires IsGrouping(init, groups)
    ensures IsGrouping(init + [p], AddToGroup(groups, p))
  {
    var pairs := init + [p];
    var r := AddToGroup(groups, p);
    var vs := if p.0 in groups then groups[p.0] else [];
    KeysOfAppend(init, p);
    assert (set v | v in vs) == ValuesOf(init, p.0);
    ValuesOfAppend(init, p, p.0);
    assert (set v | v in vs + [p.1]) == (set v | v in vs) + {p.1};
    forall k | k in r && k != p.0
      ensures (set v | v in r[k]) == ValuesOf(pairs, k)
    {
      ValuesOfAppend(init, p, k);
    }
  }

  lemma KeysOfAppend<K, V>(init: seq<(K, V)>, p: (K, V))
    ensures KeysOf(init + [p]) == KeysOf(init) + {p.0}
  {
  }

  lemma ValuesOfAppend<K, V>(init: seq<(K, V)>, p: (K, V), k: K)
    ensures ValuesOf(init + [p], k) == ValuesOf(init, k) + (if p.0 == k then {p.1} else {})
  {
    forall v | v in ValuesOf(init + [p], k) ensures v in ValuesOf(init, k) + (if p.0 == k then {p.1} else {}) {
      var q :| q in init + [p] && q.0 == k && q.1 == v;
      if q != p {
        assert q in init;
      }
    }
  }

  /** The distinct values of the second column, grouped by the first, each in
      order of first appearance. */
  function GroupDistinct<K, V(==)>(pairs: seq<(K, V)>): (r: map<K, seq<V>>)
    ensures IsGrouping(pairs, r)
  {
    if pairs == [] then map[]
    else
      var init := pairs[..|pairs| - 1];
      var p := pairs[|pairs| - 1];
      assert pairs == init + [p];
      AddToGroupKeeps(init, GroupDistinct(init), p);
      AddToGroup(GroupDistinct(init), p)
  }

  lemma NonEmptyGroup<K, V>(pairs: seq<(K, V)>, k: K)
    requires k in KeysOf(pairs)
    ensures |ValuesOf(pairs, k)| >= 1
  {
    var q :| q in pairs && q.0 == k;
    assert q.1 in ValuesOf(pairs, k);
  }

  /** The number of distinct values of the second column per value of the first
      (a group-by followed by a distinct count): every key present is listed,
      with the size of its set of values, which is at least 1. */
  function CountDistinct<K, V(==)>(pairs: seq<(K, V)>): (r: map<K, nat>)
    ensures r.Keys == KeysOf(pairs)
    ensures forall k | k in r :: r[k] == |ValuesOf(pairs, k)| && r[k] >= 1
  {
    var groups := GroupDistinct(pairs);
    assert forall k | k in groups :: |groups[k]| == |ValuesOf(pairs, k)| >= 1 by {
      forall k | k in groups ensures |groups[k]| == |ValuesOf(pairs, k)| >= 1 {
        DistinctCardinality(groups[k]);
        NonEmptyGroup(pairs, k);
      }
    }
    map k | k in groups :: |groups[k]|
  }

  /** The row labels of a table keyed by (row, column) pairs. */
  ghost function RowsOf<R, C, X>(m: map<(R, C), X>): set<R> {
    set k | k in m :: k.0
  }

  /** The column labels of a table keyed by (row, column) pairs. */
  ghost function ColumnsOf<R, C, X>(m: map<(R, C), X>): set<C> {
    set k | k in m :: k.1
  }

  /** A table keyed by (row, column) pairs spread into rows of columns: every row
      that occurs gets every column that occurs, an absent combination reading 0. */
  function Unstack<R, C>(m: map<(R, C), nat>): (t: map<R, map<C, nat>>)
    ensures t.Keys == RowsOf(m)
    ensures forall r | r in t :: t[r].Keys == ColumnsOf(m)
    ensures forall r, c | r in t && c in t[r] :: t[r][c] == if (r, c) in m then m[(r, c)] else 0
  {
    var rows := set k | k in m :: k.0;
    var columns := set k | k in m :: k.1;
    map r | r in rows :: map c | c in columns :: if (r, c) in m then m[(r, c)] else 0
  }

  lemma SubsetCardinality<T>(a: set<T>, b: set<T>)
    requires a <= b
    ensures |a| <= |b|
  {
    assert b == a + (b - a);
  }

  function Sum(xs: seq<int>): int {
    if xs == [] then 0 else xs[0] + Sum(xs[1..])
  }

  /** A sum splits over concatenation. */
  lemma {:induction false} SumAppend(xs: seq<int>, ys: seq<int>)
    ensures Sum(xs + ys) == Sum(xs) + Sum(ys)
  {
    if xs == [] {
      assert xs + ys == ys;
    } else {
      assert (xs + ys)[1..] == xs[1..] + ys;
      SumAppend(xs[1..], ys);
    }
  }
}
