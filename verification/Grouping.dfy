/**
 What a GROUP BY means: the rows of each key in input order, the key as first seen and the aggregate
 of the values. `norm` makes keys that are one group equal (src/exec/group_table.h: -0.0 and 0.0, all
 NaNs); an aggregate merges the states of consecutive rows.
 */
module Grouping {
  import opened Lists

  datatype Row<K, V> = Row(key: K, value: V)

  /** An aggregate: the state of no row, of one value, and of some rows followed by others. */
  datatype Agg<!V, !S> = Agg(unit: S, one: V -> S, merge: (S, S) -> S)

  /** Merging states in row order is aggregating the rows. */
  ghost predicate Merges<V, S(!new)>(agg: Agg<V, S>) {
    && (forall a :: agg.merge(agg.unit, a) == a && agg.merge(a, agg.unit) == a)
    && (forall a, b, c :: agg.merge(agg.merge(a, b), c) == agg.merge(a, agg.merge(b, c)))
  }

  /** The order of the rows does not matter (an exact aggregate). */
  ghost predicate Commutes<V, S(!new)>(agg: Agg<V, S>) {
    forall a, b :: agg.merge(a, b) == agg.merge(b, a)
  }

  /** The rows whose key counts as `n`, in order. */
  function Of<K(==), V>(rows: seq<Row<K, V>>, norm: K -> K, n: K): seq<Row<K, V>> {
    if rows == [] then []
    else if norm(rows[0].key) == n then [rows[0]] + Of(rows[1..], norm, n)
    else Of(rows[1..], norm, n)
  }

  /** Which are the rows of that key, each in its place. */
  lemma {:induction false} OfPicks<K, V>(rows: seq<Row<K, V>>, norm: K -> K, n: K) returns (at: seq<nat>)
    ensures Picks(rows, (r: Row<K, V>) => norm(r.key) == n, Of(rows, norm, n), at)
  {
    at := [];
    if rows != [] {
      at := OfPicks(rows[1..], norm, n);
      at := PicksFirst(rows, (r: Row<K, V>) => norm(r.key) == n, Of(rows[1..], norm, n), at);
    }
  }

  lemma {:induction false} OfConcat<K, V>(a: seq<Row<K, V>>, b: seq<Row<K, V>>, norm: K -> K, n: K)
    ensures Of(a + b, norm, n) == Of(a, norm, n) + Of(b, norm, n)
  {
    if a == [] {
      assert a + b == b;
    } else {
      OfConcat(a[1..], b, norm, n);
      assert (a + b)[1..] == a[1..] + b;
    }
  }

  /** A row is among the rows of its key. */
  lemma {:induction false} OfHas<K, V>(rows: seq<Row<K, V>>, norm: K -> K, i: nat)
    requires i < |rows|
    ensures Of(rows, norm, norm(rows[i].key)) != []
  {
    if i > 0 { OfHas(rows[1..], norm, i - 1); }
  }

  lemma {:induction false} OfFrom<K, V>(rows: seq<Row<K, V>>, norm: K -> K, n: K) returns (i: nat)
    requires Of(rows, norm, n) != []
    ensures i < |rows| && norm(rows[i].key) == n && Of(rows, norm, n)[0] == rows[i]
    ensures forall j | 0 <= j < i :: norm(rows[j].key) != n
  {
    if norm(rows[0].key) == n {
      i := 0;
    } else {
      i := OfFrom(rows[1..], norm, n);
      i := i + 1;
    }
  }

  lemma {:induction false} OfNone<K, V>(rows: seq<Row<K, V>>, norm: K -> K, n: K)
    requires forall i | 0 <= i < |rows| :: norm(rows[i].key) != n
    ensures Of(rows, norm, n) == []
  {
    if rows != [] { OfNone(rows[1..], norm, n); }
  }

  /** The aggregate of the values of rows. */
  ghost function Fold<K, V, S>(agg: Agg<V, S>, rows: seq<Row<K, V>>): S {
    if rows == [] then agg.unit else agg.merge(agg.one(rows[0].value), Fold(agg, rows[1..]))
  }

  lemma {:induction false} FoldConcat<K, V, S(!new)>(agg: Agg<V, S>, a: seq<Row<K, V>>, b: seq<Row<K, V>>)
    requires Merges(agg)
    ensures Fold(agg, a + b) == agg.merge(Fold(agg, a), Fold(agg, b))
  {
    if a == [] {
      assert a + b == b;
    } else {
      FoldConcat(agg, a[1..], b);
      assert (a + b)[1..] == a[1..] + b;
    }
  }

  lemma {:induction false} FoldOne<K, V, S(!new)>(agg: Agg<V, S>, row: Row<K, V>)
    requires Merges(agg)
    ensures Fold(agg, [row]) == agg.one(row.value)
  {
    assert [row][1..] == [];
    assert Fold(agg, [row]) == agg.merge(agg.one(row.value), agg.unit);
  }

  // ---- a table of groups ----

  predicate Distinct<K(==)>(s: seq<K>) {
    forall i, j | 0 <= i < j < |s| :: s[i] != s[j]
  }

  /** Groups by id: their normalized keys, their keys as first seen and their states. */
  datatype Groups<K, S> = Groups(uniques: seq<K>, first: seq<K>, states: seq<S>)

  /** Group `g` of the table is the group of its key in `rows`. */
  ghost predicate IsGroup<K, V, S>(t: Groups<K, S>, g: nat, rows: seq<Row<K, V>>, norm: K -> K, agg: Agg<V, S>)
    requires g < |t.uniques| == |t.first| == |t.states|
  {
    var mine := Of(rows, norm, t.uniques[g]);
    mine != [] && t.first[g] == mine[0].key && t.states[g] == Fold(agg, mine)
  }

  /** The table holds the groups of `rows`, each once. */
  ghost predicate IsGrouping<K, V, S>(t: Groups<K, S>, rows: seq<Row<K, V>>, norm: K -> K, agg: Agg<V, S>) {
    && |t.uniques| == |t.first| == |t.states| && Distinct(t.uniques)
    && (forall g: nat | g < |t.uniques| :: IsGroup(t, g, rows, norm, agg))
    && (forall i | 0 <= i < |rows| :: norm(rows[i].key) in t.uniques)
  }

  /** Two tables of the same rows differ in numbering alone. */
  lemma {:induction false} SameGroups<K, V, S>(
      a: Groups<K, S>, b: Groups<K, S>, rows: seq<Row<K, V>>, norm: K -> K, agg: Agg<V, S>, g: nat)
    returns (h: nat)
    requires IsGrouping(a, rows, norm, agg) && IsGrouping(b, rows, norm, agg) && g < |a.uniques|
    ensures h < |b.uniques| && b.uniques[h] == a.uniques[g] && b.first[h] == a.first[g] && b.states[h] == a.states[g]
  {
    assert IsGroup(a, g, rows, norm, agg);
    var i := OfFrom(rows, norm, a.uniques[g]);
    h :| 0 <= h < |b.uniques| && b.uniques[h] == norm(rows[i].key);
    assert IsGroup(b, h, rows, norm, agg);
  }
}
