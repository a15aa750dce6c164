/**
 A GROUP BY's table (src/exec/group_table.cc): batches are consumed into it, parts are merged into it
 in part order, whole or one partition at a time. However the rows come, its groups are those of all
 of them: each once, with the key as first seen and the aggregate of its values.
 */
module GroupConsume {
  import opened Lists
  import opened Grouping
  import opened GroupKeys
  import opened GroupStates

  /** The table: first-seen keys are kept in chunks of new groups. */
  datatype Table<K, S> = Table(uniques: seq<K>, chunks: seq<seq<K>>, states: seq<S>) {
    function View(): Groups<K, S> { Groups(uniques, Flat(chunks), states) }
  }

  function Norms<K, V>(rows: seq<Row<K, V>>, norm: K -> K): (keys: seq<K>)
    ensures |keys| == |rows| && forall i | 0 <= i < |rows| :: keys[i] == norm(rows[i].key)
  {
    seq(|rows|, i requires 0 <= i < |rows| => norm(rows[i].key))
  }

  function Units<V, S>(agg: Agg<V, S>, n: nat): (s: seq<S>)
    ensures |s| == n && forall i | 0 <= i < n :: s[i] == agg.unit
  {
    seq(n, _ => agg.unit)
  }

  // ---- a batch ----

  /** A key without a group is a key without rows. */
  lemma {:induction false} NoRows<K, V, S>(t: Groups<K, S>, rows: seq<Row<K, V>>, norm: K -> K, agg: Agg<V, S>, n: K)
    requires IsGrouping(t, rows, norm, agg) && n !in t.uniques
    ensures Of(rows, norm, n) == []
  {
    forall i | 0 <= i < |rows| ensures norm(rows[i].key) != n { assert norm(rows[i].key) in t.uniques; }
    OfNone(rows, norm, n);
  }

  /** The keys of the first rows of the new groups. */
  method FirstKeys<K, V>(rows: seq<Row<K, V>>, positions: seq<int>) returns (first: seq<K>)
    requires forall k | 0 <= k < |positions| :: 0 <= positions[k] < |rows|
    ensures |first| == |positions| && forall k | 0 <= k < |positions| :: first[k] == rows[positions[k]].key
  {
    first := [];
    for k := 0 to |positions|
      invariant |first| == k && forall j | 0 <= j < k :: first[j] == rows[positions[j]].key
    {
      first := first + [rows[positions[k]].key];
    }
  }

  /** What consuming rows makes of group `g`. */
  ghost predicate Consumed<K, V, S>(
      t: Groups<K, S>, rows: seq<Row<K, V>>, ids: seq<nat>, agg: Agg<V, S>, t': Groups<K, S>, g: nat)
    requires |t.uniques| == |t.first| == |t.states| && |ids| == |rows| && g < |t'.uniques| == |t'.first| == |t'.states|
  {
    var had := g < |t.uniques|;
    && t'.states[g] == Merged(agg, if had then t.states[g] else agg.unit, Ones(agg, rows), ids, g)
    && if had then t'.first[g] == t.first[g] else exists p: nat ::
        FirstAt(ids, g, p) && p < |rows| && t'.first[g] == rows[p].key
  }

  lemma {:induction false} ConsumedGroup<K, V, S(!new)>(
      t: Groups<K, S>, seen: seq<Row<K, V>>, rows: seq<Row<K, V>>, ids: seq<nat>, norm: K -> K, agg: Agg<V, S>,
      t': Groups<K, S>, g: nat)
    requires Merges(agg) && IsGrouping(t, seen, norm, agg) && Numbered(t.uniques, Norms(rows, norm), ids, t'.uniques)
    requires |t'.uniques| == |t'.first| == |t'.states| && g < |t'.uniques| && Consumed(t, rows, ids, agg, t', g)
    ensures IsGroup(t', g, seen + rows, norm, agg)
  {
    var n := t'.uniques[g];
    OfConcat(seen, rows, norm, n);
    var before, now := Of(seen, norm, n), Of(rows, norm, n);
    MergedRows(agg, if g < |t.uniques| then t.states[g] else agg.unit, rows, ids, t'.uniques, norm, g);
    if g < |t.uniques| {
      assert IsGroup(t, g, seen, norm, agg);
      FoldConcat(agg, before, now);
    } else {
      NewKey(t.uniques, t'.uniques, g);
      NoRows(t, seen, norm, agg, n);
      assert before + now == now;
      var p: nat :| FirstAt(ids, g, p) && p < |rows| && t'.first[g] == rows[p].key;
      FirstOf(rows, norm, n, ids, t'.uniques, g, p);
    }
  }

  lemma {:induction false} NewKey<K>(known: seq<K>, uniques: seq<K>, g: nat)
    requires known <= uniques && Distinct(uniques) && |known| <= g < |uniques|
    ensures uniques[g] !in known
  {
    forall i | 0 <= i < |known| ensures known[i] != uniques[g] { assert known[i] == uniques[i]; }
  }

  /** The first row of a group is the first that maps to it. */
  lemma {:induction false} FirstOf<K, V>(
      rows: seq<Row<K, V>>, norm: K -> K, n: K, ids: seq<nat>, uniques: seq<K>, g: nat, p: nat)
    requires |ids| == |rows| && g < |uniques| && uniques[g] == n && Distinct(uniques) && FirstAt(ids, g, p)
    requires p < |rows|
    requires forall i | 0 <= i < |rows| :: ids[i] < |uniques| && uniques[ids[i]] == norm(rows[i].key)
    ensures Of(rows, norm, n) != [] && Of(rows, norm, n)[0] == rows[p]
  {
    OfHas(rows, norm, p);
    var i := OfFrom(rows, norm, n);
    assert ids[i] == g;
  }

  /** Adds the rows of a batch (GroupTable::Consume). */
  method ConsumeRows<K(==), V, S(!new)>(
      t: Table<K, S>, rows: seq<Row<K, V>>, norm: K -> K, agg: Agg<V, S>, ghost seen: seq<Row<K, V>>)
    returns (t': Table<K, S>)
    requires Merges(agg) && IsGrouping(t.View(), seen, norm, agg)
    ensures IsGrouping(t'.View(), seen + rows, norm, agg)
  {
    hide IsGroup;
    hide Merged;
    hide Flat;
    hide Merges;
    var before := |t.uniques|;
    var ids, uniques := Number(t.uniques, Norms(rows, norm));
    var after := |uniques|;
    var chunks := t.chunks;
    ghost var places: seq<int> := [];
    if after > before {
      forall g | before <= g < after ensures g in ids { NewKeyHasRow(t.uniques, Norms(rows, norm), ids, uniques, g); }
      var positions := FirstPositions(ids, before, after);
      forall k | 0 <= k < |positions|
        ensures 0 <= positions[k] < |rows|
      {
        assert FirstAt(ids, before + k, positions[k]);
      }
      var first := FirstKeys(rows, positions);
      FlatOne(chunks, first);
      chunks := chunks + [first];
      places := positions;
    }
    var states := MergeStates(agg, t.states + Units(agg, after - before), Ones(agg, rows), ids);
    t' := Table(uniques, chunks, states);
    forall g: nat | g < after ensures IsGroup(t'.View(), g, seen + rows, norm, agg) {
      if g >= before { assert FirstAt(ids, before + (g - before), places[g - before]); }
      assert Consumed(t.View(), rows, ids, agg, t'.View(), g);
      ConsumedGroup(t.View(), seen, rows, ids, norm, agg, t'.View(), g);
    }
    AllHaveGroups(t.View(), seen, rows, ids, norm, agg, uniques);
  }

  lemma {:induction false} NewKeyHasRow<K>(known: seq<K>, keys: seq<K>, ids: seq<nat>, uniques: seq<K>, g: nat)
    requires Numbered(known, keys, ids, uniques) && |known| <= g < |uniques|
    ensures g in ids
  {
    assert uniques[g] in keys;
    var i :| 0 <= i < |keys| && keys[i] == uniques[g];
    assert ids[i] == g;
  }

  lemma {:induction false} AllHaveGroups<K, V, S>(
      t: Groups<K, S>, seen: seq<Row<K, V>>, rows: seq<Row<K, V>>, ids: seq<nat>, norm: K -> K, agg: Agg<V, S>,
      uniques: seq<K>)
    requires IsGrouping(t, seen, norm, agg) && Numbered(t.uniques, Norms(rows, norm), ids, uniques)
    ensures forall i | 0 <= i < |seen + rows| :: norm((seen + rows)[i].key) in uniques
  {
    forall i | 0 <= i < |seen + rows| ensures norm((seen + rows)[i].key) in uniques {
      if i < |seen| {
        assert norm(seen[i].key) in t.uniques;
        var g :| 0 <= g < |t.uniques| && t.uniques[g] == norm(seen[i].key);
        assert uniques[g] == norm(seen[i].key);
      } else {
        assert uniques[ids[i - |seen|]] == norm(rows[i - |seen|].key);
      }
    }
  }
}
