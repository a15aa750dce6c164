/**
 Merging the groups of parts (src/exec/group_table.cc, Merge, Partition, MergePartition and
 RouteRows): parts are merged in part order, whole or partition by partition, and every group falls
 in one partition, the same one in every part.
 */
module GroupMerge {
  import opened Lists
  import opened Grouping
  import opened GroupKeys
  import opened GroupStates
  import opened GroupConsume

  // ---- rows of some keys ----

  /** The rows whose key is kept. */
  function KeepRows<K, V>(rows: seq<Row<K, V>>, norm: K -> K, keep: K -> bool): seq<Row<K, V>> {
    if rows == [] then []
    else if keep(norm(rows[0].key)) then [rows[0]] + KeepRows(rows[1..], norm, keep)
    else KeepRows(rows[1..], norm, keep)
  }

  lemma {:induction false} KeepConcat<K, V>(a: seq<Row<K, V>>, b: seq<Row<K, V>>, norm: K -> K, keep: K -> bool)
    ensures KeepRows(a + b, norm, keep) == KeepRows(a, norm, keep) + KeepRows(b, norm, keep)
  {
    if a == [] {
      assert a + b == b;
    } else {
      KeepConcat(a[1..], b, norm, keep);
      assert (a + b)[1..] == a[1..] + b;
    }
  }

  /** A kept key keeps all its rows, any other none. */
  lemma {:induction false} KeepOf<K, V>(rows: seq<Row<K, V>>, norm: K -> K, keep: K -> bool, n: K)
    ensures Of(KeepRows(rows, norm, keep), norm, n) == if keep(n) then Of(rows, norm, n) else []
  {
    if rows != [] {
      KeepOf(rows[1..], norm, keep, n);
      if keep(norm(rows[0].key)) { assert KeepRows(rows, norm, keep)[1..] == KeepRows(rows[1..], norm, keep); }
    }
  }

  lemma {:induction false} KeepAt<K, V>(rows: seq<Row<K, V>>, norm: K -> K, keep: K -> bool, i: nat) returns (j: nat)
    requires i < |KeepRows(rows, norm, keep)|
    ensures j < |rows| && KeepRows(rows, norm, keep)[i] == rows[j] && keep(norm(rows[j].key))
  {
    if keep(norm(rows[0].key)) && i == 0 {
      j := 0;
    } else {
      j := KeepAt(rows[1..], norm, keep, if keep(norm(rows[0].key)) then i - 1 else i);
      j := j + 1;
    }
  }

  // ---- merging some groups of a part ----

  /** `from` are the groups whose keys are kept, in order. */
  ghost predicate Chosen<K>(from: seq<nat>, uniques: seq<K>, keep: K -> bool) {
    && (forall i, j | 0 <= i < j < |from| :: from[i] < from[j])
    && (forall i | 0 <= i < |from| :: from[i] < |uniques| && keep(uniques[from[i]]))
    && (forall g: nat | g < |uniques| && keep(uniques[g]) :: g in from)
  }

  /** The part's group of each new group: the one that became it. */
  method Sources(from: seq<nat>, ids: seq<nat>, before: nat, after: nat) returns (source: seq<nat>)
    requires |from| == |ids| && before <= after && (forall i | 0 <= i < |ids| :: ids[i] < after)
    requires forall i, j | 0 <= i < j < |ids| :: ids[i] != ids[j]
    ensures |source| == after - before
    ensures forall i | 0 <= i < |ids| && ids[i] >= before :: source[ids[i] - before] == from[i]
  {
    source := seq(after - before, _ => 0);
    for i := 0 to |from|
      invariant |source| == after - before
      invariant forall j | 0 <= j < i && ids[j] >= before :: source[ids[j] - before] == from[j]
    {
      if ids[i] >= before {
        source := source[ids[i] - before := from[i]];
      }
    }
  }

  /** Keys that differ get ids that differ. */
  lemma {:induction false} IdsDiffer<K>(uniques: seq<K>, from: seq<nat>, known: seq<K>, ids: seq<nat>, more: seq<K>)
    requires Distinct(uniques) && (forall i | 0 <= i < |from| :: from[i] < |uniques|)
    requires forall i, j | 0 <= i < j < |from| :: from[i] < from[j]
    requires Numbered(known, Taken(uniques, from), ids, more)
    ensures forall i, j | 0 <= i < j < |ids| :: ids[i] != ids[j]
  {
    forall i, j | 0 <= i < j < |ids| ensures ids[i] != ids[j] {
      assert more[ids[i]] == uniques[from[i]] && more[ids[j]] == uniques[from[j]];
    }
  }

  /** What merging part groups makes of group `g`: the part group that became it, if one did. */
  ghost predicate TookIn<V, K, S>(
      t: Groups<K, S>, part: Groups<K, S>, from: seq<nat>, ids: seq<nat>, agg: Agg<V, S>, t': Groups<K, S>, g: nat)
    requires |t.uniques| == |t.first| == |t.states| && g < |t'.uniques| == |t'.first| == |t'.states|
    requires |part.uniques| == |part.first| == |part.states| && |ids| == |from|
    requires forall i | 0 <= i < |from| :: from[i] < |part.uniques|
  {
    var had := g < |t.uniques|;
    var s := if had then t.states[g] else agg.unit;
    if g in ids then
      exists i :: 0 <= i < |ids| && ids[i] == g && t'.states[g] == agg.merge(s, part.states[from[i]])
          && t'.first[g] == (if had then t.first[g] else part.first[from[i]])
    else had && t'.states[g] == s && t'.first[g] == t.first[g]
  }

  lemma {:induction false} TookInGroup<K, V, S(!new)>(
      t: Groups<K, S>, seen: seq<Row<K, V>>, part: Groups<K, S>, rows: seq<Row<K, V>>, from: seq<nat>, ids: seq<nat>,
      norm: K -> K, agg: Agg<V, S>, keep: K -> bool, t': Groups<K, S>, g: nat)
    requires Merges(agg) && IsGrouping(t, seen, norm, agg) && IsGrouping(part, rows, norm, agg)
    requires Chosen(from, part.uniques, keep)
    requires Numbered(t.uniques, Taken(part.uniques, from), ids, t'.uniques)
    requires |t'.uniques| == |t'.first| == |t'.states| && g < |t'.uniques| && TookIn(t, part, from, ids, agg, t', g)
    ensures IsGroup(t', g, seen + KeepRows(rows, norm, keep), norm, agg)
  {
    var n, kept := t'.uniques[g], KeepRows(rows, norm, keep);
    OfConcat(seen, kept, norm, n);
    KeepOf(rows, norm, keep, n);
    var before, now := Of(seen, norm, n), Of(rows, norm, n);
    if g in ids {
      var i :| 0 <= i < |ids| && ids[i] == g
        && t'.states[g] == agg.merge(if g < |t.uniques| then t.states[g] else agg.unit, part.states[from[i]])
        && t'.first[g] == (if g < |t.uniques| then t.first[g] else part.first[from[i]]);
      assert part.uniques[from[i]] == n && IsGroup(part, from[i], rows, norm, agg);
      if g < |t.uniques| {
        assert IsGroup(t, g, seen, norm, agg);
        FoldConcat(agg, before, now);
      } else {
        NewKey(t.uniques, t'.uniques, g);
        NoRows(t, seen, norm, agg, n);
        assert before + now == now;
      }
    } else {
      assert IsGroup(t, g, seen, norm, agg);
      if keep(n) {
        NotTaken(part, rows, norm, agg, from, ids, keep, t.uniques, t'.uniques, g);
      }
      assert before + [] == before;
    }
  }

  /** A chosen part group becomes the group of its key. */
  lemma {:induction false} BecomesGroup<K>(
      part: seq<K>, from: seq<nat>, ids: seq<nat>, keep: K -> bool, known: seq<K>, uniques: seq<K>, g: nat, h: nat)
    requires Chosen(from, part, keep) && Numbered(known, Taken(part, from), ids, uniques)
    requires g < |uniques| && keep(uniques[g]) && h < |part| && part[h] == uniques[g]
    ensures g in ids
  {
    assert h in from;
    var i :| 0 <= i < |from| && from[i] == h;
    assert uniques[ids[i]] == uniques[g];
  }

  /** A kept key that no part group became has no rows in the part. */
  lemma {:induction false} NotTaken<K, V, S>(
      part: Groups<K, S>, rows: seq<Row<K, V>>, norm: K -> K, agg: Agg<V, S>, from: seq<nat>, ids: seq<nat>,
      keep: K -> bool, known: seq<K>, uniques: seq<K>, g: nat)
    requires IsGrouping(part, rows, norm, agg) && Chosen(from, part.uniques, keep)
    requires Numbered(known, Taken(part.uniques, from), ids, uniques)
    requires g < |uniques| && g !in ids && keep(uniques[g])
    ensures Of(rows, norm, uniques[g]) == []
  {
    var n := uniques[g];
    forall h: nat | h < |part.uniques| ensures part.uniques[h] != n {
      if part.uniques[h] == n { BecomesGroup(part.uniques, from, ids, keep, known, uniques, g, h); }
    }
    NoRows(part, rows, norm, agg, n);
  }

  /** Merges the chosen groups of a part: a new group keeps the part's first-seen key, states merge. */
  method MergeChosen<K(==), V, S(!new)>(
      t: Table<K, S>, part: Table<K, S>, from: seq<nat>, norm: K -> K, agg: Agg<V, S>, ghost keep: K -> bool,
      ghost seen: seq<Row<K, V>>, ghost rows: seq<Row<K, V>>)
    returns (t': Table<K, S>)
    requires Merges(agg) && IsGrouping(t.View(), seen, norm, agg) && IsGrouping(part.View(), rows, norm, agg)
    requires Chosen(from, part.uniques, keep)
    ensures IsGrouping(t'.View(), seen + KeepRows(rows, norm, keep), norm, agg)
  {
    hide IsGroup;
    hide KeepRows;
    hide Merged;
    hide TookIn;
    hide Flat;
    hide Merges;
    var before := |t.uniques|;
    var ids, uniques := Number(t.uniques, Taken(part.uniques, from));
    var after := |uniques|;
    IdsDiffer(part.uniques, from, t.uniques, ids, uniques);
    var source := Sources(from, ids, before, after);
    SourcesOk(t.uniques, part.uniques, from, ids, uniques, source);
    var chunks := AddGathered(t.chunks, part.chunks, source);
    var states := MergeStates(agg, t.states + Units(agg, after - before), Taken(part.states, from), ids);
    t' := Table(uniques, chunks, states);
    MergedIsGrouping(t, part, from, norm, agg, keep, seen, rows, ids, source, t');
  }

  lemma {:induction false} MergedIsGrouping<K, V, S(!new)>(
      t: Table<K, S>, part: Table<K, S>, from: seq<nat>, norm: K -> K, agg: Agg<V, S>, keep: K -> bool,
      seen: seq<Row<K, V>>, rows: seq<Row<K, V>>, ids: seq<nat>, source: seq<nat>, t': Table<K, S>)
    requires Merges(agg) && IsGrouping(t.View(), seen, norm, agg) && IsGrouping(part.View(), rows, norm, agg)
    requires Chosen(from, part.uniques, keep)
    requires Numbered(t.uniques, Taken(part.uniques, from), ids, t'.uniques) && |t'.states| == |t'.uniques|
    requires forall i, j | 0 <= i < j < |ids| :: ids[i] != ids[j]
    requires |source| == |t'.uniques| - |t.uniques| && (forall k | 0 <= k < |source| :: source[k] < |part.uniques|)
    requires forall i | 0 <= i < |ids| && ids[i] >= |t.uniques| :: source[ids[i] - |t.uniques|] == from[i]
    requires forall h: nat | |t.uniques| <= h < |t'.uniques| :: h in ids
    requires Flat(t'.chunks) == Flat(t.chunks) + Taken(Flat(part.chunks), source)
    requires forall g: nat | g < |t'.states| ::
      t'.states[g] == Merged(agg, if g < |t.uniques| then t.states[g] else agg.unit, Taken(part.states, from), ids, g)
    ensures IsGrouping(t'.View(), seen + KeepRows(rows, norm, keep), norm, agg)
  {
    hide IsGroup;
    hide KeepRows;
    hide Merged;
    hide TookIn;
    hide Flat;
    hide Merges;
    forall g: nat | g < |t'.uniques| ensures IsGroup(t'.View(), g, seen + KeepRows(rows, norm, keep), norm, agg) {
      TakesIn(t, part, from, ids, agg, t', source, g);
      TookInGroup(t.View(), seen, part.View(), rows, from, ids, norm, agg, keep, t'.View(), g);
    }
    KeptHaveGroups(t.View(), seen, part.View(), rows, from, ids, norm, agg, keep, t'.uniques);
  }

  lemma {:induction false} SourcesOk<K>(
      known: seq<K>, part: seq<K>, from: seq<nat>, ids: seq<nat>, uniques: seq<K>, source: seq<nat>)
    requires (forall i | 0 <= i < |from| :: from[i] < |part|) && Numbered(known, Taken(part, from), ids, uniques)
    requires |source| == |uniques| - |known|
    requires forall i | 0 <= i < |ids| && ids[i] >= |known| :: source[ids[i] - |known|] == from[i]
    ensures forall k | 0 <= k < |source| :: source[k] < |part|
    ensures forall g: nat | |known| <= g < |uniques| :: g in ids
  {
    forall g: nat | |known| <= g < |uniques| ensures g in ids && source[g - |known|] < |part| {
      NewKeyHasRow(known, Taken(part, from), ids, uniques, g);
      var i :| 0 <= i < |ids| && ids[i] == g;
    }
    forall k | 0 <= k < |source| ensures source[k] < |part| { assert (k + |known|) in ids; }
  }

  lemma {:induction false} TakesIn<K, V, S>(
      t: Table<K, S>, part: Table<K, S>, from: seq<nat>, ids: seq<nat>, agg: Agg<V, S>, t': Table<K, S>,
      source: seq<nat>, g: nat)
    requires |t.uniques| == |Flat(t.chunks)| == |t.states| && |part.uniques| == |Flat(part.chunks)| == |part.states|
    requires |ids| == |from| && (forall i | 0 <= i < |from| :: from[i] < |part.uniques|)
    requires forall i, j | 0 <= i < j < |ids| :: ids[i] != ids[j]
    requires |t.uniques| <= |t'.uniques| == |t'.states| && |source| == |t'.uniques| - |t.uniques|
    requires forall k | 0 <= k < |source| :: source[k] < |part.uniques|
    requires Flat(t'.chunks) == Flat(t.chunks) + Taken(Flat(part.chunks), source)
    requires forall i | 0 <= i < |ids| && ids[i] >= |t.uniques| ::
      ids[i] < |t'.uniques| && source[ids[i] - |t.uniques|] == from[i]
    requires forall h: nat | |t.uniques| <= h < |t'.uniques| :: h in ids
    requires g < |t'.uniques|
    requires t'.states[g]
      == Merged(agg, if g < |t.uniques| then t.states[g] else agg.unit, Taken(part.states, from), ids, g)
    ensures TookIn(t.View(), part.View(), from, ids, agg, t'.View(), g)
  {
    var s := if g < |t.uniques| then t.states[g] else agg.unit;
    if g in ids {
      var i :| 0 <= i < |ids| && ids[i] == g;
      MergedOnce(agg, s, Taken(part.states, from), ids, g, i);
    } else {
      MergedNone(agg, s, Taken(part.states, from), ids, g);
    }
  }

  lemma {:induction false} KeptHaveGroups<K, V, S>(
      t: Groups<K, S>, seen: seq<Row<K, V>>, part: Groups<K, S>, rows: seq<Row<K, V>>, from: seq<nat>, ids: seq<nat>,
      norm: K -> K, agg: Agg<V, S>, keep: K -> bool, uniques: seq<K>)
    requires IsGrouping(t, seen, norm, agg) && IsGrouping(part, rows, norm, agg) && Chosen(from, part.uniques, keep)
    requires Numbered(t.uniques, Taken(part.uniques, from), ids, uniques)
    ensures var all := seen + KeepRows(rows, norm, keep); forall i | 0 <= i < |all| :: norm(all[i].key) in uniques
  {
    var kept := KeepRows(rows, norm, keep);
    var all := seen + kept;
    forall i | 0 <= i < |all| ensures norm(all[i].key) in uniques {
      if i < |seen| {
        assert norm(seen[i].key) in t.uniques;
        var g :| 0 <= g < |t.uniques| && t.uniques[g] == norm(seen[i].key);
        assert uniques[g] == norm(seen[i].key);
      } else {
        var j := KeepAt(rows, norm, keep, i - |seen|);
        assert norm(rows[j].key) in part.uniques;
        var h: nat :| h < |part.uniques| && part.uniques[h] == norm(rows[j].key);
        assert h in from;
        var k :| 0 <= k < |from| && from[k] == h;
        assert uniques[ids[k]] == part.uniques[h];
      }
    }
  }
}
