/**
 Grouping sets in two levels (src/exec/grouping_sets.cc, Aggregate; src/exec/group_table.cc,
 MergeProjected): the roots consume the rows, and every other set is merged from its root's groups.
 Each set's groups are those of the rows grouped by that set directly.
 */
module GroupingSets {
  import opened Lists
  import opened Grouping
  import opened GroupKeys
  import opened GroupStates
  import opened GroupConsume
  import opened GroupMerge
  import opened GroupParts
  import opened GroupingSetsShape

  // ---- keys of a set ----

  /** The values of the columns `columns` of a key. */
  function Project<T>(key: seq<T>, columns: seq<nat>): (p: seq<T>)
    requires forall i | 0 <= i < |columns| :: columns[i] < |key|
    ensures |p| == |columns| && forall i | 0 <= i < |columns| :: p[i] == key[columns[i]]
  {
    seq(|columns|, i requires 0 <= i < |columns| => key[columns[i]])
  }

  /** Keys are already normalized: no DOUBLE key is projected. */
  function Same<K>(): K -> K {
    (k: K) => k
  }

  ghost predicate Wide<T, V>(rows: seq<Row<seq<T>, V>>, columns: seq<nat>) {
    forall r, i | 0 <= r < |rows| && 0 <= i < |columns| :: columns[i] < |rows[r].key|
  }

  /** The rows with their keys projected. */
  function ProjectRows<T, V>(rows: seq<Row<seq<T>, V>>, columns: seq<nat>): (out: seq<Row<seq<T>, V>>)
    requires Wide(rows, columns)
    ensures |out| == |rows| && forall r | 0 <= r < |rows| :: out[r] == Row(Project(rows[r].key, columns), rows[r].value)
  {
    seq(|rows|, r requires 0 <= r < |rows| => Row(Project(rows[r].key, columns), rows[r].value))
  }

  /** Projecting onto a root and then onto a set in it is projecting onto the set. */
  lemma {:induction false} ProjectTwice<T, V>(
      rows: seq<Row<seq<T>, V>>, outer: seq<nat>, columns: seq<nat>, inner: seq<nat>)
    requires Wide(rows, outer) && Projects(outer, columns, inner)
    ensures Wide(rows, inner) && Wide(ProjectRows(rows, outer), columns)
    ensures ProjectRows(ProjectRows(rows, outer), columns) == ProjectRows(rows, inner)
  {
    forall r | 0 <= r < |rows| ensures Project(Project(rows[r].key, outer), columns) == Project(rows[r].key, inner) { }
  }

  // ---- rows of several keys ----

  /** The aggregate of the rows whose key is kept. */
  ghost function FoldIf<K, V, S>(agg: Agg<V, S>, rows: seq<Row<K, V>>, keep: K -> bool): S {
    Fold(agg, KeepRows(rows, Same(), keep))
  }

  lemma {:induction false} FoldIfStep<K, V, S>(agg: Agg<V, S>, rows: seq<Row<K, V>>, keep: K -> bool)
    requires rows != []
    ensures FoldIf(agg, rows, keep) == if keep(rows[0].key)
      then agg.merge(agg.one(rows[0].value), FoldIf(agg, rows[1..], keep)) else FoldIf(agg, rows[1..], keep)
  {
    if keep(rows[0].key) { assert KeepRows(rows, Same(), keep)[1..] == KeepRows(rows[1..], Same(), keep); }
  }

  /** Rows of either of two kinds, in any interleaving. */
  lemma {:induction false} FoldEither<K, V, S(!new)>(
      agg: Agg<V, S>, rows: seq<Row<K, V>>, a: K -> bool, b: K -> bool, either: K -> bool)
    requires Merges(agg) && Commutes(agg)
    requires forall i | 0 <= i < |rows| ::
      either(rows[i].key) == (a(rows[i].key) || b(rows[i].key)) && !(a(rows[i].key) && b(rows[i].key))
    ensures FoldIf(agg, rows, either) == agg.merge(FoldIf(agg, rows, a), FoldIf(agg, rows, b))
  {
    if rows == [] {
      assert agg.merge(agg.unit, agg.unit) == agg.unit;
    } else {
      hide FoldIf;
      FoldIfStep(agg, rows, a);
      FoldIfStep(agg, rows, b);
      FoldIfStep(agg, rows, either);
      FoldEither(agg, rows[1..], a, b, either);
      Shuffle(agg, agg.one(rows[0].value), FoldIf(agg, rows[1..], a), FoldIf(agg, rows[1..], b));
    }
  }

  lemma {:induction false} Shuffle<V, S(!new)>(agg: Agg<V, S>, x: S, a: S, b: S)
    requires Merges(agg) && Commutes(agg)
    ensures agg.merge(agg.merge(x, a), b) == agg.merge(x, agg.merge(a, b))
    ensures agg.merge(a, agg.merge(x, b)) == agg.merge(x, agg.merge(a, b))
  {
    calc {
      agg.merge(a, agg.merge(x, b));
      agg.merge(agg.merge(a, x), b);
      agg.merge(agg.merge(x, a), b);
      agg.merge(x, agg.merge(a, b));
    }
  }

  // ---- merging a root's groups ----

  /** The keys among the first `n` groups' that project to `k`. */
  ghost function AmongFirst<T>(uniques: seq<seq<T>>, n: nat, columns: seq<nat>, k: seq<T>): seq<T> -> bool
    requires n <= |uniques|
  {
    (key: seq<T>) => key in uniques[..n] && (forall i | 0 <= i < |columns| :: columns[i] < |key|)
        && Project(key, columns) == k
  }

  ghost function ProjectsTo<T>(columns: seq<nat>, k: seq<T>): seq<T> -> bool {
    (key: seq<T>) => (forall i | 0 <= i < |columns| :: columns[i] < |key|) && Project(key, columns) == k
  }

  ghost function IsKey<K>(k: K): K -> bool {
    (key: K) => key == k
  }

  lemma {:induction false} FoldOfKey<K, V, S>(agg: Agg<V, S>, rows: seq<Row<K, V>>, k: K)
    ensures FoldIf(agg, rows, IsKey(k)) == Fold(agg, Of(rows, Same(), k))
  {
    SameRows(rows, k);
  }

  lemma {:induction false} SameRows<K, V>(rows: seq<Row<K, V>>, k: K)
    ensures KeepRows(rows, Same(), IsKey(k)) == Of(rows, Same(), k)
  {
    if rows != [] { SameRows(rows[1..], k); }
  }

  lemma {:induction false} FoldSame<K, V, S>(agg: Agg<V, S>, rows: seq<Row<K, V>>, a: K -> bool, b: K -> bool)
    requires forall i | 0 <= i < |rows| :: a(rows[i].key) == b(rows[i].key)
    ensures FoldIf(agg, rows, a) == FoldIf(agg, rows, b)
  {
    KeepSame(rows, a, b);
  }

  lemma {:induction false} KeepSame<K, V>(rows: seq<Row<K, V>>, a: K -> bool, b: K -> bool)
    requires forall i | 0 <= i < |rows| :: a(rows[i].key) == b(rows[i].key)
    ensures KeepRows(rows, Same(), a) == KeepRows(rows, Same(), b)
  {
    if rows != [] { KeepSame(rows[1..], a, b); }
  }

  /** The projected keys of a table's groups. */
  function Projected<T>(uniques: seq<seq<T>>, columns: seq<nat>): (keys: seq<seq<T>>)
    requires forall g, i | 0 <= g < |uniques| && 0 <= i < |columns| :: columns[i] < |uniques[g]|
    ensures |keys| == |uniques| && forall g | 0 <= g < |uniques| :: keys[g] == Project(uniques[g], columns)
  {
    seq(|uniques|, g requires 0 <= g < |uniques| => Project(uniques[g], columns))
  }

  /** Merging the first `n` groups of a root into the groups they project to aggregates their rows. */
  lemma {:induction false} MergedGroups<T, V, S(!new)>(
      agg: Agg<V, S>, s: S, root: Groups<seq<T>, S>, rows: seq<Row<seq<T>, V>>, columns: seq<nat>, known: seq<seq<T>>,
      ids: seq<nat>, uniques: seq<seq<T>>, g: nat, n: nat)
    requires Merges(agg) && Commutes(agg) && IsGrouping(root, rows, Same(), agg) && n <= |root.uniques|
    requires forall h, i | 0 <= h < |root.uniques| && 0 <= i < |columns| :: columns[i] < |root.uniques[h]|
    requires Numbered(known, Projected(root.uniques, columns), ids, uniques) && g < |uniques|
    ensures Merged(agg, s, root.states[..n], ids[..n], g)
      == agg.merge(s, FoldIf(agg, rows, AmongFirst(root.uniques, n, columns, uniques[g])))
  {
    hide Fold;
    var k := uniques[g];
    if n == 0 {
      KeepNothing(rows, Same(), AmongFirst(root.uniques, 0, columns, k));
      FoldNone<seq<T>, V, S>(agg, s);
    } else {
      var u := root.uniques[n - 1];
      MergedGroups(agg, s, root, rows, columns, known, ids, uniques, g, n - 1);
      assert root.states[..n][..n - 1] == root.states[..n - 1] && ids[..n][..n - 1] == ids[..n - 1];
      assert ids[n - 1] == g <==> Project(u, columns) == k;
      if ids[n - 1] == g {
        assert IsGroup(root, n - 1, rows, Same(), agg);
        FoldOfKey(agg, rows, u);
        OneMore(root.uniques, n, columns, k, rows);
        FoldEither(agg, rows, AmongFirst(root.uniques, n - 1, columns, k), IsKey(u),
            AmongFirst(root.uniques, n, columns, k));
      } else {
        forall i | 0 <= i < |rows|
          ensures AmongFirst(root.uniques, n, columns, k)(rows[i].key)
            == AmongFirst(root.uniques, n - 1, columns, k)(rows[i].key)
        {
          FirstMembers(root.uniques, n, rows[i].key);
        }
        FoldSame(agg, rows, AmongFirst(root.uniques, n, columns, k), AmongFirst(root.uniques, n - 1, columns, k));
      }
    }
  }

  lemma {:induction false} FirstMembers<K>(uniques: seq<K>, n: nat, key: K)
    requires 0 < n <= |uniques|
    ensures key in uniques[..n] <==> key in uniques[..n - 1] || key == uniques[n - 1]
  {
    assert uniques[..n] == uniques[..n - 1] + [uniques[n - 1]];
  }

  lemma {:induction false} OneMore<T, V>(
      uniques: seq<seq<T>>, n: nat, columns: seq<nat>, k: seq<T>, rows: seq<Row<seq<T>, V>>)
    requires 0 < n <= |uniques| && Grouping.Distinct(uniques)
    requires (forall i | 0 <= i < |columns| :: columns[i] < |uniques[n - 1]|) && Project(uniques[n - 1], columns) == k
    ensures forall i | 0 <= i < |rows| ::
      var key := rows[i].key; var a, b := AmongFirst(uniques, n - 1, columns, k)(key), IsKey(uniques[n - 1])(key);
      AmongFirst(uniques, n, columns, k)(key) == (a || b) && !(a && b)
  {
    forall i | 0 <= i < |rows|
      ensures var key := rows[i].key; var a, b := AmongFirst(uniques, n - 1, columns, k)(key),
        IsKey(uniques[n - 1])(key);
        AmongFirst(uniques, n, columns, k)(key) == (a || b) && !(a && b)
    {
      FirstMembers(uniques, n, rows[i].key);
      if rows[i].key in uniques[..n - 1] {
        var j :| 0 <= j < n - 1 && uniques[..n - 1][j] == rows[i].key;
        assert uniques[j] != uniques[n - 1];
      }
    }
  }

  /** The rows that project to a key, before and after projecting. */
  lemma {:induction false} ProjectedFold<T, V, S>(
      agg: Agg<V, S>, rows: seq<Row<seq<T>, V>>, columns: seq<nat>, k: seq<T>)
    requires Wide(rows, columns)
    ensures Fold(agg, Of(ProjectRows(rows, columns), Same(), k)) == FoldIf(agg, rows, ProjectsTo(columns, k))
  {
    var out := ProjectRows(rows, columns);
    if rows != [] {
      ProjectedFold(agg, rows[1..], columns, k);
      assert out[1..] == ProjectRows(rows[1..], columns);
      FoldIfStep(agg, rows, ProjectsTo(columns, k));
      if out[0].key == k { assert ([out[0]] + Of(out[1..], Same(), k))[1..] == Of(out[1..], Same(), k); }
    }
  }

  /** The whole of a root's groups. */
  lemma {:induction false} MergedAll<T, V, S(!new)>(
      agg: Agg<V, S>, s: S, root: Groups<seq<T>, S>, rows: seq<Row<seq<T>, V>>, columns: seq<nat>, known: seq<seq<T>>,
      ids: seq<nat>, uniques: seq<seq<T>>, g: nat)
    requires Merges(agg) && Commutes(agg) && IsGrouping(root, rows, Same(), agg) && Wide(rows, columns)
    requires forall h, i | 0 <= h < |root.uniques| && 0 <= i < |columns| :: columns[i] < |root.uniques[h]|
    requires Numbered(known, Projected(root.uniques, columns), ids, uniques) && g < |uniques|
    ensures Merged(agg, s, root.states, ids, g)
      == agg.merge(s, Fold(agg, Of(ProjectRows(rows, columns), Same(), uniques[g])))
  {
    hide Fold;
    hide Merges;
    hide Merged;
    hide Of;
    hide FoldIf;
    var n, k := |root.uniques|, uniques[g];
    MergedGroups(agg, s, root, rows, columns, known, ids, uniques, g, n);
    assert root.states[..n] == root.states && ids[..n] == ids && root.uniques[..n] == root.uniques;
    forall i | 0 <= i < |rows|
      ensures AmongFirst(root.uniques, n, columns, k)(rows[i].key) == ProjectsTo(columns, k)(rows[i].key)
    {
      assert Same()(rows[i].key) in root.uniques;
    }
    FoldSame(agg, rows, AmongFirst(root.uniques, n, columns, k), ProjectsTo(columns, k));
    ProjectedFold(agg, rows, columns, k);
  }

  /** The groups of a root have the keys of its rows. */
  lemma {:induction false} GroupsWide<T, V, S>(
      root: Groups<seq<T>, S>, rows: seq<Row<seq<T>, V>>, agg: Agg<V, S>, columns: seq<nat>)
    requires IsGrouping(root, rows, Same(), agg) && Wide(rows, columns)
    ensures forall h, i | 0 <= h < |root.uniques| && 0 <= i < |columns| :: columns[i] < |root.uniques[h]|
  {
    forall h, i | 0 <= h < |root.uniques| && 0 <= i < |columns| ensures columns[i] < |root.uniques[h]| {
      assert IsGroup(root, h, rows, Same(), agg);
      var r := OfFrom(rows, Same(), root.uniques[h]);
    }
  }

  /** With keys that are their own groups, a group's first key is its key. */
  lemma {:induction false} FirstIsKey<K, V>(rows: seq<Row<K, V>>, k: K)
    requires Of(rows, Same(), k) != []
    ensures Of(rows, Same(), k)[0].key == k
  {
    var i := OfFrom(rows, Same(), k);
  }

  /** A projected key has rows. */
  lemma {:induction false} ProjectedHas<T, V, S>(
      root: Groups<seq<T>, S>, rows: seq<Row<seq<T>, V>>, agg: Agg<V, S>, columns: seq<nat>, h: nat)
    requires IsGrouping(root, rows, Same(), agg) && Wide(rows, columns) && h < |root.uniques|
    requires forall i | 0 <= i < |columns| :: columns[i] < |root.uniques[h]|
    ensures Of(ProjectRows(rows, columns), Same(), Project(root.uniques[h], columns)) != []
  {
    assert IsGroup(root, h, rows, Same(), agg);
    var r := OfFrom(rows, Same(), root.uniques[h]);
    OfHas(ProjectRows(rows, columns), Same(), r);
  }

  /** What folding a root's groups makes of group `g`. */
  ghost predicate FoldedIn<K, V, S>(
      agg: Agg<V, S>, t: Groups<K, S>, states: seq<S>, ids: seq<nat>, t': Groups<K, S>, g: nat)
    requires |t.uniques| == |t.first| == |t.states| && g < |t'.uniques| == |t'.first| == |t'.states|
    requires |states| == |ids|
  {
    && t'.states[g] == Merged(agg, if g < |t.uniques| then t.states[g] else agg.unit, states, ids, g)
    && t'.first[g] == if g < |t.uniques| then t.first[g] else t'.uniques[g]
  }

  lemma {:induction false} ProjectedGroup<T, V, S(!new)>(
      agg: Agg<V, S>, t: Groups<seq<T>, S>, seen: seq<Row<seq<T>, V>>, root: Groups<seq<T>, S>,
      rows: seq<Row<seq<T>, V>>, columns: seq<nat>, ids: seq<nat>, t': Groups<seq<T>, S>, g: nat)
    requires Merges(agg) && Commutes(agg) && IsGrouping(t, seen, Same(), agg) && IsGrouping(root, rows, Same(), agg)
    requires Wide(rows, columns)
    requires forall h, i | 0 <= h < |root.uniques| && 0 <= i < |columns| :: columns[i] < |root.uniques[h]|
    requires Numbered(t.uniques, Projected(root.uniques, columns), ids, t'.uniques)
    requires g < |t'.uniques| == |t'.first| == |t'.states| && |root.states| == |ids|
    requires FoldedIn(agg, t, root.states, ids, t', g)
    ensures IsGroup(t', g, seen + ProjectRows(rows, columns), Same(), agg)
  {
    var n, more := t'.uniques[g], ProjectRows(rows, columns);
    OfConcat(seen, more, Same(), n);
    var before, now := Of(seen, Same(), n), Of(more, Same(), n);
    MergedAll(agg, if g < |t.uniques| then t.states[g]
        else agg.unit, root, rows, columns, t.uniques, ids, t'.uniques, g);
    if g < |t.uniques| {
      assert IsGroup(t, g, seen, Same(), agg);
      FoldConcat(agg, before, now);
    } else {
      NewKey(t.uniques, t'.uniques, g);
      NoRows(t, seen, Same(), agg, n);
      assert before + now == now;
      NewKeyHasRow(t.uniques, Projected(root.uniques, columns), ids, t'.uniques, g);
      var h :| 0 <= h < |ids| && ids[h] == g;
      ProjectedHas(root, rows, agg, columns, h);
      FirstIsKey(more, n);
    }
  }

  /** Folds every group of a root into the groups of its projected keys (GroupTable::MergeProjected). */
  method MergeProjected<T(==), V, S(!new)>(
      t: Table<seq<T>, S>, root: Table<seq<T>, S>, columns: seq<nat>, agg: Agg<V, S>, ghost seen: seq<Row<seq<T>, V>>,
      ghost rows: seq<Row<seq<T>, V>>)
    returns (t': Table<seq<T>, S>)
    requires Merges(agg) && Commutes(agg) && IsGrouping(t.View(), seen, Same(), agg)
    requires IsGrouping(root.View(), rows, Same(), agg)
    requires Wide(rows, columns)
    ensures IsGrouping(t'.View(), seen + ProjectRows(rows, columns), Same(), agg)
  {
    hide IsGroup;
    hide Merged;
    hide Merges;
    hide Commutes;
    hide Flat;
    hide Of;
    GroupsWide(root.View(), rows, agg, columns);
    var keys := Projected(root.uniques, columns);
    var before := |t.uniques|;
    var ids, uniques := Number(t.uniques, keys);
    var after := |uniques|;
    forall g | before <= g < after ensures g in ids { NewKeyHasRow(t.uniques, keys, ids, uniques, g); }
    var first := FirstPositions(ids, before, after);
    var positions := Positions(ids, before, first);
    FlatSingle(keys);
    var chunks := AddGathered(t.chunks, [keys], positions);
    var states := MergeStates(agg, t.states + Units(agg, after - before), root.states, ids);
    t' := Table(uniques, chunks, states);
    MergedIsGrouping(t, root, columns, agg, seen, rows, ids, positions, t');
  }

  lemma {:induction false} MergedIsGrouping<T, V, S(!new)>(
      t: Table<seq<T>, S>, root: Table<seq<T>, S>, columns: seq<nat>, agg: Agg<V, S>, seen: seq<Row<seq<T>, V>>,
      rows: seq<Row<seq<T>, V>>, ids: seq<nat>, positions: seq<nat>, t': Table<seq<T>, S>)
    requires Merges(agg) && Commutes(agg) && IsGrouping(t.View(), seen, Same(), agg)
    requires IsGrouping(root.View(), rows, Same(), agg) && Wide(rows, columns)
    requires forall h, i | 0 <= h < |root.uniques| && 0 <= i < |columns| :: columns[i] < |root.uniques[h]|
    requires Numbered(t.uniques, Projected(root.uniques, columns), ids, t'.uniques) && |t'.states| == |t'.uniques|
    requires |positions| == |t'.uniques| - |t.uniques|
    requires forall k: nat | k < |positions| :: positions[k] < |ids| && ids[positions[k]] == |t.uniques| + k
    requires Flat(t'.chunks) == Flat(t.chunks) + Taken(Projected(root.uniques, columns), positions)
    requires forall g: nat | g < |t'.states| ::
      t'.states[g] == Merged(agg, if g < |t.uniques| then t.states[g] else agg.unit, root.states, ids, g)
    ensures IsGrouping(t'.View(), seen + ProjectRows(rows, columns), Same(), agg)
  {
    hide IsGroup;
    hide Merged;
    hide Merges;
    hide Commutes;
    hide Flat;
    hide FoldedIn;
    forall g: nat | g < |t'.uniques| ensures IsGroup(t'.View(), g, seen + ProjectRows(rows, columns), Same(), agg) {
      ProjectedTo(agg, t, Projected(root.uniques, columns), root.states, ids, t', positions, g);
      ProjectedGroup(agg, t.View(), seen, root.View(), rows, columns, ids, t'.View(), g);
    }
    ProjectedHaveGroups(t.View(), seen, root.View(), rows, columns, ids, agg, t'.uniques);
  }

  lemma {:induction false} ProjectedTo<K, V, S>(
      agg: Agg<V, S>, t: Table<K, S>, keys: seq<K>, states: seq<S>, ids: seq<nat>, t': Table<K, S>, positions: seq<nat>,
      g: nat)
    requires |t.uniques| == |Flat(t.chunks)| == |t.states| && |states| == |ids| == |keys|
    requires g < |t'.uniques| == |t'.states|
    requires |positions| == |t'.uniques| - |t.uniques|
    requires forall k: nat | k < |positions| :: positions[k] < |ids| && ids[positions[k]] == |t.uniques| + k
    requires Flat(t'.chunks) == Flat(t.chunks) + Taken(keys, positions) && Numbered(t.uniques, keys, ids, t'.uniques)
    requires t'.states[g] == Merged(agg, if g < |t.uniques| then t.states[g] else agg.unit, states, ids, g)
    ensures FoldedIn(agg, t.View(), states, ids, t'.View(), g)
  {
  }

  lemma {:induction false} FlatSingle<A>(list: seq<A>)
    ensures Flat([list]) == list
  {
    FlatOne([], list);
    assert [] + [list] == [list];
  }

  method Positions(ids: seq<nat>, ghost before: nat, first: seq<int>) returns (positions: seq<nat>)
    requires forall k: nat | k < |first| :: FirstAt(ids, before + k, first[k])
    ensures |positions| == |first|
    ensures forall k: nat | k < |first| :: positions[k] < |ids| && ids[positions[k]] == before + k
  {
    positions := [];
    for k := 0 to |first|
      invariant |positions| == k && forall j: nat | j < k :: positions[j] < |ids| && ids[positions[j]] == before + j
    {
      assert FirstAt(ids, before + k, first[k]);
      positions := positions + [first[k]];
    }
  }

  lemma {:induction false} ProjectedHaveGroups<T, V, S>(
      t: Groups<seq<T>, S>, seen: seq<Row<seq<T>, V>>, root: Groups<seq<T>, S>, rows: seq<Row<seq<T>, V>>,
      columns: seq<nat>, ids: seq<nat>, agg: Agg<V, S>, uniques: seq<seq<T>>)
    requires IsGrouping(t, seen, Same(), agg) && IsGrouping(root, rows, Same(), agg) && Wide(rows, columns)
    requires forall h, i | 0 <= h < |root.uniques| && 0 <= i < |columns| :: columns[i] < |root.uniques[h]|
    requires Numbered(t.uniques, Projected(root.uniques, columns), ids, uniques)
    ensures var all := seen + ProjectRows(rows, columns); forall i | 0 <= i < |all| :: Same()(all[i].key) in uniques
  {
    var all := seen + ProjectRows(rows, columns);
    forall i | 0 <= i < |all| ensures Same()(all[i].key) in uniques {
      if i < |seen| {
        assert Same()(seen[i].key) in t.uniques;
        var g :| 0 <= g < |t.uniques| && t.uniques[g] == seen[i].key;
        assert uniques[g] == seen[i].key;
      } else {
        assert Same()(rows[i - |seen|].key) in root.uniques;
        var h :| 0 <= h < |root.uniques| && root.uniques[h] == rows[i - |seen|].key;
        assert uniques[ids[h]] == all[i].key;
      }
    }
  }
}
