/** Partitions of groups, lanes that merge them, and the table as the operators drive it (src/exec/group_table.cc). */
module GroupParts {
  import opened Lists
  import opened CountingSort
  import opened Grouping
  import opened GroupStates
  import opened GroupConsume
  import opened GroupMerge

  // ---- partitions ----

  /** A group's partition: by the hash of its prefix keys, or of all keys where the prefix is heavy. */
  function KeyPartition<K(!new)>(prefixHash: K -> nat, fullHash: K -> nat, heavy: seq<nat>, n: nat): (part: K -> nat)
    requires n > 0
    ensures forall k :: part(k) < n
  {
    (k: K) => (if prefixHash(k) in heavy then fullHash(k) else prefixHash(k)) % n
  }

  function InPartition<K>(part: K -> nat, p: nat): K -> bool {
    (k: K) => part(k) == p
  }

  lemma {:induction false} ChosenNext<K>(from: seq<nat>, uniques: seq<K>, g: nat, keep: K -> bool)
    requires g < |uniques| && Chosen(from, uniques[..g], keep)
    ensures Chosen(if keep(uniques[g]) then from + [g] else from, uniques[..g + 1], keep)
  {
    var more := if keep(uniques[g]) then from + [g] else from;
    forall h: nat | h < g + 1 && keep(uniques[..g + 1][h]) ensures h in more {
      if h < g {
        assert uniques[..g][h] == uniques[..g + 1][h];
        assert h in from;
      }
    }
    forall i | 0 <= i < |more| ensures more[i] < g + 1 && keep(uniques[..g + 1][more[i]]) {
      if i < |from| { assert from[i] < g && keep(uniques[..g][from[i]]); }
    }
  }

  /** Splits the groups by partition: every one in exactly one (GroupTable::Partition). */
  method PartitionGroups<K(!new)>(uniques: seq<K>, part: K -> nat, n: nat) returns (groups: seq<seq<nat>>)
    requires forall k :: part(k) < n
    ensures |groups| == n && forall p: nat | p < n :: Chosen(groups[p], uniques, InPartition(part, p))
  {
    hide Chosen;
    groups := seq(n, _ => []);
    forall p: nat | p < n
      ensures Chosen(groups[p], uniques[..0], InPartition(part, p))
    {
      NoneChosen(uniques[..0], InPartition(part, p));
    }
    for g := 0 to |uniques|
      invariant |groups| == n && forall p: nat | p < n :: Chosen(groups[p], uniques[..g], InPartition(part, p))
    {
      var q := part(uniques[g]);
      forall p: nat | p < n
        ensures Chosen(if p == q then groups[p] + [g] else groups[p], uniques[..g + 1], InPartition(part, p))
      {
        ChosenNext(groups[p], uniques, g, InPartition(part, p));
      }
      groups := groups[q := groups[q] + [g]];
    }
    assert uniques[..|uniques|] == uniques;
  }

  lemma {:induction false} NoneChosen<K>(uniques: seq<K>, keep: K -> bool)
    requires uniques == []
    ensures Chosen([], uniques, keep)
  {
  }

  // ---- lanes ----

  function EmptyTable<K, S>(): Table<K, S> {
    Table([], [], [])
  }

  lemma {:induction false} EmptyGroups<K, V, S>(norm: K -> K, agg: Agg<V, S>)
    ensures IsGrouping(EmptyTable<K, S>().View(), [], norm, agg)
  {
  }

  /** One lane: partition `p` of every part, in part order (MergePartition). */
  method MergeLane<K(==, !new), V, S(!new)>(
      parts: seq<Table<K, S>>, groups: seq<seq<seq<nat>>>, norm: K -> K, agg: Agg<V, S>, ghost part: K -> nat,
      ghost n: nat, p: nat, ghost rows: seq<seq<Row<K, V>>>)
    returns (t: Table<K, S>)
    requires Merges(agg) && |parts| == |rows| == |groups| && p < n
    requires forall i | 0 <= i < |parts| :: IsGrouping(parts[i].View(), rows[i], norm, agg)
    requires forall i | 0 <= i < |parts| ::
      |groups[i]| == n && Chosen(groups[i][p], parts[i].uniques, InPartition(part, p))
    ensures IsGrouping(t.View(), KeepRows(Flat(rows), norm, InPartition(part, p)), norm, agg)
  {
    hide IsGrouping;
    hide Chosen;
    ghost var keep := InPartition(part, p);
    t := EmptyTable();
    EmptyGroups(norm, agg);
    LaneStart(rows, norm, keep);
    for i := 0 to |parts|
      invariant IsGrouping(t.View(), KeepRows(Flat(rows[..i]), norm, keep), norm, agg)
    {
      LaneNext(rows, i, norm, keep);
      if groups[i][p] != [] {
        t := MergeChosen(t, parts[i], groups[i][p], norm, agg, keep, KeepRows(Flat(rows[..i]), norm, keep), rows[i]);
      } else {
        NothingChosen(parts[i].View(), rows[i], norm, agg, keep);
      }
    }
    assert rows[..|rows|] == rows;
  }

  lemma {:induction false} LaneStart<K, V>(rows: seq<seq<Row<K, V>>>, norm: K -> K, keep: K -> bool)
    ensures KeepRows(Flat(rows[..0]), norm, keep) == []
  {
  }

  lemma {:induction false} LaneNext<K, V>(rows: seq<seq<Row<K, V>>>, i: nat, norm: K -> K, keep: K -> bool)
    requires i < |rows|
    ensures KeepRows(Flat(rows[..i + 1]), norm, keep)
      == KeepRows(Flat(rows[..i]), norm, keep) + KeepRows(rows[i], norm, keep)
  {
    assert rows[..i + 1] == rows[..i] + [rows[i]];
    FlatOne(rows[..i], rows[i]);
    KeepConcat(Flat(rows[..i]), rows[i], norm, keep);
  }

  /** A part without groups in a partition has no rows there. */
  lemma {:induction false} NothingChosen<K, V, S>(
      t: Groups<K, S>, rows: seq<Row<K, V>>, norm: K -> K, agg: Agg<V, S>, keep: K -> bool)
    requires IsGrouping(t, rows, norm, agg) && Chosen([], t.uniques, keep)
    ensures forall a :: a + KeepRows(rows, norm, keep) == a
  {
    forall g: nat | g < |t.uniques| ensures !keep(t.uniques[g]) { }
    forall i | 0 <= i < |rows| ensures !keep(norm(rows[i].key)) { assert norm(rows[i].key) in t.uniques; }
    KeepNothing(rows, norm, keep);
  }

  lemma {:induction false} KeepNothing<K, V>(rows: seq<Row<K, V>>, norm: K -> K, keep: K -> bool)
    requires forall i | 0 <= i < |rows| :: !keep(norm(rows[i].key))
    ensures KeepRows(rows, norm, keep) == []
  {
    if rows != [] { KeepNothing(rows[1..], norm, keep); }
  }

  /** Every part partitioned, and every partition merged in part order. */
  method MergeLanes<K(==, !new), V, S(!new)>(
      parts: seq<Table<K, S>>, norm: K -> K, agg: Agg<V, S>, part: K -> nat, n: nat, ghost rows: seq<seq<Row<K, V>>>)
    returns (lanes: seq<Table<K, S>>)
    requires Merges(agg) && |parts| == |rows| && forall k :: part(k) < n
    requires forall i | 0 <= i < |parts| :: IsGrouping(parts[i].View(), rows[i], norm, agg)
    ensures |lanes| == n
    ensures forall p: nat | p < n ::
      IsGrouping(lanes[p].View(), KeepRows(Flat(rows), norm, InPartition(part, p)), norm, agg)
  {
    hide IsGrouping;
    hide Chosen;
    var groups: seq<seq<seq<nat>>> := [];
    for i := 0 to |parts|
      invariant |groups| == i
      invariant forall j | 0 <= j < i :: |groups[j]| == n && forall p: nat | p < n ::
        Chosen(groups[j][p], parts[j].uniques, InPartition(part, p))
    {
      var split := PartitionGroups(parts[i].uniques, part, n);
      groups := groups + [split];
    }
    lanes := [];
    for p := 0 to n
      invariant |lanes| == p
      invariant forall q: nat | q < p ::
        IsGrouping(lanes[q].View(), KeepRows(Flat(rows), norm, InPartition(part, q)), norm, agg)
    {
      var lane := MergeLane(parts, groups, norm, agg, part, n, p, rows);
      lanes := lanes + [lane];
    }
  }

  /**
   The two-level merge: lanes by the hash of the prefix keys, but of all keys where the prefix is heavy.
   Every lane groups its partition's rows, and groups of one prefix that is not heavy share a lane.
   */
  method MergePrefixLanes<K(==, !new), V, S(!new)>(
      parts: seq<Table<K, S>>, norm: K -> K, agg: Agg<V, S>, prefixHash: K -> nat, fullHash: K -> nat,
      heavy: seq<nat>, n: nat, ghost rows: seq<seq<Row<K, V>>>)
    returns (lanes: seq<Table<K, S>>)
    requires Merges(agg) && |parts| == |rows| && n > 0
    requires forall i | 0 <= i < |parts| :: IsGrouping(parts[i].View(), rows[i], norm, agg)
    ensures var part := KeyPartition(prefixHash, fullHash, heavy, n);
      |lanes| == n && forall p: nat | p < n ::
        IsGrouping(lanes[p].View(), KeepRows(Flat(rows), norm, InPartition(part, p)), norm, agg)
    ensures forall p: nat, q: nat, k, k' | p < n && q < n && k in lanes[p].uniques && k' in lanes[q].uniques ::
      prefixHash(k) == prefixHash(k') && prefixHash(k) !in heavy ==> p == q
  {
    hide IsGrouping;
    var part := KeyPartition(prefixHash, fullHash, heavy, n);
    lanes := MergeLanes(parts, norm, agg, part, n, rows);
    forall p: nat, q: nat, k, k' | p < n && q < n && k in lanes[p].uniques && k' in lanes[q].uniques
      ensures prefixHash(k) == prefixHash(k') && prefixHash(k) !in heavy ==> p == q
    {
      InItsLane(lanes[p].View(), Flat(rows), norm, agg, part, p, k);
      InItsLane(lanes[q].View(), Flat(rows), norm, agg, part, q, k');
    }
  }

  lemma {:induction false} InItsLane<K, V, S>(
      lane: Groups<K, S>, rows: seq<Row<K, V>>, norm: K -> K, agg: Agg<V, S>, part: K -> nat, p: nat, k: K)
    requires IsGrouping(lane, KeepRows(rows, norm, InPartition(part, p)), norm, agg) && k in lane.uniques
    ensures part(k) == p
  {
    hide IsGrouping;
    if part(k) != p { OtherLane(lane, rows, norm, agg, part, p, k); }
  }

  /**
   The lanes together are one table of all rows: a group is in its partition's lane alone, with the same first key and
   state.
   */
  lemma {:induction false} LanesAreOne<K(!new), V, S>(
      whole: Groups<K, S>, lanes: seq<Table<K, S>>, rows: seq<Row<K, V>>, norm: K -> K, agg: Agg<V, S>, part: K -> nat,
      n: nat, g: nat)
    returns (h: nat)
    requires IsGrouping(whole, rows, norm, agg) && |lanes| == n && (forall k :: part(k) < n) && g < |whole.uniques|
    requires forall p: nat | p < n :: IsGrouping(lanes[p].View(), KeepRows(rows, norm, InPartition(part, p)), norm, agg)
    ensures var k := whole.uniques[g]; var lane := lanes[part(k)].View();
      && |whole.uniques| == |whole.first| == |whole.states| && h < |lane.uniques| == |lane.first| == |lane.states|
      && lane.uniques[h] == k && lane.first[h] == whole.first[g] && lane.states[h] == whole.states[g]
      && (forall p: nat | p < n && p != part(k) :: k !in lanes[p].uniques)
  {
    var k := whole.uniques[g];
    var q := part(k);
    assert IsGroup(whole, g, rows, norm, agg);
    KeepOf(rows, norm, InPartition(part, q), k);
    var mine := KeepRows(rows, norm, InPartition(part, q));
    var i := OfFrom(mine, norm, k);
    var lane := lanes[q].View();
    assert IsGrouping(lane, mine, norm, agg);
    h :| 0 <= h < |lane.uniques| && lane.uniques[h] == norm(mine[i].key);
    assert IsGroup(lane, h, mine, norm, agg);
    forall p: nat | p < n && p != q ensures k !in lanes[p].uniques {
      OtherLane(lanes[p].View(), rows, norm, agg, part, p, k);
    }
  }

  lemma {:induction false} OtherLane<K, V, S>(
      lane: Groups<K, S>, rows: seq<Row<K, V>>, norm: K -> K, agg: Agg<V, S>, part: K -> nat, p: nat, k: K)
    requires IsGrouping(lane, KeepRows(rows, norm, InPartition(part, p)), norm, agg) && part(k) != p
    ensures k !in lane.uniques
  {
    KeepOf(rows, norm, InPartition(part, p), k);
    forall h: nat | h < |lane.uniques| ensures lane.uniques[h] != k {
      assert IsGroup(lane, h, KeepRows(rows, norm, InPartition(part, p)), norm, agg);
    }
  }

  /** No lane holds a group that the whole does not. */
  lemma {:induction false} LaneIsPart<K, V, S>(
      whole: Groups<K, S>, lane: Groups<K, S>, rows: seq<Row<K, V>>, norm: K -> K, agg: Agg<V, S>, part: K -> nat,
      p: nat, h: nat)
    requires IsGrouping(whole, rows, norm, agg)
    requires IsGrouping(lane, KeepRows(rows, norm, InPartition(part, p)), norm, agg) && h < |lane.uniques|
    ensures lane.uniques[h] in whole.uniques && part(lane.uniques[h]) == p
  {
    var k := lane.uniques[h];
    assert IsGroup(lane, h, KeepRows(rows, norm, InPartition(part, p)), norm, agg);
    KeepOf(rows, norm, InPartition(part, p), k);
    var i := OfFrom(rows, norm, k);
    assert norm(rows[i].key) in whole.uniques;
  }

  // ---- rows by partition ----

  function RowPartition<K, V>(rows: seq<Row<K, V>>, norm: K -> K, part: K -> nat): nat -> int {
    (i: nat) => if i < |rows| then part(norm(rows[i].key)) else 0
  }

  function UpTo(n: nat): (s: seq<nat>)
    ensures |s| == n && forall i | 0 <= i < n :: s[i] == i
  {
    seq(n, i requires 0 <= i < n => i)
  }

  lemma {:induction false} SelectedRows<K, V>(rows: seq<Row<K, V>>, norm: K -> K, part: K -> nat, p: nat, n: nat)
    requires n <= |rows|
    ensures var chosen := Select<nat>(UpTo(n), RowPartition(rows, norm, part), p);
      && (forall i | 0 <= i < |chosen| :: chosen[i] < |rows|)
      && Taken(rows, chosen) == KeepRows(rows[..n], norm, InPartition(part, p))
  {
    if n > 0 {
      SelectedRows(rows, norm, part, p, n - 1);
      assert UpTo(n)[..n - 1] == UpTo(n - 1);
      KeepLast(rows, n, norm, InPartition(part, p));
      var before := Select<nat>(UpTo(n - 1), RowPartition(rows, norm, part), p);
      TakenLast(rows, before, n - 1);
      assert before + [] == before;
    }
  }

  lemma {:induction false} KeepLast<K, V>(rows: seq<Row<K, V>>, n: nat, norm: K -> K, keep: K -> bool)
    requires 0 < n <= |rows|
    ensures KeepRows(rows[..n], norm, keep) == KeepRows(rows[..n - 1], norm, keep) + if keep(norm(rows[n - 1].key))
      then [rows[n - 1]] else []
  {
    assert rows[..n] == rows[..n - 1] + [rows[n - 1]] && [rows[n - 1]][1..] == [];
    KeepConcat(rows[..n - 1], [rows[n - 1]], norm, keep);
  }

  lemma {:induction false} TakenLast<A>(s: seq<A>, rows: seq<nat>, r: nat)
    requires r < |s| && forall i | 0 <= i < |rows| :: rows[i] < |s|
    ensures Taken(s, rows + [r]) == Taken(s, rows) + [s[r]]
  {
  }

  /** The rows of each partition, in input order: a stable counting sort of their positions (GroupTable::RouteRows). */
  method RouteRows<K(!new), V>(
      rows: seq<Row<K, V>>, norm: K -> K, part: K -> nat, n: nat)
    returns (out: seq<seq<Row<K, V>>>)
    requires forall k :: part(k) < n
    ensures |out| == n && forall p: nat | p < n :: out[p] == KeepRows(rows, norm, InPartition(part, p))
  {
    var key := RowPartition(rows, norm, part);
    forall i | 0 <= i < |rows| ensures 0 <= key(UpTo(|rows|)[i]) < n { assert part(norm(rows[i].key)) < n; }
    var sorted, starts := StableSort<nat>(UpTo(|rows|), key, n);
    var order, start := sorted[..], starts[..];
    out := [];
    for p := 0 to n
      invariant |out| == p
      invariant forall q: nat | q < p :: out[q] == KeepRows(rows, norm, InPartition(part, q))
    {
      assert Bucket<nat>(order, UpTo(|rows|), key, p);
      SelectedRows(rows, norm, part, p, |rows|);
      assert rows[..|rows|] == rows;
      out := out + [Taken(rows, order[start[p]..start[p + 1]])];
    }
  }
}
