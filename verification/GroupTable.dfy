/** The table of a GROUP BY as the operators drive it (src/exec/group_table.cc, GroupTable). */
module GroupTable {
  import opened Grouping
  import opened GroupConsume
  import opened GroupMerge
  import opened GroupParts

  class GroupTable<K(==, !new), V, S(!new)> {
    const norm: K -> K
    const agg: Agg<V, S>
    const part: K -> nat
    const partitions: nat
    var table: Table<K, S>
    var partitionGroups: seq<seq<nat>>
    ghost var rows: seq<Row<K, V>>  // the rows it stands for

    constructor (norm: K -> K, agg: Agg<V, S>, part: K -> nat, partitions: nat)
      requires Merges(agg) && forall k :: part(k) < partitions
      ensures this.norm == norm && this.agg == agg && this.part == part && this.partitions == partitions
      ensures Valid() && rows == []
    {
      this.norm, this.agg, this.part, this.partitions := norm, agg, part, partitions;
      table, partitionGroups, rows := EmptyTable(), [], [];
      EmptyGroups(norm, agg);
    }

    ghost predicate Valid()
      reads this
    {
      Merges(agg) && (forall k :: part(k) < partitions) && IsGrouping(table.View(), rows, norm, agg)
    }

    /** Whether the groups are split as they stand. */
    ghost predicate Partitioned()
      reads this
    {
      |partitionGroups| == partitions && forall p: nat | p < partitions ::
          Chosen(partitionGroups[p], table.uniques, InPartition(part, p))
    }

    method Consume(batch: seq<Row<K, V>>)
      requires Valid()
      modifies this
      ensures Valid() && rows == old(rows) + batch
    {
      table := ConsumeRows(table, batch, norm, agg, rows);
      rows := rows + batch;
    }

    /** Adds the groups of a part whose rows come after this table's. */
    method Merge(other: GroupTable<K, V, S>)
      requires Valid() && other.Valid() && other.norm == norm && other.agg == agg
      modifies this
      ensures Valid() && rows == old(rows) + old(other.rows)
    {
      var every := UpTo(|other.table.uniques|);
      ghost var keep := (k: K) => true;
      EveryChosen(other.table.uniques, every, keep);
      KeepEvery(other.rows, norm, keep);
      ghost var after := rows + other.rows;
      table := MergeChosen(table, other.table, every, norm, agg, keep, rows, other.rows);
      rows := after;
    }

    method Partition()
      requires Valid()
      modifies this`partitionGroups
      ensures Partitioned()
    {
      partitionGroups := PartitionGroups(table.uniques, part, partitions);
    }

    /** Adds the groups of one partition of a part. */
    method MergePartition(other: GroupTable<K, V, S>, p: nat) returns (ok: bool)
      requires Valid() && other.Valid() && other.Partitioned() && other != this
      requires other.norm == norm && other.agg == agg
      modifies this
      ensures ok <==> p < other.partitions
      ensures Valid() && rows == old(rows) + if ok then KeepRows(other.rows, norm, InPartition(other.part, p)) else []
    {
      if p >= |other.partitionGroups| {
        return false;
      }
      ghost var keep := InPartition(other.part, p);
      table := MergeChosen(table, other.table, other.partitionGroups[p], norm, agg, keep, rows, other.rows);
      rows := rows + KeepRows(other.rows, norm, keep);
      ok := true;
    }
  }

  lemma {:induction false} EveryChosen<K>(uniques: seq<K>, every: seq<nat>, keep: K -> bool)
    requires every == UpTo(|uniques|) && forall g | 0 <= g < |uniques| :: keep(uniques[g])
    ensures Chosen(every, uniques, keep)
  {
    forall g: nat | g < |uniques| ensures g in every { assert every[g] == g; }
  }

  lemma {:induction false} KeepEvery<K, V>(rows: seq<Row<K, V>>, norm: K -> K, keep: K -> bool)
    requires forall i | 0 <= i < |rows| :: keep(norm(rows[i].key))
    ensures KeepRows(rows, norm, keep) == rows
  {
    if rows != [] { KeepEvery(rows[1..], norm, keep); }
  }
}
