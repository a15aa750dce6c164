/**
 A hash join's probe (src/exec/hash_join.cc, HashJoinOperator): it pulls probe batches, finds their
 rows' matches and emits the join's rows in batches, then the build rows of the tail. Whatever the
 batch size and however the input is cut into batches, the rows are those of the nested loops.
 */
module HashJoin {
  import opened Options
  import opened Lists
  import opened JoinRows
  import opened JoinTable
  import opened JoinSlots
  import opened NestedLoop
  import opened JoinWindows
  import opened JoinCursor
  import opened JoinMeaning
  import opened JoinTail
  import opened JoinRuns

  datatype Result<P, T> = Failure | Emits(batch: Batch<OutRow<P, T>>) | End

  function EmittedBy<P, T>(r: Result<P, T>): seq<OutRow<P, T>> {
    if r.Emits? then SelectedRows(r.batch) else []
  }

  /** The build rows that come out after the probe, in the table's order, then those with a NULL key. */
  ghost function TailOf<P, T>(c: Config<P, T>, marks: set<nat>, nulls: seq<T>): seq<OutRow<P, T>> {
    if !c.Marking() then []
    else TailFrom<P, T>(c.rows, marks, c.kind != Semi, 0) + if c.kind != Semi then NullRows<P, T>(nulls) else []
  }

  /** The rows a join means: those of its probe rows in order, then the build rows of the tail. */
  ghost function Meaning<P, T>(
      c: Config<P, T>, all: seq<Row<T>>, buildKeys: seq<Option<int>>, probes: seq<Probe<P>>, nulls: seq<T>)
    : seq<OutRow<P, T>>
  {
    Output(RowOut(c, all, buildKeys), probes) + TailOf(c, FinalMarks(c.rows, c.residuals, probes), nulls)
  }

  /** What the operator's constructor and its planner ask for. */
  ghost predicate Allowed<P, T>(
      kind: Kind, buildsLeft: bool, alike: bool, residuals: Residuals<P, T>, all: seq<Row<T>>,
      buildKeys: seq<Option<int>>)
  {
    && (buildsLeft ==> kind == Inner || kind == Semi || kind == Anti)
    && (alike ==> kind == Semi || kind == Anti)
    && (kind == NullAwareAnti ==> residuals == [] && KeysOf(buildKeys, all))
  }

  function ConfigOf<P, T>(
      kind: Kind, buildsLeft: bool, table: Table<T>, residuals: Residuals<P, T>, alike: bool, batchSize: int,
      hasNull: bool, emptyInput: bool): Config<P, T>
    requires RefsOk(table.chunks, table.rows)
  {
    Config(kind, buildsLeft, Rows(table.chunks, table.rows), table.unique, residuals, alike, if batchSize < 1 then 1
        else batchSize,
           StartKeep(kind, |table.rows|, hasNull, emptyInput))
  }

  lemma {:induction false} TableSetup<P, T>(
      c: Config<P, T>, table: Table<T>, hash: int -> nat, input: seq<Batch<Probe<P>>>, all: seq<Row<T>>,
      buildKeys: seq<Option<int>>)
    requires IsTable(table, all, hash) && RefsOk(table.chunks, table.rows) && c.rows == Rows(table.chunks, table.rows)
    requires c.unique == table.unique
    requires Allowed(c.kind, c.buildsLeft, c.alike, c.residuals, all, buildKeys) && c.batchSize > 0
    requires c.keep == StartKeep(c.kind, |c.rows|, None in buildKeys, buildKeys == []) && InputOk(c, table, input)
    ensures Setup(c, table, hash, input, all, buildKeys)
  {
    TableConfig(c, table, hash, all, buildKeys);
  }

  /** At the start everything is to do; over an empty build that needs matches, nothing. */
  lemma {:induction false} StartToDo<P, T>(
      c: Config<P, T>, table: Table<T>, hash: int -> nat, input: seq<Batch<Probe<P>>>, all: seq<Row<T>>,
      buildKeys: seq<Option<int>>, next: nat)
    requires Setup(c, table, hash, input, all, buildKeys)
    requires next == 0 || (next == |input| && c.rows == [] && (c.kind == Inner || c.kind == Semi || c.MarksOnly()))
    ensures AtWork<P, T>(c, all, None)
    ensures Probing(c, all, buildKeys, input, next, None) == PendingToDo(c, all, buildKeys, ProbesOf(input))
  {
    ThenNothing(c, all, buildKeys, input, next);
    if next == 0 {
      assert input[0..] == input;
    } else {
      NothingPending(c, all, buildKeys);
      assert input[|input|..] == [];
      EmptyBuild(c, all, buildKeys, ProbesOf(input));
    }
  }

  lemma {:induction false} StartTail<P, T>(
      tail: BuildRowEmitter<P, T>, c: Config<P, T>, marks: set<nat>, nullChunks: seq<seq<T>>)
    requires tail.position == 0 && tail.nullChunk == 0 && tail.nullRow == 0 && tail.unmatched == (c.kind != Semi)
    requires c.Marking()
    ensures tail.Rest(c.rows, marks, nullChunks) == TailOf(c, marks, NullsFrom(nullChunks, 0, 0))
  {
  }

  lemma {:induction false} TableConfig<P, T>(
      c: Config<P, T>, table: Table<T>, hash: int -> nat, all: seq<Row<T>>, buildKeys: seq<Option<int>>)
    requires IsTable(table, all, hash) && RefsOk(table.chunks, table.rows) && c.rows == Rows(table.chunks, table.rows)
    requires c.unique == table.unique
    requires Allowed(c.kind, c.buildsLeft, c.alike, c.residuals, all, buildKeys) && c.batchSize > 0
    requires c.keep == StartKeep(c.kind, |c.rows|, None in buildKeys, buildKeys == [])
    ensures ConfigOk(c, all, buildKeys)
  {
    TableHoldsRows(table, all, hash);
    assert |multiset(c.rows)| == |multiset(all)|;
  }

  class HashJoinOperator<P, T> {
    const c: Config<P, T>
    const table: Table<T>
    const hash: int -> nat
    const input: seq<Batch<Probe<P>>>
    const nullChunks: seq<seq<T>>
    const tail: BuildRowEmitter<P, T>
    ghost const all: seq<Row<T>>
    ghost const buildKeys: seq<Option<int>>
    var next: nat
    var cursor: Option<Cursor<P>>
    var marks: set<nat>
    var done: bool
    var tailing: bool

    constructor (
        kind: Kind, buildsLeft: bool, table: Table<T>, hash: int -> nat, residuals: Residuals<P, T>, alike: bool,
        batchSize: int, hasNull: bool, emptyInput: bool, input: seq<Batch<Probe<P>>>, nullChunks: seq<seq<T>>,
        ghost all: seq<Row<T>>, ghost buildKeys: seq<Option<int>>)
      requires IsTable(table, all, hash) && RefsOk(table.chunks, table.rows)
      requires Allowed(kind, buildsLeft, alike, residuals, all, buildKeys) && hasNull == (None in buildKeys)
      requires emptyInput == (buildKeys == [])
      requires InputOk(ConfigOf(kind, buildsLeft, table, residuals, alike, batchSize, hasNull, emptyInput), table,
        input)
      ensures Valid() && fresh(tail) && this.input == input && this.nullChunks == nullChunks && this.all == all
      ensures this.buildKeys == buildKeys
      ensures c == ConfigOf(kind, buildsLeft, table, residuals, alike, batchSize, hasNull, emptyInput)
      ensures AtStart()
    {
      c := ConfigOf(kind, buildsLeft, table, residuals, alike, batchSize, hasNull, emptyInput);
      this.table, this.hash, this.input, this.nullChunks, this.all, this.buildKeys := table, hash, input, nullChunks,
          all, buildKeys;
      cursor, marks := None, {};
      tail := new BuildRowEmitter(kind != Semi);
      var empties := |table.rows| == 0 && (kind == Inner || kind == Semi || (kind == Anti && buildsLeft));
      next, done := if empties then |input| else 0, empties;
      tailing := empties
          && ConfigOf(kind, buildsLeft, table, residuals, alike, batchSize, hasNull, emptyInput).Marking();
      new;
      hide Setup;
      hide Allowed;
      hide IsTable;
      hide InputOk;
      TableSetup(c, table, hash, input, all, buildKeys);
    }

    /** Nothing is pulled yet, or nothing needs to be: a kind that needs matches finds none in an empty build. */
    ghost predicate AtStart()
      reads this, tail
    {
      && cursor.None? && marks == {} && tail.position == 0 && tail.nullChunk == 0 && tail.nullRow == 0
      && (next == 0 || (next == |input| && c.rows == [] && (c.kind == Inner || c.kind == Semi || c.MarksOnly())))
    }

    /** At the start all that the join means is still to come. */
    lemma Started()
      requires Valid() && AtStart()
      ensures ToProbe().fails <==> Fails(all, c.residuals, ProbesOf(input))
      ensures Rest() == Meaning(c, all, buildKeys, ProbesOf(input), NullsFrom(nullChunks, 0, 0))
    {
      hide Setup;
      hide AtWork;
      hide Probing;
      StartToDo(c, table, hash, input, all, buildKeys, next);
      assert ToProbe() == PendingToDo(c, all, buildKeys, ProbesOf(input));
      if c.Marking() {
        assert marks + ToProbe().marks == FinalMarks(c.rows, c.residuals, ProbesOf(input));
        StartTail(tail, c, FinalMarks(c.rows, c.residuals, ProbesOf(input)), nullChunks);
      }
    }

    ghost predicate Valid()
      reads this, tail
    {
      && Setup(c, table, hash, input, all, buildKeys) && next <= |input| && c.batchSize > 0
      && AtWork(c, all, cursor)
      && (done ==> cursor.None? && next == |input|)
      && tailing == (done && c.Marking())
      && tail.unmatched == (c.kind != Semi)
      && tail.Valid(c.rows, nullChunks)
    }

    /** What the probe has still to do. */
    ghost function ToProbe(): ToDo<P, T>
      reads this, tail
      requires Valid()
    {
      Probing(c, all, buildKeys, input, next, cursor)
    }

    /** The build rows still to come, once the probe's marks are final. */
    ghost function ToTail(): seq<OutRow<P, T>>
      reads this, tail
      requires Valid()
    {
      if c.Marking() then tail.Rest(c.rows, marks + ToProbe().marks, nullChunks) else []
    }

    /** The rows still to come. */
    ghost function Rest(): seq<OutRow<P, T>>
      reads this, tail
      requires Valid()
    {
      ToProbe().rows + ToTail()
    }

    /** Takes the next probe batch. */
    method Pull()
      requires Valid() && cursor.None? && !done && next < |input|
      modifies this`next, this`cursor
      ensures Valid() && next == old(next) + 1 && ToProbe() == old(ToProbe())
    {
      hide Setup;
      hide AtWork;
      hide Probing;
      cursor := PullNext(c, table, hash, input, next, all, buildKeys);
      next := next + 1;
    }

    /** Walks on in the current batch. */
    method Walk() returns (failed: bool, out: Option<Batch<OutRow<P, T>>>)
      requires Valid() && cursor.Some?
      modifies this`cursor, this`marks
      ensures failed ==> old(ToProbe().fails)
      ensures !failed ==> Valid() && (out.Some? ==> BatchOk(out.value) && |out.value.data| <= c.batchSize)
      ensures !failed ==> RowsOf(out) + Rest() == old(Rest()) && ToProbe().fails == old(ToProbe().fails)
      ensures !failed ==> Effort(c, all, cursor) < old(Effort(c, all, cursor))
    {
      hide Setup;
      hide AtWork;
      hide Probing;
      hide Effort;
      var cursor', marks';
      failed, out, cursor', marks' := WalkOn(c, table, hash, input, next, all, buildKeys, cursor.value, marks);
      if !failed {
        cursor, marks := cursor', marks';
        Regroup(RowsOf(out), ToProbe().rows, ToTail());
      }
    }

    /** The next batch of rows, or the end (HashJoinOperator::Next). */
    method Next() returns (r: Result<P, T>)
      requires Valid()
      modifies this, tail
      ensures r.Failure? ==> old(ToProbe().fails)
      ensures !r.Failure? ==> Valid() && ToProbe().fails == old(ToProbe().fails)
      ensures r.Emits? ==> BatchOk(r.batch) && |r.batch.data| <= c.batchSize
      ensures !r.Failure? ==> EmittedBy(r) + Rest() == old(Rest())
      ensures r.End? ==> Rest() == [] && !ToProbe().fails
      ensures r.Emits? ==>
        (|| next > old(next)
         || (next == old(next) && Effort(c, all, cursor) < old(Effort(c, all, cursor)))
         || (next == old(next) && Effort(c, all, cursor) == old(Effort(c, all, cursor)) && |Rest()| < old(|Rest()|)))
    {
      hide Setup;
      hide AtWork;
      hide Probing;
      hide Effort;
      hide SelectedRows;
      hide BatchOk;
      hide TailFrom;
      hide NullRows;
      while !done
        invariant Valid() && Rest() == old(Rest()) && ToProbe().fails == old(ToProbe().fails)
        invariant next > old(next) || (next == old(next) && Effort(c, all, cursor) <= old(Effort(c, all, cursor)))
        decreases |input| - next, Effort(c, all, cursor), !done
      {
        if cursor.None? {
          if next == |input| {
            done, tailing := true, c.Marking();
          } else {
            Pull();
          }
        } else {
          var failed, out := Walk();
          if failed {
            return Failure;
          }
          if out.Some? {
            return Emits(out.value);
          }
        }
      }
      r := EmitTail();
    }

    /** The next build rows of the tail, once the probe is done. */
    method EmitTail() returns (r: Result<P, T>)
      requires Valid() && done
      modifies tail
      ensures Valid() && ToProbe().fails == old(ToProbe().fails) && !r.Failure?
      ensures r.Emits? ==> BatchOk(r.batch) && 0 < |r.batch.data| <= c.batchSize && |Rest()| < old(|Rest()|)
      ensures EmittedBy(r) + Rest() == old(Rest())
      ensures r.End? ==> Rest() == [] && !ToProbe().fails
    {
      hide Setup;
      hide AtWork;
      hide Probing;
      AllDone(c, all, buildKeys, input);
      assert marks + ToProbe().marks == marks && Rest() == ToTail();
      if tailing {
        var out := tail.Next(c.rows, marks, nullChunks, c.batchSize);
        assert marks + ToProbe().marks == marks && Rest() == ToTail();
        if out.Some? {
          return Emits(out.value);
        }
      }
      r := End;
    }

    /** All the rows, or a failure. */
    method Run() returns (failed: bool, out: seq<OutRow<P, T>>)
      requires Valid()
      modifies this, tail
      ensures failed <==> old(ToProbe().fails)
      ensures !failed ==> out == old(Rest())
    {
      hide Setup;
      hide AtWork;
      hide Probing;
      hide Effort;
      out := [];
      while true
        invariant Valid() && out + Rest() == old(Rest()) && ToProbe().fails == old(ToProbe().fails)
        decreases |input| - next, Effort(c, all, cursor), |Rest()|
      {
        ghost var before := Rest();
        var r := Next();
        if r.Failure? {
          return true, [];
        }
        Regroup(out, EmittedBy(r), Rest());
        out := out + EmittedBy(r);
        if r.End? {
          return false, out;
        }
      }
    }
  }

  /**
   A whole join: whatever the batch size and however its input comes in batches, it gives the rows it means, or fails
   when a pair does.
   */
  method Join<P, T>(
      kind: Kind, buildsLeft: bool, table: Table<T>, hash: int -> nat, residuals: Residuals<P, T>, alike: bool,
      batchSize: int, hasNull: bool, emptyInput: bool, input: seq<Batch<Probe<P>>>, nullChunks: seq<seq<T>>,
      ghost all: seq<Row<T>>, ghost buildKeys: seq<Option<int>>)
    returns (failed: bool, out: seq<OutRow<P, T>>)
    requires IsTable(table, all, hash) && RefsOk(table.chunks, table.rows)
    requires Allowed(kind, buildsLeft, alike, residuals, all, buildKeys) && hasNull == (None in buildKeys)
    requires emptyInput == (buildKeys == [])
    requires InputOk(ConfigOf(kind, buildsLeft, table, residuals, alike, batchSize, hasNull, emptyInput), table, input)
    ensures failed <==> Fails(all, residuals, ProbesOf(input))
    ensures !failed ==>
      out == Meaning(ConfigOf(kind, buildsLeft, table, residuals, alike, batchSize, hasNull, emptyInput), all,
      buildKeys,
                                       ProbesOf(input), NullsFrom(nullChunks, 0, 0))
  {
    var join := new HashJoinOperator(kind, buildsLeft, table, hash, residuals, alike, batchSize, hasNull, emptyInput,
        input, nullChunks, all, buildKeys);
    join.Started();
    failed, out := join.Run();
  }
}
