/**
 What a run of a join has still to do (src/exec/hash_join.cc, Start and Pull): a probe batch just
 pulled stands for its part of the nested loops.
 */
module JoinRuns {
  import opened Options
  import opened Lists
  import opened CountingSort
  import opened JoinRows
  import opened JoinDirect
  import opened JoinTable
  import opened JoinResiduals
  import opened JoinSlots
  import opened NestedLoop
  import opened JoinMarking
  import opened JoinWindows
  import opened JoinCursor
  import opened JoinSteps
  import opened JoinMeaning

  // ---- starting ----

  /** Which rows a join keeps, decided once its build is known (HashJoinOperator::Start). */
  function StartKeep(kind: Kind, numRows: nat, hasNull: bool, emptyInput: bool): Keeps {
    match kind
    case Anti => if numRows == 0 then KeepAll else KeepUnmatched
    case NullAwareAnti => if hasNull then KeepNone else if emptyInput then KeepAll else KeepUnmatchedNotNull
    case _ => KeepMatched
  }

  /** `buildKeys` are the keys of the build input whose rows with a key are `all`. */
  ghost predicate KeysOf<T>(buildKeys: seq<Option<int>>, all: seq<Row<T>>) {
    forall k :: Some(k) in buildKeys <==> Select(all, RowKey(), k) != []
  }

  ghost predicate ConfigOk<P, T>(c: Config<P, T>, all: seq<Row<T>>, buildKeys: seq<Option<int>>) {
    && c.batchSize > 0 && Rearranges(c.rows, all) && |c.rows| == |all| && (c.unique ==> Unique(all))
    && (c.buildsLeft ==> c.kind == Inner || c.kind == Semi || c.kind == Anti)
    && (c.alike ==> c.kind == Semi || c.kind == Anti)
    && (c.kind == NullAwareAnti ==> c.residuals == [] && KeysOf(buildKeys, all))
    && c.keep == StartKeep(c.kind, |c.rows|, None in buildKeys, buildKeys == [])
  }

  function Start<P>(v: View<P>): Cursor<P> {
    Cursor(v, 0, 0, 0, false, [], false)
  }

  ghost predicate ViewOk<P, T>(c: Config<P, T>, v: View<P>, all: seq<Row<T>>) {
    Probed(v, c.rows, all) && (c.alike ==> Alike(c.residuals, v.probes, c.rows))
  }

  lemma {:induction false} StartOk<P, T>(c: Config<P, T>, all: seq<Row<T>>, buildKeys: seq<Option<int>>, v: View<P>)
    requires ConfigOk(c, all, buildKeys) && ViewOk(c, v, all)
    ensures CursorOk(c, Start(v), all)
  {
    ProbedOneKey(v, c.rows, all);
    if c.unique {
      UniqueSelections(all, RowKey());
      forall r | 0 <= r < |v.matches| ensures v.matches[r].end <= v.matches[r].begin + 1 {
        var m := v.matches[r];
        assert |c.rows[m.begin..m.end]| == m.end - m.begin;
        if v.selected[r] && v.probes[r].key.Some? { assert |Select(all, RowKey(), v.probes[r].key.value)| <= 1; }
      }
    }
  }

  /** A row is kept just when SQL keeps it. */
  lemma {:induction false} KeepsIt<P, T>(
      c: Config<P, T>, all: seq<Row<T>>, buildKeys: seq<Option<int>>, v: View<P>, r: nat)
    requires ConfigOk(c, all, buildKeys) && Probed(v, c.rows, all) && c.Filtering() && r < |v.probes|
    ensures KeepsRow(c.keep, v.selected[r], v.probes[r].key.Some?, HasMatch(v, c.rows, c.residuals, r))
       <==> v.selected[r] && KeepsProbe(c.kind, all, buildKeys, c.residuals, v.probes[r])
  {
    var p := v.probes[r];
    HasMatchIs(v, c.rows, all, c.residuals, r);
    if c.kind == NullAwareAnti {
      NotInIs(p.key, buildKeys);
      FilterAll(Meets(all, p.key), Judged(c.residuals, p));
    } else if c.kind == Anti && c.keep == KeepAll {
      assert all == [];
      assert Meets(all, p.key) == [];
    }
  }

  lemma {:induction false} SelectedNext<A>(items: seq<A>, bits: seq<bool>, r: nat)
    requires |items| == |bits| && r < |items|
    ensures SelectedFrom(items, bits, r) == (if bits[r] then [items[r]] else []) + SelectedFrom(items, bits, r + 1)
  {
    assert [] + SelectedFrom(items, bits, r + 1) == SelectedFrom(items, bits, r + 1);
  }

  lemma {:induction false} NothingSelected<P, T>(
      c: Config<P, T>, all: seq<Row<T>>, buildKeys: seq<Option<int>>, v: View<P>)
    requires Fits(v, |c.rows|)
    ensures SelectedFrom(ProbeRows<P, T>(v.probes), KeptBits(c, v), |v.probes|) == []
    ensures Output(KeptRow<P, T>(c.kind, all, buildKeys, c.residuals), SelectedFrom(v.probes, v.selected, |v.probes|))
      == []
  {
  }

  lemma {:induction false} FilteredRest<P, T>(
      c: Config<P, T>, all: seq<Row<T>>, buildKeys: seq<Option<int>>, v: View<P>, r: nat)
    requires ConfigOk(c, all, buildKeys) && Probed(v, c.rows, all) && c.Filtering() && r <= |v.probes|
    ensures SelectedFrom(ProbeRows<P, T>(v.probes), KeptBits(c, v), r)
         == Output(KeptRow(c.kind, all, buildKeys, c.residuals), SelectedFrom(v.probes, v.selected, r))
    decreases |v.probes| - r
  {
    hide SelectedFrom;
    hide Output;
    hide KeepsProbe;
    if r == |v.probes| {
      NothingSelected<P, T>(c, all, buildKeys, v);
    } else {
      FilteredRest(c, all, buildKeys, v, r + 1);
      KeepsIt(c, all, buildKeys, v, r);
      SelectedNext(ProbeRows<P, T>(v.probes), KeptBits(c, v), r);
      SelectedStep(KeptRow<P, T>(c.kind, all, buildKeys, c.residuals), v.probes, v.selected, r);
    }
  }

  lemma {:induction false} NoRest<P, T>(probes: seq<Probe<P>>)
    ensures Output(NoRow<P, T>(), probes) == []
  {
    if probes != [] { NoRest<P, T>(probes[1..]); }
  }

  /** What comes of a batch just pulled. */
  lemma {:induction false} StartRest<P, T>(c: Config<P, T>, all: seq<Row<T>>, buildKeys: seq<Option<int>>, v: View<P>)
    requires ConfigOk(c, all, buildKeys) && ViewOk(c, v, all) && CursorOk(c, Start(v), all)
    ensures RestOf(c, Some(Start(v)), all) == Output(RowOut(c, all, buildKeys), SelectedFrom(v.probes, v.selected, 0))
  {
    var n := |c.rows|;
    AtRow(v, n, c.Padding(), false, 0);
    if c.Filtering() {
      FilteredRest(c, all, buildKeys, v, 0);
    } else if c.MarksOnly() {
      NoRest<P, T>(SelectedFrom(v.probes, v.selected, 0));
    } else if c.Padding() {
      LeftBatch(v, c.rows, all, c.residuals, 0);
    } else {
      InnerBatch(v, c.rows, all, c.residuals, 0);
    }
  }

  lemma {:induction false} StartSlots<P, T>(c: Config<P, T>, all: seq<Row<T>>, v: View<P>)
    requires CursorOk(c, Start(v), all)
    ensures ToCome(c, Start(v)) == SlotsFrom(v, |c.rows|, c.Padding(), false, 0)
  {
    AtRow(v, |c.rows|, c.Padding(), false, 0);
  }

  lemma {:induction false} StartFails<P, T>(c: Config<P, T>, all: seq<Row<T>>, buildKeys: seq<Option<int>>, v: View<P>)
    requires ConfigOk(c, all, buildKeys) && ViewOk(c, v, all) && CursorOk(c, Start(v), all)
    ensures FailsOf(c, Some(Start(v)), all) <==> Fails(all, c.residuals, SelectedFrom(v.probes, v.selected, 0))
    ensures MarksToCome(c, Some(Start(v)), all) == if c.Marking()
      then FinalMarks(c.rows, c.residuals, SelectedFrom(v.probes, v.selected, 0)) else {}
  {
    hide ToCome;
    hide SlotsFrom;
    hide SelectedFrom;
    hide Fails;
    hide FinalMarks;
    hide MarksOf;
    hide SomeFails;
    StartSlots(c, all, v);
    BatchFails(v, c.rows, all, c.residuals);
    SlotsFail(v, c.rows, c.residuals, c.Padding(), false);
    StartMarks(c, all, v);
  }

  lemma {:induction false} StartMarks<P, T>(c: Config<P, T>, all: seq<Row<T>>, v: View<P>)
    requires Probed(v, c.rows, all) && Rearranges(c.rows, all)
    ensures MarksOf(v, c.rows, c.residuals, SlotsFrom(v, |c.rows|, c.Padding(), false, 0))
         == FinalMarks(c.rows, c.residuals, SelectedFrom(v.probes, v.selected, 0))
  {
    hide SlotsFrom;
    hide SelectedFrom;
    hide FinalMarks;
    hide MarksOf;
    forall i: nat ensures i in MarksOf(v, c.rows, c.residuals, SlotsFrom(v, |c.rows|, c.Padding(), false, 0))
                     <==> i in FinalMarks(c.rows, c.residuals, SelectedFrom(v.probes, v.selected, 0))
    {
      SlotsMark(v, c.rows, c.residuals, c.Padding(), i);
      BatchMarks(v, c.rows, all, c.residuals, i);
    }
  }

  // ---- probe batches ----

  function Bits<R>(b: Batch<R>): (bits: seq<bool>)
    requires BatchOk(b)
    ensures |bits| == |b.data|
  {
    if b.selection.Some? then b.selection.value else seq(|b.data|, _ => true)
  }

  lemma {:induction false} BitsSelect<R>(b: Batch<R>)
    requires BatchOk(b)
    ensures SelectedRows(b) == SelectedFrom(b.data, Bits(b), 0)
  {
    if b.selection.None? {
      AllSelected(b.data, Bits(b), 0);
      assert b.data[0..] == b.data;
    }
  }

  /** The selected rows of batches, in order. */
  ghost function ProbesOf<P>(input: seq<Batch<Probe<P>>>): seq<Probe<P>> {
    if input == [] then [] else SelectedRows(input[0]) + ProbesOf(input[1..])
  }

  function KeysOfRows<P>(data: seq<Probe<P>>): (keys: seq<Option<int>>)
    ensures |keys| == |data| && forall i | 0 <= i < |data| :: keys[i] == data[i].key
  {
    seq(|data|, i requires 0 <= i < |data| => data[i].key)
  }

  lemma {:induction false} RowsSlice<T>(t: Table<T>, begin: nat, end: nat)
    requires RefsOk(t.chunks, t.rows) && begin <= end <= |t.rows|
    ensures RefsOk(t.chunks, t.rows[begin..end])
    ensures Rows(t.chunks, t.rows)[begin..end] == Rows(t.chunks, t.rows[begin..end])
  {
  }

  /** The matches Find gives a batch are the build rows its rows meet. */
  lemma {:induction false} FoundView<P, T>(t: Table<T>, rows: seq<Row<T>>, all: seq<Row<T>>, v: View<P>)
    requires RefsOk(t.chunks, t.rows) && rows == Rows(t.chunks, t.rows)
    requires |v.probes| == |v.selected| == |v.matches|
    requires forall i | 0 <= i < |v.probes| ::
      Finds(t, v.matches[i], all, if v.selected[i] then v.probes[i].key else None)
    ensures Probed(v, rows, all)
  {
    forall r | 0 <= r < |v.probes|
      ensures v.matches[r].begin <= v.matches[r].end <= |rows|
      ensures v.matches[r].begin < v.matches[r].end ==> v.selected[r]
      ensures rows[v.matches[r].begin..v.matches[r].end] == if v.selected[r] then Meets(all, v.probes[r].key) else []
    {
      var m := v.matches[r];
      assert Finds(t, m, all, if v.selected[r] then v.probes[r].key else None);
      RowsSlice(t, m.begin, m.end);
      assert |rows[m.begin..m.end]| == m.end - m.begin;
    }
  }

  /** Keys are typed: a dense index is over 64-bit integers. */
  ghost predicate KeysFit<P, T>(t: Table<T>, b: Batch<Probe<P>>) {
    t.index.Direct? ==> forall i | 0 <= i < |b.data| && b.data[i].key.Some? :: Int64(b.data[i].key.value)
  }

  /** A batch with its rows' matches; nothing is looked up when every row is kept (HashJoinOperator::Pull). */
  method ProbeBatch<P, T>(
      c: Config<P, T>, t: Table<T>, hash: int -> nat, ghost all: seq<Row<T>>, ghost buildKeys: seq<Option<int>>,
      b: Batch<Probe<P>>)
    returns (v: View<P>)
    requires ConfigOk(c, all, buildKeys) && IsTable(t, all, hash) && c.rows == Rows(t.chunks, t.rows)
    requires BatchOk(b) && KeysFit(t, b) && (c.alike ==> Alike(c.residuals, b.data, c.rows))
    ensures ViewOk(c, v, all) && v.probes == b.data && v.selected == Bits(b)
  {
    if c.keep == KeepAll {
      v := View(b.data, Bits(b), seq(|b.data|, _ => Matches(0, 0)));
      KeptAll(c, all, buildKeys);
    } else {
      var matches := Find(t, all, hash, KeysOfRows(b.data), Bits(b));
      v := View(b.data, Bits(b), matches);
      FoundView(t, c.rows, all, v);
    }
  }

  lemma {:induction false} NoKeys<T>(all: seq<Row<T>>)
    requires forall k :: |Select(all, RowKey(), k)| == 0
    ensures all == []
  {
    if all != [] { SelectPrefix(all, RowKey(), 0, all[0].key); }
  }

  /** Every row is kept only over an empty build. */
  lemma {:induction false} KeptAll<P, T>(c: Config<P, T>, all: seq<Row<T>>, buildKeys: seq<Option<int>>)
    requires ConfigOk(c, all, buildKeys) && c.keep == KeepAll
    ensures c.rows == [] && all == []
  {
    if c.kind == NullAwareAnti {
      forall k ensures Select(all, RowKey(), k) == [] { assert Some(k) !in buildKeys; }
      NoKeys(all);
    }
  }

  // ---- the rest of a run ----

  ghost predicate InputOk<P, T>(c: Config<P, T>, t: Table<T>, input: seq<Batch<Probe<P>>>) {
    forall i | 0 <= i < |input| ::
        BatchOk(input[i]) && KeysFit(t, input[i]) && (c.alike ==> Alike(c.residuals, input[i].data, c.rows))
  }

  /** The probe rows not yet pulled. */
  ghost function Pending<P>(input: seq<Batch<Probe<P>>>, next: nat): seq<Probe<P>>
    requires next <= |input|
  {
    ProbesOf(input[next..])
  }

  /** What the probe has still to do: its rows, its failure and the marks it ends with. */
  datatype ToDo<P, T> = ToDo(rows: seq<OutRow<P, T>>, fails: bool, marks: set<nat>)

  ghost function PendingToDo<P, T>(
      c: Config<P, T>, all: seq<Row<T>>, buildKeys: seq<Option<int>>, probes: seq<Probe<P>>): ToDo<P, T>
  {
    ToDo(Output(RowOut(c, all, buildKeys), probes), Fails(all, c.residuals, probes), if c.Marking()
        then FinalMarks(c.rows, c.residuals, probes) else {})
  }

  ghost function CursorToDo<P, T>(c: Config<P, T>, all: seq<Row<T>>, cursor: Option<Cursor<P>>): ToDo<P, T>
    requires cursor.Some? ==> CursorOk(c, cursor.value, all)
  {
    ToDo(RestOf(c, cursor, all), FailsOf(c, cursor, all), MarksToCome(c, cursor, all))
  }

  ghost function Then<P, T>(a: ToDo<P, T>, b: ToDo<P, T>): ToDo<P, T> {
    ToDo(a.rows + b.rows, a.fails || b.fails, a.marks + b.marks)
  }

  lemma {:induction false} PendingStep<P, T>(
      c: Config<P, T>, all: seq<Row<T>>, buildKeys: seq<Option<int>>, input: seq<Batch<Probe<P>>>, next: nat)
    requires next < |input|
    ensures PendingToDo(c, all, buildKeys, Pending(input, next))
         == Then(PendingToDo(c, all, buildKeys, SelectedRows(input[next])),
             PendingToDo(c, all, buildKeys, Pending(input, next + 1)))
  {
    var a, b := SelectedRows(input[next]), Pending(input, next + 1);
    assert input[next..][1..] == input[next + 1..];
    assert Pending(input, next) == a + b;
    OutputConcat(RowOut(c, all, buildKeys), a, b);
    ProbesConcat(all, c.rows, c.residuals, a, b);
  }

  lemma {:induction false} NothingPending<P, T>(c: Config<P, T>, all: seq<Row<T>>, buildKeys: seq<Option<int>>)
    ensures PendingToDo(c, all, buildKeys, []) == ToDo([], false, {})
  {
  }

  /** No row can come of an empty build, for a kind that needs a match. */
  lemma {:induction false} EmptyBuild<P, T>(
      c: Config<P, T>, all: seq<Row<T>>, buildKeys: seq<Option<int>>, probes: seq<Probe<P>>)
    requires ConfigOk(c, all, buildKeys) && all == [] && (c.kind == Inner || c.kind == Semi || c.MarksOnly())
    ensures PendingToDo(c, all, buildKeys, probes) == ToDo([], false, {})
  {
    assert c.rows == [];
    if probes != [] {
      EmptyBuild(c, all, buildKeys, probes[1..]);
      EmptyRow(c, all, buildKeys, probes[0]);
      FailsConcat(all, c.residuals, probes[..1], probes[1..]);
      assert probes[..1] + probes[1..] == probes;
    }
  }

  lemma {:induction false} EmptyRow<P, T>(c: Config<P, T>, all: seq<Row<T>>, buildKeys: seq<Option<int>>, p: Probe<P>)
    requires all == [] && (c.kind == Inner || c.kind == Semi || c.MarksOnly())
    ensures RowOut(c, all, buildKeys)(p) == [] && !FailsRow(all, c.residuals, p)
  {
    assert Meets(all, p.key) == [];
    assert MatchesOf(all, c.residuals, p) == [];
  }

  /** A batch that is read and dropped. */
  lemma {:induction false} NoneKept<P, T>(
      c: Config<P, T>, all: seq<Row<T>>, buildKeys: seq<Option<int>>, probes: seq<Probe<P>>)
    requires ConfigOk(c, all, buildKeys) && c.keep == KeepNone
    ensures PendingToDo(c, all, buildKeys, probes) == ToDo([], false, {})
  {
    if probes != [] {
      NoneKept(c, all, buildKeys, probes[1..]);
      NotInIs(probes[0].key, buildKeys);
      assert !FailsRow(all, c.residuals, probes[0]);
      FailsConcat(all, c.residuals, probes[..1], probes[1..]);
      assert probes[..1] + probes[1..] == probes;
    }
  }

  /** The next probe batch; a batch without a selected row, or one of which none is kept, is read and dropped. */
  method PullBatch<P, T>(
      c: Config<P, T>, t: Table<T>, hash: int -> nat, ghost all: seq<Row<T>>, ghost buildKeys: seq<Option<int>>,
      b: Batch<Probe<P>>)
    returns (cursor: Option<Cursor<P>>)
    requires ConfigOk(c, all, buildKeys) && IsTable(t, all, hash) && c.rows == Rows(t.chunks, t.rows)
    requires BatchOk(b) && KeysFit(t, b) && (c.alike ==> Alike(c.residuals, b.data, c.rows))
    ensures cursor.Some? ==> CursorOk(c, cursor.value, all) && cursor.value == Start(cursor.value.v)
    ensures CursorToDo(c, all, cursor) == PendingToDo(c, all, buildKeys, SelectedRows(b))
  {
    if c.keep == KeepNone {
      NoneKept(c, all, buildKeys, SelectedRows(b));
      return None;
    }
    if SelectedRows(b) == [] {
      NothingPending(c, all, buildKeys);
      return None;
    }
    var v := ProbeBatch(c, t, hash, all, buildKeys, b);
    StartOk(c, all, buildKeys, v);
    StartRest(c, all, buildKeys, v);
    StartFails(c, all, buildKeys, v);
    BitsSelect(b);
    cursor := Some(Start(v));
  }

  // ---- steps of a run ----

  /** The join, its table and its input fit together. */
  ghost predicate Setup<P, T>(
      c: Config<P, T>, t: Table<T>, hash: int -> nat, input: seq<Batch<Probe<P>>>, all: seq<Row<T>>,
      buildKeys: seq<Option<int>>)
  {
    && ConfigOk(c, all, buildKeys) && IsTable(t, all, hash) && c.rows == Rows(t.chunks, t.rows)
    && InputOk(c, t, input)
  }

  ghost predicate AtWork<P, T>(c: Config<P, T>, all: seq<Row<T>>, cursor: Option<Cursor<P>>) {
    cursor.Some? ==> CursorOk(c, cursor.value, all) && (c.MarksOnly() ==> cursor.value == Start(cursor.value.v))
  }

  /** What the probe has still to do, from a cursor on. */
  ghost function Probing<P, T>(
      c: Config<P, T>, all: seq<Row<T>>, buildKeys: seq<Option<int>>, input: seq<Batch<Probe<P>>>, next: nat,
      cursor: Option<Cursor<P>>): ToDo<P, T>
    requires AtWork(c, all, cursor) && next <= |input|
  {
    Then(CursorToDo(c, all, cursor), PendingToDo(c, all, buildKeys, Pending(input, next)))
  }

  ghost function Effort<P, T>(c: Config<P, T>, all: seq<Row<T>>, cursor: Option<Cursor<P>>): nat
    requires AtWork(c, all, cursor)
  {
    WorkLeft(c, cursor, all)
  }

  /** Pulls batch `next` (HashJoinOperator::Pull). */
  method PullNext<P, T>(
      c: Config<P, T>, t: Table<T>, hash: int -> nat, input: seq<Batch<Probe<P>>>, next: nat, ghost all: seq<Row<T>>,
      ghost buildKeys: seq<Option<int>>)
    returns (cursor: Option<Cursor<P>>)
    requires Setup(c, t, hash, input, all, buildKeys) && next < |input|
    ensures AtWork(c, all, cursor)
    ensures Probing(c, all, buildKeys, input, next + 1, cursor) == Probing(c, all, buildKeys, input, next, None)
  {
    PendingStep(c, all, buildKeys, input, next);
    cursor := PullBatch(c, t, hash, all, buildKeys, input[next]);
    ThenNothing(c, all, buildKeys, input, next);
  }

  lemma {:induction false} ThenNothing<P, T>(
      c: Config<P, T>, all: seq<Row<T>>, buildKeys: seq<Option<int>>, input: seq<Batch<Probe<P>>>, next: nat)
    requires next <= |input|
    ensures Probing(c, all, buildKeys, input, next, None) == PendingToDo(c, all, buildKeys, Pending(input, next))
  {
    hide PendingToDo;
    hide CursorToDo;
    NoCursor<P, T>(c, all);
    NothingFirst(PendingToDo(c, all, buildKeys, Pending(input, next)));
  }

  lemma {:induction false} NothingFirst<P, T>(x: ToDo<P, T>)
    ensures Then(ToDo([], false, {}), x) == x
  {
  }

  lemma {:induction false} NoCursor<P, T>(c: Config<P, T>, all: seq<Row<T>>)
    ensures CursorToDo<P, T>(c, all, None) == ToDo([], false, {})
  {
  }

  lemma {:induction false} AllDone<P, T>(
      c: Config<P, T>, all: seq<Row<T>>, buildKeys: seq<Option<int>>, input: seq<Batch<Probe<P>>>)
    ensures Probing(c, all, buildKeys, input, |input|, None) == ToDo([], false, {})
  {
    ThenNothing(c, all, buildKeys, input, |input|);
    NothingPending(c, all, buildKeys);
    assert input[|input|..] == [];
  }

  /** Walks on in the current batch. */
  method WalkOn<P, T>(
      c: Config<P, T>, ghost t: Table<T>, ghost hash: int -> nat, ghost input: seq<Batch<Probe<P>>>, ghost next: nat,
      ghost all: seq<Row<T>>, ghost buildKeys: seq<Option<int>>, cursor: Cursor<P>, marks: set<nat>)
    returns (failed: bool, out: Option<Batch<OutRow<P, T>>>, cursor': Option<Cursor<P>>, marks': set<nat>)
    requires Setup(c, t, hash, input, all, buildKeys) && AtWork(c, all, Some(cursor)) && next <= |input|
    ensures failed ==> Probing(c, all, buildKeys, input, next, Some(cursor)).fails
    ensures !failed ==> AtWork(c, all, cursor') && (out.Some? ==> BatchOk(out.value) && |out.value.data| <= c.batchSize)
    ensures !failed ==>
      var was, now := Probing(c, all, buildKeys, input, next, Some(cursor)),
      Probing(c, all, buildKeys, input, next, cursor');
      RowsOf(out) + now.rows == was.rows && now.fails == was.fails && marks' + now.marks == marks + was.marks
    ensures !failed ==> Effort(c, all, cursor') < Effort(c, all, Some(cursor))
  {
    CanStep(c, t, hash, input, all, buildKeys);
    hide Setup;
    hide CursorOk;
    hide StepOk;
    hide CursorToDo;
    hide PendingToDo;
    hide Effort;
    var s := NextOutput(c, all, cursor, marks);
    if s.Failed? {
      StepStops(c, all, cursor, marks);
      return true, None, None, marks;
    }
    StepAdds(c, all, cursor, marks, s, PendingToDo(c, all, buildKeys, Pending(input, next)));
    failed, out, cursor', marks' := false, s.out, s.cursor, s.marks;
  }

  lemma {:induction false} CanStep<P, T>(
      c: Config<P, T>, t: Table<T>, hash: int -> nat, input: seq<Batch<Probe<P>>>, all: seq<Row<T>>,
      buildKeys: seq<Option<int>>)
    requires Setup(c, t, hash, input, all, buildKeys)
    ensures c.keep == KeepAll ==> c.rows == []
  {
    if c.keep == KeepAll { KeptAll(c, all, buildKeys); }
  }

  lemma {:induction false} StepStops<P, T>(c: Config<P, T>, all: seq<Row<T>>, cur: Cursor<P>, marks: set<nat>)
    requires CursorOk(c, cur, all) && StepOk(c, all, cur, marks, Failed)
    ensures CursorToDo(c, all, Some(cur)).fails
  {
  }

  lemma {:induction false} StepAdds<P, T>(
      c: Config<P, T>, all: seq<Row<T>>, cur: Cursor<P>, marks: set<nat>, s: Step<P, T>, pending: ToDo<P, T>)
    requires AtWork(c, all, Some(cur)) && s.Stepped? && StepOk(c, all, cur, marks, s)
    ensures AtWork(c, all, s.cursor) && Effort(c, all, s.cursor) < Effort(c, all, Some(cur))
    ensures var was, now := Then(CursorToDo(c, all, Some(cur)), pending), Then(CursorToDo(c, all, s.cursor), pending);
      RowsOf(s.out) + now.rows == was.rows && now.fails == was.fails && s.marks + now.marks == marks + was.marks
    ensures s.out.Some? ==> BatchOk(s.out.value) && |s.out.value.data| <= c.batchSize
  {
    hide CursorOk;
    hide RestOf;
    hide FailsOf;
    hide MarksToCome;
    Regroup(RowsOf(s.out), RestOf(c, s.cursor, all), pending.rows);
  }
}
