/**
 A join from its two inputs to its rows: the build input comes in parts of batches, the parts are
 added in any order, the table is built of what they merge to, and the probe input is joined to it
 (src/exec/join_table.cc and src/exec/hash_join.cc together).
 */
module WholeJoin {
  import opened Options
  import opened Lists
  import opened CountingSort
  import opened JoinRows
  import opened JoinBuild
  import opened JoinBuilder
  import opened JoinDirect
  import opened JoinTable
  import opened JoinResiduals
  import opened JoinSlots
  import opened JoinPadding
  import opened NestedLoop
  import opened JoinMarking
  import opened JoinWindows
  import opened JoinCursor
  import opened JoinMeaning
  import opened JoinTail
  import opened JoinRuns
  import opened HashJoin
  import J = JoinKinds

  // ---- the build input ----

  /** The rows of all parts, in part order and in row order. */
  function InputOf<T>(parts: seq<seq<seq<Input<T>>>>): seq<Input<T>> { Flat(Flat(parts)) }

  /** The keys of the selected rows, NULLs too. */
  function KeysIn<T>(rows: seq<Input<T>>): seq<Option<int>> {
    if rows == [] then []
    else
      var last := rows[|rows| - 1];
      KeysIn(rows[..|rows| - 1]) + if last.selected then [last.key] else []
  }

  /** A batch that row references can count. */
  predicate BatchFits<T>(batch: seq<Input<T>>) {
    |Keyed(batch)| + |NullKeyed(batch)| == 0 || |batch| <= MAX_ROWS
  }

  ghost predicate AllFit<T>(batches: seq<seq<Input<T>>>) {
    forall b | 0 <= b < |batches| :: BatchFits(batches[b])
  }

  /** A part holds the keyed and the NULL-keyed rows of its batches, in order. */
  lemma {:induction false} BatchRows<T>(batches: seq<seq<Input<T>>>)
    ensures Flat(Kept(batches)) == Keyed(Flat(batches)) && AllNulls(batches) == NullKeyed(Flat(batches))
    decreases |batches|
  {
    if batches != [] {
      var n := |batches| - 1;
      BatchRows(batches[..n]);
      KeptFlat(batches[..n], batches[n]);
      assert batches[..n] + [batches[n]] == batches;
      KeyedConcat(Flat(batches[..n]), batches[n]);
    }
  }

  lemma {:induction false} PartRows<T>(parts: seq<seq<seq<Input<T>>>>, n: nat)
    requires n <= |parts|
    ensures Flat(ListsOf(parts, n)) == Keyed(InputOf(parts[..n])) && NullsOf(parts, n) == NullKeyed(InputOf(parts[..n]))
  {
    if n > 0 {
      PartRows(parts, n - 1);
      BatchRows(parts[n - 1]);
      assert parts[..n][..n - 1] == parts[..n - 1];
      FlatConcat(ListsOf(parts, n - 1), Kept(parts[n - 1]));
      FlatConcat(Flat(parts[..n - 1]), parts[n - 1]);
      KeyedConcat(InputOf(parts[..n - 1]), Flat(parts[n - 1]));
    }
  }

  /** The keys of an input: those of its keyed rows, and NULL just when a row has no key. */
  lemma {:induction false} InputKeys<T>(rows: seq<Input<T>>)
    ensures KeysOf(KeysIn(rows), Keyed(rows))
    ensures None in KeysIn(rows) <==> NullKeyed(rows) != []
    ensures |KeysIn(rows)| == |Keyed(rows)| + |NullKeyed(rows)|
  {
    forall k ensures Some(k) in KeysIn(rows) <==> Select(Keyed(rows), RowKey(), k) != [] { InputKey(rows, k); }
    InputCounts(rows);
  }

  lemma {:induction false} InputCounts<T>(rows: seq<Input<T>>)
    ensures None in KeysIn(rows) <==> NullKeyed(rows) != []
    ensures |KeysIn(rows)| == |Keyed(rows)| + |NullKeyed(rows)|
  {
    if rows != [] { InputCounts(rows[..|rows| - 1]); }
  }

  lemma {:induction false} InputKey<T>(rows: seq<Input<T>>, k: int)
    ensures Some(k) in KeysIn(rows) <==> Select(Keyed(rows), RowKey(), k) != []
  {
    if rows != [] {
      var n := |rows| - 1;
      InputKey(rows[..n], k);
      var front := Keyed(rows[..n]);
      if rows[n].selected && rows[n].key.Some? {
        var row := Row(rows[n].key.value, rows[n].value);
        assert (front + [row])[..|front|] == front && Keyed(rows) == front + [row];
      } else {
        assert Keyed(rows) == front;
      }
    }
  }

  // ---- the table ----

  /** One part, unless a batch is too long. */
  method BuildPart<T(0)>(batches: seq<seq<Input<T>>>, hash: int -> nat, keepNulls: bool) returns (r: Option<Part<T>>)
    ensures r.Some? <==> AllFit(batches)
    ensures r.Some? ==> IsPart(r.value, batches, hash, keepNulls)
  {
    hide IsPart;
    hide AllFit;
    hide Keyed;
    hide NullKeyed;
    var part := new JoinBuildPart(hash, keepNulls);
    FitsNext(batches, 0);
    for b := 0 to |batches|
      invariant part.Valid() && part.batches == batches[..b] && part.hash == hash && part.keepNulls == keepNulls
      invariant AllFit(batches[..b])
    {
      FitsNext(batches, b);
      var ok := part.AppendRows(batches[b]);
      if !ok {
        return None;
      }
    }
    assert batches[..|batches|] == batches;
    r := Some(part.part);
  }

  lemma {:induction false} FitsNext<T>(batches: seq<seq<Input<T>>>, b: nat)
    requires b <= |batches|
    ensures b == 0 ==> AllFit(batches[..b])
    ensures b < |batches| ==> batches[..b + 1] == batches[..b] + [batches[b]]
    ensures b < |batches| && !BatchFits(batches[b]) ==> !AllFit(batches)
    ensures b < |batches| && BatchFits(batches[b]) && AllFit(batches[..b]) ==> AllFit(batches[..b + 1])
  {
    hide BatchFits;
  }

  method BuildPartsOf<T(0)>(
      parts: seq<seq<seq<Input<T>>>>, hash: int -> nat, keepNulls: bool)
    returns (r: Option<seq<Part<T>>>)
    ensures r.Some? <==> forall p | 0 <= p < |parts| :: AllFit(parts[p])
    ensures r.Some? ==>
      |r.value| == |parts| && forall p | 0 <= p < |parts| :: IsPart(r.value[p], parts[p], hash, keepNulls)
  {
    hide IsPart;
    hide AllFit;
    var built: seq<Part<T>> := [];
    for p := 0 to |parts|
      invariant |built| == p && forall q | 0 <= q < p :: AllFit(parts[q]) && IsPart(built[q], parts[q], hash, keepNulls)
    {
      var part := BuildPart(parts[p], hash, keepNulls);
      if part.None? {
        return None;
      }
      built := built + [part.value];
    }
    r := Some(built);
  }

  /** Every part once, in any order. */
  ghost predicate IsOrder(order: seq<nat>, n: nat) {
    && (forall i, j | 0 <= i < j < |order| :: order[i] != order[j])
    && (forall i | 0 <= i < |order| :: order[i] < n)
    && forall p: nat | p < n :: p in order
  }

  /** What the builder holds once the parts `added` are in. */
  ghost predicate Holds<T>(stored: seq<Option<Part<T>>>, inputs: seq<seq<seq<Input<T>>>>, added: seq<nat>,
                           built: seq<Part<T>>, parts: seq<seq<seq<Input<T>>>>) {
    && |stored| == |inputs| == |built| == |parts|
    && forall p: nat | p < |parts| ::
      if p in added then stored[p] == Some(built[p]) && inputs[p] == parts[p] else stored[p].None?
  }

  lemma {:induction false} HoldsNext<T>(
      stored: seq<Option<Part<T>>>, inputs: seq<seq<seq<Input<T>>>>, order: seq<nat>, k: nat, built: seq<Part<T>>,
      parts: seq<seq<seq<Input<T>>>>)
    requires IsOrder(order, |parts|) && k < |order| && Holds(stored, inputs, order[..k], built, parts)
    ensures var p := order[k]; p < |stored| == |inputs| == |built| && stored[p].None?
    ensures var p := order[k]; Holds(stored[p := Some(built[p])], inputs[p := parts[p]], order[..k + 1], built, parts)
  {
    var p := order[k];
    assert p !in order[..k];
    assert order[..k + 1] == order[..k] + [p];
  }

  /** The parts added in an order, merged; none when they have too many rows. */
  method MergeParts<T>(
      parts: seq<seq<seq<Input<T>>>>, built: seq<Part<T>>, order: seq<nat>, hash: int -> nat, keepNulls: bool)
    returns (m: Option<Merged<T>>)
    requires IsOrder(order, |parts|) && |built| == |parts|
    requires forall p | 0 <= p < |parts| :: IsPart(built[p], parts[p], hash, keepNulls)
    ensures m.Some? <==> |Keyed(InputOf(parts))| <= MAX_ROWS
    ensures m.Some? ==>
      IsMerge(m.value, ListsOf(parts, |parts|), hash) && HasNulls(m.value, NullsOf(parts, |parts|), keepNulls)
  {
    hide IsPart;
    hide IsMerge;
    hide HasNulls;
    hide Holds;
    hide InputOf;
    hide Keyed;
    hide ListsOf;
    hide NullsOf;
    var builder := new JoinTableBuilder(hash, keepNulls, |parts|);
    HoldsNone(builder.parts, builder.inputs, built, parts);
    for k := 0 to |order|
      invariant builder.Valid() && builder.CaughtUp() && !builder.failed && !builder.finished
      invariant builder.hash == hash && builder.keepNulls == keepNulls && builder.numParts == |parts|
      invariant Holds(builder.parts, builder.inputs, order[..k], built, parts)
    {
      HoldsNext(builder.parts, builder.inputs, order, k, built, parts);
      var status := builder.Add(order[k], built[order[k]], parts[order[k]]);
      if status != Ok {
        TooMany(builder, order[..k + 1], built, parts);
        return None;
      }
    }
    assert order[..|order|] == order;
    HoldsAll(builder.parts, builder.inputs, order, built, parts);
    var status := builder.CheckFinish();
    AllRows(parts);
    NumRows(builder.merged, ListsOf(parts, |parts|), hash);
    m := Some(builder.merged);
  }

  lemma {:induction false} AllRows<T>(parts: seq<seq<seq<Input<T>>>>)
    ensures Flat(ListsOf(parts, |parts|)) == Keyed(InputOf(parts))
    ensures NullsOf(parts, |parts|) == NullKeyed(InputOf(parts))
  {
    PartRows(parts, |parts|);
    assert parts[..|parts|] == parts;
  }

  /**
   The table of a build input: whatever order its parts are added in, it holds the keyed rows of the
   input in order. It is refused just when a batch or the whole has too many rows.
   */
  method BuildTable<T(0)>(
      parts: seq<seq<seq<Input<T>>>>, order: seq<nat>, hash: int -> nat, keepNulls: bool, candidate: bool,
      affordable: bool)
    returns (r: Option<Table<T>>)
    requires IsOrder(order, |parts|) && (candidate ==> Int64Keys(Keyed(InputOf(parts))))
    ensures r.Some? <==> (forall p | 0 <= p < |parts| :: AllFit(parts[p])) && |Keyed(InputOf(parts))| <= MAX_ROWS
    ensures r.Some? ==> IsTable(r.value, Keyed(InputOf(parts)), hash)
    ensures r.Some? ==> r.value.nulls == if keepNulls then NullKeyed(InputOf(parts)) else []
    ensures r.Some? ==> r.value.inputRows == |KeysIn(InputOf(parts))| && (r.value.index.Direct? ==> candidate)
  {
    hide IsPart;
    hide IsMerge;
    hide IsTable;
    hide AllFit;
    hide InputOf;
    hide Keyed;
    hide NullKeyed;
    hide ListsOf;
    hide NullsOf;
    var built := BuildPartsOf(parts, hash, keepNulls);
    if built.None? {
      return None;
    }
    var m := MergeParts(parts, built.value, order, hash, keepNulls);
    if m.None? {
      return None;
    }
    AllRows(parts);
    InputKeys(InputOf(parts));
    NumRows(m.value, ListsOf(parts, |parts|), hash);
    var table := Build(m.value, ListsOf(parts, |parts|), hash, candidate, affordable);
    r := Some(table);
  }

  lemma {:induction false} HoldsNone<T>(
      stored: seq<Option<Part<T>>>, inputs: seq<seq<seq<Input<T>>>>, built: seq<Part<T>>,
      parts: seq<seq<seq<Input<T>>>>)
    requires |stored| == |inputs| == |built| == |parts| && forall p | 0 <= p < |stored| :: stored[p].None?
    ensures Holds(stored, inputs, [], built, parts)
  {
  }

  lemma {:induction false} HoldsAll<T>(stored: seq<Option<Part<T>>>, inputs: seq<seq<seq<Input<T>>>>, order: seq<nat>,
                                       built: seq<Part<T>>, parts: seq<seq<seq<Input<T>>>>)
    requires IsOrder(order, |parts|) && Holds(stored, inputs, order, built, parts)
    ensures inputs == parts && |stored| == |parts| && forall p | 0 <= p < |parts| :: stored[p].Some?
  {
  }

  /** A builder that failed has released more rows than fit, so the whole input has. */
  lemma {:induction false} TooMany<T>(
      builder: JoinTableBuilder<T>, added: seq<nat>, built: seq<Part<T>>, parts: seq<seq<seq<Input<T>>>>)
    requires builder.Valid() && builder.failed && Holds(builder.parts, builder.inputs, added, built, parts)
    ensures |Keyed(InputOf(parts))| > MAX_ROWS
  {
    var n := builder.nextPart;
    SameLists(builder.inputs, parts, n);
    ListsGrow(parts, n, |parts|);
    PartRows(parts, |parts|);
    assert parts[..|parts|] == parts;
  }

  // ---- the join ----

  /** Whether the join's build retains its NULL-keyed rows: its unmatched build rows come out. */
  predicate KeepsNulls(kind: Kind, buildsLeft: bool) {
    kind == Full || (kind == Anti && buildsLeft)
  }

  /** The rows of a join by its kind, however often each, from its inputs alone. */
  ghost function RowsOfJoin<P, T>(
      kind: Kind, buildsLeft: bool, residuals: Residuals<P, T>, build: seq<Input<T>>, probes: seq<Probe<P>>)
    : multiset<OutRow<P, T>>
  {
    var all := Keyed(build);
    var unmatched := multiset(Output(J.TailRow(residuals, probes, kind != Semi), all));
    var nulls := multiset(NullRows<P, T>(NullKeyed(build)));
    match kind
    case Inner => multiset(Output(InnerRow(all, residuals), probes))
    case Left => multiset(Output(LeftRow(all, residuals), probes))
    case Full => multiset(Output(LeftRow(all, residuals), probes)) + unmatched + nulls
    case NullAwareAnti => multiset(Output(KeptRow(kind, all, KeysIn(build), residuals), probes))
    case _ =>
      if !buildsLeft then multiset(Output(KeptRow(kind, all, KeysIn(build), residuals), probes))
      else if kind == Semi then unmatched
      else unmatched + nulls
  }

  /** What a run means is that, whatever the table's layout and order. */
  lemma {:induction false} MeaningIs<P, T>(c: Config<P, T>, build: seq<Input<T>>, probes: seq<Probe<P>>)
    requires ConfigOk(c, Keyed(build), KeysIn(build))
    ensures multiset(Meaning(c, Keyed(build), KeysIn(build), probes, NullKeyed(build)))
         == RowsOfJoin(c.kind, c.buildsLeft, c.residuals, build, probes)
  {
    hide TailFrom;
    hide FinalMarks;
    hide KeysIn;
    hide Keyed;
    hide NullKeyed;
    hide TailOf;
    hide Output;
    hide NullRows;
    hide ConfigOk;
    var all := Keyed(build);
    RearrangedRows(c, all, KeysIn(build));
    TailMeans(c, all, probes, NullKeyed(build));
    if c.MarksOnly() { NoRest<P, T>(probes); }
  }

  lemma {:induction false} RearrangedRows<P, T>(c: Config<P, T>, all: seq<Row<T>>, keys: seq<Option<int>>)
    requires ConfigOk(c, all, keys)
    ensures Rearranges(c.rows, all) && (c.buildsLeft ==> c.kind == Inner || c.kind == Semi || c.kind == Anti)
  {
  }

  lemma {:induction false} TailMeans<P, T>(c: Config<P, T>, all: seq<Row<T>>, probes: seq<Probe<P>>, nulls: seq<T>)
    requires Rearranges(c.rows, all)
    ensures multiset(TailOf(c, FinalMarks(c.rows, c.residuals, probes), nulls))
         == if !c.Marking() then multiset{}
            else multiset(Output(J.TailRow(c.residuals, probes, c.kind != Semi), all))
                 + if c.kind != Semi then multiset(NullRows<P, T>(nulls)) else multiset{}
  {
    hide TailFrom;
    hide FinalMarks;
    hide Output;
    hide NullRows;
    hide Rearranges;
    J.TailRows(c.rows, all, c.residuals, probes, c.kind != Semi);
  }

  /** Keys are typed: a dense index is over 64-bit integers on both sides. */
  ghost predicate ProbesFit<P>(candidate: bool, input: seq<Batch<Probe<P>>>) {
    forall i | 0 <= i < |input| :: BatchOk(input[i]) &&
      (candidate ==>
          forall r | 0 <= r < |input[i].data| && input[i].data[r].key.Some? :: Int64(input[i].data[r].key.value))
  }

  /** With `alike`, residuals read of the build rows their keys alone. */
  ghost predicate ReadKeysAlone<P, T>(residuals: Residuals<P, T>, input: seq<Batch<Probe<P>>>, all: seq<Row<T>>) {
    forall i | 0 <= i < |input| :: Alike(residuals, input[i].data, all)
  }

  datatype Answer<P, T> = Refused | PairFailed | Gave(rows: seq<OutRow<P, T>>)

  lemma {:induction false} TableSize<T>(t: Table<T>, all: seq<Row<T>>)
    requires RefsOk(t.chunks, t.rows) && multiset(Rows(t.chunks, t.rows)) == multiset(all)
    ensures |t.rows| == |all|
  {
    assert |multiset(Rows(t.chunks, t.rows))| == |multiset(all)|;
  }

  lemma {:induction false} AlikeRows<P, T>(
      residuals: Residuals<P, T>, probes: seq<Probe<P>>, rows: seq<Row<T>>, all: seq<Row<T>>)
    requires Alike(residuals, probes, all) && multiset(rows) == multiset(all)
    ensures Alike(residuals, probes, rows)
  {
    forall r, i, j | 0 <= r < |probes| && 0 <= i < |rows| && 0 <= j < |rows| && rows[i].key == rows[j].key
      ensures Judge(residuals, Pair(probes[r], rows[i])) == Judge(residuals, Pair(probes[r], rows[j]))
    {
      assert rows[i] in multiset(rows) && rows[j] in multiset(rows);
      assert rows[i] in all && rows[j] in all;
    }
  }

  lemma {:induction false} CanProbe<P, T>(
      c: Config<P, T>, t: Table<T>, input: seq<Batch<Probe<P>>>, all: seq<Row<T>>, candidate: bool)
    requires ProbesFit(candidate, input) && (t.index.Direct? ==> candidate)
    requires multiset(c.rows) == multiset(all) && (c.alike ==> ReadKeysAlone(c.residuals, input, all))
    ensures InputOk(c, t, input)
  {
    forall i | 0 <= i < |input| && c.alike ensures Alike(c.residuals, input[i].data, c.rows) {
      AlikeRows(c.residuals, input[i].data, c.rows, all);
    }
  }

  lemma {:induction false} OneChunk<T>(nulls: seq<T>)
    ensures NullsFrom([nulls], 0, 0) == nulls
  {
    assert NullsFrom([nulls], 1, 0) == [];
  }

  /** A join that does not retain its NULL-keyed rows does not emit them. */
  lemma {:induction false} NullsMeant<P, T>(
      c: Config<P, T>, all: seq<Row<T>>, keys: seq<Option<int>>, probes: seq<Probe<P>>, kept: seq<T>, nulls: seq<T>)
    requires kept == if KeepsNulls(c.kind, c.buildsLeft) then nulls else []
    ensures Meaning(c, all, keys, probes, kept) == Meaning(c, all, keys, probes, nulls)
  {
  }

  lemma {:induction false} Ordered<P, T>(
      c: Config<P, T>, all: seq<Row<T>>, keys: seq<Option<int>>, probes: seq<Probe<P>>, nulls: seq<T>)
    requires c.kind == Inner || c.kind == Left
    ensures Meaning(c, all, keys, probes, nulls)
         == Output(if c.kind == Inner then InnerRow(all, c.residuals) else LeftRow(all, c.residuals), probes)
  {
  }

  /**
   A whole join. However the build input is cut into parts and batches, in whatever order its parts
   are added and whichever index they get, and however the probe input is cut into batches: the rows
   are those of the kind, a failure is that of a pair, and a build is refused for its size alone.
   */
  method JoinInputs<P, T(0)>(
      kind: Kind, buildsLeft: bool, residuals: Residuals<P, T>, alike: bool, batchSize: int,
      parts: seq<seq<seq<Input<T>>>>, order: seq<nat>, hash: int -> nat, candidate: bool, affordable: bool,
      input: seq<Batch<Probe<P>>>)
    returns (r: Answer<P, T>)
    requires IsOrder(order, |parts|) && (candidate ==> Int64Keys(Keyed(InputOf(parts)))) && ProbesFit(candidate, input)
    requires buildsLeft ==> kind == Inner || kind == Semi || kind == Anti
    requires alike ==> (kind == Semi || kind == Anti) && ReadKeysAlone(residuals, input, Keyed(InputOf(parts)))
    requires kind == NullAwareAnti ==> residuals == []
    ensures r.Refused? <==> !((forall p | 0 <= p < |parts| :: AllFit(parts[p])) && |Keyed(InputOf(parts))| <= MAX_ROWS)
    ensures r.PairFailed? <==> !r.Refused? && Fails(Keyed(InputOf(parts)), residuals, ProbesOf(input))
    ensures r.Gave? ==> multiset(r.rows) == RowsOfJoin(kind, buildsLeft, residuals, InputOf(parts), ProbesOf(input))
    ensures r.Gave? && kind == Inner ==> r.rows == Output(InnerRow(Keyed(InputOf(parts)), residuals), ProbesOf(input))
    ensures r.Gave? && kind == Left ==> r.rows == Output(LeftRow(Keyed(InputOf(parts)), residuals), ProbesOf(input))
  {
    hide IsTable;
    hide AllFit;
    hide InputOf;
    hide Keyed;
    hide NullKeyed;
    hide KeysIn;
    hide Fails;
    hide RowsOfJoin;
    hide InputOk;
    hide Meaning;
    ghost var build := InputOf(parts);
    ghost var all, keys := Keyed(build), KeysIn(build);
    var table := BuildTable(parts, order, hash, KeepsNulls(kind, buildsLeft), candidate, affordable);
    if table.None? {
      return Refused;
    }
    var t := table.value;
    InputKeys(build);
    TableHoldsRows(t, all, hash);
    TableSize(t, all);
    var hasNull, emptyInput := t.inputRows > |t.rows|, t.inputRows == 0;
    ghost var c := ConfigOf(kind, buildsLeft, t, residuals, alike, batchSize, hasNull, emptyInput);
    CanProbe(c, t, input, all, candidate);
    var failed, rows :=
        Join(kind, buildsLeft, t, hash, residuals, alike, batchSize, hasNull, emptyInput, input, [t.nulls], all, keys);
    if failed {
      return PairFailed;
    }
    OneChunk(t.nulls);
    TableConfig(c, t, hash, all, keys);
    NullsMeant(c, all, keys, ProbesOf(input), t.nulls, NullKeyed(build));
    MeaningIs(c, build, ProbesOf(input));
    if kind == Inner || kind == Left { Ordered(c, all, keys, ProbesOf(input), NullKeyed(build)); }
    r := Gave(rows);
  }
}
