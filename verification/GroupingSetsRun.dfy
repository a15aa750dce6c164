/**
 The evaluation of grouping sets (src/exec/grouping_sets.cc, GroupingSetsOperator::Aggregate) and the aggregates that
 merge exactly.
 */
module GroupingSetsRun {
  import opened Options
  import opened Lists
  import opened Grouping
  import opened GroupConsume
  import opened GroupParts
  import opened GroupingSetsShape
  import opened GroupingSets

  /** Rows over `width` key columns, and sets of those columns. */
  ghost predicate Fits<T, V>(rows: seq<Row<seq<T>, V>>, sets: seq<KeySet>, width: nat) {
    && (forall r | 0 <= r < |rows| :: |rows[r].key| == width)
    && (forall s, i | 0 <= s < |sets| && 0 <= i < |sets[s]| :: sets[s][i] < width)
  }

  lemma {:induction false} FitsWide<T, V>(rows: seq<Row<seq<T>, V>>, sets: seq<KeySet>, width: nat, s: nat)
    requires Fits(rows, sets, width) && s < |sets|
    ensures Wide(rows, sets[s])
  {
  }

  /** The table holds the groups of the rows by a set, directly. */
  ghost predicate GroupsBy<T, V, S>(
      t: Table<seq<T>, S>, rows: seq<Row<seq<T>, V>>, set_: KeySet, norm: seq<T> -> seq<T>, agg: Agg<V, S>)
  {
    Wide(rows, set_) && IsGrouping(t.View(), ProjectRows(rows, set_), norm, agg)
  }

  /** A batch into the table of a root. */
  method ConsumeSet<T(==), V, S(!new)>(
      t: Table<seq<T>, S>, batch: seq<Row<seq<T>, V>>, set_: KeySet, norm: seq<T> -> seq<T>, agg: Agg<V, S>,
      ghost seen: seq<Row<seq<T>, V>>)
    returns (t': Table<seq<T>, S>)
    requires Merges(agg) && GroupsBy(t, seen, set_, norm, agg) && Wide(batch, set_)
    ensures GroupsBy(t', seen + batch, set_, norm, agg)
  {
    t' := ConsumeRows(t, ProjectRows(batch, set_), norm, agg, ProjectRows(seen, set_));
    assert ProjectRows(seen + batch, set_) == ProjectRows(seen, set_) + ProjectRows(batch, set_);
  }

  /** The first level: the roots' tables over the whole input. */
  method ConsumeAll<T(==), V, S(!new)>(
      batches: seq<seq<Row<seq<T>, V>>>, shape: Shape, norm: seq<T> -> seq<T>, agg: Agg<V, S>, ghost width: nat)
    returns (tables: seq<Table<seq<T>, S>>)
    requires Merges(agg) && |shape.sources| == |shape.sets|
    requires forall b | 0 <= b < |batches| :: Fits(batches[b], shape.sets, width)
    ensures |tables| == |shape.sets|
    ensures forall s | 0 <= s < |shape.sets| ::
      if shape.sources[s] == s then GroupsBy(tables[s], Flat(batches), shape.sets[s], norm, agg)
      else tables[s] == EmptyTable()
  {
    hide GroupsBy;
    hide Fits;
    tables := seq(|shape.sets|, _ => EmptyTable());
    forall s | 0 <= s < |shape.sets|
      ensures GroupsBy(tables[s], Flat(batches[..0]), shape.sets[s], norm, agg)
    {
      NoRowsYet(batches, shape.sets[s], norm, agg);
    }
    for b := 0 to |batches|
      invariant |tables| == |shape.sets|
      invariant forall s | 0 <= s < |shape.sets| ::
        if shape.sources[s] == s then GroupsBy(tables[s], Flat(batches[..b]), shape.sets[s], norm, agg)
        else tables[s] == EmptyTable()
    {
      assert batches[..b + 1] == batches[..b] + [batches[b]];
      FlatOne(batches[..b], batches[b]);
      tables := ConsumeBatch(tables, batches[b], shape, norm, agg, width, Flat(batches[..b]));
    }
    assert batches[..|batches|] == batches;
  }

  lemma {:induction false} NoRowsYet<T, V, S>(
      batches: seq<seq<Row<seq<T>, V>>>, set_: KeySet, norm: seq<T> -> seq<T>, agg: Agg<V, S>)
    ensures GroupsBy(EmptyTable(), Flat(batches[..0]), set_, norm, agg)
  {
    EmptyGroups<seq<T>, V, S>(norm, agg);
  }

  /** One batch into every root's table. */
  method ConsumeBatch<T(==), V, S(!new)>(
      tables: seq<Table<seq<T>, S>>, batch: seq<Row<seq<T>, V>>, shape: Shape, norm: seq<T> -> seq<T>, agg: Agg<V, S>,
      ghost width: nat, ghost seen: seq<Row<seq<T>, V>>)
    returns (out: seq<Table<seq<T>, S>>)
    requires Merges(agg) && |tables| == |shape.sources| == |shape.sets| && Fits(batch, shape.sets, width)
    requires forall s | 0 <= s < |shape.sets| ::
      if shape.sources[s] == s then GroupsBy(tables[s], seen, shape.sets[s], norm, agg) else tables[s] == EmptyTable()
    ensures |out| == |shape.sets|
    ensures forall s | 0 <= s < |shape.sets| ::
      if shape.sources[s] == s then GroupsBy(out[s], seen + batch, shape.sets[s], norm, agg) else out[s] == EmptyTable()
  {
    hide GroupsBy;
    hide Fits;
    out := [];
    for s := 0 to |shape.sets|
      invariant |out| == s
      invariant forall r | 0 <= r < s ::
        if shape.sources[r] == r then GroupsBy(out[r], seen + batch, shape.sets[r], norm, agg)
        else out[r] == EmptyTable()
    {
      var t := tables[s];
      if shape.sources[s] == s {
        FitsWide(batch, shape.sets, width, s);
        t := ConsumeSet(t, batch, shape.sets[s], norm, agg, seen);
      }
      out := out + [t];
    }
  }

  /** A set's table from its root's. */
  method FromRoot<T(==), V, S(!new)>(
      root: Table<seq<T>, S>, columns: seq<nat>, agg: Agg<V, S>, ghost outer: KeySet, ghost inner: KeySet,
      ghost rows: seq<Row<seq<T>, V>>)
    returns (t: Table<seq<T>, S>)
    requires Merges(agg) && Commutes(agg) && GroupsBy(root, rows, outer, Same(), agg) && Projects(outer, columns, inner)
    ensures GroupsBy(t, rows, inner, Same(), agg)
  {
    ProjectTwice(rows, outer, columns, inner);
    EmptyGroups<seq<T>, V, S>(Same(), agg);
    t := MergeProjected(EmptyTable(), root, columns, agg, [], ProjectRows(rows, outer));
    assert [] + ProjectRows(rows, inner) == ProjectRows(rows, inner);
  }

  /** The empty set has one group even over no row. */
  ghost predicate SetGroups<T, V, S>(
      t: Table<seq<T>, S>, rows: seq<Row<seq<T>, V>>, set_: KeySet, norm: seq<T> -> seq<T>, agg: Agg<V, S>)
  {
    if set_ == [] && rows == [] then t.View() == Groups([[]], [[]], [agg.unit]) else GroupsBy(t, rows, set_, norm, agg)
  }

  /** Adds the empty set's group where no row made it (GroupTable::EnsureGroup). */
  method EnsureGroup<T, V, S>(
      t: Table<seq<T>, S>, set_: KeySet, norm: seq<T> -> seq<T>, agg: Agg<V, S>, ghost rows: seq<Row<seq<T>, V>>)
    returns (t': Table<seq<T>, S>)
    requires GroupsBy(t, rows, set_, norm, agg)
    ensures SetGroups(t', rows, set_, norm, agg)
  {
    t' := t;
    GroupsIffRows(t.View(), ProjectRows(rows, set_), norm, agg);
    if set_ == [] && |t.states| == 0 {
      t' := Table([[]], [[[]]], [agg.unit]);
      FlatSingle<seq<T>>([[]]);
    }
  }

  lemma {:induction false} GroupsIffRows<K, V, S>(t: Groups<K, S>, rows: seq<Row<K, V>>, norm: K -> K, agg: Agg<V, S>)
    requires IsGrouping(t, rows, norm, agg)
    ensures |t.states| == 0 <==> rows == []
  {
    if rows != [] { assert norm(rows[0].key) in t.uniques; }
    if |t.states| > 0 { assert IsGroup(t, 0, rows, norm, agg); }
  }

  /**
   Every set's groups, from one pass over the input and the roots' groups. Keys may be normalized, as
   DOUBLE ones are, but then merging is not exact and every set is a root.
   */
  method Aggregate<T(==), V, S(!new)>(
      batches: seq<seq<Row<seq<T>, V>>>, given: seq<KeySet>, exact: bool, norm: seq<T> -> seq<T>, agg: Agg<V, S>,
      ghost width: nat)
    returns (shape: Shape, tables: seq<Table<seq<T>, S>>)
    requires Merges(agg) && (exact ==> Commutes(agg) && norm == Same())
    requires forall e | 0 <= e < |given| :: Ascends(given[e])
    requires forall b | 0 <= b < |batches| :: Fits(batches[b], given, width)
    ensures IsPlan(shape, given, exact) && |tables| == |shape.sets|
    ensures forall s | 0 <= s < |shape.sets| :: SetGroups(tables[s], Flat(batches), shape.sets[s], norm, agg)
  {
    shape := PlanGroupingSets(given, exact);
    forall b | 0 <= b < |batches|
      ensures Fits(batches[b], shape.sets, width)
    {
      PlanFits(batches[b], shape, given, exact, width);
    }
    PlanSources(shape, given, exact);
    hide IsPlan;
    hide GroupsBy;
    hide SetGroups;
    hide Merges;
    hide Commutes;
    hide Fits;
    var roots := ConsumeAll(batches, shape, norm, agg, width);
    ghost var rows := Flat(batches);
    tables := [];
    for s := 0 to |shape.sets|
      invariant |tables| == s
      invariant forall r | 0 <= r < s :: SetGroups(tables[r], rows, shape.sets[r], norm, agg)
    {
      var t := roots[s];
      var r := shape.sources[s];
      if r != s {
        t := FromRoot(roots[r], shape.columns[s], agg, shape.sets[r], shape.sets[s], rows);
      }
      t := EnsureGroup(t, shape.sets[s], norm, agg, rows);
      tables := tables + [t];
    }
  }

  lemma {:induction false} PlanFits<T, V>(
      rows: seq<Row<seq<T>, V>>, shape: Shape, given: seq<KeySet>, exact: bool, width: nat)
    requires IsPlan(shape, given, exact) && Fits(rows, given, width)
    ensures Fits(rows, shape.sets, width)
  {
    forall s, i | 0 <= s < |shape.sets| && 0 <= i < |shape.sets[s]| ensures shape.sets[s][i] < width {
      assert shape.sets[s] in given;
      var e :| 0 <= e < |given| && given[e] == shape.sets[s];
      assert given[e][i] < width;
    }
  }

  /** A source is a root, and a set that is not its own source only comes with exact merging. */
  lemma {:induction false} PlanSources(shape: Shape, given: seq<KeySet>, exact: bool)
    requires IsPlan(shape, given, exact)
    ensures |shape.sources| == |shape.columns| == |shape.sets|
    ensures forall s: nat | s < |shape.sets| ::
      shape.sources[s] < |shape.sets| && shape.sources[shape.sources[s]] == shape.sources[s]
    ensures forall s: nat | s < |shape.sets| ::
      Projects(shape.sets[shape.sources[s]], shape.columns[s], shape.sets[s]) && (shape.sources[s] != s ==> exact)
  {
    forall s: nat | s < |shape.sets|
      ensures shape.sources[s] < |shape.sets| && shape.sources[shape.sources[s]] == shape.sources[s]
      ensures shape.sources[s] != s ==> exact
    {
      assert IsSource(shape.sets, exact, s, shape.sources[s]);
      assert IsSource(shape.sets, exact, shape.sources[s], shape.sources[shape.sources[s]]);
    }
  }

  // ---- aggregates that merge exactly ----

  datatype Kind = CountStar | Count | Sum | Avg | Min | Max

  /** A state of one of them: rows counted, integers added, the least or greatest value so far. */
  datatype State<V> = State(count: nat, sum: int, best: Option<V>)

  /** A total order, as MIN and MAX have of integers, text, dates and times. */
  ghost predicate Orders<V(!new)>(atMost: (V, V) -> bool) {
    && (forall a, b :: atMost(a, b) || atMost(b, a))
    && (forall a, b :: atMost(a, b) && atMost(b, a) ==> a == b)
    && (forall a, b, c :: atMost(a, b) && atMost(b, c) ==> atMost(a, c))
  }

  /** The better of two values: the least for MIN, the greatest for MAX, any rather than none. */
  function Better<V>(least: bool, atMost: (V, V) -> bool, a: Option<V>, b: Option<V>): Option<V> {
    if a.None? then b else if b.None? then a
    else if least == atMost(a.value, b.value) then a else b
  }

  /** An aggregate over nullable values; NULL counts only for COUNT(*), and `number` is what a sum adds. */
  function AggOf<V(!new)>(kind: Kind, number: V -> int, atMost: (V, V) -> bool): Agg<Option<V>, State<V>> {
    Agg(State(0, 0, None),
        (v: Option<V>) =>
          State(if kind == CountStar || v.Some? then 1 else 0,
                if v.Some? && (kind == Sum || kind == Avg) then number(v.value) else 0,
                if kind == Min || kind == Max then v else None),
        (a: State<V>, b: State<V>) => State(a.count + b.count, a.sum
            + b.sum, Better(kind == Min, atMost, a.best, b.best)))
  }

  /** The aggregates MergesExactly accepts merge in any order. */
  lemma {:induction false} ExactAggregates<V(!new)>(kind: Kind, number: V -> int, atMost: (V, V) -> bool)
    requires Orders(atMost)
    ensures Merges(AggOf(kind, number, atMost)) && Commutes(AggOf(kind, number, atMost))
  {
    var agg := AggOf(kind, number, atMost);
    forall a, b, c ensures agg.merge(agg.merge(a, b), c) == agg.merge(a, agg.merge(b, c)) {
      BetterMerges(kind == Min, atMost, a.best, b.best, c.best);
    }
    forall a, b ensures agg.merge(a, b) == agg.merge(b, a) { BetterCommutes(kind == Min, atMost, a.best, b.best); }
    forall a ensures agg.merge(agg.unit, a) == a && agg.merge(a, agg.unit) == a { }
  }

  lemma {:induction false} BetterCommutes<V(!new)>(least: bool, atMost: (V, V) -> bool, a: Option<V>, b: Option<V>)
    requires Orders(atMost)
    ensures Better(least, atMost, a, b) == Better(least, atMost, b, a)
  {
    if a.Some? && b.Some? { assert atMost(a.value, b.value) || atMost(b.value, a.value); }
  }

  lemma {:induction false} BetterMerges<V(!new)>(
      least: bool, atMost: (V, V) -> bool, a: Option<V>, b: Option<V>, c: Option<V>)
    requires Orders(atMost)
    ensures Better(least, atMost, Better(least, atMost, a, b), c)
      == Better(least, atMost, a, Better(least, atMost, b, c))
  {
    if a.Some? && b.Some? && c.Some? {
      var x, y, z := a.value, b.value, c.value;
      assert (atMost(x, y) || atMost(y, x)) && (atMost(y, z) || atMost(z, y)) && (atMost(x, z) || atMost(z, x));
    }
  }

  // ---- what they compute ----

  /** The values that are not NULL, in row order. */
  function Values<K, V>(rows: seq<Row<K, Option<V>>>): seq<V> {
    if rows == [] then []
    else if rows[0].value.Some? then [rows[0].value.value] + Values(rows[1..])
    else Values(rows[1..])
  }

  function Total<V>(values: seq<V>, number: V -> int): int {
    if values == [] then 0 else number(values[0]) + Total(values[1..], number)
  }

  /** `best` is one of the values, and none is before it: none at all where there is no value. */
  ghost predicate IsBest<V(!new)>(best: Option<V>, values: seq<V>, before: (V, V) -> bool) {
    match best
    case None => values == []
    case Some(b) => b in values && forall i | 0 <= i < |values| :: before(b, values[i])
  }

  /**
   COUNT(*) counts the rows and the others the values that are not NULL; SUM and AVG add their numbers; MIN has one
   of them that is at most every one, MAX one that every one is at most, and NULL where there is none.
   */
  lemma {:induction false} AggregateMeans<K, V(!new)>(
      kind: Kind, number: V -> int, atMost: (V, V) -> bool, rows: seq<Row<K, Option<V>>>)
    requires Orders(atMost)
    ensures var s, values := Fold(AggOf(kind, number, atMost), rows), Values(rows);
      && s.count == (if kind == CountStar then |rows| else |values|)
      && (kind == Sum || kind == Avg ==> s.sum == Total(values, number))
      && (kind == Min ==> IsBest(s.best, values, atMost))
      && (kind == Max ==> IsBest(s.best, values, (a, b) => atMost(b, a)))
  {
    if rows != [] {
      AggregateMeans(kind, number, atMost, rows[1..]);
      var agg := AggOf(kind, number, atMost);
      var one, rest := agg.one(rows[0].value), Fold(agg, rows[1..]);
      assert Fold(agg, rows) == agg.merge(one, rest);
      if rows[0].value.Some? && (kind == Min || kind == Max) {
        BestOfMore(kind == Min, atMost, rows[0].value.value, rest.best, Values(rows[1..]));
      }
    }
  }

  /** The order MIN goes by, or MAX. */
  ghost function By<V(!new)>(least: bool, atMost: (V, V) -> bool): (V, V) -> bool {
    if least then atMost else (a, b) => atMost(b, a)
  }

  lemma {:induction false} BestOfMore<V(!new)>(
      least: bool, atMost: (V, V) -> bool, v: V, best: Option<V>, values: seq<V>)
    requires Orders(atMost) && IsBest(best, values, By(least, atMost))
    ensures IsBest(Better(least, atMost, Some(v), best), [v] + values, By(least, atMost))
  {
    assert atMost(v, v) || atMost(v, v);
    var all := [v] + values;
    if best.Some? {
      var b := best.value;
      assert atMost(v, b) || atMost(b, v);
      forall i | 0 <= i < |all| ensures By(least, atMost)(Better(least, atMost, Some(v), best).value, all[i]) {
        if i > 0 { assert all[i] == values[i - 1]; }
      }
    }
  }
}
