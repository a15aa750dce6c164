/**
 Expressions over a batch, column by column (src/exec/compute.cc, the evaluator): each argument and
 branch is computed for the rows still open alone, on a batch of just those rows and the columns it
 reads, and put back at them. Every row gets the value the row alone would get, and the batch fails
 just when one of its rows does: an argument is never computed on a row that is decided.
 */
module ColumnExpressions {
  import opened Options
  import opened RowExpressions

  type Values = seq<Option<int>>

  // ---- selected rows ----

  function Count(mask: seq<bool>): (n: nat)
    ensures n <= |mask|
  {
    if mask == [] then 0 else Count(mask[..|mask| - 1]) + if mask[|mask| - 1] then 1 else 0
  }

  /** The place of row `k` among the selected ones. */
  function Rank(mask: seq<bool>, k: nat): nat
    requires k <= |mask|
  {
    Count(mask[..k])
  }

  lemma {:induction false} RankNext(mask: seq<bool>, k: nat)
    requires k < |mask|
    ensures Rank(mask, k + 1) == Rank(mask, k) + if mask[k] then 1 else 0
  {
    assert mask[..k + 1][..k] == mask[..k];
  }

  lemma {:induction false} RanksGrow(mask: seq<bool>, j: nat, k: nat)
    requires j <= k <= |mask|
    ensures Rank(mask, j) <= Rank(mask, k)
    decreases k - j
  {
    if j < k {
      RanksGrow(mask, j, k - 1);
      RankNext(mask, k - 1);
    }
  }

  lemma {:induction false} RankInCount(mask: seq<bool>, k: nat)
    requires k < |mask| && mask[k]
    ensures Rank(mask, k) < Count(mask)
  {
    RankNext(mask, k);
    RanksGrow(mask, k + 1, |mask|);
    assert mask[..|mask|] == mask;
  }

  /** Every place is a selected row's. */
  lemma {:induction false} RankOnto(mask: seq<bool>, j: nat) returns (k: nat)
    requires j < Count(mask)
    ensures k < |mask| && mask[k] && Rank(mask, k) == j
    decreases |mask|
  {
    var n := |mask| - 1;
    if mask[n] && j == Count(mask[..n]) {
      k := n;
    } else {
      k := RankOnto(mask[..n], j);
      assert mask[..n][..k] == mask[..k];
    }
  }

  lemma {:induction false} AllSelected(mask: seq<bool>, k: nat)
    requires Count(mask) == |mask| && k <= |mask|
    ensures Rank(mask, k) == k && forall i | 0 <= i < k :: mask[i]
  {
    if k == |mask| { assert mask[..k] == mask; }
    if k > 0 {
      Missing(mask, k - 1);
      AllSelected(mask, k - 1);
      RankNext(mask, k - 1);
    }
  }

  lemma {:induction false} Missing(mask: seq<bool>, k: nat)
    requires k < |mask| && Count(mask) == |mask|
    ensures mask[k]
    decreases |mask|
  {
    var n := |mask| - 1;
    if k < n { Missing(mask[..n], k); }
  }

  /** `part` holds the selected of `all`, in order. */
  ghost predicate Picks<A>(mask: seq<bool>, all: seq<A>, part: seq<A>) {
    && |mask| == |all| && |part| == Count(mask)
    && forall k {:trigger mask[k]} | 0 <= k < |mask| && mask[k] ::
        Rank(mask, k) < |part| && part[Rank(mask, k)] == all[k]
  }

  /** The selected rows (the filter kernel). */
  method Filter<A>(mask: seq<bool>, all: seq<A>) returns (part: seq<A>)
    requires |mask| == |all|
    ensures Picks(mask, all, part)
  {
    part := [];
    for i := 0 to |all|
      invariant |part| == Rank(mask, i)
      invariant forall k {:trigger mask[k]} | 0 <= k < i && mask[k] ::
        Rank(mask, k) < |part| && part[Rank(mask, k)] == all[k]
    {
      RankNext(mask, i);
      if mask[i] {
        part := part + [all[i]];
      }
    }
    assert mask[..|mask|] == mask;
  }

  /** `values`, one per selected row, put at those rows of `into`. */
  method Scatter(into: Values, mask: seq<bool>, values: Values) returns (out: Values)
    requires |into| == |mask| && |values| == Count(mask)
    ensures |out| == |into|
    ensures forall k | 0 <= k < |mask| && !mask[k] :: out[k] == into[k]
    ensures Picks(mask, out, values)
  {
    if values == [] {
      forall k | 0 <= k < |mask| ensures !mask[k] {
        if mask[k] { RankInCount(mask, k); }
      }
      return into;
    }
    out := [];
    var next := 0;
    for i := 0 to |into|
      invariant |out| == i && next == Rank(mask, i)
      invariant forall k | 0 <= k < i && !mask[k] :: out[k] == into[k]
      invariant forall k {:trigger mask[k]} | 0 <= k < i && mask[k] ::
        Rank(mask, k) < |values| && out[k] == values[Rank(mask, k)]
    {
      RankNext(mask, i);
      if mask[i] {
        RankInCount(mask, i);
        out := out + [values[next]];
        next := next + 1;
      } else {
        out := out + [into[i]];
      }
    }
  }

  // ---- what a column is ----

  /** An expression's value in a row, as a type where one is asked for. */
  function Value(env: Env, e: Expr, target: Option<nat>, row: Row): Cell {
    if target.None? then Meaning(env, e, row) else Converted(env, e, target.value, Meaning(env, e, row))
  }

  /** A column of the rows' values, or none where a row fails. */
  ghost predicate Gives(env: Env, e: Expr, target: Option<nat>, rows: seq<Row>, r: Option<Values>) {
    && (r.None? ==> exists k | 0 <= k < |rows| :: Value(env, e, target, rows[k]).Fails?)
    && (r.Some? ==>
        |r.value| == |rows| && forall k | 0 <= k < |rows| :: Value(env, e, target, rows[k]) == CellOf(r.value[k]))
  }

  /** The same for the selected rows. */
  ghost predicate GivesSelected(
      env: Env, e: Expr, target: Option<nat>, mask: seq<bool>, rows: seq<Row>, r: Option<Values>)
    requires |mask| == |rows|
  {
    && (r.None? ==> exists k | 0 <= k < |rows| :: mask[k] && Value(env, e, target, rows[k]).Fails?)
    && (r.Some? ==> |r.value| == Count(mask) && forall k | 0 <= k < |rows| && mask[k] ::
          Rank(mask, k) < |r.value| && Value(env, e, target, rows[k]) == CellOf(r.value[Rank(mask, k)]))
  }

  /** The rows' values converted (Convert). */
  method Convert(
      env: Env, e: Expr, target: Option<nat>, rows: seq<Row>, r: Option<Values>)
    returns (out: Option<Values>)
    requires Gives(env, e, None, rows, r)
    ensures Gives(env, e, target, rows, out)
  {
    if r.None? || target.None? {
      return r;
    }
    var values: Values := [];
    for k := 0 to |rows|
      invariant |values| == k
      invariant forall j | 0 <= j < k :: Value(env, e, target, rows[j]) == CellOf(values[j])
    {
      assert Value(env, e, None, rows[k]) == CellOf(r.value[k]);
      var c := if r.value[k].Some? then env.convert(e, target.value, r.value[k].value) else Null;
      if c.Fails? {
        return None;
      }
      values := values + [if c.Val? then Some(c.v) else None];
    }
    out := Some(values);
  }

  lemma {:induction false} SelectedGives(
      env: Env, e: Expr, target: Option<nat>, mask: seq<bool>, rows: seq<Row>, part: seq<Row>, r: Option<Values>)
    requires Picks(mask, rows, part) && Gives(env, e, target, part, r)
    ensures GivesSelected(env, e, target, mask, rows, r)
  {
    if r.None? {
      var j :| 0 <= j < |part| && Value(env, e, target, part[j]).Fails?;
      var k := RankOnto(mask, j);
      assert mask[k];
    } else {
      forall k | 0 <= k < |rows| && mask[k]
        ensures Rank(mask, k) < |r.value| && Value(env, e, target, rows[k]) == CellOf(r.value[Rank(mask, k)])
      {
        assert part[Rank(mask, k)] == rows[k];
      }
    }
  }

  lemma {:induction false} PrunedGives(
      env: Env, e: Expr, target: Option<nat>, rows: seq<Row>, pruned: seq<Row>, r: Option<Values>)
    requires |pruned| == |rows| && forall k | 0 <= k < |rows| :: pruned[k] == Pruned(rows[k], Reads(e))
    requires Gives(env, e, target, pruned, r)
    ensures Gives(env, e, target, rows, r)
  {
    hide Meaning;
    hide Pruned;
    forall k | 0 <= k < |rows| ensures Value(env, e, target, pruned[k]) == Value(env, e, target, rows[k]) {
      PrunedMeaning(env, e, rows[k], Reads(e));
    }
  }

  /** Puts selected values back. */
  method Replace(
      env: Env, e: Expr, target: Option<nat>, mask: seq<bool>, rows: seq<Row>, into: Values, values: Values)
    returns (out: Values)
    requires |mask| == |rows| == |into| && GivesSelected(env, e, target, mask, rows, Some(values))
    ensures |out| == |rows|
    ensures forall k | 0 <= k < |rows| && mask[k] :: Value(env, e, target, rows[k]) == CellOf(out[k])
    ensures forall k | 0 <= k < |rows| && !mask[k] :: out[k] == into[k]
  {
    hide Value;
    out := Scatter(into, mask, values);
  }

  // ---- evaluation ----

  /** The values in the rows `mask` selects: only those rows are computed, and only the columns read are there. */
  method EvaluateSelected(
      env: Env, e: Expr, target: Option<nat>, mask: seq<bool>, rows: seq<Row>)
    returns (r: Option<Values>)
    requires |mask| == |rows|
    ensures GivesSelected(env, e, target, mask, rows, r)
    decreases e, 3
  {
    hide Value;
    hide Pruned;
    var selected := Count(mask);
    if selected == |rows| {
      var values := Evaluate(env, e, rows);
      r := Convert(env, e, target, rows, values);
      AllGive(env, e, target, mask, rows, r);
      return;
    }
    var part := Filter(mask, rows);
    if selected == 0 {
      r := Some([]);
      SelectedGives(env, e, target, mask, rows, part, r);
      return;
    }
    var kept := seq(|part|, k requires 0 <= k < |part| => Pruned(part[k], Reads(e)));
    var values := Evaluate(env, e, kept);
    r := Convert(env, e, target, kept, values);
    PrunedGives(env, e, target, part, kept, r);
    SelectedGives(env, e, target, mask, rows, part, r);
  }

  lemma {:induction false} AllGive(
      env: Env, e: Expr, target: Option<nat>, mask: seq<bool>, rows: seq<Row>, r: Option<Values>)
    requires Count(mask) == |mask| == |rows| && Gives(env, e, target, rows, r)
    ensures GivesSelected(env, e, target, mask, rows, r)
  {
    hide Value;
    AllSelected(mask, |mask|);
    forall k | 0 <= k < |rows| ensures Rank(mask, k) == k { AllSelected(mask, k); }
  }

  method Evaluate(env: Env, e: Expr, rows: seq<Row>) returns (r: Option<Values>)
    ensures Gives(env, e, None, rows, r)
    decreases e, 2
  {
    match e
    case Column(i) => r := EvaluateColumn(env, e, rows);
    case Func(_, _) => r := EvaluateFunc(env, e, rows);
    case Not(arg) => r := EvaluateNot(env, e, rows);
    case Bool(_, _, _) => r := EvaluateBool(env, e, rows);
    case Case(_, _, _) => r := EvaluateCase(env, e, rows);
  }

  method EvaluateColumn(env: Env, e: Expr, rows: seq<Row>) returns (r: Option<Values>)
    requires e.Column?
    ensures Gives(env, e, None, rows, r)
  {
    var values: Values := [];
    for k := 0 to |rows|
      invariant |values| == k
      invariant forall j | 0 <= j < k :: Value(env, e, None, rows[j]) == CellOf(values[j])
    {
      if e.index >= |rows[k]| {
        assert Value(env, e, None, rows[k]).Fails?;
        return None;
      }
      values := values + [rows[k][e.index]];
    }
    r := Some(values);
  }

  method EvaluateNot(env: Env, e: Expr, rows: seq<Row>) returns (r: Option<Values>)
    requires e.Not?
    ensures Gives(env, e, None, rows, r)
    decreases e, 1
  {
    var values := Evaluate(env, e.arg, rows);
    if values.None? {
      var k :| 0 <= k < |rows| && Value(env, e.arg, None, rows[k]).Fails?;
      assert Value(env, e, None, rows[k]).Fails?;
      return None;
    }
    r := Some(seq(|rows|, k requires 0 <= k < |rows| =>
      match values.value[k] case Some(v) => Some(if v == 0 then 1 else 0) case None => None));
    forall k | 0 <= k < |rows| ensures Value(env, e, None, rows[k]) == CellOf(r.value[k]) {
      assert Value(env, e.arg, None, rows[k]) == CellOf(values.value[k]);
    }
  }

  // ---- functions ----

  lemma {:induction false} ArgsAre(env: Env, e: Expr, i: nat, row: Row, values: Values)
    requires e.Func? && i <= |e.args| == |values|
    requires forall j | 0 <= j < |values| :: Meaning(env, e.args[j], row) == CellOf(values[j])
    ensures ArgValues(env, e, i, row) == Some(values[i..])
    decreases |values| - i
  {
    if i < |values| {
      ArgsAre(env, e, i + 1, row, values);
      assert values[i..] == [values[i]] + values[i + 1..];
    }
  }

  lemma {:induction false} ArgFails(env: Env, e: Expr, i: nat, j: nat, row: Row)
    requires e.Func? && i <= j < |e.args| && Meaning(env, e.args[j], row).Fails?
    ensures ArgValues(env, e, i, row).None?
    decreases j - i
  {
    if i < j { ArgFails(env, e, i + 1, j, row); }
  }

  /** One argument after the other, then row by row. */
  method EvaluateFunc(env: Env, e: Expr, rows: seq<Row>) returns (r: Option<Values>)
    requires e.Func?
    ensures Gives(env, e, None, rows, r)
    decreases e, 1
  {
    var columns: seq<Values> := [];
    for i := 0 to |e.args|
      invariant |columns| == i
      invariant forall j | 0 <= j < i :: Gives(env, e.args[j], None, rows, Some(columns[j]))
    {
      var column := Evaluate(env, e.args[i], rows);
      if column.None? {
        var k :| 0 <= k < |rows| && Value(env, e.args[i], None, rows[k]).Fails?;
        ArgFails(env, e, 0, i, rows[k]);
        assert Value(env, e, None, rows[k]).Fails?;
        return None;
      }
      columns := columns + [column.value];
    }
    r := Apply(env, e, rows, columns);
  }

  method Apply(env: Env, e: Expr, rows: seq<Row>, columns: seq<Values>) returns (r: Option<Values>)
    requires e.Func? && |columns| == |e.args|
    requires forall j | 0 <= j < |columns| :: Gives(env, e.args[j], None, rows, Some(columns[j]))
    ensures Gives(env, e, None, rows, r)
  {
    var out: Values := [];
    for k := 0 to |rows|
      invariant |out| == k
      invariant forall j | 0 <= j < k :: Value(env, e, None, rows[j]) == CellOf(out[j])
    {
      forall j | 0 <= j < |columns|
        ensures |columns[j]| == |rows| && Meaning(env, e.args[j], rows[k]) == CellOf(columns[j][k])
      {
        assert Gives(env, e.args[j], None, rows, Some(columns[j]));
        assert Value(env, e.args[j], None, rows[k]) == CellOf(columns[j][k]);
      }
      var values := seq(|columns|, j requires 0 <= j < |columns| && |columns[j]| == |rows| => columns[j][k]);
      ArgsAre(env, e, 0, rows[k], values);
      var c := env.apply(e.name, values);
      assert values[0..] == values && Value(env, e, None, rows[k]) == c;
      if c.Fails? {
        return None;
      }
      out := out + [if c.Val? then Some(c.v) else None];
    }
    r := Some(out);
  }

  // ---- AND and OR ----

  /** Undecided: AND true or NULL so far, OR false or NULL. */
  predicate Open(isAnd: bool, v: Option<int>) { v.None? || (isAnd == (v.value != 0)) }

  /** The three-valued kernels: false absorbs in AND, true in OR, then NULL. */
  function Kleene(isAnd: bool, a: Option<int>, b: Option<int>): Option<int> {
    if !Open(isAnd, a) then a
    else if !Open(isAnd, b) then b
    else if a.None? || b.None? then None
    else b
  }

  /** What the arguments before `i` gave, and the others, are the whole. */
  ghost predicate SoFar(env: Env, e: Expr, i: nat, row: Row, v: Option<int>)
    requires e.Bool? && i <= |e.rest|
  {
    BoolMeaning(env, e, row) == if i == |e.rest| then CellOf(v) else Then(e.isAnd, CellOf(v), BoolFrom(env, e, i, row))
  }

  lemma {:induction false} NextArgument(env: Env, e: Expr, i: nat, row: Row, v: Option<int>, n: Option<int>)
    requires e.Bool? && i < |e.rest| && SoFar(env, e, i, row, v)
    requires if Open(e.isAnd, v) then Meaning(env, e.rest[i], row) == CellOf(n) else n.None?
    ensures SoFar(env, e, i + 1, row, Kleene(e.isAnd, v, n))
  {
    hide Meaning;
    hide BoolMeaning;
    if i + 1 < |e.rest| {
      ThenAssociates(e.isAnd, CellOf(v), Meaning(env, e.rest[i], row), BoolFrom(env, e, i + 1, row));
    }
  }

  /** An argument that fails on an undecided row fails it. */
  lemma {:induction false} ArgumentFails(env: Env, e: Expr, i: nat, row: Row, v: Option<int>)
    requires e.Bool? && i < |e.rest| && SoFar(env, e, i, row, v) && Open(e.isAnd, v)
    requires Meaning(env, e.rest[i], row).Fails?
    ensures BoolMeaning(env, e, row).Fails?
  {
    hide Meaning;
    hide BoolMeaning;
  }

  method EvaluateBool(env: Env, e: Expr, rows: seq<Row>) returns (r: Option<Values>)
    requires e.Bool?
    ensures Gives(env, e, None, rows, r)
    decreases e, 1
  {
    hide BoolMeaning;
    r := Evaluate(env, e.first, rows);
    FirstArgument(env, e, rows, r);
    if r.None? {
      return None;
    }
    var result := r.value;
    for i := 0 to |e.rest|
      invariant |result| == |rows|
      invariant forall k | 0 <= k < |rows| :: SoFar(env, e, i, rows[k], result[k])
    {
      var next := EvaluateArgument(env, e, i, rows, result);
      if next.None? {
        return None;
      }
      result := next.value;
    }
    r := Some(result);
  }

  lemma {:induction false} FirstArgument(env: Env, e: Expr, rows: seq<Row>, r: Option<Values>)
    requires e.Bool? && Gives(env, e.first, None, rows, r)
    ensures r.None? ==> Gives(env, e, None, rows, r)
    ensures r.Some? ==> |r.value| == |rows| && forall k | 0 <= k < |rows| :: SoFar(env, e, 0, rows[k], r.value[k])
  {
    if r.None? {
      var k :| 0 <= k < |rows| && Value(env, e.first, None, rows[k]).Fails?;
      assert BoolMeaning(env, e, rows[k]).Fails?;
      assert Value(env, e, None, rows[k]).Fails?;
    } else {
      forall k | 0 <= k < |rows| ensures SoFar(env, e, 0, rows[k], r.value[k]) {
        assert Value(env, e.first, None, rows[k]) == CellOf(r.value[k]);
      }
    }
  }

  /** One more argument, for the undecided rows (the loop's body). */
  method EvaluateArgument(env: Env, e: Expr, i: nat, rows: seq<Row>, result: Values) returns (r: Option<Values>)
    requires e.Bool? && i < |e.rest| && |result| == |rows|
    requires forall k | 0 <= k < |rows| :: SoFar(env, e, i, rows[k], result[k])
    ensures r.None? ==> Gives(env, e, None, rows, r)
    ensures r.Some? ==> |r.value| == |rows|
    ensures r.Some? ==> forall k | 0 <= k < |rows| :: SoFar(env, e, i + 1, rows[k], r.value[k])
    decreases e, 0
  {
    hide BoolMeaning;
    hide SoFar;
    var open := seq(|rows|, k requires 0 <= k < |result| => Open(e.isAnd, result[k]));
    var compact := EvaluateSelected(env, e.rest[i], None, open, rows);
    if compact.None? {
      var k :| 0 <= k < |rows| && open[k] && Value(env, e.rest[i], None, rows[k]).Fails?;
      ArgumentFails(env, e, i, rows[k], result[k]);
      assert Value(env, e, None, rows[k]).Fails?;
      return None;
    }
    var unknown: Values := seq(|rows|, _ => None);
    var next := Replace(env, e.rest[i], None, open, rows, unknown, compact.value);
    r := Some(seq(|rows|, k requires 0 <= k < |rows| => Kleene(e.isAnd, result[k], next[k])));
    forall k | 0 <= k < |rows| ensures SoFar(env, e, i + 1, rows[k], r.value[k]) {
      if open[k] { assert Value(env, e.rest[i], None, rows[k]) == CellOf(next[k]); }
      NextArgument(env, e, i, rows[k], result[k], next[k]);
    }
  }

  // ---- CASE and COALESCE ----

  /** A row still open before branch `i` has no value yet; an answered one has its own. */
  ghost predicate CaseSoFar(env: Env, e: Expr, i: nat, row: Row, remains: bool, v: Option<int>)
    requires e.Case? && i <= |e.branches|
  {
    if remains then v.None?
        && CaseFrom(env, e, 0, row) == CaseFrom(env, e, i, row) else CaseFrom(env, e, 0, row) == CellOf(v)
  }

  ghost predicate AllSoFar(env: Env, e: Expr, i: nat, rows: seq<Row>, remaining: seq<bool>, result: Values)
    requires e.Case? && i <= |e.branches|
  {
    && |remaining| == |rows| == |result|
    && forall k | 0 <= k < |rows| :: CaseSoFar(env, e, i, rows[k], remaining[k], result[k])
  }

  method EvaluateCase(env: Env, e: Expr, rows: seq<Row>) returns (r: Option<Values>)
    requires e.Case?
    ensures Gives(env, e, None, rows, r)
    decreases e, 1
  {
    var result: Values := seq(|rows|, _ => None);
    var remaining := seq(|rows|, _ => true);
    for i := 0 to |e.branches|
      invariant AllSoFar(env, e, i, rows, remaining, result)
    {
      var ok;
      if e.branches[i].Arg? {
        ok, remaining, result := TakeArgument(env, e, i, rows, remaining, result);
      } else {
        ok, remaining, result := TakeWhen(env, e, i, rows, remaining, result);
      }
      if !ok {
        return None;
      }
    }
    r := TakeOtherwise(env, e, rows, remaining, result);
  }

  /** COALESCE's argument, computed once for the open rows; it answers the ones where it is not NULL. */
  method TakeArgument(
      env: Env, e: Expr, i: nat, rows: seq<Row>, remaining: seq<bool>, result: Values)
    returns (ok: bool, rest: seq<bool>, out: Values)
    requires e.Case? && i < |e.branches| && e.branches[i].Arg? && AllSoFar(env, e, i, rows, remaining, result)
    ensures ok ==> AllSoFar(env, e, i + 1, rows, rest, out)
    ensures !ok ==> Gives(env, e, None, rows, None)
    decreases e, 0
  {
    hide CaseFrom;
    var expr := e.branches[i].expr;
    var values := EvaluateSelected(env, expr, Some(e.target), remaining, rows);
    if values.None? {
      var k :| 0 <= k < |rows| && remaining[k] && Value(env, expr, Some(e.target), rows[k]).Fails?;
      ArgumentAnswers(env, e, i, rows[k]);
      assert CaseSoFar(env, e, i, rows[k], remaining[k], result[k]);
      assert Value(env, e, None, rows[k]).Fails?;
      return false, remaining, result;
    }
    out := Replace(env, expr, Some(e.target), remaining, rows, result, values.value);
    var valid := seq(|rows|, k requires 0 <= k < |rows| => out[k].Some?);
    var taken := seq(|rows|, k requires 0 <= k < |rows| => valid[k] && remaining[k]);
    rest := seq(|rows|, k requires 0 <= k < |rows| => remaining[k] && !taken[k]);
    ok := true;
    forall k | 0 <= k < |rows| ensures CaseSoFar(env, e, i + 1, rows[k], rest[k], out[k]) {
      ArgumentAnswers(env, e, i, rows[k]);
      assert CaseSoFar(env, e, i, rows[k], remaining[k], result[k]);
    }
  }

  lemma {:induction false} ArgumentAnswers(env: Env, e: Expr, i: nat, row: Row)
    requires e.Case? && i < |e.branches| && e.branches[i].Arg?
    ensures var c := Value(env, e.branches[i].expr, Some(e.target), row);
      CaseFrom(env, e, i, row) == if c.Null? then CaseFrom(env, e, i + 1, row) else c
  {
  }

  lemma {:induction false} WhenAnswers(env: Env, e: Expr, i: nat, row: Row)
    requires e.Case? && i < |e.branches| && e.branches[i].When?
    ensures var c := Value(env, e.branches[i].cond, None, row);
      var value := e.branches[i].value;
      CaseFrom(env, e, i, row) ==
        if c.Fails? then Fails
        else if !True(c) then CaseFrom(env, e, i + 1, row)
        else if value.None? then Null
        else Value(env, value.value, Some(e.target), row)
  {
  }

  /** The rows a WHEN takes: an open row where the condition is true, NULL counting as false. */
  method TakenBy(env: Env, cond: Expr, rows: seq<Row>, remaining: seq<bool>) returns (taken: Option<seq<bool>>)
    requires |remaining| == |rows|
    ensures taken.None? ==> exists k | 0 <= k < |rows| :: remaining[k] && Value(env, cond, None, rows[k]).Fails?
    ensures taken.Some? ==> |taken.value| == |rows|
    ensures taken.Some? ==> forall k | 0 <= k < |rows| ::
      && (taken.value[k] <==> remaining[k] && True(Value(env, cond, None, rows[k])))
      && (remaining[k] ==> !Value(env, cond, None, rows[k]).Fails?)
    decreases cond, 4
  {
    hide Value;
    var compact := EvaluateSelected(env, cond, None, remaining, rows);
    if compact.None? {
      return None;
    }
    var none: Values := seq(|rows|, _ => None);
    var condition := Replace(env, cond, None, remaining, rows, none, compact.value);
    taken := Some(seq(|rows|, k requires 0 <= k < |rows| => condition[k].Some? && condition[k].value != 0
        && remaining[k]));
  }

  method TakeWhen(
      env: Env, e: Expr, i: nat, rows: seq<Row>, remaining: seq<bool>, result: Values)
    returns (ok: bool, rest: seq<bool>, out: Values)
    requires e.Case? && i < |e.branches| && e.branches[i].When? && AllSoFar(env, e, i, rows, remaining, result)
    ensures ok ==> AllSoFar(env, e, i + 1, rows, rest, out)
    ensures !ok ==> Gives(env, e, None, rows, None)
    decreases e, 0
  {
    hide CaseFrom;
    hide Value;
    var cond, value := e.branches[i].cond, e.branches[i].value;
    var taken := TakenBy(env, cond, rows, remaining);
    if taken.None? {
      var k :| 0 <= k < |rows| && remaining[k] && Value(env, cond, None, rows[k]).Fails?;
      WhenAnswers(env, e, i, rows[k]);
      OpenFails(env, e, i, rows, remaining, result, k);
      return false, remaining, result;
    }
    out := result;
    if value.Some? {
      var values := EvaluateSelected(env, value.value, Some(e.target), taken.value, rows);
      if values.None? {
        var k :| 0 <= k < |rows| && taken.value[k] && Value(env, value.value, Some(e.target), rows[k]).Fails?;
        WhenAnswers(env, e, i, rows[k]);
        OpenFails(env, e, i, rows, remaining, result, k);
        return false, remaining, result;
      }
      out := Replace(env, value.value, Some(e.target), taken.value, rows, result, values.value);
    }
    rest := seq(|rows|, k requires 0 <= k < |rows| => remaining[k] && !taken.value[k]);
    ok := true;
    forall k | 0 <= k < |rows| ensures CaseSoFar(env, e, i + 1, rows[k], rest[k], out[k]) {
      WhenAnswers(env, e, i, rows[k]);
      assert CaseSoFar(env, e, i, rows[k], remaining[k], result[k]);
    }
  }

  /** A branch that fails on an open row fails it. */
  lemma {:induction false} OpenFails(
      env: Env, e: Expr, i: nat, rows: seq<Row>, remaining: seq<bool>, result: Values, k: nat)
    requires e.Case? && i <= |e.branches| && AllSoFar(env, e, i, rows, remaining, result)
    requires k < |rows| && remaining[k] && CaseFrom(env, e, i, rows[k]).Fails?
    ensures Gives(env, e, None, rows, None)
  {
    hide CaseFrom;
    assert CaseSoFar(env, e, i, rows[k], remaining[k], result[k]);
    assert Value(env, e, None, rows[k]).Fails?;
  }

  method TakeOtherwise(
      env: Env, e: Expr, rows: seq<Row>, remaining: seq<bool>, result: Values)
    returns (r: Option<Values>)
    requires e.Case? && AllSoFar(env, e, |e.branches|, rows, remaining, result)
    ensures Gives(env, e, None, rows, r)
    decreases e, 0
  {
    hide CaseFrom;
    var out := result;
    if e.otherwise.Some? {
      var values := EvaluateSelected(env, e.otherwise.value, Some(e.target), remaining, rows);
      if values.None? {
        var k :| 0 <= k < |rows| && remaining[k] && Value(env, e.otherwise.value, Some(e.target), rows[k]).Fails?;
        OtherwiseAnswers(env, e, rows[k]);
        OpenFails(env, e, |e.branches|, rows, remaining, result, k);
        return None;
      }
      out := Replace(env, e.otherwise.value, Some(e.target), remaining, rows, result, values.value);
    }
    r := Some(out);
    forall k | 0 <= k < |rows| ensures Value(env, e, None, rows[k]) == CellOf(out[k]) {
      OtherwiseAnswers(env, e, rows[k]);
      assert CaseSoFar(env, e, |e.branches|, rows[k], remaining[k], result[k]);
    }
  }

  lemma {:induction false} OtherwiseAnswers(env: Env, e: Expr, row: Row)
    requires e.Case?
    ensures CaseFrom(env, e, |e.branches|, row) == if e.otherwise.None? then Null
      else Value(env, e.otherwise.value, Some(e.target), row)
  {
  }
}
