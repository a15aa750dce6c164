/**
 DECIMAL expressions evaluated node by node (src/exec/compute.cc, Evaluate of an ArithExpr,
 RescaleOperand and DecimalArith), on one row: the meaning that a step program must keep.
 */
module DecimalTree {
  import opened Options
  import opened DecimalTypes

  /** An expression; Other is any node kind this arithmetic does not look into. */
  datatype Expr =
    | Column(index: nat, type_: Type)
    | Constant(value: int, type_: Type)
    | Arith(op: Op, left: Expr, right: Expr, type_: Type)
    | Other(id: nat, type_: Type)

  /** What an expression gives on a row. */
  datatype Outcome = Failure | Null | Val(v: int)

  /** A column of the batch; only a decimal array is read in place. */
  datatype Values = Values(at: seq<Option<int>>, inPlace: bool)

  /** An earlier expression of the same node, with its values. */
  datatype Computed = Computed(expr: Expr, values: seq<Option<int>>)

  datatype Env = Env(rows: nat, columns: seq<Values>, computed: seq<Computed>, others: seq<seq<Outcome>>)

  /**
   A computed +, -, * or % holds values of its type and a constant itself; any other expression may hold more than its
   width admits.
   */
  ghost predicate EnvOk(env: Env) {
    && (forall i | 0 <= i < |env.columns| :: |env.columns[i].at| == env.rows)
    && (forall i | 0 <= i < |env.others| :: |env.others[i]| == env.rows)
    && (forall i | 0 <= i < |env.computed| :: ComputedOk(env.computed[i], env.rows))
  }

  ghost predicate ComputedOk(c: Computed, rows: nat) {
    && |c.values| == rows
    && (c.expr.Arith? ==> forall r | 0 <= r < rows && c.values[r].Some? :: RangeOf(c.expr.type_).Has(c.values[r].value))
    && (c.expr.Constant? ==> forall r | 0 <= r < rows :: c.values[r] == Some(c.expr.value))
  }

  /** Every node has the type the binder gives it. */
  ghost predicate WellTyped(e: Expr, env: Env) {
    && ValidType(e.type_)
    && match e
       case Column(i, t) => i < |env.columns|
       case Constant(v, t) => RangeOf(t).Has(v)
       case Other(i, t) => i < |env.others|
       case Arith(op, l, r, t) => WellTyped(l, env) && WellTyped(r, env) && ArithType(op, l.type_, r.type_) == Some(t)
  }

  /** The earlier expression that `e` is, from the `i`th on. */
  function ReusedFrom(e: Expr, computed: seq<Computed>, i: nat): Option<seq<Option<int>>>
    requires i <= |computed|
    decreases |computed| - i
  {
    if i == |computed| then None else if computed[i].expr == e then Some(computed[i].values)
        else ReusedFrom(e, computed, i + 1)
  }

  /** The values of an earlier expression that is `e`; DECIMAL only. */
  function Reused(e: Expr, env: Env): Option<seq<Option<int>>> {
    if e.type_.Decimal? then ReusedFrom(e, env.computed, 0) else None
  }

  lemma {:induction false} ReusedOk(e: Expr, env: Env, i: nat)
    requires EnvOk(env) && i <= |env.computed|
    ensures var r := ReusedFrom(e, env.computed, i); r.Some? ==> ComputedOk(Computed(e, r.value), env.rows)
    decreases |env.computed| - i
  {
    if i < |env.computed| {
      assert ComputedOk(env.computed[i], env.rows);
      ReusedOk(e, env, i + 1);
    }
  }

  function FromOption(v: Option<int>): Outcome {
    match v
    case None => Null
    case Some(x) => Val(x)
  }

  /** The factor that takes a value of `from` to the scale of `to`. */
  function Factor(from: Type, to: Type): nat
    requires to.Decimal?
  {
    if ScaleOf(from) < to.scale then Pow10(to.scale - ScaleOf(from)) else 1
  }

  /** The operand of a +, - or % at the result's scale: it must fit the result when it is rescaled. */
  function Rescale(x: Outcome, from: Type, to: Type): Outcome
    requires to.Decimal?
  {
    if !x.Val? || ScaleOf(from) == to.scale then x
    else
      var scaled := x.v * Factor(from, to);
      if Fits128(scaled) && RangeOf(to).Has(scaled) then Val(scaled) else Failure
  }

  /** Whether an operand needs no test: a constant, a rescaled value or an integer array. */
  predicate Checked(e: Expr, alone: bool, to: Type)
    requires to.Decimal?
  {
    (e.Constant? && alone) || ScaleOf(e.type_) != to.scale || !(e.type_.Decimal? || e.type_.HugeInt?)
  }

  /** The remainder with the dividend's sign. */
  function Remainder(x: int, y: int): int
    requires y != 0
  {
    var a, b := if x < 0 then -x else x, if y < 0 then -y else y;
    if x < 0 then -(a % b) else a % b
  }

  /** The operation on two rescaled values; overflow and a value out of range fail. */
  function Apply(op: Op, x: int, y: int, range: Range): Outcome {
    if op == Modulo then (if y == 0 then Null else InRange(Remainder(x, y), range))
    else InRange(Exactly(op, x, y), range)
  }

  /** A +, - or * without bounds. */
  function Exactly(op: Op, x: int, y: int): int {
    if op == Add then x + y else if op == Subtract then x - y else x * y
  }

  function InRange(v: int, range: Range): Outcome {
    if Fits128(v) && range.Has(v) then Val(v) else Failure
  }

  /** DecimalArith on one row. */
  function Combine(op: Op, x: Outcome, xChecked: bool, y: Outcome, yChecked: bool, type_: Type): Outcome {
    if x.Failure? || y.Failure? then Failure
    else if x.Null? || y.Null? then Null
    else if op != Multiply && !xChecked && !RangeOf(type_).Has(x.v) then Failure
    else if op != Multiply && !yChecked && !RangeOf(type_).Has(y.v) then Failure
    else Apply(op, x.v, y.v, RangeOf(type_))
  }

  /** An operation on what its operands give: rescaled and tested, but for a *, and combined. */
  function Node(op: Op, l: Expr, x: Outcome, r: Expr, y: Outcome, t: Type): Outcome
    requires t.Decimal?
  {
    if op == Multiply then Combine(op, x, true, y, true, t)
    else
      var alone := !(l.Constant? && r.Constant?);
      Combine(op, Rescale(x, l.type_, t), Checked(l, alone, t), Rescale(y, r.type_, t), Checked(r, alone, t), t)
  }

  /** One row of an expression, node by node. */
  function Eval(e: Expr, env: Env, row: nat): Outcome {
    var done := Reused(e, env);
    if done.Some? then (if row < |done.value| then FromOption(done.value[row]) else Failure)
    else
      match e
      case Column(i, _) => if i < |env.columns|
          && row < |env.columns[i].at| then FromOption(env.columns[i].at[row]) else Failure
      case Constant(v, _) => Val(v)
      case Other(i, _) => if i < |env.others| && row < |env.others[i]| then env.others[i][row] else Failure
      case Arith(op, l, r, t) =>
        if !t.Decimal? then Failure else Node(op, l, Eval(l, env, row), r, Eval(r, env, row), t)
  }

  lemma {:induction false} NodeInRange(op: Op, l: Expr, x: Outcome, r: Expr, y: Outcome, t: Type)
    requires t.Decimal?
    ensures Node(op, l, x, r, y, t).Val? ==> RangeOf(t).Has(Node(op, l, x, r, y, t).v)
  {
    hide RangeOf;
    hide Rescale;
    hide Checked;
  }

  /** What arithmetic gives is a value of its type, and so is a constant. */
  lemma {:induction false} InItsRange(e: Expr, env: Env, row: nat)
    requires EnvOk(env) && WellTyped(e, env) && (e.Arith? || e.Constant?)
    ensures Eval(e, env, row).Val? ==> RangeOf(e.type_).Has(Eval(e, env, row).v)
  {
    hide RangeOf;
    hide Node;
    hide ReusedFrom;
    ReusedOk(e, env, 0);
    if e.Arith? && e.type_.Decimal? {
      NodeInRange(e.op, e.left, Eval(e.left, env, row), e.right, Eval(e.right, env, row), e.type_);
    }
  }
}
