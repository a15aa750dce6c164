/**
 When DECIMAL arithmetic fails, told by unbounded arithmetic on a row's values alone: a node fails
 just when the exact value of one of its operands, or its own, is out of range (src/exec/compute.cc,
 RescaleOperand and DecimalArith).
 */
module DecimalExact {
  import opened Options
  import opened DecimalTypes
  import opened DecimalTree
  import opened DecimalProgram

  /** The trees a program can cover: +, - and * over decimal columns and constants. */
  ghost predicate Covered(e: Expr, env: Env) {
    || Reused(e, env).Some?
    || match e
       case Column(i, t) => t.Decimal?
       case Constant(_, _) => true
       case Other(_, _) => false
       case Arith(op, l, r, t) => t.Decimal? && op != Modulo && Covered(l, env) && Covered(r, env)
  }

  lemma {:induction false} CompiledIsCovered(e: Expr, env: Env, p: Program)
    requires Compile(e, env, p).1.Some?
    ensures Covered(e, env)
  {
    if e.Arith? && Reused(e, env).None? {
      CompiledIsCovered(e.left, env, p);
      CompiledIsCovered(e.right, env, Compile(e.left, env, p).0);
    }
  }

  // ---- exact values ----

  /** Every column the tree reads has a value on the row. */
  ghost predicate Present(e: Expr, env: Env, row: nat) {
    match Reused(e, env)
    case Some(values) => row < |values| && values[row].Some?
    case None =>
      match e
      case Column(i, _) =>
        i < |env.columns| && row < |env.columns[i].at| && env.columns[i].at[row].Some?
      case Constant(_, _) => true
      case Other(_, _) => false
      case Arith(_, l, r, _) => Present(l, env, row) && Present(r, env, row)
  }

  /** The value of a tree in unbounded arithmetic, unscaled. */
  ghost function Exact(e: Expr, env: Env, row: nat): int
    requires Present(e, env, row)
  {
    match Reused(e, env)
    case Some(values) => values[row].value
    case None =>
      match e
      case Column(i, _) => env.columns[i].at[row].value
      case Constant(v, _) => v
      case Arith(op, l, r, t) =>
        var x, y := Exact(l, env, row), Exact(r, env, row);
        if !t.Decimal? then 0 else Exactly(op, AtScale(op, l, x, t), AtScale(op, r, y, t))
  }

  /** An operand at the scale its operation works in: a * takes it as it is. */
  ghost function AtScale(op: Op, e: Expr, x: int, t: Type): int
    requires t.Decimal?
  {
    if op == Multiply then x else x * Factor(e.type_, t)
  }

  /** An operand that is rescaled before the other is looked at, and does not fit. */
  ghost predicate Unfit(op: Op, e: Expr, t: Type, env: Env, row: nat)
    requires t.Decimal?
  {
    && op != Multiply && ScaleOf(e.type_) != t.scale && Present(e, env, row)
    && !RangeOf(t).Has(AtScale(op, e, Exact(e, env, row), t))
  }

  /** A step from two values leaves the range, by an operand or by its result. */
  ghost predicate LeavesRange(op: Op, a: int, b: int, range: Range) {
    (op != Multiply && !(range.Has(a) && range.Has(b))) || !range.Has(Exactly(op, a, b))
  }

  /** Somewhere in the tree an exact value that is there leaves the range it must keep to. */
  ghost predicate Spills(e: Expr, env: Env, row: nat) {
    && e.Arith? && Reused(e, env).None? && e.type_.Decimal?
    && (|| Spills(e.left, env, row) || Spills(e.right, env, row)
        || Unfit(e.op, e.left, e.type_, env, row) || Unfit(e.op, e.right, e.type_, env, row)
        || (Present(e, env, row) &&
            var x, y := Exact(e.left, env, row), Exact(e.right, env, row);
            LeavesRange(e.op, AtScale(e.op, e.left, x, e.type_), AtScale(e.op, e.right, y, e.type_), RangeOf(e.type_))))
  }

  // ---- nodes ----

  lemma {:induction false} RangeFits(t: Type, v: int)
    requires t.Decimal? && ValidType(t) && RangeOf(t).Has(v)
    ensures Fits128(v)
  {
    PowLimits();
    PowGrows(t.width, MAX_WIDTH);
  }

  /** A node rescales an operand and tests it where its type does not already promise that it fits. */
  lemma {:induction false} TestedIs(e: Expr, env: Env, x: int, alone: bool, op: Op, t: Type)
    requires Covered(e, env) && t.Decimal? && ValidType(t) && op != Multiply && ScaleOf(e.type_) <= t.scale
    requires e.Constant? ==> RangeOf(e.type_).Has(x)
    requires ScaleOf(e.type_) == t.scale && RangeOf(e.type_).Has(x) ==> RangeOf(t).Has(x)
    ensures var a := AtScale(op, e, x, t); Tested(x, e, alone, t) == if RangeOf(t).Has(a) then Some(a) else None
  {
    hide RangeOf;
    hide Pow10;
    var a := AtScale(op, e, x, t);
    if RangeOf(t).Has(a) { RangeFits(t, a); }
  }

  /** A node of two values. */
  lemma {:induction false} NodeOfValues(e: Expr, env: Env, x: int, y: int)
    requires e.Arith? && e.op != Modulo && e.type_.Decimal? && WellTyped(e, env) && Covered(e.left, env)
    requires Covered(e.right, env)
    requires e.left.Constant? ==> RangeOf(e.left.type_).Has(x)
    requires e.right.Constant? ==> RangeOf(e.right.type_).Has(y)
    ensures var a, b := AtScale(e.op, e.left, x, e.type_), AtScale(e.op, e.right, y, e.type_);
      Node(e.op, e.left, Val(x), e.right, Val(y), e.type_)
        == if LeavesRange(e.op, a, b, RangeOf(e.type_)) then Failure else Val(Exactly(e.op, a, b))
  {
    hide RangeOf;
    hide Pow10;
    hide Tested;
    var t, alone := e.type_, !(e.left.Constant? && e.right.Constant?);
    ArithValid(e.op, e.left.type_, e.right.type_);
    var a, b := AtScale(e.op, e.left, x, t), AtScale(e.op, e.right, y, t);
    if RangeOf(t).Has(Exactly(e.op, a, b)) { RangeFits(t, Exactly(e.op, a, b)); }
    if e.op != Multiply {
      Nests(e.op, e.left.type_, e.right.type_, x);
      Nests(e.op, e.left.type_, e.right.type_, y);
      TestedIs(e.left, env, x, alone, e.op, t);
      TestedIs(e.right, env, y, alone, e.op, t);
      TestedCombines(e.op, x, e.left, y, e.right, alone, t);
    }
  }

  /** A node of a value and a NULL: the value is rescaled all the same. */
  lemma {:induction false} NodeWithNull(e: Expr, env: Env, x: int)
    requires e.Arith? && e.op != Modulo && e.type_.Decimal? && WellTyped(e, env)
    ensures (Node(e.op, e.left, Val(x), e.right, Null, e.type_) ==
      if e.op != Multiply && ScaleOf(e.left.type_) != e.type_.scale
          && !RangeOf(e.type_).Has(AtScale(e.op, e.left, x, e.type_))
      then Failure else Null)
    ensures (Node(e.op, e.left, Null, e.right, Val(x), e.type_) ==
      if e.op != Multiply && ScaleOf(e.right.type_) != e.type_.scale
          && !RangeOf(e.type_).Has(AtScale(e.op, e.right, x, e.type_))
      then Failure else Null)
  {
    hide RangeOf;
    hide Pow10;
    hide Checked;
    var t := e.type_;
    ArithValid(e.op, e.left.type_, e.right.type_);
    var a, b := AtScale(e.op, e.left, x, t), AtScale(e.op, e.right, x, t);
    if RangeOf(t).Has(a) { RangeFits(t, a); }
    if RangeOf(t).Has(b) { RangeFits(t, b); }
  }

  // ---- trees ----

  /** What a tree gives, by its exact values: a failure where one spills, else its value where all are there. */
  ghost predicate IsExact(o: Outcome, e: Expr, env: Env, row: nat) {
    if Spills(e, env, row) then o == Failure
    else if Present(e, env, row) then o == Val(Exact(e, env, row))
    else o == Null
  }

  lemma {:induction false} LeafIsExact(e: Expr, env: Env, row: nat)
    requires EnvOk(env) && WellTyped(e, env) && row < env.rows && Covered(e, env)
    requires !e.Arith? || Reused(e, env).Some?
    ensures IsExact(Eval(e, env, row), e, env, row)
    ensures e.Constant? && Present(e, env, row) ==> RangeOf(e.type_).Has(Exact(e, env, row))
  {
    hide RangeOf;
    ReusedOk(e, env, 0);
  }

  /** Node by node, a tree gives what exact arithmetic says. */
  lemma {:induction false} EvalIsExact(e: Expr, env: Env, row: nat)
    requires EnvOk(env) && WellTyped(e, env) && row < env.rows && Covered(e, env)
    ensures IsExact(Eval(e, env, row), e, env, row)
    ensures e.Constant? && Present(e, env, row) ==> RangeOf(e.type_).Has(Exact(e, env, row))
  {
    hide RangeOf;
    hide Node;
    hide EnvOk;
    hide ReusedFrom;
    if !e.Arith? || Reused(e, env).Some? {
      LeafIsExact(e, env, row);
    } else {
      EvalIsExact(e.left, env, row);
      EvalIsExact(e.right, env, row);
      NodeIsExact(e, env, row);
    }
  }

  lemma {:induction false} NodeIsExact(e: Expr, env: Env, row: nat)
    requires WellTyped(e, env) && e.Arith? && Reused(e, env).None? && Covered(e, env)
    requires IsExact(Eval(e.left, env, row), e.left, env, row) && IsExact(Eval(e.right, env, row), e.right, env, row)
    requires e.left.Constant? && Present(e.left, env, row) ==> RangeOf(e.left.type_).Has(Exact(e.left, env, row))
    requires e.right.Constant? && Present(e.right, env, row) ==> RangeOf(e.right.type_).Has(Exact(e.right, env, row))
    ensures IsExact(Eval(e, env, row), e, env, row)
  {
    hide RangeOf;
    hide AtScale;
    hide Exactly;
    hide Reused;
    hide Node;
    hide Eval;
    hide Exact;
    hide Present;
    hide Spills;
    Unfolded(e, env, row);
    var l, r := Eval(e.left, env, row), Eval(e.right, env, row);
    if l.Failure? || r.Failure? {
      FailsUp(e, env, row);
    } else if l.Val? && r.Val? {
      NodeOfValues(e, env, l.v, r.v);
    } else if l.Val? {
      NodeWithNull(e, env, l.v);
    } else if r.Val? {
      NodeWithNull(e, env, r.v);
    } else {
      NodeOfNulls(e);
    }
  }

  lemma {:induction false} NodeOfNulls(e: Expr)
    requires e.Arith? && e.type_.Decimal?
    ensures Node(e.op, e.left, Null, e.right, Null, e.type_) == Null
  {
  }

  /** What a node that is not reused evaluates to, has and means. */
  lemma {:induction false} Unfolded(e: Expr, env: Env, row: nat)
    requires e.Arith? && Reused(e, env).None? && e.type_.Decimal?
    ensures Eval(e, env, row) == Node(e.op, e.left, Eval(e.left, env, row), e.right, Eval(e.right, env, row), e.type_)
    ensures Present(e, env, row) <==> Present(e.left, env, row) && Present(e.right, env, row)
    ensures Present(e, env, row) ==>
      var x, y := Exact(e.left, env, row), Exact(e.right, env, row);
      Exact(e, env, row) == Exactly(e.op, AtScale(e.op, e.left, x, e.type_), AtScale(e.op, e.right, y, e.type_))
    ensures Spills(e, env, row) <==>
      (|| Spills(e.left, env, row) || Spills(e.right, env, row)
       || Unfit(e.op, e.left, e.type_, env, row) || Unfit(e.op, e.right, e.type_, env, row)
       || (Present(e, env, row) && LeavesRange(e.op, AtScale(e.op, e.left, Exact(e.left, env, row), e.type_),
                                               AtScale(e.op, e.right, Exact(e.right, env, row), e.type_),
                                                   RangeOf(e.type_))))
  {
    hide RangeOf;
    hide AtScale;
    hide LeavesRange;
    hide Unfit;
    hide Node;
    hide Reused;
  }

  // ---- the columns of a program ----

  ghost predicate ThereFrom(p: Program, first: nat, row: nat) {
    forall i | first <= i < |p.columns| :: row < |p.columns[i].values| && p.columns[i].values[row].Some?
  }

  /** The columns a tree adds to a program are there just when those the tree reads are. */
  lemma {:induction false} ColumnsThere(e: Expr, env: Env, p: Program, row: nat)
    requires EnvOk(env) && WellTyped(e, env) && row < env.rows && Compile(e, env, p).1.Some?
    ensures ThereFrom(Compile(e, env, p).0, |p.columns|, row) <==> Present(e, env, row)
  {
    hide RangeOf;
    hide MakeStep;
    ReusedOk(e, env, 0);
    if e.Arith? && Reused(e, env).None? {
      var p1 := Compile(e.left, env, p).0;
      ColumnsThere(e.left, env, p, row);
      ColumnsThere(e.right, env, p1, row);
      ThereSplits(p1, Compile(e, env, p).0, |p.columns|, row);
    } else {
      var q := Compile(e, env, p).0;
      if |q.columns| > |p.columns| { assert q.columns[|p.columns|] in q.columns; }
    }
  }

  lemma {:induction false} ThereSplits(p: Program, q: Program, first: nat, row: nat)
    requires first <= |p.columns| && p.columns <= q.columns
    ensures ThereFrom(q, first, row) <==> ThereFrom(p, first, row) && ThereFrom(q, |p.columns|, row)
  {
    if ThereFrom(q, first, row) {
      forall i | first <= i < |p.columns| ensures row < |p.columns[i].values| && p.columns[i].values[row].Some? {
        assert q.columns[i] == p.columns[i];
      }
    }
    if ThereFrom(p, first, row) && ThereFrom(q, |p.columns|, row) {
      forall i | first <= i < |q.columns| ensures row < |q.columns[i].values| && q.columns[i].values[row].Some? {
        if i < |p.columns| { assert q.columns[i] == p.columns[i]; }
      }
    }
  }
}
