/**
 A tree of DECIMAL +, - and * compiled to a program of steps and run a row at a time, in 64 bits where
 a step's type allows (src/exec/compute.cc, DecimalProgram, Compile and NarrowStep).
 */
module DecimalProgram {
  import opened Options
  import opened DecimalTypes
  import opened DecimalTree

  const MAX_STEPS: nat := 16

  /** Where a step reads an operand. */
  datatype Source = FromColumn(at: nat) | FromConstant(at: nat) | FromStep(at: nat)

  datatype Step = Step(op: Op, left: Source, right: Source, leftFactor: nat, rightFactor: nat, range: Range,
                       checkLeft: bool, checkRight: bool, narrow: bool)

  /** A column occurrence; `checked`: its values are known to fit its type. */
  datatype Operand = Operand(values: seq<Option<int>>, checked: bool)

  datatype Program = Program(columns: seq<Operand>, constants: seq<int>, steps: seq<Step>)

  // ---- compiling ----

  /** The step of an operation on two sources. */
  function MakeStep(p: Program, op: Op, l: Source, lt: Type, r: Source, rt: Type, t: Type): Step
    requires t.Decimal?
  {
    var lf, rf := if op == Multiply then 1 else Factor(lt, t), if op == Multiply then 1 else Factor(rt, t);
    var range := RangeOf(t);
    Step(op, l, r, lf, rf, range, Unchecked(p, op, l, lf), Unchecked(p, op, r, rf),
         t.width <= SMALL_WIDTH && Fits64(range.min) && Fits64(range.max) && Fits64(lf) && Fits64(rf))
  }

  /** A column no rescale has confirmed is tested as it is read. */
  predicate Unchecked(p: Program, op: Op, s: Source, factor: nat) {
    op != Multiply && s.FromColumn? && factor == 1 && s.at < |p.columns| && !p.columns[s.at].checked
  }

  /** Adds `e` to the program; None when it is not a tree the program covers. */
  function Compile(e: Expr, env: Env, p: Program): (r: (Program, Option<Source>))
    ensures p.columns <= r.0.columns && p.constants <= r.0.constants && p.steps <= r.0.steps
    ensures |p.steps| <= MAX_STEPS ==> |r.0.steps| <= MAX_STEPS
  {
    var done := Reused(e, env);
    if done.Some? then
      (p.(columns := p.columns + [Operand(done.value, e.Arith?)]), Some(FromColumn(|p.columns|)))
    else
      match e
      case Constant(v, _) => (p.(constants := p.constants + [v]), Some(FromConstant(|p.constants|)))
      case Column(i, t) =>
        if !t.Decimal? || i >= |env.columns| || !env.columns[i].inPlace then (p, None)
        else (p.(columns := p.columns + [Operand(env.columns[i].at, false)]), Some(FromColumn(|p.columns|)))
      case Other(_, _) => (p, None)
      case Arith(op, l, r, t) =>
        if !t.Decimal? || |p.steps| + 1 > MAX_STEPS || op == Modulo then (p, None)
        else
          var (p1, ls) := Compile(l, env, p);
          if ls.None? then (p1, None)
          else
            var (p2, rs) := Compile(r, env, p1);
            if rs.None? || |p2.steps| + 1 > MAX_STEPS then (p2, None)
            else
              (p2.(steps := p2.steps + [MakeStep(p2, op, ls.value, l.type_, rs.value, r.type_, t)]),
                  Some(FromStep(|p2.steps|)))
  }

  // ---- running ----

  /** The value a source gives on a row, after the steps whose results are `slots`. */
  function Read(p: Program, row: nat, slots: seq<int>, s: Source): Option<int> {
    match s
    case FromColumn(i) => if i < |p.columns| && row < |p.columns[i].values| then p.columns[i].values[row] else None
    case FromConstant(i) => if i < |p.constants| then Some(p.constants[i]) else None
    case FromStep(i) => if i < |slots| then Some(slots[i]) else None
  }

  /** An operand at the step's scale: None where it does not fit. */
  function Prepared(x: int, factor: nat, check: bool, range: Range): Option<int> {
    var scaled := x * factor;
    if factor != 1 then (if Fits128(scaled) && range.Has(scaled) then Some(scaled) else None)
    else if check && !range.Has(x) then None else Some(x)
  }

  /** A step in 128 bits. */
  function WideStep(s: Step, x: int, y: int): Outcome {
    var a, b := Prepared(x, s.leftFactor, s.checkLeft, s.range), Prepared(y, s.rightFactor, s.checkRight, s.range);
    if a.None? || b.None? then Failure else Apply(s.op, a.value, b.value, s.range)
  }

  /** An operand in 64 bits: None on overflow and outside the range. */
  function Prepared64(x: int, factor: nat, check: bool, range: Range): Option<int> {
    var scaled := x * factor;
    if factor != 1 && !Fits64(scaled) then None
    else if (factor != 1 || check) && !range.Has(scaled) then None
    else Some(scaled)
  }

  /** The same step in 64 bits, or None where it stands aside. */
  function NarrowStep(s: Step, x: int, y: int): Option<int> {
    var a, b := Prepared64(x, s.leftFactor, s.checkLeft, s.range), Prepared64(y, s.rightFactor, s.checkRight, s.range);
    if a.None? || b.None? || s.op == Modulo then None
    else
      var v := Exactly(s.op, a.value, b.value);
      if Fits64(v) && s.range.Has(v) then Some(v) else None
  }

  /** The int64 step agrees with the 128-bit one whenever it gives an answer. */
  lemma {:induction false} NarrowAgrees(s: Step, x: int, y: int)
    requires NarrowStep(s, x, y).Some?
    ensures WideStep(s, x, y) == Val(NarrowStep(s, x, y).value)
  {
  }

  /** A step on a row: the 64-bit form where it is one and gives an answer. */
  function RunStep(s: Step, x: int, y: int): Outcome {
    if s.narrow && Fits64(x) && Fits64(y) && NarrowStep(s, x, y).Some? then Val(NarrowStep(s, x, y).value)
    else WideStep(s, x, y)
  }

  /** The next step's outcome on a row. */
  function NextStep(p: Program, row: nat, slots: seq<int>): Outcome
    requires |slots| < |p.steps|
  {
    var s := p.steps[|slots|];
    var x, y := Read(p, row, slots, s.left), Read(p, row, slots, s.right);
    if x.None? || y.None? then Failure else RunStep(s, x.value, y.value)
  }

  /** The results of the steps before `end`, from those in `slots`; None when one fails. */
  function RunSteps(p: Program, row: nat, slots: seq<int>, end: nat): (r: Option<seq<int>>)
    requires |slots| <= end <= |p.steps|
    ensures r.Some? ==> |r.value| == end && slots <= r.value
    decreases end - |slots|
  {
    if |slots| == end then Some(slots)
    else
      match NextStep(p, row, slots)
      case Val(v) => RunSteps(p, row, slots + [v], end)
      case _ => None
  }

  lemma {:induction false} RunFurther(p: Program, row: nat, slots: seq<int>, mid: nat, end: nat)
    requires |slots| <= mid <= end <= |p.steps|
    ensures RunSteps(p, row, slots, end) ==
      var first := RunSteps(p, row, slots, mid); if first.None? then None else RunSteps(p, row, first.value, end)
    decreases mid - |slots|
  {
    if |slots| < mid {
      match NextStep(p, row, slots)
      case Val(v) => RunFurther(p, row, slots + [v], mid, end);
      case _ =>
    }
  }

  // ---- the program means the tree ----

  /** Every column the program reads has a value on the row. */
  ghost predicate AllThere(p: Program, row: nat) {
    forall i | 0 <= i < |p.columns| :: row < |p.columns[i].values| && p.columns[i].values[row].Some?
  }

  ghost predicate Extends(q: Program, p: Program) {
    p.columns <= q.columns && p.constants <= q.constants && p.steps <= q.steps
  }

  /** What is known of a source `e` compiled to. */
  ghost predicate Stands(e: Expr, env: Env, p: Program, s: Source) {
    match s
    case FromColumn(i) => i < |p.columns| && e.type_.Decimal? && p.columns[i].checked == e.Arith?
    case FromConstant(i) => i < |p.constants| && e.Constant?
    case FromStep(i) => i < |p.steps| && e.Arith?
  }

  lemma {:induction false} CompileStands(e: Expr, env: Env, p: Program)
    requires Compile(e, env, p).1.Some?
    ensures Stands(e, env, Compile(e, env, p).0, Compile(e, env, p).1.value)
  {
  }

  /** What a reference to an operand gives, rescaled and tested node by node. */
  function Tested(x: int, e: Expr, alone: bool, t: Type): Option<int>
    requires t.Decimal?
  {
    var a := Rescale(Val(x), e.type_, t);
    if !a.Val? || (!Checked(e, alone, t) && !RangeOf(t).Has(a.v)) then None else Some(a.v)
  }

  lemma {:induction false} TestedCombines(op: Op, x: int, l: Expr, y: int, r: Expr, alone: bool, t: Type)
    requires t.Decimal? && op != Multiply
    ensures Combine(op, Rescale(Val(x), l.type_, t), Checked(l, alone, t), Rescale(Val(y), r.type_, t),
      Checked(r, alone, t), t)
         == var a, b := Tested(x, l, alone, t), Tested(y, r, alone, t);
            if a.None? || b.None? then Failure else Apply(op, a.value, b.value, RangeOf(t))
  {
  }

  /** A step prepares an operand as the node does: what it leaves untested is known to fit. */
  lemma {:induction false} OperandMeans(e: Expr, env: Env, p: Program, s: Source, op: Op, x: int, alone: bool, t: Type)
    requires Stands(e, env, p, s) && op != Multiply && t.Decimal? && ScaleOf(e.type_) <= t.scale
    requires e.Arith? || e.Constant? ==> RangeOf(e.type_).Has(x)
    requires ScaleOf(e.type_) == t.scale && RangeOf(e.type_).Has(x) ==> RangeOf(t).Has(x)
    ensures Prepared(x, Factor(e.type_, t), Unchecked(p, op, s, Factor(e.type_, t)), RangeOf(t))
      == Tested(x, e, alone, t)
  {
    if ScaleOf(e.type_) < t.scale {
      FactorTen(t.scale - ScaleOf(e.type_));
    }
  }

  lemma {:induction false} FactorTen(n: nat)
    requires n > 0
    ensures Pow10(n) != 1
  {
  }

  /** A step means its node. */
  lemma {:induction false} StepMeans(e: Expr, env: Env, p: Program, ls: Source, rs: Source, x: int, y: int)
    requires e.Arith? && e.op != Modulo && WellTyped(e, env) && e.type_.Decimal?
    requires Stands(e.left, env, p, ls) && Stands(e.right, env, p, rs)
    requires e.left.Arith? || e.left.Constant? ==> RangeOf(e.left.type_).Has(x)
    requires e.right.Arith? || e.right.Constant? ==> RangeOf(e.right.type_).Has(y)
    ensures RunStep(MakeStep(p, e.op, ls, e.left.type_, rs, e.right.type_, e.type_), x, y)
      == Node(e.op, e.left, Val(x), e.right, Val(y), e.type_)
  {
    hide RangeOf;
    hide Pow10;
    hide NarrowStep;
    hide Apply;
    var both, t := e.left.Constant? && e.right.Constant?, e.type_;
    var step := MakeStep(p, e.op, ls, e.left.type_, rs, e.right.type_, t);
    if NarrowStep(step, x, y).Some? { NarrowAgrees(step, x, y); }
    assert RunStep(step, x, y) == WideStep(step, x, y);
    if e.op != Multiply {
      Nests(e.op, e.left.type_, e.right.type_, x);
      Nests(e.op, e.left.type_, e.right.type_, y);
      OperandMeans(e.left, env, p, ls, e.op, x, !both, t);
      OperandMeans(e.right, env, p, rs, e.op, y, !both, t);
      TestedCombines(e.op, x, e.left, y, e.right, !both, t);
    }
  }

  // ---- the whole tree ----

  /** The program's steps up to those of `e` give what `e` gives, or fail when it does. */
  ghost predicate Agrees(o: Outcome, run: Option<seq<int>>, p: Program, row: nat, s: Source) {
    match o
    case Failure => run.None?
    case Val(v) => run.Some? && Read(p, row, run.value, s) == Some(v)
    case Null => false
  }

  lemma {:induction false} ReadKept(
      p: Program, q: Program, row: nat, slots: seq<int>, more: seq<int>, e: Expr, env: Env, s: Source)
    requires Extends(q, p) && slots <= more && |slots| == |p.steps| && Stands(e, env, p, s)
    ensures Read(q, row, more, s) == Read(q, row, slots, s)
  {
  }

  /** A leaf gives what its source reads. */
  lemma {:induction false} LeafMeans(e: Expr, env: Env, p: Program, q: Program, row: nat, slots: seq<int>)
    requires EnvOk(env) && WellTyped(e, env) && row < env.rows
    requires (!e.Arith? || Reused(e, env).Some?) && Compile(e, env, p).1.Some?
    requires Extends(q, Compile(e, env, p).0) && AllThere(q, row) && |slots| == |p.steps|
    ensures Compile(e, env, p).0.steps == p.steps
    ensures Agrees(Eval(e, env, row), Some(slots), q, row, Compile(e, env, p).1.value)
  {
    ReusedOk(e, env, 0);
    var (p', s) := Compile(e, env, p);
    if s.value.FromColumn? {
      var i := s.value.at;
      assert q.columns[i] == p'.columns[i];
      assert q.columns[i].values[row].Some?;
    } else {
      assert q.constants[s.value.at] == p'.constants[s.value.at];
    }
  }

  /** A compiled tree gives, on a row whose columns all have a value, what it gives node by node. */
  lemma {:induction false} CompileMeans(e: Expr, env: Env, p: Program, q: Program, row: nat, slots: seq<int>)
    requires EnvOk(env) && WellTyped(e, env) && row < env.rows && Compile(e, env, p).1.Some?
    requires Extends(q, Compile(e, env, p).0) && AllThere(q, row) && |slots| == |p.steps|
    ensures Agrees(Eval(e, env, row), RunSteps(q, row, slots, |Compile(e, env, p).0.steps|), q, row,
      Compile(e, env, p).1.value)
    decreases e
  {
    hide Eval;
    hide Compile;
    hide RunSteps;
    hide AllThere;
    hide EnvOk;
    hide Read;
    if !e.Arith? || Reused(e, env).Some? {
      LeafMeans(e, env, p, q, row, slots);
      RunNone(q, row, slots);
    } else {
      CompileArith(e, env, p, q);
      var p1 := Compile(e.left, env, p).0;
      var p2 := Compile(e.right, env, p1).0;
      CompileMeans(e.left, env, p, q, row, slots);
      var first := RunSteps(q, row, slots, |p1.steps|);
      RunFurther(q, row, slots, |p1.steps|, |p2.steps| + 1);
      FailsUp(e, env, row);
      if first.Some? {
        CompileMeans(e.right, env, p1, q, row, first.value);
        RunFurther(q, row, first.value, |p2.steps|, |p2.steps| + 1);
        var second := RunSteps(q, row, first.value, |p2.steps|);
        if second.Some? {
          NodeMeans(e, env, p, q, row, first.value, second.value);
          RunOne(q, row, second.value);
        }
      }
    }
  }

  lemma {:induction false} RunNone(p: Program, row: nat, slots: seq<int>)
    requires |slots| <= |p.steps|
    ensures RunSteps(p, row, slots, |slots|) == Some(slots)
  {
  }

  lemma {:induction false} RunOne(p: Program, row: nat, slots: seq<int>)
    requires |slots| < |p.steps|
    ensures Agrees(if NextStep(p, row, slots).Val? then NextStep(p, row, slots)
      else Failure, RunSteps(p, row, slots, |slots| + 1), p, row, FromStep(|slots|))
  {
    var next := NextStep(p, row, slots);
    if next.Val? { RunNone(p, row, slots + [next.v]); }
  }

  lemma {:induction false} FailsUp(e: Expr, env: Env, row: nat)
    requires e.Arith? && Reused(e, env).None?
    ensures Eval(e.left, env, row).Failure? || Eval(e.right, env, row).Failure? ==> Eval(e, env, row).Failure?
  {
  }

  lemma {:induction false} CompileArith(e: Expr, env: Env, p: Program, q: Program)
    requires WellTyped(e, env) && e.Arith? && Reused(e, env).None? && Compile(e, env, p).1.Some?
    requires Extends(q, Compile(e, env, p).0)
    ensures WellTyped(e.left, env) && WellTyped(e.right, env)
    ensures var p1 := Compile(e.left, env, p).0; var p2 := Compile(e.right, env, p1).0;
      && Compile(e.left, env, p).1.Some? && Compile(e.right, env, p1).1.Some? && |p1.steps| <= |p2.steps| < |q.steps|
      && Extends(q, p1) && Extends(q, p2)
      && |Compile(e, env, p).0.steps| == |p2.steps| + 1 && Compile(e, env, p).1 == Some(FromStep(|p2.steps|))
  {
  }

  /** The step of a node, after the steps of its operands. */
  lemma {:induction false} NodeMeans(
      e: Expr, env: Env, p: Program, q: Program, row: nat, first: seq<int>, second: seq<int>)
    requires EnvOk(env) && WellTyped(e, env) && row < env.rows && e.Arith? && Reused(e, env).None?
    requires Compile(e, env, p).1.Some?
    requires Extends(q, Compile(e, env, p).0)
    requires var (p1, ls) := Compile(e.left, env, p); var (p2, rs) := Compile(e.right, env, p1);
      && |first| == |p1.steps| && |second| == |p2.steps| && first <= second
      && Eval(e.left, env, row).Val? && Read(q, row, first, ls.value) == Some(Eval(e.left, env, row).v)
      && Eval(e.right, env, row).Val? && Read(q, row, second, rs.value) == Some(Eval(e.right, env, row).v)
    ensures NextStep(q, row, second) == Eval(e, env, row) && !Eval(e, env, row).Null?
  {
    hide RunStep;
    hide Node;
    hide EnvOk;
    var (p1, ls) := Compile(e.left, env, p);
    var (p2, rs) := Compile(e.right, env, p1);
    CompileStands(e.left, env, p);
    CompileStands(e.right, env, p1);
    ReadKept(p1, q, row, first, second, e.left, env, ls.value);
    var x, y := Eval(e.left, env, row).v, Eval(e.right, env, row).v;
    if e.left.Arith? || e.left.Constant? { InItsRange(e.left, env, row); }
    if e.right.Arith? || e.right.Constant? { InItsRange(e.right, env, row); }
    assert q.steps[|second|] == MakeStep(p2, e.op, ls.value, e.left.type_, rs.value, e.right.type_, e.type_);
    StepMeans(e, env, p2, ls.value, rs.value, x, y);
    NotNull(e, env, row);
  }

  lemma {:induction false} NotNull(e: Expr, env: Env, row: nat)
    requires e.Arith? && e.op != Modulo && Reused(e, env).None? && Eval(e.left, env, row).Val?
    requires Eval(e.right, env, row).Val?
    ensures !Eval(e, env, row).Null?
  {
  }
}
