/**
 Running a DECIMAL program over a batch (src/exec/compute.cc, RunProgramInto and ProgramValidity), and
 how its answers and failures relate to evaluating the tree node by node.
 */
module DecimalRun {
  import opened Options
  import opened DecimalTypes
  import opened DecimalTree
  import opened DecimalProgram
  import opened DecimalExact

  // ---- one row ----

  /** A source read by step `s` is a column, a constant or an earlier step. */
  predicate SourceOk(p: Program, source: Source, s: nat) {
    match source
    case FromColumn(i) => i < |p.columns|
    case FromConstant(i) => i < |p.constants|
    case FromStep(i) => i < s
  }

  predicate SourcesOk(p: Program) {
    forall s | 0 <= s < |p.steps| :: SourceOk(p, p.steps[s].left, s) && SourceOk(p, p.steps[s].right, s)
  }

  lemma {:induction false} CompileSources(e: Expr, env: Env, p: Program)
    requires SourcesOk(p)
    ensures SourcesOk(Compile(e, env, p).0)
    decreases e, 1
  {
    if e.Arith? && Reused(e, env).None? && Compile(e, env, p).1.Some? {
      var (p1, ls) := Compile(e.left, env, p);
      var (p2, rs) := Compile(e.right, env, p1);
      CompileSources(e.left, env, p);
      CompileSources(e.right, env, p1);
      CompileStands(e.left, env, p);
      CompileStands(e.right, env, p1);
    } else {
      SourcesKept(e, env, p);
    }
  }

  lemma {:induction false} SourcesKept(e: Expr, env: Env, p: Program)
    requires SourcesOk(p) && (!e.Arith? || Reused(e, env).Some? || Compile(e, env, p).1.None?)
    ensures SourcesOk(Compile(e, env, p).0)
    decreases e, 0
  {
    if e.Arith? && Reused(e, env).None? && e.type_.Decimal? && |p.steps| + 1 <= MAX_STEPS && e.op != Modulo {
      var (p1, ls) := Compile(e.left, env, p);
      CompileSources(e.left, env, p);
      if ls.Some? { CompileSources(e.right, env, p1); }
    }
  }

  /** The value a source gives; slots of steps not yet run hold a former row's. */
  method ReadSource(p: Program, row: nat, slots: array<int>, s: nat, source: Source) returns (x: int)
    requires s <= slots.Length && SourceOk(p, source, s) && AllThere(p, row)
    ensures Read(p, row, slots[..s], source) == Some(x)
  {
    match source
    case FromColumn(i) => x := p.columns[i].values[row].value;
    case FromConstant(i) => x := p.constants[i];
    case FromStep(i) => x := slots[i];
  }

  /** Runs the steps on one row, each result into its slot. */
  method RunRow(p: Program, row: nat, slots: array<int>) returns (ok: bool)
    requires SourcesOk(p) && AllThere(p, row) && |p.steps| <= slots.Length
    modifies slots
    ensures ok <==> RunSteps(p, row, [], |p.steps|).Some?
    ensures ok ==> slots[..|p.steps|] == RunSteps(p, row, [], |p.steps|).value
  {
    for s := 0 to |p.steps|
      invariant RunSteps(p, row, [], s) == Some(slots[..s])
    {
      var step := p.steps[s];
      var x := ReadSource(p, row, slots, s, step.left);
      var y := ReadSource(p, row, slots, s, step.right);
      RunFurther(p, row, [], s, s + 1);
      RunFurther(p, row, [], s + 1, |p.steps|);
      RunOne(p, row, slots[..s]);
      var value := RunStep(step, x, y);
      if !value.Val? {
        return false;
      }
      ghost var before := slots[..s];
      slots[s] := value.v;
      assert slots[..s + 1] == before + [value.v];
      RunNone(p, row, slots[..s + 1]);
    }
    ok := true;
  }

  // ---- a batch ----

  /** Which rows have a value in every column the program reads; None: all of them. */
  method ProgramValidity(p: Program, rows: nat) returns (valid: Option<seq<bool>>)
    requires forall i | 0 <= i < |p.columns| :: |p.columns[i].values| == rows
    ensures valid.Some? ==> |valid.value| == rows
    ensures forall row: nat | row < rows :: (valid.None? || valid.value[row]) == AllThere(p, row)
  {
    var bits: seq<bool> := [];
    var nulls := false;
    for row := 0 to rows
      invariant |bits| == row && forall r: nat | r < row :: bits[r] == AllThere(p, r)
      invariant nulls <==> exists r: nat :: r < row && !bits[r]
    {
      var ok := true;
      for i := 0 to |p.columns|
        invariant ok <==> forall j | 0 <= j < i :: p.columns[j].values[row].Some?
      {
        ok := ok && p.columns[i].values[row].Some?;
      }
      assert ok == AllThere(p, row);
      var before := bits;
      bits := bits + [ok];
      if !ok {
        assert !bits[row];
        nulls := true;
      }
    }
    valid := if nulls then Some(bits) else None;
  }

  /** What the program gives on a row: NULL where a column has none, and no step runs. */
  ghost function ProgramRow(p: Program, row: nat): Outcome
    requires p.steps != []
  {
    if !AllThere(p, row) then Null
    else
      var run := RunSteps(p, row, [], |p.steps|);
      if run.None? then Failure else Val(run.value[|p.steps| - 1])
  }

  lemma {:induction false} NullRows(p: Program, rows: nat)
    requires p.steps != []
    ensures forall row: nat | row < rows && !AllThere(p, row) :: ProgramRow(p, row) == Null
  {
  }

  /** The last step's result on a row whose columns all have a value; None when a step fails. */
  method RowValue(p: Program, row: nat, slots: array<int>) returns (value: Option<int>)
    requires p.steps != [] && SourcesOk(p) && AllThere(p, row) && |p.steps| <= slots.Length
    modifies slots
    ensures ProgramRow(p, row) == if value.None? then Failure else Val(value.value)
  {
    var done := RunRow(p, row, slots);
    if !done {
      return None;
    }
    ghost var run := slots[..|p.steps|];
    assert run[|p.steps| - 1] == slots[|p.steps| - 1];
    return Some(slots[|p.steps| - 1]);
  }

  /** The program over the rows of a batch (RunProgramInto). */
  method RunProgram(p: Program, rows: nat, valid: Option<seq<bool>>) returns (ok: bool, out: seq<Option<int>>)
    requires p.steps != [] && |p.steps| <= MAX_STEPS && SourcesOk(p)
    requires valid.Some? ==> |valid.value| == rows
    requires forall row: nat | row < rows :: (valid.None? || valid.value[row]) == AllThere(p, row)
    ensures ok <==> forall row: nat | row < rows :: !ProgramRow(p, row).Failure?
    ensures ok ==> |out| == rows && forall row: nat | row < rows :: FromOption(out[row]) == ProgramRow(p, row)
  {
    hide ProgramRow;
    hide SourcesOk;
    NullRows(p, rows);
    var slots := new int[MAX_STEPS];
    out := [];
    for row := 0 to rows
      invariant |out| == row
      invariant forall r: nat | r < row :: FromOption(out[r]) == ProgramRow(p, r)
    {
      if valid.Some? && !valid.value[row] {
        out := out + [None];
      } else {
        var value := RowValue(p, row, slots);
        if value.None? {
          return false, [];
        }
        out := out + [value];
      }
    }
    ok := true;
  }

  // ---- what it means ----

  const EMPTY := Program([], [], [])

  /** The tree compiles to a program that is run: its root is a step, and it reads a column. */
  ghost predicate Runs(e: Expr, env: Env) {
    var (p, s) := Compile(e, env, EMPTY);
    s.Some? && s.value.FromStep? && p.columns != []
  }

  lemma {:induction false} RootIsLast(e: Expr, env: Env)
    requires Runs(e, env)
    ensures var (p, s) := Compile(e, env, EMPTY);
      p.steps != [] && |p.steps| <= MAX_STEPS && SourcesOk(p) && s == Some(FromStep(|p.steps| - 1)) && Extends(p, p)
  {
    CompileSources(e, env, EMPTY);
  }

  /** A NULL in a column the tree reads leaves it without a value. */
  lemma {:induction false} NullStays(e: Expr, env: Env, p: Program, row: nat, i: nat)
    requires EnvOk(env) && WellTyped(e, env) && row < env.rows && Compile(e, env, p).1.Some?
    requires |p.columns| <= i < |Compile(e, env, p).0.columns|
    requires var values := Compile(e, env, p).0.columns[i].values; row >= |values| || values[row].None?
    ensures !Eval(e, env, row).Val?
  {
    ReusedOk(e, env, 0);
    if e.Arith? && Reused(e, env).None? {
      var p1 := Compile(e.left, env, p).0;
      if i < |p1.columns| {
        NullStays(e.left, env, p, row, i);
      } else {
        NullStays(e.right, env, p1, row, i);
      }
      NullUp(e, env, row);
    }
  }

  lemma {:induction false} NullUp(e: Expr, env: Env, row: nat)
    requires e.Arith? && Reused(e, env).None?
    ensures !Eval(e.left, env, row).Val? || !Eval(e.right, env, row).Val? ==> !Eval(e, env, row).Val?
  {
  }

  /**
   On a row whose columns all have a value the program gives what the nodes give; on any other it gives NULL, where they
   give NULL or fail.
   */
  lemma {:induction false} ProgramMeans(e: Expr, env: Env, row: nat)
    requires EnvOk(env) && WellTyped(e, env) && row < env.rows && Runs(e, env)
    ensures var p := Compile(e, env, EMPTY).0;
      && p.steps != []
      && (if AllThere(p, row) then ProgramRow(p, row) == Eval(e, env, row)
          else ProgramRow(p, row).Null? && !Eval(e, env, row).Val?)
  {
    hide Eval;
    hide Compile;
    hide RunSteps;
    hide SourcesOk;
    RootIsLast(e, env);
    var p := Compile(e, env, EMPTY).0;
    if AllThere(p, row) {
      CompileMeans(e, env, EMPTY, p, row, []);
    } else {
      var i :| 0 <= i < |p.columns| && (row >= |p.columns[i].values| || p.columns[i].values[row].None?);
      NullStays(e, env, EMPTY, row, i);
    }
  }

  /** Node by node the batch fails when a row does. */
  ghost predicate NodesFail(e: Expr, env: Env) {
    exists row: nat :: row < env.rows && Eval(e, env, row).Failure?
  }

  ghost predicate ProgramFails(e: Expr, env: Env)
    requires Runs(e, env) && Compile(e, env, EMPTY).0.steps != []
  {
    exists row: nat :: row < env.rows && ProgramRow(Compile(e, env, EMPTY).0, row).Failure?
  }

  /** A failure of an exact value that is there, on a row where another value is not. */
  ghost predicate Hidden(e: Expr, env: Env, row: nat) {
    !Present(e, env, row) && Spills(e, env, row)
  }

  /** A failure on a row with every value. */
  ghost predicate Shown(e: Expr, env: Env, row: nat) {
    Present(e, env, row) && Spills(e, env, row)
  }

  /** Program and nodes by the row's exact values; they differ on a row just where a failure is hidden. */
  lemma {:induction false} DifferWhere(e: Expr, env: Env, row: nat)
    requires EnvOk(env) && WellTyped(e, env) && row < env.rows && Runs(e, env)
    ensures Compile(e, env, EMPTY).0.steps != []
    ensures var p := Compile(e, env, EMPTY).0;
      && (ProgramRow(p, row) != Eval(e, env, row) <==> Hidden(e, env, row))
      && (ProgramRow(p, row).Failure? <==> Shown(e, env, row))
      && (Eval(e, env, row).Failure? <==> Spills(e, env, row))
  {
    hide Eval;
    hide Compile;
    hide ProgramRow;
    hide Present;
    hide Exact;
    hide Spills;
    var p := Compile(e, env, EMPTY).0;
    ProgramMeans(e, env, row);
    CompiledIsCovered(e, env, EMPTY);
    EvalIsExact(e, env, row);
    ColumnsThere(e, env, EMPTY, row);
    assert AllThere(p, row) <==> ThereFrom(p, 0, row);
  }

  /**
   A batch of them: the program never fails alone, and they fail together just when a row with every value spills or
   none does.
   */
  lemma {:induction false} FailTogether(e: Expr, env: Env)
    requires EnvOk(env) && WellTyped(e, env) && Runs(e, env)
    ensures Compile(e, env, EMPTY).0.steps != []
    ensures ProgramFails(e, env) ==> NodesFail(e, env)
    ensures (ProgramFails(e, env) <==> NodesFail(e, env)) <==>
      ((exists row: nat :: row < env.rows && Shown(e, env, row)) ||
       (forall row: nat | row < env.rows :: !Hidden(e, env, row)))
    ensures !NodesFail(e, env) ==>
      forall row: nat | row < env.rows :: ProgramRow(Compile(e, env, EMPTY).0, row) == Eval(e, env, row)
  {
    hide Eval;
    hide Compile;
    hide ProgramRow;
    hide Present;
    hide Spills;
    RootIsLast(e, env);
    var p := Compile(e, env, EMPTY).0;
    forall row: nat | row < env.rows
      ensures ProgramRow(p, row) != Eval(e, env, row) <==> Hidden(e, env, row)
      ensures ProgramRow(p, row).Failure? <==> Shown(e, env, row)
      ensures Eval(e, env, row).Failure? <==> Spills(e, env, row)
    {
      DifferWhere(e, env, row);
    }
    if row: nat :| row < env.rows && Shown(e, env, row) {
      assert ProgramRow(p, row).Failure? && Eval(e, env, row).Failure?;
    } else {
      assert !ProgramFails(e, env);
      if row: nat :| row < env.rows && Hidden(e, env, row) { assert Eval(e, env, row).Failure?; }
    }
  }

  const BIG: int := 999_999_999_999_999_999
  const WIDE := Decimal(18, 0)
  const SUM := Arith(Add, Column(0, WIDE), Column(1, WIDE), WIDE)
  const PRODUCT := Arith(Multiply, SUM, Column(2, Decimal(1, 0)), WIDE)
  const ONE_ROW := Env(1, [Values([Some(BIG)], true), Values([Some(BIG)], true), Values([None], true)], [], [])

  lemma {:induction false} SampleTyped()
    ensures EnvOk(ONE_ROW) && WellTyped(PRODUCT, ONE_ROW)
  {
    assert WellTyped(Column(0, WIDE), ONE_ROW) && WellTyped(Column(1, WIDE), ONE_ROW)
        && WellTyped(Column(2, Decimal(1, 0)), ONE_ROW);
    assert ArithType(Add, WIDE, WIDE) == Some(WIDE) && ArithType(Multiply, WIDE, Decimal(1, 0)) == Some(WIDE);
    assert WellTyped(SUM, ONE_ROW);
  }

  lemma {:induction false} SampleFails()
    ensures Eval(PRODUCT, ONE_ROW, 0) == Failure
  {
    PowLimits();
    assert Eval(Column(0, WIDE), ONE_ROW, 0) == Val(BIG) == Eval(Column(1, WIDE), ONE_ROW, 0);
    assert Eval(SUM, ONE_ROW, 0) == Failure;
  }

  lemma {:induction false} SampleCompiles()
    ensures var (p, s) := Compile(PRODUCT, ONE_ROW, EMPTY);
      |p.steps| == 2 && s == Some(FromStep(1)) && |p.columns| == 3 && p.columns[2].values == [None]
  {
    hide MakeStep;
    var p0 := EMPTY.(columns := EMPTY.columns + [Operand([Some(BIG)], false)]);
    var p1 := p0.(columns := p0.columns + [Operand([Some(BIG)], false)]);
    assert Compile(Column(0, WIDE), ONE_ROW, EMPTY) == (p0, Some(FromColumn(0)));
    assert Compile(Column(1, WIDE), ONE_ROW, p0) == (p1, Some(FromColumn(1)));
    var p2 := Compile(SUM, ONE_ROW, EMPTY).0;
    assert p2.columns == p1.columns && |p2.steps| == 1 && Compile(SUM, ONE_ROW, EMPTY).1 == Some(FromStep(0));
    assert Compile(Column(2, Decimal(1, 0)), ONE_ROW, p2)
        == (p2.(columns := p2.columns + [Operand([None], false)]), Some(FromColumn(2)));
  }

  /**
   A NULL can hide a failure: (a + b) * c with a + b out of range and c NULL fails node by node and is NULL as a
   program.
   */
  lemma {:induction false} NullHidesFailure()
    ensures EnvOk(ONE_ROW) && WellTyped(PRODUCT, ONE_ROW) && Runs(PRODUCT, ONE_ROW)
    ensures Compile(PRODUCT, ONE_ROW, EMPTY).0.steps != []
    ensures NodesFail(PRODUCT, ONE_ROW) && !ProgramFails(PRODUCT, ONE_ROW)
  {
    hide Compile;
    hide Eval;
    SampleTyped();
    SampleFails();
    SampleCompiles();
    var p := Compile(PRODUCT, ONE_ROW, EMPTY).0;
    assert p.columns[2].values[0].None?;
    assert !AllThere(p, 0);
    assert ProgramRow(p, 0) == Null;
  }

  // ---- the engine ----

  /** What the engine gives on a row: the program where the tree has one, and node by node elsewhere. */
  ghost function Engine(e: Expr, env: Env, row: nat): Outcome {
    if Reused(e, env).Some? || !e.Arith? || !e.type_.Decimal? then Eval(e, env, row)
    else if Runs(e, env) && Compile(e, env, EMPTY).0.steps != [] then ProgramRow(Compile(e, env, EMPTY).0, row)
    else Node(e.op, e.left, Engine(e.left, env, row), e.right, Engine(e.right, env, row), e.type_)
  }

  /** The engine's answer is the nodes' answer, or NULL where they fail. */
  ghost predicate Refines(o: Outcome, meant: Outcome) {
    o == meant || (o.Null? && meant.Failure?)
  }

  lemma {:induction false} NodeRefines(
      op: Op, l: Expr, x: Outcome, x': Outcome, r: Expr, y: Outcome, y': Outcome, t: Type)
    requires t.Decimal? && Refines(x, x') && Refines(y, y')
    ensures Refines(Node(op, l, x, r, y, t), Node(op, l, x', r, y', t))
  {
    hide RangeOf;
    hide Apply;
    hide Checked;
  }

  /** Programs at every level never change an answer, and fail only where the nodes do. */
  lemma {:induction false} EngineRefines(e: Expr, env: Env, row: nat)
    requires EnvOk(env) && WellTyped(e, env) && row < env.rows
    ensures Refines(Engine(e, env, row), Eval(e, env, row))
  {
    hide Node;
    hide Compile;
    hide ProgramRow;
    hide Runs;
    hide EnvOk;
    if Reused(e, env).None? && e.Arith? && e.type_.Decimal? {
      if Runs(e, env) && Compile(e, env, EMPTY).0.steps != [] {
        ProgramMeans(e, env, row);
      } else {
        EngineRefines(e.left, env, row);
        EngineRefines(e.right, env, row);
        NodeRefines(e.op, e.left, Engine(e.left, env, row), Eval(e.left, env, row), e.right, Engine(e.right, env, row),
            Eval(e.right, env, row), e.type_);
      }
    }
  }
}
