/**
 Expressions over one row, as SQL reads them (src/exec/compute.cc, the boolean and CASE evaluation):
 AND and OR in three-valued logic stop at the first argument that decides, CASE and COALESCE at the
 branch that answers.
 */
module RowExpressions {
  import opened Options

  /** A value, NULL or an error. */
  datatype Cell = Fails | Null | Val(v: int)

  type Row = seq<Option<int>>

  /** A branch of CASE (a THEN left out is NULL), or an argument of COALESCE. */
  datatype Branch = When(cond: Expr, value: Option<Expr>) | Arg(expr: Expr)

  datatype Expr =
    | Column(index: nat)
    | Func(name: nat, args: seq<Expr>)
    | Not(arg: Expr)
    | Bool(isAnd: bool, first: Expr, rest: seq<Expr>)
    | Case(target: nat, branches: seq<Branch>, otherwise: Option<Expr>)

  /** What the functions and the casts to a type give; either may fail. */
  datatype Env = Env(apply: (nat, seq<Option<int>>) -> Cell, convert: (Expr, nat, int) -> Cell)

  function CellOf(v: Option<int>): Cell { if v.Some? then Val(v.value) else Null }

  predicate True(c: Cell) { c.Val? && c.v != 0 }

  predicate False(c: Cell) { c.Val? && c.v == 0 }

  /** Whether an argument decides: false in AND, true in OR. */
  predicate Decides(isAnd: bool, c: Cell) { if isAnd then False(c) else True(c) }

  /** An argument and the ones after it, which count only where it does not decide. */
  function Then(isAnd: bool, a: Cell, b: Cell): Cell {
    if a.Fails? || Decides(isAnd, a) then a
    else if a.Val? || b.Fails? || Decides(isAnd, b) then b
    else Null
  }

  lemma {:induction false} ThenAssociates(isAnd: bool, a: Cell, b: Cell, c: Cell)
    ensures Then(isAnd, Then(isAnd, a, b), c) == Then(isAnd, a, Then(isAnd, b, c))
  {
  }

  function Inverted(c: Cell): Cell {
    if c.Val? then Val(if c.v == 0 then 1 else 0) else c
  }

  function Converted(env: Env, e: Expr, target: nat, c: Cell): Cell {
    if c.Val? then env.convert(e, target, c.v) else c
  }

  /** The value of an expression in a row. */
  function Meaning(env: Env, e: Expr, row: Row): Cell
    decreases e
  {
    match e
    case Column(i) => if i < |row| then CellOf(row[i]) else Fails
    case Func(name, args) =>
      var values := ArgValues(env, e, 0, row);
      if values.Some? then env.apply(name, values.value) else Fails
    case Not(arg) => Inverted(Meaning(env, arg, row))
    case Bool(_, _, _) => BoolMeaning(env, e, row)
    case Case(_, _, _) => CaseFrom(env, e, 0, row)
  }

  /** The arguments of a function from `i` on; None where one fails. */
  function ArgValues(env: Env, e: Expr, i: nat, row: Row): (r: Option<seq<Option<int>>>)
    requires e.Func? && i <= |e.args|
    ensures r.Some? ==> |r.value| == |e.args| - i
    decreases e, |e.args| - i
  {
    if i == |e.args| then Some([])
    else
      var c := Meaning(env, e.args[i], row);
      var more := ArgValues(env, e, i + 1, row);
      if c.Fails? || more.None? then None else Some([if c.Val? then Some(c.v) else None] + more.value)
  }

  function BoolMeaning(env: Env, e: Expr, row: Row): Cell
    requires e.Bool?
    decreases e, |e.rest| + 1
  {
    var first := Meaning(env, e.first, row);
    if e.rest == [] then first else Then(e.isAnd, first, BoolFrom(env, e, 0, row))
  }

  function BoolFrom(env: Env, e: Expr, i: nat, row: Row): Cell
    requires e.Bool? && i < |e.rest|
    decreases e, |e.rest| - i
  {
    var c := Meaning(env, e.rest[i], row);
    if i + 1 == |e.rest| then c else Then(e.isAnd, c, BoolFrom(env, e, i + 1, row))
  }

  /** CASE from branch `i` on. */
  function CaseFrom(env: Env, e: Expr, i: nat, row: Row): Cell
    requires e.Case? && i <= |e.branches|
    decreases e, |e.branches| - i
  {
    if i == |e.branches| then
      match e.otherwise
      case None => Null
      case Some(v) => Converted(env, v, e.target, Meaning(env, v, row))
    else
      match e.branches[i]
      case When(cond, value) =>
        var c := Meaning(env, cond, row);
        if c.Fails? then Fails
        else if !True(c) then CaseFrom(env, e, i + 1, row)
        else if value.None? then Null
        else Converted(env, value.value, e.target, Meaning(env, value.value, row))
      case Arg(v) =>
        var c := Converted(env, v, e.target, Meaning(env, v, row));
        if c.Null? then CaseFrom(env, e, i + 1, row) else c
  }

  // ---- what AND and OR come to ----

  function ArgMeaning(env: Env, e: Expr, j: nat, row: Row): Cell
    requires e.Bool? && j <= |e.rest|
  {
    Meaning(env, if j == 0 then e.first else e.rest[j - 1], row)
  }

  /** Argument `j` is reached from `i` on: no argument between decides. */
  ghost predicate Reached(env: Env, e: Expr, i: nat, j: nat, row: Row)
    requires e.Bool? && i <= j <= |e.rest|
  {
    forall m | i <= m < j :: !Decides(e.isAnd, ArgMeaning(env, e, m, row))
  }

  /** AND and OR from argument `i` on. */
  function From(env: Env, e: Expr, i: nat, row: Row): Cell
    requires e.Bool? && i <= |e.rest|
  {
    if i == 0 then BoolMeaning(env, e, row) else BoolFrom(env, e, i - 1, row)
  }

  lemma {:induction false} FromNext(env: Env, e: Expr, i: nat, row: Row)
    requires e.Bool? && i <= |e.rest|
    ensures var c := ArgMeaning(env, e, i, row);
      From(env, e, i, row) == if i == |e.rest| then c else Then(e.isAnd, c, From(env, e, i + 1, row))
  {
  }

  lemma {:induction false} ReachedNext(env: Env, e: Expr, i: nat, j: nat, row: Row)
    requires e.Bool? && i < j <= |e.rest|
    ensures Reached(env, e, i, j, row)
      <==> !Decides(e.isAnd, ArgMeaning(env, e, i, row)) && Reached(env, e, i + 1, j, row)
  {
  }

  /** It fails just when an argument that is reached fails. */
  lemma {:induction false} FailsWhen(env: Env, e: Expr, i: nat, row: Row)
    requires e.Bool? && i <= |e.rest|
    ensures From(env, e, i, row).Fails?
       <==> exists j | i <= j <= |e.rest| :: Reached(env, e, i, j, row) && ArgMeaning(env, e, j, row).Fails?
    decreases |e.rest| - i
  {
    hide ArgMeaning;
    hide From;
    FromNext(env, e, i, row);
    if i < |e.rest| {
      FailsWhen(env, e, i + 1, row);
      forall j | i < j <= |e.rest|
        ensures Reached(env, e, i, j, row)
          <==> !Decides(e.isAnd, ArgMeaning(env, e, i, row)) && Reached(env, e, i + 1, j, row)
      {
        ReachedNext(env, e, i, j, row);
      }
    }
    assert Reached(env, e, i, i, row);
  }

  /** When none fails: decided just when an argument decides, NULL just when none does and one is NULL. */
  lemma {:induction false} ThreeValued(env: Env, e: Expr, i: nat, row: Row)
    requires e.Bool? && i <= |e.rest| && forall j | i <= j <= |e.rest| :: !ArgMeaning(env, e, j, row).Fails?
    ensures !From(env, e, i, row).Fails?
    ensures Decides(e.isAnd, From(env, e, i, row))
      <==> exists j | i <= j <= |e.rest| :: Decides(e.isAnd, ArgMeaning(env, e, j, row))
    ensures From(env, e, i, row).Null?
       <==> (exists j | i <= j <= |e.rest| :: ArgMeaning(env, e, j, row).Null?) && forall j | i <= j <= |e.rest| ::
           !Decides(e.isAnd, ArgMeaning(env, e, j, row))
    decreases |e.rest| - i
  {
    hide ArgMeaning;
    hide From;
    FromNext(env, e, i, row);
    if i < |e.rest| { ThreeValued(env, e, i + 1, row); }
  }

  /** Where no argument fails: AND is false, OR true, when an argument is; AND is true, OR false, when all are. */
  lemma {:induction false} TruthTable(env: Env, e: Expr, row: Row)
    requires e.Bool? && forall j | 0 <= j <= |e.rest| :: !ArgMeaning(env, e, j, row).Fails?
    ensures var c := Meaning(env, e, row);
      && (e.isAnd ==> (c == Val(0) <==> exists j :: 0 <= j <= |e.rest| && ArgMeaning(env, e, j, row) == Val(0)))
      && (!e.isAnd ==>
          (c.Val? && c.v != 0
           <==> exists j :: 0 <= j <= |e.rest| && ArgMeaning(env, e, j, row).Val? && ArgMeaning(env, e, j, row).v != 0))
      && (e.isAnd ==>
          (c.Val? && c.v != 0
           <==> forall j | 0 <= j <= |e.rest| :: ArgMeaning(env, e, j, row).Val? && ArgMeaning(env, e, j, row).v != 0))
      && (!e.isAnd ==> (c == Val(0) <==> forall j | 0 <= j <= |e.rest| :: ArgMeaning(env, e, j, row) == Val(0)))
  {
    hide ArgMeaning;
    ThreeValued(env, e, 0, row);
  }

  // ---- what a function comes to ----

  /** A function is applied to the values of its arguments in order, NULLs among them, and fails where one does. */
  lemma {:induction false} FuncMeans(env: Env, e: Expr, values: seq<Option<int>>, row: Row)
    requires e.Func? && |values| == |e.args|
    requires forall i | 0 <= i < |values| :: Meaning(env, e.args[i], row) == CellOf(values[i])
    ensures Meaning(env, e, row) == env.apply(e.name, values)
  {
    ArgsAre(env, e, values, 0, row);
    assert values[0..] == values;
  }

  lemma {:induction false} ArgsAre(env: Env, e: Expr, values: seq<Option<int>>, i: nat, row: Row)
    requires e.Func? && |values| == |e.args| && i <= |values|
    requires forall j | 0 <= j < |values| :: Meaning(env, e.args[j], row) == CellOf(values[j])
    ensures ArgValues(env, e, i, row) == Some(values[i..])
    decreases |values| - i
  {
    if i < |values| {
      ArgsAre(env, e, values, i + 1, row);
      assert values[i..] == [values[i]] + values[i + 1..];
    }
  }

  lemma {:induction false} FuncFails(env: Env, e: Expr, i: nat, row: Row)
    requires e.Func? && i < |e.args| && Meaning(env, e.args[i], row).Fails?
    ensures Meaning(env, e, row) == Fails
  {
    ArgsFail(env, e, 0, i, row);
  }

  lemma {:induction false} ArgsFail(env: Env, e: Expr, i: nat, j: nat, row: Row)
    requires e.Func? && i <= j < |e.args| && Meaning(env, e.args[j], row).Fails?
    ensures ArgValues(env, e, i, row) == None
    decreases j - i
  {
    if i < j { ArgsFail(env, e, i + 1, j, row); }
  }

  // ---- what NOT comes to ----

  /** NOT is true of false and false of true; NULL and an error it leaves. */
  lemma {:induction false} NotMeans(env: Env, a: Expr, row: Row)
    ensures var m, c := Meaning(env, Not(a), row), Meaning(env, a, row);
      && (m == Val(1) <==> c == Val(0))
      && (m == Val(0) <==> c.Val? && c.v != 0)
      && (m.Null? <==> c.Null?)
      && (m.Fails? <==> c.Fails?)
  {
  }

  function Nots(args: seq<Expr>): (nots: seq<Expr>)
    ensures |nots| == |args| && forall i | 0 <= i < |args| :: nots[i] == Not(args[i])
  {
    seq(|args|, i requires 0 <= i < |args| => Not(args[i]))
  }

  /** De Morgan: NOT of an AND is the OR of the NOTs, and the other way, NULLs and errors included. */
  lemma {:induction false} DeMorgan(env: Env, e: Expr, row: Row)
    requires e.Bool?
    ensures Meaning(env, Not(e), row) == Meaning(env, Bool(!e.isAnd, Not(e.first), Nots(e.rest)), row)
  {
    var d := Bool(!e.isAnd, Not(e.first), Nots(e.rest));
    assert Meaning(env, d.first, row) == Inverted(Meaning(env, e.first, row));
    assert Meaning(env, d, row) == BoolMeaning(env, d, row);
    assert Meaning(env, Not(e), row) == Inverted(BoolMeaning(env, e, row));
    if e.rest != [] {
      DeMorganFrom(env, e, d, 0, row);
      assert BoolMeaning(env, d, row) == Then(d.isAnd, Meaning(env, d.first, row), BoolFrom(env, d, 0, row));
    }
  }

  lemma {:induction false} DeMorganFrom(env: Env, e: Expr, d: Expr, i: nat, row: Row)
    requires e.Bool? && d == Bool(!e.isAnd, Not(e.first), Nots(e.rest)) && i < |e.rest|
    ensures Inverted(BoolFrom(env, e, i, row)) == BoolFrom(env, d, i, row)
    decreases |e.rest| - i
  {
    assert d.rest[i] == Not(e.rest[i]);
    if i + 1 < |e.rest| { DeMorganFrom(env, e, d, i + 1, row); }
  }

  // ---- what CASE and COALESCE come to ----

  /** A branch that does not answer: its WHEN is false or NULL, or its argument is NULL. */
  ghost predicate Passed(env: Env, e: Expr, j: nat, row: Row)
    requires e.Case? && j < |e.branches|
  {
    match e.branches[j]
    case When(cond, _) => Meaning(env, cond, row) == Null || Meaning(env, cond, row) == Val(0)
    case Arg(x) =>
      var c := Meaning(env, x, row);
      c.Null? || (c.Val? && env.convert(x, e.target, c.v).Null?)
  }

  lemma {:induction false} PassedTo(env: Env, e: Expr, i: nat, row: Row)
    requires e.Case? && i <= |e.branches| && forall j: nat | j < i :: Passed(env, e, j, row)
    ensures Meaning(env, e, row) == CaseFrom(env, e, i, row)
    decreases i
  {
    if i > 0 {
      PassedTo(env, e, i - 1, row);
      assert Passed(env, e, i - 1, row);
    }
  }

  /** The first WHEN that is true answers with its THEN, cast to the type of the whole; one that fails, fails. */
  lemma {:induction false} WhenAnswers(env: Env, e: Expr, i: nat, row: Row)
    requires e.Case? && i < |e.branches| && e.branches[i].When? && forall j: nat | j < i :: Passed(env, e, j, row)
    ensures var cond, value, m := Meaning(env, e.branches[i].cond, row), e.branches[i].value, Meaning(env, e, row);
      && (cond.Fails? ==> m == Fails)
      && (cond.Val? && cond.v != 0 && value.None? ==> m == Null)
      && (cond.Val? && cond.v != 0 && value.Some? ==>
          var c := Meaning(env, value.value, row);
          m == if c.Val? then env.convert(value.value, e.target, c.v) else c)
  {
    PassedTo(env, e, i, row);
  }

  /** The first argument of COALESCE that is not NULL answers, cast to the type of the whole. */
  lemma {:induction false} ArgumentAnswers(env: Env, e: Expr, i: nat, row: Row)
    requires e.Case? && i < |e.branches| && e.branches[i].Arg? && forall j: nat | j < i :: Passed(env, e, j, row)
    ensures var x, m := e.branches[i].expr, Meaning(env, e, row); var c := Meaning(env, x, row);
      && (c.Fails? ==> m == Fails)
      && (c.Val? && !env.convert(x, e.target, c.v).Null? ==> m == env.convert(x, e.target, c.v))
  {
    PassedTo(env, e, i, row);
  }

  /** When no branch answers, ELSE does, or NULL. */
  lemma {:induction false} ElseAnswers(env: Env, e: Expr, row: Row)
    requires e.Case? && forall j: nat | j < |e.branches| :: Passed(env, e, j, row)
    ensures e.otherwise.None? ==> Meaning(env, e, row) == Null
    ensures e.otherwise.Some? ==>
      var c := Meaning(env, e.otherwise.value, row);
      Meaning(env, e, row) == if c.Val? then env.convert(e.otherwise.value, e.target, c.v) else c
  {
    PassedTo(env, e, |e.branches|, row);
  }

  // ---- the columns an expression reads ----

  function Reads(e: Expr): set<nat>
    decreases e
  {
    match e
    case Column(i) => {i}
    case Func(_, args) => set a, i | a in args && i in Reads(a) :: i
    case Not(arg) => Reads(arg)
    case Bool(_, first, rest) => Reads(first) + set a, i | a in rest && i in Reads(a) :: i
    case Case(_, branches, otherwise) =>
      (set b, i | b in branches && i in BranchReads(b) :: i) + if otherwise.Some? then Reads(otherwise.value) else {}
  }

  function BranchReads(b: Branch): set<nat>
    decreases b
  {
    match b
    case When(cond, value) => Reads(cond) + if value.Some? then Reads(value.value) else {}
    case Arg(expr) => Reads(expr)
  }

  /** A row with the other columns NULL. */
  function Pruned(row: Row, kept: set<nat>): (r: Row)
    ensures |r| == |row|
  {
    seq(|row|, i requires 0 <= i < |row| => if i in kept then row[i] else None)
  }

  /** An expression does not see the columns it does not read. */
  lemma {:induction false} PrunedMeaning(env: Env, e: Expr, row: Row, kept: set<nat>)
    requires Reads(e) <= kept
    ensures Meaning(env, e, Pruned(row, kept)) == Meaning(env, e, row)
    decreases e
  {
    match e
    case Column(_) =>
    case Func(_, args) => PrunedArgs(env, e, 0, row, kept);
    case Not(arg) => PrunedMeaning(env, arg, row, kept);
    case Bool(_, first, rest) =>
      PrunedMeaning(env, first, row, kept);
      if rest != [] { PrunedBool(env, e, 0, row, kept); }
    case Case(_, _, _) => PrunedCase(env, e, 0, row, kept);
  }

  lemma {:induction false} PrunedArgs(env: Env, e: Expr, i: nat, row: Row, kept: set<nat>)
    requires e.Func? && i <= |e.args| && Reads(e) <= kept
    ensures ArgValues(env, e, i, Pruned(row, kept)) == ArgValues(env, e, i, row)
    decreases e, |e.args| - i
  {
    hide Pruned;
    if i < |e.args| {
      assert e.args[i] in e.args;
      PrunedMeaning(env, e.args[i], row, kept);
      PrunedArgs(env, e, i + 1, row, kept);
    }
  }

  lemma {:induction false} PrunedBool(env: Env, e: Expr, i: nat, row: Row, kept: set<nat>)
    requires e.Bool? && i < |e.rest| && Reads(e) <= kept
    ensures BoolFrom(env, e, i, Pruned(row, kept)) == BoolFrom(env, e, i, row)
    decreases e, |e.rest| - i
  {
    hide Pruned;
    assert e.rest[i] in e.rest;
    PrunedMeaning(env, e.rest[i], row, kept);
    if i + 1 < |e.rest| { PrunedBool(env, e, i + 1, row, kept); }
  }

  lemma {:induction false} BranchInCase(e: Expr, i: nat)
    requires e.Case? && i < |e.branches|
    ensures BranchReads(e.branches[i]) <= Reads(e)
  {
    hide BranchReads;
    assert e.branches[i] in e.branches;
    forall c | c in BranchReads(e.branches[i]) ensures c in Reads(e) {}
  }

  lemma {:induction false} PrunedCase(env: Env, e: Expr, i: nat, row: Row, kept: set<nat>)
    requires e.Case? && i <= |e.branches| && Reads(e) <= kept
    ensures CaseFrom(env, e, i, Pruned(row, kept)) == CaseFrom(env, e, i, row)
    decreases e, |e.branches| - i
  {
    hide Pruned;
    if i == |e.branches| {
      if e.otherwise.Some? { PrunedMeaning(env, e.otherwise.value, row, kept); }
    } else {
      BranchInCase(e, i);
      match e.branches[i] {
        case When(cond, value) =>
          PrunedMeaning(env, cond, row, kept);
          if value.Some? { PrunedMeaning(env, value.value, row, kept); }
        case Arg(expr) => PrunedMeaning(env, expr, row, kept);
      }
      PrunedCase(env, e, i + 1, row, kept);
    }
  }
}
