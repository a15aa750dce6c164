/**
 DECIMAL arithmetic in numbers: a value of DECIMAL(p,s) stands for itself over 10^s, and what a tree
 evaluates to stands for the tree's arithmetic on the real numbers its leaves stand for
 (src/exec/compute.cc, RescaleOperand and DecimalArith; src/plan/binder.cc, DecimalArithType).
 */
module DecimalNumbers {
  import opened Options
  import opened DecimalTypes
  import opened DecimalTree
  import opened DecimalExact

  // ---- numbers ----

  function Tens(n: nat): (t: real)
    ensures t >= 1.0
  {
    if n == 0 then 1.0 else 10.0 * Tens(n - 1)
  }

  /** The number a value stands for. */
  function Real(v: int, t: Type): real {
    if t.Decimal? then v as real / Tens(t.scale) else v as real
  }

  /** A number without its fraction. */
  function Truncate(x: real): int {
    if x >= 0.0 then x.Floor else -((-x).Floor)
  }

  /** The operations on numbers; the remainder is that of the quotient without its fraction. */
  function Operate(op: Op, x: real, y: real): real {
    match op
    case Add => x + y
    case Subtract => x - y
    case Multiply => x * y
    case Modulo => if y == 0.0 then 0.0 else x - y * Truncate(x / y) as real
  }

  /** The number a tree means on a row, by its leaves; a value that is not there counts as 0. */
  ghost function Number(e: Expr, env: Env, row: nat): real {
    match Reused(e, env)
    case Some(values) => if row < |values| && values[row].Some? then Real(values[row].value, e.type_) else 0.0
    case None =>
      match e
      case Column(i, t) =>
        if i < |env.columns| && row < |env.columns[i].at| && env.columns[i].at[row].Some?
        then Real(env.columns[i].at[row].value, t) else 0.0
      case Constant(v, t) => Real(v, t)
      case Other(i, t) =>
        if i < |env.others| && row < |env.others[i]| && env.others[i][row].Val?
        then Real(env.others[i][row].v, t) else 0.0
      case Arith(op, l, r, _) => Operate(op, Number(l, env, row), Number(r, env, row))
  }

  // ---- powers and scales ----

  lemma {:induction false} TensIs(n: nat)
    ensures Pow10(n) as real == Tens(n)
  {
    if n > 0 { TensIs(n - 1); }
  }

  lemma {:induction false} TensAdd(a: nat, b: nat)
    ensures Tens(a + b) == Tens(a) * Tens(b)
    decreases b
  {
    if b > 0 { TensAdd(a, b - 1); }
  }

  lemma {:induction false} RealProduct(x: int, y: nat)
    ensures (x * y) as real == x as real * y as real
    decreases y
  {
    if y > 0 {
      RealProduct(x, y - 1);
      assert x * y == x * (y - 1) + x;
    }
  }

  lemma {:induction false} RealProducts(x: int, y: int)
    ensures (x * y) as real == x as real * y as real
  {
    if y >= 0 {
      RealProduct(x, y);
    } else {
      RealProduct(x, -y);
      assert x * y == -(x * -y);
    }
  }

  lemma {:induction false} Cancel(x: real, k: real, s: real)
    requires k >= 1.0 && s >= 1.0
    ensures s * k != 0.0 && (x * k) / (s * k) == x / s
  {
    var q := x / s;
    assert q * s == x;
    assert q * (s * k) == (q * s) * k == x * k;
  }

  lemma {:induction false} RealIs(v: int, t: Type)
    ensures Real(v, t) == v as real / Tens(ScaleOf(t))
  {
  }

  lemma {:induction false} Signs(d: real, b: real)
    ensures b > 0.0 ==> (d * b < 0.0 <==> d < 0.0) && (d * b > 0.0 <==> d > 0.0)
  {
  }

  /** Rescaling does not change the number. */
  lemma {:induction false} RescaledIs(x: int, from: Type, to: Type)
    requires to.Decimal? && ScaleOf(from) <= to.scale
    ensures Real(x * Factor(from, to), to) == Real(x, from)
  {
    hide Real;
    hide Tens;
    var s, k := ScaleOf(from), to.scale - ScaleOf(from);
    RealIs(x, from);
    RealIs(x * Factor(from, to), to);
    if k == 0 {
      assert x * Factor(from, to) == x;
    } else {
      TensIs(k);
      TensAdd(s, k);
      RealProducts(x, Pow10(k));
      Cancel(x as real, Tens(k), Tens(s));
    }
  }

  // ---- operations ----

  lemma {:induction false} SumIs(a: int, b: int, t: Type)
    requires t.Decimal?
    ensures Real(a + b, t) == Real(a, t) + Real(b, t) && Real(a - b, t) == Real(a, t) - Real(b, t)
  {
    Shared(a as real, b as real, Tens(t.scale));
  }

  lemma {:induction false} Shared(x: real, y: real, s: real)
    requires s >= 1.0
    ensures (x + y) / s == x / s + y / s && (x - y) / s == x / s - y / s
  {
  }

  lemma {:induction false} ProductIs(x: int, y: int, l: Type, r: Type, t: Type)
    requires t.Decimal? && t.scale == ScaleOf(l) + ScaleOf(r)
    ensures Real(x * y, t) == Real(x, l) * Real(y, r)
  {
    hide Real;
    hide Tens;
    RealIs(x, l);
    RealIs(y, r);
    RealIs(x * y, t);
    RealProducts(x, y);
    TensAdd(ScaleOf(l), ScaleOf(r));
    Fractions(x as real, y as real, Tens(ScaleOf(l)), Tens(ScaleOf(r)));
  }

  lemma {:induction false} Fractions(x: real, y: real, s: real, k: real)
    requires s >= 1.0 && k >= 1.0
    ensures s * k != 0.0 && (x * y) / (s * k) == (x / s) * (y / k)
  {
    var p, q := x / s, y / k;
    assert p * s == x && q * k == y;
    assert (p * q) * (s * k) == (p * s) * (q * k);
  }

  /** The quotient of two integers without its fraction. */
  function Whole(x: int, y: int): int
    requires y != 0
  {
    var n := (if x < 0 then -x else x) / (if y < 0 then -y else y);
    if (x < 0) == (y < 0) then n else -n
  }

  /** The remainder is what is left of the dividend, less than the divisor and of the dividend's sign. */
  lemma {:induction false} RemainderMeans(x: int, y: int)
    requires y != 0
    ensures var r := Remainder(x, y);
      && x == Whole(x, y) * y + r
      && -(if y < 0 then -y else y) < r < (if y < 0 then -y else y)
      && (r != 0 ==> (r < 0 <==> x < 0))
  {
    var a, b := if x < 0 then -x else x, if y < 0 then -y else y;
    assert a == a / b * b + a % b;
    assert Whole(x, y) * y == if x < 0 then -(a / b * b) else a / b * b;
  }

  lemma {:induction false} FloorIs(a: nat, b: nat)
    requires b > 0
    ensures (a as real / b as real).Floor == a / b
  {
    var n, q := a / b, a as real / b as real;
    assert q * b as real == a as real;
    RealProducts(n, b);
    RealProducts(n + 1, b);
    assert n * b <= a < (n + 1) * b;
    Between(n as real, q, (n + 1) as real, b as real);
  }

  lemma {:induction false} Between(x: real, q: real, y: real, b: real)
    requires b > 0.0 && x * b <= q * b < y * b
    ensures x <= q < y
  {
    Signs(q - x, b);
    Signs(q - y, b);
    assert (q - x) * b == q * b - x * b && (q - y) * b == q * b - y * b;
  }

  lemma {:induction false} WholeIs(x: int, y: int)
    requires y != 0
    ensures Truncate(x as real / y as real) == Whole(x, y)
  {
    var a, b := if x < 0 then -x else x, if y < 0 then -y else y;
    hide Whole;
    FloorIs(a, b);
    WholeSign(x, y, a / b);
    var q, p := x as real / y as real, a as real / b as real;
    assert q * y as real == x as real && p * b as real == a as real;
    SameSize(q, p, x as real, y as real);
    if x == 0 { assert p == 0.0; }
  }

  lemma {:induction false} WholeSign(x: int, y: int, n: int)
    requires y != 0 && n == (if x < 0 then -x else x) / (if y < 0 then -y else y)
    ensures Whole(x, y) == if (x < 0) == (y < 0) then n else -n
  {
  }

  lemma {:induction false} SameSize(q: real, p: real, x: real, y: real)
    requires y != 0.0 && q * y == x
    requires p * (if y < 0.0 then -y else y) == if x < 0.0 then -x else x
    ensures p >= 0.0 && q == if (x < 0.0) == (y < 0.0) then p else -p
  {
    var b := if y < 0.0 then -y else y;
    Signs(p, b);
    var p' := if (x < 0.0) == (y < 0.0) then p else -p;
    assert p' * y == x;
    assert (p' - q) * b == 0.0;
    Signs(p' - q, b);
  }

  lemma {:induction false} RemainderIs(a: int, b: int, t: Type)
    requires t.Decimal? && b != 0
    ensures Real(b, t) != 0.0 && Real(Remainder(a, b), t) == Operate(Modulo, Real(a, t), Real(b, t))
  {
    hide Real;
    hide Tens;
    hide Whole;
    hide Remainder;
    hide Truncate;
    var s, n := Tens(t.scale), Whole(a, b);
    RealIs(a, t);
    RealIs(b, t);
    RealIs(Remainder(a, b), t);
    WholeIs(a, b);
    RemainderMeans(a, b);
    RealProducts(n, b);
    RatioIs(a as real, b as real, s);
    LeftIs(a as real, b as real, n as real, s);
  }

  lemma {:induction false} RatioIs(x: real, y: real, s: real)
    requires s >= 1.0 && y != 0.0
    ensures y / s != 0.0 && (x / s) / (y / s) == x / y
  {
    var p, q, r := x / s, y / s, x / y;
    assert p * s == x && q * s == y && r * y == x;
    assert (r * q) * s == r * (q * s) == p * s;
    assert (r * q - p) * s == 0.0;
    Signs(r * q - p, s);
    Signs(q, s);
  }

  lemma {:induction false} LeftIs(x: real, y: real, n: real, s: real)
    requires s >= 1.0
    ensures (x - n * y) / s == x / s - (y / s) * n
  {
    var p, q := x / s, y / s;
    assert p * s == x && q * s == y;
    assert (p - q * n) * s == p * s - (q * s) * n;
  }

  // ---- nodes and trees ----

  /** What a node of two values gives stands for the operation on what they stand for. */
  lemma {:induction false} NodeIsNumber(op: Op, l: Expr, x: int, r: Expr, y: int, t: Type)
    requires ValidType(l.type_) && ValidType(r.type_) && ArithType(op, l.type_, r.type_) == Some(t)
    ensures t.Decimal?
    ensures var o := Node(op, l, Val(x), r, Val(y), t);
      o.Val? ==> Real(o.v, t) == Operate(op, Real(x, l.type_), Real(y, r.type_))
  {
    hide Real;
    hide Node;
    hide Remainder;
    hide Truncate;
    hide AtScale;
    ArithValid(op, l.type_, r.type_);
    NodeGives(op, l, x, r, y, t);
    var a, b := AtScale(op, l, x, t), AtScale(op, r, y, t);
    if op == Multiply {
      AsItIs(l, x, t);
      AsItIs(r, y, t);
      ProductIs(x, y, l.type_, r.type_, t);
    } else {
      ScaledIs(op, l, x, t);
      ScaledIs(op, r, y, t);
      SumIs(a, b, t);
      if op == Modulo && b != 0 { RemainderIs(a, b, t); }
    }
  }

  lemma {:induction false} ScaledIs(op: Op, e: Expr, x: int, t: Type)
    requires op != Multiply && t.Decimal? && ScaleOf(e.type_) <= t.scale
    ensures Real(AtScale(op, e, x, t), t) == Real(x, e.type_)
  {
    hide Real;
    hide Factor;
    RescaledIs(x, e.type_, t);
  }

  lemma {:induction false} AsItIs(e: Expr, x: int, t: Type)
    requires t.Decimal?
    ensures AtScale(Multiply, e, x, t) == x
  {
  }

  lemma {:induction false} Unscaled(x: int, from: Type, to: Type)
    requires to.Decimal? && ScaleOf(from) == to.scale
    ensures x * Factor(from, to) == x
  {
  }

  lemma {:induction false} RescaleGives(op: Op, e: Expr, x: int, t: Type)
    requires op != Multiply && t.Decimal?
    ensures var o := Rescale(Val(x), e.type_, t); !o.Null? && (o.Val? ==> o.v == AtScale(op, e, x, t))
  {
    hide Factor;
    hide RangeOf;
    if ScaleOf(e.type_) == t.scale { Unscaled(x, e.type_, t); }
  }

  /** The value a node of two values gives, where it gives one. */
  lemma {:induction false} NodeGives(op: Op, l: Expr, x: int, r: Expr, y: int, t: Type)
    requires t.Decimal?
    ensures var o, a, b := Node(op, l, Val(x), r, Val(y), t), AtScale(op, l, x, t), AtScale(op, r, y, t);
      o.Val? ==> if op == Modulo then b != 0 && o.v == Remainder(a, b) else o.v == Exactly(op, a, b)
  {
    hide RangeOf;
    hide Remainder;
    hide Rescale;
    hide Checked;
    hide AtScale;
    if op == Multiply {
      AsItIs(l, x, t);
      AsItIs(r, y, t);
    } else {
      RescaleGives(op, l, x, t);
      RescaleGives(op, r, y, t);
    }
  }

  /** A node of two values gives NULL for a remainder by 0, and for nothing else. */
  lemma {:induction false} NullOfZero(op: Op, l: Expr, x: int, r: Expr, y: int, t: Type)
    requires t.Decimal?
    ensures var o := Node(op, l, Val(x), r, Val(y), t);
      (o.Null? ==> op == Modulo && y == 0) && (op == Modulo && y == 0 ==> !o.Val?)
  {
    hide RangeOf;
    hide Remainder;
    hide Rescale;
    hide Checked;
    hide AtScale;
    if op != Multiply {
      RescaleGives(op, l, x, t);
      RescaleGives(op, r, y, t);
      StaysZero(op, r, y, t);
    }
  }

  lemma {:induction false} StaysZero(op: Op, e: Expr, y: int, t: Type)
    requires t.Decimal? && op != Multiply
    ensures AtScale(op, e, y, t) == 0 <==> y == 0
  {
    hide Pow10;
    var f := Factor(e.type_, t);
    if y > 0 { NotZero(y, f); } else if y < 0 { NotZero(-y, f); }
  }

  lemma {:induction false} NotZero(y: int, f: int)
    requires y > 0 && f > 0
    ensures y * f > 0 && -y * f < 0
  {
  }

  /** Whatever a tree gives on a row stands for the tree's arithmetic on the numbers of its leaves. */
  lemma {:induction false} EvalIsNumber(e: Expr, env: Env, row: nat)
    requires WellTyped(e, env)
    ensures Eval(e, env, row).Val? ==> Real(Eval(e, env, row).v, e.type_) == Number(e, env, row)
  {
    hide Real;
    hide Node;
    hide Operate;
    hide ReusedFrom;
    if e.Arith? && Reused(e, env).None? {
      EvalIsNumber(e.left, env, row);
      EvalIsNumber(e.right, env, row);
      ArithValid(e.op, e.left.type_, e.right.type_);
      var x, y := Eval(e.left, env, row), Eval(e.right, env, row);
      OfValues(e.op, e.left, x, e.right, y, e.type_);
      if x.Val? && y.Val? { NodeIsNumber(e.op, e.left, x.v, e.right, y.v, e.type_); }
    }
  }

  lemma {:induction false} OfValues(op: Op, l: Expr, x: Outcome, r: Expr, y: Outcome, t: Type)
    requires t.Decimal?
    ensures Node(op, l, x, r, y, t).Val? ==> x.Val? && y.Val?
  {
  }

  /** The exact value of a tree stands for the tree's arithmetic too, whether or not it fits its type. */
  lemma {:induction false} ExactIsNumber(e: Expr, env: Env, row: nat)
    requires WellTyped(e, env) && Covered(e, env) && Present(e, env, row)
    ensures Real(Exact(e, env, row), e.type_) == Number(e, env, row)
  {
    hide Real;
    hide Exactly;
    hide AtScale;
    hide Operate;
    hide ReusedFrom;
    if e.Arith? && Reused(e, env).None? {
      ExactIsNumber(e.left, env, row);
      ExactIsNumber(e.right, env, row);
      ArithValid(e.op, e.left.type_, e.right.type_);
      StepIsNumber(e.op, e.left, Exact(e.left, env, row), e.right, Exact(e.right, env, row), e.type_);
    }
  }

  lemma {:induction false} StepIsNumber(op: Op, l: Expr, x: int, r: Expr, y: int, t: Type)
    requires ValidType(l.type_) && ValidType(r.type_) && ArithType(op, l.type_, r.type_) == Some(t) && op != Modulo
    ensures t.Decimal?
    ensures Real(Exactly(op, AtScale(op, l, x, t), AtScale(op, r, y, t)), t)
      == Operate(op, Real(x, l.type_), Real(y, r.type_))
  {
    hide Real;
    hide AtScale;
    ArithValid(op, l.type_, r.type_);
    if op == Multiply {
      AsItIs(l, x, t);
      AsItIs(r, y, t);
      ProductIs(x, y, l.type_, r.type_, t);
    } else {
      ScaledIs(op, l, x, t);
      ScaledIs(op, r, y, t);
      SumIs(AtScale(op, l, x, t), AtScale(op, r, y, t), t);
    }
  }

  /**
   A tree of +, - and * over values that are there, none of which leaves its range, evaluates to its number; one that
   does not evaluates to no other.
   */
  lemma {:induction false} TreeIsNumber(e: Expr, env: Env, row: nat)
    requires EnvOk(env) && WellTyped(e, env) && row < env.rows && Covered(e, env)
    ensures Present(e, env, row) && !Spills(e, env, row) ==>
      var o := Eval(e, env, row); o.Val? && Real(o.v, e.type_) == Number(e, env, row)
    ensures Eval(e, env, row).Val? ==> Present(e, env, row) && !Spills(e, env, row)
  {
    hide Real;
    hide Number;
    hide Exact;
    hide Spills;
    hide EnvOk;
    EvalIsExact(e, env, row);
    EvalIsNumber(e, env, row);
  }
}
