/**
 How wide the result of a DECIMAL operation is (src/plan/binder.cc, DecimalArithType): as wide as it
 takes to hold every operand at the result's scale, with a digit to carry for + and -, or every
 product; so only a width that was capped can overflow.
 */
module DecimalWidths {
  import opened Options
  import opened DecimalTypes
  import opened DecimalTree
  import opened DecimalExact
  import opened DecimalNumbers

  // ---- powers of ten ----

  lemma {:induction false} PowAdd(a: nat, b: nat)
    ensures Pow10(a + b) == Pow10(a) * Pow10(b)
    decreases b
  {
    if b > 0 { PowAdd(a, b - 1); }
  }

  lemma {:induction false} PowLess(a: nat, b: nat)
    requires a < b
    ensures 10 * Pow10(a) <= Pow10(b)
  {
    PowGrows(a + 1, b);
  }

  /** Values of some digits times values of others have as many digits as both together. */
  lemma {:induction false} DigitsMultiply(x: int, a: nat, y: int, b: nat)
    requires DecimalRange(a).Has(x) && DecimalRange(b).Has(y)
    ensures DecimalRange(a + b).Has(x * y)
  {
    hide Pow10;
    PowAdd(a, b);
    var p, q := Pow10(a), Pow10(b);
    Product(x, p, y, q);
  }

  lemma {:induction false} Product(x: int, p: int, y: int, q: int)
    requires -p < x < p && -q < y < q
    ensures -(p * q) < x * y < p * q
  {
    var a, b := if x < 0 then -x else x, if y < 0 then -y else y;
    Sizes(x, y);
    NoLess(p - 1, a, q - 1, b);
    assert (p - 1) * (q - 1) == p * q - p - q + 1;
  }

  lemma {:induction false} Sizes(x: int, y: int)
    ensures var a, b := if x < 0 then -x else x, if y < 0 then -y else y; x * y == a * b || x * y == -(a * b)
  {
  }

  /** The greatest value of some digits times a power of ten takes no fewer. */
  lemma {:induction false} MostDigits(a: nat, k: nat, w: nat)
    requires a >= 1 && w < a + k
    ensures (Pow10(a) - 1) * Pow10(k) >= Pow10(w)
  {
    hide Pow10;
    PowLess(a - 1, a);
    PowGrows(w, a - 1 + k);
    PowAdd(a - 1, k);
    NoLess(Pow10(a) - 1, Pow10(a - 1), Pow10(k), Pow10(k));
  }

  /** Two greatest values multiply to as many digits as both together, and no fewer. */
  lemma {:induction false} MostProduct(a: nat, b: nat, w: nat)
    requires a >= 1 && b >= 1 && w < a + b
    ensures (Pow10(a) - 1) * (Pow10(b) - 1) >= Pow10(w)
  {
    hide Pow10;
    var p, q := Pow10(a - 1), Pow10(b - 1);
    PowNext(a - 1);
    PowNext(b - 1);
    PowAdd(a - 1, b - 1);
    PowNext(a - 1 + (b - 1));
    PowGrows(w, a + b - 1);
    NoLess(Pow10(a) - 1, 9 * p, Pow10(b) - 1, 9 * q);
    Nines(p, q);
  }

  lemma {:induction false} NoLess(x: int, u: int, y: int, v: int)
    requires 0 <= u <= x && 0 <= v <= y
    ensures x * y >= u * v
  {
    assert (x - u) * y >= 0 && u * (y - v) >= 0;
  }

  lemma {:induction false} Nines(p: int, q: int)
    requires p >= 1 && q >= 1
    ensures (9 * p) * (9 * q) >= 10 * (p * q)
  {
    assert (9 * p) * (9 * q) == 81 * (p * q);
    assert p * q >= 0;
  }

  lemma {:induction false} PowNext(n: nat)
    ensures Pow10(n + 1) == 10 * Pow10(n)
  {
  }

  /** How many decimal digits a number has. */
  function DigitCount(n: nat): nat { if n == 0 then 0 else 1 + DigitCount(n / 10) }

  /** The values of a width are the numbers of at most as many digits, of either sign. */
  lemma {:induction false} RangeIsDigits(v: int, w: nat)
    ensures DecimalRange(w).Has(v) <==> DigitCount(if v < 0 then -v else v) <= w
    decreases w
  {
    var n := if v < 0 then -v else v;
    if w > 0 && n > 0 {
      RangeIsDigits(n / 10, w - 1);
      PowNext(w - 1);
    }
  }

  // ---- widths that suffice ----

  /** Every value of a DECIMAL fits `w` digits once it has the scale `s`. */
  ghost predicate HoldsAll(d: Type, s: nat, w: nat)
    requires d.Decimal? && d.scale <= s
  {
    forall v | DecimalRange(d.width).Has(v) :: DecimalRange(w).Has(v * Pow10(s - d.scale))
  }

  /** Every product of values of two DECIMALs fits `w` digits. */
  ghost predicate HoldsProducts(a: Type, b: Type, w: nat)
    requires a.Decimal? && b.Decimal?
  {
    forall x, y | DecimalRange(a.width).Has(x) && DecimalRange(b.width).Has(y) :: DecimalRange(w).Has(x * y)
  }

  lemma {:induction false} PowInRange(k: nat)
    ensures DecimalRange(k + 1).Has(Pow10(k)) && DecimalRange(k).Has(Pow10(k) - 1)
  {
    PowNext(k);
  }

  lemma {:induction false} HoldsAllWhen(d: Type, s: nat, w: nat)
    requires d.Decimal? && ValidType(d) && d.scale <= s
    ensures HoldsAll(d, s, w) <==> d.width + (s - d.scale) <= w
  {
    hide Pow10;
    var k := s - d.scale;
    if d.width + k <= w {
      forall v | DecimalRange(d.width).Has(v) ensures DecimalRange(w).Has(v * Pow10(k)) {
        PowAdd(d.width, k);
        TimesPower(v, Pow10(d.width), Pow10(k));
        PowGrows(d.width + k, w);
      }
    } else {
      MostDigits(d.width, k, w);
      PowInRange(d.width);
      assert !DecimalRange(w).Has((Pow10(d.width) - 1) * Pow10(k));
    }
  }

  lemma {:induction false} TimesPower(v: int, p: int, k: int)
    requires -p < v < p && k >= 1
    ensures -(p * k) < v * k < p * k
  {
    NoLess(p - v, 1, k, k);
    NoLess(p + v, 1, k, k);
    assert (p - v) * k == p * k - v * k && (p + v) * k == p * k + v * k;
  }

  lemma {:induction false} HoldsProductsWhen(a: Type, b: Type, w: nat)
    requires a.Decimal? && b.Decimal? && ValidType(a) && ValidType(b)
    ensures HoldsProducts(a, b, w) <==> a.width + b.width <= w
  {
    hide Pow10;
    if a.width + b.width <= w {
      forall x, y | DecimalRange(a.width).Has(x) && DecimalRange(b.width).Has(y) ensures DecimalRange(w).Has(x * y) {
        DigitsMultiply(x, a.width, y, b.width);
        PowGrows(a.width + b.width, w);
      }
    } else {
      MostProduct(a.width, b.width, w);
      PowInRange(a.width);
      PowInRange(b.width);
      assert !DecimalRange(w).Has((Pow10(a.width) - 1) * (Pow10(b.width) - 1));
    }
  }

  /** `w` digits are enough for an operation: one more than its operands take for + and -. */
  ghost predicate Suffices(op: Op, a: Type, b: Type, s: nat, w: nat)
    requires a.Decimal? && b.Decimal? && a.scale <= s && b.scale <= s
  {
    match op
    case Multiply => HoldsProducts(a, b, w)
    case Modulo => HoldsAll(a, s, w) && HoldsAll(b, s, w)
    case _ => w >= 1 && HoldsAll(a, s, w - 1) && HoldsAll(b, s, w - 1)
  }

  /** `n` is the least number of digits that is enough. */
  ghost predicate Takes(op: Op, a: Type, b: Type, s: nat, n: nat)
    requires a.Decimal? && b.Decimal? && a.scale <= s && b.scale <= s
  {
    Suffices(op, a, b, s, n) && forall w: nat | w < n :: !Suffices(op, a, b, s, w)
  }

  function Digits(op: Op, a: Type, b: Type, s: nat): (n: int)
    requires a.Decimal? && b.Decimal? && ValidType(a) && ValidType(b) && a.scale <= s && b.scale <= s
    ensures n >= 0
  {
    if op == Multiply then a.width + b.width
    else Max(a.width - a.scale, b.width - b.scale) + s + if op == Modulo then 0 else 1
  }

  lemma {:induction false} TakesIs(op: Op, a: Type, b: Type, s: nat, n: nat)
    requires a.Decimal? && b.Decimal? && ValidType(a) && ValidType(b) && a.scale <= s && b.scale <= s
    ensures Takes(op, a, b, s, n) <==> n == Digits(op, a, b, s)
  {
    hide HoldsAll;
    hide HoldsProducts;
    forall w: nat
      ensures Suffices(op, a, b, s, w) <==> Digits(op, a, b, s) <= w
    {
      HoldsProductsWhen(a, b, w);
      HoldsAllWhen(a, s, w);
      HoldsAllWhen(b, s, w);
      if w >= 1 {
        HoldsAllWhen(a, s, w - 1);
        HoldsAllWhen(b, s, w - 1);
      }
    }
    assert Suffices(op, a, b, s, Digits(op, a, b, s));
  }

  /** The scale of the result: the larger of both, and of a product both together. */
  function ResultScale(op: Op, a: Type, b: Type): (s: nat)
    requires a.Decimal? && b.Decimal?
    ensures a.scale <= s && b.scale <= s
  {
    if op == Multiply then a.scale + b.scale else if a.scale < b.scale then b.scale else a.scale
  }

  /**
   An operation has a DECIMAL result unless a product's scale or a remainder's digits are more than 38. Its width is
   what the operation takes, up to 38; results of operands of up to 18 digits stop at 18, but for a product of 18
   digits of scale or more.
   */
  lemma {:induction false} WidthIs(op: Op, l: Type, r: Type, n: nat)
    requires ValidType(l) && ValidType(r)
    requires Takes(op, AsDecimal(l), AsDecimal(r), ResultScale(op, AsDecimal(l), AsDecimal(r)), n)
    ensures var a, b := AsDecimal(l), AsDecimal(r);
      var s, small := ResultScale(op, a, b), a.width <= 18 && b.width <= 18;
      var limit := if op == Modulo || !small || (op == Multiply && s >= 18) then 38 else 18;
      ArithType(op, l, r) ==
        if (op == Multiply && s > 38) || (op == Modulo && n > 38) then None
        else Some(Decimal(if n > limit then limit else n, s))
  {
    hide Takes;
    hide Digits;
    var a, b := AsDecimal(l), AsDecimal(r);
    TakesIs(op, a, b, ResultScale(op, a, b), n);
    SameType(op, l, r);
    WidthOf(op, a, b);
  }

  lemma {:induction false} SameType(op: Op, l: Type, r: Type)
    requires ValidType(l) && ValidType(r)
    ensures ArithType(op, l, r) == ArithType(op, AsDecimal(l), AsDecimal(r))
  {
  }

  lemma {:induction false} WidthOf(op: Op, a: Type, b: Type)
    requires a.Decimal? && b.Decimal? && ValidType(a) && ValidType(b)
    ensures var s, small := ResultScale(op, a, b), a.width <= 18 && b.width <= 18; var n := Digits(op, a, b, s);
      var limit := if op == Modulo || !small || (op == Multiply && s >= 18) then 38 else 18;
      ArithType(op, a, b) ==
        if (op == Multiply && s > 38) || (op == Modulo && n > 38) then None
        else Some(Decimal(if n > limit then limit else n, s))
  {
  }

  /** The DECIMAL an integer type counts as has no fraction and just the digits that hold its values. */
  lemma {:induction false} CountsAsLeast(t: Type, w: nat)
    requires !t.Decimal?
    ensures AsDecimal(t).scale == 0
    ensures (forall v | RangeOf(t).Has(v) :: DecimalRange(w).Has(v)) <==> AsDecimal(t).width <= w
  {
    hide Pow10;
    var d := AsDecimal(t).width;
    PowLimits();
    PowNext(4);
    PowNext(9);
    PowNext(18);
    PowNext(37);
    if d <= w {
      forall v | RangeOf(t).Has(v) ensures DecimalRange(w).Has(v) {
        CountsAs(t, v);
        PowGrows(d, w);
      }
    } else {
      PowGrows(w, d - 1);
      assert RangeOf(t).Has(RangeOf(t).max) && !DecimalRange(w).Has(RangeOf(t).max);
    }
  }

  // ---- what fits ----

  lemma {:induction false} InDecimal(t: Type, v: int)
    requires ValidType(t) && RangeOf(t).Has(v)
    ensures DecimalRange(AsDecimal(t).width).Has(v)
  {
    CountsAs(t, v);
  }

  lemma {:induction false} HeldAt(e: Expr, op: Op, x: int, t: Type, w: nat)
    requires ValidType(e.type_) && RangeOf(e.type_).Has(x) && t.Decimal? && op != Multiply
    requires ScaleOf(e.type_) <= t.scale && HoldsAll(AsDecimal(e.type_), t.scale, w)
    ensures DecimalRange(w).Has(AtScale(op, e, x, t))
  {
    hide RangeOf;
    hide Pow10;
    InDecimal(e.type_, x);
    if ScaleOf(e.type_) == t.scale { PowNothing(); }
  }

  lemma {:induction false} PowNothing()
    ensures Pow10(0) == 1
  {
  }

  /** Where the width is all the operation takes, values of the operands' types never overflow. */
  lemma {:induction false} NeverOverflows(op: Op, l: Expr, x: int, r: Expr, y: int, t: Type)
    requires ValidType(l.type_) && ValidType(r.type_) && ArithType(op, l.type_, r.type_) == Some(t) && t.Decimal?
    requires RangeOf(l.type_).Has(x) && RangeOf(r.type_).Has(y)
    requires var a, b := AsDecimal(l.type_), AsDecimal(r.type_); Suffices(op, a, b, ResultScale(op, a, b), t.width)
    ensures !Node(op, l, Val(x), r, Val(y), t).Failure?
  {
    hide RangeOf;
    hide Pow10;
    hide AtScale;
    hide HoldsAll;
    hide HoldsProducts;
    hide Node;
    hide Remainder;
    ArithValid(op, l.type_, r.type_);
    TypeRange(t);
    if op == Multiply {
      ProductFits(l, x, r, y, t);
    } else {
      var a, b := AtScale(op, l, x, t), AtScale(op, r, y, t);
      var w := if op == Modulo then t.width else t.width - 1;
      HeldAt(l, op, x, t, w);
      HeldAt(r, op, y, t, w);
      Carries(a, b, w);
      HeldNode(op, l, x, r, y, t);
    }
  }

  lemma {:induction false} ProductFits(l: Expr, x: int, r: Expr, y: int, t: Type)
    requires ValidType(l.type_) && ValidType(r.type_) && t.Decimal? && ValidType(t)
    requires RangeOf(l.type_).Has(x) && RangeOf(r.type_).Has(y)
    requires HoldsProducts(AsDecimal(l.type_), AsDecimal(r.type_), t.width)
    ensures !Node(Multiply, l, Val(x), r, Val(y), t).Failure?
  {
    hide RangeOf;
    hide Pow10;
    TypeRange(t);
    InDecimal(l.type_, x);
    InDecimal(r.type_, y);
  }

  /** Operands in range with a result in range give it. */
  lemma {:induction false} HeldNode(op: Op, l: Expr, x: int, r: Expr, y: int, t: Type)
    requires op != Multiply && t.Decimal? && ValidType(t)
    requires RangeOf(t).Has(AtScale(op, l, x, t)) && RangeOf(t).Has(AtScale(op, r, y, t))
    requires var a, b := AtScale(op, l, x, t), AtScale(op, r, y, t);
      if op == Modulo then b != 0 ==> RangeOf(t).Has(Remainder(a, b)) else RangeOf(t).Has(Exactly(op, a, b))
    ensures !Node(op, l, Val(x), r, Val(y), t).Failure?
  {
    hide RangeOf;
    hide AtScale;
    hide Rescale;
    hide Remainder;
    hide Exactly;
    hide Checked;
    RescaleFits(op, l, x, t);
    RescaleFits(op, r, y, t);
    var a, b := AtScale(op, l, x, t), AtScale(op, r, y, t);
    if op != Modulo {
      RangeFits(t, Exactly(op, a, b));
    } else if b != 0 {
      RangeFits(t, Remainder(a, b));
    }
  }

  lemma {:induction false} RescaleFits(op: Op, e: Expr, x: int, t: Type)
    requires op != Multiply && t.Decimal? && ValidType(t) && RangeOf(t).Has(AtScale(op, e, x, t))
    ensures Rescale(Val(x), e.type_, t) == Val(AtScale(op, e, x, t))
  {
    hide RangeOf;
    hide Factor;
    RangeFits(t, AtScale(op, e, x, t));
    if ScaleOf(e.type_) == t.scale { Unscaled(x, e.type_, t); }
  }

  lemma {:induction false} TypeRange(t: Type)
    requires t.Decimal? && ValidType(t)
    ensures RangeOf(t) == DecimalRange(t.width) && forall v | DecimalRange(t.width).Has(v) :: Fits128(v)
  {
    forall v | DecimalRange(t.width).Has(v) ensures Fits128(v) { RangeFits(t, v); }
  }

  /** Sums and differences take one digit more, a remainder none. */
  lemma {:induction false} Carries(a: int, b: int, w: nat)
    requires DecimalRange(w).Has(a) && DecimalRange(w).Has(b)
    ensures DecimalRange(w + 1).Has(a + b) && DecimalRange(w + 1).Has(a - b) && DecimalRange(w + 1).Has(a)
    ensures b != 0 ==> DecimalRange(w).Has(Remainder(a, b))
  {
    hide Pow10;
    PowNext(w);
    if b != 0 { RemainderMeans(a, b); }
  }
}
