/**
 DECIMAL types and the type of an operation on them (src/plan/binder.cc, DecimalArithType;
 src/plan/literal.cc, RangeOf; src/plan/key_type.cc, DecimalOfInteger). A value of DECIMAL(p,s) is an
 unscaled integer of at most p digits that stands for itself over 10^s.
 */
module DecimalTypes {
  import opened Options

  const MAX_WIDTH: nat := 38
  const SMALL_WIDTH: nat := 18
  const INT128_MAX: int := 0x7FFF_FFFF_FFFF_FFFF_FFFF_FFFF_FFFF_FFFF
  const INT64_MAX: int := 0x7FFF_FFFF_FFFF_FFFF

  datatype Op = Add | Subtract | Multiply | Modulo

  datatype Type = SmallInt | USmallInt | Integer | BigInt | HugeInt | Decimal(width: nat, scale: nat)

  datatype Range = Range(min: int, max: int) {
    predicate Has(v: int) { min <= v <= max }
  }

  function Pow10(n: nat): (p: nat)
    ensures p >= 1
  {
    if n == 0 then 1 else 10 * Pow10(n - 1)
  }

  predicate Fits128(v: int) { -INT128_MAX - 1 <= v <= INT128_MAX }

  predicate Fits64(v: int) { -INT64_MAX - 1 <= v <= INT64_MAX }

  predicate ValidType(t: Type) {
    t.Decimal? ==> 1 <= t.width <= MAX_WIDTH && t.scale <= t.width
  }

  function DecimalRange(width: nat): Range { Range(1 - Pow10(width), Pow10(width) - 1) }

  function RangeOf(t: Type): Range {
    match t
    case SmallInt => Range(-0x8000, 0x7FFF)
    case USmallInt => Range(0, 0xFFFF)
    case Integer => Range(-0x8000_0000, 0x7FFF_FFFF)
    case BigInt => Range(-INT64_MAX - 1, INT64_MAX)
    case HugeInt => DecimalRange(MAX_WIDTH)
    case Decimal(w, _) => DecimalRange(w)
  }

  /** The DECIMAL a type counts as next to one. */
  function AsDecimal(t: Type): (d: Type)
    ensures d.Decimal? && (ValidType(t) ==> ValidType(d))
  {
    match t
    case SmallInt | USmallInt => Decimal(5, 0)
    case Integer => Decimal(10, 0)
    case BigInt => Decimal(19, 0)
    case HugeInt => Decimal(38, 0)
    case Decimal(_, _) => t
  }

  function ScaleOf(t: Type): nat { AsDecimal(t).scale }

  function Max(a: int, b: int): int { if a > b then a else b }

  /** The type of an operation on two types, None where it is not a DECIMAL. */
  function ArithType(op: Op, l: Type, r: Type): Option<Type>
    requires ValidType(l) && ValidType(r)
  {
    var a, b := AsDecimal(l), AsDecimal(r);
    var small := a.width <= SMALL_WIDTH && b.width <= SMALL_WIDTH;
    match op
    case Modulo =>
      var scale := Max(a.scale, b.scale);
      var width := Max(a.width - a.scale, b.width - b.scale) + scale;
      if width > MAX_WIDTH then None else Some(Decimal(width, scale))
    case Multiply =>
      var scale, width := a.scale + b.scale, a.width + b.width;
      if scale > MAX_WIDTH then None
      else Some(Decimal(Capped(width, small && scale < SMALL_WIDTH), scale))
    case _ =>
      var scale := Max(a.scale, b.scale);
      Some(Decimal(Capped(Max(a.width - a.scale, b.width - b.scale) + scale + 1, small), scale))
  }

  /** A width beyond 18 digits is capped to 18 for small operands, and to 38 for any. */
  function Capped(width: nat, small: bool): nat {
    if width > SMALL_WIDTH && small then SMALL_WIDTH else if width > MAX_WIDTH then MAX_WIDTH else width
  }

  lemma {:induction false} PowGrows(a: nat, b: nat)
    requires a <= b
    ensures Pow10(a) <= Pow10(b)
  {
    if a < b { PowGrows(a, b - 1); }
  }

  lemma {:induction false} PowLimits()
    ensures Pow10(5) == 100_000 && Pow10(10) == 10_000_000_000 && Pow10(18) == 1_000_000_000_000_000_000
    ensures Pow10(19) == 10_000_000_000_000_000_000 && Pow10(38) == 100_000_000_000_000_000_000_000_000_000_000_000_000
  {
    var ten := 10_000_000_000;
    assert Pow10(5) == 100_000;
    assert Pow10(10) == ten;
    assert Pow10(15) == 1_000_000_000_000_000;
    assert Pow10(20) == 100_000_000_000_000_000_000;
    assert Pow10(25) == 10_000_000_000_000_000_000_000_000;
    assert Pow10(30) == 1_000_000_000_000_000_000_000_000_000_000;
    assert Pow10(35) == 100_000_000_000_000_000_000_000_000_000_000_000;
  }

  /** A type's values are values of the DECIMAL it counts as. */
  lemma {:induction false} CountsAs(t: Type, v: int)
    requires ValidType(t) && RangeOf(t).Has(v)
    ensures RangeOf(AsDecimal(t)).Has(v)
  {
    PowLimits();
  }

  /** An operand of its own scale nests in the type of a +, - or %: only a rescaled one can be too wide. */
  lemma {:induction false} Nests(op: Op, l: Type, r: Type, v: int)
    requires ValidType(l) && ValidType(r) && op != Multiply && ArithType(op, l, r).Some?
    ensures var t := ArithType(op, l, r).value;
      && ValidType(t) && ScaleOf(l) <= t.scale && ScaleOf(r) <= t.scale
      && (ScaleOf(l) == t.scale && RangeOf(l).Has(v) ==> RangeOf(t).Has(v))
      && (ScaleOf(r) == t.scale && RangeOf(r).Has(v) ==> RangeOf(t).Has(v))
  {
    hide RangeOf;
    var t := ArithType(op, l, r).value;
    if ScaleOf(l) == t.scale && RangeOf(l).Has(v) { CountsAs(l, v); Wider(AsDecimal(l), t, v); }
    if ScaleOf(r) == t.scale && RangeOf(r).Has(v) { CountsAs(r, v); Wider(AsDecimal(r), t, v); }
  }

  lemma {:induction false} Wider(a: Type, b: Type, v: int)
    requires a.Decimal? && b.Decimal? && a.width <= b.width && RangeOf(a).Has(v)
    ensures RangeOf(b).Has(v)
  {
    PowGrows(a.width, b.width);
  }

  lemma {:induction false} ArithValid(op: Op, l: Type, r: Type)
    requires ValidType(l) && ValidType(r) && ArithType(op, l, r).Some?
    ensures ArithType(op, l, r).value.Decimal? && ValidType(ArithType(op, l, r).value)
  {
  }
}
