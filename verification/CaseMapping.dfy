/**
 Upper and lower case of a UTF-8 value (src/exec/case_mapping.cc, CaseConvertValue); the Unicode table is a parameter.
 */
module CaseMapping {
  import opened Lists
  import opened Utf8

  /** The other case of an ASCII letter of the case to change. */
  function Flip(c: int, upper: bool): int {
    if upper && 0x61 <= c <= 0x7A then c - 0x20 else if !upper && 0x41 <= c <= 0x5A then c + 0x20 else c
  }

  /** A scalar value's other case: ASCII by rule, the rest by the table. */
  function Mapped(c: int, upper: bool, table: int -> int): int {
    if c < 0x80 then Flip(c, upper) else table(c)
  }

  const SMALL := "abcdefghijklmnopqrstuvwxyz"
  const CAPITAL := "ABCDEFGHIJKLMNOPQRSTUVWXYZ"

  /** A small letter's upper case is its capital, and the other way; every other ASCII character stays as it is. */
  lemma {:induction false} LettersMap(table: int -> int, i: nat)
    requires i < 26
    ensures Mapped(SMALL[i] as int, true, table) == CAPITAL[i] as int
    ensures Mapped(CAPITAL[i] as int, false, table) == SMALL[i] as int
  {
    assert forall k | 0 <= k < 26 :: SMALL[k] as int == 0x61 + k && CAPITAL[k] as int == 0x41 + k;
  }

  lemma {:induction false} OthersStay(table: int -> int, c: char, upper: bool)
    requires c as int < 0x80
    ensures Mapped(c as int, upper, table) == c as int || c in if upper then SMALL else CAPITAL
  {
    var letters := if upper then SMALL else CAPITAL;
    var first := if upper then 0x61 else 0x41;
    assert forall k | 0 <= k < 26 :: letters[k] as int == first + k;
    if first <= c as int < first + 26 { assert letters[c as int - first] == c; }
  }

  /** Beyond ASCII the table decides. */
  lemma {:induction false} TableMaps(table: int -> int, c: int, upper: bool)
    requires c >= 0x80
    ensures Mapped(c, upper, table) == table(c)
  {
  }

  ghost predicate TableOk(table: int -> int) {
    forall c | Scalar(c) :: Scalar(table(c))
  }

  function MapAll(cs: seq<int>, upper: bool, table: int -> int): (m: seq<int>)
    ensures |m| == |cs| && forall i | 0 <= i < |cs| :: m[i] == Mapped(cs[i], upper, table)
  {
    seq(|cs|, i requires 0 <= i < |cs| => Mapped(cs[i], upper, table))
  }

  /** What is done and what is left of a value. */
  ghost predicate DoneTo(value: Bytes, at: nat, done: seq<int>, upper: bool, table: int -> int) {
    && at <= |value|
    && (WellFormed(value) <==> WellFormed(value[at..]))
    && (WellFormed(value) ==> MapAll(Scalars(value), upper, table) == done + MapAll(Scalars(value[at..]), upper, table))
  }

  lemma {:induction false} DoneNext(value: Bytes, at: nat, done: seq<int>, upper: bool, table: int -> int)
    requires at < |value| && DoneTo(value, at, done, upper, table)
    ensures CharLen(value[at..]) == 0 ==> !WellFormed(value)
    ensures var n := CharLen(value[at..]); n > 0 ==>
      DoneTo(value, at + n, done + [Mapped(Value(value[at..][..n]), upper, table)], upper, table)
  {
    hide CharLen;
    hide Value;
    hide Scalars;
    hide MapAll;
    var rest := value[at..];
    var n := CharLen(rest);
    if n > 0 {
      assert rest[n..] == value[at + n..];
      if WellFormed(value) {
        MapFirst(rest, upper, table);
        Regroup(done, [Mapped(Value(rest[..n]), upper, table)], MapAll(Scalars(rest[n..]), upper, table));
      }
    }
  }

  lemma {:induction false} MapFirst(rest: Bytes, upper: bool, table: int -> int)
    requires rest != [] && WellFormed(rest)
    ensures var n := CharLen(rest);
      MapAll(Scalars(rest), upper, table)
          == [Mapped(Value(rest[..n]), upper, table)] + MapAll(Scalars(rest[n..]), upper, table)
  {
    hide CharLen;
    hide Value;
    hide Mapped;
  }

  lemma {:induction false} EncodeLast(cs: seq<int>, c: int)
    requires (forall i | 0 <= i < |cs| :: Scalar(cs[i])) && Scalar(c)
    ensures EncodeAll(cs + [c]) == EncodeAll(cs) + Encode(c)
  {
    hide Encode;
    if cs == [] {
      assert [] + [c] == [c] && [c][1..] == [];
    } else {
      EncodeLast(cs[1..], c);
      assert (cs + [c])[1..] == cs[1..] + [c];
    }
  }

  /** The value in the other case; fails on bytes that are no character, and on nothing else. */
  method CaseConvertValue(value: Bytes, upper: bool, table: int -> int) returns (ok: bool, out: Bytes)
    requires TableOk(table)
    ensures ok <==> WellFormed(value)
    ensures ok ==> WellFormed(out) && Scalars(out) == MapAll(Scalars(value), upper, table)
  {
    hide CharLen;
    hide Encode;
    hide Value;
    hide DoneTo;
    hide Scalars;
    hide WellFormed;
    out := [];
    var at := 0;
    ghost var done: seq<int> := [];
    DoneStart(value, upper, table);
    while at < |value|
      invariant at <= |value| && (forall i | 0 <= i < |done| :: Scalar(done[i])) && out == EncodeAll(done)
      invariant DoneTo(value, at, done, upper, table)
    {
      DoneNext(value, at, done, upper, table);
      var c := value[at];
      if c < 0x80 {
        Ascii(value[at..]);
        AsciiCase(value, at, upper, table);
        EncodeLast(done, Flip(c, upper));
        out := out + [Flip(c, upper)];
        done := done + [Flip(c, upper)];
        at := at + 1;
      } else {
        var code, next := Decode(value, at);
        if code.None? {
          return false, [];
        }
        Spelt(value, at, next, code.value);
        var mapped := table(code.value);
        EncodeLast(done, mapped);
        out := out + Encode(mapped);
        done := done + [mapped];
        at := next;
      }
    }
    DoneEnd(value, done, upper, table);
    ScalarsEncoded(done);
    ok := true;
  }

  lemma {:induction false} DoneStart(value: Bytes, upper: bool, table: int -> int)
    ensures DoneTo(value, 0, [], upper, table) && EncodeAll([]) == []
  {
    assert value[0..] == value;
    if WellFormed(value) { assert [] + MapAll(Scalars(value), upper, table) == MapAll(Scalars(value), upper, table); }
  }

  lemma {:induction false} DoneEnd(value: Bytes, done: seq<int>, upper: bool, table: int -> int)
    requires DoneTo(value, |value|, done, upper, table)
    ensures WellFormed(value) && MapAll(Scalars(value), upper, table) == done
  {
    assert value[|value|..] == [];
    assert done + [] == done;
  }

  lemma {:induction false} AsciiCase(value: Bytes, at: nat, upper: bool, table: int -> int)
    requires at < |value| && value[at] < 0x80
    ensures var c := value[at];
      Scalar(Flip(c, upper)) && 0 <= Flip(c, upper) < 0x80 && Encode(Flip(c, upper)) == [Flip(c, upper)]
    ensures Value(value[at..][..1]) == value[at] && Mapped(value[at], upper, table) == Flip(value[at], upper)
  {
    assert value[at..][..1] == [value[at]];
  }

  lemma {:induction false} Spelt(value: Bytes, at: nat, next: nat, code: int)
    requires at < next <= |value| && value[at] >= 0x80 && next == at + CharLen(value[at..]) && Scalar(code)
    requires Encode(code) == value[at..next]
    ensures Value(value[at..][..CharLen(value[at..])]) == code && code >= 0x80
  {
    EncodeInTable(code);
    assert value[at..][..CharLen(value[at..])] == value[at..next];
    assert value[at..next][0] == value[at];
  }
}
