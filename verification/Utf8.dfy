/**
 UTF-8 (src/common/utf8.cc, Utf8SequenceLength; src/exec/case_mapping.cc, Decode and Encode). A
 character is the encoding of a Unicode scalar value (section 3 of RFC 3629); the byte sequences that
 are one are those of the table in its section 4. Masks and shifts of bytes are written as divisions
 and remainders by powers of two.
 */
module Utf8 {
  import opened Options

  type Byte = b: int | 0 <= b < 256
  type Bytes = seq<Byte>

  predicate Scalar(c: int) {
    0 <= c <= 0x10FFFF && !(0xD800 <= c <= 0xDFFF)
  }

  /** The bytes of a scalar value. */
  function Encode(c: int): (b: Bytes)
    requires Scalar(c)
    ensures 1 <= |b| <= 4
  {
    if c < 0x80 then [c]
    else if c < 0x800 then [0xC0 + c / 64, 0x80 + c % 64]
    else if c < 0x10000 then [0xE0 + c / 64 / 64, 0x80 + c / 64 % 64, 0x80 + c % 64]
    else [0xF0 + c / 64 / 64 / 64, 0x80 + c / 64 / 64 % 64, 0x80 + c / 64 % 64, 0x80 + c % 64]
  }

  predicate Tail(b: Byte) { 0x80 <= b <= 0xBF }

  /** The table of well-formed sequences. */
  predicate Table(b: Bytes) {
    match |b|
    case 1 => b[0] <= 0x7F
    case 2 => 0xC2 <= b[0] <= 0xDF && Tail(b[1])
    case 3 =>
      && Tail(b[2])
      && (|| (b[0] == 0xE0 && 0xA0 <= b[1] <= 0xBF)
          || (0xE1 <= b[0] <= 0xEC && Tail(b[1]))
          || (b[0] == 0xED && 0x80 <= b[1] <= 0x9F)
          || (0xEE <= b[0] <= 0xEF && Tail(b[1])))
    case 4 =>
      && Tail(b[2]) && Tail(b[3])
      && (|| (b[0] == 0xF0 && 0x90 <= b[1] <= 0xBF)
          || (0xF1 <= b[0] <= 0xF3 && Tail(b[1]))
          || (b[0] == 0xF4 && 0x80 <= b[1] <= 0x8F))
    case _ => false
  }

  /** The low bits of a byte. */
  function Low(b: Byte, m: int): (n: int)
    requires m > 0
    ensures 0 <= n < m && (b < m ==> n == b)
  {
    b % m
  }

  /** The value a sequence's bits spell. */
  function Value(b: Bytes): int {
    match |b|
    case 1 => b[0]
    case 2 => Low(b[0], 32) * 64 + Low(b[1], 64)
    case 3 => (Low(b[0], 16) * 64 + Low(b[1], 64)) * 64 + Low(b[2], 64)
    case 4 => ((Low(b[0], 8) * 64 + Low(b[1], 64)) * 64 + Low(b[2], 64)) * 64 + Low(b[3], 64)
    case _ => -1
  }

  /** An encoding is in the table and spells its value. */
  lemma {:induction false} EncodeInTable(c: int)
    requires Scalar(c)
    ensures Table(Encode(c)) && Value(Encode(c)) == c
  {
    if c < 0x80 {
    } else if c < 0x800 {
      assert Low(0xC0 + c / 64, 32) == c / 64 && Low(0x80 + c % 64, 64) == c % 64;
    } else if c < 0x10000 {
      EncodeThree(c);
    } else {
      EncodeFour(c);
    }
  }

  lemma {:induction false} EncodeThree(c: int)
    requires Scalar(c) && 0x800 <= c < 0x10000
    ensures Table(Encode(c)) && Value(Encode(c)) == c
  {
    var d := c / 64;
    assert Low(0xE0 + d / 64, 16) == d / 64 && Low(0x80 + d % 64, 64) == d % 64 && Low(0x80 + c % 64, 64) == c % 64;
  }

  lemma {:induction false} EncodeFour(c: int)
    requires 0x10000 <= c <= 0x10FFFF
    ensures Table(Encode(c)) && Value(Encode(c)) == c
  {
    var d := c / 64;
    var e := d / 64;
    assert Low(0xF0 + e / 64, 8) == e / 64 && Low(0x80 + e % 64, 64) == e % 64 && Low(0x80 + d % 64, 64) == d % 64
        && Low(0x80 + c % 64, 64) == c % 64;
  }

  /** A sequence in the table is the encoding of the value it spells. */
  lemma {:induction false} TableIsEncoded(b: Bytes)
    requires Table(b)
    ensures Scalar(Value(b)) && Encode(Value(b)) == b
  {
    if |b| == 2 {
      Digits(b[0] - 0xC0, b[1] - 0x80);
      assert Low(b[0], 32) == b[0] - 0xC0 && Low(b[1], 64) == b[1] - 0x80;
    } else if |b| == 3 {
      ThreeEncoded(b);
    } else if |b| == 4 {
      FourEncoded(b);
    }
  }

  /** A digit in base 64 can be split off. */
  lemma {:induction false} Digits(high: int, low: int)
    requires 0 <= low < 64
    ensures (high * 64 + low) / 64 == high && (high * 64 + low) % 64 == low
  {
  }

  lemma {:induction false} ThreeEncoded(b: Bytes)
    requires Table(b) && |b| == 3
    ensures Scalar(Value(b)) && Encode(Value(b)) == b
  {
    var x: int, y: int, z: int := b[0] - 0xE0, b[1] - 0x80, b[2] - 0x80;
    assert Low(b[0], 16) == x && Low(b[1], 64) == y && Low(b[2], 64) == z;
    Digits(x, y);
    Digits(x * 64 + y, z);
  }

  lemma {:induction false} FourEncoded(b: Bytes)
    requires Table(b) && |b| == 4
    ensures Scalar(Value(b)) && Encode(Value(b)) == b
  {
    var x: int, y: int, z: int, w: int := b[0] - 0xF0, b[1] - 0x80, b[2] - 0x80, b[3] - 0x80;
    assert Low(b[0], 8) == x && Low(b[1], 64) == y && Low(b[2], 64) == z && Low(b[3], 64) == w;
    Digits(x, y);
    Digits(x * 64 + y, z);
    Digits((x * 64 + y) * 64 + z, w);
  }

  // ---- characters of a text ----

  /** The length of the character that bytes start with, 0 where they start with none. */
  function CharLen(s: Bytes): (n: nat)
    ensures n <= |s| && n <= 4 && (n > 0 ==> Table(s[..n]))
  {
    if |s| >= 1 && Table(s[..1]) then 1
    else if |s| >= 2 && Table(s[..2]) then 2
    else if |s| >= 3 && Table(s[..3]) then 3
    else if |s| >= 4 && Table(s[..4]) then 4
    else 0
  }

  /** No character is the beginning of another, so the length is the only one. */
  lemma {:induction false} OneLength(s: Bytes, n: nat)
    requires n <= |s| && Table(s[..n])
    ensures CharLen(s) == n
  {
  }

  lemma {:induction false} CharAhead(c: int, rest: Bytes)
    requires Scalar(c)
    ensures CharLen(Encode(c) + rest) == |Encode(c)|
  {
    EncodeInTable(c);
    assert (Encode(c) + rest)[..|Encode(c)|] == Encode(c);
    OneLength(Encode(c) + rest, |Encode(c)|);
  }

  /** The bytes of the next character, or one byte where there is none. */
  function Step(s: Bytes): (n: nat)
    requires s != []
    ensures 1 <= n <= |s|
  {
    if CharLen(s) > 0 then CharLen(s) else 1
  }

  /** A text is well formed when it is characters one after the other. */
  predicate WellFormed(s: Bytes) {
    s == [] || (CharLen(s) > 0 && WellFormed(s[CharLen(s)..]))
  }

  /** The scalar values of a well-formed text. */
  function Scalars(s: Bytes): seq<int>
    requires WellFormed(s)
  {
    if s == [] then [] else [Value(s[..CharLen(s)])] + Scalars(s[CharLen(s)..])
  }

  function EncodeAll(cs: seq<int>): Bytes
    requires forall i | 0 <= i < |cs| :: Scalar(cs[i])
  {
    if cs == [] then [] else Encode(cs[0]) + EncodeAll(cs[1..])
  }

  /** Decoding a text and encoding it again gives it back. */
  lemma {:induction false} EncodeScalars(s: Bytes)
    requires WellFormed(s)
    ensures (forall i | 0 <= i < |Scalars(s)| :: Scalar(Scalars(s)[i])) && EncodeAll(Scalars(s)) == s
  {
    hide CharLen;
    hide Table;
    hide Value;
    hide Encode;
    if s != [] {
      var n := CharLen(s);
      EncodeScalars(s[n..]);
      TableIsEncoded(s[..n]);
      assert Scalars(s)[1..] == Scalars(s[n..]);
      assert s == s[..n] + s[n..];
    }
  }

  /** Encoding scalar values gives a well-formed text of those values. */
  lemma {:induction false} ScalarsEncoded(cs: seq<int>)
    requires forall i | 0 <= i < |cs| :: Scalar(cs[i])
    ensures WellFormed(EncodeAll(cs)) && Scalars(EncodeAll(cs)) == cs
  {
    hide CharLen;
    hide Table;
    hide Value;
    hide Encode;
    if cs != [] {
      ScalarsEncoded(cs[1..]);
      var rest := EncodeAll(cs[1..]);
      CharAhead(cs[0], rest);
      EncodeInTable(cs[0]);
      assert (Encode(cs[0]) + rest)[|Encode(cs[0])|..] == rest;
      assert (Encode(cs[0]) + rest)[..|Encode(cs[0])|] == Encode(cs[0]);
    }
  }

  lemma {:induction false} WellFormedConcat(a: Bytes, b: Bytes)
    requires WellFormed(a) && WellFormed(b)
    ensures WellFormed(a + b)
  {
    hide CharLen;
    hide Table;
    if a == [] {
      assert a + b == b;
    } else {
      var n := CharLen(a);
      WellFormedConcat(a[n..], b);
      assert (a + b)[..n] == a[..n];
      OneLength(a + b, n);
      assert (a + b)[n..] == a[n..] + b;
    }
  }

  lemma {:induction false} OneWellFormed(b: Bytes)
    requires Table(b)
    ensures WellFormed(b)
  {
    assert b[..|b|] == b;
    OneLength(b, |b|);
    assert b[|b|..] == [];
  }

  // ---- the engine's functions ----

  /** The length of the multi-byte sequence at `i`, 0 where there is none (Utf8SequenceLength). */
  method SequenceLength(s: Bytes, i: nat) returns (len: nat)
    requires i < |s|
    ensures len == if s[i] < 0x80 then 0 else CharLen(s[i..])
  {
    var lead := s[i];
    var lo, hi := 0x80, 0xBF;
    ghost var rest := s[i..];
    if 0xC2 <= lead <= 0xDF {
      len := 2;
    } else if 0xE0 <= lead <= 0xEF {
      len := 3;
      lo := if lead == 0xE0 then 0xA0 else lo;
      hi := if lead == 0xED then 0x9F else hi;
    } else if 0xF0 <= lead <= 0xF4 {
      len := 4;
      lo := if lead == 0xF0 then 0x90 else lo;
      hi := if lead == 0xF4 then 0x8F else hi;
    } else {
      return 0;
    }
    if len > |s| - i || s[i + 1] < lo || s[i + 1] > hi {
      return 0;
    }
    for k := 2 to len
      invariant forall j | 2 <= j < k :: Tail(rest[j])
    {
      assert rest[k] == s[i + k];
      if s[i + k] / 64 != 2 {
        return 0;
      }
    }
    assert rest[..len][0] == lead && rest[..len][1] == s[i + 1];
    assert forall j | 2 <= j < len :: rest[..len][j] == rest[j];
    OneLength(rest, len);
  }

  /** The scalar value at `at` and the place after it; None for bytes that are no character (Decode). */
  method Decode(s: Bytes, at: nat) returns (c: Option<int>, next: nat)
    requires at < |s|
    ensures c.Some? <==> CharLen(s[at..]) > 0
    ensures c.Some? ==> next == at + CharLen(s[at..]) && Scalar(c.value) && Encode(c.value) == s[at..next]
    ensures c.None? ==> next == at
  {
    hide CharLen;
    hide Table;
    hide Encode;
    hide Value;
    var lead := s[at];
    ghost var rest := s[at..];
    if lead < 0x80 {
      Ascii(rest);
      assert rest[..1] == s[at..at + 1];
      return Some(lead), at + 1;
    }
    Leads(rest);
    var length, code: int, least := 0, 0, 0;
    if lead / 32 == 6 {
      length, code, least := 2, Low(lead, 32), 0x80;
    } else if lead / 16 == 14 {
      length, code, least := 3, Low(lead, 16), 0x800;
    } else if lead / 8 == 30 {
      length, code, least := 4, Low(lead, 8), 0x10000;
    } else {
      return None, at;
    }
    if at + length > |s| {
      return None, at;
    }
    var ok, spelled := Continue(s, at, length, code);
    if !ok {
      NotTails(rest, length);
      return None, at;
    }
    Spells(rest, length, spelled);
    if spelled < least || spelled > 0x10FFFF || 0xD800 <= spelled <= 0xDFFF {
      return None, at;
    }
    TableIsEncoded(rest[..length]);
    assert rest[..length] == s[at..at + length];
    c, next := Some(spelled), at + length;
  }

  /** An ASCII byte is a character. */
  lemma {:induction false} Ascii(b: Bytes)
    requires b != [] && b[0] < 0x80
    ensures CharLen(b) == 1 && Scalar(b[0]) && Encode(b[0]) == b[..1]
  {
    assert b[..1] == [b[0]];
  }

  /** A longer character starts with a lead byte and is all there. */
  lemma {:induction false} Leads(b: Bytes)
    requires b != [] && b[0] >= 0x80
    ensures CharLen(b) > 0 ==> exists n :: 2 <= n <= |b| && Announces(b[0], n)
  {
    var n := CharLen(b);
    if n > 0 {
      assert b[..n][0] == b[0];
      assert Announces(b[0], n);
    }
  }

  /** Whether a lead byte announces `length` bytes. */
  predicate Announces(lead: Byte, length: nat) {
    (length == 2 && lead / 32 == 6) || (length == 3 && lead / 16 == 14) || (length == 4 && lead / 8 == 30)
  }

  /** The bits of the bytes after the lead. */
  function Spelled(b: Bytes, length: nat, n: nat): int
    requires 1 <= n <= length <= |b|
  {
    if n == 1 then (if length == 2 then Low(b[0], 32) else if length == 3 then Low(b[0], 16) else Low(b[0], 8))
    else Spelled(b, length, n - 1) * 64 + Low(b[n - 1], 64)
  }

  /** Takes six bits of each byte after the lead, all of which must be tails. */
  method Continue(s: Bytes, at: nat, length: nat, first: int) returns (ok: bool, code: int)
    requires 2 <= length <= 4 && at + length <= |s| && first == Spelled(s[at..], length, 1)
    ensures ok <==> forall j | 1 <= j < length :: Tail(s[at..][j])
    ensures ok ==> code == Spelled(s[at..], length, length)
  {
    code := first;
    for i := 1 to length
      invariant forall j | 1 <= j < i :: Tail(s[at..][j])
      invariant code == Spelled(s[at..], length, i)
    {
      var next := s[at + i];
      assert s[at..][i] == next;
      if next / 64 != 2 {
        return false, 0;
      }
      code := code * 64 + Low(next, 64);
    }
    ok := true;
  }

  lemma {:induction false} NotTails(b: Bytes, length: nat)
    requires 2 <= length <= |b| && Announces(b[0], length) && !forall j | 1 <= j < length :: Tail(b[j])
    ensures CharLen(b) == 0
  {
    if CharLen(b) > 0 { Announced(b, length); }
  }

  /** A character is as long as its lead announces. */
  lemma {:induction false} Announced(b: Bytes, length: nat)
    requires CharLen(b) > 0 && length <= |b| && Announces(b[0], length)
    ensures CharLen(b) == length && Table(b[..length]) && forall j | 1 <= j < length :: Tail(b[j])
  {
    var n := CharLen(b);
    assert b[..n][0] == b[0] && Table(b[..n]);
    assert n == length;
    forall j | 1 <= j < length ensures Tail(b[j]) { assert b[..n][j] == b[j]; }
  }

  /** Tails that spell a scalar value beyond what a shorter sequence spells are a character. */
  lemma {:induction false} Spells(b: Bytes, length: nat, code: int)
    requires 2 <= length <= |b| && Announces(b[0], length) && (forall j | 1 <= j < length :: Tail(b[j]))
    requires code == Spelled(b, length, length)
    ensures code == Value(b[..length])
    ensures var least := if length == 2 then 0x80 else if length == 3 then 0x800 else 0x10000;
      CharLen(b) == if code < least || !Scalar(code) then 0 else length
  {
    var s := b[..length];
    SpelledOut(b, length);
    SpelledTable(s);
    if Table(s) {
      OneLength(b, length);
    } else {
      NoOther(b, length);
    }
  }

  lemma {:induction false} SpelledOut(b: Bytes, length: nat)
    requires 2 <= length <= 4 && length <= |b|
    ensures Spelled(b, length, length) == Value(b[..length])
  {
    assert Spelled(b, length, 2) == Spelled(b, length, 1) * 64 + Low(b[1], 64);
    if length >= 3 { assert Spelled(b, length, 3) == Spelled(b, length, 2) * 64 + Low(b[2], 64); }
    if length == 4 { assert Spelled(b, length, 4) == Spelled(b, length, 3) * 64 + Low(b[3], 64); }
  }

  lemma {:induction false} SpelledTable(s: Bytes)
    requires 2 <= |s| <= 4 && Announces(s[0], |s|) && forall j | 1 <= j < |s| :: Tail(s[j])
    ensures var least := if |s| == 2 then 0x80 else if |s| == 3 then 0x800 else 0x10000;
      Table(s) <==> Value(s) >= least && Scalar(Value(s))
  {
  }

  lemma {:induction false} NoOther(b: Bytes, length: nat)
    requires 2 <= length <= |b| && Announces(b[0], length) && !Table(b[..length])
    ensures CharLen(b) == 0
  {
    if CharLen(b) > 0 { Announced(b, length); }
  }
}
