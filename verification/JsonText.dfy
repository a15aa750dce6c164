/**
 Escaping a value as the body of a JSON string (src/engine/format.cc, JsonEscape): always a legal
 body (section 7 of RFC 8259), and one that reads back as the value just when that is well-formed
 UTF-8.
 */
module JsonText {
  import opened Options
  import opened Utf8

  const QUOTE: Byte := '"' as int
  const BACKSLASH: Byte := '\\' as int
  const HEX := "0123456789abcdef"

  function Hex(n: int): (b: Byte)
    requires 0 <= n < 16
    ensures 0x30 <= b <= 0x39 || 0x61 <= b <= 0x66
  {
    if n < 10 then 0x30 + n else 0x57 + n
  }

  function HexValue(b: Byte): Option<int> {
    if 0x30 <= b <= 0x39 then Some(b - 0x30)
    else if 0x41 <= b <= 0x46 then Some(b - 0x37)
    else if 0x61 <= b <= 0x66 then Some(b - 0x57)
    else None
  }

  lemma {:induction false} HexReads(n: int)
    requires 0 <= n < 16
    ensures HexValue(Hex(n)) == Some(n)
  {
  }

  /** The digits, and what a byte's two stand for. */
  lemma {:induction false} HexMeans(n: int)
    requires 0 <= n < 16
    ensures Hex(n) == HEX[n] as int
  {
    assert forall k | 0 <= k < 10 :: HEX[k] as int == 0x30 + k;
    assert forall k | 10 <= k < 16 :: HEX[k] as int == 0x57 + k;
  }

  // ---- writing ----

  /** The bytes for the first character of a value. */
  function EscapeOne(s: Bytes): Bytes
    requires s != []
  {
    var c := s[0];
    if c == QUOTE || c == BACKSLASH then [BACKSLASH, c]
    else if c < 0x20 then [BACKSLASH, 0x75, 0x30, 0x30, Hex(c / 16), Hex(c % 16)]
    else if CharLen(s) > 0 then s[..CharLen(s)]
    else [BACKSLASH, BACKSLASH, 0x78, Hex(c / 16), Hex(c % 16)]
  }

  function Escape(s: Bytes): Bytes {
    if s == [] then [] else EscapeOne(s) + Escape(s[Step(s)..])
  }

  method JsonEscape(s: Bytes) returns (out: Bytes)
    ensures out == Escape(s)
  {
    hide Escape;
    hide CharLen;
    hide Hex;
    out := [];
    var i := 0;
    EscapeNone();
    assert s[0..] == s;
    while i < |s|
      invariant i <= |s| && out + Escape(s[i..]) == Escape(s)
    {
      var c := s[i];
      var piece: Bytes, len := [], 1;
      if c == QUOTE || c == BACKSLASH {
        piece := [BACKSLASH, c];
      } else if c < 0x20 {
        piece := [BACKSLASH, 0x75, 0x30, 0x30, Hex(c / 16), Hex(c % 16)];
      } else if c < 0x80 {
        piece := [c];
      } else {
        len := SequenceLength(s, i);
        if len != 0 {
          piece := s[i..i + len];
        } else {
          piece, len := [BACKSLASH, BACKSLASH, 0x78, Hex(c / 16), Hex(c % 16)], 1;
        }
      }
      Piece(s, i, piece, len);
      assert out + (piece + Escape(s[i + len..])) == out + piece + Escape(s[i + len..]);
      out := out + piece;
      i := i + len;
    }
    assert s[|s|..] == [];
  }

  lemma {:induction false} EscapeNone()
    ensures Escape([]) == []
  {
  }

  lemma {:induction false} Piece(s: Bytes, i: nat, piece: Bytes, len: nat)
    requires i < |s| && 1 <= len <= |s| - i
    requires var c := s[i];
      if c == QUOTE || c == BACKSLASH then piece == [BACKSLASH, c] && len == 1
      else if c < 0x20 then piece == [BACKSLASH, 0x75, 0x30, 0x30, Hex(c / 16), Hex(c % 16)] && len == 1
      else if c < 0x80 then piece == [c] && len == 1
      else if CharLen(s[i..]) > 0 then len == CharLen(s[i..]) && piece == s[i..i + len]
      else piece == [BACKSLASH, BACKSLASH, 0x78, Hex(c / 16), Hex(c % 16)] && len == 1
    ensures Escape(s[i..]) == piece + Escape(s[i + len..])
  {
    var rest := s[i..];
    if s[i] < 0x80 { Ascii(rest); }
    assert rest[Step(rest)..] == s[i + len..];
    assert piece == EscapeOne(rest);
  }

  // ---- reading ----

  function Four(b: Bytes): Option<int>
    requires |b| >= 4
  {
    var w, x, y, z := HexValue(b[0]), HexValue(b[1]), HexValue(b[2]), HexValue(b[3]);
    if w.None? || x.None? || y.None?
        || z.None? then None else Some(((w.value * 16 + x.value) * 16 + y.value) * 16 + z.value)
  }

  /** What an escape stands for and its length; None where it is none. */
  function ReadEscape(b: Bytes): (r: Option<(Bytes, nat)>)
    requires b != [] && b[0] == BACKSLASH
    ensures r.Some? ==> 2 <= r.value.1 <= |b|
  {
    if |b| < 2 then None
    else
      match b[1]
      case 0x22 => Some(([QUOTE], 2))
      case 0x5C => Some(([BACKSLASH], 2))
      case 0x2F => Some(([0x2F], 2))
      case 0x62 => Some(([8], 2))
      case 0x66 => Some(([12], 2))
      case 0x6E => Some(([10], 2))
      case 0x72 => Some(([13], 2))
      case 0x74 => Some(([9], 2))
      case 0x75 => if |b| < 6 then None else ReadCode(b)
      case _ => None
  }

  /** A \uXXXX escape, or two that are a surrogate pair. */
  function ReadCode(b: Bytes): (r: Option<(Bytes, nat)>)
    requires |b| >= 6
    ensures r.Some? ==> 6 <= r.value.1 <= |b|
  {
    var code := Four(b[2..]);
    if code.None? then None
    else if Scalar(code.value) then Some((Encode(code.value), 6))
    else if code.value < 0xDC00 && |b| >= 12 && b[6] == BACKSLASH && b[7] == 0x75 && Four(b[8..]).Some?
        && 0xDC00 <= Four(b[8..]).value <= 0xDFFF
      && Scalar(0x10000 + (code.value - 0xD800) * 1024 + (Four(b[8..]).value - 0xDC00))
    then Some((Encode(0x10000 + (code.value - 0xD800) * 1024 + (Four(b[8..]).value - 0xDC00)), 12))
    else None
  }

  /** What the body of a JSON string stands for; None for one that is not legal. */
  function Unescape(b: Bytes): Option<Bytes> {
    if b == [] then Some([])
    else if b[0] == BACKSLASH then
      var e := ReadEscape(b);
      if e.None? then None else Prepend(e.value.0, Unescape(b[e.value.1..]))
    else if b[0] == QUOTE || b[0] < 0x20 || CharLen(b) == 0 then None
    else Prepend(b[..CharLen(b)], Unescape(b[CharLen(b)..]))
  }

  function Prepend(a: Bytes, r: Option<Bytes>): Option<Bytes> {
    if r.None? then None else Some(a + r.value)
  }

  // ---- what is read back ----

  /** A value with each byte that is no character spelled as \xHH. */
  function Readable(s: Bytes): Bytes {
    if s == [] then [] else ReadOne(s) + Readable(s[Step(s)..])
  }

  function ReadOne(s: Bytes): Bytes
    requires s != []
  {
    if CharLen(s) > 0 then s[..CharLen(s)] else [BACKSLASH, 0x78, Hex(s[0] / 16), Hex(s[0] % 16)]
  }

  /** A byte that is no character is spelled as a backslash, an x and its two digits, the high one first. */
  lemma {:induction false} StraySpelled(s: Bytes)
    requires s != [] && CharLen(s) == 0
    ensures ReadOne(s) == ['\\' as int, 'x' as int, HEX[s[0] / 16] as int, HEX[s[0] % 16] as int]
    ensures HexValue(ReadOne(s)[2]).value * 16 + HexValue(ReadOne(s)[3]).value == s[0]
  {
    HexMeans(s[0] / 16);
    HexMeans(s[0] % 16);
    HexReads(s[0] / 16);
    HexReads(s[0] % 16);
  }

  /** Reading an escaped character in front of anything gives it back. */
  lemma {:induction false} OneReads(s: Bytes, rest: Bytes)
    requires s != []
    ensures Unescape(EscapeOne(s) + rest) == Prepend(ReadOne(s), Unescape(rest))
  {
    var c, b := s[0], EscapeOne(s) + rest;
    if c < 0x80 { Ascii(s); }
    if c == QUOTE || c == BACKSLASH {
      assert b[2..] == rest;
    } else if c < 0x20 {
      ControlReads(c, rest);
      assert b[6..] == rest;
    } else if CharLen(s) > 0 {
      var n := CharLen(s);
      assert b[..n] == s[..n];
      OneLength(b, n);
      assert b[n..] == rest && b[0] == s[0];
    } else {
      HexDigitsRead(c, rest);
    }
  }

  lemma {:induction false} ControlReads(c: Byte, rest: Bytes)
    requires c < 0x20
    ensures ReadEscape([BACKSLASH, 0x75, 0x30, 0x30, Hex(c / 16), Hex(c % 16)] + rest) == Some(([c], 6))
  {
    var b := [BACKSLASH, 0x75, 0x30, 0x30, Hex(c / 16), Hex(c % 16)] + rest;
    HexReads(c / 16);
    HexReads(c % 16);
    var d := b[2..];
    assert d[0] == 0x30 && d[1] == 0x30 && d[2] == Hex(c / 16) && d[3] == Hex(c % 16);
    assert Four(d) == Some(c);
  }

  /** \\xHH reads as the four characters \xHH. */
  lemma {:induction false} HexDigitsRead(c: Byte, rest: Bytes)
    ensures Unescape([BACKSLASH, BACKSLASH, 0x78, Hex(c / 16), Hex(c % 16)] + rest)
      == Prepend([BACKSLASH, 0x78, Hex(c / 16), Hex(c % 16)], Unescape(rest))
  {
    hide Unescape;
    var h, l := Hex(c / 16), Hex(c % 16);
    SlashReads([0x78, h, l] + rest);
    assert [BACKSLASH, BACKSLASH] + ([0x78, h, l] + rest) == [BACKSLASH, BACKSLASH, 0x78, h, l] + rest;
    PlainReads(0x78, [h, l] + rest);
    assert [0x78] + ([h, l] + rest) == [0x78, h, l] + rest;
    PlainReads(h, [l] + rest);
    assert [h] + ([l] + rest) == [h, l] + rest;
    PlainReads(l, rest);
    if Unescape(rest).Some? {
      var r := Unescape(rest).value;
      assert [BACKSLASH] + ([0x78] + ([h] + ([l] + r))) == [BACKSLASH, 0x78, h, l] + r;
    }
  }

  lemma {:induction false} SlashReads(rest: Bytes)
    ensures Unescape([BACKSLASH, BACKSLASH] + rest) == Prepend([BACKSLASH], Unescape(rest))
  {
    assert ([BACKSLASH, BACKSLASH] + rest)[2..] == rest;
  }

  lemma {:induction false} PlainReads(c: Byte, rest: Bytes)
    requires 0x20 <= c < 0x80 && c != QUOTE && c != BACKSLASH
    ensures Unescape([c] + rest) == Prepend([c], Unescape(rest))
  {
    var b := [c] + rest;
    Ascii(b);
    assert b[..1] == [c] && b[1..] == rest;
  }

  /** An escaped value is legal and reads back as its readable form. */
  lemma {:induction false} EscapeReads(s: Bytes)
    ensures Unescape(Escape(s)) == Some(Readable(s))
  {
    if s != [] {
      EscapeReads(s[Step(s)..]);
      OneReads(s, Escape(s[Step(s)..]));
    }
  }

  lemma {:induction false} ReadableSame(s: Bytes)
    requires WellFormed(s)
    ensures Readable(s) == s
  {
    if s != [] {
      ReadableSame(s[CharLen(s)..]);
      assert s == s[..CharLen(s)] + s[CharLen(s)..];
    }
  }

  /** Whatever is read is well formed. */
  lemma {:induction false} UnescapedWellFormed(b: Bytes)
    requires Unescape(b).Some?
    ensures WellFormed(Unescape(b).value)
  {
    if b == [] {
    } else if b[0] == BACKSLASH {
      var e := ReadEscape(b).value;
      UnescapedWellFormed(b[e.1..]);
      EscapeWellFormed(b);
      WellFormedConcat(e.0, Unescape(b[e.1..]).value);
    } else {
      var n := CharLen(b);
      UnescapedWellFormed(b[n..]);
      OneWellFormed(b[..n]);
      WellFormedConcat(b[..n], Unescape(b[n..]).value);
    }
  }

  lemma {:induction false} EscapeWellFormed(b: Bytes)
    requires b != [] && b[0] == BACKSLASH && ReadEscape(b).Some?
    ensures WellFormed(ReadEscape(b).value.0)
  {
    if b[1] == 0x75 {
      var code := Four(b[2..]).value;
      if Scalar(code) {
        EncodeInTable(code);
        OneWellFormed(Encode(code));
      } else {
        var pair := 0x10000 + (code - 0xD800) * 1024 + (Four(b[8..]).value - 0xDC00);
        EncodeInTable(pair);
        OneWellFormed(Encode(pair));
      }
    } else {
      OneWellFormed(ReadEscape(b).value.0);
    }
  }

  /** An escaped value reads back as itself just when it is well-formed UTF-8. */
  lemma {:induction false} ReadsBack(s: Bytes)
    ensures Unescape(Escape(s)).Some?
    ensures Unescape(Escape(s)) == Some(s) <==> WellFormed(s)
  {
    EscapeReads(s);
    if WellFormed(s) { ReadableSame(s); }
    UnescapedWellFormed(Escape(s));
  }

  /** An escaped value is well-formed UTF-8. */
  lemma {:induction false} EscapeIsText(s: Bytes)
    ensures WellFormed(Escape(s))
  {
    if s != [] {
      EscapeIsText(s[Step(s)..]);
      OneIsText(s);
      WellFormedConcat(EscapeOne(s), Escape(s[Step(s)..]));
    }
  }

  lemma {:induction false} OneIsText(s: Bytes)
    requires s != []
    ensures WellFormed(EscapeOne(s))
  {
    var b := EscapeOne(s);
    if CharLen(s) > 0 && b == s[..CharLen(s)] {
      OneWellFormed(b);
    } else {
      if s[0] < 0x80 { Ascii(s); }
      AsciiText(b);
    }
  }

  lemma {:induction false} AsciiText(b: Bytes)
    requires forall i | 0 <= i < |b| :: b[i] < 0x80
    ensures WellFormed(b)
  {
    if b != [] {
      Ascii(b);
      AsciiText(b[1..]);
    }
  }
}
