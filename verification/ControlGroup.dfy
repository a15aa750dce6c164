/**
 Eight control bytes matched at once in a 64-bit word: EMPTY is 0x80, a full slot holds a
 seven-bit tag (bench/group_loops.h, ControlGroup).
 */
module ControlGroup {

  const WIDTH: nat := 8
  const LO: bv64 := 0x0101010101010101
  const HI: bv64 := 0x8080808080808080
  const EMPTY: bv8 := 0x80

  function Pack(b0: bv8, b1: bv8, b2: bv8, b3: bv8, b4: bv8, b5: bv8, b6: bv8, b7: bv8): bv64 {
    (b0 as bv64) | ((b1 as bv64) << 8) | ((b2 as bv64) << 16) | ((b3 as bv64) << 24)
    | ((b4 as bv64) << 32) | ((b5 as bv64) << 40) | ((b6 as bv64) << 48) | ((b7 as bv64) << 56)
  }

  /** The word that a little-endian load of eight bytes gives. */
  function Load(b: seq<bv8>): bv64
    requires |b| == WIDTH
  {
    Pack(b[0], b[1], b[2], b[3], b[4], b[5], b[6], b[7])
  }

  function Match(word: bv64, tag: bv8): bv64 {
    var x := word ^ (LO * (tag as bv64));
    (x - LO) & !x & HI
  }

  function MatchEmpty(word: bv64): bv64 {
    word & HI
  }

  /** The number of bits up to and including the highest set one. */
  function BitWidth(m: bv64): nat
    decreases m
  {
    if m == 0 then 0 else 1 + BitWidth(m >> 1)
  }

  /** The byte of the lowest flagged slot. */
  function Index(mask: bv64): int {
    (BitWidth(mask & (!mask + 1)) - 1) / 8
  }

  /** Whether byte `k` of a mask is flagged: its top bit. */
  predicate Flags(mask: bv64, k: nat)
    requires k < WIDTH
  {
    match k
    case 0 => mask & 0x80 != 0
    case 1 => mask & 0x8000 != 0
    case 2 => mask & 0x800000 != 0
    case 3 => mask & 0x80000000 != 0
    case 4 => mask & 0x8000000000 != 0
    case 5 => mask & 0x800000000000 != 0
    case 6 => mask & 0x80000000000000 != 0
    case _ => mask & 0x8000000000000000 != 0
  }

  /** A mask of flags alone. */
  predicate IsMask(mask: bv64) {
    mask & !HI == 0
  }

  lemma TagReplicated(t: bv8)
    ensures LO * (t as bv64) == Pack(t, t, t, t, t, t, t, t)
  {
  }

  /** A byte equal to the tag is flagged, whatever the borrows below it. */
  lemma PackedMatch(b0: bv8, b1: bv8, b2: bv8, b3: bv8, b4: bv8, b5: bv8, b6: bv8, b7: bv8)
    ensures var w := Pack(b0, b1, b2, b3, b4, b5, b6, b7);
      && Match(w, b0) & 0x80 != 0
      && Match(w, b1) & 0x8000 != 0
      && Match(w, b2) & 0x800000 != 0
      && Match(w, b3) & 0x80000000 != 0
      && Match(w, b4) & 0x8000000000 != 0
      && Match(w, b5) & 0x800000000000 != 0
      && Match(w, b6) & 0x80000000000000 != 0
      && Match(w, b7) & 0x8000000000000000 != 0
  {
    TagReplicated(b0);
    TagReplicated(b1);
    TagReplicated(b2);
    TagReplicated(b3);
    TagReplicated(b4);
    TagReplicated(b5);
    TagReplicated(b6);
    TagReplicated(b7);
  }

  lemma TagFlags(b: seq<bv8>, k: nat)
    requires |b| == WIDTH && k < WIDTH
    ensures Flags(Match(Load(b), b[k]), k)
  {
    PackedMatch(b[0], b[1], b[2], b[3], b[4], b[5], b[6], b[7]);
    if k == 0 {} else if k == 1 {} else if k == 2 {} else if k == 3 {}
    else if k == 4 {} else if k == 5 {} else if k == 6 {} else {}
  }

  lemma PackedEmpty(b0: bv8, b1: bv8, b2: bv8, b3: bv8, b4: bv8, b5: bv8, b6: bv8, b7: bv8)
    ensures var m := MatchEmpty(Pack(b0, b1, b2, b3, b4, b5, b6, b7));
      && (b0 < EMPTY <==> m & 0x80 == 0)
      && (b1 < EMPTY <==> m & 0x8000 == 0)
      && (b2 < EMPTY <==> m & 0x800000 == 0)
      && (b3 < EMPTY <==> m & 0x80000000 == 0)
      && (b4 < EMPTY <==> m & 0x8000000000 == 0)
      && (b5 < EMPTY <==> m & 0x800000000000 == 0)
      && (b6 < EMPTY <==> m & 0x80000000000000 == 0)
      && (b7 < EMPTY <==> m & 0x8000000000000000 == 0)
  {
  }

  lemma EmptyFlags(b: seq<bv8>, k: nat)
    requires |b| == WIDTH && k < WIDTH
    ensures Flags(MatchEmpty(Load(b)), k) <==> b[k] >= EMPTY
  {
    PackedEmpty(b[0], b[1], b[2], b[3], b[4], b[5], b[6], b[7]);
    if k == 0 {} else if k == 1 {} else if k == 2 {} else if k == 3 {}
    else if k == 4 {} else if k == 5 {} else if k == 6 {} else {}
  }

  /** An EMPTY byte is never flagged by a tag: its top bit survives the xor. */
  lemma PackedNoMatch(b0: bv8, b1: bv8, b2: bv8, b3: bv8, b4: bv8, b5: bv8, b6: bv8, b7: bv8, t: bv8)
    requires t < EMPTY
    ensures var w := Pack(b0, b1, b2, b3, b4, b5, b6, b7); Match(w, t) & MatchEmpty(w) == 0
  {
    TagReplicated(t);
  }

  lemma DisjointFlags(m: bv64, e: bv64, k: nat)
    requires k < WIDTH && m & e == 0 && Flags(m, k)
    ensures !Flags(e, k)
  {
  }

  lemma FlaggedIsFull(b: seq<bv8>, tag: bv8, k: nat)
    requires |b| == WIDTH && k < WIDTH && tag < EMPTY && Flags(Match(Load(b), tag), k)
    ensures b[k] < EMPTY
  {
    PackedNoMatch(b[0], b[1], b[2], b[3], b[4], b[5], b[6], b[7], tag);
    DisjointFlags(Match(Load(b), tag), MatchEmpty(Load(b)), k);
    EmptyFlags(b, k);
  }

  lemma LaneWidths()
    ensures BitWidth(0x80) == 8 && BitWidth(0x8000) == 16 && BitWidth(0x800000) == 24
    ensures BitWidth(0x80000000) == 32 && BitWidth(0x8000000000) == 40 && BitWidth(0x800000000000) == 48
    ensures BitWidth(0x80000000000000) == 56 && BitWidth(0x8000000000000000) == 64
  {
    assert BitWidth(0x2) == 2 && BitWidth(0x8) == 4;
    assert BitWidth(0x20) == 6 && BitWidth(0x80) == 8;
    assert BitWidth(0x200) == 10 && BitWidth(0x800) == 12;
    assert BitWidth(0x2000) == 14 && BitWidth(0x8000) == 16;
    assert BitWidth(0x20000) == 18 && BitWidth(0x80000) == 20;
    assert BitWidth(0x200000) == 22 && BitWidth(0x800000) == 24;
    assert BitWidth(0x2000000) == 26 && BitWidth(0x8000000) == 28;
    assert BitWidth(0x20000000) == 30 && BitWidth(0x80000000) == 32;
    assert BitWidth(0x200000000) == 34 && BitWidth(0x800000000) == 36;
    assert BitWidth(0x2000000000) == 38 && BitWidth(0x8000000000) == 40;
    assert BitWidth(0x20000000000) == 42 && BitWidth(0x80000000000) == 44;
    assert BitWidth(0x200000000000) == 46 && BitWidth(0x800000000000) == 48;
    assert BitWidth(0x2000000000000) == 50 && BitWidth(0x8000000000000) == 52;
    assert BitWidth(0x20000000000000) == 54 && BitWidth(0x80000000000000) == 56;
    assert BitWidth(0x200000000000000) == 58 && BitWidth(0x800000000000000) == 60;
    assert BitWidth(0x2000000000000000) == 62 && BitWidth(0x8000000000000000) == 64;
  }

  /** A flagged mask's lowest bit alone, and the mask without it. */
  lemma LowestBit(m: bv64)
    requires IsMask(m) && m != 0
    ensures m & 0x80 != 0 ==> m & (!m + 1) == 0x80
    ensures m & 0x80 == 0 && m & 0x8000 != 0 ==> m & (!m + 1) == 0x8000
    ensures m & 0x8080 == 0 && m & 0x800000 != 0 ==> m & (!m + 1) == 0x800000
    ensures m & 0x808080 == 0 && m & 0x80000000 != 0 ==> m & (!m + 1) == 0x80000000
    ensures m & 0x80808080 == 0 && m & 0x8000000000 != 0 ==> m & (!m + 1) == 0x8000000000
    ensures m & 0x8080808080 == 0 && m & 0x800000000000 != 0 ==> m & (!m + 1) == 0x800000000000
    ensures m & 0x808080808080 == 0 && m & 0x80000000000000 != 0 ==> m & (!m + 1) == 0x80000000000000
    ensures m & 0x80808080808080 == 0 && m & 0x8000000000000000 != 0 ==> m & (!m + 1) == 0x8000000000000000
    ensures m & (m - 1) == m & !(m & (!m + 1)) && m & (m - 1) < m
  {
  }

  /** Index finds a mask's lowest flag, and clearing the lowest bit clears that flag alone. */
  lemma LowestFlag(m: bv64)
    requires m != 0 && IsMask(m)
    ensures 0 <= Index(m) < WIDTH && Flags(m, Index(m))
    ensures forall j | 0 <= j < Index(m) :: !Flags(m, j)
    ensures m & (m - 1) < m && IsMask(m & (m - 1))
    ensures forall j | 0 <= j < WIDTH :: Flags(m & (m - 1), j) == (Flags(m, j) && j != Index(m))
  {
    LowestBit(m);
    LaneWidths();
  }

  /** The slots of a group that may hold `tag`: all that do, and no EMPTY one. */
  method TagMask(b: seq<bv8>, tag: bv8) returns (mask: bv64)
    requires |b| == WIDTH && tag < EMPTY
    ensures IsMask(mask)
    ensures forall k | 0 <= k < WIDTH :: b[k] == tag ==> Flags(mask, k)
    ensures forall k | 0 <= k < WIDTH :: Flags(mask, k) ==> b[k] < EMPTY
  {
    mask := Match(Load(b), tag);
    forall k | 0 <= k < WIDTH
      ensures b[k] == tag ==> Flags(mask, k)
      ensures Flags(mask, k) ==> b[k] < EMPTY
    {
      if b[k] == tag { TagFlags(b, k); }
      if Flags(mask, k) { FlaggedIsFull(b, tag, k); }
    }
  }

  /** The EMPTY slots of a group, exactly. */
  method EmptyMask(b: seq<bv8>) returns (mask: bv64)
    requires |b| == WIDTH
    ensures IsMask(mask)
    ensures forall k | 0 <= k < WIDTH :: Flags(mask, k) <==> b[k] >= EMPTY
    ensures mask == 0 <==> forall k | 0 <= k < WIDTH :: b[k] < EMPTY
  {
    mask := MatchEmpty(Load(b));
    forall k | 0 <= k < WIDTH
      ensures Flags(mask, k) <==> b[k] >= EMPTY
    {
      EmptyFlags(b, k);
    }
    if mask != 0 { LowestFlag(mask); }
  }

  /** The lowest flagged slot, and the flags above it. */
  method TakeLowest(mask: bv64) returns (k: nat, rest: bv64)
    requires mask != 0 && IsMask(mask)
    ensures k < WIDTH && Flags(mask, k) && forall j | 0 <= j < k :: !Flags(mask, j)
    ensures rest < mask && IsMask(rest)
    ensures forall j | 0 <= j < WIDTH :: Flags(rest, j) == (Flags(mask, j) && j != k)
  {
    LowestFlag(mask);
    k, rest := Index(mask), mask & (mask - 1);
  }
}
