/**
 LIKE as the engine runs it (src/exec/like.cc, Matches): segments without `_`, the general walk with
 it. For a pattern that is well-formed UTF-8 both are LIKE over characters, on every text, and for any
 other whose wildcards cut no character. On the rest each can err one way only: the walk may miss a
 text, the segments may accept one.
 */
module LikeMatcher {
  import opened Utf8
  import opened LikeMeaning
  import opened LikeGeneral
  import opened LikeSegments

  // ---- a match over characters is one over bytes ----

  /** `%` takes more bytes. */
  lemma {:induction false} PercentAbsorbs(p: Bytes, t: Bytes, n: nat)
    requires p != [] && p[0] == PERCENT && n <= |t| && LikeBytes(p, t[n..])
    ensures LikeBytes(p, t)
  {
    assert p == [PERCENT] + p[1..] && t[0..] == t;
    PercentBytes(p[1..], t, n);
    PercentBytes(p[1..], t, 0);
  }

  lemma {:induction false} LikeOverBytes(p: Bytes, t: Bytes)
    requires UNDERSCORE !in p && Like(p, t)
    ensures LikeBytes(p, t)
    decreases |p| + |t|
  {
    hide Step;
    if p == [] {
    } else if p[0] == PERCENT {
      if Like(p[1..], t) {
        LikeOverBytes(p[1..], t);
      } else {
        LikeOverBytes(p, t[Step(t)..]);
        PercentAbsorbs(p, t, Step(t));
      }
    } else {
      assert p[0] != UNDERSCORE;
      LikeOverBytes(p[1..], t[1..]);
    }
  }

  // ---- and the other way, unless a character is cut after a % ----

  predicate CutAt(p: Bytes, i: nat) {
    i + 1 < |p| && p[i] == PERCENT && Tail(p[i + 1])
  }

  /** A `%` right before a byte that can only go on a character. */
  predicate Cut(p: Bytes) {
    exists i: nat | i < |p| :: CutAt(p, i)
  }

  lemma {:induction false} CutRest(p: Bytes)
    requires p != [] && !Cut(p)
    ensures !Cut(p[1..]) && (p[0] == PERCENT && |p| > 1 ==> !Tail(p[1]))
  {
    forall i: nat | i < |p| - 1 ensures !CutAt(p[1..], i) { assert !CutAt(p, i + 1); }
    assert !CutAt(p, 0);
  }

  /** Where a `%` stops before a byte that starts a character, no character is cut. */
  lemma {:induction false} WholeCharacters(p: Bytes, t: Bytes, k: nat)
    requires p != [] && p[0] == PERCENT && !Cut(p) && 0 < k <= |t|
    requires LikeBytes(p[1..], t[k..]) && !LikeBytes(p[1..], t)
    ensures Step(t) <= k
  {
    if k < Step(t) {
      TailBytes(t, k);
      CutRest(p);
      if |p| > 1 && p[1] == PERCENT { PercentAbsorbs(p[1..], t, k); }
    }
  }

  /** What `%` does not stop at here, it stops at after the next character. */
  lemma {:induction false} PercentOverCharacters(p: Bytes, t: Bytes)
    requires p != [] && p[0] == PERCENT && !Cut(p) && LikeBytes(p, t) && !LikeBytes(p[1..], t)
    ensures t != [] && LikeBytes(p, t[Step(t)..])
  {
    hide LikeBytes;
    hide Cut;
    assert p == [PERCENT] + p[1..] && t[0..] == t;
    PercentBytes(p[1..], t, 0);
    var k: nat :| 0 <= k <= |t| && LikeBytes(p[1..], t[k..]);
    WholeCharacters(p, t, k);
    PercentBytes(p[1..], t, Step(t));
  }

  lemma {:induction false} LikeOverCharacters(p: Bytes, t: Bytes)
    requires !Cut(p) && UNDERSCORE !in p && LikeBytes(p, t)
    ensures Like(p, t)
    decreases |p| + |t|
  {
    hide Step;
    hide Cut;
    if p != [] {
      CutRest(p);
      if p[0] == PERCENT {
        if LikeBytes(p[1..], t) {
          LikeOverCharacters(p[1..], t);
        } else {
          PercentOverCharacters(p, t);
          LikeOverCharacters(p, t[Step(t)..]);
        }
      } else {
        assert p[0] != UNDERSCORE;
        LikeOverCharacters(p[1..], t[1..]);
      }
    }
  }

  /** A well-formed pattern cuts no character. */
  lemma {:induction false} WellFormedUncut(p: Bytes)
    requires WellFormed(p)
    ensures !Cut(p)
    decreases |p|
  {
    if p != [] {
      var n := CharLen(p);
      var rest := p[n..];
      WellFormedUncut(rest);
      forall i: nat | i < |p| ensures !CutAt(p, i) {
        if i >= n {
          assert !CutAt(rest, i - n);
        } else if i == 0 && p[0] == PERCENT {
          Ascii(p);
          if |p| > 1 { NoTailFirst(rest); }
        } else if i > 0 {
          TailBytes(p, i);
        }
      }
    }
  }

  lemma {:induction false} NoTailFirst(p: Bytes)
    requires p != [] && WellFormed(p)
    ensures !Tail(p[0])
  {
    if p[0] >= 0x80 { Leads(p); }
  }

  // ---- a cut pattern accepts a text that is not like it ----

  /** The literal bytes of a pattern. */
  function Literals(p: Bytes): Bytes {
    if p == [] then [] else if p[0] == PERCENT then Literals(p[1..]) else [p[0]] + Literals(p[1..])
  }

  lemma {:induction false} LiteralsMatch(p: Bytes)
    ensures LikeBytes(p, Literals(p))
  {
    if p != [] {
      LiteralsMatch(p[1..]);
      if p[0] != PERCENT { assert Literals(p)[1..] == Literals(p[1..]); }
    }
  }

  /** A pattern with a `%` at `i` matches its literals and one byte more there. */
  lemma {:induction false} OneByteMore(p: Bytes, i: nat, b: Byte)
    requires i < |p| && p[i] == PERCENT
    ensures LikeBytes(p, Literals(p[..i]) + [b] + Literals(p[i..]))
    decreases i
  {
    if i == 0 {
      assert p[..0] == [] && p[0..] == p;
      LiteralsMatch(p);
      assert ([b] + Literals(p))[1..] == Literals(p);
      assert Literals(p[..0]) + [b] + Literals(p[0..]) == [b] + Literals(p);
    } else {
      OneByteMore(p[1..], i - 1, b);
      assert p[1..][..i - 1] == p[..i][1..] && p[1..][i - 1..] == p[i..];
      var t := Literals(p[..i]) + [b] + Literals(p[i..]);
      if p[0] != PERCENT { assert t[1..] == Literals(p[1..][..i - 1]) + [b] + Literals(p[i..]); }
    }
  }

  /** The text without its byte at `k`. */
  function Without(t: Bytes, k: nat): Bytes
    requires k < |t|
  {
    t[..k] + t[k + 1..]
  }

  /** `t` is the literals of a pattern and one more byte that is a character. */
  ghost predicate OneMore(p: Bytes, t: Bytes) {
    exists k: nat :: k < |t| && Step(t[k..]) == 1 && Without(t, k) == Literals(p)
  }

  /** A text like a pattern has at least its literals; with one byte more, `%`s took one character of one byte. */
  lemma {:induction false} OneByteTaken(p: Bytes, t: Bytes)
    requires UNDERSCORE !in p && Like(p, t)
    ensures |t| >= |Literals(p)| && (|t| == |Literals(p)| ==> t == Literals(p))
    ensures |t| == |Literals(p)| + 1 ==> OneMore(p, t)
    decreases |p| + |t|
  {
    hide OneMore;
    hide Step;
    if p == [] {
    } else if p[0] == PERCENT {
      if Like(p[1..], t) {
        OneByteTaken(p[1..], t);
        SameLiterals(p, p[1..], t);
      } else {
        OneByteTaken(p, t[Step(t)..]);
        TakenHere(p, t);
      }
    } else {
      assert p[0] != UNDERSCORE;
      OneByteTaken(p[1..], t[1..]);
      assert t == [t[0]] + t[1..];
      TakenLater(p, t);
    }
  }

  lemma {:induction false} SameLiterals(p: Bytes, q: Bytes, t: Bytes)
    requires Literals(p) == Literals(q)
    ensures OneMore(p, t) <==> OneMore(q, t)
  {
  }

  lemma {:induction false} TakenHere(p: Bytes, t: Bytes)
    requires t != []
    ensures Step(t) == 1 && t[1..] == Literals(p) ==> OneMore(p, t)
  {
    assert t[0..] == t && Without(t, 0) == t[1..];
  }

  lemma {:induction false} TakenLater(p: Bytes, t: Bytes)
    requires p != [] && p[0] != PERCENT && t != [] && t[0] == p[0]
    ensures OneMore(p[1..], t[1..]) ==> OneMore(p, t)
  {
    hide Step;
    if OneMore(p[1..], t[1..]) {
      var k: nat :| k < |t| - 1 && Step(t[1..][k..]) == 1 && Without(t[1..], k) == Literals(p[1..]);
      assert t[1..][k..] == t[k + 1..] && Without(t, k + 1) == [t[0]] + Without(t[1..], k);
    }
  }

  /** Removing one of two places gives the same only over equal bytes. */
  lemma {:induction false} SameWithout(t: Bytes, j: nat, k: nat)
    requires j < |t| && k < |t| && Without(t, j) == Without(t, k)
    ensures k < j ==> t[j - 1] == t[j]
    ensures j < k ==> t[j] == t[j + 1]
  {
    if k < j {
      assert Without(t, j)[j - 1] == t[j - 1] && Without(t, k)[j - 1] == t[j];
    } else if j < k {
      assert Without(t, j)[j] == t[j + 1] && Without(t, k)[j] == t[j];
    }
  }

  /** The lead of a two-byte character, not the byte before it. */
  function LeadAfter(before: Bytes): Byte {
    if before != [] && before[|before| - 1] == 0xC2 then 0xC3 else 0xC2
  }

  /** A text a cut pattern without `_` matches over bytes and is not like. */
  lemma {:induction false} CutAccepts(p: Bytes) returns (t: Bytes)
    requires Cut(p) && UNDERSCORE !in p
    ensures LikeBytes(p, t) && !Like(p, t)
  {
    hide LikeBytes;
    hide Like;
    var i: nat :| i < |p| && CutAt(p, i);
    var before, after := Literals(p[..i]), Literals(p[i..]);
    var lead := LeadAfter(before);
    t := before + [lead] + after;
    OneByteMore(p, i, lead);
    LiteralsConcat(p[..i], p[i..]);
    assert p[..i] + p[i..] == p;
    CutFirst(p, i);
    var j := |before|;
    assert Without(t, j) == before + after && t[j] == lead && t[j + 1] == p[i + 1];
    TwoBytes(t[j..], lead);
    if j > 0 { assert t[j - 1] == before[j - 1]; }
    if Like(p, t) {
      OneByteTaken(p, t);
      var k: nat :| k < |t| && Step(t[k..]) == 1 && Without(t, k) == Literals(p);
      SameWithout(t, j, k);
      assert false;
    }
  }

  lemma {:induction false} LiteralsConcat(a: Bytes, b: Bytes)
    ensures Literals(a + b) == Literals(a) + Literals(b)
    decreases |a|
  {
    if a == [] {
      assert a + b == b && Literals(a) == [];
    } else {
      LiteralsTail(a, b, a + b);
    }
  }

  lemma {:induction false} LiteralsTail(a: Bytes, b: Bytes, all: Bytes)
    requires a != [] && all == a + b
    ensures Literals(all) == Literals(a) + Literals(b)
    decreases |a|, 0
  {
    hide Literals;
    LiteralsConcat(a[1..], b);
    assert all[0] == a[0] && all[1..] == a[1..] + b;
    LiteralsStep(a, a[1..]);
    LiteralsStep(all, a[1..] + b);
  }

  lemma {:induction false} LiteralsStep(p: Bytes, rest: Bytes)
    requires p != [] && rest == p[1..]
    ensures Literals(p) == (if p[0] == PERCENT then [] else [p[0]]) + Literals(rest)
  {
  }

  lemma {:induction false} CutFirst(p: Bytes, i: nat)
    requires CutAt(p, i)
    ensures var after := Literals(p[i..]); after != [] && after[0] == p[i + 1]
  {
    assert p[i..][0] == p[i] && p[i..][1..] == p[i + 1..] && p[i + 1..][0] == p[i + 1];
  }

  lemma {:induction false} TwoBytes(s: Bytes, lead: Byte)
    requires |s| >= 2 && s[0] == lead && (lead == 0xC2 || lead == 0xC3) && Tail(s[1])
    ensures Step(s) == 2
  {
    assert s[..2] == [s[0], s[1]];
    OneLength(s, 2);
  }

  /**
   Over bytes and over characters a pattern without `_` means the same, for every text, just when it is not cut after a
   `%`.
   */
  lemma {:induction false} SegmentsExact(p: Bytes)
    requires UNDERSCORE !in p
    ensures (forall t :: LikeBytes(p, t) <==> Like(p, t)) <==> !Cut(p)
  {
    hide LikeBytes;
    hide Like;
    if Cut(p) {
      var t := CutAccepts(p);
    } else {
      forall t ensures LikeBytes(p, t) <==> Like(p, t) {
        if Like(p, t) { LikeOverBytes(p, t); }
        if LikeBytes(p, t) { LikeOverCharacters(p, t); }
      }
    }
  }

  // % 82 % over the text U+20AC, three bytes.
  const CUT_MIDDLE: Bytes := [PERCENT, 0x82, PERCENT]
  const EURO: Bytes := [0xE2, 0x82, 0xAC]

  /** A cut pattern without `_` is accepted in the middle of a character it is not like. */
  lemma {:induction false} CutPatternAccepted()
    ensures !WellFormed(CUT_MIDDLE) && LikeBytes(CUT_MIDDLE, EURO) && !Like(CUT_MIDDLE, EURO)
  {
    var p, t := CUT_MIDDLE, EURO;
    assert CutAt(p, 0);
    if WellFormed(p) { WellFormedUncut(p); }
    assert p[1..][1..] == p[2..] == [PERCENT] && t[1..][1..] == t[2..] && t[2..][1..] == [] && p[2..][1..] == [];
    assert LikeBytes(p[2..], t[2..]);
    assert LikeBytes(p[1..], t[1..]);
    assert LikeBytes(p, t[1..]);
    assert t[..3] == t;
    OneLength(t, 3);
    assert t[3..] == [];
    assert !Like(p[1..], t) && !Like(p[1..], []);
  }

  // ---- the matcher ----

  /** LIKE on every text, for well-formed UTF-8 and for patterns that cut no character; else one error is ruled out. */
  method Matches(p: Bytes, t: Bytes) returns (yes: bool)
    ensures WellFormed(p) || (if UNDERSCORE in p then Settled(p) else !Cut(p)) ==> (yes <==> Like(p, t))
    ensures UNDERSCORE !in p ==> (yes <==> LikeBytes(p, t))
    ensures UNDERSCORE !in p ==> (Like(p, t) ==> yes)
    ensures UNDERSCORE in p ==> (yes ==> Like(p, t))
  {
    hide Like;
    hide LikeBytes;
    hide Cut;
    hide Settled;
    hide WellFormed;
    if UNDERSCORE in p {
      yes := MatchGeneral(p, t);
      GeneralIsSound(p, t);
      assert p[..0] == [] && p[0..] == p;
      if WellFormed(p) { WellFormedSettled(p, 0); }
      if Settled(p) { GeneralMeans(p, t); }
    } else {
      yes := MatchSegments(p, t);
      if WellFormed(p) { WellFormedUncut(p); }
      if yes && !Cut(p) { LikeOverCharacters(p, t); }
      if Like(p, t) { LikeOverBytes(p, t); }
    }
  }
}
