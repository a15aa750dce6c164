/**
 Matching a pattern without `_` by its literal segments (src/exec/like.cc, the constructor and
 MatchSegments): the text starts with the first, ends with the last and has the others leftmost in
 between. That is the meaning over bytes, and over characters when the pattern is well-formed UTF-8.
 */
module LikeSegments {
  import opened Options
  import opened Lists
  import opened Utf8
  import opened LikeMeaning

  // ---- the pieces of a pattern ----

  /** The parts between `%`s, empty ones too. */
  function Pieces(p: Bytes): (s: seq<Bytes>)
    ensures s != []
  {
    if p == [] then [[]]
    else if p[0] == PERCENT then [[]] + Pieces(p[1..])
    else [[p[0]] + Pieces(p[1..])[0]] + Pieces(p[1..])[1..]
  }

  function NonEmpty(s: seq<Bytes>): seq<Bytes> {
    if s == [] then [] else if s[0] == [] then NonEmpty(s[1..]) else [s[0]] + NonEmpty(s[1..])
  }

  /** The first piece ends at the first `%`. */
  lemma {:induction false} FirstPiece(p: Bytes, end: nat)
    requires end <= |p| && PERCENT !in p[..end] && (end < |p| ==> p[end] == PERCENT)
    ensures Pieces(p) == [p[..end]] + if end == |p| then [] else Pieces(p[end + 1..])
    decreases end
  {
    if end > 0 {
      assert p[0] == p[..end][0] && p[..end] == [p[0]] + p[1..][..end - 1];
      assert PERCENT !in p[1..][..end - 1];
      FirstPiece(p[1..], end - 1);
      if end < |p| { assert p[1..][end..] == p[end + 1..]; }
    } else if p != [] {
      assert p[..0] == [];
    }
  }

  method FindPercent(p: Bytes, start: nat) returns (end: nat)
    requires start <= |p|
    ensures start <= end <= |p| && PERCENT !in p[start..end] && (end < |p| ==> p[end] == PERCENT)
  {
    end := start;
    while end < |p| && p[end] != PERCENT
      invariant start <= end <= |p| && PERCENT !in p[start..end]
    {
      end := end + 1;
    }
  }

  lemma {:induction false} NonEmptyStep(s: seq<Bytes>, rest: seq<Bytes>)
    requires s != [] && rest == s[1..]
    ensures NonEmpty(s) == (if s[0] == [] then [] else [s[0]]) + NonEmpty(rest)
  {
  }

  lemma {:induction false} NonEmptyConcat(a: seq<Bytes>, b: seq<Bytes>)
    ensures NonEmpty(a + b) == NonEmpty(a) + NonEmpty(b)
    decreases |a|
  {
    if a == [] {
      assert a + b == b && NonEmpty(a) == [];
    } else {
      NonEmptyTail(a, b, a + b);
    }
  }

  lemma {:induction false} NonEmptyTail(a: seq<Bytes>, b: seq<Bytes>, all: seq<Bytes>)
    requires a != [] && all == a + b
    ensures NonEmpty(all) == NonEmpty(a) + NonEmpty(b)
    decreases |a|, 0
  {
    hide NonEmpty;
    NonEmptyConcat(a[1..], b);
    assert all[0] == a[0] && all[1..] == a[1..] + b;
    NonEmptyStep(a, a[1..]);
    NonEmptyStep(all, a[1..] + b);
  }

  /** The literal segments (the constructor). */
  method Segments(p: Bytes) returns (segments: seq<Bytes>)
    ensures segments == NonEmpty(Pieces(p))
  {
    segments := [];
    var start := 0;
    assert p[0..] == p;
    while start <= |p|
      invariant start <= |p| + 1
      invariant start <= |p| ==> segments + NonEmpty(Pieces(p[start..])) == NonEmpty(Pieces(p))
      invariant start == |p| + 1 ==> segments == NonEmpty(Pieces(p))
    {
      var end := FindPercent(p, start);
      NextPiece(p, start, end, segments);
      if end > start {
        segments := segments + [p[start..end]];
      }
      start := end + 1;
    }
  }

  lemma {:induction false} NextPiece(p: Bytes, start: nat, end: nat, segments: seq<Bytes>)
    requires start <= end <= |p| && PERCENT !in p[start..end] && (end < |p| ==> p[end] == PERCENT)
    ensures segments + NonEmpty(Pieces(p[start..]))
         == (if end > start then segments + [p[start..end]] else segments) + if end == |p| then []
             else NonEmpty(Pieces(p[end + 1..]))
  {
    var rest, n := p[start..], end - start;
    assert rest[..n] == p[start..end];
    FirstPiece(rest, n);
    var more := if end == |p| then [] else Pieces(p[end + 1..]);
    if end < |p| { assert rest[n + 1..] == p[end + 1..]; }
    NonEmptyConcat([rest[..n]], more);
    assert [rest[..n]][1..] == [];
    if end > start { Regroup(segments, [p[start..end]], NonEmpty(more)); }
  }

  // ---- what the pieces mean ----

  /** `piece` is in the text at `k`. */
  predicate At(piece: Bytes, t: Bytes, k: nat) {
    k + |piece| <= |t| && t[k..k + |piece|] == piece
  }

  /** The pieces after a `%` at `pos`: each after the one before, the last at the end of the text. */
  ghost predicate Rest(s: seq<Bytes>, t: Bytes, pos: nat)
    requires s != []
  {
    if |s| == 1 then pos + |s[0]| <= |t| && t[|t| - |s[0]|..] == s[0]
    else exists k: nat :: pos <= k && At(s[0], t, k) && Rest(s[1..], t, k + |s[0]|)
  }

  /** A literal in front of a pattern. */
  lemma {:induction false} LiteralFirst(q: Bytes, p: Bytes, t: Bytes, a: nat)
    requires a <= |t| && PERCENT !in q
    ensures LikeBytes(q + p, t[a..]) <==> At(q, t, a) && LikeBytes(p, t[a + |q|..])
    decreases |q|
  {
    if q == [] {
      assert q + p == p;
    } else {
      assert (q + p)[1..] == q[1..] + p && q[0] != PERCENT;
      if a < |t| {
        assert t[a..][1..] == t[a + 1..];
        LiteralFirst(q[1..], p, t, a + 1);
        if a + |q| <= |t| { assert t[a..a + |q|] == [t[a]] + t[a + 1..a + |q|] && q == [q[0]] + q[1..]; }
      }
    }
  }

  /** What `%` takes: any bytes. */
  lemma {:induction false} PercentBytes(p: Bytes, t: Bytes, a: nat)
    requires a <= |t|
    ensures LikeBytes([PERCENT] + p, t[a..]) <==> exists k: nat :: a <= k <= |t| && LikeBytes(p, t[k..])
    decreases |t| - a
  {
    var q := [PERCENT] + p;
    assert q[1..] == p;
    if a < |t| {
      assert t[a..][1..] == t[a + 1..];
      PercentBytes(p, t, a + 1);
    }
  }

  /** A last piece without `%` is at the end. */
  lemma {:induction false} LastPiece(q: Bytes, t: Bytes, pos: nat)
    requires pos <= |t| && PERCENT !in q
    ensures (exists k: nat :: pos <= k <= |t| && LikeBytes(q, t[k..])) <==> Rest([q], t, pos)
  {
    assert q + [] == q;
    forall k: nat | pos <= k <= |t| ensures LikeBytes(q, t[k..]) <==> k + |q| == |t| && t[k..] == q {
      LiteralFirst(q, [], t, k);
      if k + |q| == |t| { assert t[k..k + |q|] == t[k..] && t[k + |q|..] == []; }
    }
    if Rest([q], t, pos) { assert LikeBytes(q, t[|t| - |q|..]); }
  }

  /** A `%` in front of a pattern means its pieces in order. */
  lemma {:induction false} RestMeans(p: Bytes, t: Bytes, pos: nat)
    requires pos <= |t|
    ensures LikeBytes([PERCENT] + p, t[pos..]) <==> Rest(Pieces(p), t, pos)
    decreases |p|
  {
    hide LikeBytes;
    hide Pieces;
    hide Rest;
    var end := FirstPercent(p);
    FirstPiece(p, end);
    PercentBytes(p, t, pos);
    if end == |p| {
      assert p[..end] == p;
      assert [p] + [] == [p];
      LastPiece(p, t, pos);
    } else {
      var q, more := p[..end], p[end + 1..];
      assert p == q + ([PERCENT] + more);
      forall k: nat | pos <= k <= |t| ensures LikeBytes(p, t[k..]) <==> At(q, t, k) && Rest(Pieces(more), t, k + |q|) {
        LiteralFirst(q, [PERCENT] + more, t, k);
        if At(q, t, k) { RestMeans(more, t, k + |q|); }
      }
      RestStep(q, Pieces(more), t, pos);
    }
  }

  lemma {:induction false} RestStep(q: Bytes, rest: seq<Bytes>, t: Bytes, pos: nat)
    requires rest != []
    ensures Rest([q] + rest, t, pos)
      <==> exists k: nat :: pos <= k <= |t| && At(q, t, k) && Rest(rest, t, k + |q|)
  {
    var s := [q] + rest;
    assert s[0] == q && s[1..] == rest;
    if Rest(s, t, pos) {
      var k: nat :| pos <= k && At(s[0], t, k) && Rest(s[1..], t, k + |s[0]|);
      assert k <= |t| && At(q, t, k) && Rest(rest, t, k + |q|);
    }
    if k: nat :| pos <= k <= |t| && At(q, t, k) && Rest(rest, t, k + |q|) {
      assert At(s[0], t, k) && Rest(s[1..], t, k + |s[0]|);
    }
  }

  lemma {:induction false} FirstPercent(p: Bytes) returns (end: nat)
    ensures end <= |p| && PERCENT !in p[..end] && (end < |p| ==> p[end] == PERCENT)
  {
    if p == [] || p[0] == PERCENT {
      end := 0;
    } else {
      end := FirstPercent(p[1..]);
      end := end + 1;
      assert p[..end] == [p[0]] + p[1..][..end - 1];
    }
  }

  // ---- the pieces in the middle ----

  /** The pieces one after the other between `pos` and `end`. */
  ghost predicate Middle(s: seq<Bytes>, t: Bytes, pos: nat, end: nat) {
    if s == [] then pos <= end
    else exists k: nat :: pos <= k && At(s[0], t, k) && Middle(s[1..], t, k + |s[0]|, end)
  }

  /** What fits from one place fits from an earlier one. */
  lemma {:induction false} MiddleEarlier(s: seq<Bytes>, t: Bytes, pos: nat, sooner: nat, end: nat)
    requires sooner <= pos && Middle(s, t, pos, end)
    ensures Middle(s, t, sooner, end)
  {
  }

  lemma {:induction false} MiddleWithin(s: seq<Bytes>, t: Bytes, pos: nat, end: nat)
    requires Middle(s, t, pos, end)
    ensures pos <= end
  {
    if s != [] {
      var k: nat :| pos <= k && At(s[0], t, k) && Middle(s[1..], t, k + |s[0]|, end);
      MiddleWithin(s[1..], t, k + |s[0]|, end);
    }
  }

  /** The last piece at the end, the others in the middle. */
  lemma {:induction false} RestSplits(s: seq<Bytes>, t: Bytes, pos: nat)
    requires s != []
    ensures var last := s[|s| - 1];
      Rest(s, t, pos) <==> |last| <= |t| && t[|t| - |last|..] == last && Middle(s[..|s| - 1], t, pos, |t| - |last|)
  {
    var last, end := s[|s| - 1], |t| - |s[|s| - 1]|;
    if |s| == 1 {
      assert s[..0] == [];
    } else {
      var front := s[..|s| - 1];
      assert front[0] == s[0] && front[1..] == s[1..][..|s| - 2] && s[1..][|s| - 2] == last;
      forall k: nat ensures Rest(s[1..], t, k) <==> |last| <= |t| && t[end..] == last && Middle(front[1..], t, k, end) {
        RestSplits(s[1..], t, k);
      }
    }
  }

  /** Empty pieces fit anywhere. */
  lemma {:induction false} MiddleNonEmpty(s: seq<Bytes>, t: Bytes, pos: nat, end: nat)
    requires end <= |t|
    ensures Middle(s, t, pos, end) <==> Middle(NonEmpty(s), t, pos, end)
  {
    if s != [] {
      forall k: nat
        ensures Middle(s[1..], t, k, end) <==> Middle(NonEmpty(s[1..]), t, k, end)
      {
        MiddleNonEmpty(s[1..], t, k, end);
      }
      if s[0] == [] {
        EmptyFits(s, t, pos, end);
      }
    }
  }

  lemma {:induction false} EmptyFits(s: seq<Bytes>, t: Bytes, pos: nat, end: nat)
    requires s != [] && s[0] == [] && end <= |t|
    ensures Middle(s, t, pos, end) <==> Middle(s[1..], t, pos, end)
  {
    if Middle(s, t, pos, end) {
      var k: nat :| pos <= k && At(s[0], t, k) && Middle(s[1..], t, k + |s[0]|, end);
      MiddleEarlier(s[1..], t, k, pos, end);
    }
    if Middle(s[1..], t, pos, end) {
      MiddleWithin(s[1..], t, pos, end);
      assert At(s[0], t, pos);
    }
  }

  /** The leftmost place of a segment in the first `end` bytes, from `pos` on. */
  method Find(t: Bytes, end: nat, segment: Bytes, pos: nat) returns (found: Option<nat>)
    requires pos <= end <= |t|
    ensures found.Some? ==> pos <= found.value && found.value + |segment| <= end && At(segment, t, found.value)
    ensures forall k: nat | pos <= k && k + |segment| <= end && At(segment, t, k) :: found.Some? && found.value <= k
  {
    var k := pos;
    while k + |segment| <= end
      invariant pos <= k
      invariant forall j: nat | pos <= j < k && j + |segment| <= end :: !At(segment, t, j)
    {
      if t[k..k + |segment|] == segment {
        return Some(k);
      }
      k := k + 1;
    }
    found := None;
  }

  /** The leftmost place leaves the most room. */
  lemma {:induction false} Leftmost(s: seq<Bytes>, t: Bytes, pos: nat, end: nat, found: Option<nat>)
    requires s != [] && pos <= end <= |t|
    requires found.Some? ==> pos <= found.value && found.value + |s[0]| <= end && At(s[0], t, found.value)
    requires forall k: nat | pos <= k && k + |s[0]| <= end && At(s[0], t, k) :: found.Some? && found.value <= k
    ensures Middle(s, t, pos, end) <==> found.Some? && Middle(s[1..], t, found.value + |s[0]|, end)
  {
    if Middle(s, t, pos, end) {
      var k: nat :| pos <= k && At(s[0], t, k) && Middle(s[1..], t, k + |s[0]|, end);
      MiddleWithin(s[1..], t, k + |s[0]|, end);
      MiddleEarlier(s[1..], t, k + |s[0]|, found.value + |s[0]|, end);
    }
  }

  /** Finds the segments in order. */
  method FindAll(segments: seq<Bytes>, t: Bytes, start: nat, end: nat) returns (yes: bool)
    requires start <= end <= |t|
    ensures yes <==> Middle(segments, t, start, end)
  {
    var pos: nat := start;
    assert segments[0..] == segments;
    for i := 0 to |segments|
      invariant pos <= end
      invariant Middle(segments, t, start, end) <==> Middle(segments[i..], t, pos, end)
    {
      var found := Find(t, end, segments[i], pos);
      assert segments[i..][0] == segments[i] && segments[i..][1..] == segments[i + 1..];
      Leftmost(segments[i..], t, pos, end, found);
      if found.None? {
        return false;
      }
      pos := found.value + |segments[i]|;
    }
    yes := true;
  }

  // ---- matching ----

  lemma {:induction false} NoPercent(p: Bytes, t: Bytes)
    requires PERCENT !in p
    ensures LikeBytes(p, t) <==> t == p
  {
    assert p + [] == p && t[0..] == t;
    LiteralFirst(p, [], t, 0);
    if |p| == |t| { assert t[0..|p|] == t && t[|p|..] == []; }
    if At(p, t, 0) && t[|p|..] == [] { assert t == t[0..|p|]; }
  }

  /** The pieces of a pattern with a `%`: the first at the start, the last at the end, the others in the middle. */
  lemma {:induction false} PiecesMean(p: Bytes, t: Bytes)
    requires PERCENT in p
    ensures var s := Pieces(p); var n := |s|;
      && n >= 2 && (s[0] == [] <==> p[0] == PERCENT) && (s[n - 1] == [] <==> p[|p| - 1] == PERCENT)
      && (LikeBytes(p, t) <==>
            && At(s[0], t, 0) && |s[n - 1]| <= |t| && t[|t| - |s[n - 1]|..] == s[n - 1]
            && Middle(s[1..n - 1], t, |s[0]|, |t| - |s[n - 1]|))
  {
    hide LikeBytes;
    hide Middle;
    hide Rest;
    hide Pieces;
    var end := FirstPercent(p);
    assert p[..|p|] == p;
    FirstPiece(p, end);
    PercentMeans(p, t, end);
    var more, s := Pieces(p[end + 1..]), Pieces(p);
    assert s[1..] == more && s[1..][..|s| - 2] == s[1..|s| - 1];
    LastIsEmpty(p[end + 1..]);
    RestSplits(more, t, end);
  }

  /** A pattern around its first `%`. */
  lemma {:induction false} PercentMeans(p: Bytes, t: Bytes, end: nat)
    requires end < |p| && PERCENT !in p[..end] && p[end] == PERCENT
    ensures LikeBytes(p, t) <==> At(p[..end], t, 0) && Rest(Pieces(p[end + 1..]), t, end)
  {
    hide LikeBytes;
    hide Rest;
    hide Pieces;
    var q, more := p[..end], p[end + 1..];
    assert p == q + ([PERCENT] + more) && t[0..] == t;
    LiteralFirst(q, [PERCENT] + more, t, 0);
    if At(q, t, 0) { RestMeans(more, t, end); }
  }

  lemma {:induction false} LastIsEmpty(p: Bytes)
    ensures var s := Pieces(p); s[|s| - 1] == [] <==> p == [] || p[|p| - 1] == PERCENT
  {
    if p != [] {
      LastIsEmpty(p[1..]);
      if |p| == 1 { assert p[1..] == []; }
    }
  }

  /** The segments are the first piece, the middle ones and the last, without the empty ones. */
  lemma {:induction false} SegmentsSplit(s: seq<Bytes>)
    requires |s| >= 2
    ensures var n := |s|;
      NonEmpty(s) == (if s[0] == [] then [] else [s[0]]) + NonEmpty(s[1..n - 1]) + if s[n - 1] == [] then []
          else [s[n - 1]]
  {
    var n := |s|;
    assert s == [s[0]] + s[1..n - 1] + [s[n - 1]];
    NonEmptyConcat([s[0]] + s[1..n - 1], [s[n - 1]]);
    NonEmptyConcat([s[0]], s[1..n - 1]);
    ghost var none: seq<Bytes> := [];
    assert [s[0]][1..] == none && [s[n - 1]][1..] == none;
  }

  method MatchSegments(p: Bytes, t: Bytes) returns (yes: bool)
    ensures yes <==> LikeBytes(p, t)
  {
    hide LikeBytes;
    hide Middle;
    hide NonEmpty;
    if PERCENT !in p {
      NoPercent(p, t);
      return t == p;
    }
    PiecesMean(p, t);
    var segments := Segments(p);
    ghost var s := Pieces(p);
    ghost var n := |s|;
    SegmentsSplit(s);
    var first, last := 0, |segments|;
    var pos, end := 0, |t|;
    if p[0] != PERCENT {
      if |segments[0]| > |t| || t[..|segments[0]|] != segments[0] {
        return false;
      }
      pos := |segments[0]|;
      first := 1;
    }
    if p[|p| - 1] != PERCENT {
      var suffix := segments[|segments| - 1];
      if |suffix| > |t| - pos || t[|t| - |suffix|..] != suffix {
        TooLong(s[1..n - 1], t, pos, |suffix|);
        return false;
      }
      end := |t| - |suffix|;
      last := |segments| - 1;
    }
    assert segments[first..last] == NonEmpty(s[1..n - 1]);
    MiddleNonEmpty(s[1..n - 1], t, pos, end);
    yes := FindAll(segments[first..last], t, pos, end);
  }

  lemma {:induction false} TooLong(s: seq<Bytes>, t: Bytes, pos: nat, n: nat)
    ensures n <= |t| && Middle(s, t, pos, |t| - n) ==> n <= |t| - pos
  {
    if n <= |t| && Middle(s, t, pos, |t| - n) { MiddleWithin(s, t, pos, |t| - n); }
  }
}
