/**
 Matching any pattern, going back to the last `%` alone (src/exec/like.cc, MatchGeneral). It gives the
 meaning for every text when the pattern is well-formed UTF-8 from its first `%` on, and more generally
 when no character that a wildcard cuts short can go on after it; other patterns can miss a text.
 */
module LikeGeneral {
  import opened Options
  import opened Utf8
  import opened LikeMeaning

  // ---- patterns that cut no character apart ----

  /** Bytes that begin a longer character and do not end it. */
  predicate Unfinished(c: Bytes) {
    || (|c| == 1 && 0xC2 <= c[0] <= 0xF4)
    || (2 <= |c| <= 3 && (Table(c + [0x80]) || Table(c + [0x80, 0x80])))
  }

  /** They are the beginnings of the sequences in the table. */
  lemma {:induction false} UnfinishedMeans(c: Bytes)
    ensures Unfinished(c) <==> c != [] && exists s: Bytes :: Table(s) && |c| < |s| && c == s[..|c|]
  {
    if Unfinished(c) {
      var s := Completed(c);
      assert Table(s) && c == s[..|c|];
    }
    if c != [] && exists s: Bytes :: Table(s) && |c| < |s| && c == s[..|c|] {
      var s: Bytes :| Table(s) && |c| < |s| && c == s[..|c|];
      Beginning(s, |c|);
    }
  }

  /** A sequence that begins with unfinished bytes. */
  function Completed(c: Bytes): (s: Bytes)
    requires Unfinished(c)
    ensures Table(s) && |c| < |s| && c == s[..|c|]
  {
    if |c| == 1 then
      if c[0] <= 0xDF then c + [0x80]
      else if c[0] <= 0xEF then c + [if c[0] == 0xE0 then 0xA0 else 0x80, 0x80]
      else c + [if c[0] == 0xF0 then 0x90 else 0x80, 0x80, 0x80]
    else if Table(c + [0x80]) then c + [0x80]
    else c + [0x80, 0x80]
  }

  lemma {:induction false} Beginning(s: Bytes, k: nat)
    requires Table(s) && 0 < k < |s|
    ensures Unfinished(s[..k])
  {
    var c := s[..k];
    if k > 1 {
      assert Table(c + if |s| - k == 1 then [0x80] else [0x80, 0x80]);
    }
  }

  /** Nothing but `%`s is left from `at` on, or the first other byte is no `_` and no tail. */
  predicate Fresh(p: Bytes, at: nat)
    decreases |p| - at
  {
    at >= |p| || if p[at] == PERCENT then Fresh(p, at + 1) else p[at] != UNDERSCORE && !Tail(p[at])
  }

  /** The bytes before `at`, from `from` or some place after it, are unfinished. */
  ghost predicate Open(p: Bytes, from: nat, at: nat) {
    exists i: nat :: from <= i < at <= |p| && Unfinished(p[i..at])
  }

  /**
   Whenever unfinished bytes after the first `%` are followed by a wildcard, the next byte other than `%` is no `_`
   and no tail.
   */
  ghost predicate Settled(p: Bytes) {
    forall s: nat, at: nat | s < at < |p| && p[s] == PERCENT && (p[at] == PERCENT || p[at] == UNDERSCORE) ::
      Open(p, s + 1, at) ==> Fresh(p, at + 1)
  }

  // ---- two attempts at a part ----

  /** From `v` on, every byte that is no tail is at `u` or later. */
  ghost predicate Behind(t: Bytes, u: nat, v: nat) {
    forall z: nat | v <= z < u && z < |t| :: Tail(t[z])
  }

  /** Finished bytes read at two places, the second met by characters from the first: it is met after them too. */
  lemma {:induction false} BytesRead(p: Bytes, i: nat, at: nat, t: Bytes, u: nat, v: nat)
    requires i <= at <= |p| && Reaches(t, u, v) && v + (at - i) <= |t|
    requires t[v..v + (at - i)] == p[i..at] && !Open(p, i, at)
    ensures Reaches(t, u + (at - i), v + (at - i))
  {
    hide Step;
    hide Unfinished;
    var n := at - i;
    forall y: nat | u + n <= y < v + n ensures y + Step(t[y..]) <= v + n {
      if v <= y && v + n < y + Step(t[y..]) { CutThere(p, i, at, t, v, y); }
    }
  }

  /** Bytes read that end inside a character are open. */
  lemma {:induction false} CutThere(p: Bytes, i: nat, at: nat, t: Bytes, v: nat, y: nat)
    requires i <= at <= |p| && v <= y < v + (at - i) < |t| && v + (at - i) < y + Step(t[y..])
    requires t[v..v + (at - i)] == p[i..at]
    ensures Open(p, i, at)
  {
    hide Unfinished;
    var z, n := v + (at - i), CharLen(t[y..]);
    Beginning(t[y..][..n], z - y);
    assert t[y..][..n][..z - y] == t[y..z] == t[v..z][y - v..] == p[i..at][y - v..] == p[i + (y - v)..at];
  }

  /** One character more at both places. */
  lemma {:induction false} OneMore(t: Bytes, u: nat, v: nat)
    requires u <= v < |t|
    ensures var u', v' := u + Step(t[u..]), v + Step(t[v..]);
      Behind(t, u', v') && (Reaches(t, u, v) ==> Reaches(t, u', v'))
  {
    hide Step;
    var u', v' := u + Step(t[u..]), v + Step(t[v..]);
    forall z: nat | v' <= z < u' && z < |t| ensures Tail(t[z]) { Inside(t, u, z); }
    if Reaches(t, u, v) && u < v {
      forall y: nat | u' <= y < v' ensures y + Step(t[y..]) <= v' {
        if y > v { Inside(t, v, y); }
      }
    }
  }

  lemma {:induction false} PartNext(p: Bytes, j: nat, at: nat, t: Bytes, a: nat)
    requires j < at <= |p| && a <= |t| && PartEnd(p[j..at], t, a).Some?
    ensures a < |t| && PartEnd(p[j..at], t, a) ==
      PartEnd(p[j + 1..at], t, a + if p[j] == UNDERSCORE then Step(t[a..]) else 1)
    ensures p[j] != UNDERSCORE ==> t[a] == p[j]
  {
    assert p[j..at][1..] == p[j + 1..at];
  }

  /**
   A part read at two places, the second met by characters from the first. The second end is met from the first
   one too, unless the part leaves a character unfinished; even then no byte but tails is between them.
   */
  lemma {:induction false} Ordered(p: Bytes, s: nat, i: nat, at: nat, t: Bytes, u: nat, v: nat)
    requires Settled(p) && s < i <= at <= |p| && p[s] == PERCENT && PERCENT !in p[i..at] && Reaches(t, u, v)
    requires PartEnd(p[i..at], t, u).Some? && PartEnd(p[i..at], t, v).Some?
    ensures var x, y := PartEnd(p[i..at], t, u).value, PartEnd(p[i..at], t, v).value;
      && Behind(t, x, y) && (x <= y || Fresh(p, at))
      && (Reaches(t, x, y) || Fresh(p, at) || Open(p, s + 1, at))
    decreases at - i
  {
    hide PartEnd;
    hide Step;
    hide Reaches;
    hide Open;
    hide Settled;
    var j := FirstUnderscore(p, i, at);
    var c := p[i..j];
    assert p[i..at] == c + p[j..at];
    LiteralEnd(c, p[j..at], t, u);
    LiteralEnd(c, p[j..at], t, v);
    var x, y := u + |c|, v + |c|;
    ReachesOrder(t, u, v);
    OpenFrom(p, s + 1, i, j);
    if !Open(p, i, j) { BytesRead(p, i, j, t, u, v); }
    if j == at {
      assert p[j..at] == [];
      PartNone(t, x);
      PartNone(t, y);
    } else {
      PartNext(p, j, at, t, x);
      PartNext(p, j, at, t, y);
      OneMore(t, x, y);
      var x', y' := x + Step(t[x..]), y + Step(t[y..]);
      assert p[i..at][j + 1 - i..] == p[j + 1..at];
      AfterUnderscore(p, s, i, j, at, t, x', y');
      if Reaches(t, x', y') {
        Ordered(p, s, j + 1, at, t, x', y');
      } else {
        assert p[j + 1..at] == [];
        PartNone(t, x');
        PartNone(t, y');
      }
    }
  }

  /** Both attempts are past a `_`: the second is met again, or a part with an unfinished character ends here. */
  lemma {:induction false} AfterUnderscore(p: Bytes, s: nat, i: nat, j: nat, at: nat, t: Bytes, u: nat, v: nat)
    requires Settled(p) && s < i <= j < at <= |p| && p[s] == PERCENT && p[j] == UNDERSCORE
    requires PERCENT !in p[j + 1..at] && u <= |t| && v <= |t| && PartEnd(p[j + 1..at], t, v).Some?
    requires Behind(t, u, v) && (Open(p, i, j) || Reaches(t, u, v))
    ensures Reaches(t, u, v) || (j + 1 == at && Fresh(p, at))
  {
    hide PartEnd;
    hide Step;
    hide Reaches;
    hide Open;
    if Open(p, i, j) {
      OpenFrom(p, s + 1, i, j);
      assert Fresh(p, j + 1);
      if j + 1 < at {
        assert p[j + 1..at][0] == p[j + 1];
        PartNext(p, j + 1, at, t, v);
        ReachesLead(t, u, v);
      }
    }
  }

  lemma {:induction false} FirstUnderscore(p: Bytes, i: nat, at: nat) returns (j: nat)
    requires i <= at <= |p|
    ensures i <= j <= at && UNDERSCORE !in p[i..j] && (j < at ==> p[j] == UNDERSCORE)
  {
    j := i;
    while j < at && p[j] != UNDERSCORE
      invariant i <= j <= at && UNDERSCORE !in p[i..j]
    {
      assert p[i..j + 1] == p[i..j] + [p[j]];
      j := j + 1;
    }
  }

  lemma {:induction false} ReachesOrder(t: Bytes, u: nat, v: nat)
    requires Reaches(t, u, v)
    ensures u <= v <= |t|
  {
  }

  lemma {:induction false} OpenFrom(p: Bytes, from: nat, i: nat, at: nat)
    requires from <= i
    ensures Open(p, i, at) ==> Open(p, from, at)
  {
  }

  // ---- dropping a `%` ----

  lemma {:induction false} PercentSkips(p: Bytes, t: Bytes)
    requires p != [] && p[0] == PERCENT && Like(p[1..], t)
    ensures Like(p, t)
  {
  }

  /** What `%` can go on with from a place, it can from any place that is met before. */
  lemma {:induction false} PercentFrom(p: Bytes, t: Bytes, u: nat, v: nat)
    requires p != [] && p[0] == PERCENT && Reaches(t, u, v) && Like(p, t[v..])
    ensures Like(p, t[u..])
  {
    var k := ReachesAfter(t, u, v);
    PercentTakes(p, t, u, k);
  }

  /** Before a byte that is no tail, from any place it is not past. */
  lemma {:induction false} PercentAnywhere(p: Bytes, at: nat, t: Bytes, u: nat, v: nat)
    requires at < |p| && p[at] == PERCENT && Fresh(p, at) && u <= |t| && v <= |t| && Behind(t, u, v)
    requires Like(p[at..], t[v..])
    ensures Like(p[at..], t[u..])
    decreases |p| - at
  {
    hide Like;
    hide After;
    hide Step;
    assert p[at..][1..] == p[at + 1..];
    var k := PercentTook(p[at..], t, v);
    var z := After(t, v, k);
    if at + 1 < |p| && p[at + 1] == PERCENT {
      PercentAnywhere(p, at + 1, t, u, z);
      PercentSkips(p[at..], t[u..]);
    } else {
      LikeFirst(p, at + 1, t, z);
      ReachesLead(t, u, z);
      PercentSkips(p[at..], t[z..]);
      PercentFrom(p[at..], t, u, z);
    }
  }

  lemma {:induction false} LikeFirst(p: Bytes, at: nat, t: Bytes, z: nat)
    requires at <= |p| && z <= |t| && Like(p[at..], t[z..]) && (at < |p| ==> p[at] != PERCENT && p[at] != UNDERSCORE)
    ensures if at == |p| then z == |t| else z < |t| && t[z] == p[at]
  {
  }

  /** Once the part after a `%` has matched up to the next `%`, only that one needs trying. */
  lemma {:induction false} LastPercent(p: Bytes, star: nat, next: nat, t: Bytes, a: nat, b: nat)
    requires Settled(p) && star < next < |p| && p[star] == PERCENT == p[next] && PERCENT !in p[star + 1..next]
    requires a <= |t| && PartEnd(p[star + 1..next], t, a) == Some(b)
    ensures Like(p[star..], t[a..]) <==> Like(p[next..], t[b..])
  {
    hide Like;
    hide PartEnd;
    hide After;
    hide Reaches;
    hide Behind;
    hide Open;
    var q, rest := p[star + 1..next], p[next..];
    assert p[star..][1..] == q + rest;
    if Like(p[star..], t[a..]) {
      var j := PercentTook(p[star..], t, a);
      var a' := After(t, a, j);
      AfterReaches(t, a, j);
      PartLike(q, rest, t, a');
      Ordered(p, star, star + 1, next, t, a, a');
      var b' := PartEnd(q, t, a').value;
      if Reaches(t, b, b') { PercentFrom(rest, t, b, b'); } else { PercentAnywhere(p, next, t, b, b'); }
    }
    if Like(rest, t[b..]) {
      PartLike(q, rest, t, a);
      PercentSkips(p[star..], t[a..]);
    }
  }

  // ---- the walk ----

  /** The whole match comes down to trying the pattern from the last `%` on, and that attempt to the rest. */
  ghost predicate Stands(p: Bytes, t: Bytes, at: nat, pos: nat, star: Option<nat>, from: nat) {
    && at <= |p| && pos <= |t| && from <= pos
    && match star
       case None => from == 0 && PERCENT !in p[..at] && PartEnd(p[..at], t, 0) == Some(pos)
           && (Like(p, t) <==> Like(p[at..], t[pos..]))
       case Some(s) =>
         && s < at && p[s] == PERCENT && PERCENT !in p[s + 1..at] && PartEnd(p[s + 1..at], t, from) == Some(pos)
         && (Like(p, t) <==> Like(p[s..], t[from..]))
  }

  /** A `%` is met. */
  lemma {:induction false} MeetPercent(p: Bytes, t: Bytes, at: nat, pos: nat, star: Option<nat>, from: nat)
    requires Settled(p) && Stands(p, t, at, pos, star, from) && at < |p| && p[at] == PERCENT
    ensures Stands(p, t, at + 1, pos, Some(at), pos)
  {
    hide Like;
    hide Settled;
    if star.Some? { LastPercent(p, star.value, at, t, from, pos); }
    assert p[at + 1..at + 1] == [];
  }

  lemma {:induction false} OneByte(p: Bytes, i: nat, at: nat)
    requires i <= at < |p|
    ensures p[i..at + 1] == p[i..at] + [p[at]] && p[at..] == [p[at]] + p[at + 1..] && p[..at] == p[0..at]
    ensures p[..at + 1] == p[0..at + 1]
  {
  }

  /** One more byte of the pattern matches. */
  lemma {:induction false} MatchOne(p: Bytes, t: Bytes, at: nat, pos: nat, star: Option<nat>, from: nat, next: nat)
    requires Stands(p, t, at, pos, star, from) && at < |p| && pos < |t| && p[at] != PERCENT
    requires if p[at] == UNDERSCORE then next == pos + Step(t[pos..]) else p[at] == t[pos] && next == pos + 1
    ensures Stands(p, t, at + 1, next, star, from)
  {
    hide Step;
    hide CharLen;
    hide Like;
    assert PartEnd([p[at]], t, pos) == Some(next) by { assert [p[at]][1..] == []; }
    match star
    case None =>
      OneByte(p, 0, at);
      PartEndConcat(p[..at], p[at], t, 0);
      PartLike([p[at]], p[at + 1..], t, pos);
    case Some(s) =>
      OneByte(p, s + 1, at);
      PartEndConcat(p[s + 1..at], p[at], t, from);
  }

  /** The attempt fails: the `%` takes one more character. */
  lemma {:induction false} TakeOneMore(p: Bytes, t: Bytes, at: nat, pos: nat, s: nat, from: nat)
    requires Stands(p, t, at, pos, Some(s), from) && pos < |t|
    requires at == |p| || (p[at] != PERCENT && p[at] != UNDERSCORE && p[at] != t[pos])
    ensures from + Step(t[from..]) <= |t|
    ensures Stands(p, t, s + 1, from + Step(t[from..]), Some(s), from + Step(t[from..]))
  {
    var n := Step(t[from..]);
    assert p[s..][1..] == p[s + 1..] == p[s + 1..at] + p[at..];
    PartLike(p[s + 1..at], p[at..], t, from);
    assert !Like(p[at..], t[pos..]);
    assert t[from..][n..] == t[from + n..];
    assert p[s + 1..s + 1] == [];
  }

  /** Only `%`s are left of a pattern. */
  predicate PercentsLeft(p: Bytes, at: nat) {
    forall i | at <= i < |p| :: p[i] == PERCENT
  }

  /** The walk from a place in the pattern and one in the text; `star`: the last `%` met, tried from `from` on. */
  function Walk(p: Bytes, t: Bytes, at: nat, pos: nat, star: Option<nat>, from: nat): bool
    requires at <= |p| && pos <= |t| && from <= pos && (star.Some? ==> star.value < at)
    decreases |t| - from, |p| - at
  {
    if pos == |t| then PercentsLeft(p, at)
    else if at < |p| && p[at] == PERCENT then Walk(p, t, at + 1, pos, Some(at), pos)
    else if at < |p| && p[at] == UNDERSCORE then Walk(p, t, at + 1, pos + Step(t[pos..]), star, from)
    else if at < |p| && p[at] == t[pos] then Walk(p, t, at + 1, pos + 1, star, from)
    else if star.Some? then var next := from + Step(t[from..]); Walk(p, t, star.value + 1, next, star, next)
    else false
  }

  /** For a settled pattern the walk gives the meaning. */
  lemma {:induction false} WalkMeans(p: Bytes, t: Bytes, at: nat, pos: nat, star: Option<nat>, from: nat)
    requires Settled(p) && Stands(p, t, at, pos, star, from)
    ensures at <= |p| && pos <= |t| && from <= pos && (star.Some? ==> star.value < at)
    ensures Walk(p, t, at, pos, star, from) == Like(p, t)
    decreases |t| - from, |p| - at
  {
    hide Like;
    hide PartEnd;
    hide Step;
    hide Settled;
    if pos == |t| {
      var end := FirstOther(p, at);
      AtEnd(p, t, at, star, from, end);
    } else if at < |p| && p[at] == PERCENT {
      MeetPercent(p, t, at, pos, star, from);
      WalkMeans(p, t, at + 1, pos, Some(at), pos);
    } else if at < |p| && p[at] == UNDERSCORE {
      MatchOne(p, t, at, pos, star, from, pos + Step(t[pos..]));
      WalkMeans(p, t, at + 1, pos + Step(t[pos..]), star, from);
    } else if at < |p| && p[at] == t[pos] {
      MatchOne(p, t, at, pos, star, from, pos + 1);
      WalkMeans(p, t, at + 1, pos + 1, star, from);
    } else if star.Some? {
      TakeOneMore(p, t, at, pos, star.value, from);
      var next := from + Step(t[from..]);
      WalkMeans(p, t, star.value + 1, next, star, next);
    } else {
      NoMatch(p, t, at, pos, from);
    }
  }

  /** For any pattern, what the walk accepts from a place is like the pattern from there, or from the last `%` on. */
  lemma {:induction false} WalkIsSound(p: Bytes, t: Bytes, at: nat, pos: nat, star: Option<nat>, from: nat)
    requires at <= |p| && pos <= |t| && from <= pos && (star.Some? ==> star.value < at && p[star.value] == PERCENT)
    requires Walk(p, t, at, pos, star, from)
    ensures Like(p[at..], t[pos..]) || (star.Some? && Like(p[star.value..], t[from..]))
    decreases |t| - from, |p| - at
  {
    hide Step;
    if pos == |t| {
      PercentsAlone(p, at);
    } else {
      var n := Step(t[pos..]);
      assert t[pos..][n..] == t[pos + n..] && t[pos..][1..] == t[pos + 1..];
      if at < |p| { assert p[at..][1..] == p[at + 1..]; }
      if at < |p| && p[at] == PERCENT {
        WalkIsSound(p, t, at + 1, pos, Some(at), pos);
      } else if at < |p| && p[at] == UNDERSCORE {
        WalkIsSound(p, t, at + 1, pos + n, star, from);
      } else if at < |p| && p[at] == t[pos] {
        WalkIsSound(p, t, at + 1, pos + 1, star, from);
      } else {
        var s, next := star.value, from + Step(t[from..]);
        assert p[s..][1..] == p[s + 1..] && t[from..][Step(t[from..])..] == t[next..];
        WalkIsSound(p, t, s + 1, next, star, next);
      }
    }
  }

  lemma {:induction false} PercentsAlone(p: Bytes, at: nat)
    requires at <= |p| && PercentsLeft(p, at)
    ensures Like(p[at..], [])
    decreases |p| - at
  {
    if at < |p| {
      PercentsAlone(p, at + 1);
      assert p[at..][1..] == p[at + 1..];
    }
  }

  lemma {:induction false} FirstOther(p: Bytes, at: nat) returns (end: nat)
    requires at <= |p|
    ensures at <= end <= |p| && (forall i | at <= i < end :: p[i] == PERCENT) && (end < |p| ==> p[end] != PERCENT)
    ensures end == |p| <==> PercentsLeft(p, at)
  {
    end := at;
    while end < |p| && p[end] == PERCENT
      invariant at <= end <= |p| && forall i | at <= i < end :: p[i] == PERCENT
    {
      end := end + 1;
    }
  }

  /** Any pattern, going back to the last `%` alone. */
  method MatchGeneral(p: Bytes, t: Bytes) returns (yes: bool)
    ensures yes == Walk(p, t, 0, 0, None, 0)
  {
    hide Step;
    var at: nat, pos: nat, from: nat := 0, 0, 0;
    var star: Option<nat> := None;
    while pos < |t|
      invariant at <= |p| && pos <= |t| && from <= pos && (star.Some? ==> star.value < at)
      invariant Walk(p, t, 0, 0, None, 0) == Walk(p, t, at, pos, star, from)
      decreases |t| - from, |p| - at
    {
      if at < |p| && p[at] == PERCENT {
        star := Some(at);
        at := at + 1;
        from := pos;
      } else if at < |p| && p[at] == UNDERSCORE {
        var n := CharLength(t, pos);
        pos, at := pos + n, at + 1;
      } else if at < |p| && p[at] == t[pos] {
        pos, at := pos + 1, at + 1;
      } else if star.Some? {
        var n := CharLength(t, from);
        from := from + n;
        pos := from;
        at := star.value + 1;
      } else {
        return false;
      }
    }
    ghost var left := at;
    while at < |p| && p[at] == PERCENT
      invariant left <= at <= |p| && forall i | left <= i < at :: p[i] == PERCENT
    {
      at := at + 1;
    }
    yes := at == |p|;
  }

  /** For a settled pattern, any text matches just when it is like the pattern. */
  lemma {:induction false} GeneralMeans(p: Bytes, t: Bytes)
    requires Settled(p)
    ensures Walk(p, t, 0, 0, None, 0) <==> Like(p, t)
  {
    StandsAtStart(p, t);
    WalkMeans(p, t, 0, 0, None, 0);
  }

  /** For any pattern at all, the walk accepts only texts that are like it. */
  lemma {:induction false} GeneralIsSound(p: Bytes, t: Bytes)
    ensures Walk(p, t, 0, 0, None, 0) ==> Like(p, t)
  {
    assert p[0..] == p && t[0..] == t;
    if Walk(p, t, 0, 0, None, 0) { WalkIsSound(p, t, 0, 0, None, 0); }
  }

  /** The length of the character at `i` (CharLength). */
  method CharLength(t: Bytes, i: nat) returns (n: nat)
    requires i < |t|
    ensures n == Step(t[i..]) && 1 <= n <= |t| - i
  {
    if t[i] < 0x80 {
      Ascii(t[i..]);
      return 1;
    }
    n := SequenceLength(t, i);
    n := if n == 0 then 1 else n;
  }

  lemma {:induction false} StandsAtStart(p: Bytes, t: Bytes)
    ensures Stands(p, t, 0, 0, None, 0)
  {
    assert p[..0] == [] && p[0..] == p && t[0..] == t;
  }

  lemma {:induction false} NoMatch(p: Bytes, t: Bytes, at: nat, pos: nat, from: nat)
    requires Stands(p, t, at, pos, None, from) && pos < |t|
    requires at == |p| || (p[at] != PERCENT && p[at] != UNDERSCORE && p[at] != t[pos])
    ensures !Like(p, t)
  {
  }

  /** At the end of the text only `%`s may be left. */
  lemma {:induction false} AtEnd(p: Bytes, t: Bytes, at: nat, star: Option<nat>, from: nat, end: nat)
    requires Settled(p) && Stands(p, t, at, |t|, star, from) && at <= end <= |p|
    requires (forall i | at <= i < end :: p[i] == PERCENT) && (end < |p| ==> p[end] != PERCENT)
    ensures Like(p, t) <==> end == |p|
  {
    hide Like;
    hide PartEnd;
    hide Settled;
    hide Step;
    OnlyPercents(p, at, end);
    assert t[|t|..] == [];
    match star
    case None =>
    case Some(s) =>
      assert p[s..][1..] == p[s + 1..] == p[s + 1..at] + p[at..];
      PartLike(p[s + 1..at], p[at..], t, from);
      if end < |p| {
        NothingLonger(p, t, s, at, from, end);
      } else {
        PercentSkips(p[s..], t[from..]);
      }
  }

  lemma {:induction false} OnlyPercents(p: Bytes, at: nat, end: nat)
    requires at <= end <= |p| && (forall i | at <= i < end :: p[i] == PERCENT) && (end < |p| ==> p[end] != PERCENT)
    ensures Like(p[at..], []) <==> end == |p|
    decreases end - at
  {
    if at < end {
      OnlyPercents(p, at + 1, end);
      assert p[at..][1..] == p[at + 1..];
    }
  }

  /** A part that reached the end of the text from one place leaves no more of it from any later one. */
  lemma {:induction false} NothingLonger(p: Bytes, t: Bytes, s: nat, at: nat, from: nat, end: nat)
    requires Settled(p) && s < at <= end < |p| && p[s] == PERCENT && PERCENT !in p[s + 1..at] && from <= |t|
    requires PartEnd(p[s + 1..at], t, from) == Some(|t|)
    requires (forall i | at <= i < end :: p[i] == PERCENT) && p[end] != PERCENT
    ensures !Like(p[s..], t[from..])
  {
    hide Like;
    hide PartEnd;
    hide After;
    hide Reaches;
    hide Open;
    hide Settled;
    var q, rest := p[s + 1..at], p[at..];
    if Like(p[s..], t[from..]) {
      var j := PercentTook(p[s..], t, from);
      var a := After(t, from, j);
      AfterReaches(t, from, j);
      assert p[s..][1..] == q + rest;
      PartLike(q, rest, t, a);
      Ordered(p, s, s + 1, at, t, from, a);
      var b := PartEnd(q, t, a).value;
      assert t[|t|..] == [];
      OnlyPercents(p, at, end);
      if b < |t| {
        if at < end { PercentAnywhere(p, at, t, |t|, b); } else { LikeFirst(p, at, t, b); }
      }
    }
  }

  lemma {:induction false} PartNone(t: Bytes, a: nat)
    requires a <= |t|
    ensures PartEnd([], t, a) == Some(a)
  {
  }

  // ---- a pattern that is not well formed ----

  // % E2 % 80 _ over the text U+20AC U+2000, six bytes.
  const CUT: Bytes := [PERCENT, 0xE2, PERCENT, 0x80, UNDERSCORE]
  const TWO: Bytes := [0xE2, 0x82, 0xAC, 0xE2, 0x80, 0x80]

  lemma {:induction false} Steps(t: Bytes)
    ensures t == TWO ==>
      Step(t[0..]) == 3 && Step(t[1..]) == 1 && Step(t[2..]) == 1 && Step(t[3..]) == 3 && Step(t[4..]) == 1
      && Step(t[5..]) == 1
  {
    if t == TWO {
      assert t[0..][..3] == [0xE2, 0x82, 0xAC] && t[3..][..3] == [0xE2, 0x80, 0x80];
      OneLength(t[0..], 3);
      OneLength(t[3..], 3);
      forall i | i == 1 || i == 2 || i == 4 || i == 5 ensures CharLen(t[i..]) == 0 {
        assert t[i..][0] == t[i];
        Leads(t[i..]);
      }
    }
  }

  /** A pattern with a cut-off character can be missed: it is like the text, and the walk does not find it. */
  lemma {:induction false} CutPatternMissed()
    ensures !WellFormed(CUT) && !Settled(CUT) && Like(CUT, TWO) && !Walk(CUT, TWO, 0, 0, None, 0)
  {
    var p, t := CUT, TWO;
    Steps(t);
    assert p[1..2] == [0xE2] && Unfinished(p[1..2]) && Open(p, 1, 2) && !Fresh(p, 3);
    // the meaning: % takes the first character, E2 is the second's lead
    assert t[5..][1..] == t[6..] && t[4..][1..] == t[5..] && t[3..][1..] == t[4..] && t[0..][3..] == t[3..];
    assert p[1..][1..] == p[2..] && p[2..][1..] == p[3..] && p[3..][1..] == p[4..] && p[4..][1..] == p[5..];
    assert Like(p[5..], t[6..]);
    assert Like(p[4..], t[5..]);
    assert Like(p[3..], t[4..]);
    assert Like(p[2..], t[4..]);
    assert Like(p[1..], t[3..]);
    assert p[0..] == p && t[0..] == t;
    assert Like(p, t[3..]);
    assert Like(p, t);
    // the walk: E2 is found at the first character, and 80 never after it
    assert !Walk(p, t, 3, 6, Some(2), 6);
    assert !Walk(p, t, 3, 3, Some(2), 3);
    assert !Walk(p, t, 3, 2, Some(2), 2);
    assert !Walk(p, t, 3, 1, Some(2), 1);
    assert !Walk(p, t, 2, 1, Some(0), 0);
    assert !Walk(p, t, 1, 0, Some(0), 0);
    CutIllFormed();
  }

  lemma {:induction false} CutIllFormed()
    ensures !WellFormed(CUT)
  {
    Ascii(CUT);
    var rest := CUT[1..];
    assert rest[0] == 0xE2 && rest[1] == PERCENT;
    if CharLen(rest) > 0 { Announced(rest, 3); }
  }

  // % E2 _ AC over the text E2 U+20AC, four bytes.
  const CUT_LAST: Bytes := [PERCENT, 0xE2, UNDERSCORE, 0xAC]
  const STRAY: Bytes := [0xE2, 0xE2, 0x82, 0xAC]

  lemma {:induction false} StraySteps(t: Bytes)
    ensures t == STRAY ==> Step(t[0..]) == 1 && Step(t[1..]) == 3 && Step(t[2..]) == 1 && Step(t[3..]) == 1
  {
    if t == STRAY {
      assert t[1..][..3] == [0xE2, 0x82, 0xAC];
      OneLength(t[1..], 3);
      assert t[0..][1] == 0xE2;
      if CharLen(t[0..]) > 0 { Announced(t[0..], 3); }
      forall i | i == 2 || i == 3 ensures CharLen(t[i..]) == 0 {
        assert t[i..][0] == t[i];
        Leads(t[i..]);
      }
    }
  }

  /** One `%` is enough: the first place tried reaches the end of the text, and the next one is not tried. */
  lemma {:induction false} CutLastMissed()
    ensures !Settled(CUT_LAST) && Like(CUT_LAST, STRAY) && !Walk(CUT_LAST, STRAY, 0, 0, None, 0)
  {
    var p, t := CUT_LAST, STRAY;
    StraySteps(t);
    assert p[1..2] == [0xE2] && Unfinished(p[1..2]) && Open(p, 1, 2) && !Fresh(p, 3);
    assert p[0..] == p && t[0..] == t;
    assert p[1..][1..] == p[2..] && p[2..][1..] == p[3..] && p[3..][1..] == p[4..];
    assert t[1..][1..] == t[2..] && t[2..][1..] == t[3..] && t[3..][1..] == t[4..] && t[0..][1..] == t[1..];
    assert Like(p[4..], t[4..]);
    assert Like(p[3..], t[3..]);
    assert Like(p[2..], t[2..]);
    assert Like(p[1..], t[1..]);
    assert Like(p, t[1..]);
    assert !Walk(p, t, 3, 4, Some(0), 0);
    assert !Walk(p, t, 2, 1, Some(0), 0);
    assert !Walk(p, t, 1, 0, Some(0), 0);
  }

  // ---- well-formed patterns ----

  /** Well-formed bytes before a wildcard are finished. */
  lemma {:induction false} NotOpen(p: Bytes, from: nat, at: nat)
    requires from <= at < |p| && WellFormed(p[from..]) && p[at] < 0x80
    ensures !Open(p, from, at)
    decreases at - from
  {
    hide Table;
    if from < at {
      var rest := p[from..];
      var n := CharLen(rest);
      if from + n > at {
        assert rest[at - from] == p[at];
        TailBytes(rest, at - from);
      }
      assert rest[n..] == p[from + n..];
      NotOpen(p, from + n, at);
      forall i: nat | from <= i < at ensures !Unfinished(p[i..at]) {
        if i < from + n { WithinCharacter(p, from, n, i, at); }
      }
    }
  }

  lemma {:induction false} WithinCharacter(p: Bytes, y: nat, n: nat, i: nat, at: nat)
    requires y <= i < y + n <= at < |p| && n == CharLen(p[y..])
    ensures !Unfinished(p[i..at])
  {
    var c, w := p[y..][..n], p[i..at];
    assert c[i - y] == p[i] == w[0];
    if i == y {
      assert w[..n] == c;
      NoLonger(w, n);
    } else {
      TailBytes(p[y..], i - y);
    }
  }

  lemma {:induction false} NoLonger(w: Bytes, n: nat)
    requires n <= |w| && Table(w[..n])
    ensures !Unfinished(w)
  {
  }

  /** A pattern that is well formed from its first `%` on is settled, whatever comes before. */
  lemma {:induction false} WellFormedSettled(p: Bytes, f: nat)
    requires f <= |p| && PERCENT !in p[..f] && WellFormed(p[f..])
    ensures Settled(p)
  {
    forall s: nat | s < f ensures p[s] != PERCENT { assert p[..f][s] == p[s]; }
    forall s: nat, at: nat | s < at < |p| && p[s] == PERCENT && (p[at] == PERCENT || p[at] == UNDERSCORE)
      ensures !Open(p, s + 1, at)
    {
      NotOpen(p, f, at);
      OpenFrom(p, f, s + 1, at);
    }
  }
}
