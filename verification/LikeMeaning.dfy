/**
 What LIKE means (src/exec/like.h): `%` matches any characters, `_` one character and any other byte
 itself; a character is a well-formed UTF-8 sequence, or one byte where there is none.
 */
module LikeMeaning {
  import opened Options
  import opened Utf8

  const PERCENT: Byte := '%' as int
  const UNDERSCORE: Byte := '_' as int

  predicate Like(p: Bytes, t: Bytes)
    decreases |p| + |t|
  {
    if p == [] then t == []
    else if p[0] == PERCENT then Like(p[1..], t) || (t != [] && Like(p, t[Step(t)..]))
    else if p[0] == UNDERSCORE then t != [] && Like(p[1..], t[Step(t)..])
    else t != [] && t[0] == p[0] && Like(p[1..], t[1..])
  }

  /** The same over bytes, for patterns without `_`. */
  predicate LikeBytes(p: Bytes, t: Bytes)
    decreases |p| + |t|
  {
    if p == [] then t == []
    else if p[0] == PERCENT then LikeBytes(p[1..], t) || (t != [] && LikeBytes(p, t[1..]))
    else t != [] && t[0] == p[0] && LikeBytes(p[1..], t[1..])
  }

  // ---- places in a text ----

  /** The place `k` characters after `a`. */
  function After(t: Bytes, a: nat, k: nat): (b: nat)
    requires a <= |t|
    ensures a <= b <= |t|
    decreases k
  {
    if k == 0 || a == |t| then a else After(t, a + Step(t[a..]), k - 1)
  }

  /** What `%` matches: any number of characters. */
  lemma {:induction false} PercentTakes(p: Bytes, t: Bytes, a: nat, k: nat)
    requires p != [] && p[0] == PERCENT && a <= |t| && Like(p, t[After(t, a, k)..])
    ensures Like(p, t[a..])
    decreases k
  {
    if k > 0 && a < |t| {
      var n := Step(t[a..]);
      PercentTakes(p, t, a + n, k - 1);
      assert t[a..][n..] == t[a + n..];
    }
  }

  lemma {:induction false} PercentTook(p: Bytes, t: Bytes, a: nat) returns (k: nat)
    requires p != [] && p[0] == PERCENT && a <= |t| && Like(p, t[a..])
    ensures Like(p[1..], t[After(t, a, k)..])
    decreases |t| - a
  {
    if Like(p[1..], t[a..]) {
      k := 0;
    } else {
      var n := Step(t[a..]);
      assert t[a..][n..] == t[a + n..];
      k := PercentTook(p, t, a + n);
      k := k + 1;
    }
  }

  /** A pattern without wildcards is like itself alone. */
  lemma {:induction false} LiteralLike(p: Bytes, t: Bytes)
    requires PERCENT !in p && UNDERSCORE !in p
    ensures Like(p, t) <==> p == t
    decreases |p|
  {
    if p != [] && t != [] {
      assert p[0] != PERCENT && p[0] != UNDERSCORE;
      LiteralLike(p[1..], t[1..]);
      assert p == [p[0]] + p[1..] && t == [t[0]] + t[1..];
    }
  }

  /** A `%` stands for any number of characters in front of what the rest is like. */
  lemma {:induction false} PercentMeans(p: Bytes, t: Bytes)
    ensures Like([PERCENT] + p, t) <==> exists k: nat :: Like(p, t[After(t, 0, k)..])
  {
    var q := [PERCENT] + p;
    assert q[1..] == p && t[0..] == t;
    if Like(q, t) {
      var k := PercentTook(q, t, 0);
    }
    if k: nat :| Like(p, t[After(t, 0, k)..]) {
      assert Like(q, t[After(t, 0, k)..]);
      PercentTakes(q, t, 0, k);
    }
  }

  // ---- a part of a pattern without % ----

  /** Where a part of a pattern without `%` ends that starts at `a`; None where it does not match. */
  function PartEnd(q: Bytes, t: Bytes, a: nat): (b: Option<nat>)
    requires a <= |t|
    ensures b.Some? ==> a <= b.value <= |t|
    decreases |q|
  {
    if q == [] then Some(a)
    else if a == |t| then None
    else if q[0] == UNDERSCORE then PartEnd(q[1..], t, a + Step(t[a..]))
    else if q[0] == t[a] then PartEnd(q[1..], t, a + 1)
    else None
  }

  lemma {:induction false} PartLike(q: Bytes, rest: Bytes, t: Bytes, a: nat)
    requires a <= |t| && PERCENT !in q
    ensures Like(q + rest, t[a..]) <==> PartEnd(q, t, a).Some? && Like(rest, t[PartEnd(q, t, a).value..])
    decreases |q|
  {
    hide Step;
    hide CharLen;
    if q == [] {
      assert q + rest == rest;
    } else {
      assert (q + rest)[1..] == q[1..] + rest && q[0] != PERCENT;
      if a < |t| {
        if q[0] == UNDERSCORE {
          var n := Step(t[a..]);
          assert t[a..][n..] == t[a + n..];
          PartLike(q[1..], rest, t, a + n);
        } else if q[0] == t[a] {
          assert t[a..][1..] == t[a + 1..];
          PartLike(q[1..], rest, t, a + 1);
        }
      }
    }
  }

  lemma {:induction false} PartEndConcat(q: Bytes, x: Byte, t: Bytes, a: nat)
    requires a <= |t| && PartEnd(q, t, a).Some?
    ensures PartEnd(q + [x], t, a) == PartEnd([x], t, PartEnd(q, t, a).value)
    decreases |q|
  {
    if q == [] {
      assert q + [x] == [x];
    } else {
      assert (q + [x])[1..] == q[1..] + [x];
      if q[0] == UNDERSCORE {
        PartEndConcat(q[1..], x, t, a + Step(t[a..]));
      } else {
        PartEndConcat(q[1..], x, t, a + 1);
      }
    }
  }

  /** Literal bytes match themselves. */
  lemma {:induction false} LiteralEnd(c: Bytes, q: Bytes, t: Bytes, a: nat)
    requires a <= |t| && UNDERSCORE !in c && PartEnd(c + q, t, a).Some?
    ensures a + |c| <= |t| && t[a..a + |c|] == c && PartEnd(c + q, t, a) == PartEnd(q, t, a + |c|)
    decreases |c|
  {
    if c == [] {
      assert c + q == q;
    } else {
      assert (c + q)[1..] == c[1..] + q && c[0] != UNDERSCORE;
      LiteralEnd(c[1..], q, t, a + 1);
      assert t[a..a + |c|] == [t[a]] + t[a + 1..a + |c|] && c == [c[0]] + c[1..];
    }
  }

  // ---- characters of a text ----

  /** The bytes after a character's first are tails. */
  lemma {:induction false} TailBytes(q: Bytes, i: nat)
    requires 0 < i < CharLen(q)
    ensures Tail(q[i])
  {
    var n := CharLen(q);
    assert Table(q[..n]) && q[..n][i] == q[i];
  }

  lemma {:induction false} Inside(t: Bytes, y: nat, z: nat)
    requires y < z < |t| && z < y + Step(t[y..])
    ensures Tail(t[z]) && Step(t[z..]) == 1
  {
    TailBytes(t[y..], z - y);
    assert t[y..][z - y] == t[z] == t[z..][0];
    Leads(t[z..]);
  }

  /** Going over the characters from `u` on meets `v`: it is inside none of them. */
  ghost predicate Reaches(t: Bytes, u: nat, v: nat) {
    u <= v <= |t| && forall y: nat | u <= y < v :: y + Step(t[y..]) <= v
  }

  lemma {:induction false} AfterReaches(t: Bytes, u: nat, k: nat)
    requires u <= |t|
    ensures Reaches(t, u, After(t, u, k))
    decreases k
  {
    hide Step;
    if k > 0 && u < |t| {
      var w := u + Step(t[u..]);
      AfterReaches(t, w, k - 1);
      forall y: nat | u < y < w ensures Step(t[y..]) == 1 { Inside(t, u, y); }
    }
  }

  lemma {:induction false} ReachesAfter(t: Bytes, u: nat, v: nat) returns (k: nat)
    requires Reaches(t, u, v)
    ensures After(t, u, k) == v
    decreases v - u
  {
    hide Step;
    k := 0;
    if u < v {
      k := ReachesAfter(t, u + Step(t[u..]), v);
      k := k + 1;
    }
  }

  /** Going over characters meets every byte that is no tail, and the end. */
  lemma {:induction false} ReachesLead(t: Bytes, u: nat, z: nat)
    requires u <= z <= |t| && (z < |t| ==> !Tail(t[z]))
    ensures Reaches(t, u, z)
  {
    hide Step;
    forall y: nat | u <= y < z ensures y + Step(t[y..]) <= z {
      if z < y + Step(t[y..]) { Inside(t, y, z); }
    }
  }
}
