/**
 The residual conditions of a join (src/exec/hash_join.cc, PassingSlots and ApplyResiduals): each is
 evaluated over a whole batch of pairs, on the pairs that passed the ones before it, and the result
 is what judging every pair by itself would give.
 */
module JoinResiduals {
  import opened Lists

  /** What a BOOLEAN expression gives on one pair. */
  datatype Verdict = True | False | Null | Error

  /** What the residuals together make of a pair. */
  datatype Judgement = Pass | Drop | Fail

  /** One pair by itself: the first residual that is not true decides. */
  function Judge<A>(residuals: seq<A -> Verdict>, pair: A): Judgement {
    if residuals == [] then Pass
    else
      match residuals[0](pair)
      case True => Judge(residuals[1..], pair)
      case Error => Fail
      case _ => Drop
  }

  /**
   A pair passes when every residual is true of it, NULL being no more true than false, and fails when one is an error
   and all before it are true.
   */
  lemma {:induction false} JudgeMeans<A>(residuals: seq<A -> Verdict>, pair: A)
    ensures Judge(residuals, pair) == Pass <==> forall i | 0 <= i < |residuals| :: residuals[i](pair) == True
    ensures Judge(residuals, pair) == Fail <==> exists i :: ErrsFirst(residuals, pair, i)
  {
    if residuals != [] {
      var rest := residuals[1..];
      JudgeMeans(rest, pair);
      assert residuals == [residuals[0]] + rest;
      if residuals[0](pair) == True {
        forall i | ErrsFirst(rest, pair, i) ensures ErrsFirst(residuals, pair, i + 1) {}
        forall i | ErrsFirst(residuals, pair, i) ensures ErrsFirst(rest, pair, i - 1) {}
      } else if residuals[0](pair) == Error {
        assert ErrsFirst(residuals, pair, 0);
      }
    }
  }

  /** Residual `i` is an error, and all before it are true. */
  ghost predicate ErrsFirst<A>(residuals: seq<A -> Verdict>, pair: A, i: int) {
    && 0 <= i < |residuals| && residuals[i](pair) == Error
    && forall j | 0 <= j < i :: residuals[j](pair) == True
  }

  function After(before: Judgement, verdict: Verdict): Judgement {
    if before != Pass then before else match verdict case True => Pass case Error => Fail case _ => Drop
  }

  lemma {:induction false} JudgeLast<A>(residuals: seq<A -> Verdict>, r: nat, pair: A)
    requires r < |residuals|
    ensures Judge(residuals[..r + 1], pair) == After(Judge(residuals[..r], pair), residuals[r](pair))
  {
    if r == 0 {
      assert residuals[..1][1..] == [];
    } else {
      JudgeLast(residuals[1..], r - 1, pair);
      assert residuals[..r + 1][1..] == residuals[1..][..r];
      assert residuals[..r][1..] == residuals[1..][..r - 1];
    }
  }

  /** A judgement other than Pass is final. */
  lemma {:induction false} JudgeFinal<A>(residuals: seq<A -> Verdict>, r: nat, pair: A)
    requires r <= |residuals| && Judge(residuals[..r], pair) != Pass
    ensures Judge(residuals, pair) == Judge(residuals[..r], pair)
    decreases |residuals| - r
  {
    if r == |residuals| {
      assert residuals[..r] == residuals;
    } else {
      JudgeLast(residuals, r, pair);
      JudgeFinal(residuals, r + 1, pair);
    }
  }

  // ---- filters ----

  function Filter<S>(s: seq<S>, keep: S -> bool): seq<S> {
    if s == [] then [] else if keep(s[0]) then [s[0]] + Filter(s[1..], keep) else Filter(s[1..], keep)
  }

  lemma {:induction false} FilterConcat<S>(a: seq<S>, b: seq<S>, keep: S -> bool)
    ensures Filter(a + b, keep) == Filter(a, keep) + Filter(b, keep)
  {
    if a == [] {
      assert a + b == b;
    } else {
      FilterConcat(a[1..], b, keep);
      assert (a + b)[1..] == a[1..] + b;
    }
  }

  /** What a filter keeps: nothing else, and nothing less. */
  lemma {:induction false} FilterHas<S>(s: seq<S>, keep: S -> bool)
    ensures forall x :: x in Filter(s, keep) <==> x in s && keep(x)
  {
    if s != [] {
      FilterHas(s[1..], keep);
      assert s == [s[0]] + s[1..];
    }
  }

  /** A filter keeps the elements to keep, each in its place. */
  lemma {:induction false} FilterPicks<S>(s: seq<S>, keep: S -> bool) returns (at: seq<nat>)
    ensures Picks(s, keep, Filter(s, keep), at)
  {
    at := [];
    if s != [] {
      at := FilterPicks(s[1..], keep);
      at := PicksFirst(s, keep, Filter(s[1..], keep), at);
    }
  }

  lemma {:induction false} FilterAt<S>(s: seq<S>, keep: S -> bool, i: nat) returns (j: nat)
    requires i < |Filter(s, keep)|
    ensures j < |s| && s[j] == Filter(s, keep)[i] && keep(s[j])
  {
    if keep(s[0]) && i == 0 {
      j := 0;
    } else {
      j := FilterAt(s[1..], keep, if keep(s[0]) then i - 1 else i);
      j := j + 1;
    }
  }

  lemma {:induction false} FilterTwice<S>(s: seq<S>, first: S -> bool, second: S -> bool, both: S -> bool)
    requires forall x | x in s :: both(x) == (first(x) && second(x))
    ensures Filter(Filter(s, first), second) == Filter(s, both)
  {
    if s != [] {
      FilterTwice(s[1..], first, second, both);
      if first(s[0]) {
        assert Filter(s, first)[1..] == Filter(s[1..], first);
      }
    }
  }

  lemma {:induction false} FilterAll<S>(s: seq<S>, keep: S -> bool)
    requires forall x | x in s :: keep(x)
    ensures Filter(s, keep) == s
  {
    if s != [] { FilterAll(s[1..], keep); }
  }

  lemma {:induction false} FilterNone<S>(s: seq<S>, keep: S -> bool)
    requires forall x | x in s :: !keep(x)
    ensures Filter(s, keep) == []
  {
    if s != [] { FilterNone(s[1..], keep); }
  }

  function Map<S, A>(s: seq<S>, f: S -> A): (m: seq<A>)
    ensures |m| == |s| && forall i | 0 <= i < |s| :: m[i] == f(s[i])
  {
    seq(|s|, i requires 0 <= i < |s| => f(s[i]))
  }

  // ---- batches ----

  /** EvaluateExpr over a batch: a value per pair, or an error when one of them has none. */
  method Evaluate<A>(residual: A -> Verdict, batch: seq<A>) returns (ok: bool, values: seq<Verdict>)
    ensures ok <==> forall i | 0 <= i < |batch| :: residual(batch[i]) != Error
    ensures ok ==> |values| == |batch| && forall i | 0 <= i < |batch| :: values[i] == residual(batch[i])
  {
    ok, values := true, [];
    for i := 0 to |batch|
      invariant |values| == i && ok
      invariant forall j | 0 <= j < i :: values[j] == residual(batch[j]) != Error
    {
      if residual(batch[i]) == Error {
        return false, [];
      }
      values := values + [residual(batch[i])];
    }
  }

  function IsTrue<S, A>(residual: A -> Verdict, pairOf: S -> A): S -> bool {
    (s: S) => residual(pairOf(s)) == True
  }

  function Passes<S, A>(residuals: seq<A -> Verdict>, pairOf: S -> A): S -> bool {
    (s: S) => Judge(residuals, pairOf(s)) == Pass
  }

  ghost predicate NoneFails<S, A>(slots: seq<S>, residuals: seq<A -> Verdict>, pairOf: S -> A) {
    forall s | s in slots :: Judge(residuals, pairOf(s)) != Fail
  }

  /** Keeps the slots whose value is true, in place of all of them. */
  method Compact<S>(slots: seq<S>, values: seq<Verdict>, ghost keep: S -> bool) returns (kept: seq<S>)
    requires |values| == |slots| && forall i | 0 <= i < |slots| :: keep(slots[i]) == (values[i] == True)
    ensures kept == Filter(slots, keep)
  {
    kept := [];
    for i := 0 to |slots|
      invariant kept == Filter(slots[..i], keep)
    {
      assert slots[..i + 1] == slots[..i] + [slots[i]];
      FilterConcat(slots[..i], [slots[i]], keep);
      assert [slots[i]][1..] == [];
      if values[i] == True {
        kept := kept + [slots[i]];
      }
    }
    assert slots[..|slots|] == slots;
  }

  /** One residual, on the slots the ones before it passed. */
  method SiftOnce<S, A>(
      all: seq<S>, pairOf: S -> A, residuals: seq<A -> Verdict>, r: nat, live: seq<S>)
    returns (ok: bool, kept: seq<S>)
    requires r < |residuals| && live == Filter(all, Passes(residuals[..r], pairOf))
    requires NoneFails(all, residuals[..r], pairOf)
    ensures ok <==> NoneFails(all, residuals[..r + 1], pairOf)
    ensures ok ==> kept == Filter(all, Passes(residuals[..r + 1], pairOf))
  {
    var values;
    ok, values := Evaluate(residuals[r], Map(live, pairOf));
    FilterHas(all, Passes(residuals[..r], pairOf));
    forall s | s in all
      ensures Judge(residuals[..r + 1], pairOf(s)) == After(Judge(residuals[..r], pairOf(s)), residuals[r](pairOf(s)))
    {
      JudgeLast(residuals, r, pairOf(s));
    }
    kept := [];
    if ok {
      kept := Compact(live, values, IsTrue(residuals[r], pairOf));
      FilterTwice(all, Passes(residuals[..r], pairOf), IsTrue(residuals[r], pairOf),
          Passes(residuals[..r + 1], pairOf));
      forall s | s in all ensures Judge(residuals[..r + 1], pairOf(s)) != Fail {
        if s in live {
          var i :| 0 <= i < |live| && live[i] == s;
          assert Map(live, pairOf)[i] == pairOf(s);
        }
      }
    } else {
      var i :| 0 <= i < |live| && residuals[r](Map(live, pairOf)[i]) == Error;
      assert live[i] in all && Judge(residuals[..r + 1], pairOf(live[i])) == Fail;
    }
  }

  /** All residuals in order; a later one never sees a pair an earlier one dropped. */
  method Sift<S, A>(slots: seq<S>, pairOf: S -> A, residuals: seq<A -> Verdict>) returns (ok: bool, kept: seq<S>)
    ensures ok <==> NoneFails(slots, residuals, pairOf)
    ensures ok ==> kept == Filter(slots, Passes(residuals, pairOf))
  {
    kept := slots;
    FilterAll(slots, Passes(residuals[..0], pairOf));
    for r := 0 to |residuals|
      invariant kept == Filter(slots, Passes(residuals[..r], pairOf)) && NoneFails(slots, residuals[..r], pairOf)
    {
      var passing;
      ok, passing := SiftOnce(slots, pairOf, residuals, r, kept);
      if !ok || passing == [] {
        StopEarly(slots, pairOf, residuals, r + 1);
        return ok, [];
      }
      kept := passing;
    }
    assert residuals[..|residuals|] == residuals;
    ok := true;
  }

  /** An error is final, and so is a batch without a pair left. */
  lemma {:induction false} StopEarly<S, A>(slots: seq<S>, pairOf: S -> A, residuals: seq<A -> Verdict>, r: nat)
    requires r <= |residuals|
    ensures !NoneFails(slots, residuals[..r], pairOf) ==> !NoneFails(slots, residuals, pairOf)
    ensures NoneFails(slots, residuals[..r], pairOf) && Filter(slots, Passes(residuals[..r], pairOf)) == [] ==>
      NoneFails(slots, residuals, pairOf) && Filter(slots, Passes(residuals, pairOf)) == []
  {
    FilterHas(slots, Passes(residuals[..r], pairOf));
    forall s | s in slots && Judge(residuals[..r], pairOf(s)) != Pass
      ensures Judge(residuals, pairOf(s)) == Judge(residuals[..r], pairOf(s))
    {
      JudgeFinal(residuals, r, pairOf(s));
    }
    if Filter(slots, Passes(residuals[..r], pairOf)) == [] {
      forall s | s in slots ensures Judge(residuals[..r], pairOf(s)) != Pass {
        assert s !in Filter(slots, Passes(residuals[..r], pairOf));
      }
      FilterNone(slots, Passes(residuals, pairOf));
    }
  }
}
