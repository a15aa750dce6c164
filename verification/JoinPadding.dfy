/**
 What a left join keeps of its slots (src/exec/hash_join.cc, PassingSlots and KeepPassingOrPadded):
 the candidates that pass the residuals, and one padded row after the last candidate of a row none
 of whose candidates passed, in whichever batches of slots they came.
 */
module JoinPadding {
  import opened Options
  import opened Lists
  import opened JoinRows
  import opened JoinResiduals
  import opened JoinSlots

  datatype Pair<P, T> = Pair(probe: Probe<P>, build: Row<T>)

  /** A candidate slot's number among the slots and its pair. */
  datatype Live<P, T> = Live(slot: nat, pair: Pair<P, T>)

  function PairOf<P, T>(): Live<P, T> -> Pair<P, T> {
    (l: Live<P, T>) => l.pair
  }

  predicate HasPair<P, T>(v: View<P>, rows: seq<Row<T>>, s: Slot) {
    s.row < |v.probes| && s.candidate.Some? && s.candidate.value < |rows|
  }

  function SlotPair<P, T>(v: View<P>, rows: seq<Row<T>>, s: Slot): Pair<P, T>
    requires HasPair(v, rows, s)
  {
    Pair(v.probes[s.row], rows[s.candidate.value])
  }

  function Passing<P, T>(v: View<P>, rows: seq<Row<T>>, residuals: seq<Pair<P, T> -> Verdict>): Slot -> bool {
    (s: Slot) => HasPair(v, rows, s) && Judge(residuals, SlotPair(v, rows, s)) == Pass
  }

  function Failing<P, T>(v: View<P>, rows: seq<Row<T>>, residuals: seq<Pair<P, T> -> Verdict>): Slot -> bool {
    (s: Slot) => HasPair(v, rows, s) && Judge(residuals, SlotPair(v, rows, s)) == Fail
  }

  // ---- the passing slots ----

  ghost predicate Ascending<P, T>(s: seq<Live<P, T>>) {
    forall i, j | 0 <= i < j < |s| :: s[i].slot < s[j].slot
  }

  lemma {:induction false} FilterAscends<P, T>(s: seq<Live<P, T>>, keep: Live<P, T> -> bool)
    requires Ascending(s)
    ensures Ascending(Filter(s, keep))
  {
    if s != [] {
      FilterAscends(s[1..], keep);
      var f := Filter(s[1..], keep);
      forall i | 0 <= i < |f| ensures s[0].slot < f[i].slot { var j := FilterAt(s[1..], keep, i); }
    }
  }

  /** The slots with a candidate, and their pairs. */
  method CandidatePairs<P, T>(v: View<P>, rows: seq<Row<T>>, slots: seq<Slot>) returns (lives: seq<Live<P, T>>)
    requires forall s | s in slots :: s.candidate.Some? ==> HasPair(v, rows, s)
    ensures Ascending(lives)
    ensures forall l | l in lives ::
      l.slot < |slots| && HasPair(v, rows, slots[l.slot]) && l.pair == SlotPair(v, rows, slots[l.slot])
    ensures forall i: nat | i < |slots| && slots[i].candidate.Some? :: Live(i, SlotPair(v, rows, slots[i])) in lives
  {
    lives := [];
    for i := 0 to |slots|
      invariant forall a, b | 0 <= a < b < |lives| :: lives[a].slot < lives[b].slot
      invariant forall l | l in lives ::
        l.slot < i && HasPair(v, rows, slots[l.slot]) && l.pair == SlotPair(v, rows, slots[l.slot])
      invariant forall j: nat | j < i && slots[j].candidate.Some? :: Live(j, SlotPair(v, rows, slots[j])) in lives
    {
      if slots[i].candidate.Some? {
        forall a | 0 <= a < |lives| ensures lives[a].slot < i { assert lives[a] in lives; }
        lives := lives + [Live(i, SlotPair(v, rows, slots[i]))];
      }
    }
  }

  /** `passing` numbers the slots that pass, in order. */
  ghost predicate Numbers(passing: seq<nat>, slots: seq<Slot>, pass: Slot -> bool) {
    && (forall i, j | 0 <= i < j < |passing| :: passing[i] < passing[j])
    && (forall i | i in passing :: i < |slots| && pass(slots[i]))
    && (forall i: nat | i < |slots| && pass(slots[i]) :: i in passing)
  }

  /** The candidates that pass every residual, or the failure of one of them. */
  method PassingSlots<P, T>(v: View<P>, rows: seq<Row<T>>, residuals: seq<Pair<P, T> -> Verdict>, slots: seq<Slot>)
    returns (ok: bool, passing: seq<nat>)
    requires forall s | s in slots :: s.candidate.Some? ==> HasPair(v, rows, s)
    ensures ok <==> forall s | s in slots :: !Failing(v, rows, residuals)(s)
    ensures ok ==> Numbers(passing, slots, Passing(v, rows, residuals))
  {
    var lives := CandidatePairs(v, rows, slots);
    var kept;
    ok, kept := Sift(lives, PairOf(), residuals);
    passing := [];
    if ok {
      passing := Map(kept, (l: Live<P, T>) => l.slot);
      FilterAscends(lives, Passes(residuals, PairOf()));
      FilterHas(lives, Passes(residuals, PairOf()));
      KeptNumbers(v, rows, residuals, slots, lives, kept, passing);
      forall s | s in slots ensures !Failing(v, rows, residuals)(s) {
        var i: nat :| i < |slots| && slots[i] == s;
        assert s.candidate.Some? ==> Live(i, SlotPair(v, rows, slots[i])) in lives;
      }
    } else {
      ghost var l :| l in lives && Judge(residuals, PairOf()(l)) == Fail;
      assert Failing(v, rows, residuals)(slots[l.slot]);
    }
  }

  lemma {:induction false} KeptNumbers<P, T>(
      v: View<P>, rows: seq<Row<T>>, residuals: seq<Pair<P, T> -> Verdict>, slots: seq<Slot>, lives: seq<Live<P, T>>,
      kept: seq<Live<P, T>>, passing: seq<nat>)
    requires forall l | l in lives ::
      l.slot < |slots| && HasPair(v, rows, slots[l.slot]) && l.pair == SlotPair(v, rows, slots[l.slot])
    requires forall i: nat | i < |slots| && HasPair(v, rows, slots[i]) :: Live(i, SlotPair(v, rows, slots[i])) in lives
    requires Ascending(kept) && forall l :: l in kept <==> l in lives && Judge(residuals, l.pair) == Pass
    requires |passing| == |kept| && forall i | 0 <= i < |kept| :: passing[i] == kept[i].slot
    ensures Numbers(passing, slots, Passing(v, rows, residuals))
  {
    forall i | i in passing ensures i < |slots| && Passing(v, rows, residuals)(slots[i]) {
      var j :| 0 <= j < |passing| && passing[j] == i;
      assert kept[j] in kept;
    }
    forall i: nat | i < |slots| && Passing(v, rows, residuals)(slots[i]) ensures i in passing {
      var l := Live(i, SlotPair(v, rows, slots[i]));
      assert l in kept;
      var j :| 0 <= j < |kept| && kept[j] == l;
      assert passing[j] == i;
    }
  }

  // ---- what is kept ----

  /** What comes of one slot; `any`: a candidate of its row before it passed. */
  function KeepOne(s: Slot, passed: bool, any: bool): seq<Slot> {
    if s.candidate.None? || passed then [s] else if s.last && !any then [s.(candidate := None)] else []
  }

  function NextAny(s: Slot, passed: bool, any: bool): bool {
    !s.last && (any || passed)
  }

  function Keep(slots: seq<Slot>, pass: Slot -> bool, any: bool): seq<Slot> {
    if slots == [] then []
    else KeepOne(slots[0], pass(slots[0]), any) + Keep(slots[1..], pass, NextAny(slots[0], pass(slots[0]), any))
  }

  function AnyAfter(slots: seq<Slot>, pass: Slot -> bool, any: bool): bool {
    if slots == [] then any else AnyAfter(slots[1..], pass, NextAny(slots[0], pass(slots[0]), any))
  }

  /** Slots may be kept in parts, if what has passed is carried over. */
  lemma {:induction false} KeepConcat(a: seq<Slot>, b: seq<Slot>, pass: Slot -> bool, any: bool)
    ensures Keep(a + b, pass, any) == Keep(a, pass, any) + Keep(b, pass, AnyAfter(a, pass, any))
    ensures AnyAfter(a + b, pass, any) == AnyAfter(b, pass, AnyAfter(a, pass, any))
  {
    hide KeepOne;
    hide NextAny;
    if a == [] {
      assert a + b == b;
    } else {
      var next := NextAny(a[0], pass(a[0]), any);
      KeepConcat(a[1..], b, pass, next);
      assert (a + b)[1..] == a[1..] + b;
      Regroup(KeepOne(a[0], pass(a[0]), any), Keep(a[1..], pass, next), Keep(b, pass, AnyAfter(a[1..], pass, next)));
    }
  }

  lemma {:induction false} KeepSnoc(slots: seq<Slot>, i: nat, pass: Slot -> bool, any: bool)
    requires i < |slots|
    ensures var before := AnyAfter(slots[..i], pass, any);
      && Keep(slots[..i + 1], pass, any) == Keep(slots[..i], pass, any) + KeepOne(slots[i], pass(slots[i]), before)
      && AnyAfter(slots[..i + 1], pass, any) == NextAny(slots[i], pass(slots[i]), before)
  {
    assert slots[..i + 1] == slots[..i] + [slots[i]];
    KeepConcat(slots[..i], [slots[i]], pass, any);
    var before := AnyAfter(slots[..i], pass, any);
    assert [slots[i]][1..] == [];
    assert Keep([slots[i]], pass, before) == KeepOne(slots[i], pass(slots[i]), before);
  }

  lemma {:induction false} KeepNone(slots: seq<Slot>, passing: seq<nat>, pass: Slot -> bool, any: bool)
    ensures Keep(slots[..0], pass, any) == [] && AnyAfter(slots[..0], pass, any) == any && Split(passing, 0, 0)
  {
  }

  /** Keeps the slots that pass or pad, in place; `rowPassed` goes with a row that continues. */
  method KeepPassingOrPadded(
      slots: seq<Slot>, passing: seq<nat>, ghost pass: Slot -> bool, continues: bool, rowPassed: bool, taken: nat)
    returns (kept: seq<Slot>, rowPassed': bool)
    requires slots != [] && Linked(slots) && Numbers(passing, slots, pass)
    requires forall s | s in slots && s.candidate.None? :: s.last && !pass(s)
    requires rowPassed ==> continues
    requires taken > 0 <==> !slots[|slots| - 1].last
    ensures kept == Keep(slots, pass, rowPassed)
    ensures rowPassed' == AnyAfter(slots, pass, rowPassed)
    ensures rowPassed' ==> taken > 0
  {
    hide Split;
    hide Numbers;
    hide Keep;
    hide AnyAfter;
    var current: int := -1;
    var any := false;
    if continues {
      current, any := slots[0].row, rowPassed;
    }
    var nextPassing := 0;
    kept := [];
    KeepNone(slots, passing, pass, rowPassed);
    for s := 0 to |slots|
      invariant kept == Keep(slots[..s], pass, rowPassed)
      invariant s < |slots| ==> AnyAfter(slots[..s], pass, rowPassed) == (slots[s].row == current && any)
      invariant s == |slots| ==> AnyAfter(slots[..s], pass, rowPassed) == (!slots[s - 1].last && any)
      invariant Split(passing, nextPassing, s)
    {
      KeepSnoc(slots, s, pass, rowPassed);
      IsNext(passing, nextPassing, slots, s, pass);
      assert slots[s] in slots;
      var row := slots[s].row;
      if row != current {
        current, any := row, false;
      }
      var now := nextPassing < |passing| && passing[nextPassing] == s;
      if slots[s].candidate.Some? {
        if now {
          nextPassing := nextPassing + 1;
          any := true;
          kept := kept + [slots[s]];
        } else if slots[s].last && !any {
          kept := kept + [slots[s].(candidate := None)];
        }
      } else {
        kept := kept + [slots[s]];
      }
      assert s + 1 < |slots| ==>
          (if slots[s].last then slots[s].row < slots[s + 1].row else slots[s].row == slots[s + 1].row);
    }
    assert slots[..|slots|] == slots;
    rowPassed' := taken > 0 && any;
  }

  /** The first `next` of the numbers are below `s`, and no others. */
  ghost predicate Split(passing: seq<nat>, next: nat, s: nat) {
    && next <= |passing|
    && (forall i | 0 <= i < next :: passing[i] < s)
    && (forall i | next <= i < |passing| :: passing[i] >= s)
  }

  lemma {:induction false} IsNext(passing: seq<nat>, next: nat, slots: seq<Slot>, s: nat, pass: Slot -> bool)
    requires Numbers(passing, slots, pass) && s < |slots| && Split(passing, next, s)
    ensures next <= |passing| && (pass(slots[s]) <==> next < |passing| && passing[next] == s)
    ensures Split(passing, if pass(slots[s]) then next + 1 else next, s + 1)
  {
    if pass(slots[s]) {
      assert s in passing;
      var i :| 0 <= i < |passing| && passing[i] == s;
    }
    if next < |passing| && passing[next] == s { assert s in passing; }
  }
}
