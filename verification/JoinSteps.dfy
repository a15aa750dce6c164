/** The steps of a join's probe, one per way of walking a probe batch (src/exec/hash_join.cc). */
module JoinSteps {
  import opened Options
  import opened JoinRows
  import opened JoinResiduals
  import opened JoinSlots
  import opened JoinPadding
  import opened NestedLoop
  import opened JoinMarking
  import opened JoinWindows
  import opened JoinCursor

  datatype Step<P, T> = Failed | Stepped(out: Option<Batch<OutRow<P, T>>>, cursor: Option<Cursor<P>>, marks: set<nat>)

  /**
   What the step emits and marks, and what it leaves, make up what was left before; it fails only over a pair that does.
   */
  ghost predicate StepOk<P, T>(c: Config<P, T>, all: seq<Row<T>>, cur: Cursor<P>, marks: set<nat>, s: Step<P, T>)
    requires CursorOk(c, cur, all)
  {
    match s
    case Failed => FailsOf(c, Some(cur), all)
    case Stepped(out, next, marks') =>
      && (out.Some? ==> BatchOk(out.value) && |out.value.data| <= c.batchSize)
      && (next.Some? ==> CursorOk(c, next.value, all) && !c.MarksOnly())
      && RowsOf(out) + RestOf(c, next, all) == RestOf(c, Some(cur), all)
      && (FailsOf(c, next, all) <==> FailsOf(c, Some(cur), all))
      && marks' + MarksToCome(c, next, all) == marks + MarksToCome(c, Some(cur), all)
      && WorkLeft(c, next, all) < WorkLeft(c, Some(cur), all)
  }

  // ---- splitting what is to come ----

  /** A cursor that goes on with the slots after `slots`. */
  ghost predicate GoesOn<P, T>(c: Config<P, T>, all: seq<Row<T>>, cur: Cursor<P>, slots: seq<Slot>, next: Cursor<P>) {
    && CursorOk(c, cur, all) && CursorOk(c, next, all) && next.v == cur.v
    && slots + ToCome(c, next) == ToCome(c, cur)
    && (c.Padding() ==>
          var pass := Passing(cur.v, c.rows, c.residuals);
          Keep(ToCome(c, next), pass, next.rowPassed)
              == Keep(ToCome(c, next), pass, AnyAfter(slots, pass, cur.rowPassed)))
  }

  lemma {:induction false} RestSplits<P, T>(
      c: Config<P, T>, all: seq<Row<T>>, cur: Cursor<P>, slots: seq<Slot>, next: Cursor<P>, kept: seq<Slot>)
    requires !c.Filtering() && !c.MarksOnly() && GoesOn(c, all, cur, slots, next)
    requires kept == Survivors(c, cur.v, slots, cur.rowPassed)
    ensures SlotsOk(cur.v, c.rows, kept)
    ensures Outs(cur.v, c.rows, kept) + RestOf(c, Some(next), all) == RestOf(c, Some(cur), all)
  {
    var pass, rest := Passing(cur.v, c.rows, c.residuals), ToCome(c, next);
    SurvivorsOk(c, cur, all);
    SurvivorsOk(c, next, all);
    if c.Padding() { KeepConcat(slots, rest, pass, cur.rowPassed); } else { FilterConcat(slots, rest, pass); }
    var more := Survivors(c, cur.v, rest, next.rowPassed);
    assert Survivors(c, cur.v, ToCome(c, cur), cur.rowPassed) == kept + more;
    PartOk(cur.v, c.rows, kept, more);
    OutsConcat(cur.v, c.rows, kept, more);
  }

  lemma {:induction false} PartOk<P, T>(v: View<P>, rows: seq<Row<T>>, a: seq<Slot>, b: seq<Slot>)
    requires SlotsOk(v, rows, a + b)
    ensures SlotsOk(v, rows, a) && SlotsOk(v, rows, b)
  {
    forall i | 0 <= i < |a| ensures SlotOk(v, rows, a[i]) { assert (a + b)[i] == a[i]; }
    forall i | 0 <= i < |b| ensures SlotOk(v, rows, b[i]) { assert (a + b)[|a| + i] == b[i]; }
  }

  /** The step over `slots`, when none of them fails. */
  lemma {:induction false} StepsOver<P, T>(
      c: Config<P, T>, all: seq<Row<T>>, cur: Cursor<P>, slots: seq<Slot>, next: Cursor<P>, kept: seq<Slot>,
      marks: set<nat>, s: Step<P, T>)
    requires !c.Filtering() && !c.MarksOnly() && GoesOn(c, all, cur, slots, next)
    requires kept == Survivors(c, cur.v, slots, cur.rowPassed) && !SomeFails(cur.v, c.rows, c.residuals, slots)
    requires SlotsOk(cur.v, c.rows, kept)
    requires s.Stepped? && s.cursor == Some(next)
    requires s.out.Some? ==> BatchOk(s.out.value) && |s.out.value.data| <= c.batchSize
    requires RowsOf(s.out) == Outs(cur.v, c.rows, kept)
    requires s.marks == if c.Marking() then marks + MarksOf(cur.v, c.rows, c.residuals, slots) else marks
    requires WorkLeft(c, Some(next), all) < WorkLeft(c, Some(cur), all)
    ensures StepOk(c, all, cur, marks, s)
  {
    hide Survivors;
    RestSplits(c, all, cur, slots, next, kept);
    MarksConcat(cur.v, c.rows, c.residuals, slots, ToCome(c, next));
  }

  /** A failing slot is a failure to come. */
  lemma {:induction false} StepFails<P, T>(
      c: Config<P, T>, all: seq<Row<T>>, cur: Cursor<P>, slots: seq<Slot>, rest: seq<Slot>)
    requires !c.Filtering() && !c.MarksOnly() && CursorOk(c, cur, all) && slots + rest == ToCome(c, cur)
    requires SomeFails(cur.v, c.rows, c.residuals, slots)
    ensures forall marks :: StepOk(c, all, cur, marks, Failed)
  {
    MarksConcat(cur.v, c.rows, c.residuals, slots, rest);
  }

  /** The end of a batch. */
  lemma {:induction false} StepEnds<P, T>(c: Config<P, T>, all: seq<Row<T>>, cur: Cursor<P>, marks: set<nat>)
    requires !c.Filtering() && !c.MarksOnly() && CursorOk(c, cur, all) && ToCome(c, cur) == []
    ensures StepOk(c, all, cur, marks, Stepped(None, None, marks))
  {
    assert Survivors(c, cur.v, [], cur.rowPassed) == [];
  }

  // ---- left and full joins over slots ----

  ghost predicate SlotCursor<P, T>(c: Config<P, T>, all: seq<Row<T>>, cur: Cursor<P>) {
    CursorOk(c, cur, all) && !c.Windowed() && c.Padding()
  }

  lemma {:induction false} GoesOnSlots<P, T>(
      c: Config<P, T>, all: seq<Row<T>>, cur: Cursor<P>, slots: seq<Slot>, next: Cursor<P>)
    requires SlotCursor(c, all, cur) && next == cur.(row := next.row, taken := next.taken, rowPassed := next.rowPassed)
    requires Leads(cur.v, |c.rows|, true, false, cur.row, cur.taken, slots, next.row, next.taken)
    requires next.rowPassed ==> next.taken > 0
    requires c.residuals == [] || next.rowPassed == AnyAfter(slots, Passing(cur.v, c.rows, c.residuals), cur.rowPassed)
    ensures GoesOn(c, all, cur, slots, next)
  {
    if c.residuals == [] {
      var pass, rest := Passing(cur.v, c.rows, c.residuals), ToCome(c, next);
      AllPass(c, all, next);
      KeepEvery(rest, pass, next.rowPassed);
      KeepEvery(rest, pass, AnyAfter(slots, pass, cur.rowPassed));
    }
  }

  lemma {:induction false} AllPass<P, T>(c: Config<P, T>, all: seq<Row<T>>, cur: Cursor<P>)
    requires CursorOk(c, cur, all) && c.residuals == []
    ensures forall i | 0 <= i < |ToCome(c, cur)| && ToCome(c, cur)[i].candidate.Some? ::
      Passing(cur.v, c.rows, c.residuals)(ToCome(c, cur)[i])
  {
    ToComeProper(c, cur, all);
  }

  /** The slots that come out of a batch of them, and what they mark. */
  method KeepSlots<P, T>(
      c: Config<P, T>, ghost all: seq<Row<T>>, cur: Cursor<P>, marks: set<nat>, slots: seq<Slot>, row: nat, taken: nat)
    returns (ok: bool, kept: seq<Slot>, rowPassed: bool, marks': set<nat>)
    requires SlotCursor(c, all, cur) && slots != []
    requires Leads(cur.v, |c.rows|, true, false, cur.row, cur.taken, slots, row, taken)
    ensures ok <==> !SomeFails(cur.v, c.rows, c.residuals, slots)
    ensures ok ==> kept == Survivors(c, cur.v, slots, cur.rowPassed) && |kept| <= |slots|
    ensures ok ==> marks' == if c.Marking() then marks + MarksOf(cur.v, c.rows, c.residuals, slots) else marks
    ensures ok ==> (rowPassed ==> taken > 0)
    ensures ok ==> c.residuals == [] || rowPassed == AnyAfter(slots, Passing(cur.v, c.rows, c.residuals), cur.rowPassed)
  {
    ghost var pass := Passing(cur.v, c.rows, c.residuals);
    LeadsProper(cur.v, |c.rows|, true, false, cur.row, cur.taken, slots, row, taken);
    HavePairs(cur.v, c.rows, true, false, cur.row, cur.taken, slots, row, taken);
    kept, rowPassed, marks' := slots, false, marks;
    if c.residuals == [] {
      ok := true;
      forall i | 0 <= i < |slots| && slots[i].candidate.Some? ensures pass(slots[i]) { assert slots[i] in slots; }
      KeepEvery(slots, pass, cur.rowPassed);
      if c.Marking() {
        marks' := MarkCandidates(cur.v, c.rows, marks, slots);
      }
    } else {
      var passing;
      ok, passing := PassingSlots(cur.v, c.rows, c.residuals, slots);
      if ok {
        if c.Marking() {
          marks' := MarkPassing(cur.v, c.rows, c.residuals, false, marks, slots, passing);
          MarkedIs(cur.v, c.rows, c.residuals, marks, marks', slots);
        }
        kept, rowPassed := KeepPassingOrPadded(slots, passing, pass, cur.taken > 0, cur.rowPassed, taken);
        KeepLength(slots, pass, cur.rowPassed);
      }
    }
  }

  lemma {:induction false} KeepLength(slots: seq<Slot>, pass: Slot -> bool, any: bool)
    ensures |Keep(slots, pass, any)| <= |slots|
  {
    if slots != [] { KeepLength(slots[1..], pass, NextAny(slots[0], pass(slots[0]), any)); }
  }

  lemma {:induction false} MarkedIs<P, T>(
      v: View<P>, rows: seq<Row<T>>, residuals: Residuals<P, T>, marks: set<nat>, marks': set<nat>, slots: seq<Slot>)
    requires Fits(v, |rows|)
    requires forall i: nat :: i in marks' <==> i in marks || Marked(v, rows, residuals, false, slots, i)
    ensures marks' == marks + MarksOf(v, rows, residuals, slots)
  {
    forall i: nat ensures Marked(v, rows, residuals, false, slots, i) <==> i in MarksOf(v, rows, residuals, slots) {
      if s :| s in slots && Marks(v, rows, residuals, false, s, i) { }
      if s :| s in slots && Passing(v, rows, residuals)(s) && s.candidate.value == i {
        assert Marks(v, rows, residuals, false, s, i);
      }
    }
  }

  /** Without residuals every candidate is a match. */
  method MarkCandidates<P, T>(
      ghost v: View<P>, ghost rows: seq<Row<T>>, marks: set<nat>, slots: seq<Slot>)
    returns (marks': set<nat>)
    requires forall i | 0 <= i < |slots| && slots[i].candidate.Some? :: HasPair(v, rows, slots[i])
    ensures marks' == marks + MarksOf(v, rows, [], slots)
  {
    hide MarksOf;
    hide HasPair;
    marks' := marks;
    MarksOne(v, rows, Slot(0, None, true));
    assert slots[..0] == [];
    for i := 0 to |slots|
      invariant marks' == marks + MarksOf(v, rows, [], slots[..i])
    {
      assert slots[..i + 1] == slots[..i] + [slots[i]];
      MarksConcat(v, rows, [], slots[..i], [slots[i]]);
      MarksOne(v, rows, slots[i]);
      if slots[i].candidate.Some? {
        marks' := marks' + {slots[i].candidate.value};
      }
    }
    assert slots[..|slots|] == slots;
  }

  lemma {:induction false} MarksOne<P, T>(v: View<P>, rows: seq<Row<T>>, s: Slot)
    requires s.candidate.Some? ==> HasPair(v, rows, s)
    ensures MarksOf(v, rows, [], [s]) == (if s.candidate.Some? then {s.candidate.value} else {})
    ensures MarksOf(v, rows, [], []) == {}
  {
    if s.candidate.Some? { assert s in [s] && Passing(v, rows, [])(s); }
  }

  /** A batch of slots of a left or full join (HashJoinOperator::NextPadded). */
  method NextPadded<P, T>(
      c: Config<P, T>, ghost all: seq<Row<T>>, cur: Cursor<P>, marks: set<nat>)
    returns (s: Step<P, T>)
    requires SlotCursor(c, all, cur)
    ensures StepOk(c, all, cur, marks, s)
  {
    hide StepOk;
    hide GoesOn;
    hide Ahead;
    var slots, row, taken := NextSlots(cur.v, |c.rows|, true, false, c.Limit(), cur.row, cur.taken);
    if slots == [] {
      NothingAhead(cur.v, |c.rows|, true, false, row, taken);
      StepEnds(c, all, cur, marks);
      return Stepped(None, None, marks);
    }
    var ok, kept, rowPassed, marks' := KeepSlots(c, all, cur, marks, slots, row, taken);
    if !ok {
      StepFails(c, all, cur, slots, Ahead(cur.v, |c.rows|, true, false, row, taken));
      return Failed;
    }
    var next := cur.(row := row, taken := taken, rowPassed := rowPassed);
    GoesOnSlots(c, all, cur, slots, next);
    RestSplits(c, all, cur, slots, next, kept);
    s := Stepped(if kept == [] then None else Some(Batch(Outs(cur.v, c.rows, kept), None)), Some(next), marks');
    StepsOver(c, all, cur, slots, next, kept, marks, s);
  }

  // ---- inner joins ----

  function Same<A>(): A -> A {
    (a: A) => a
  }

  function PairsOf<P, T>(v: View<P>, rows: seq<Row<T>>, slots: seq<Slot>): (pairs: seq<Pair<P, T>>)
    requires forall i | 0 <= i < |slots| :: HasPair(v, rows, slots[i])
    ensures |pairs| == |slots| && forall i | 0 <= i < |slots| :: pairs[i] == SlotPair(v, rows, slots[i])
  {
    seq(|slots|, i requires 0 <= i < |slots| => SlotPair(v, rows, slots[i]))
  }

  function JoinedPair<P, T>(): Pair<P, T> -> OutRow<P, T> {
    (p: Pair<P, T>) => Joined(p.probe, p.build)
  }

  /** Filtering the pairs of slots is filtering the slots. */
  lemma {:induction false} PairsFiltered<P, T>(
      v: View<P>, rows: seq<Row<T>>, residuals: Residuals<P, T>, slots: seq<Slot>)
    requires forall i | 0 <= i < |slots| :: HasPair(v, rows, slots[i])
    ensures var kept := Filter(slots, Passing(v, rows, residuals));
      SlotsOk(v, rows, kept)
          && Map(Filter(PairsOf(v, rows, slots), Passes(residuals, Same())), JoinedPair()) == Outs(v, rows, kept)
  {
    if slots != [] {
      var rest := slots[1..];
      PairsFiltered(v, rows, residuals, rest);
      var pairs := PairsOf(v, rows, slots);
      assert pairs[1..] == PairsOf(v, rows, rest);
      if Passing(v, rows, residuals)(slots[0]) {
        FirstOut(v, rows, slots[0], Filter(rest, Passing(v, rows, residuals)),
            Filter(pairs[1..], Passes(residuals, Same())));
      }
    }
  }

  lemma {:induction false} FirstOut<P, T>(
      v: View<P>, rows: seq<Row<T>>, s: Slot, kept: seq<Slot>, pairs: seq<Pair<P, T>>)
    requires HasPair(v, rows, s) && SlotsOk(v, rows, kept) && Map(pairs, JoinedPair()) == Outs(v, rows, kept)
    ensures SlotsOk(v, rows, [s] + kept)
    ensures Map([SlotPair(v, rows, s)] + pairs, JoinedPair()) == Outs(v, rows, [s] + kept)
  {
    OutsConcat(v, rows, [s], kept);
    MapConcat([SlotPair(v, rows, s)], pairs, JoinedPair());
  }

  lemma {:induction false} PairsFail<P, T>(v: View<P>, rows: seq<Row<T>>, residuals: Residuals<P, T>, slots: seq<Slot>)
    requires forall i | 0 <= i < |slots| :: HasPair(v, rows, slots[i])
    ensures NoneFails(PairsOf(v, rows, slots), residuals, Same()) <==> !SomeFails(v, rows, residuals, slots)
  {
    var pairs := PairsOf(v, rows, slots);
    if SomeFails(v, rows, residuals, slots) {
      var s :| s in slots && Failing(v, rows, residuals)(s);
      var i :| 0 <= i < |slots| && slots[i] == s;
      assert pairs[i] in pairs;
    }
    if !NoneFails(pairs, residuals, Same()) {
      var p :| p in pairs && Judge(residuals, Same()(p)) == Fail;
      var i :| 0 <= i < |pairs| && pairs[i] == p;
      assert Failing(v, rows, residuals)(slots[i]);
    }
  }

  /** The residuals of an inner join, on the pairs of its next output (HashJoinOperator::ApplyResiduals). */
  method ApplyResiduals<P, T>(
      v: View<P>, rows: seq<Row<T>>, residuals: Residuals<P, T>, slots: seq<Slot>)
    returns (ok: bool, out: Option<Batch<OutRow<P, T>>>)
    requires forall i | 0 <= i < |slots| :: HasPair(v, rows, slots[i])
    ensures ok <==> !SomeFails(v, rows, residuals, slots)
    ensures ok ==> var kept := Filter(slots, Passing(v, rows, residuals));
      SlotsOk(v, rows, kept) && (out.Some? ==> BatchOk(out.value) && |out.value.data| <= |slots|)
          && RowsOf(out) == Outs(v, rows, kept)
  {
    PairsFiltered(v, rows, residuals, slots);
    PairsFail(v, rows, residuals, slots);
    var kept;
    ok, kept := Sift(PairsOf(v, rows, slots), Same(), residuals);
    out := None;
    if ok && kept != [] {
      FilterLength(PairsOf(v, rows, slots), Passes(residuals, Same()));
      out := Some(Batch(Map(kept, JoinedPair()), None));
    }
  }

  lemma {:induction false} FilterLength<S>(s: seq<S>, keep: S -> bool)
    ensures |Filter(s, keep)| <= |s|
  {
    if s != [] { FilterLength(s[1..], keep); }
  }

  /** Slots of an inner join all have a candidate. */
  lemma {:induction false} InnerPairs<P, T>(
      c: Config<P, T>, all: seq<Row<T>>, cur: Cursor<P>, slots: seq<Slot>, rest: seq<Slot>)
    requires CursorOk(c, cur, all) && c.kind == Inner && slots + rest == ToCome(c, cur)
    ensures forall i | 0 <= i < |slots| :: HasPair(cur.v, c.rows, slots[i])
  {
    ToComeProper(c, cur, all);
    var come := ToCome(c, cur);
    forall i | 0 <= i < |slots| ensures HasPair(cur.v, c.rows, slots[i]) {
      assert come[i] == slots[i] && slots[i] in come;
      InnerSlot(c, cur, slots[i]);
    }
  }

  lemma {:induction false} InnerSlot<P, T>(c: Config<P, T>, cur: Cursor<P>, s: Slot)
    requires Fits(cur.v, |c.rows|) && Standing(cur.v, |c.rows|, false, cur.row, cur.taken)
    requires cur.window <= |cur.v.probes|
    requires c.kind == Inner && s in ToCome(c, cur)
    ensures s.candidate.Some?
  {
    var n := |c.rows|;
    if c.Windowed() {
      InSlots(cur.v, n, false, false, cur.window, s);
    } else {
      InSlots(cur.v, n, false, false, cur.row, s);
      assert s in SlotsFrom(cur.v, n, false, false, cur.row);
    }
    assert s in RowSlots(cur.v, n, false, false, s.row);
  }

  /** A step of an inner join over the pairs `slots`. */
  method StepPairs<P, T>(
      c: Config<P, T>, ghost all: seq<Row<T>>, cur: Cursor<P>, marks: set<nat>, slots: seq<Slot>, next: Cursor<P>)
    returns (s: Step<P, T>)
    requires c.kind == Inner && GoesOn(c, all, cur, slots, next) && |slots| <= c.batchSize
    requires WorkLeft(c, Some(next), all) < WorkLeft(c, Some(cur), all)
    ensures StepOk(c, all, cur, marks, s)
  {
    hide StepOk;
    InnerPairs(c, all, cur, slots, ToCome(c, next));
    var ok, out := ApplyResiduals(cur.v, c.rows, c.residuals, slots);
    if !ok {
      StepFails(c, all, cur, slots, ToCome(c, next));
      return Failed;
    }
    s := Stepped(out, Some(next), marks);
    StepsOver(c, all, cur, slots, next, Filter(slots, Passing(cur.v, c.rows, c.residuals)), marks, s);
  }

  /** A batch of pairs (HashJoinOperator::NextPairs). */
  method NextPairs<P, T>(
      c: Config<P, T>, ghost all: seq<Row<T>>, cur: Cursor<P>, marks: set<nat>)
    returns (s: Step<P, T>)
    requires CursorOk(c, cur, all) && c.kind == Inner && !c.Windowed()
    ensures StepOk(c, all, cur, marks, s)
  {
    hide StepOk;
    hide GoesOn;
    hide Ahead;
    hide WorkLeft;
    var slots, row, taken := NextPairSlots(cur.v, |c.rows|, c.batchSize, cur.row, cur.taken);
    if slots == [] {
      NothingAhead(cur.v, |c.rows|, false, false, row, taken);
      StepEnds(c, all, cur, marks);
      return Stepped(None, None, marks);
    }
    var next := cur.(row := row, taken := taken, rowPassed := false);
    GoesOnPairs(c, all, cur, slots, next);
    s := StepPairs(c, all, cur, marks, slots, next);
  }

  lemma {:induction false} GoesOnPairs<P, T>(
      c: Config<P, T>, all: seq<Row<T>>, cur: Cursor<P>, slots: seq<Slot>, next: Cursor<P>)
    requires CursorOk(c, cur, all) && c.kind == Inner && !c.Windowed() && slots != []
    requires next == cur.(row := next.row, taken := next.taken, rowPassed := false)
    requires Leads(cur.v, |c.rows|, false, false, cur.row, cur.taken, slots, next.row, next.taken)
    ensures GoesOn(c, all, cur, slots, next) && WorkLeft(c, Some(next), all) < WorkLeft(c, Some(cur), all)
  {
    hide Ahead;
  }

  // ---- windows ----

  /** The end of the next window. */
  function WindowEnd<P, T>(c: Config<P, T>, cur: Cursor<P>): nat
    requires cur.window <= |cur.v.probes|
  {
    if c.batchSize < |cur.v.probes| - cur.window then cur.window + c.batchSize else |cur.v.probes|
  }

  /** A window of an inner join over unique keys (HashJoinOperator::NextWindow). */
  method NextWindow<P, T>(
      c: Config<P, T>, ghost all: seq<Row<T>>, cur: Cursor<P>, marks: set<nat>)
    returns (s: Step<P, T>)
    requires CursorOk(c, cur, all) && c.kind == Inner && c.Windowed()
    ensures StepOk(c, all, cur, marks, s)
  {
    hide StepOk;
    hide GoesOn;
    hide WorkLeft;
    hide ToCome;
    if cur.window >= |cur.v.probes| {
      WindowsDone(c, all, cur, marks);
      return Stepped(None, None, marks);
    }
    var end := WindowEnd(c, cur);
    var slots := WindowPairs(cur.v, |c.rows|, cur.window, end);
    WindowGoesOn(c, all, cur);
    WindowLength(cur.v, |c.rows|, false, cur.window, end);
    var next := cur.(window := end);
    GoesOnWindow(c, all, cur, slots, next);
    s := StepPairs(c, all, cur, marks, slots, next);
  }

  lemma {:induction false} WindowsDone<P, T>(c: Config<P, T>, all: seq<Row<T>>, cur: Cursor<P>, marks: set<nat>)
    requires CursorOk(c, cur, all) && !c.Filtering() && !c.MarksOnly() && c.Windowed() && cur.window == |cur.v.probes|
    ensures StepOk(c, all, cur, marks, Stepped(None, None, marks))
  {
    StepEnds(c, all, cur, marks);
  }

  lemma {:induction false} WindowGoesOn<P, T>(c: Config<P, T>, all: seq<Row<T>>, cur: Cursor<P>)
    requires CursorOk(c, cur, all) && c.Windowed() && cur.window < |cur.v.probes|
    ensures var next := cur.(window := WindowEnd(c, cur));
      && CursorOk(c, next, all) && WorkLeft(c, Some(next), all) < WorkLeft(c, Some(cur), all)
      && SlotsBetween(cur.v, |c.rows|, c.Padding(), cur.window, next.window) + ToCome(c, next) == ToCome(c, cur)
  {
    WindowLeads(cur.v, |c.rows|, c.Padding(), cur.window, WindowEnd(c, cur));
  }

  lemma {:induction false} GoesOnWindow<P, T>(
      c: Config<P, T>, all: seq<Row<T>>, cur: Cursor<P>, slots: seq<Slot>, next: Cursor<P>)
    requires CursorOk(c, cur, all) && CursorOk(c, next, all) && c.kind == Inner && next.v == cur.v
    requires slots + ToCome(c, next) == ToCome(c, cur)
    ensures GoesOn(c, all, cur, slots, next)
  {
  }

  lemma {:induction false} WindowLength<P>(v: View<P>, n: nat, pads: bool, begin: nat, end: nat)
    requires Fits(v, n) && Single(v) && begin <= end <= |v.matches|
    ensures |SlotsBetween(v, n, pads, begin, end)| <= end - begin
    decreases end
  {
    if begin < end { WindowLength(v, n, pads, begin, end - 1); }
  }

  /** A window of a left or full join over unique keys, without residuals (HashJoinOperator::NextLeftWindow). */
  method NextLeftWindow<P, T>(
      c: Config<P, T>, ghost all: seq<Row<T>>, cur: Cursor<P>, marks: set<nat>)
    returns (s: Step<P, T>)
    requires CursorOk(c, cur, all) && c.Padding() && c.Windowed()
    ensures StepOk(c, all, cur, marks, s)
  {
    hide StepOk;
    hide GoesOn;
    hide WorkLeft;
    hide ToCome;
    hide Survivors;
    hide SlotsBetween;
    if cur.window >= |cur.v.probes| {
      WindowsDone(c, all, cur, marks);
      return Stepped(None, None, marks);
    }
    var end := WindowEnd(c, cur);
    var data, marked := WindowRows(cur.v, c.rows, marks, cur.window, end);
    var out := Choose(data, cur.v.selected[cur.window..end]);
    WindowGoesOn(c, all, cur);
    var next := cur.(window := end);
    s := Stepped(out, Some(next), if c.Marking() then marked else marks);
    ghost var slots := SlotsBetween(cur.v, |c.rows|, true, cur.window, end);
    WindowKept(c, all, cur, slots, next);
    StepsOver(c, all, cur, slots, next, slots, marks, s);
  }

  lemma {:induction false} WindowKept<P, T>(
      c: Config<P, T>, all: seq<Row<T>>, cur: Cursor<P>, slots: seq<Slot>, next: Cursor<P>)
    requires CursorOk(c, cur, all) && CursorOk(c, next, all) && c.Padding() && c.Windowed()
    requires next == cur.(window := next.window) && slots + ToCome(c, next) == ToCome(c, cur)
    ensures GoesOn(c, all, cur, slots, next)
    ensures slots == Survivors(c, cur.v, slots, cur.rowPassed) && !SomeFails(cur.v, c.rows, c.residuals, slots)
  {
    var pass, come, rest := Passing(cur.v, c.rows, c.residuals), ToCome(c, cur), ToCome(c, next);
    AllPass(c, all, cur);
    AllPass(c, all, next);
    KeepEvery(rest, pass, next.rowPassed);
    KeepEvery(rest, pass, AnyAfter(slots, pass, cur.rowPassed));
    forall i | 0 <= i < |slots| && slots[i].candidate.Some? ensures pass(slots[i]) { assert come[i] == slots[i]; }
    KeepEvery(slots, pass, cur.rowPassed);
  }

  // ---- semi and anti joins ----

  /** Which rows have a match, once the residuals are evaluated or without any. */
  method MatchedRows<P, T>(c: Config<P, T>, ghost all: seq<Row<T>>, cur: Cursor<P>) returns (matched: seq<bool>)
    requires CursorOk(c, cur, all) && (cur.evaluated || c.residuals == [] || c.keep == KeepAll)
    ensures |matched| == |cur.v.probes|
    ensures c.keep == KeepAll || forall r: nat | r < |matched| :: matched[r] == HasMatch(cur.v, c.rows, c.residuals, r)
  {
    if cur.evaluated {
      matched := cur.passed;
    } else {
      matched := Candidate(cur.v, c.rows);
    }
  }

  /** Which rows have a candidate. */
  method Candidate<P, T>(v: View<P>, ghost rows: seq<Row<T>>) returns (some: seq<bool>)
    requires Fits(v, |rows|)
    ensures |some| == |v.probes| && forall r: nat | r < |some| :: some[r] == HasMatch(v, rows, [], r)
  {
    hide HasMatch;
    some := [];
    for row := 0 to |v.probes|
      invariant |some| == row
      invariant forall r: nat | r < row :: some[r] == HasMatch(v, rows, [], r)
    {
      AnyCandidate(v, rows, row);
      some := some + [v.matches[row].end > v.matches[row].begin];
    }
  }

  /** Without residuals a candidate is a match. */
  lemma {:induction false} AnyCandidate<P, T>(v: View<P>, rows: seq<Row<T>>, r: nat)
    requires Fits(v, |rows|) && r < |v.probes|
    ensures HasMatch(v, rows, [], r) <==> v.matches[r].end > v.matches[r].begin
  {
    if v.matches[r].end > v.matches[r].begin { assert Meeting(v, rows, [], r, v.matches[r].begin, Pass); }
  }

  lemma {:induction false} StepKeeps<P, T>(
      c: Config<P, T>, all: seq<Row<T>>, cur: Cursor<P>, next: Cursor<P>, out: Option<Batch<OutRow<P, T>>>,
      marks: set<nat>)
    requires c.Filtering() && CursorOk(c, cur, all) && CursorOk(c, next, all) && next.v == cur.v
    requires cur.window < next.window
    requires out.Some? ==> BatchOk(out.value) && |out.value.data| <= c.batchSize
    requires var data: seq<OutRow<P, T>> := ProbeRows(cur.v.probes);
      RowsOf(out) + SelectedFrom(data, KeptBits(c, cur.v), next.window)
          == SelectedFrom(data, KeptBits(c, cur.v), cur.window)
    requires FailsOf(c, Some(next), all) <==> FailsOf(c, Some(cur), all)
    ensures StepOk(c, all, cur, marks, Stepped(out, Some(next), marks))
  {
  }

  lemma {:induction false} KeepsEnd<P, T>(c: Config<P, T>, all: seq<Row<T>>, cur: Cursor<P>, marks: set<nat>)
    requires c.Filtering() && CursorOk(c, cur, all) && cur.window == |cur.v.probes| && !FailsOf(c, Some(cur), all)
    ensures StepOk(c, all, cur, marks, Stepped(None, None, marks))
  {
  }

  /** Without a candidate there is no failure. */
  lemma {:induction false} NothingFails<P, T>(c: Config<P, T>, all: seq<Row<T>>, cur: Cursor<P>)
    requires CursorOk(c, cur, all) && (cur.evaluated || c.residuals == [] || c.rows == [])
    ensures c.Filtering() ==> !FailsOf(c, Some(cur), all)
  {
  }

  /** A window of the rows a semi or anti join keeps, its residuals evaluated first (HashJoinOperator::NextSelected). */
  method NextSelected<P, T>(
      c: Config<P, T>, ghost all: seq<Row<T>>, cur: Cursor<P>, marks: set<nat>)
    returns (s: Step<P, T>)
    requires CursorOk(c, cur, all) && c.Filtering() && (c.keep == KeepAll ==> c.rows == [])
    ensures StepOk(c, all, cur, marks, s)
  {
    var now := cur;
    if c.residuals != [] && c.keep != KeepAll && !cur.evaluated {
      var ok, passed := EvaluatePairs(cur.v, c.rows, c.residuals, c.alike, c.Limit());
      if !ok {
        return Failed;
      }
      now := cur.(evaluated := true, passed := passed);
    }
    hide StepOk;
    NothingFails(c, all, now);
    assert !FailsOf(c, Some(cur), all);
    if now.window >= |now.v.probes| {
      KeepsEnd(c, all, cur, marks);
      return Stepped(None, None, marks);
    }
    var end := WindowEnd(c, now);
    var matched := MatchedRows(c, all, now);
    var out := KeepWindow(now.v, c.keep, matched, now.window, end, KeptBits(c, now.v));
    var next := now.(window := end);
    NothingFails(c, all, next);
    s := Stepped(out, Some(next), marks);
    StepKeeps(c, all, cur, next, out, marks);
  }

  /** The whole batch, marked (HashJoinOperator::MarkMatches). */
  method MarkBatch<P, T>(
      c: Config<P, T>, ghost all: seq<Row<T>>, cur: Cursor<P>, marks: set<nat>)
    returns (s: Step<P, T>)
    requires CursorOk(c, cur, all) && c.MarksOnly() && cur.row == 0 && cur.taken == 0 && !cur.evaluated
    ensures StepOk(c, all, cur, marks, s)
  {
    var ok, marks' := MarkMatches(cur.v, c.rows, c.residuals, c.alike, c.Limit(), marks);
    if !ok {
      return Failed;
    }
    s := Stepped(Some(Batch([], None)), None, marks');
    BatchMarked(c, all, cur, marks, marks');
  }

  lemma {:induction false} BatchMarked<P, T>(
      c: Config<P, T>, all: seq<Row<T>>, cur: Cursor<P>, marks: set<nat>, marks': set<nat>)
    requires CursorOk(c, cur, all) && c.MarksOnly() && cur.row == 0 && cur.taken == 0
    requires forall i: nat ::
      i in marks' <==> i in marks || exists r: nat :: Meeting(cur.v, c.rows, c.residuals, r, i, Pass)
    ensures marks' == marks + MarksToCome(c, Some(cur), all)
  {
    AtRow(cur.v, |c.rows|, false, false, 0);
    var slots := SlotsFrom(cur.v, |c.rows|, false, false, 0);
    assert ToCome(c, cur) == slots;
    hide Ahead;
    hide SlotsFrom;
    forall i: nat
      ensures i in MarksOf(cur.v, c.rows, c.residuals, slots)
        <==> exists r: nat :: Meeting(cur.v, c.rows, c.residuals, r, i, Pass)
    {
      SlotsMark(cur.v, c.rows, c.residuals, false, i);
    }
  }

  /** The next step, by the join's kind (HashJoinOperator::NextOutput). */
  method NextOutput<P, T>(
      c: Config<P, T>, ghost all: seq<Row<T>>, cur: Cursor<P>, marks: set<nat>)
    returns (s: Step<P, T>)
    requires CursorOk(c, cur, all) && (c.Filtering() && c.keep == KeepAll ==> c.rows == [])
    requires c.MarksOnly() ==> cur.row == 0 && cur.taken == 0 && !cur.evaluated
    ensures StepOk(c, all, cur, marks, s)
  {
    if c.kind == Inner {
      if c.unique { s := NextWindow(c, all, cur, marks); } else { s := NextPairs(c, all, cur, marks); }
    } else if c.Padding() {
      if c.unique && c.residuals == [] {
        s := NextLeftWindow(c, all, cur, marks);
      } else {
        s := NextPadded(c, all, cur, marks);
      }
    } else if c.MarksOnly() {
      s := MarkBatch(c, all, cur, marks);
    } else {
      s := NextSelected(c, all, cur, marks);
    }
  }
}
