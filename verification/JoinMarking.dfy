/**
 Which probe rows have a match and which build rows were matched (src/exec/hash_join.cc,
 EvaluatePairs and MarkMatches), read off the slots in batches of any size, and that meeting only the
 first of alike candidates changes neither.
 */
module JoinMarking {
  import opened Options
  import opened Lists
  import opened CountingSort
  import opened JoinRows
  import opened JoinResiduals
  import opened JoinSlots
  import opened JoinPadding
  import opened NestedLoop

  // ---- meanings ----

  /** How the pair of probe row `r` and the table's row `i` is judged. */
  ghost function PairJudged<P, T>(v: View<P>, rows: seq<Row<T>>, residuals: Residuals<P, T>, r: nat, i: nat): Judgement
    requires r < |v.probes| && i < |rows|
  {
    Judge(residuals, Pair(v.probes[r], rows[i]))
  }

  /** Probe row `r` and the table's row `i` have the same key and are judged `j`. */
  ghost predicate Meeting<P, T>(v: View<P>, rows: seq<Row<T>>, residuals: Residuals<P, T>, r: nat, i: nat, j: Judgement)
    requires Fits(v, |rows|)
  {
    r < |v.probes| && v.matches[r].begin <= i < v.matches[r].end && PairJudged(v, rows, residuals, r, i) == j
  }

  /** Probe row `r` has a match. */
  ghost predicate HasMatch<P, T>(v: View<P>, rows: seq<Row<T>>, residuals: Residuals<P, T>, r: nat)
    requires Fits(v, |rows|)
  {
    exists i: nat :: Meeting(v, rows, residuals, r, i, Pass)
  }

  /** Some pair of probe row `r` fails. */
  ghost predicate HasFailure<P, T>(v: View<P>, rows: seq<Row<T>>, residuals: Residuals<P, T>, r: nat)
    requires Fits(v, |rows|)
  {
    exists i: nat :: Meeting(v, rows, residuals, r, i, Fail)
  }

  /** The build rows that slots match. */
  ghost function MarksOf<P, T>(v: View<P>, rows: seq<Row<T>>, residuals: Residuals<P, T>, slots: seq<Slot>): set<nat> {
    set s | s in slots && Passing(v, rows, residuals)(s) :: s.candidate.value
  }

  ghost predicate SomeFails<P, T>(v: View<P>, rows: seq<Row<T>>, residuals: Residuals<P, T>, slots: seq<Slot>) {
    exists s :: s in slots && Failing(v, rows, residuals)(s)
  }

  lemma {:induction false} MarksConcat<P, T>(
      v: View<P>, rows: seq<Row<T>>, residuals: Residuals<P, T>, a: seq<Slot>, b: seq<Slot>)
    ensures MarksOf(v, rows, residuals, a + b) == MarksOf(v, rows, residuals, a) + MarksOf(v, rows, residuals, b)
    ensures SomeFails(v, rows, residuals, a + b)
      <==> SomeFails(v, rows, residuals, a) || SomeFails(v, rows, residuals, b)
  {
    if SomeFails(v, rows, residuals, a) {
      var s :| s in a && Failing(v, rows, residuals)(s);
      assert s in a + b;
    }
    if SomeFails(v, rows, residuals, b) {
      var s :| s in b && Failing(v, rows, residuals)(s);
      assert s in a + b;
    }
  }

  // ---- the slots of a row ----

  lemma {:induction false} InRow<P>(v: View<P>, n: nat, pads: bool, alike: bool, row: nat, s: Slot)
    requires Fits(v, n) && row < |v.matches|
    ensures s in RowSlots(v, n, pads, alike, row) && s.candidate.Some? <==>
      var m := v.matches[row];
      && s.row == row && s.candidate.Some? && m.begin <= s.candidate.value < m.begin + Candidates(m, alike)
      && s.last == (s.candidate.value + 1 == m.begin + Candidates(m, alike))
    ensures s in RowSlots(v, n, pads, alike, row) ==> s.row == row
  {
    var m, slots := v.matches[row], RowSlots(v, n, pads, alike, row);
    if s.row == row && s.candidate.Some? && m.begin <= s.candidate.value < m.begin + Candidates(m, alike)
       && s.last == (s.candidate.value + 1 == m.begin + Candidates(m, alike))
    {
      assert slots[s.candidate.value - m.begin] == s;
    }
  }

  lemma {:induction false} InSlots<P>(v: View<P>, n: nat, pads: bool, alike: bool, row: nat, s: Slot)
    requires Fits(v, n) && row <= |v.matches|
    ensures s in SlotsFrom(v, n, pads, alike, row)
      <==> row <= s.row < |v.matches| && s in RowSlots(v, n, pads, alike, s.row)
    decreases |v.matches| - row
  {
    if row < |v.matches| {
      InSlots(v, n, pads, alike, row + 1, s);
      InRow(v, n, pads, alike, row, s);
    }
  }

  /** The slot of a row's candidate. */
  function SlotAt<P>(v: View<P>, n: nat, alike: bool, r: nat, i: nat): Slot
    requires Fits(v, n) && r < |v.matches|
  {
    Slot(r, Some(i), i + 1 == v.matches[r].begin + Candidates(v.matches[r], alike))
  }

  // ---- alike candidates ----

  /** The residuals read of the build rows their keys alone. */
  ghost predicate Alike<P, T>(residuals: Residuals<P, T>, probes: seq<Probe<P>>, rows: seq<Row<T>>) {
    forall r, i, j | 0 <= r < |probes| && 0 <= i < |rows| && 0 <= j < |rows| && rows[i].key == rows[j].key ::
      Judge(residuals, Pair(probes[r], rows[i])) == Judge(residuals, Pair(probes[r], rows[j]))
  }

  /** The candidates of a row have its key. */
  ghost predicate OneKey<P, T>(v: View<P>, rows: seq<Row<T>>)
    requires Fits(v, |rows|)
  {
    forall r, i, j | 0 <= r < |v.probes| && v.matches[r].begin <= i < v.matches[r].end
        && v.matches[r].begin <= j < v.matches[r].end ::
      rows[i].key == rows[j].key
  }

  lemma {:induction false} ProbedOneKey<P, T>(v: View<P>, rows: seq<Row<T>>, all: seq<Row<T>>)
    requires Probed(v, rows, all)
    ensures OneKey(v, rows)
  {
    forall r, i, j | 0 <= r < |v.probes| && v.matches[r].begin <= i < v.matches[r].end
        && v.matches[r].begin <= j < v.matches[r].end
      ensures rows[i].key == rows[j].key
    {
      var m, found := v.matches[r], rows[v.matches[r].begin..v.matches[r].end];
      assert found[i - m.begin] == rows[i] && found[j - m.begin] == rows[j];
      assert v.selected[r] && v.probes[r].key.Some?;
      var a := SelectAt(all, RowKey(), v.probes[r].key.value, i - m.begin);
      var b := SelectAt(all, RowKey(), v.probes[r].key.value, j - m.begin);
    }
  }

  /** The first candidate stands for every one of its row. */
  lemma {:induction false} FirstStands<P, T>(
      v: View<P>, rows: seq<Row<T>>, residuals: Residuals<P, T>, alike: bool, r: nat, j: Judgement)
    requires Fits(v, |rows|) && OneKey(v, rows) && (alike ==> Alike(residuals, v.probes, rows)) && r < |v.probes|
    ensures (exists i: nat :: Meeting(v, rows, residuals, r, i, j)) <==>
      (exists i: nat | i < v.matches[r].begin + Candidates(v.matches[r], alike) :: Meeting(v, rows, residuals, r, i, j))
  {
    if i: nat :| Meeting(v, rows, residuals, r, i, j) {
      if i >= v.matches[r].begin + Candidates(v.matches[r], alike) {
        assert Meeting(v, rows, residuals, r, v.matches[r].begin, j);
      }
    }
  }

  /** A slot with a candidate is a meeting of its rows. */
  lemma {:induction false} SlotMeets<P, T>(
      v: View<P>, rows: seq<Row<T>>, residuals: Residuals<P, T>, pads: bool, alike: bool, s: Slot)
    requires Fits(v, |rows|) && s in SlotsFrom(v, |rows|, pads, alike, 0) && HasPair(v, rows, s)
    ensures Meeting(v, rows, residuals, s.row, s.candidate.value, Judge(residuals, SlotPair(v, rows, s)))
  {
    InSlots(v, |rows|, pads, alike, 0, s);
    InRow(v, |rows|, pads, alike, s.row, s);
  }

  /** A meeting has a slot judged alike. */
  lemma {:induction false} MeetingSlot<P, T>(
      v: View<P>, rows: seq<Row<T>>, residuals: Residuals<P, T>, pads: bool, alike: bool, r: nat, j: Judgement)
    returns (s: Slot)
    requires Fits(v, |rows|) && OneKey(v, rows) && (alike ==> Alike(residuals, v.probes, rows))
    requires exists i: nat :: Meeting(v, rows, residuals, r, i, j)
    ensures s in SlotsFrom(v, |rows|, pads, alike, 0) && s.row == r && HasPair(v, rows, s)
    ensures Judge(residuals, SlotPair(v, rows, s)) == j
  {
    hide SlotsFrom;
    hide RowSlots;
    FirstStands(v, rows, residuals, alike, r, j);
    var i: nat :| i < v.matches[r].begin + Candidates(v.matches[r], alike) && Meeting(v, rows, residuals, r, i, j);
    s := SlotAt(v, |rows|, alike, r, i);
    InRow(v, |rows|, pads, alike, r, s);
    InSlots(v, |rows|, pads, alike, 0, s);
  }

  /** A batch's slots fail just when a pair of one of its rows does. */
  lemma {:induction false} SlotsFail<P, T>(
      v: View<P>, rows: seq<Row<T>>, residuals: Residuals<P, T>, pads: bool, alike: bool)
    requires Fits(v, |rows|) && OneKey(v, rows) && (alike ==> Alike(residuals, v.probes, rows))
    ensures SomeFails(v, rows, residuals, SlotsFrom(v, |rows|, pads, alike, 0))
      <==> exists r: nat :: HasFailure(v, rows, residuals, r)
  {
    hide SlotsFrom;
    hide Alike;
    hide OneKey;
    var slots := SlotsFrom(v, |rows|, pads, alike, 0);
    if SomeFails(v, rows, residuals, slots) {
      var s :| s in slots && Failing(v, rows, residuals)(s);
      SlotMeets(v, rows, residuals, pads, alike, s);
      assert HasFailure(v, rows, residuals, s.row);
    }
    if r: nat :| HasFailure(v, rows, residuals, r) {
      var s := MeetingSlot(v, rows, residuals, pads, alike, r, Fail);
      assert Failing(v, rows, residuals)(s);
    }
  }

  /** The rows of the slots that pass are the rows with a match. */
  lemma {:induction false} SlotsMatch<P, T>(
      v: View<P>, rows: seq<Row<T>>, residuals: Residuals<P, T>, pads: bool, alike: bool, r: nat)
    requires Fits(v, |rows|) && OneKey(v, rows) && (alike ==> Alike(residuals, v.probes, rows)) && r < |v.probes|
    ensures HasMatch(v, rows, residuals, r) <==>
      exists s :: s in SlotsFrom(v, |rows|, pads, alike, 0) && s.row == r && Passing(v, rows, residuals)(s)
  {
    hide SlotsFrom;
    hide Alike;
    hide OneKey;
    var slots := SlotsFrom(v, |rows|, pads, alike, 0);
    if s :| s in slots && s.row == r && Passing(v, rows, residuals)(s) {
      SlotMeets(v, rows, residuals, pads, alike, s);
    }
    if HasMatch(v, rows, residuals, r) {
      var s := MeetingSlot(v, rows, residuals, pads, alike, r, Pass);
      assert Passing(v, rows, residuals)(s);
    }
  }

  /** The build rows the slots match are those of the pairs that pass. */
  lemma {:induction false} SlotsMark<P, T>(
      v: View<P>, rows: seq<Row<T>>, residuals: Residuals<P, T>, pads: bool, i: nat)
    requires Fits(v, |rows|)
    ensures i in MarksOf(v, rows, residuals, SlotsFrom(v, |rows|, pads, false, 0))
      <==> exists r: nat :: Meeting(v, rows, residuals, r, i, Pass)
  {
    hide SlotsFrom;
    hide RowSlots;
    var slots := SlotsFrom(v, |rows|, pads, false, 0);
    if s :| s in slots && Passing(v, rows, residuals)(s) && s.candidate.value == i {
      InSlots(v, |rows|, pads, false, 0, s);
      InRow(v, |rows|, pads, false, s.row, s);
      assert Meeting(v, rows, residuals, s.row, i, Pass);
    }
    if r: nat :| Meeting(v, rows, residuals, r, i, Pass) {
      var s := SlotAt(v, |rows|, false, r, i);
      InRow(v, |rows|, pads, false, r, s);
      InSlots(v, |rows|, pads, false, 0, s);
      assert Passing(v, rows, residuals)(s);
    }
  }

  // ---- the rows that passed ----

  /** A slot of row `r` passes. */
  ghost predicate RowPasses<P, T>(v: View<P>, rows: seq<Row<T>>, residuals: Residuals<P, T>, slots: seq<Slot>, r: nat) {
    exists s :: s in slots && s.row == r && Passing(v, rows, residuals)(s)
  }

  lemma {:induction false} RowPassesConcat<P, T>(
      v: View<P>, rows: seq<Row<T>>, residuals: Residuals<P, T>, a: seq<Slot>, b: seq<Slot>, r: nat)
    ensures RowPasses(v, rows, residuals, a + b, r)
      <==> RowPasses(v, rows, residuals, a, r) || RowPasses(v, rows, residuals, b, r)
  {
    if RowPasses(v, rows, residuals, a, r) {
      var s :| s in a && s.row == r && Passing(v, rows, residuals)(s);
      assert s in a + b;
    }
    if RowPasses(v, rows, residuals, b, r) {
      var s :| s in b && s.row == r && Passing(v, rows, residuals)(s);
      assert s in a + b;
    }
  }

  /** Sets the rows of the passing slots. */
  method SetPassed<P, T>(
      ghost v: View<P>, ghost rows: seq<Row<T>>, ghost residuals: Residuals<P, T>, passed: seq<bool>, slots: seq<Slot>,
      passing: seq<nat>)
    returns (passed': seq<bool>)
    requires Numbers(passing, slots, Passing(v, rows, residuals)) && forall s | s in slots :: s.row < |passed|
    ensures |passed'| == |passed|
    ensures forall r: nat | r < |passed| :: passed'[r] == (passed[r] || RowPasses(v, rows, residuals, slots, r))
  {
    forall j | 0 <= j < |passing| ensures passing[j] < |slots| && slots[passing[j]].row < |passed| {
      assert passing[j] in passing;
      assert slots[passing[j]] in slots;
    }
    passed' := passed;
    for i := 0 to |passing|
      invariant |passed'| == |passed|
      invariant forall r: nat | r < |passed| :: passed'[r] ==> passed[r] || RowPasses(v, rows, residuals, slots, r)
      invariant forall r: nat | r < |passed| && passed[r] :: passed'[r]
      invariant forall j | 0 <= j < i :: passed'[slots[passing[j]].row]
    {
      var slot := slots[passing[i]];
      assert passing[i] in passing && slot in slots && RowPasses(v, rows, residuals, slots, slot.row);
      passed' := passed'[slot.row := true];
    }
    forall r: nat | r < |passed| && RowPasses(v, rows, residuals, slots, r) ensures passed'[r] {
      var s :| s in slots && s.row == r && Passing(v, rows, residuals)(s);
      var i: nat :| i < |slots| && slots[i] == s;
      assert i in passing;
      var j :| 0 <= j < |passing| && passing[j] == i;
    }
  }

  lemma {:induction false} HavePairs<P, T>(
      v: View<P>, rows: seq<Row<T>>, pads: bool, alike: bool, row0: nat, taken0: nat, slots: seq<Slot>, row: nat,
      taken: nat)
    requires Fits(v, |rows|) && Leads(v, |rows|, pads, alike, row0, taken0, slots, row, taken)
    ensures forall s | s in slots :: s.row < |v.probes| && (s.candidate.Some? ==> HasPair(v, rows, s))
  {
    LeadsProper(v, |rows|, pads, alike, row0, taken0, slots, row, taken);
  }

  lemma {:induction false} Follows<A>(done: seq<A>, slots: seq<A>, rest: seq<A>, rest': seq<A>, all: seq<A>)
    requires done + rest == all && slots + rest' == rest
    ensures done + slots + rest' == all
  {
    Regroup(done, slots, rest');
  }

  /** Which rows of a batch have a match (HashJoinOperator::EvaluatePairs). */
  method EvaluatePairs<P, T>(
      v: View<P>, rows: seq<Row<T>>, residuals: Residuals<P, T>, alike: bool, limit: nat)
    returns (ok: bool, passed: seq<bool>)
    requires limit > 0 && Fits(v, |rows|) && OneKey(v, rows) && (alike ==> Alike(residuals, v.probes, rows))
    ensures ok <==> !exists r: nat :: HasFailure(v, rows, residuals, r)
    ensures ok ==>
      |passed| == |v.probes| && forall r: nat | r < |v.probes| :: passed[r] == HasMatch(v, rows, residuals, r)
  {
    AtRow(v, |rows|, false, alike, 0);
    SlotsFail(v, rows, residuals, false, alike);
    hide Ahead;
    hide SlotsFrom;
    hide HasMatch;
    hide HasFailure;
    hide Numbers;
    passed := seq(|v.probes|, _ => false);
    var row, taken := 0, 0;
    ghost var done: seq<Slot> := [];
    ghost var all := SlotsFrom(v, |rows|, false, alike, 0);
    while true
      invariant Standing(v, |rows|, alike, row, taken) && done + Ahead(v, |rows|, false, alike, row, taken) == all
      invariant !SomeFails(v, rows, residuals, done) && |passed| == |v.probes|
      invariant forall r: nat | r < |v.probes| :: passed[r] == RowPasses(v, rows, residuals, done, r)
      decreases |Ahead(v, |rows|, false, alike, row, taken)|
    {
      ghost var rest := Ahead(v, |rows|, false, alike, row, taken);
      var slots, row', taken' := NextSlots(v, |rows|, false, alike, limit, row, taken);
      if slots == [] {
        NothingAhead(v, |rows|, false, alike, row', taken');
        assert done == all;
        break;
      }
      HavePairs(v, rows, false, alike, row, taken, slots, row', taken');
      Follows(done, slots, rest, Ahead(v, |rows|, false, alike, row', taken'), all);
      MarksConcat(v, rows, residuals, done, slots);
      MarksConcat(v, rows, residuals, done + slots, Ahead(v, |rows|, false, alike, row', taken'));
      var passing;
      ok, passing := PassingSlots(v, rows, residuals, slots);
      if !ok {
        return;
      }
      var before := passed;
      passed := SetPassed(v, rows, residuals, passed, slots, passing);
      forall r: nat | r < |v.probes| ensures passed[r] == RowPasses(v, rows, residuals, done + slots, r) {
        RowPassesConcat(v, rows, residuals, done, slots, r);
      }
      done, row, taken := done + slots, row', taken';
    }
    forall r: nat | r < |v.probes| ensures passed[r] == HasMatch(v, rows, residuals, r) {
      SlotsMatch(v, rows, residuals, false, alike, r);
    }
    ok := true;
  }

  lemma {:induction false} NothingAhead<P>(v: View<P>, n: nat, pads: bool, alike: bool, row: nat, taken: nat)
    requires Fits(v, n) && Standing(v, n, alike, row, taken) && row == |v.matches|
    ensures Ahead(v, n, pads, alike, row, taken) == []
  {
  }

  // ---- the build rows that matched ----

  /** Slot `s` passes and marks the table's row `i`: its candidate, or any of its row's when they are alike. */
  ghost predicate Marks<P, T>(v: View<P>, rows: seq<Row<T>>, residuals: Residuals<P, T>, alike: bool, s: Slot, i: nat)
    requires Fits(v, |rows|)
  {
    && Passing(v, rows, residuals)(s)
    && if alike then v.matches[s.row].begin <= i < v.matches[s.row].end else i == s.candidate.value
  }

  ghost predicate Marked<P, T>(
      v: View<P>, rows: seq<Row<T>>, residuals: Residuals<P, T>, alike: bool, slots: seq<Slot>, i: nat)
    requires Fits(v, |rows|)
  {
    exists s :: s in slots && Marks(v, rows, residuals, alike, s, i)
  }

  lemma {:induction false} MarkedConcat<P, T>(
      v: View<P>, rows: seq<Row<T>>, residuals: Residuals<P, T>, alike: bool, a: seq<Slot>, b: seq<Slot>, i: nat)
    requires Fits(v, |rows|)
    ensures Marked(v, rows, residuals, alike, a + b, i)
      <==> Marked(v, rows, residuals, alike, a, i) || Marked(v, rows, residuals, alike, b, i)
  {
    if Marked(v, rows, residuals, alike, a, i) {
      var s :| s in a && Marks(v, rows, residuals, alike, s, i);
      assert s in a + b;
    }
    if Marked(v, rows, residuals, alike, b, i) {
      var s :| s in b && Marks(v, rows, residuals, alike, s, i);
      assert s in a + b;
    }
  }

  /** All slots together mark the build rows of the pairs that pass. */
  lemma {:induction false} AllMarked<P, T>(
      v: View<P>, rows: seq<Row<T>>, residuals: Residuals<P, T>, alike: bool, i: nat)
    requires Fits(v, |rows|) && OneKey(v, rows) && (alike ==> Alike(residuals, v.probes, rows))
    ensures Marked(v, rows, residuals, alike, SlotsFrom(v, |rows|, false, alike, 0), i)
      <==> exists r: nat :: Meeting(v, rows, residuals, r, i, Pass)
  {
    hide SlotsFrom;
    hide RowSlots;
    var slots := SlotsFrom(v, |rows|, false, alike, 0);
    if s :| s in slots && Marks(v, rows, residuals, alike, s, i) {
      InSlots(v, |rows|, false, alike, 0, s);
      InRow(v, |rows|, false, alike, s.row, s);
      assert Meeting(v, rows, residuals, s.row, i, Pass);
    }
    if r: nat :| Meeting(v, rows, residuals, r, i, Pass) {
      var c := if alike then v.matches[r].begin else i;
      assert PairJudged(v, rows, residuals, r, c) == Pass;
      var s := SlotAt(v, |rows|, alike, r, c);
      InRow(v, |rows|, false, alike, r, s);
      InSlots(v, |rows|, false, alike, 0, s);
      assert Marks(v, rows, residuals, alike, s, i);
    }
  }

  /** Marks a range of rows. */
  method MarkRange(marks: set<nat>, begin: nat, end: nat) returns (marks': set<nat>)
    ensures forall i: nat :: i in marks' <==> i in marks || begin <= i < end
  {
    marks' := marks;
    var at := begin;
    while at < end
      invariant begin <= at && (end < begin ==> at == begin) && (begin <= end ==> at <= end)
      invariant forall i: nat :: i in marks' <==> i in marks || begin <= i < at
    {
      marks' := marks' + {at};
      at := at + 1;
    }
  }

  /** Marks what the passing slots match. */
  method MarkPassing<P, T>(
      v: View<P>, ghost rows: seq<Row<T>>, ghost residuals: Residuals<P, T>, alike: bool, marks: set<nat>,
      slots: seq<Slot>, passing: seq<nat>)
    returns (marks': set<nat>)
    requires Fits(v, |rows|) && Numbers(passing, slots, Passing(v, rows, residuals))
    ensures forall i: nat :: i in marks' <==> i in marks || Marked(v, rows, residuals, alike, slots, i)
  {
    forall j | 0 <= j < |passing|
      ensures passing[j] < |slots| && Passing(v, rows, residuals)(slots[passing[j]])
    {
      assert passing[j] in passing;
    }
    marks' := marks;
    for k := 0 to |passing|
      invariant forall i: nat | i in marks' :: i in marks || Marked(v, rows, residuals, alike, slots, i)
      invariant marks <= marks'
      invariant forall j, i: nat | 0 <= j < k && Marks(v, rows, residuals, alike, slots[passing[j]], i) :: i in marks'
    {
      var slot := slots[passing[k]];
      assert slot in slots;
      ghost var before := marks';
      if alike {
        marks' := MarkRange(marks', v.matches[slot.row].begin, v.matches[slot.row].end);
      } else {
        marks' := marks' + {slot.candidate.value};
      }
      assert forall i: nat :: i in marks' <==> i in before || Marks(v, rows, residuals, alike, slot, i);
    }
    forall i: nat | Marked(v, rows, residuals, alike, slots, i) ensures i in marks' {
      var s :| s in slots && Marks(v, rows, residuals, alike, s, i);
      var a: nat :| a < |slots| && slots[a] == s;
      assert a in passing;
      var j :| 0 <= j < |passing| && passing[j] == a;
    }
  }

  /** Without residuals, every build row of a matching key. */
  method MarkEvery<P, T>(v: View<P>, ghost rows: seq<Row<T>>, marks: set<nat>) returns (marks': set<nat>)
    requires Fits(v, |rows|)
    ensures forall i: nat :: i in marks' <==> i in marks || exists r: nat :: Meeting(v, rows, [], r, i, Pass)
  {
    marks' := marks;
    for row := 0 to |v.matches|
      invariant forall i: nat ::
        i in marks' <==> i in marks || exists r: nat | r < row :: Meeting(v, rows, [], r, i, Pass)
    {
      ghost var before := marks';
      marks' := MarkRange(marks', v.matches[row].begin, v.matches[row].end);
      forall i: nat ensures i in marks' <==> i in before || Meeting(v, rows, [], row, i, Pass) { }
    }
  }

  /** Marks the build rows a batch matches (HashJoinOperator::MarkMatches). */
  method MarkMatches<P, T>(
      v: View<P>, rows: seq<Row<T>>, residuals: Residuals<P, T>, alike: bool, limit: nat, marks: set<nat>)
    returns (ok: bool, marks': set<nat>)
    requires limit > 0 && Fits(v, |rows|) && OneKey(v, rows) && (alike ==> Alike(residuals, v.probes, rows))
    ensures ok <==> !exists r: nat :: HasFailure(v, rows, residuals, r)
    ensures ok ==> forall i: nat ::
      i in marks' <==> i in marks || exists r: nat :: Meeting(v, rows, residuals, r, i, Pass)
  {
    if residuals == [] {
      marks' := MarkEvery(v, rows, marks);
      ok := true;
    } else {
      ok, marks' := MarkSlots(v, rows, residuals, alike, limit, marks);
    }
  }

  method MarkSlots<P, T>(
      v: View<P>, rows: seq<Row<T>>, residuals: Residuals<P, T>, alike: bool, limit: nat, marks: set<nat>)
    returns (ok: bool, marks': set<nat>)
    requires limit > 0 && Fits(v, |rows|) && OneKey(v, rows) && (alike ==> Alike(residuals, v.probes, rows))
    ensures ok <==> !exists r: nat :: HasFailure(v, rows, residuals, r)
    ensures ok ==> forall i: nat ::
      i in marks' <==> i in marks || exists r: nat :: Meeting(v, rows, residuals, r, i, Pass)
  {
    AtRow(v, |rows|, false, alike, 0);
    SlotsFail(v, rows, residuals, false, alike);
    hide Ahead;
    hide SlotsFrom;
    hide Marks;
    hide HasFailure;
    hide Numbers;
    marks' := marks;
    var row, taken := 0, 0;
    ghost var done: seq<Slot> := [];
    ghost var all := SlotsFrom(v, |rows|, false, alike, 0);
    while true
      invariant Standing(v, |rows|, alike, row, taken) && done + Ahead(v, |rows|, false, alike, row, taken) == all
      invariant !SomeFails(v, rows, residuals, done)
      invariant forall i: nat :: i in marks' <==> i in marks || Marked(v, rows, residuals, alike, done, i)
      decreases |Ahead(v, |rows|, false, alike, row, taken)|
    {
      ghost var rest := Ahead(v, |rows|, false, alike, row, taken);
      var slots, row', taken' := NextSlots(v, |rows|, false, alike, limit, row, taken);
      if slots == [] {
        NothingAhead(v, |rows|, false, alike, row', taken');
        assert done == all;
        break;
      }
      HavePairs(v, rows, false, alike, row, taken, slots, row', taken');
      Follows(done, slots, rest, Ahead(v, |rows|, false, alike, row', taken'), all);
      MarksConcat(v, rows, residuals, done, slots);
      MarksConcat(v, rows, residuals, done + slots, Ahead(v, |rows|, false, alike, row', taken'));
      var passing;
      ok, passing := PassingSlots(v, rows, residuals, slots);
      if !ok {
        return;
      }
      marks' := MarkPassing(v, rows, residuals, alike, marks', slots, passing);
      forall i: nat ensures Marked(v, rows, residuals, alike, done + slots, i) <==>
          Marked(v, rows, residuals, alike, done, i) || Marked(v, rows, residuals, alike, slots, i)
      {
        MarkedConcat(v, rows, residuals, alike, done, slots, i);
      }
      done, row, taken := done + slots, row', taken';
    }
    forall i: nat ensures i in marks' <==> i in marks || exists r: nat :: Meeting(v, rows, residuals, r, i, Pass) {
      AllMarked(v, rows, residuals, alike, i);
    }
    ok := true;
  }
}
