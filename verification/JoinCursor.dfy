/**
 One step of a join's probe (src/exec/hash_join.cc, NextOutput and what it calls): from where a probe
 batch stands it emits the next rows and moves on. What it emits and what is left make up what was
 left before.
 */
module JoinCursor {
  import opened Options
  import opened JoinRows
  import opened JoinResiduals
  import opened JoinSlots
  import opened JoinPadding
  import opened NestedLoop
  import opened JoinMarking
  import opened JoinWindows

  const MAX_SLOTS: nat := 0xFFFF_FFFF

  datatype Kind = Inner | Left | Semi | Anti | NullAwareAnti | Full

  /** A join over a prepared table whose rows are `rows`. */
  datatype Config<!P, !T> = Config(kind: Kind, buildsLeft: bool, rows: seq<Row<T>>, unique: bool,
                                   residuals: Residuals<P, T>, alike: bool, batchSize: nat, keep: Keeps)
  {
    /** Whether the probe marks the build rows it matches, for the tail to read. */
    predicate Marking() { kind == Full || MarksOnly() }
    predicate MarksOnly() { buildsLeft && (kind == Semi || kind == Anti) }
    predicate Padding() { kind == Left || kind == Full }
    predicate Filtering() { kind == NullAwareAnti || (!buildsLeft && (kind == Semi || kind == Anti)) }
    /** Whether the probe takes windows of its rows rather than slots. */
    predicate Windowed() { Filtering() || (unique && (kind == Inner || (Padding() && residuals == []))) }
    function Limit(): nat { if batchSize < MAX_SLOTS then batchSize else MAX_SLOTS }
  }

  /** Where a probe batch stands. */
  datatype Cursor<P> = Cursor(v: View<P>, row: nat, taken: nat, window: nat, evaluated: bool, passed: seq<bool>,
      rowPassed: bool)

  ghost predicate CursorOk<P, T>(c: Config<P, T>, cur: Cursor<P>, all: seq<Row<T>>) {
    && c.batchSize > 0
    && Probed(cur.v, c.rows, all) && OneKey(cur.v, c.rows)
    && (c.alike ==> Alike(c.residuals, cur.v.probes, c.rows) && (c.kind == Semi || c.kind == Anti))
    && (c.unique ==> Single(cur.v))
    && Standing(cur.v, |c.rows|, false, cur.row, cur.taken) && cur.window <= |cur.v.probes|
    && (cur.rowPassed ==> cur.taken > 0)
    && (c.Windowed() ==> cur.row == 0 && cur.taken == 0)
    && (cur.evaluated ==>
        |cur.passed| == |cur.v.probes| && forall r: nat | r < |cur.v.probes| ::
        cur.passed[r] == HasMatch(cur.v, c.rows, c.residuals, r))
  }

  /** The slots to come; a window starts at a row. */
  ghost function ToCome<P, T>(c: Config<P, T>, cur: Cursor<P>): seq<Slot>
    requires Fits(cur.v, |c.rows|) && Standing(cur.v, |c.rows|, false, cur.row, cur.taken)
    requires cur.window <= |cur.v.probes|
  {
    if c.Windowed() then SlotsFrom(cur.v, |c.rows|, c.Padding(), false, cur.window)
    else Ahead(cur.v, |c.rows|, c.Padding(), false, cur.row, cur.taken)
  }

  /** Which rows a semi or anti join keeps. */
  ghost function KeptBits<P, T>(c: Config<P, T>, v: View<P>): (bits: seq<bool>)
    requires Fits(v, |c.rows|)
    ensures |bits| == |v.probes|
    ensures forall r: nat | r < |v.probes| ::
      bits[r] == KeepsRow(c.keep, v.selected[r], v.probes[r].key.Some?, HasMatch(v, c.rows, c.residuals, r))
  {
    seq(|v.probes|, (r: nat) requires r < |v.probes| && Fits(v, |c.rows|) =>
      KeepsRow(c.keep, v.selected[r], v.probes[r].key.Some?, HasMatch(v, c.rows, c.residuals, r)))
  }

  /** The slots of `slots` that come out: those that pass, or pad. */
  ghost function Survivors<P, T>(c: Config<P, T>, v: View<P>, slots: seq<Slot>, any: bool): seq<Slot> {
    if c.Padding() then Keep(slots, Passing(v, c.rows, c.residuals), any)
        else Filter(slots, Passing(v, c.rows, c.residuals))
  }

  /** The rows still to come of a probe batch. */
  ghost function RestOf<P, T>(c: Config<P, T>, cur: Option<Cursor<P>>, all: seq<Row<T>>): seq<OutRow<P, T>>
    requires cur.Some? ==> CursorOk(c, cur.value, all)
  {
    if cur.None? then []
    else if c.Filtering() then SelectedFrom(ProbeRows(cur.value.v.probes), KeptBits(c, cur.value.v), cur.value.window)
    else if c.MarksOnly() then []
    else
      SurvivorsOk(c, cur.value, all);
      Outs(cur.value.v, c.rows, Survivors(c, cur.value.v, ToCome(c, cur.value), cur.value.rowPassed))
  }

  /** Whether one of the pairs still to come fails. */
  ghost predicate FailsOf<P, T>(c: Config<P, T>, cur: Option<Cursor<P>>, all: seq<Row<T>>)
    requires cur.Some? ==> CursorOk(c, cur.value, all)
  {
    && cur.Some?
    && if c.Filtering() || c.MarksOnly() then !cur.value.evaluated && exists r: nat ::
        HasFailure(cur.value.v, c.rows, c.residuals, r)
       else SomeFails(cur.value.v, c.rows, c.residuals, ToCome(c, cur.value))
  }

  /** The build rows that the pairs still to come mark. */
  ghost function MarksToCome<P, T>(c: Config<P, T>, cur: Option<Cursor<P>>, all: seq<Row<T>>): set<nat>
    requires cur.Some? ==> CursorOk(c, cur.value, all)
  {
    if cur.Some? && c.Marking() then MarksOf(cur.value.v, c.rows, c.residuals, ToCome(c, cur.value)) else {}
  }

  /** What is left to do, to bound the steps. */
  ghost function WorkLeft<P, T>(c: Config<P, T>, cur: Option<Cursor<P>>, all: seq<Row<T>>): nat
    requires cur.Some? ==> CursorOk(c, cur.value, all)
  {
    if cur.None? then 0 else if c.Windowed() then 1 + |cur.value.v.probes| - cur.value.window
        else 1 + |ToCome(c, cur.value)|
  }

  // ---- slots are in order ----

  lemma {:induction false} KeepKeepsOk<P, T>(
      v: View<P>, rows: seq<Row<T>>, slots: seq<Slot>, pass: Slot -> bool, any: bool)
    requires SlotsOk(v, rows, slots)
    ensures SlotsOk(v, rows, Keep(slots, pass, any))
  {
    if slots != [] { KeepKeepsOk(v, rows, slots[1..], pass, NextAny(slots[0], pass(slots[0]), any)); }
  }

  lemma {:induction false} FilterKeepsOk<P, T>(v: View<P>, rows: seq<Row<T>>, slots: seq<Slot>, pass: Slot -> bool)
    requires SlotsOk(v, rows, slots)
    ensures SlotsOk(v, rows, Filter(slots, pass))
  {
    if slots != [] { FilterKeepsOk(v, rows, slots[1..], pass); }
  }

  lemma {:induction false} ToComeProper<P, T>(c: Config<P, T>, cur: Cursor<P>, all: seq<Row<T>>)
    requires CursorOk(c, cur, all)
    ensures Proper(ToCome(c, cur), 0, |cur.v.probes|, |c.rows|) && SlotsOk(cur.v, c.rows, ToCome(c, cur))
  {
    if c.Windowed() {
      FromRow(cur.v, |c.rows|, c.Padding(), false, cur.window);
    } else {
      AheadProper(cur.v, |c.rows|, c.Padding(), false, cur.row, cur.taken);
    }
    var slots := ToCome(c, cur);
    forall i | 0 <= i < |slots| ensures SlotOk(cur.v, c.rows, slots[i]) { assert slots[i] in slots; }
  }

  lemma {:induction false} SurvivorsOk<P, T>(c: Config<P, T>, cur: Cursor<P>, all: seq<Row<T>>)
    requires CursorOk(c, cur, all)
    ensures SlotsOk(cur.v, c.rows, Survivors(c, cur.v, ToCome(c, cur), cur.rowPassed))
  {
    ToComeProper(c, cur, all);
    KeepKeepsOk(cur.v, c.rows, ToCome(c, cur), Passing(cur.v, c.rows, c.residuals), cur.rowPassed);
    FilterKeepsOk(cur.v, c.rows, ToCome(c, cur), Passing(cur.v, c.rows, c.residuals));
  }
}
