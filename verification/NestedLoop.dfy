/**
 The rows a join outputs for each probe row, by nested loops over the build rows, and that the slots
 of a probe batch give the same rows (src/exec/hash_join.cc; what its header promises).
 */
module NestedLoop {
  import opened Options
  import opened Lists
  import opened JoinRows
  import opened JoinTable
  import opened JoinResiduals
  import opened JoinSlots
  import opened JoinPadding

  datatype OutRow<P, T> =
    | Joined(probe: Probe<P>, build: Row<T>)  // a pair
    | Padded(probe: Probe<P>)                 // a probe row with NULL build columns
    | ProbeRow(probe: Probe<P>)               // a probe row by itself (semi and anti joins)
    | BuildRow(build: Row<T>)                 // a build row of the tail
    | NullRow(value: T)                       // a build row with a NULL key

  type Residuals<!P, !T> = seq<Pair<P, T> -> Verdict>

  // ---- nested loops ----

  /** How a pair of `p` is judged. */
  function Judged<P, T>(residuals: Residuals<P, T>, p: Probe<P>): Row<T> -> bool {
    (b: Row<T>) => Judge(residuals, Pair(p, b)) == Pass
  }

  function JoinedTo<P, T>(p: Probe<P>): Row<T> -> OutRow<P, T> {
    (b: Row<T>) => Joined(p, b)
  }

  /** The matches of `p`: the build rows with its key whose pair passes, in input order. */
  ghost function MatchesOf<P, T>(all: seq<Row<T>>, residuals: Residuals<P, T>, p: Probe<P>): seq<Row<T>> {
    Filter(Meets(all, p.key), Judged(residuals, p))
  }

  /** An inner join's rows of `p`. */
  ghost function InnerRow<P, T>(all: seq<Row<T>>, residuals: Residuals<P, T>): Probe<P> -> seq<OutRow<P, T>> {
    (p: Probe<P>) => Map(MatchesOf(all, residuals, p), JoinedTo(p))
  }

  /** A left join's rows of `p`. */
  ghost function LeftRow<P, T>(all: seq<Row<T>>, residuals: Residuals<P, T>): Probe<P> -> seq<OutRow<P, T>> {
    (p: Probe<P>) => if MatchesOf(all, residuals, p) == [] then [Padded(p)]
        else Map(MatchesOf(all, residuals, p), JoinedTo(p))
  }

  /** The rows that come of every item, in order. */
  ghost function Output<A, B>(row: A -> seq<B>, items: seq<A>): seq<B> {
    if items == [] then [] else row(items[0]) + Output(row, items[1..])
  }

  lemma {:induction false} OutputConcat<A, B>(row: A -> seq<B>, a: seq<A>, b: seq<A>)
    ensures Output(row, a + b) == Output(row, a) + Output(row, b)
  {
    if a == [] {
      assert a + b == b;
    } else {
      OutputConcat(row, a[1..], b);
      assert (a + b)[1..] == a[1..] + b;
      Regroup(row(a[0]), Output(row, a[1..]), Output(row, b));
    }
  }

  /** The selected rows of a batch from `row` on. */
  function SelectedFrom<A>(items: seq<A>, selected: seq<bool>, row: nat): seq<A>
    requires |items| == |selected| && row <= |items|
    decreases |items| - row
  {
    if row == |items| then []
    else if selected[row] then [items[row]] + SelectedFrom(items, selected, row + 1)
    else SelectedFrom(items, selected, row + 1)
  }

  // ---- from slots to rows ----

  predicate SlotOk<P, T>(v: View<P>, rows: seq<Row<T>>, s: Slot) {
    s.row < |v.probes| && (s.candidate.Some? ==> s.candidate.value < |rows|)
  }

  predicate SlotsOk<P, T>(v: View<P>, rows: seq<Row<T>>, slots: seq<Slot>) {
    forall i | 0 <= i < |slots| :: SlotOk(v, rows, slots[i])
  }

  function OutOf<P, T>(v: View<P>, rows: seq<Row<T>>, s: Slot): OutRow<P, T>
    requires SlotOk(v, rows, s)
  {
    if s.candidate.Some? then Joined(v.probes[s.row], rows[s.candidate.value]) else Padded(v.probes[s.row])
  }

  /** The output rows of slots: their probe rows taken, their build rows gathered. */
  function Outs<P, T>(v: View<P>, rows: seq<Row<T>>, slots: seq<Slot>): (outs: seq<OutRow<P, T>>)
    requires SlotsOk(v, rows, slots)
    ensures |outs| == |slots| && forall i | 0 <= i < |slots| :: outs[i] == OutOf(v, rows, slots[i])
  {
    seq(|slots|, i requires 0 <= i < |slots| => OutOf(v, rows, slots[i]))
  }

  lemma {:induction false} OutsConcat<P, T>(v: View<P>, rows: seq<Row<T>>, a: seq<Slot>, b: seq<Slot>)
    requires SlotsOk(v, rows, a) && SlotsOk(v, rows, b)
    ensures SlotsOk(v, rows, a + b) && Outs(v, rows, a + b) == Outs(v, rows, a) + Outs(v, rows, b)
  {
  }

  /** The view holds a probe batch: each row's candidates are the build rows it meets. */
  ghost predicate Probed<P, T>(v: View<P>, rows: seq<Row<T>>, all: seq<Row<T>>) {
    && Fits(v, |rows|)
    && forall r | 0 <= r < |v.probes| ::
         rows[v.matches[r].begin..v.matches[r].end] == if v.selected[r] then Meets(all, v.probes[r].key) else []
  }

  // ---- one row ----

  lemma {:induction false} FilterStep<A>(s: seq<A>, k: nat, keep: A -> bool)
    requires k < |s|
    ensures Filter(s[k..], keep) == (if keep(s[k]) then [s[k]] else []) + Filter(s[k + 1..], keep)
  {
    assert s[k..][1..] == s[k + 1..];
    if !keep(s[k]) { assert [] + Filter(s[k + 1..], keep) == Filter(s[k + 1..], keep); }
  }

  lemma {:induction false} MapConcat<A, B>(a: seq<A>, b: seq<A>, f: A -> B)
    ensures Map(a + b, f) == Map(a, f) + Map(b, f)
  {
  }

  /** A row's slots from its candidate `k` on, as an inner join keeps them. */
  lemma {:induction false} InnerSlots<P, T>(v: View<P>, rows: seq<Row<T>>, residuals: Residuals<P, T>, r: nat, k: nat)
    requires Fits(v, |rows|) && r < |v.probes| && k <= v.matches[r].end - v.matches[r].begin
    ensures var kept := Filter(RowSlots(v, |rows|, false, false, r)[k..], Passing(v, rows, residuals));
      && SlotsOk(v, rows, kept)
      && Outs(v, rows, kept)
          == Map(Filter(rows[v.matches[r].begin..v.matches[r].end][k..], Judged(residuals, v.probes[r])),
          JoinedTo(v.probes[r]))
    decreases v.matches[r].end - v.matches[r].begin - k
  {
    var m := v.matches[r];
    var slots, found := RowSlots(v, |rows|, false, false, r), rows[m.begin..m.end];
    if k < m.end - m.begin {
      InnerSlots(v, rows, residuals, r, k + 1);
      FilterStep(slots, k, Passing(v, rows, residuals));
      FilterStep(found, k, Judged(residuals, v.probes[r]));
      InnerSlot(v, rows, residuals, r, slots[k], found[k], Filter(slots[k + 1..], Passing(v, rows, residuals)),
                Filter(found[k + 1..], Judged(residuals, v.probes[r])));
    }
  }

  lemma {:induction false} InnerSlot<P, T>(
      v: View<P>, rows: seq<Row<T>>, residuals: Residuals<P, T>, r: nat, s: Slot, b: Row<T>, slots: seq<Slot>,
      found: seq<Row<T>>)
    requires r < |v.probes| && HasPair(v, rows, s) && s.row == r && rows[s.candidate.value] == b
    requires SlotsOk(v, rows, slots)
    requires Outs(v, rows, slots) == Map(found, JoinedTo(v.probes[r]))
    ensures var s' := (if Passing(v, rows, residuals)(s) then [s] else []) + slots;
      && SlotsOk(v, rows, s')
      && Outs(v, rows, s')
          == Map((if Judged(residuals, v.probes[r])(b) then [b] else []) + found, JoinedTo(v.probes[r]))
  {
    var passed := Passing(v, rows, residuals)(s);
    OutsConcat(v, rows, if passed then [s] else [], slots);
    MapConcat(if passed then [b] else [], found, JoinedTo<P, T>(v.probes[r]));
  }

  /** A row's slots from its candidate `k` on, as a left join keeps them; `any`: one before `k` passed. */
  lemma {:induction false} LeftSlots<P, T>(
      v: View<P>, rows: seq<Row<T>>, residuals: Residuals<P, T>, r: nat, k: nat, any: bool)
    requires Fits(v, |rows|) && r < |v.probes| && k < v.matches[r].end - v.matches[r].begin
    ensures var kept := Keep(RowSlots(v, |rows|, true, false, r)[k..], Passing(v, rows, residuals), any);
      var found := Filter(rows[v.matches[r].begin..v.matches[r].end][k..], Judged(residuals, v.probes[r]));
      && SlotsOk(v, rows, kept)
      && Outs(v, rows, kept) == Map(found, JoinedTo(v.probes[r])) + if !any
          && found == [] then [Padded(v.probes[r])] else []
    ensures !AnyAfter(RowSlots(v, |rows|, true, false, r)[k..], Passing(v, rows, residuals), any)
    decreases v.matches[r].end - v.matches[r].begin - k
  {
    var m := v.matches[r];
    var slots, rest := RowSlots(v, |rows|, true, false, r), rows[m.begin..m.end];
    var pass, judged := Passing(v, rows, residuals), Judged<P, T>(residuals, v.probes[r]);
    KeepStep(slots, k, pass, any);
    FilterStep(rest, k, judged);
    assert slots[k] == Slot(r, Some(m.begin + k), k + 1 == m.end - m.begin) && pass(slots[k]) == judged(rest[k]);
    hide RowSlots;
    hide Keep;
    hide Filter;
    hide AnyAfter;
    if k + 1 < m.end - m.begin {
      LeftSlots(v, rows, residuals, r, k + 1, any || pass(slots[k]));
      LeftSlot(v, rows, r, slots[k], rest[k], pass(slots[k]), any, Keep(slots[k + 1..], pass, any || pass(slots[k])),
          Filter(rest[k + 1..], judged));
    } else {
      LeftLast(v, rows, r, slots[k], rest[k], pass, judged, any, slots[k + 1..], rest[k + 1..]);
    }
  }

  lemma {:induction false} KeepStep(slots: seq<Slot>, k: nat, pass: Slot -> bool, any: bool)
    requires k < |slots|
    ensures var next := NextAny(slots[k], pass(slots[k]), any);
      && Keep(slots[k..], pass, any) == KeepOne(slots[k], pass(slots[k]), any) + Keep(slots[k + 1..], pass, next)
      && AnyAfter(slots[k..], pass, any) == AnyAfter(slots[k + 1..], pass, next)
  {
    assert slots[k..][1..] == slots[k + 1..];
  }

  lemma {:induction false} LeftLast<P, T>(
      v: View<P>, rows: seq<Row<T>>, r: nat, s: Slot, b: Row<T>, pass: Slot -> bool, judged: Row<T> -> bool, any: bool,
      none: seq<Slot>, empty: seq<Row<T>>)
    requires r < |v.probes| && HasPair(v, rows, s) && s.row == r && rows[s.candidate.value] == b && s.last
    requires pass(s) == judged(b)
    requires none == [] && empty == []
    ensures var kept := KeepOne(s, pass(s), any) + Keep(none, pass, false);
      var found := (if judged(b) then [b] else []) + Filter(empty, judged);
      && SlotsOk(v, rows, kept) && !AnyAfter(none, pass, false)
      && Outs(v, rows, kept) == Map(found, JoinedTo(v.probes[r])) + if !any
          && found == [] then [Padded(v.probes[r])] else []
  {
  }

  lemma {:induction false} LeftSlot<P, T>(
      v: View<P>, rows: seq<Row<T>>, r: nat, s: Slot, b: Row<T>, passed: bool, any: bool, kept: seq<Slot>,
      found: seq<Row<T>>)
    requires r < |v.probes| && HasPair(v, rows, s) && s.row == r && rows[s.candidate.value] == b && !s.last
    requires SlotsOk(v, rows, kept)
    requires Outs(v, rows, kept) == Map(found, JoinedTo(v.probes[r])) + if !(any || passed)
      && found == [] then [Padded(v.probes[r])] else []
    ensures var kept' := KeepOne(s, passed, any) + kept;
      var found' := (if passed then [b] else []) + found;
      && SlotsOk(v, rows, kept')
      && Outs(v, rows, kept') == Map(found', JoinedTo(v.probes[r])) + if !any
          && found' == [] then [Padded(v.probes[r])] else []
  {
    OutsConcat(v, rows, KeepOne(s, passed, any), kept);
    MapConcat(if passed then [b] else [], found, JoinedTo<P, T>(v.probes[r]));
  }

  // ---- all rows of a batch ----

  lemma {:induction false} InnerWhole<P, T>(
      v: View<P>, rows: seq<Row<T>>, all: seq<Row<T>>, residuals: Residuals<P, T>, r: nat)
    requires Probed(v, rows, all) && r < |v.probes|
    ensures var kept := Filter(RowSlots(v, |rows|, false, false, r), Passing(v, rows, residuals));
      SlotsOk(v, rows, kept)
          && Outs(v, rows, kept) == if v.selected[r] then InnerRow(all, residuals)(v.probes[r]) else []
  {
    var m := v.matches[r];
    var slots := RowSlots(v, |rows|, false, false, r);
    InnerSlots(v, rows, residuals, r, 0);
    assert slots[0..] == slots && rows[m.begin..m.end][0..] == rows[m.begin..m.end];
  }

  /** The slots of a batch give an inner join's rows. */
  lemma {:induction false} InnerBatch<P, T>(
      v: View<P>, rows: seq<Row<T>>, all: seq<Row<T>>, residuals: Residuals<P, T>, r: nat)
    requires Probed(v, rows, all) && r <= |v.probes|
    ensures var kept := Filter(SlotsFrom(v, |rows|, false, false, r), Passing(v, rows, residuals));
      SlotsOk(v, rows, kept)
          && Outs(v, rows, kept) == Output(InnerRow(all, residuals), SelectedFrom(v.probes, v.selected, r))
    decreases |v.probes| - r
  {
    hide RowSlots;
    hide Filter;
    hide Output;
    hide SelectedFrom;
    hide InnerRow;
    if r == |v.probes| {
      NoOutput(v, residuals, rows, InnerRow<P, T>(all, residuals));
    } else {
      var pass := Passing(v, rows, residuals);
      var slots, rest := RowSlots(v, |rows|, false, false, r), SlotsFrom(v, |rows|, false, false, r + 1);
      InnerBatch(v, rows, all, residuals, r + 1);
      InnerWhole(v, rows, all, residuals, r);
      FilterConcat(slots, rest, pass);
      OutsConcat(v, rows, Filter(slots, pass), Filter(rest, pass));
      SelectedStep(InnerRow<P, T>(all, residuals), v.probes, v.selected, r);
    }
  }

  lemma {:induction false} NoOutput<P, T>(
      v: View<P>, residuals: Residuals<P, T>, rows: seq<Row<T>>, row: Probe<P> -> seq<OutRow<P, T>>)
    requires |v.probes| == |v.selected|
    ensures Filter([], Passing(v, rows, residuals)) == [] && Keep([], Passing(v, rows, residuals), false) == []
    ensures Output(row, SelectedFrom(v.probes, v.selected, |v.probes|)) == []
  {
  }

  lemma {:induction false} SelectedStep<P, T>(
      row: Probe<P> -> seq<OutRow<P, T>>, probes: seq<Probe<P>>, selected: seq<bool>, r: nat)
    requires |probes| == |selected| && r < |probes|
    ensures Output(row, SelectedFrom(probes, selected, r))
         == (if selected[r] then row(probes[r]) else []) + Output(row, SelectedFrom(probes, selected, r + 1))
  {
    var rest := SelectedFrom(probes, selected, r + 1);
    if selected[r] {
      assert ([probes[r]] + rest)[1..] == rest;
    } else {
      assert [] + Output(row, rest) == Output(row, rest);
    }
  }

  /** A row's slots give its rows of a left join, and nothing carries over to the next row. */
  lemma {:induction false} LeftWhole<P, T>(
      v: View<P>, rows: seq<Row<T>>, all: seq<Row<T>>, residuals: Residuals<P, T>, r: nat)
    requires Probed(v, rows, all) && r < |v.probes|
    ensures var slots, pass := RowSlots(v, |rows|, true, false, r), Passing(v, rows, residuals);
      && SlotsOk(v, rows, Keep(slots, pass, false)) && !AnyAfter(slots, pass, false)
      && Outs(v, rows, Keep(slots, pass, false)) == if v.selected[r] then LeftRow(all, residuals)(v.probes[r]) else []
  {
    var m := v.matches[r];
    var slots := RowSlots(v, |rows|, true, false, r);
    if m.begin < m.end {
      LeftSlots(v, rows, residuals, r, 0, false);
      assert slots[0..] == slots && rows[m.begin..m.end][0..] == rows[m.begin..m.end];
    } else if v.selected[r] {
      assert slots == [Slot(r, None, true)] && slots[1..] == [];
      assert MatchesOf(all, residuals, v.probes[r]) == [];
    } else {
      assert slots == [];
    }
  }

  /** The slots of a batch give a left join's rows. */
  lemma {:induction false} LeftBatch<P, T>(
      v: View<P>, rows: seq<Row<T>>, all: seq<Row<T>>, residuals: Residuals<P, T>, r: nat)
    requires Probed(v, rows, all) && r <= |v.probes|
    ensures var kept := Keep(SlotsFrom(v, |rows|, true, false, r), Passing(v, rows, residuals), false);
      SlotsOk(v, rows, kept)
          && Outs(v, rows, kept) == Output(LeftRow(all, residuals), SelectedFrom(v.probes, v.selected, r))
    decreases |v.probes| - r
  {
    hide Keep;
    hide RowSlots;
    hide Output;
    hide SelectedFrom;
    hide LeftRow;
    if r == |v.probes| {
      NoOutput(v, residuals, rows, LeftRow<P, T>(all, residuals));
    } else {
      var pass := Passing(v, rows, residuals);
      var slots, rest := RowSlots(v, |rows|, true, false, r), SlotsFrom(v, |rows|, true, false, r + 1);
      LeftBatch(v, rows, all, residuals, r + 1);
      LeftWhole(v, rows, all, residuals, r);
      KeepConcat(slots, rest, pass, false);
      OutsConcat(v, rows, Keep(slots, pass, false), Keep(rest, pass, false));
      SelectedStep(LeftRow<P, T>(all, residuals), v.probes, v.selected, r);
    }
  }
}
