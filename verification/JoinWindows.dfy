/**
 The windows of a probe batch (src/exec/hash_join.cc, NextRange, NextSelected, NextWindow,
 CompactWindow and NextLeftWindow): slices of it with a selection, or its matched rows alone.
 */
module JoinWindows {
  import opened Options
  import opened Lists
  import opened JoinRows
  import opened JoinSlots
  import opened JoinPadding
  import opened NestedLoop
  import opened JoinMarking

  /** A batch of rows, those of its selection alone when it has one. */
  datatype Batch<R> = Batch(data: seq<R>, selection: Option<seq<bool>>)

  predicate BatchOk<R>(b: Batch<R>) {
    b.selection.Some? ==> |b.selection.value| == |b.data|
  }

  function SelectedRows<R>(b: Batch<R>): seq<R> {
    if b.selection.Some? && |b.selection.value| == |b.data| then SelectedFrom(b.data, b.selection.value, 0) else b.data
  }

  function RowsOf<R>(b: Option<Batch<R>>): seq<R> {
    if b.Some? then SelectedRows(b.value) else []
  }

  lemma {:induction false} AllSelected<A>(items: seq<A>, selected: seq<bool>, r: nat)
    requires |items| == |selected| && r <= |items| && forall i | r <= i < |items| :: selected[i]
    ensures SelectedFrom(items, selected, r) == items[r..]
    decreases |items| - r
  {
    if r < |items| { AllSelected(items, selected, r + 1); }
  }

  lemma {:induction false} NoneSelected<A>(items: seq<A>, selected: seq<bool>, r: nat)
    requires |items| == |selected| && r <= |items| && forall i | r <= i < |items| :: !selected[i]
    ensures SelectedFrom(items, selected, r) == []
    decreases |items| - r
  {
    if r < |items| { NoneSelected(items, selected, r + 1); }
  }

  /**
   The rows the bits choose, as a batch: none when they choose no row, without a selection when they choose every one.
   */
  method Choose<R>(data: seq<R>, bits: seq<bool>) returns (out: Option<Batch<R>>)
    requires |bits| == |data|
    ensures out.Some? ==> BatchOk(out.value) && out.value.data == data
    ensures RowsOf(out) == SelectedFrom(data, bits, 0)
  {
    var kept := 0;
    for i := 0 to |bits|
      invariant 0 <= kept <= i
      invariant kept == 0 <==> forall j | 0 <= j < i :: !bits[j]
      invariant kept == i <==> forall j | 0 <= j < i :: bits[j]
    {
      if bits[i] {
        kept := kept + 1;
      }
    }
    if kept == 0 {
      NoneSelected(data, bits, 0);
      return None;
    }
    if kept < |bits| {
      return Some(Batch(data, Some(bits)));
    }
    AllSelected(data, bits, 0);
    assert data[0..] == data;
    return Some(Batch(data, None));
  }

  // ---- the rows a semi or anti join keeps ----

  datatype Keeps = KeepMatched | KeepUnmatched | KeepUnmatchedNotNull | KeepAll | KeepNone

  /** Whether a row is kept; `matched`: it has a match. */
  predicate KeepsRow(keep: Keeps, selected: bool, hasKey: bool, matched: bool) {
    match keep
    case KeepMatched => matched
    case KeepUnmatched => selected && !matched
    case KeepUnmatchedNotNull => selected && hasKey && !matched
    case KeepAll => selected
    case KeepNone => false
  }

  function ProbeRows<P, T>(probes: seq<Probe<P>>): (rows: seq<OutRow<P, T>>)
    ensures |rows| == |probes| && forall i | 0 <= i < |probes| :: rows[i] == ProbeRow(probes[i])
  {
    seq(|probes|, i requires 0 <= i < |probes| => ProbeRow(probes[i]))
  }

  lemma {:induction false} SelectedSlice<A>(items: seq<A>, bits: seq<bool>, begin: nat, end: nat, i: nat)
    requires |items| == |bits| && begin <= i <= end <= |items|
    ensures SelectedFrom(items, bits, i)
      == SelectedFrom(items[begin..end], bits[begin..end], i - begin) + SelectedFrom(items, bits, end)
    decreases end - i
  {
    if i < end {
      SelectedSlice(items, bits, begin, end, i + 1);
      if bits[i] {
        Regroup([items[i]], SelectedFrom(items[begin..end], bits[begin..end], i + 1 - begin),
            SelectedFrom(items, bits, end));
      }
    }
  }

  /** The window of rows `begin` to `end` that a semi or anti join keeps; `matched` says which rows have a match. */
  method KeepWindow<P, T>(
      v: View<P>, keep: Keeps, matched: seq<bool>, begin: nat, end: nat, ghost bits: seq<bool>)
    returns (out: Option<Batch<OutRow<P, T>>>)
    requires begin <= end <= |v.probes| == |v.selected| == |matched| == |bits|
    requires forall r | 0 <= r < |bits| :: bits[r] == KeepsRow(keep, v.selected[r], v.probes[r].key.Some?, matched[r])
    ensures out.Some? ==> BatchOk(out.value) && |out.value.data| == end - begin
    ensures RowsOf(out) + SelectedFrom(ProbeRows(v.probes), bits, end) == SelectedFrom(ProbeRows(v.probes), bits, begin)
  {
    var window: seq<bool> := [];
    for row := begin to end
      invariant window == bits[begin..row]
    {
      window := window + [KeepsRow(keep, v.selected[row], v.probes[row].key.Some?, matched[row])];
    }
    ghost var all: seq<OutRow<P, T>> := ProbeRows(v.probes);
    var data: seq<OutRow<P, T>> := ProbeRows(v.probes[begin..end]);
    assert data == all[begin..end];
    out := Choose(data, window);
    SelectedSlice(all, bits, begin, end, begin);
  }

  // ---- the slots of a window ----

  function SlotsBetween<P>(v: View<P>, n: nat, pads: bool, begin: nat, end: nat): seq<Slot>
    requires Fits(v, n) && begin <= end <= |v.matches|
    decreases end
  {
    if begin == end then [] else SlotsBetween(v, n, pads, begin, end - 1) + RowSlots(v, n, pads, false, end - 1)
  }

  lemma {:induction false} WindowLeads<P>(v: View<P>, n: nat, pads: bool, begin: nat, end: nat)
    requires Fits(v, n) && begin <= end <= |v.matches|
    ensures SlotsBetween(v, n, pads, begin, end) + SlotsFrom(v, n, pads, false, end)
      == SlotsFrom(v, n, pads, false, begin)
    decreases end
  {
    if begin < end {
      WindowLeads(v, n, pads, begin, end - 1);
      Regroup(SlotsBetween(v, n, pads, begin, end - 1), RowSlots(v, n, pads, false, end - 1),
          SlotsFrom(v, n, pads, false, end));
    }
  }

  /** No key of the build has two rows. */
  predicate Single<P>(v: View<P>) {
    forall r | 0 <= r < |v.matches| :: v.matches[r].end <= v.matches[r].begin + 1
  }

  /** The pairs of a window's matched rows (NextWindow, CompactWindow). */
  method WindowPairs<P>(v: View<P>, ghost n: nat, begin: nat, end: nat) returns (slots: seq<Slot>)
    requires Fits(v, n) && Single(v) && begin <= end <= |v.matches|
    ensures slots == SlotsBetween(v, n, false, begin, end)
  {
    slots := [];
    for i := begin to end
      invariant slots == SlotsBetween(v, n, false, begin, i)
    {
      var m := v.matches[i];
      if m.end > m.begin {
        assert RowSlots(v, n, false, false, i) == [Slot(i, Some(m.begin), true)];
        slots := slots + [Slot(i, Some(m.begin), true)];
      } else {
        assert RowSlots(v, n, false, false, i) == [];
      }
    }
  }

  /** The rows of a window with their matches, padded without one, and the build rows they mark (NextLeftWindow). */
  method WindowRows<P, T>(
      v: View<P>, rows: seq<Row<T>>, marks: set<nat>, begin: nat, end: nat)
    returns (data: seq<OutRow<P, T>>, marks': set<nat>)
    requires Fits(v, |rows|) && Single(v) && begin <= end <= |v.matches|
    ensures |data| == end - begin
    ensures var slots := SlotsBetween(v, |rows|, true, begin, end);
      && SlotsOk(v, rows, slots) && SelectedFrom(data, v.selected[begin..end], 0) == Outs(v, rows, slots)
      && marks' == marks + MarksOf(v, rows, [], slots)
  {
    hide RowSlots;
    hide MarksOf;
    hide SelectedFrom;
    data, marks' := [], marks;
    ghost var slots: seq<Slot> := [];
    NoRows(v, rows);
    assert v.selected[begin..begin] == [] && Outs(v, rows, slots) == [];
    for i := begin to end
      invariant slots == SlotsBetween(v, |rows|, true, begin, i) && SlotsOk(v, rows, slots)
      invariant |data| == i - begin && SelectedFrom(data, v.selected[begin..i], 0) == Outs(v, rows, slots)
      invariant marks' == marks + MarksOf(v, rows, [], slots)
    {
      var m := v.matches[i];
      var out := if m.end > m.begin then Joined(v.probes[i], rows[m.begin]) else Padded(v.probes[i]);
      ghost var more := RowSlots(v, |rows|, true, false, i);
      WindowRow(v, rows, i, more);
      SelectedLast(data, v.selected[begin..i], out, v.selected[i]);
      assert v.selected[begin..i] + [v.selected[i]] == v.selected[begin..i + 1];
      OutsConcat(v, rows, slots, more);
      MarksConcat(v, rows, [], slots, more);
      assert SlotsBetween(v, |rows|, true, begin, i + 1) == slots + more;
      data := data + [out];
      if m.end > m.begin {
        marks' := marks' + {m.begin};
      }
      slots := slots + more;
    }
  }

  lemma {:induction false} NoRows<P, T>(v: View<P>, rows: seq<Row<T>>)
    ensures MarksOf(v, rows, [], []) == {} && SelectedFrom<OutRow<P, T>>([], [], 0) == []
  {
  }

  lemma {:induction false} WindowRow<P, T>(v: View<P>, rows: seq<Row<T>>, i: nat, slots: seq<Slot>)
    requires Fits(v, |rows|) && Single(v) && i < |v.matches| && slots == RowSlots(v, |rows|, true, false, i)
    ensures SlotsOk(v, rows, slots)
    ensures var m := v.matches[i];
      var out := if m.end > m.begin then Joined(v.probes[i], rows[m.begin]) else Padded(v.probes[i]);
      && Outs(v, rows, slots) == (if v.selected[i] then [out] else [])
      && MarksOf(v, rows, [], slots) == if m.end > m.begin then {m.begin} else {}
  {
    var m := v.matches[i];
    if m.end > m.begin {
      assert slots == [Slot(i, Some(m.begin), true)];
      assert Passing(v, rows, [])(slots[0]);
    } else {
      assert slots == if v.selected[i] then [Slot(i, None, true)] else [];
    }
  }

  lemma {:induction false} SelectedLast<A>(items: seq<A>, selected: seq<bool>, x: A, b: bool)
    requires |items| == |selected|
    ensures SelectedFrom(items + [x], selected + [b], 0) == SelectedFrom(items, selected, 0) + if b then [x] else []
  {
    SelectedSlice(items + [x], selected + [b], 0, |items|, 0);
    assert (items + [x])[0..|items|] == items && (selected + [b])[0..|items|] == selected;
  }

  /** Without residuals every slot is kept as it is. */
  lemma {:induction false} KeepEvery(slots: seq<Slot>, pass: Slot -> bool, any: bool)
    requires forall i | 0 <= i < |slots| && slots[i].candidate.Some? :: pass(slots[i])
    ensures Keep(slots, pass, any) == slots
  {
    if slots != [] {
      KeepEvery(slots[1..], pass, NextAny(slots[0], pass(slots[0]), any));
    }
  }
}
