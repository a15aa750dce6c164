/**
 The slots of a probe batch (src/exec/hash_join.cc, NextSlots and NextPairs): each is a probe row
 with one of its candidates, or a probe row without any. They come in batches that may stop inside a
 row's candidates and go on from there.
 */
module JoinSlots {
  import opened Options
  import opened Lists
  import opened JoinTable

  datatype Probe<P> = Probe(key: Option<int>, value: P)

  /** A probe batch with its selection and the matches Find gave its rows. */
  datatype View<P> = View(probes: seq<Probe<P>>, selected: seq<bool>, matches: seq<Matches>)

  /**
   A slot: the row's candidate (a position of the table's rows; None for a padded row) and whether it is the row's last.
   */
  datatype Slot = Slot(row: nat, candidate: Option<nat>, last: bool)

  /** A view over a table of `n` rows: only selected rows have candidates. */
  predicate Fits<P>(v: View<P>, n: nat) {
    && |v.probes| == |v.selected| == |v.matches|
    && forall r | 0 <= r < |v.matches| ::
         v.matches[r].begin <= v.matches[r].end <= n && (v.matches[r].begin < v.matches[r].end ==> v.selected[r])
  }

  /** The candidates a row meets: all of them, or the first alone when they are alike. */
  function Candidates(m: Matches, alike: bool): nat
    requires m.begin <= m.end
  {
    if alike && m.end - m.begin > 1 then 1 else m.end - m.begin
  }

  function RowSlots<P>(v: View<P>, n: nat, pads: bool, alike: bool, row: nat): seq<Slot>
    requires Fits(v, n) && row < |v.matches|
  {
    var m := v.matches[row];
    var c := Candidates(m, alike);
    if c > 0 then seq(c, k requires 0 <= k < c => Slot(row, Some(m.begin + k), k + 1 == c))
    else if pads && v.selected[row] then [Slot(row, None, true)] else []
  }

  function SlotsFrom<P>(v: View<P>, n: nat, pads: bool, alike: bool, row: nat): seq<Slot>
    requires Fits(v, n) && row <= |v.matches|
    decreases |v.matches| - row
  {
    if row == |v.matches| then [] else RowSlots(v, n, pads, alike, row) + SlotsFrom(v, n, pads, alike, row + 1)
  }

  /** A place between two slots: `taken` of `row`'s candidates are taken. */
  predicate Standing<P>(v: View<P>, n: nat, alike: bool, row: nat, taken: nat)
    requires Fits(v, n)
  {
    row <= |v.matches| && (taken > 0 ==> row < |v.matches| && taken < Candidates(v.matches[row], alike))
  }

  /** The slots from a place on. */
  function Ahead<P>(v: View<P>, n: nat, pads: bool, alike: bool, row: nat, taken: nat): seq<Slot>
    requires Fits(v, n) && Standing(v, n, alike, row, taken)
  {
    if row == |v.matches| then [] else RowSlots(v, n, pads, alike, row)[taken..] + SlotsFrom(v, n, pads, alike, row + 1)
  }

  lemma {:induction false} AtRow<P>(v: View<P>, n: nat, pads: bool, alike: bool, row: nat)
    requires Fits(v, n) && row <= |v.matches|
    ensures Ahead(v, n, pads, alike, row, 0) == SlotsFrom(v, n, pads, alike, row)
  {
  }

  lemma {:induction false} RowEnds<P>(v: View<P>, n: nat, pads: bool, alike: bool, row: nat, taken: nat)
    requires Fits(v, n) && Standing(v, n, alike, row, taken) && row < |v.matches|
    ensures Ahead(v, n, pads, alike, row, taken)
      == RowSlots(v, n, pads, alike, row)[taken..] + Ahead(v, n, pads, alike, row + 1, 0)
  {
    AtRow(v, n, pads, alike, row + 1);
  }

  lemma {:induction false} RowGoesOn<P>(v: View<P>, n: nat, pads: bool, alike: bool, row: nat, taken: nat, next: nat)
    requires Fits(v, n) && Standing(v, n, alike, row, taken) && row < |v.matches|
    requires taken < next < Candidates(v.matches[row], alike)
    ensures Ahead(v, n, pads, alike, row, taken)
      == RowSlots(v, n, pads, alike, row)[taken..next] + Ahead(v, n, pads, alike, row, next)
  {
    var s := RowSlots(v, n, pads, alike, row);
    assert s[taken..] == s[taken..next] + s[next..];
  }

  lemma {:induction false} NoCandidates<P>(v: View<P>, n: nat, pads: bool, alike: bool, row: nat)
    requires Fits(v, n) && row < |v.matches| && Candidates(v.matches[row], alike) == 0
    ensures Ahead(v, n, pads, alike, row, 0)
         == (if pads && v.selected[row] then [Slot(row, None, true)] else []) + Ahead(v, n, pads, alike, row + 1, 0)
  {
    RowEnds(v, n, pads, alike, row, 0);
  }

  lemma {:induction false} LastCandidate<P>(v: View<P>, n: nat, pads: bool, alike: bool, row: nat, taken: nat)
    requires Fits(v, n) && Standing(v, n, alike, row, taken) && row < |v.matches|
    requires Candidates(v.matches[row], alike) > 0
    ensures Ahead(v, n, pads, alike, row, taken)
         == RowSlots(v, n, pads, alike, row)[taken..Candidates(v.matches[row], alike)]
             + Ahead(v, n, pads, alike, row + 1, 0)
  {
    RowEnds(v, n, pads, alike, row, taken);
  }

  /** Slots from candidate `from` of a row up to candidate `to`. */
  method TakeSlots<P>(
      v: View<P>, ghost n: nat, ghost pads: bool, alike: bool, row: nat, from: nat, to: nat)
    returns (slots: seq<Slot>)
    requires Fits(v, n) && row < |v.matches| && from <= to <= Candidates(v.matches[row], alike)
    requires 0 < Candidates(v.matches[row], alike)
    ensures slots == RowSlots(v, n, pads, alike, row)[from..to] && |slots| == to - from
    ensures slots != [] ==> slots[|slots| - 1].last == (to == Candidates(v.matches[row], alike))
  {
    var m := v.matches[row];
    slots := [];
    for k := from to to
      invariant slots == RowSlots(v, n, pads, alike, row)[from..k]
    {
      slots := slots + [Slot(row, Some(m.begin + k), k + 1 == Candidates(m, alike))];
    }
  }

  /** `done` leads from one place to another. */
  ghost predicate Leads<P>(
      v: View<P>, n: nat, pads: bool, alike: bool, row0: nat, taken0: nat, done: seq<Slot>, row: nat, taken: nat)
    requires Fits(v, n)
  {
    && Standing(v, n, alike, row0, taken0) && Standing(v, n, alike, row, taken)
    && done + Ahead(v, n, pads, alike, row, taken) == Ahead(v, n, pads, alike, row0, taken0)
    && (done != [] ==> (taken > 0 <==> !done[|done| - 1].last))
  }

  lemma {:induction false} LeadsOn<P>(
      v: View<P>, n: nat, pads: bool, alike: bool, row0: nat, taken0: nat, done: seq<Slot>, row: nat, taken: nat,
      more: seq<Slot>, row': nat, taken': nat)
    requires Fits(v, n) && Leads(v, n, pads, alike, row0, taken0, done, row, taken)
    requires Standing(v, n, alike, row', taken')
    requires more + Ahead(v, n, pads, alike, row', taken') == Ahead(v, n, pads, alike, row, taken)
    requires if more == [] then taken' == taken else (taken' > 0 <==> !more[|more| - 1].last)
    ensures Leads(v, n, pads, alike, row0, taken0, done + more, row', taken')
  {
    hide Ahead;
    Regroup(done, more, Ahead(v, n, pads, alike, row', taken'));
  }

  /** The next slots, at most `limit`; fewer only at the end of the batch. */
  method NextSlots<P>(v: View<P>, ghost n: nat, pads: bool, alike: bool, limit: nat, row0: nat, taken0: nat)
    returns (slots: seq<Slot>, row: nat, taken: nat)
    requires limit > 0 && Fits(v, n) && Standing(v, n, alike, row0, taken0)
    ensures Leads(v, n, pads, alike, row0, taken0, slots, row, taken)
    ensures |slots| <= limit && (|slots| < limit ==> row == |v.matches|)
  {
    hide Ahead;
    hide RowSlots;
    slots, row, taken := [], row0, taken0;
    while row < |v.matches| && |slots| < limit
      invariant |slots| <= limit && Leads(v, n, pads, alike, row0, taken0, slots, row, taken)
      decreases |v.matches| - row, if row < |v.matches| then Candidates(v.matches[row], alike) - taken else 0
    {
      var c := Candidates(v.matches[row], alike);
      var more: seq<Slot> := [];
      var row', taken' := row + 1, 0;
      if c == 0 {
        NoCandidates(v, n, pads, alike, row);
        if pads && v.selected[row] {
          more := [Slot(row, None, true)];
        }
      } else {
        var take := if c - taken < limit - |slots| then c - taken else limit - |slots|;
        more := TakeSlots(v, n, pads, alike, row, taken, taken + take);
        if taken + take < c {
          row', taken' := row, taken + take;
          RowGoesOn(v, n, pads, alike, row, taken, taken + take);
        } else {
          LastCandidate(v, n, pads, alike, row, taken);
        }
      }
      LeadsOn(v, n, pads, alike, row0, taken0, slots, row, taken, more, row', taken');
      slots, row, taken := slots + more, row', taken';
    }
  }

  /** The next pairs of an inner join, at most `limit`; fewer only at the end of the batch. */
  method NextPairSlots<P>(
      v: View<P>, ghost n: nat, limit: nat, row0: nat, taken0: nat)
    returns (slots: seq<Slot>, row: nat, taken: nat)
    requires limit > 0 && Fits(v, n) && Standing(v, n, false, row0, taken0)
    ensures Leads(v, n, false, false, row0, taken0, slots, row, taken)
    ensures |slots| <= limit && (|slots| < limit ==> row == |v.matches|)
  {
    hide Ahead;
    hide RowSlots;
    slots, row, taken := [], row0, taken0;
    while row < |v.matches| && |slots| < limit
      invariant |slots| <= limit && Leads(v, n, false, false, row0, taken0, slots, row, taken)
      decreases |v.matches| - row, if row < |v.matches| then Candidates(v.matches[row], false) - taken else 0
    {
      var m := v.matches[row];
      var remaining := m.end - m.begin - taken;
      var take := if remaining < limit - |slots| then remaining else limit - |slots|;
      var more: seq<Slot> := [];
      var row', taken' := row + 1, 0;
      if m.begin == m.end {
        NoCandidates(v, n, false, false, row);
      } else {
        more := TakeSlots(v, n, false, false, row, taken, taken + take);
        if taken + take < m.end - m.begin {
          row', taken' := row, taken + take;
          RowGoesOn(v, n, false, false, row, taken, taken + take);
        } else {
          LastCandidate(v, n, false, false, row, taken);
        }
      }
      LeadsOn(v, n, false, false, row0, taken0, slots, row, taken, more, row', taken');
      slots, row, taken := slots + more, row', taken';
    }
  }

  // ---- the order of the slots ----

  /** A row's slots are together, its last one last. */
  ghost predicate Linked(slots: seq<Slot>) {
    forall i, j | 0 <= i && j == i + 1 < |slots| ::
        if slots[i].last then slots[i].row < slots[j].row else slots[i].row == slots[j].row
  }

  ghost predicate Proper(slots: seq<Slot>, from: nat, to: nat, n: nat) {
    && Linked(slots)
    && forall s | s in slots :: from <= s.row < to && (if s.candidate.Some? then s.candidate.value < n else s.last)
  }

  lemma {:induction false} ProperConcat(a: seq<Slot>, b: seq<Slot>, from: nat, to: nat, n: nat)
    requires from < to && Proper(a, from, from + 1, n) && Proper(b, from + 1, to, n) && (a != [] ==> a[|a| - 1].last)
    ensures Proper(a + b, from, to, n)
  {
    forall i, j | 0 <= i && j == i + 1 < |a + b|
      ensures if (a + b)[i].last then (a + b)[i].row < (a + b)[j].row else (a + b)[i].row == (a + b)[j].row
    {
      if j < |a| {
      } else if i < |a| {
        assert a[i] in a && b[0] in b;
      } else {
        assert b[i - |a|] == (a + b)[i] && b[j - |a|] == (a + b)[j];
      }
    }
  }

  lemma {:induction false} RowProper<P>(v: View<P>, n: nat, pads: bool, alike: bool, row: nat)
    requires Fits(v, n) && row < |v.matches|
    ensures var a := RowSlots(v, n, pads, alike, row); Proper(a, row, row + 1, n) && (a != [] ==> a[|a| - 1].last)
  {
  }

  lemma {:induction false} FromRow<P>(v: View<P>, n: nat, pads: bool, alike: bool, row: nat)
    requires Fits(v, n) && row <= |v.matches|
    ensures Proper(SlotsFrom(v, n, pads, alike, row), row, |v.matches|, n)
    decreases |v.matches| - row
  {
    hide RowSlots;
    if row < |v.matches| {
      FromRow(v, n, pads, alike, row + 1);
      RowProper(v, n, pads, alike, row);
      ProperConcat(RowSlots(v, n, pads, alike, row), SlotsFrom(v, n, pads, alike, row + 1), row, |v.matches|, n);
    }
  }

  lemma {:induction false} ProperPart(slots: seq<Slot>, part: seq<Slot>, i: nat, j: nat, from: nat, to: nat, n: nat)
    requires Proper(slots, from, to, n) && i <= j <= |slots| && part == slots[i..j]
    ensures Proper(part, from, to, n)
  {
    forall s | s in part ensures s in slots { }
    forall a, b | 0 <= a && b == a + 1 < |part| ensures part[a] == slots[i + a] && part[b] == slots[i + a + 1] { }
  }

  lemma {:induction false} AheadProper<P>(v: View<P>, n: nat, pads: bool, alike: bool, row: nat, taken: nat)
    requires Fits(v, n) && Standing(v, n, alike, row, taken)
    ensures Proper(Ahead(v, n, pads, alike, row, taken), row, |v.matches|, n)
  {
    hide Proper;
    FromRow(v, n, pads, alike, row);
    if row < |v.matches| {
      var a, b := RowSlots(v, n, pads, alike, row), SlotsFrom(v, n, pads, alike, row + 1);
      assert (a + b)[taken..] == a[taken..] + b;
      ProperPart(a + b, a[taken..] + b, taken, |a + b|, row, |v.matches|, n);
    }
  }

  /** A part of the slots to come is in order like all of them. */
  lemma {:induction false} LeadsProper<P>(
      v: View<P>, n: nat, pads: bool, alike: bool, row0: nat, taken0: nat, done: seq<Slot>, row: nat, taken: nat)
    requires Fits(v, n) && Leads(v, n, pads, alike, row0, taken0, done, row, taken)
    ensures Proper(done, row0, |v.matches|, n)
  {
    hide Proper;
    hide Ahead;
    AheadProper(v, n, pads, alike, row0, taken0);
    var all := Ahead(v, n, pads, alike, row0, taken0);
    assert done == all[0..|done|];
    ProperPart(all, done, 0, |done|, row0, |v.matches|, n);
  }
}
