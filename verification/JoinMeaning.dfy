/**
 What a join means: the rows it keeps of each probe row, the build rows that were matched and when it
 fails, by nested loops over all probe and build rows. A probe batch gives exactly its part.
 */
module JoinMeaning {
  import opened Options
  import opened CountingSort
  import opened JoinRows
  import opened JoinTable
  import opened JoinResiduals
  import opened JoinSlots
  import opened JoinPadding
  import opened NestedLoop
  import opened JoinMarking
  import opened JoinCursor

  // ---- SQL's NOT IN ----

  function EqualSql(a: Option<int>, b: Option<int>): Verdict {
    if a.None? || b.None? then Null else if a.value == b.value then True else False
  }

  /** `key = some element`: true if one is, else NULL if one is unknown. */
  function InSql(key: Option<int>, keys: seq<Option<int>>): Verdict {
    if keys == [] then False
    else
      var first, rest := EqualSql(key, keys[0]), InSql(key, keys[1..]);
      if first == True || rest == True then True else if first == Null || rest == Null then Null else False
  }

  predicate NotInSql(key: Option<int>, keys: seq<Option<int>>) {
    InSql(key, keys) == False
  }

  lemma {:induction false} NotInIs(key: Option<int>, keys: seq<Option<int>>)
    ensures NotInSql(key, keys) <==> keys == [] || (key.Some? && None !in keys && key !in keys)
  {
    if keys != [] {
      NotInIs(key, keys[1..]);
      assert keys == [keys[0]] + keys[1..];
    }
  }

  // ---- every kind ----

  /** Whether a semi or anti join keeps `p`; `buildKeys`: the keys of the whole build input, NULLs included. */
  ghost predicate KeepsProbe<P, T>(
      kind: Kind, all: seq<Row<T>>, buildKeys: seq<Option<int>>, residuals: Residuals<P, T>, p: Probe<P>)
  {
    match kind
    case Semi => MatchesOf(all, residuals, p) != []
    case Anti => MatchesOf(all, residuals, p) == []
    case NullAwareAnti => NotInSql(p.key, buildKeys)
    case _ => false
  }

  ghost function KeptRow<P, T>(
      kind: Kind, all: seq<Row<T>>, buildKeys: seq<Option<int>>, residuals: Residuals<P, T>)
    : Probe<P> -> seq<OutRow<P, T>>
  {
    (p: Probe<P>) => if KeepsProbe(kind, all, buildKeys, residuals, p) then [ProbeRow(p)] else []
  }

  ghost function NoRow<P, T>(): Probe<P> -> seq<OutRow<P, T>> {
    (p: Probe<P>) => []
  }

  /** The rows a join outputs for a probe row while it probes. */
  ghost function RowOut<P, T>(
      c: Config<P, T>, all: seq<Row<T>>, buildKeys: seq<Option<int>>): Probe<P> -> seq<OutRow<P, T>>
  {
    if c.kind == Inner then InnerRow(all, c.residuals)
    else if c.Padding() then LeftRow(all, c.residuals)
    else if c.MarksOnly() then NoRow()
    else KeptRow(c.kind, all, buildKeys, c.residuals)
  }

  /** Some pair of `p` fails. */
  ghost predicate FailsRow<P, T>(all: seq<Row<T>>, residuals: Residuals<P, T>, p: Probe<P>) {
    exists k :: 0 <= k < |Meets(all, p.key)| && Judge(residuals, Pair(p, Meets(all, p.key)[k])) == Fail
  }

  ghost predicate Fails<P, T>(all: seq<Row<T>>, residuals: Residuals<P, T>, probes: seq<Probe<P>>) {
    exists r :: 0 <= r < |probes| && FailsRow(all, residuals, probes[r])
  }

  /** `b` is matched by `p`. */
  ghost predicate Matching<P, T>(residuals: Residuals<P, T>, p: Probe<P>, b: Row<T>) {
    p.key == Some(b.key) && Judge(residuals, Pair(p, b)) == Pass
  }

  ghost predicate MatchedBy<P, T>(residuals: Residuals<P, T>, probes: seq<Probe<P>>, b: Row<T>) {
    exists r :: 0 <= r < |probes| && Matching(residuals, probes[r], b)
  }

  /** The table's rows that some probe row matches. */
  ghost function FinalMarks<P, T>(rows: seq<Row<T>>, residuals: Residuals<P, T>, probes: seq<Probe<P>>): set<nat> {
    set i: nat | i < |rows| && MatchedBy(residuals, probes, rows[i])
  }

  lemma {:induction false} ProbesConcat<P, T>(
      all: seq<Row<T>>, rows: seq<Row<T>>, residuals: Residuals<P, T>, a: seq<Probe<P>>, b: seq<Probe<P>>)
    ensures Fails(all, residuals, a + b) <==> Fails(all, residuals, a) || Fails(all, residuals, b)
    ensures FinalMarks(rows, residuals, a + b) == FinalMarks(rows, residuals, a) + FinalMarks(rows, residuals, b)
  {
    FailsConcat(all, residuals, a, b);
    forall i: nat | i < |rows|
      ensures MatchedBy(residuals, a + b, rows[i])
        <==> MatchedBy(residuals, a, rows[i]) || MatchedBy(residuals, b, rows[i])
    {
      MatchedConcat(residuals, a, b, rows[i]);
    }
  }

  lemma {:induction false} FailsConcat<P, T>(
      all: seq<Row<T>>, residuals: Residuals<P, T>, a: seq<Probe<P>>, b: seq<Probe<P>>)
    ensures Fails(all, residuals, a + b) <==> Fails(all, residuals, a) || Fails(all, residuals, b)
  {
    hide FailsRow;
    if r :| 0 <= r < |a| && FailsRow(all, residuals, a[r]) { assert (a + b)[r] == a[r]; }
    if r :| 0 <= r < |b| && FailsRow(all, residuals, b[r]) { assert (a + b)[|a| + r] == b[r]; }
    if r :| 0 <= r < |a + b| && FailsRow(all, residuals, (a + b)[r]) {
      if r < |a| { assert (a + b)[r] == a[r]; } else { assert (a + b)[r] == b[r - |a|]; }
    }
  }

  lemma {:induction false} MatchedConcat<P, T>(
      residuals: Residuals<P, T>, a: seq<Probe<P>>, b: seq<Probe<P>>, x: Row<T>)
    ensures MatchedBy(residuals, a + b, x) <==> MatchedBy(residuals, a, x) || MatchedBy(residuals, b, x)
  {
    hide Matching;
    if r :| 0 <= r < |a| && Matching(residuals, a[r], x) { assert (a + b)[r] == a[r]; }
    if r :| 0 <= r < |b| && Matching(residuals, b[r], x) { assert (a + b)[|a| + r] == b[r]; }
    if r :| 0 <= r < |a + b| && Matching(residuals, (a + b)[r], x) {
      if r < |a| { assert (a + b)[r] == a[r]; } else { assert (a + b)[r] == b[r - |a|]; }
    }
  }

  // ---- one probe row ----

  /** The table's rows are the build's, each key's in order. */
  ghost predicate Rearranges<T>(rows: seq<Row<T>>, all: seq<Row<T>>) {
    forall k :: Select(rows, RowKey(), k) == Select(all, RowKey(), k)
  }

  /** The pairs of a row are judged as its candidates in the table are. */
  lemma {:induction false} MeetingIs<P, T>(
      v: View<P>, rows: seq<Row<T>>, all: seq<Row<T>>, residuals: Residuals<P, T>, r: nat, j: Judgement)
    requires Probed(v, rows, all) && r < |v.probes|
    ensures (exists i: nat :: Meeting(v, rows, residuals, r, i, j)) <==>
      v.selected[r] && exists k ::
          0 <= k < |Meets(all, v.probes[r].key)|
          && Judge(residuals, Pair(v.probes[r], Meets(all, v.probes[r].key)[k])) == j
  {
    var m, found := v.matches[r], rows[v.matches[r].begin..v.matches[r].end];
    if i: nat :| Meeting(v, rows, residuals, r, i, j) {
      assert found[i - m.begin] == rows[i];
    }
    if v.selected[r] {
      if k :| 0 <= k < |found| && Judge(residuals, Pair(v.probes[r], found[k])) == j {
        assert rows[m.begin + k] == found[k];
        assert Meeting(v, rows, residuals, r, m.begin + k, j);
      }
    }
  }

  lemma {:induction false} SomeMatch<P, T>(all: seq<Row<T>>, residuals: Residuals<P, T>, p: Probe<P>)
    ensures MatchesOf(all, residuals, p) != []
      <==> exists k :: 0 <= k < |Meets(all, p.key)| && Judge(residuals, Pair(p, Meets(all, p.key)[k])) == Pass
  {
    var found, judged := Meets(all, p.key), Judged<P, T>(residuals, p);
    if Filter(found, judged) != [] {
      var k := FilterAt(found, judged, 0);
    }
    if k :| 0 <= k < |found| && Judge(residuals, Pair(p, found[k])) == Pass {
      FilterNotEmpty(found, judged, k);
    }
  }

  lemma {:induction false} FilterNotEmpty<S>(s: seq<S>, keep: S -> bool, k: nat)
    requires k < |s| && keep(s[k])
    ensures Filter(s, keep) != []
  {
    if k > 0 { FilterNotEmpty(s[1..], keep, k - 1); }
  }

  /** A row with a match is a selected row with a match in the build. */
  lemma {:induction false} HasMatchIs<P, T>(
      v: View<P>, rows: seq<Row<T>>, all: seq<Row<T>>, residuals: Residuals<P, T>, r: nat)
    requires Probed(v, rows, all) && r < |v.probes|
    ensures HasMatch(v, rows, residuals, r) <==> v.selected[r] && MatchesOf(all, residuals, v.probes[r]) != []
  {
    MeetingIs(v, rows, all, residuals, r, Pass);
    SomeMatch(all, residuals, v.probes[r]);
  }

  // ---- a probe batch ----

  lemma {:induction false} SelectedHas<A>(items: seq<A>, selected: seq<bool>, from: nat, r: nat) returns (j: nat)
    requires |items| == |selected| && from <= r < |items| && selected[r]
    ensures j < |SelectedFrom(items, selected, from)| && SelectedFrom(items, selected, from)[j] == items[r]
    decreases r - from
  {
    if from == r {
      j := 0;
    } else {
      j := SelectedHas(items, selected, from + 1, r);
      if selected[from] { j := j + 1; }
    }
  }

  lemma {:induction false} SelectedIs<A>(items: seq<A>, selected: seq<bool>, from: nat, j: nat) returns (r: nat)
    requires |items| == |selected| && from <= |items| && j < |SelectedFrom(items, selected, from)|
    ensures from <= r < |items| && selected[r] && items[r] == SelectedFrom(items, selected, from)[j]
    decreases |items| - from
  {
    if selected[from] && j == 0 {
      r := from;
    } else {
      r := SelectedIs(items, selected, from + 1, if selected[from] then j - 1 else j);
    }
  }

  /** A batch fails just when the pairs of its selected rows do. */
  lemma {:induction false} BatchFails<P, T>(v: View<P>, rows: seq<Row<T>>, all: seq<Row<T>>, residuals: Residuals<P, T>)
    requires Probed(v, rows, all)
    ensures (exists r: nat :: HasFailure(v, rows, residuals, r))
      <==> Fails(all, residuals, SelectedFrom(v.probes, v.selected, 0))
  {
    hide SelectedFrom;
    var probes := SelectedFrom(v.probes, v.selected, 0);
    if r: nat :| HasFailure(v, rows, residuals, r) {
      MeetingIs(v, rows, all, residuals, r, Fail);
      var j := SelectedHas(v.probes, v.selected, 0, r);
      assert FailsRow(all, residuals, probes[j]);
    }
    if j :| 0 <= j < |probes| && FailsRow(all, residuals, probes[j]) {
      var r := SelectedIs(v.probes, v.selected, 0, j);
      MeetingIs(v, rows, all, residuals, r, Fail);
      assert HasFailure(v, rows, residuals, r);
    }
  }

  /** The range Find gives a key holds every row of the table with that key. */
  lemma {:induction false} WholeRange<T>(rows: seq<Row<T>>, all: seq<Row<T>>, begin: nat, end: nat, k: int, i: nat)
    requires Rearranges(rows, all) && begin <= end <= |rows| && rows[begin..end] == Select(all, RowKey(), k)
    requires i < |rows|
    ensures begin <= i < end <==> rows[i].key == k
  {
    var a, b, c := rows[..begin], rows[begin..end], rows[end..];
    assert rows == a + (b + c);
    SelectConcat(a, b + c, RowKey(), k);
    SelectConcat(b, c, RowKey(), k);
    SelectIdempotent(all, k);
    assert |Select(a, RowKey(), k)| == 0 && |Select(c, RowKey(), k)| == 0;
    if begin <= i < end {
      var j := SelectAt(all, RowKey(), k, i - begin);
      assert b[i - begin] == rows[i];
    } else if rows[i].key == k {
      if i < begin {
        assert a[i] == rows[i];
        SelectPrefix(a, RowKey(), i, k);
      } else {
        assert c[i - end] == rows[i];
        SelectPrefix(c, RowKey(), i - end, k);
      }
      assert false;
    }
  }

  lemma {:induction false} SelectIdempotent<T>(all: seq<Row<T>>, k: int)
    ensures Select(Select(all, RowKey(), k), RowKey(), k) == Select(all, RowKey(), k)
  {
    SelectTwice(all, RowKey(), k, RowKey(), k);
  }

  /** A batch marks the table's rows that its selected rows match. */
  lemma {:induction false} BatchMarks<P, T>(
      v: View<P>, rows: seq<Row<T>>, all: seq<Row<T>>, residuals: Residuals<P, T>, i: nat)
    requires Probed(v, rows, all) && Rearranges(rows, all)
    ensures (exists r: nat :: Meeting(v, rows, residuals, r, i, Pass))
      <==> i in FinalMarks(rows, residuals, SelectedFrom(v.probes, v.selected, 0))
  {
    hide SelectedFrom;
    var probes := SelectedFrom(v.probes, v.selected, 0);
    if r: nat :| Meeting(v, rows, residuals, r, i, Pass) {
      var j := SelectedHas(v.probes, v.selected, 0, r);
      WholeRange(rows, all, v.matches[r].begin, v.matches[r].end, v.probes[r].key.value, i);
      assert Matching(residuals, probes[j], rows[i]);
    }
    if i < |rows| && MatchedBy(residuals, probes, rows[i]) {
      var j :| 0 <= j < |probes| && Matching(residuals, probes[j], rows[i]);
      var r := SelectedIs(v.probes, v.selected, 0, j);
      WholeRange(rows, all, v.matches[r].begin, v.matches[r].end, v.probes[r].key.value, i);
      assert Meeting(v, rows, residuals, r, i, Pass);
    }
  }
}
