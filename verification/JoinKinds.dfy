/**
 What the kinds of a join promise (src/plan/include/antb1/plan/join_kind.h) of the rows a run gives: a
 full join's are those of the full outer join, and a semi or anti join keeps the same rows whichever
 side it builds on.
 */
module JoinKinds {
  import opened Options
  import opened CountingSort
  import opened JoinRows
  import opened JoinTable
  import opened JoinResiduals
  import opened JoinSlots
  import opened JoinPadding
  import opened NestedLoop
  import opened JoinCursor
  import opened JoinMeaning
  import opened JoinTail
  import opened JoinRuns
  import opened HashJoin

  // ---- outputs as multisets ----

  lemma {:induction false} Removed<A>(b: seq<A>, i: nat)
    requires i < |b|
    ensures multiset(b) == multiset{b[i]} + multiset(b[..i] + b[i + 1..])
  {
    assert b == b[..i] + ([b[i]] + b[i + 1..]);
  }

  lemma {:induction false} OutputRemoved<A, B>(row: A -> seq<B>, b: seq<A>, i: nat)
    requires i < |b|
    ensures multiset(Output(row, b)) == multiset(row(b[i])) + multiset(Output(row, b[..i] + b[i + 1..]))
  {
    var x, y := b[..i], b[i + 1..];
    assert b == x + ([b[i]] + y) && ([b[i]] + y)[1..] == y;
    OutputConcat(row, x, [b[i]] + y);
    OutputConcat(row, x, y);
  }

  lemma {:induction false} Cancel<A>(x: A, m: multiset<A>, n: multiset<A>)
    requires multiset{x} + m == multiset{x} + n
    ensures m == n
  {
    assert m == multiset{x} + m - multiset{x} && n == multiset{x} + n - multiset{x};
  }

  lemma {:induction false} SameRest<A>(a: seq<A>, b: seq<A>, i: nat)
    requires multiset(a) == multiset(b) && a != [] && i < |b| && b[i] == a[0]
    ensures multiset(a[1..]) == multiset(b[..i] + b[i + 1..])
  {
    assert a[..0] + a[1..] == a[1..];
    Removed(a, 0);
    Removed(b, i);
    Cancel(a[0], multiset(a[1..]), multiset(b[..i] + b[i + 1..]));
  }

  /** The rows that come of items do not depend on their order, but for their own. */
  lemma {:induction false} OutputPermutes<A, B>(row: A -> seq<B>, a: seq<A>, b: seq<A>)
    requires multiset(a) == multiset(b)
    ensures multiset(Output(row, a)) == multiset(Output(row, b))
  {
    hide Output;
    if a == [] {
      assert |multiset(b)| == |b|;
      assert b == a;
    } else {
      assert a[0] in multiset(b);
      var i :| 0 <= i < |b| && b[i] == a[0];
      SameRest(a, b, i);
      OutputPermutes(row, a[1..], b[..i] + b[i + 1..]);
      OutputRemoved(row, b, i);
      OutputRemoved(row, a, 0);
      assert a[..0] + a[1..] == a[1..];
    }
  }

  // ---- the tail ----

  /** What comes of a build row in the tail: itself when it was not matched, or when it was. */
  ghost function TailRow<P, T>(
      residuals: Residuals<P, T>, probes: seq<Probe<P>>, unmatched: bool): Row<T> -> seq<OutRow<P, T>>
  {
    (b: Row<T>) => if MatchedBy(residuals, probes, b) != unmatched then [BuildRow(b)] else []
  }

  lemma {:induction false} TailIs<P, T>(
      rows: seq<Row<T>>, residuals: Residuals<P, T>, probes: seq<Probe<P>>, unmatched: bool, i: nat)
    requires i <= |rows|
    ensures TailFrom<P, T>(rows, FinalMarks(rows, residuals, probes), unmatched, i)
      == Output(TailRow(residuals, probes, unmatched), rows[i..])
    decreases |rows| - i
  {
    hide MatchedBy;
    if i < |rows| {
      TailIs(rows, residuals, probes, unmatched, i + 1);
      assert rows[i..][1..] == rows[i + 1..];
    }
  }

  /** The tail holds each build row as often as the build does, just when it was (or was not) matched. */
  lemma {:induction false} TailRows<P, T>(
      rows: seq<Row<T>>, all: seq<Row<T>>, residuals: Residuals<P, T>, probes: seq<Probe<P>>, unmatched: bool)
    requires Rearranges(rows, all)
    ensures multiset(TailFrom<P, T>(rows, FinalMarks(rows, residuals, probes), unmatched, 0))
         == multiset(Output(TailRow(residuals, probes, unmatched), all))
  {
    SameSelections(rows, all, RowKey());
    TailIs(rows, residuals, probes, unmatched, 0);
    assert rows[0..] == rows;
    OutputPermutes(TailRow(residuals, probes, unmatched), rows, all);
  }

  /**
   A full join: each probe row's matches or its padded row, each build row no probe row matches, and each with a NULL
   key.
   */
  lemma {:induction false} FullOuterJoin<P, T>(
      c: Config<P, T>, all: seq<Row<T>>, buildKeys: seq<Option<int>>, probes: seq<Probe<P>>, nulls: seq<T>)
    requires ConfigOk(c, all, buildKeys) && c.kind == Full
    ensures multiset(Meaning(c, all, buildKeys, probes, nulls))
         == multiset(Output(LeftRow(all, c.residuals), probes))
          + multiset(Output(TailRow(c.residuals, probes, true), all))
          + multiset(NullRows<P, T>(nulls))
  {
    TailRows(c.rows, all, c.residuals, probes, true);
  }

  // ---- both directions of semi and anti joins ----

  /** The rows of a probe input as rows of a build. */
  function AsBuild<A>(rows: seq<Probe<A>>): seq<Input<A>> {
    if rows == [] then [] else [Input(true, rows[0].key, rows[0].value)] + AsBuild(rows[1..])
  }

  lemma {:induction false} AsBuildStep<A>(rows: seq<Probe<A>>)
    requires rows != []
    ensures Keyed(AsBuild(rows)) ==
      if rows[0].key.Some? then [Row(rows[0].key.value, rows[0].value)] + Keyed(AsBuild(rows[1..]))
      else Keyed(AsBuild(rows[1..]))
    ensures NullKeyed(AsBuild(rows)) ==
      if rows[0].key.None? then [rows[0].value] + NullKeyed(AsBuild(rows[1..])) else NullKeyed(AsBuild(rows[1..]))
  {
    hide Keyed;
    hide NullKeyed;
    var first := Input(true, rows[0].key, rows[0].value);
    KeyedOne(first);
    KeyedConcat([first], AsBuild(rows[1..]));
  }

  lemma {:induction false} KeyedOne<A>(row: Input<A>)
    ensures Keyed([row]) == if row.selected && row.key.Some? then [Row(row.key.value, row.value)] else []
    ensures NullKeyed([row]) == if row.selected && row.key.None? then [row.value] else []
  {
    assert [row][..0] == [];
  }

  /** The preserved row an output row stands for: a probe row when filtering, a build row when marking. */
  function Preserved<A, B>(): OutRow<A, B> -> seq<Probe<A>> {
    (r: OutRow<A, B>) => if r.ProbeRow? then [r.probe] else []
  }

  function PreservedBuild<A, B>(): OutRow<B, A> -> seq<Probe<A>> {
    (r: OutRow<B, A>) =>
      match r
      case BuildRow(b) => [Probe(Some(b.key), b.value)]
      case NullRow(v) => [Probe(None, v)]
      case _ => []
  }

  /** The two directions judge a pair of rows alike. */
  ghost predicate JudgeAlike<A, B>(
      rs: Residuals<A, B>, rs': Residuals<B, A>, left: seq<Probe<A>>, right: seq<Probe<B>>)
  {
    forall i, j | 0 <= i < |left| && 0 <= j < |right| && left[i].key.Some? && left[i].key == right[j].key ::
      Judge(rs, Pair(left[i], Row(right[j].key.value, right[j].value)))
          == Judge(rs', Pair(right[j], Row(left[i].key.value, left[i].value)))
  }

  lemma {:induction false} MeetsKeyed<B>(right: seq<Probe<B>>, k: int, m: nat) returns (j: nat)
    requires m < |Select(Keyed(AsBuild(right)), RowKey(), k)|
    ensures j < |right| && right[j].key == Some(k)
    ensures Select(Keyed(AsBuild(right)), RowKey(), k)[m] == Row(k, right[j].value)
  {
    var i := SelectAt(Keyed(AsBuild(right)), RowKey(), k, m);
    j := KeyedAt(right, i);
  }

  lemma {:induction false} KeyedAt<B>(right: seq<Probe<B>>, i: nat) returns (j: nat)
    requires i < |Keyed(AsBuild(right))|
    ensures j < |right| && right[j].key.Some? && Keyed(AsBuild(right))[i] == Row(right[j].key.value, right[j].value)
  {
    AsBuildStep(right);
    if right[0].key.Some? && i == 0 {
      j := 0;
    } else {
      j := KeyedAt(right[1..], if right[0].key.Some? then i - 1 else i);
      j := j + 1;
    }
  }

  lemma {:induction false} KeyedMeets<B>(right: seq<Probe<B>>, j: nat) returns (m: nat)
    requires j < |right| && right[j].key.Some?
    ensures m < |Select(Keyed(AsBuild(right)), RowKey(), right[j].key.value)|
    ensures Select(Keyed(AsBuild(right)), RowKey(), right[j].key.value)[m] == Row(right[j].key.value, right[j].value)
  {
    var i := KeyedHas(right, j);
    var rows, k := Keyed(AsBuild(right)), right[j].key.value;
    SelectPrefix(rows, RowKey(), i, k);
    assert rows == rows[..i + 1] + rows[i + 1..];
    SelectConcat(rows[..i + 1], rows[i + 1..], RowKey(), k);
    m := |Select(rows[..i], RowKey(), k)|;
  }

  lemma {:induction false} KeyedHas<B>(right: seq<Probe<B>>, j: nat) returns (i: nat)
    requires j < |right| && right[j].key.Some?
    ensures i < |Keyed(AsBuild(right))| && Keyed(AsBuild(right))[i] == Row(right[j].key.value, right[j].value)
  {
    AsBuildStep(right);
    if j == 0 {
      i := 0;
    } else {
      i := KeyedHas(right[1..], j - 1);
      if right[0].key.Some? { i := i + 1; }
    }
  }

  /** A left row has a match by one direction just when it has by the other. */
  lemma {:induction false} MatchedEitherWay<A, B>(
      rs: Residuals<A, B>, rs': Residuals<B, A>, left: seq<Probe<A>>, right: seq<Probe<B>>, i: nat)
    requires JudgeAlike(rs, rs', left, right) && i < |left| && left[i].key.Some?
    ensures MatchesOf(Keyed(AsBuild(right)), rs, left[i]) != []
      <==> MatchedBy(rs', right, Row(left[i].key.value, left[i].value))
  {
    var p, k := left[i], left[i].key.value;
    var b := Row(k, p.value);
    SomeMatch(Keyed(AsBuild(right)), rs, p);
    if MatchesOf(Keyed(AsBuild(right)), rs, p) != [] {
      var m :| 0 <= m < |Meets(Keyed(AsBuild(right)), p.key)|
          && Judge(rs, Pair(p, Meets(Keyed(AsBuild(right)), p.key)[m])) == Pass;
      var j := MeetsKeyed(right, k, m);
      assert Matching(rs', right[j], b);
    }
    if j :| 0 <= j < |right| && Matching(rs', right[j], b) {
      var m := KeyedMeets(right, j);
      assert Judge(rs, Pair(p, Meets(Keyed(AsBuild(right)), p.key)[m])) == Pass;
    }
  }

  /** The filtering direction gives the left rows it keeps, in order. */
  lemma {:induction false} FilteringKeeps<A, B>(
      kind: Kind, right: seq<Row<B>>, keys: seq<Option<int>>, rs: Residuals<A, B>, left: seq<Probe<A>>)
    ensures Output(Preserved<A, B>(), Output(KeptRow(kind, right, keys, rs), left))
      == Filter(left, KeptBy(kind, right, keys, rs))
  {
    hide KeepsProbe;
    if left != [] {
      FilteringKeeps(kind, right, keys, rs, left[1..]);
      OutputConcat(Preserved<A, B>(), KeptRow(kind, right, keys, rs)(left[0]),
          Output(KeptRow(kind, right, keys, rs), left[1..]));
      OutputOne(Preserved<A, B>(), ProbeRow(left[0]));
    }
  }

  ghost function KeptBy<A, B>(
      kind: Kind, right: seq<Row<B>>, keys: seq<Option<int>>, rs: Residuals<A, B>): Probe<A> -> bool
  {
    (p: Probe<A>) => KeepsProbe(kind, right, keys, rs, p)
  }

  lemma {:induction false} OutputOne<A, B>(row: A -> seq<B>, x: A)
    ensures Output(row, [x]) == row(x) && Output(row, []) == []
  {
    assert [x][1..] == [];
    assert row(x) + [] == row(x);
  }

  /** The rows of the marking direction's tail. */
  ghost function MarkedTail<A, B>(
      kind: Kind, rs': Residuals<B, A>, right: seq<Probe<B>>, left: seq<Probe<A>>): seq<OutRow<B, A>>
  {
    Output(TailRow(rs', right, kind != Semi), Keyed(AsBuild(left))) + TailNulls<A, B>(kind, left)
  }

  /** Whether a left row comes out of the marking direction's tail. */
  ghost predicate Marked<A, B>(kind: Kind, rs': Residuals<B, A>, right: seq<Probe<B>>, p: Probe<A>) {
    if p.key.Some? then MatchedBy(rs', right, Row(p.key.value, p.value)) != (kind != Semi) else kind != Semi
  }

  /** The tail, by the left rows it stands for. */
  ghost function Sides<A, B>(tail: seq<OutRow<B, A>>): multiset<Probe<A>> {
    multiset(Output(PreservedBuild<A, B>(), tail))
  }

  lemma {:induction false} SidesConcat<A, B>(a: seq<OutRow<B, A>>, b: seq<OutRow<B, A>>)
    ensures Sides(a + b) == Sides(a) + Sides(b)
  {
    OutputConcat(PreservedBuild<A, B>(), a, b);
  }

  lemma {:induction false} SidesOne<A, B>(p: Probe<A>)
    ensures p.key.Some? ==> Sides<A, B>([BuildRow(Row(p.key.value, p.value))]) == multiset{p}
    ensures p.key.None? ==> Sides<A, B>([NullRow(p.value)]) == multiset{p}
    ensures Sides<A, B>([]) == multiset{}
  {
    if p.key.Some? {
      OutputOne(PreservedBuild<A, B>(), BuildRow(Row(p.key.value, p.value)));
    } else {
      OutputOne(PreservedBuild<A, B>(), NullRow(p.value));
    }
  }

  ghost function TailNulls<A, B>(kind: Kind, left: seq<Probe<A>>): seq<OutRow<B, A>> {
    if kind != Semi then NullRows<B, A>(NullKeyed(AsBuild(left))) else []
  }

  lemma {:induction false} KeyedStep<A, B>(row: Row<A> -> seq<OutRow<B, A>>, left: seq<Probe<A>>)
    requires left != [] && left[0].key.Some?
    ensures Output(row, Keyed(AsBuild(left)))
      == row(Row(left[0].key.value, left[0].value)) + Output(row, Keyed(AsBuild(left[1..])))
  {
    var b := Row(left[0].key.value, left[0].value);
    AsBuildStep(left);
    assert ([b] + Keyed(AsBuild(left[1..])))[1..] == Keyed(AsBuild(left[1..]));
  }

  lemma {:induction false} NullStep<A, B>(kind: Kind, left: seq<Probe<A>>)
    requires left != [] && left[0].key.None? && kind != Semi
    ensures TailNulls<A, B>(kind, left) == [NullRow(left[0].value)] + TailNulls<A, B>(kind, left[1..])
  {
    hide NullKeyed;
    hide Keyed;
    AsBuildStep(left);
  }

  /** One left row in the marking direction's tail. */
  lemma {:induction false} MarkedStep<A, B>(kind: Kind, rs': Residuals<B, A>, right: seq<Probe<B>>, left: seq<Probe<A>>)
    requires left != []
    ensures Sides(MarkedTail(kind, rs', right, left))
         == (if Marked(kind, rs', right, left[0]) then multiset{left[0]} else multiset{})
             + Sides(MarkedTail(kind, rs', right, left[1..]))
  {
    hide Sides;
    hide Output;
    hide MatchedBy;
    var p, rest, row := left[0], left[1..], TailRow(rs', right, kind != Semi);
    var keyed, nulls := Output(row, Keyed(AsBuild(rest))), TailNulls<A, B>(kind, rest);
    SidesConcat(Output(row, Keyed(AsBuild(left))), TailNulls<A, B>(kind, left));
    SidesConcat(keyed, nulls);
    SidesOne<A, B>(p);
    AsBuildStep(left);
    if p.key.Some? {
      KeyedStep(row, left);
      SidesConcat(row(Row(p.key.value, p.value)), keyed);
    } else if kind != Semi {
      NullStep<A, B>(kind, left);
      SidesConcat([NullRow(p.value)], nulls);
    }
  }

  lemma {:induction false} KeepsEitherWay<A, B>(
      kind: Kind, keys: seq<Option<int>>, rs: Residuals<A, B>, rs': Residuals<B, A>, left: seq<Probe<A>>,
      right: seq<Probe<B>>, i: nat)
    requires (kind == Semi || kind == Anti) && JudgeAlike(rs, rs', left, right) && i < |left|
    ensures KeptBy(kind, Keyed(AsBuild(right)), keys, rs)(left[i])
       <==> Marked(kind, rs', right, left[i])
  {
    if left[i].key.Some? {
      MatchedEitherWay(rs, rs', left, right, i);
    } else {
      assert MatchesOf(Keyed(AsBuild(right)), rs, left[i]) == [];
    }
  }

  lemma {:induction false} SideNothing<A, B>(kind: Kind, rs': Residuals<B, A>, right: seq<Probe<B>>)
    ensures Sides(MarkedTail<A, B>(kind, rs', right, [])) == multiset{}
  {
  }

  lemma {:induction false} SameKept<A, B>(
      kind: Kind, keys: seq<Option<int>>, rs: Residuals<A, B>, rs': Residuals<B, A>, left: seq<Probe<A>>,
      right: seq<Probe<B>>, i: nat)
    requires (kind == Semi || kind == Anti) && JudgeAlike(rs, rs', left, right) && i <= |left|
    ensures multiset(Filter(left[i..], KeptBy(kind, Keyed(AsBuild(right)), keys, rs)))
         == Sides(MarkedTail(kind, rs', right, left[i..]))
    decreases |left| - i
  {
    hide Marked;
    hide KeepsProbe;
    hide Output;
    hide MatchedBy;
    if i == |left| {
      SideNothing<A, B>(kind, rs', right);
    } else {
      SameKept(kind, keys, rs, rs', left, right, i + 1);
      KeepsEitherWay(kind, keys, rs, rs', left, right, i);
      MarkedStep(kind, rs', right, left[i..]);
      assert left[i..][1..] == left[i + 1..] && left[i..][0] == left[i];
    }
  }

  /** A semi or anti join keeps the same left rows whether it filters them as its probe or marks them as its build. */
  lemma {:induction false} DirectionsAgree<A, B>(
      c: Config<A, B>, c': Config<B, A>, keys: seq<Option<int>>, keys': seq<Option<int>>, left: seq<Probe<A>>,
      right: seq<Probe<B>>)
    requires ConfigOk(c, Keyed(AsBuild(right)), keys) && ConfigOk(c', Keyed(AsBuild(left)), keys')
    requires (c.kind == Semi || c.kind == Anti) && c'.kind == c.kind && !c.buildsLeft && c'.buildsLeft
    requires JudgeAlike(c.residuals, c'.residuals, left, right)
    ensures multiset(Output(Preserved<A, B>(), Meaning(c, Keyed(AsBuild(right)), keys, left, [])))
         == multiset(Output(PreservedBuild<A, B>(),
              Meaning(c', Keyed(AsBuild(left)), keys', right, NullKeyed(AsBuild(left)))))
  {
    hide Meaning;
    hide ConfigOk;
    hide Output;
    hide Keyed;
    hide MarkedTail;
    FilteringKeeps(c.kind, Keyed(AsBuild(right)), keys, c.residuals, left);
    FilteringMeans(c, Keyed(AsBuild(right)), keys, left);
    MarkingKeeps(c', left, right, keys');
    SameKept(c.kind, keys, c.residuals, c'.residuals, left, right, 0);
    assert left[0..] == left;
  }

  lemma {:induction false} FilteringMeans<A, B>(
      c: Config<A, B>, all: seq<Row<B>>, keys: seq<Option<int>>, left: seq<Probe<A>>)
    requires (c.kind == Semi || c.kind == Anti) && !c.buildsLeft
    ensures Meaning(c, all, keys, left, []) == Output(KeptRow(c.kind, all, keys, c.residuals), left)
  {
    var rows := Output(KeptRow(c.kind, all, keys, c.residuals), left);
    assert rows + [] == rows;
  }

  /** The marking direction's rows, by the left rows they stand for. */
  lemma {:induction false} MarkingKeeps<A, B>(
      c: Config<B, A>, left: seq<Probe<A>>, right: seq<Probe<B>>, keys: seq<Option<int>>)
    requires ConfigOk(c, Keyed(AsBuild(left)), keys) && (c.kind == Semi || c.kind == Anti) && c.buildsLeft
    ensures Sides(Meaning(c, Keyed(AsBuild(left)), keys, right, NullKeyed(AsBuild(left))))
      == Sides(MarkedTail(c.kind, c.residuals, right, left))
  {
    var tail := TailOf<B, A>(c, FinalMarks(c.rows, c.residuals, right), NullKeyed(AsBuild(left)));
    NoRest<B, A>(right);
    assert [] + tail == tail;
    TailRows(c.rows, Keyed(AsBuild(left)), c.residuals, right, c.kind != Semi);
    OutputPermutes(PreservedBuild<A, B>(), tail, MarkedTail(c.kind, c.residuals, right, left));
  }
}
