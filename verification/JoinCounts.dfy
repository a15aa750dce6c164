/**
 The rows of a join, counted: how often each comes out, told by its two inputs and the verdicts of the
 residuals alone (what src/plan/include/antb1/plan/join_kind.h promises of each kind).
 */
module JoinCounts {
  import opened Options
  import opened Lists
  import opened CountingSort
  import opened JoinRows
  import opened JoinTable
  import opened JoinResiduals
  import opened JoinSlots
  import opened JoinPadding
  import opened NestedLoop
  import opened JoinCursor
  import opened JoinMeaning
  import opened JoinTail
  import opened WholeJoin
  import J = JoinKinds

  // ---- what matches ----

  /** A probe row and a build row match: equal keys, and every residual true of the pair. */
  ghost predicate Match<P, T>(residuals: Residuals<P, T>, p: Probe<P>, b: Row<T>) {
    p.key == Some(b.key) && forall i | 0 <= i < |residuals| :: residuals[i](Pair(p, b)) == True
  }

  /** The input row that a build row is. */
  function InputRow<T>(b: Row<T>): Input<T> { Input(true, Some(b.key), b.value) }

  /** Some selected build row matches `p`. */
  ghost predicate HasMatch<P, T>(residuals: Residuals<P, T>, build: seq<Input<T>>, p: Probe<P>) {
    exists i :: 0 <= i < |build| && build[i].selected && build[i].key.Some?
      && Match(residuals, p, Row(build[i].key.value, build[i].value))
  }

  /** Some probe row matches `b`. */
  ghost predicate IsMatched<P, T>(residuals: Residuals<P, T>, probes: seq<Probe<P>>, b: Row<T>) {
    exists i :: 0 <= i < |probes| && Match(residuals, probes[i], b)
  }

  /** SQL's NOT IN over the selected build rows: true of none, else of a key where neither it nor a NULL is there. */
  ghost predicate NotIn<P, T>(build: seq<Input<T>>, p: Probe<P>) {
    forall i | 0 <= i < |build| && build[i].selected :: p.key.Some? && build[i].key.Some? && build[i].key != p.key
  }

  /** How often a row comes out of a join. */
  ghost function Times<P, T>(
      kind: Kind, buildsLeft: bool, residuals: Residuals<P, T>, build: seq<Input<T>>, probes: seq<Probe<P>>,
      r: OutRow<P, T>): nat
  {
    match r
    case Joined(p, b) =>
      if (kind == Inner || kind == Left || kind == Full) && Match(residuals, p, b)
      then multiset(probes)[p] * multiset(build)[InputRow(b)] else 0
    case Padded(p) =>
      if (kind == Left || kind == Full) && !HasMatch(residuals, build, p) then multiset(probes)[p] else 0
    case ProbeRow(p) =>
      if !buildsLeft && ((kind == Semi && HasMatch(residuals, build, p))
                         || (kind == Anti && !HasMatch(residuals, build, p))
                         || (kind == NullAwareAnti && NotIn(build, p)))
      then multiset(probes)[p] else 0
    case BuildRow(b) =>
      if (kind == Full && !IsMatched(residuals, probes, b))
         || (buildsLeft && kind == Semi && IsMatched(residuals, probes, b))
         || (buildsLeft && kind == Anti && !IsMatched(residuals, probes, b))
      then multiset(build)[InputRow(b)] else 0
    case NullRow(v) =>
      if kind == Full || (buildsLeft && kind == Anti) then multiset(build)[Input(true, None, v)] else 0
  }

  // ---- counting ----

  lemma {:induction false} FilterCount<S>(s: seq<S>, keep: S -> bool, x: S)
    ensures multiset(Filter(s, keep))[x] == if keep(x) then multiset(s)[x] else 0
  {
    if s != [] {
      FilterCount(s[1..], keep, x);
      CountFirst(s, x);
    }
  }

  lemma {:induction false} CountFirst<S>(s: seq<S>, x: S)
    requires s != []
    ensures multiset(s)[x] == (if s[0] == x then 1 else 0) + multiset(s[1..])[x]
  {
    assert s == [s[0]] + s[1..];
  }

  lemma {:induction false} CountLast<S>(s: seq<S>, n: nat, x: S)
    requires |s| == n + 1
    ensures multiset(s)[x] == multiset(s[..n])[x] + if s[n] == x then 1 else 0
  {
    assert s == s[..n] + [s[n]];
  }

  lemma {:induction false} CountBoth<S>(a: seq<S>, b: seq<S>, x: S)
    ensures multiset(a + b)[x] == multiset(a)[x] + multiset(b)[x]
  {
  }

  lemma {:induction false} MapCount<S, A>(s: seq<S>, f: S -> A, x: S)
    requires forall y | y in s :: f(y) == f(x) ==> y == x
    ensures multiset(Map(s, f))[f(x)] == multiset(s)[x]
  {
    if s != [] {
      assert s[0] in s;
      MapCount(s[1..], f, x);
      CountFirst(s, x);
      MapFirst(s, f);
      CountFirst(Map(s, f), f(x));
    }
  }

  lemma {:induction false} MapFirst<S, A>(s: seq<S>, f: S -> A)
    requires s != []
    ensures Map(s, f) != [] && Map(s, f)[0] == f(s[0]) && Map(s, f)[1..] == Map(s[1..], f)
  {
  }

  /** A row that only one item gives comes out as often as that item gives it, for each time the item is there. */
  lemma {:induction false} OutputCount<A, B>(row: A -> seq<B>, items: seq<A>, item: A, x: B)
    requires forall y | y in items && y != item :: x !in row(y)
    ensures multiset(Output(row, items))[x] == multiset(items)[item] * multiset(row(item))[x]
  {
    if items != [] {
      assert items[0] in items;
      OutputCount(row, items[1..], item, x);
      CountFirst(items, item);
      CountBoth(row(items[0]), Output(row, items[1..]), x);
      OnceMore(multiset(items[1..])[item], multiset(row(item))[x]);
    }
  }

  lemma {:induction false} OnceMore(m: nat, k: nat)
    ensures (1 + m) * k == k + m * k
  {
  }

  lemma {:induction false} OutputWithout<A, B>(row: A -> seq<B>, items: seq<A>, x: B)
    requires forall y | y in items :: x !in row(y)
    ensures multiset(Output(row, items))[x] == 0
  {
    if items != [] {
      assert items[0] in items;
      OutputWithout(row, items[1..], x);
      CountBoth(row(items[0]), Output(row, items[1..]), x);
    }
  }

  lemma {:induction false} InputCount<T>(build: seq<Input<T>>, b: Row<T>, v: T)
    ensures multiset(Keyed(build))[b] == multiset(build)[InputRow(b)]
    ensures multiset(NullKeyed(build))[v] == multiset(build)[Input(true, None, v)]
  {
    if build != [] {
      var n := |build| - 1;
      InputCount(build[..n], b, v);
      CountLast(build, n, InputRow(b));
      CountLast(build, n, Input(true, None, v));
    }
  }

  /** The matches of a probe row, each as often as the build has it. */
  lemma {:induction false} MatchCount<P, T>(residuals: Residuals<P, T>, all: seq<Row<T>>, p: Probe<P>, b: Row<T>)
    ensures multiset(MatchesOf(all, residuals, p))[b] == if Match(residuals, p, b) then multiset(all)[b] else 0
  {
    JudgeMeans(residuals, Pair(p, b));
    FilterCount(Meets(all, p.key), Judged(residuals, p), b);
    if p.key.Some? {
      SelectCount(all, RowKey(), b);
      SelectHas(all, RowKey(), p.key.value);
    }
  }

  lemma {:induction false} KeyedFrom<T>(build: seq<Input<T>>, b: Row<T>)
    ensures b in Keyed(build) <==> InputRow(b) in build
  {
    InputCount(build, b, b.value);
    assert b in Keyed(build) <==> multiset(Keyed(build))[b] > 0;
    assert InputRow(b) in build <==> multiset(build)[InputRow(b)] > 0;
  }

  lemma {:induction false} NoMatches<P, T>(residuals: Residuals<P, T>, build: seq<Input<T>>, p: Probe<P>)
    ensures MatchesOf(Keyed(build), residuals, p) != [] <==> HasMatch(residuals, build, p)
  {
    var matches := MatchesOf(Keyed(build), residuals, p);
    if matches != [] {
      var b := matches[0];
      assert b in multiset(matches);
      MatchCount(residuals, Keyed(build), p, b);
      assert b in multiset(Keyed(build));
      KeyedFrom(build, b);
      var i :| 0 <= i < |build| && build[i] == InputRow(b);
      assert Row(build[i].key.value, build[i].value) == b;
    }
    if HasMatch(residuals, build, p) {
      var i :| 0 <= i < |build| && build[i].selected && build[i].key.Some?
        && Match(residuals, p, Row(build[i].key.value, build[i].value));
      var b := Row(build[i].key.value, build[i].value);
      assert InputRow(b) == build[i];
      KeyedFrom(build, b);
      assert b in multiset(Keyed(build));
      MatchCount(residuals, Keyed(build), p, b);
      assert b in multiset(matches);
    }
  }

  lemma {:induction false} MatchedMeans<P, T>(residuals: Residuals<P, T>, probes: seq<Probe<P>>, b: Row<T>)
    ensures MatchedBy(residuals, probes, b) <==> IsMatched(residuals, probes, b)
  {
    forall i | 0 <= i < |probes| ensures Matching(residuals, probes[i], b) <==> Match(residuals, probes[i], b) {
      JudgeMeans(residuals, Pair(probes[i], b));
    }
  }

  /** The probe rows of a batch that count are those selected, each in its place. */
  lemma {:induction false} SelectedAt<A>(items: seq<A>, selected: seq<bool>, row: nat) returns (at: seq<nat>)
    requires |items| == |selected| && row <= |items|
    ensures PickedAt(items, SelectedFrom(items, selected, row), at) && Rising(at)
    ensures forall k: nat :: k in at <==> row <= k < |items| && selected[k]
    decreases |items| - row
  {
    hide PickedAt;
    hide Rising;
    at := [];
    PickedNone(items);
    if row < |items| {
      at := SelectedAt(items, selected, row + 1);
      if selected[row] {
        PickedFront(items, SelectedFrom(items, selected, row + 1), at, row);
        at := [row] + at;
      }
    }
  }

  lemma {:induction false} PickedNone<A>(items: seq<A>)
    ensures PickedAt(items, [], []) && Rising([])
  {
  }

  lemma {:induction false} PickedFront<A>(items: seq<A>, sub: seq<A>, at: seq<nat>, row: nat)
    requires row < |items| && PickedAt(items, sub, at) && Rising(at) && forall k | k in at :: row < k
    ensures PickedAt(items, [items[row]] + sub, [row] + at) && Rising([row] + at)
  {
    var more := [row] + at;
    forall i | 0 <= i < |more| ensures more[i] < |items| && ([items[row]] + sub)[i] == items[more[i]] {
      if i > 0 { assert more[i] == at[i - 1] && ([items[row]] + sub)[i] == sub[i - 1]; }
    }
    forall i, j | 0 <= i < j < |more| ensures more[i] < more[j] {
      assert more[j] == at[j - 1] && at[j - 1] in at;
      if i > 0 { assert more[i] == at[i - 1]; }
    }
  }

  // ---- the rows of each kind ----

  /** The pairs of a probe row, as it gives them. */
  lemma {:induction false} PairsCount<P, T>(all: seq<Row<T>>, residuals: Residuals<P, T>, q: Probe<P>, r: OutRow<P, T>)
    ensures multiset(Map(MatchesOf(all, residuals, q), JoinedTo(q)))[r] ==
      if r.Joined? && r.probe == q && Match(residuals, q, r.build) then multiset(all)[r.build] else 0
  {
    hide MatchesOf;
    hide Match;
    var matches := MatchesOf(all, residuals, q);
    if r.Joined? && r.probe == q {
      MapCount(matches, JoinedTo(q), r.build);
      MatchCount(residuals, all, q, r.build);
    } else {
      assert r !in Map(matches, JoinedTo(q));
    }
  }

  /** The probe row an output row is of. */
  ghost predicate OfProbe<P, T>(r: OutRow<P, T>, p: Probe<P>) {
    (r.Joined? || r.Padded? || r.ProbeRow?) && r.probe == p
  }

  /** Rows that name their probe row come out once for each time that is there. */
  lemma {:induction false} ProbeCount<P, T>(row: Probe<P> -> seq<OutRow<P, T>>, probes: seq<Probe<P>>, r: OutRow<P, T>)
    requires forall p, x | x in row(p) :: OfProbe(x, p)
    ensures multiset(Output(row, probes))[r] ==
      if r.BuildRow? || r.NullRow? then 0 else multiset(probes)[r.probe] * multiset(row(r.probe))[r]
  {
    if r.BuildRow? || r.NullRow? {
      OutputWithout(row, probes, r);
    } else {
      OutputCount(row, probes, r.probe, r);
    }
  }

  lemma {:induction false} InnerCount<P, T>(
      residuals: Residuals<P, T>, build: seq<Input<T>>, probes: seq<Probe<P>>, r: OutRow<P, T>)
    ensures multiset(Output(InnerRow(Keyed(build), residuals), probes))[r]
      == Times(Inner, false, residuals, build, probes, r)
  {
    hide MatchesOf;
    hide Match;
    hide HasMatch;
    hide Keyed;
    hide Output;
    var all := Keyed(build);
    ProbeCount(InnerRow(all, residuals), probes, r);
    if r.Joined? {
      PairsCount(all, residuals, r.probe, r);
      InputCount(build, r.build, r.build.value);
    } else if r.Padded? || r.ProbeRow? {
      PairsCount(all, residuals, r.probe, r);
    }
  }

  lemma {:induction false} LeftCount<P, T>(
      residuals: Residuals<P, T>, build: seq<Input<T>>, probes: seq<Probe<P>>, r: OutRow<P, T>)
    ensures multiset(Output(LeftRow(Keyed(build), residuals), probes))[r]
      == Times(Left, false, residuals, build, probes, r)
  {
    hide MatchesOf;
    hide Match;
    hide HasMatch;
    hide Keyed;
    hide Output;
    hide LeftRow;
    ProbesNamed<P, T>(Keyed(build), residuals);
    ProbeCount(LeftRow(Keyed(build), residuals), probes, r);
    if r.Joined? || r.Padded? || r.ProbeRow? {
      LeftOne(residuals, build, r.probe, r);
      var n := multiset(probes)[r.probe];
      assert n * 1 == n && n * 0 == 0;
    }
  }

  lemma {:induction false} ProbesNamed<P, T>(all: seq<Row<T>>, residuals: Residuals<P, T>)
    ensures forall p, x | x in LeftRow(all, residuals)(p) :: OfProbe(x, p)
  {
    hide MatchesOf;
  }

  /** What one probe row gives to a left join. */
  lemma {:induction false} LeftOne<P, T>(
      residuals: Residuals<P, T>, build: seq<Input<T>>, p: Probe<P>, r: OutRow<P, T>)
    requires OfProbe(r, p)
    ensures multiset(LeftRow(Keyed(build), residuals)(p))[r] ==
      if r.Joined? && Match(residuals, p, r.build) then multiset(build)[InputRow(r.build)]
      else if r.Padded? && !HasMatch(residuals, build, p) then 1 else 0
  {
    hide MatchesOf;
    hide Match;
    hide HasMatch;
    hide Keyed;
    var all := Keyed(build);
    PairsCount(all, residuals, p, r);
    NoMatches(residuals, build, p);
    if r.Joined? { InputCount(build, r.build, r.build.value); }
    if MatchesOf(all, residuals, p) == [] {
      assert LeftRow(all, residuals)(p) == [Padded(p)];
      assert Map(MatchesOf(all, residuals, p), JoinedTo(p)) == [];
    } else {
      assert LeftRow(all, residuals)(p) == Map(MatchesOf(all, residuals, p), JoinedTo(p));
    }
  }

  lemma {:induction false} KeptCount<P, T>(
      kind: Kind, residuals: Residuals<P, T>, build: seq<Input<T>>, probes: seq<Probe<P>>, r: OutRow<P, T>)
    requires kind == Semi || kind == Anti || kind == NullAwareAnti
    ensures multiset(Output(KeptRow(kind, Keyed(build), KeysIn(build), residuals), probes))[r]
      == Times(kind, false, residuals, build, probes, r)
  {
    hide MatchesOf;
    hide HasMatch;
    hide Keyed;
    hide KeysIn;
    hide NotInSql;
    hide NotIn;
    hide Output;
    hide KeepsProbe;
    var row := KeptRow<P, T>(kind, Keyed(build), KeysIn(build), residuals);
    ProbeCount(row, probes, r);
    if r.ProbeRow? {
      KeepsWhen(kind, residuals, build, r.probe);
      var n := multiset(probes)[r.probe];
      assert row(r.probe) == [r] || row(r.probe) == [];
      assert n * 1 == n && n * 0 == 0;
    }
  }

  lemma {:induction false} KeepsWhen<P, T>(
      kind: Kind, residuals: Residuals<P, T>, build: seq<Input<T>>, p: Probe<P>)
    requires kind == Semi || kind == Anti || kind == NullAwareAnti
    ensures KeepsProbe(kind, Keyed(build), KeysIn(build), residuals, p) <==>
      if kind == Semi then HasMatch(residuals, build, p)
      else if kind == Anti then !HasMatch(residuals, build, p)
      else NotIn(build, p)
  {
    hide MatchesOf;
    hide HasMatch;
    hide Keyed;
    hide KeysIn;
    hide NotInSql;
    hide NotIn;
    NoMatches(residuals, build, p);
    NotInMeans(build, p);
  }

  lemma {:induction false} KeysMean<T>(build: seq<Input<T>>, key: Option<int>)
    ensures key in KeysIn(build) <==> exists i :: 0 <= i < |build| && build[i].selected && build[i].key == key
  {
    if build != [] {
      var n := |build| - 1;
      KeysMean(build[..n], key);
      if i :| 0 <= i < n && build[..n][i].selected && build[..n][i].key == key { assert build[i] == build[..n][i]; }
      if i :| 0 <= i < |build| && build[i].selected && build[i].key == key {
        if i < n { assert build[..n][i] == build[i]; }
      }
    }
  }

  lemma {:induction false} NotInMeans<P, T>(build: seq<Input<T>>, p: Probe<P>)
    ensures NotInSql(p.key, KeysIn(build)) <==> NotIn(build, p)
  {
    hide NotInSql;
    hide KeysIn;
    var keys := KeysIn(build);
    NotInIs(p.key, keys);
    KeysMean(build, None);
    KeysMean(build, p.key);
    if keys != [] {
      KeysMean(build, keys[0]);
      assert keys[0] in keys;
    }
    forall i | 0 <= i < |build| && build[i].selected ensures build[i].key in keys { KeysMean(build, build[i].key); }
  }

  lemma {:induction false} TailCount<P, T>(
      unmatched: bool, residuals: Residuals<P, T>, build: seq<Input<T>>, probes: seq<Probe<P>>, r: OutRow<P, T>)
    ensures multiset(Output(J.TailRow(residuals, probes, unmatched), Keyed(build)))[r] ==
      if r.BuildRow? && IsMatched(residuals, probes, r.build) != unmatched
      then multiset(build)[InputRow(r.build)] else 0
  {
    hide MatchedBy;
    hide IsMatched;
    hide Keyed;
    hide Output;
    var row := J.TailRow(residuals, probes, unmatched);
    if r.BuildRow? {
      OutputCount(row, Keyed(build), r.build, r);
      MatchedMeans(residuals, probes, r.build);
      InputCount(build, r.build, r.build.value);
      var n := multiset(Keyed(build))[r.build];
      if MatchedBy(residuals, probes, r.build) != unmatched {
        assert row(r.build) == [r];
        assert n * 1 == n;
      } else {
        assert row(r.build) == [];
        assert n * 0 == 0;
      }
    } else {
      OutputWithout(row, Keyed(build), r);
    }
  }

  lemma {:induction false} NullCount<P, T>(build: seq<Input<T>>, r: OutRow<P, T>)
    ensures multiset(NullRows<P, T>(NullKeyed(build)))[r] ==
      if r.NullRow? then multiset(build)[Input(true, None, r.value)] else 0
  {
    hide NullKeyed;
    var values := NullKeyed(build);
    var f: T -> OutRow<P, T> := (v: T) => NullRow(v);
    assert NullRows<P, T>(values) == Map(values, f);
    if r.NullRow? {
      MapCount(values, f, r.value);
      InputCount(build, Row(0, r.value), r.value);
    } else {
      assert r !in Map(values, f);
    }
  }

  /** Every row comes out of a join of two inputs as often as the inputs and the verdicts say. */
  lemma {:induction false} RowsCounted<P, T>(
      kind: Kind, buildsLeft: bool, residuals: Residuals<P, T>, build: seq<Input<T>>, probes: seq<Probe<P>>,
      r: OutRow<P, T>)
    requires buildsLeft ==> kind == Inner || kind == Semi || kind == Anti
    ensures RowsOfJoin(kind, buildsLeft, residuals, build, probes)[r]
      == Times(kind, buildsLeft, residuals, build, probes, r)
  {
    hide Output;
    hide Keyed;
    hide NullKeyed;
    hide KeysIn;
    hide NullRows;
    hide Match;
    hide HasMatch;
    hide IsMatched;
    hide NotIn;
    TailCount(kind != Semi, residuals, build, probes, r);
    NullCount<P, T>(build, r);
    match kind
    case Inner => InnerCount(residuals, build, probes, r);
    case Left => LeftCount(residuals, build, probes, r);
    case Full => LeftCount(residuals, build, probes, r);
    case _ => KeptCount(kind, residuals, build, probes, r);
  }

  /** A join fails when some pair with equal keys meets an error at a residual before which all are true. */
  lemma {:induction false} FailsMeans<P, T>(residuals: Residuals<P, T>, build: seq<Input<T>>, probes: seq<Probe<P>>)
    ensures Fails(Keyed(build), residuals, probes) <==>
      exists p, b, i ::
        p in probes && InputRow(b) in build && p.key == Some(b.key) && ErrsFirst(residuals, Pair(p, b), i)
  {
    hide Keyed;
    hide FailsRow;
    if r :| 0 <= r < |probes| && FailsRow(Keyed(build), residuals, probes[r]) {
      var b, i := FailingPair(residuals, build, probes[r]);
      assert probes[r] in probes;
    }
    if p, b, i :| p in probes && InputRow(b) in build && p.key == Some(b.key) && ErrsFirst(residuals, Pair(p, b), i) {
      PairFails(residuals, build, p, b, i);
      var r :| 0 <= r < |probes| && probes[r] == p;
    }
  }

  lemma {:induction false} FailingPair<P, T>(residuals: Residuals<P, T>, build: seq<Input<T>>, p: Probe<P>)
    returns (b: Row<T>, i: int)
    requires FailsRow(Keyed(build), residuals, p)
    ensures InputRow(b) in build && p.key == Some(b.key) && ErrsFirst(residuals, Pair(p, b), i)
  {
    hide Keyed;
    var all := Keyed(build);
    var k :| 0 <= k < |Meets(all, p.key)| && Judge(residuals, Pair(p, Meets(all, p.key)[k])) == Fail;
    b := Meets(all, p.key)[k];
    SelectHas(all, RowKey(), p.key.value);
    assert b in Select(all, RowKey(), p.key.value);
    KeyedFrom(build, b);
    JudgeMeans(residuals, Pair(p, b));
    i :| ErrsFirst(residuals, Pair(p, b), i);
  }

  lemma {:induction false} PairFails<P, T>(
      residuals: Residuals<P, T>, build: seq<Input<T>>, p: Probe<P>, b: Row<T>, i: int)
    requires InputRow(b) in build && p.key == Some(b.key) && ErrsFirst(residuals, Pair(p, b), i)
    ensures FailsRow(Keyed(build), residuals, p)
  {
    hide Keyed;
    hide Select;
    var all := Keyed(build);
    KeyedFrom(build, b);
    JudgeMeans(residuals, Pair(p, b));
    SelectCount(all, RowKey(), b);
    assert b in multiset(all) && b in multiset(Meets(all, p.key));
    var k :| 0 <= k < |Meets(all, p.key)| && Meets(all, p.key)[k] == b;
  }
}
