/**
 COUNT(DISTINCT c) per group (src/exec/grouped_aggregate_state.cc, GroupedCountDistinct): the distinct
 pairs of group and value are numbered, and a pair seen for the first time counts for its group.
 */
module CountDistinct {
  import opened Options
  import opened CountingSort
  import opened Grouping
  import opened GroupKeys

  datatype Pair = Pair(group: nat, value: Option<int>)

  /** The values of a group. */
  ghost function Values(pairs: seq<Pair>, g: nat): set<int> {
    set p | p in pairs && p.group == g && p.value.Some? :: p.value.value
  }

  predicate Counts(p: Pair, g: nat) { p.group == g && p.value.Some? }

  /** The marked pairs that count for a group. */
  function Tally(pairs: seq<Pair>, marks: seq<bool>, g: nat): nat
    requires |marks| == |pairs|
  {
    if pairs == [] then 0
    else
      var n := |pairs| - 1;
      Tally(pairs[..n], marks[..n], g) + if marks[n] && Counts(pairs[n], g) then 1 else 0
  }

  lemma {:induction false} TallyMark(pairs: seq<Pair>, marks: seq<bool>, k: nat, g: nat)
    requires |marks| == |pairs| && k < |pairs| && !marks[k]
    ensures Tally(pairs, marks[k := true], g) == Tally(pairs, marks, g) + if Counts(pairs[k], g) then 1 else 0
    decreases |pairs|
  {
    var n := |pairs| - 1;
    var next := marks[k := true];
    if k == n {
      assert next[..n] == marks[..n];
    } else {
      TallyMark(pairs[..n], marks[..n], k, g);
      assert next[..n] == marks[..n][k := true];
    }
  }

  /** Pairs added unmarked change nothing. */
  lemma {:induction false} TallyPrefix(pairs: seq<Pair>, marks: seq<bool>, m: nat, g: nat)
    requires |marks| == |pairs| && m <= |pairs| && forall k | m <= k < |pairs| :: !marks[k]
    ensures Tally(pairs, marks, g) == Tally(pairs[..m], marks[..m], g)
    decreases |pairs|
  {
    var n := |pairs| - 1;
    if m == |pairs| {
      assert pairs[..m] == pairs && marks[..m] == marks;
    } else {
      TallyPrefix(pairs[..n], marks[..n], m, g);
      assert pairs[..n][..m] == pairs[..m] && marks[..n][..m] == marks[..m];
    }
  }

  /** Distinct pairs, all marked, are as many as the group's values. */
  lemma {:induction false} TallyValues(pairs: seq<Pair>, marks: seq<bool>, g: nat)
    requires Distinct(pairs) && |marks| == |pairs| && forall k | 0 <= k < |pairs| :: marks[k]
    ensures Tally(pairs, marks, g) == |Values(pairs, g)|
    decreases |pairs|
  {
    hide Values;
    if pairs == [] {
      NoValues(g);
    } else {
      var n := |pairs| - 1;
      var front, p := pairs[..n], pairs[n];
      TallyValues(front, marks[..n], g);
      LastValue(front, p, g);
      assert pairs == front + [p];
      if Counts(p, g) { NewValue(front, p, g); }
    }
  }

  lemma {:induction false} NoValues(g: nat)
    ensures Values([], g) == {}
  {
  }

  lemma {:induction false} Has(pairs: seq<Pair>, g: nat, v: int)
    ensures v in Values(pairs, g) <==> Pair(g, Some(v)) in pairs
  {
  }

  lemma {:induction false} LastValue(pairs: seq<Pair>, p: Pair, g: nat)
    ensures Values(pairs + [p], g) == Values(pairs, g) + if Counts(p, g) then {p.value.value} else {}
  {
    var all := pairs + [p];
    forall v ensures v in Values(all, g) <==> v in Values(pairs, g) || (Counts(p, g) && v == p.value.value) {
      Has(all, g, v);
      Has(pairs, g, v);
    }
  }

  lemma {:induction false} NewValue(pairs: seq<Pair>, p: Pair, g: nat)
    requires Distinct(pairs + [p]) && Counts(p, g)
    ensures p.value.value !in Values(pairs, g)
  {
    var all := pairs + [p];
    forall i | 0 <= i < |pairs| ensures pairs[i] != p { assert all[i] != all[|pairs|]; }
    Has(pairs, g, p.value.value);
    assert p == Pair(g, Some(p.value.value));
  }

  // ---- adding pairs ----

  /** Every pair's group has a count, and the counts are those of the groups' values. */
  ghost predicate Right(pairs: seq<Pair>, counts: seq<nat>) {
    && Distinct(pairs)
    && (forall p | p in pairs :: p.group < |counts|)
    && forall g: nat | g < |counts| :: counts[g] == |Values(pairs, g)|
  }

  ghost predicate Tallied(pairs: seq<Pair>, marks: seq<bool>, counts: seq<nat>) {
    |marks| == |pairs| && forall g: nat | g < |counts| :: counts[g] == Tally(pairs, marks, g)
  }

  function Marks(n: nat, seen: seq<bool>): (m: seq<bool>)
    ensures |m| == n + |seen|
  {
    seq(n, _ => true) + seen
  }

  /** Rows of group and value; a pair that is new counts once for its group. */
  method AddPairs(pairs: seq<Pair>, counts: seq<nat>, rows: seq<Pair>) returns (all: seq<Pair>, out: seq<nat>)
    requires Right(pairs, counts) && forall p | p in rows :: p.group < |counts|
    ensures Right(all, out) && |out| == |counts| && pairs <= all
    ensures forall p :: p in all <==> p in pairs || p in rows
  {
    hide Values;
    hide Tally;
    out := counts;
    var before := |pairs|;
    var ids;
    ids, all := Number(pairs, rows);
    NumberedPairs(pairs, rows, ids, all);
    var after := |all|;
    if after == before {
      assert all == pairs;
      return;
    }
    var seen := seq(after - before, _ => false);
    StartTallied(pairs, counts, all, seen);
    for i := 0 to |rows|
      invariant |seen| == after - before && |out| == |counts|
      invariant Tallied(all, Marks(before, seen), out)
      invariant forall j | 0 <= j < i :: ids[j] < before || seen[ids[j] - before]
    {
      var pair := ids[i];
      if pair < before || seen[pair - before] {
        continue;
      }
      assert all[pair] == rows[i] && rows[i] in rows;
      CountOne(all, before, seen, out, pair);
      seen := seen[pair - before := true];
      if rows[i].value.Some? {
        out := out[rows[i].group := out[rows[i].group] + 1];
      }
    }
    AllTallied(pairs, rows, ids, all, seen, out);
  }

  lemma {:induction false} NumberedPairs(pairs: seq<Pair>, rows: seq<Pair>, ids: seq<nat>, all: seq<Pair>)
    requires Numbered(pairs, rows, ids, all)
    ensures forall p :: p in all <==> p in pairs || p in rows
  {
    forall p ensures p in all <==> p in pairs || p in rows {
      if p in all {
        var k :| 0 <= k < |all| && all[k] == p;
        if k < |pairs| { assert pairs[k] == p; }
      }
      if p in pairs {
        var k :| 0 <= k < |pairs| && pairs[k] == p;
        assert all[k] == p;
      }
      if p in rows {
        var i :| 0 <= i < |rows| && rows[i] == p;
        assert all[ids[i]] == p;
      }
    }
  }

  lemma {:induction false} StartTallied(pairs: seq<Pair>, counts: seq<nat>, all: seq<Pair>, seen: seq<bool>)
    requires Right(pairs, counts) && pairs <= all && |seen| == |all| - |pairs| && forall k | 0 <= k < |seen| :: !seen[k]
    ensures Tallied(all, Marks(|pairs|, seen), counts)
  {
    hide Values;
    hide Tally;
    var n, marks := |pairs|, Marks(|pairs|, seen);
    assert all[..n] == pairs;
    forall g: nat | g < |counts| ensures counts[g] == Tally(all, marks, g) {
      TallyPrefix(all, marks, n, g);
      TallyValues(pairs, marks[..n], g);
    }
  }

  lemma {:induction false} CountOne(all: seq<Pair>, before: nat, seen: seq<bool>, counts: seq<nat>, pair: nat)
    requires before <= pair < |all| == before + |seen| && !seen[pair - before]
    requires Tallied(all, Marks(before, seen), counts) && all[pair].group < |counts|
    ensures var p := all[pair];
      Tallied(all, Marks(before, seen[pair - before := true]), if p.value.Some?
          then counts[p.group := counts[p.group] + 1] else counts)
  {
    hide Tally;
    var marks := Marks(before, seen);
    var next := Marks(before, seen[pair - before := true]);
    assert next == marks[pair := true];
    forall g: nat | g < |counts| ensures Tally(all, next, g) == counts[g] + if Counts(all[pair], g) then 1 else 0 {
      TallyMark(all, marks, pair, g);
    }
  }

  lemma {:induction false} AllTallied(
      pairs: seq<Pair>, rows: seq<Pair>, ids: seq<nat>, all: seq<Pair>, seen: seq<bool>, counts: seq<nat>)
    requires Numbered(pairs, rows, ids, all) && |seen| == |all| - |pairs|
    requires Tallied(all, Marks(|pairs|, seen), counts)
    requires forall j | 0 <= j < |ids| :: ids[j] < |pairs| || seen[ids[j] - |pairs|]
    requires forall p | p in all :: p.group < |counts|
    ensures Right(all, counts)
  {
    hide Values;
    hide Tally;
    var before, marks := |pairs|, Marks(|pairs|, seen);
    forall k | 0 <= k < |all| ensures marks[k] {
      if k >= before {
        var i :| 0 <= i < |rows| && rows[i] == all[k];
        assert ids[i] == k;
      }
    }
    forall g: nat | g < |counts| ensures counts[g] == |Values(all, g)| { TallyValues(all, marks, g); }
  }

  // ---- merging groups ----

  function GroupOf(p: Pair): int { p.group }

  /** The pairs sorted by group, group g's from start[g] to start[g + 1]. */
  datatype Index = Index(sorted: seq<Pair>, start: seq<nat>)

  ghost predicate IsIndex(ix: Index, pairs: seq<Pair>, n: nat) {
    && InBuckets(pairs, GroupOf, n) && Sorts(ix.sorted, pairs, GroupOf, n)
    && |ix.start| == n + 1 && forall b: nat | b <= n :: ix.start[b] == Less(pairs, GroupOf, b)
  }

  method PairsByGroup(pairs: seq<Pair>, n: nat) returns (ix: Index)
    requires InBuckets(pairs, GroupOf, n)
    ensures IsIndex(ix, pairs, n)
  {
    var sorted, start := StableSort(pairs, GroupOf, n);
    ix := Index(sorted[..], start[..]);
  }

  /** Pairs made a group's. */
  function Sent(pairs: seq<Pair>, g: nat): seq<Pair> {
    seq(|pairs|, k requires 0 <= k < |pairs| => Pair(g, pairs[k].value))
  }

  /** The pairs of the groups `from`, each made the group `target` names. */
  function Moved(pairs: seq<Pair>, from: seq<nat>, target: seq<nat>): seq<Pair>
    requires |from| == |target|
  {
    if from == [] then []
    else
      var n := |from| - 1;
      Moved(pairs, from[..n], target[..n]) + Sent(Select(pairs, GroupOf, from[n]), target[n])
  }

  method Send(pairs: seq<Pair>, g: nat) returns (sent: seq<Pair>)
    ensures sent == Sent(pairs, g)
  {
    sent := [];
    for k := 0 to |pairs|
      invariant sent == Sent(pairs[..k], g)
    {
      sent := sent + [Pair(g, pairs[k].value)];
    }
    assert pairs[..|pairs|] == pairs;
  }

  method MergedPairs(
      ix: Index, ghost pairs: seq<Pair>, ghost n: nat, from: seq<nat>, target: seq<nat>)
    returns (rows: seq<Pair>)
    requires IsIndex(ix, pairs, n) && |from| == |target| && forall i | 0 <= i < |from| :: from[i] < n
    ensures rows == Moved(pairs, from, target)
  {
    hide Sent;
    rows := [];
    for i := 0 to |from|
      invariant rows == Moved(pairs, from[..i], target[..i])
    {
      var b := from[i];
      assert Bucket(ix.sorted, pairs, GroupOf, b);
      var sent := Send(ix.sorted[ix.start[b]..ix.start[b + 1]], target[i]);
      rows := rows + sent;
      assert from[..i + 1][..i] == from[..i] && target[..i + 1][..i] == target[..i];
    }
    assert from[..|from|] == from && target[..|target|] == target;
  }

  lemma {:induction false} MovedGroups(pairs: seq<Pair>, from: seq<nat>, target: seq<nat>, n: nat)
    requires |from| == |target| && forall i | 0 <= i < |target| :: target[i] < n
    ensures forall p | p in Moved(pairs, from, target) :: p.group < n
    decreases |from|
  {
    if from != [] { MovedGroups(pairs, from[..|from| - 1], target[..|from| - 1], n); }
  }

  /** What a group gets: the values of every group that is moved to it. */
  lemma {:induction false} MovedValues(pairs: seq<Pair>, from: seq<nat>, target: seq<nat>, g: nat, v: int)
    requires |from| == |target|
    ensures v in Values(Moved(pairs, from, target), g)
       <==> exists i | 0 <= i < |from| :: target[i] == g && v in Values(pairs, from[i])
    decreases |from|
  {
    hide Values;
    if from == [] {
      NoValues(g);
    } else {
      var n := |from| - 1;
      MovedValues(pairs, from[..n], target[..n], g, v);
      var front, last := Moved(pairs, from[..n], target[..n]), Sent(Select(pairs, GroupOf, from[n]), target[n]);
      Has(front + last, g, v);
      Has(front, g, v);
      SentValues(pairs, from[n], target[n], g, v);
      assert forall i | 0 <= i < n :: from[..n][i] == from[i] && target[..n][i] == target[i];
    }
  }

  lemma {:induction false} SentValues(pairs: seq<Pair>, b: nat, target: nat, g: nat, v: int)
    ensures Pair(g, Some(v)) in Sent(Select(pairs, GroupOf, b), target) <==> target == g && v in Values(pairs, b)
  {
    hide Values;
    var group := Select(pairs, GroupOf, b);
    Has(pairs, b, v);
    SelectHas(pairs, b, Pair(b, Some(v)));
    SelectHas(pairs, b, Pair(g, Some(v)));
    var sent := Sent(group, target);
    if Pair(g, Some(v)) in sent {
      var k :| 0 <= k < |sent| && sent[k] == Pair(g, Some(v));
      SelectHas(pairs, b, group[k]);
      assert group[k] in group;
    }
    if target == g && Pair(b, Some(v)) in group {
      var k :| 0 <= k < |group| && group[k] == Pair(b, Some(v));
      assert sent[k] == Pair(g, Some(v));
    }
  }

  lemma {:induction false} SelectHas(pairs: seq<Pair>, b: nat, p: Pair)
    ensures p in Select(pairs, GroupOf, b) <==> p in pairs && p.group == b
    decreases |pairs|
  {
    if pairs != [] {
      var n := |pairs| - 1;
      SelectHas(pairs[..n], b, p);
      assert pairs == pairs[..n] + [pairs[n]];
    }
  }

  // ---- the state ----

  function Rows(ids: seq<nat>, values: seq<Option<int>>): seq<Pair>
    requires |ids| == |values|
  {
    seq(|ids|, i requires 0 <= i < |ids| => Pair(ids[i], values[i]))
  }

  /** What a merge comes to; PastIndex: a group is read past the end of the index. */
  datatype Outcome = Rejected | PastIndex | Merged

  predicate Below(ids: seq<nat>, n: int) {
    forall i | 0 <= i < |ids| :: ids[i] < n
  }

  /** As many groups on both sides, and all of them groups. */
  predicate InRange(from: seq<nat>, groups: nat, target: seq<nat>, targets: nat) {
    |from| == |target| && Below(from, groups) && Below(target, targets)
  }

  class State {
    var pairs: seq<Pair>
    var counts: seq<nat>
    var byGroup: Option<Index>
    /** The pairs and groups that the index was made of, at the first merge. */
    ghost var indexed: seq<Pair>
    ghost var indexedGroups: nat

    /** Every count is the number of its group's values. */
    ghost predicate Valid()
      reads this
    {
      && Right(pairs, counts)
      && (byGroup.Some? ==> indexed <= pairs && IsIndex(byGroup.value, indexed, indexedGroups))
    }

    constructor ()
      ensures Valid() && pairs == [] && counts == [] && byGroup.None?
    {
      pairs, counts, byGroup := [], [], None;
    }

    /** New groups count nothing; a smaller number drops counts, which is right just when no pair is theirs. */
    method Resize(groups: nat)
      requires Valid()
      modifies this`counts
      ensures |counts| == groups && (counts <= old(counts) || old(counts) <= counts)
      ensures forall g | old(|counts|) <= g < groups :: counts[g] == 0
      ensures Valid() <==> forall p | p in pairs :: p.group < groups
    {
      ghost var before := counts;
      if groups <= |counts| {
        counts := counts[..groups];
      } else {
        counts := counts + seq(groups - |counts|, _ => 0);
        NoneBeyond(pairs, before, counts);
      }
    }

    /** Rows of values; the group ids must be groups of the state. */
    method Consume(values: seq<Option<int>>, ids: seq<nat>) returns (ok: bool)
      requires Valid()
      modifies this`pairs, this`counts
      ensures Valid() && |counts| == old(|counts|)
      ensures ok <==> |values| == |ids| && forall i | 0 <= i < |ids| :: ids[i] < |counts|
      ensures !ok ==> unchanged(this)
      ensures ok ==> forall p :: p in pairs <==> p in old(pairs) || p in Rows(ids, values)
    {
      if |values| != |ids| || exists i | 0 <= i < |ids| :: ids[i] >= |counts| {
        return false;
      }
      var rows := Rows(ids, values);
      if rows != [] {
        pairs, counts := AddPairs(pairs, counts, rows);
      }
      ok := true;
    }

    /** The pairs a merge from this state takes: all, or those at the first merge. */
    ghost function Taken(): seq<Pair>
      reads this
    {
      if byGroup.Some? then indexed else pairs
    }

    /**
     Groups `from` of the other state into groups `target` of this one. A group added to the other after
     its first merge is past the end of its index, which the code reads unchecked.
     */
    method MergeGroups(other: State, from: seq<nat>, target: seq<nat>) returns (r: Outcome)
      requires Valid() && other.Valid()
      modifies this`pairs, this`counts, other`byGroup, other`indexed, other`indexedGroups
      ensures Valid() && other.Valid() && |counts| == old(|counts|) && other.Taken() == old(other.Taken())
      ensures r.Rejected? <==> !InRange(from, old(|other.counts|), target, old(|counts|))
      ensures r.PastIndex? <==> !r.Rejected? && old(other.byGroup).Some? && !Below(from, old(other.indexedGroups))
      ensures !r.Merged? ==> unchanged(this) && unchanged(other)
      ensures r.Merged? ==> forall p :: p in pairs <==> p in old(pairs) || p in Moved(old(other.Taken()), from, target)
      ensures r.Merged? ==> other.byGroup.Some?
      ensures r.Merged? ==>
        other.indexedGroups == if old(other.byGroup).Some? then old(other.indexedGroups) else old(|other.counts|)
    {
      hide Right;
      hide IsIndex;
      hide Moved;
      if !InRange(from, |other.counts|, target, |counts|) {
        return Rejected;
      }
      if other.byGroup.None? {
        InGroups(other.pairs, other.counts);
        var ix := PairsByGroup(other.pairs, |other.counts|);
        other.byGroup, other.indexed, other.indexedGroups := Some(ix), other.pairs, |other.counts|;
      }
      IndexStarts(other.byGroup.value, other.indexed, other.indexedGroups);
      if !Below(from, |other.byGroup.value.start| - 1) {
        return PastIndex;
      }
      var rows := MergedPairs(other.byGroup.value, other.indexed, other.indexedGroups, from, target);
      MovedGroups(other.indexed, from, target, |counts|);
      if rows != [] {
        pairs, counts := AddPairs(pairs, counts, rows);
      }
      r := Merged;
    }
  }

  lemma {:induction false} IndexStarts(ix: Index, pairs: seq<Pair>, n: nat)
    requires IsIndex(ix, pairs, n)
    ensures |ix.start| == n + 1
  {
  }

  lemma {:induction false} InGroups(pairs: seq<Pair>, counts: seq<nat>)
    requires Right(pairs, counts)
    ensures InBuckets(pairs, GroupOf, |counts|)
  {
    forall i | 0 <= i < |pairs| ensures 0 <= GroupOf(pairs[i]) < |counts| { assert pairs[i] in pairs; }
  }

  /** Groups without pairs have no values. */
  lemma {:induction false} NoneBeyond(pairs: seq<Pair>, counts: seq<nat>, more: seq<nat>)
    requires Right(pairs, counts) && counts <= more && forall g | |counts| <= g < |more| :: more[g] == 0
    ensures Right(pairs, more)
  {
    forall g: nat | g < |more| ensures more[g] == |Values(pairs, g)| {
      if g >= |counts| { assert Values(pairs, g) == {}; }
    }
  }

  // ---- a state that goes on after a merge ----

  lemma {:induction false} ValuesOf(pairs: seq<Pair>, rows: seq<Pair>, all: seq<Pair>, g: nat)
    requires forall p :: p in all <==> p in pairs || p in rows
    ensures Values(all, g) == Values(pairs, g) + Values(rows, g)
  {
    hide Values;
    forall v ensures v in Values(all, g) <==> v in Values(pairs, g) || v in Values(rows, g) {
      Has(all, g, v);
      Has(pairs, g, v);
      Has(rows, g, v);
    }
  }

  /** The index of the first merge still has a group's values just when none was added to it since. */
  lemma {:induction false} IndexHasAll(pairs: seq<Pair>, m: nat, g: nat)
    requires Distinct(pairs) && m <= |pairs|
    ensures Values(pairs[..m], g) == Values(pairs, g) <==> forall k | m <= k < |pairs| :: !Counts(pairs[k], g)
  {
    hide Values;
    var front := pairs[..m];
    forall k | m <= k < |pairs| && Counts(pairs[k], g)
      ensures pairs[k].value.value in Values(pairs, g) && pairs[k].value.value !in Values(front, g)
    {
      var v := pairs[k].value.value;
      Has(pairs, g, v);
      Has(front, g, v);
      assert pairs[k] == Pair(g, Some(v)) && pairs[k] in pairs;
      forall i | 0 <= i < m ensures front[i] != pairs[k] {}
    }
    if forall k | m <= k < |pairs| :: !Counts(pairs[k], g) {
      forall v ensures v in Values(front, g) <==> v in Values(pairs, g) {
        Has(pairs, g, v);
        Has(front, g, v);
        SameIn(pairs, m, Pair(g, Some(v)));
      }
    }
  }

  lemma {:induction false} SameIn(pairs: seq<Pair>, m: nat, p: Pair)
    requires m <= |pairs| && forall k | m <= k < |pairs| :: pairs[k] != p
    ensures p in pairs[..m] <==> p in pairs
  {
    if p in pairs {
      var k :| 0 <= k < |pairs| && pairs[k] == p;
      assert pairs[..m][k] == p;
    }
  }

  lemma {:induction false} OneRow(v: int)
    ensures Values(Rows([0], [Some(v)]), 0) == {v}
  {
    assert Rows([0], [Some(v)]) == [Pair(0, Some(v))];
  }

  lemma {:induction false} OneGroup(pairs: seq<Pair>)
    ensures Values(Moved(pairs, [0], [0]), 0) == Values(pairs, 0)
  {
    hide Values;
    hide Moved;
    var one: seq<nat> := [0];
    forall v ensures v in Values(Moved(pairs, one, one), 0) <==> v in Values(pairs, 0) {
      MovedValues(pairs, one, one, 0, v);
      assert one[0] == 0;
    }
  }

  lemma {:induction false} CountIs(pairs: seq<Pair>, counts: seq<nat>, g: nat)
    requires Right(pairs, counts) && g < |counts|
    ensures counts[g] == |Values(pairs, g)|
  {
  }

  method ConsumeOne(s: State, v: int)
    requires s.Valid() && |s.counts| == 1
    modifies s`pairs, s`counts
    ensures s.Valid() && |s.counts| == 1 && Values(s.pairs, 0) == old(Values(s.pairs, 0)) + {v}
  {
    hide Values;
    hide Right;
    hide IsIndex;
    hide Rows;
    ghost var before := s.pairs;
    var ok := s.Consume([Some(v)], [0]);
    ValuesOf(before, Rows([0], [Some(v)]), s.pairs, 0);
    OneRow(v);
  }

  method MergeOne(s: State, other: State)
    requires s.Valid() && other.Valid() && s != other && |s.counts| == 1 && |other.counts| == 1
    requires other.byGroup.Some? ==> other.indexedGroups == 1
    modifies s`pairs, s`counts, other`byGroup, other`indexed, other`indexedGroups
    ensures s.Valid() && other.Valid() && |s.counts| == 1 && other.Taken() == old(other.Taken())
    ensures other.byGroup.Some? && other.indexedGroups == 1
    ensures Values(s.pairs, 0) == old(Values(s.pairs, 0)) + old(Values(other.Taken(), 0))
  {
    hide Values;
    hide Right;
    hide IsIndex;
    hide Moved;
    ghost var before, taken := s.pairs, other.Taken();
    var r := s.MergeGroups(other, [0], [0]);
    OneGroup(taken);
    ValuesOf(before, Moved(taken, [0], [0]), s.pairs, 0);
  }

  /** A value consumed after the first merge is missed by the next. */
  method MissedMerge() returns (counted: nat, seen: nat)
    ensures counted == 1 && seen == 2
  {
    hide Values;
    hide Right;
    hide IsIndex;
    var a := new State();
    var b := new State();
    a.Resize(1);
    b.Resize(1);
    NoValues(0);
    ConsumeOne(b, 1);
    MergeOne(a, b);
    ConsumeOne(b, 2);
    MergeOne(a, b);
    CountIs(a.pairs, a.counts, 0);
    CountIs(b.pairs, b.counts, 0);
    assert Values(a.pairs, 0) == {1} && Values(b.pairs, 0) == {1, 2};
    counted, seen := a.counts[0], b.counts[0];
  }

  /** A group added after the first merge is accepted and is past the end of the index. */
  method MergedPastIndex() returns (r: Outcome)
    ensures r == PastIndex
  {
    hide Values;
    hide Right;
    hide IsIndex;
    hide Moved;
    var a := new State();
    var b := new State();
    a.Resize(1);
    b.Resize(1);
    MergeOne(a, b);
    PairsInGroups(b.pairs, b.counts);
    b.Resize(2);
    var added: seq<nat> := [1];
    assert added[0] == 1;
    r := a.MergeGroups(b, added, [0]);
  }

  /** A smaller number of groups leaves a pair without a count. */
  method ShrunkWrong() returns (s: State)
    ensures fresh(s) && !s.Valid()
  {
    hide Values;
    hide Right;
    hide IsIndex;
    s := new State();
    s.Resize(1);
    ConsumeOne(s, 1);
    Has(s.pairs, 0, 1);
    ghost var p := Pair(0, Some(1));
    s.Resize(0);
    assert p in s.pairs && !(p.group < 0);
  }

  lemma {:induction false} PairsInGroups(pairs: seq<Pair>, counts: seq<nat>)
    requires Right(pairs, counts)
    ensures forall p | p in pairs :: p.group < |counts|
  {
  }
}
