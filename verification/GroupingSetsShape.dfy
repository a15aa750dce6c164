/**
 The shape of a GROUPING SETS evaluation (src/exec/grouping_sets_shape.cc, PlanGroupingSets): the
 distinct sets, which of them consume the input (the roots), and for every other set the root whose
 groups it is merged from and the root's columns it keeps.
 */
module GroupingSetsShape {
  /** A set of keys, ascending. */
  type KeySet = seq<nat>

  datatype Shape = Shape(sets: seq<KeySet>, entries: seq<nat>, sources: seq<nat>, columns: seq<seq<nat>>,
      lastEntries: seq<nat>)

  ghost predicate Ascends(set_: KeySet) {
    forall i, j | 0 <= i < j < |set_| :: set_[i] < set_[j]
  }

  ghost predicate Subset(inner: KeySet, outer: KeySet) {
    forall x | x in inner :: x in outer
  }

  ghost predicate AllDiffer<A>(s: seq<A>) {
    forall i, j | 0 <= i < j < |s| :: s[i] != s[j]
  }

  /** Whether ascending `inner` is a subset of ascending `outer`: one pass over both (std::includes). */
  method Contains(outer: KeySet, inner: KeySet) returns (yes: bool)
    requires Ascends(outer) && Ascends(inner)
    ensures yes <==> Subset(inner, outer)
  {
    var i, j := 0, 0;
    while i < |inner|
      invariant 0 <= i <= |inner| && 0 <= j <= |outer|
      invariant forall k | 0 <= k < i :: inner[k] in outer
      invariant forall k, m | 0 <= k < j && i <= m < |inner| :: outer[k] < inner[m]
      decreases |inner| - i, |outer| - j
    {
      if j == |outer| || inner[i] < outer[j] {
        assert inner[i] in inner;
        assert inner[i] !in outer by { forall k | 0 <= k < |outer|
            ensures outer[k] != inner[i] { if k >= j { assert outer[j] <= outer[k]; } } }
        return false;
      }
      if outer[j] == inner[i] {
        i := i + 1;
      }
      j := j + 1;
    }
    yes := true;
  }

  method IndexOf<A(==)>(s: seq<A>, x: A) returns (i: nat)
    ensures i <= |s| && (i < |s| ==> s[i] == x) && (i == |s| ==> x !in s)
  {
    i := 0;
    while i < |s| && s[i] != x
      invariant i <= |s| && x !in s[..i]
    {
      i := i + 1;
    }
  }

  /** Numbers given in first-seen order: before one is used, all smaller ones are. */
  ghost predicate FirstSeenOrder(entries: seq<nat>) {
    forall e, s: nat | 0 <= e < |entries| && s < entries[e] :: s in entries[..e]
  }

  /** The distinct sets in first-seen order, and each entry's. */
  method Distinct(sets: seq<KeySet>) returns (distinct: seq<KeySet>, entries: seq<nat>)
    ensures AllDiffer(distinct) && |entries| == |sets|
    ensures forall e | 0 <= e < |sets| :: entries[e] < |distinct| && distinct[entries[e]] == sets[e]
    ensures forall s | 0 <= s < |distinct| :: distinct[s] in sets
    ensures FirstSeenOrder(entries)
  {
    distinct, entries := [], [];
    for e := 0 to |sets|
      invariant AllDiffer(distinct) && |entries| == e
      invariant forall d | 0 <= d < e :: entries[d] < |distinct| && distinct[entries[d]] == sets[d]
      invariant forall s | 0 <= s < |distinct| :: distinct[s] in sets
      invariant forall s: nat | s < |distinct| :: s in entries
      invariant FirstSeenOrder(entries)
    {
      var seen := IndexOf(distinct, sets[e]);
      OneMoreEntry(entries, seen);
      entries := entries + [seen];
      if seen == |distinct| {
        distinct := distinct + [sets[e]];
      }
    }
  }

  lemma {:induction false} OneMoreEntry(entries: seq<nat>, seen: nat)
    requires FirstSeenOrder(entries) && forall s: nat | s < seen :: s in entries
    ensures FirstSeenOrder(entries + [seen])
  {
    var more := entries + [seen];
    forall e, s: nat | 0 <= e < |more| && s < more[e] ensures s in more[..e] {
      assert more[..e] == entries[..e];
      if e == |entries| { assert entries[..e] == entries; }
    }
  }

  // ---- roots ----

  /** `t` is a larger set around `s`. */
  ghost predicate Around(sets: seq<KeySet>, s: nat, t: nat)
    requires s < |sets|
  {
    t < |sets| && |sets[t]| > |sets[s]| && Subset(sets[s], sets[t])
  }

  ghost predicate IsRoot(sets: seq<KeySet>, exact: bool, s: nat)
    requires s < |sets|
  {
    exact ==> !exists t: nat :: Around(sets, s, t)
  }

  method FindRoots(sets: seq<KeySet>, exact: bool) returns (roots: seq<bool>)
    requires forall s | 0 <= s < |sets| :: Ascends(sets[s])
    ensures |roots| == |sets| && forall s: nat | s < |sets| :: roots[s] == IsRoot(sets, exact, s)
  {
    roots := [];
    for s := 0 to |sets|
      invariant |roots| == s && forall r: nat | r < s :: roots[r] == IsRoot(sets, exact, r)
    {
      var root := true;
      if exact {
        for t := 0 to |sets|
          invariant root <==> forall u: nat | u < t :: !Around(sets, s, u)
        {
          var inside := Contains(sets[t], sets[s]);
          assert Around(sets, s, t) <==> |sets[t]| > |sets[s]| && inside;
          root := root && !(|sets[t]| > |sets[s]| && inside);
        }
      }
      roots := roots + [root];
    }
  }

  function Largest(sets: seq<KeySet>): (n: nat)
    ensures forall s | 0 <= s < |sets| :: |sets[s]| <= n
  {
    if sets == [] then 0
    else
      var n := Largest(sets[1..]);
      assert forall s | 0 < s < |sets| :: sets[s] == sets[1..][s - 1];
      if |sets[0]| > n then |sets[0]| else n
  }

  /** Every set lies in a root: going to ever larger sets ends at one. */
  lemma {:induction false} RootAround(sets: seq<KeySet>, exact: bool, s: nat) returns (r: nat)
    requires s < |sets|
    ensures r < |sets| && IsRoot(sets, exact, r) && Subset(sets[s], sets[r])
    decreases Largest(sets) - |sets[s]|
  {
    if IsRoot(sets, exact, s) {
      r := s;
    } else {
      var t: nat :| Around(sets, s, t);
      r := RootAround(sets, exact, t);
      forall x | x in sets[s] ensures x in sets[r] { assert x in sets[t]; }
    }
  }

  // ---- sources and columns ----

  /** `columns` project the keys of `outer` onto `inner`. */
  ghost predicate Projects(outer: KeySet, columns: seq<nat>, inner: KeySet) {
    |columns| == |inner| && forall i | 0 <= i < |inner| :: columns[i] < |outer| && outer[columns[i]] == inner[i]
  }

  /** `r` is a root around `s`, and no smaller root is. */
  ghost predicate IsSource(sets: seq<KeySet>, exact: bool, s: nat, r: nat)
    requires s < |sets|
  {
    && r < |sets| && IsRoot(sets, exact, r) && Subset(sets[s], sets[r])
    && (IsRoot(sets, exact, s) ==> r == s)
    && (!IsRoot(sets, exact, s) ==>
        forall t: nat | t < |sets| && IsRoot(sets, exact, t) && Subset(sets[s], sets[t]) :: |sets[r]| <= |sets[t]|)
  }

  /** The smallest root around a set; there always is one. */
  method FindSource(sets: seq<KeySet>, exact: bool, roots: seq<bool>, s: nat) returns (source: nat)
    requires s < |sets| && (forall t | 0 <= t < |sets| :: Ascends(sets[t])) && !IsRoot(sets, exact, s)
    requires |roots| == |sets| && forall t: nat | t < |sets| :: roots[t] == IsRoot(sets, exact, t)
    ensures IsSource(sets, exact, s, source)
  {
    hide IsRoot;
    var found := false;
    source := 0;
    for r := 0 to |sets|
      invariant found ==> source < r && IsRoot(sets, exact, source) && Subset(sets[s], sets[source])
      invariant forall t: nat | t < r && IsRoot(sets, exact, t) && Subset(sets[s], sets[t]) ::
        found && |sets[source]| <= |sets[t]|
    {
      var inside := Contains(sets[r], sets[s]);
      if roots[r] && inside && (!found || |sets[r]| < |sets[source]|) {
        found, source := true, r;
      }
    }
    ghost var some := RootAround(sets, exact, s);
    assert found;
  }

  /** Where each key of `inner` is in `outer`. */
  method FindColumns(outer: KeySet, inner: KeySet) returns (columns: seq<nat>)
    requires Subset(inner, outer)
    ensures Projects(outer, columns, inner)
  {
    columns := [];
    for i := 0 to |inner|
      invariant |columns| == i && forall j | 0 <= j < i :: columns[j] < |outer| && outer[columns[j]] == inner[j]
    {
      var at := IndexOf(outer, inner[i]);
      assert inner[i] in outer;
      columns := columns + [at];
    }
  }

  /** What a plan promises of the grouping sets. */
  ghost predicate IsPlan(shape: Shape, given: seq<KeySet>, exact: bool) {
    && AllDiffer(shape.sets) && |shape.entries| == |given|
    && (forall e | 0 <= e < |given| :: shape.entries[e] < |shape.sets| && shape.sets[shape.entries[e]] == given[e])
    && (forall s | 0 <= s < |shape.sets| :: shape.sets[s] in given) && FirstSeenOrder(shape.entries)
    && |shape.sources| == |shape.columns| == |shape.lastEntries| == |shape.sets|
    && (forall s: nat | s < |shape.sets| ::
        IsSource(shape.sets, exact, s, shape.sources[s])
        && Projects(shape.sets[shape.sources[s]], shape.columns[s], shape.sets[s]))
    && (forall s: nat | s < |shape.sets| :: IsLast(shape, s, shape.lastEntries[s]))
  }

  ghost predicate IsLast(shape: Shape, s: nat, e: nat) {
    e < |shape.entries| && shape.entries[e] == s && forall d | e < d < |shape.entries| :: shape.entries[d] != s
  }

  /** The plan of grouping sets, each ascending. */
  method PlanGroupingSets(given: seq<KeySet>, exact: bool) returns (shape: Shape)
    requires forall e | 0 <= e < |given| :: Ascends(given[e])
    ensures IsPlan(shape, given, exact)
  {
    hide IsRoot;
    hide IsSource;
    hide Projects;
    var sets, entries := Distinct(given);
    forall s | 0 <= s < |sets| ensures Ascends(sets[s]) { assert sets[s] in given; }
    var roots := FindRoots(sets, exact);
    var sources: seq<nat>, columns: seq<seq<nat>> := [], [];
    for s := 0 to |sets|
      invariant |sources| == |columns| == s
      invariant forall t: nat | t < s ::
        IsSource(sets, exact, t, sources[t]) && sources[t] < |sets| && Projects(sets[sources[t]], columns[t], sets[t])
    {
      var source := s;
      if !roots[s] {
        source := FindSource(sets, exact, roots, s);
      }
      SourceHolds(sets, exact, s, source);
      var map_ := FindColumns(sets[source], sets[s]);
      sources, columns := sources + [source], columns + [map_];
    }
    var last := LastEntries(given, sets, entries);
    shape := Shape(sets, entries, sources, columns, last);
    forall s: nat | s < |sets| ensures IsLast(shape, s, shape.lastEntries[s]) { }
  }

  lemma {:induction false} SourceHolds(sets: seq<KeySet>, exact: bool, s: nat, r: nat)
    requires s < |sets| && (IsSource(sets, exact, s, r) || (IsRoot(sets, exact, s) && r == s))
    ensures r < |sets| && IsSource(sets, exact, s, r) && Subset(sets[s], sets[r])
  {
  }

  /** The last entry of each set. */
  method LastEntries(given: seq<KeySet>, sets: seq<KeySet>, entries: seq<nat>) returns (last: seq<nat>)
    requires |entries| == |given| && AllDiffer(sets)
    requires forall e | 0 <= e < |given| :: entries[e] < |sets| && sets[entries[e]] == given[e]
    requires forall s | 0 <= s < |sets| :: sets[s] in given
    ensures |last| == |sets|
    ensures forall s: nat | s < |sets| ::
      last[s] < |entries| && entries[last[s]] == s && forall d | last[s] < d < |entries| :: entries[d] != s
  {
    last := seq(|sets|, _ => 0);
    for e := 0 to |entries|
      invariant |last| == |sets| && forall s: nat | s < |sets| :: LastIn(entries, e, s, last[s])
    {
      last := last[entries[e] := e];
    }
    forall s: nat | s < |sets| ensures s in entries {
      assert sets[s] in given;
      var d :| 0 <= d < |given| && given[d] == sets[s];
      assert entries[d] == s;
    }
    forall s: nat | s < |sets|
      ensures last[s] < |entries| && entries[last[s]] == s && forall d | last[s] < d < |entries| :: entries[d] != s
    {
      assert LastIn(entries, |entries|, s, last[s]) && s in entries;
    }
  }

  /** `at` is the last of the first `n` entries that is `s`, if one is. */
  ghost predicate LastIn(entries: seq<nat>, n: nat, s: nat, at: nat)
    requires n <= |entries|
  {
    || (at < n && entries[at] == s && forall d | at < d < n :: entries[d] != s)
    || (forall d | 0 <= d < n :: entries[d] != s)
  }
}
