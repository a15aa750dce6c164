/**
 Gathering the first-seen keys of new groups out of a part's chunks, and merging states by group
 (src/exec/group_table.cc, AddPartGroups and the states' Consume and MergeGroups).
 */
module GroupStates {
  import opened Lists
  import opened Grouping
  import opened GroupKeys

  // ---- keys ----

  datatype Spot = Spot(chunk: nat, index: nat)

  function Taken<A>(s: seq<A>, rows: seq<nat>): (t: seq<A>)
    requires forall i | 0 <= i < |rows| :: rows[i] < |s|
    ensures |t| == |rows| && forall i | 0 <= i < |rows| :: t[i] == s[rows[i]]
  {
    seq(|rows|, i requires 0 <= i < |rows| => s[rows[i]])
  }

  /** `spot` finds `x` in the rows taken of the chunks. */
  ghost predicate Spotted<A>(chunks: seq<seq<A>>, rows: seq<seq<nat>>, spot: Spot, x: A) {
    && |rows| == |chunks| && spot.chunk < |chunks| && spot.index < |rows[spot.chunk]|
    && rows[spot.chunk][spot.index] < |chunks[spot.chunk]| && chunks[spot.chunk][rows[spot.chunk][spot.index]] == x
  }

  /** The elements `source` of the chunks, in that order: each chunk's taken together, then put back in order. */
  method GatherSlice<A>(chunks: seq<seq<A>>, starts: seq<nat>, source: seq<nat>) returns (out: seq<A>)
    requires Starts(starts, chunks) && forall i | 0 <= i < |source| :: source[i] < |Flat(chunks)|
    ensures out == Taken(Flat(chunks), source)
  {
    var rows, spots := SortByChunk(chunks, starts, source);
    var pieces: seq<seq<A>> := [];
    for c := 0 to |chunks|
      invariant |pieces| == c
      invariant forall d | 0 <= d < c :: pieces[d] == Taken(chunks[d], rows[d])
    {
      pieces := pieces + [Taken(chunks[c], rows[c])];
    }
    var offsets := ChunkStarts(pieces);
    var slice := Flat(pieces);
    out := [];
    for i := 0 to |source|
      invariant |out| == i && forall j | 0 <= j < i :: out[j] == Flat(chunks)[source[j]]
    {
      var spot := spots[i];
      assert Spotted(chunks, rows, spot, Flat(chunks)[source[i]]);
      FlatAt(pieces, spot.chunk, spot.index);
      out := out + [slice[offsets[spot.chunk] + spot.index]];
    }
  }

  method SortByChunk<A>(
      chunks: seq<seq<A>>, starts: seq<nat>, source: seq<nat>)
    returns (rows: seq<seq<nat>>, spots: seq<Spot>)
    requires Starts(starts, chunks) && forall i | 0 <= i < |source| :: source[i] < |Flat(chunks)|
    ensures |rows| == |chunks| && forall c, k | 0 <= c < |chunks| && 0 <= k < |rows[c]| :: rows[c][k] < |chunks[c]|
    ensures |spots| == |source|
    ensures forall i | 0 <= i < |source| :: Spotted(chunks, rows, spots[i], Flat(chunks)[source[i]])
  {
    rows, spots := seq(|chunks|, _ => []), [];
    for i := 0 to |source|
      invariant |rows| == |chunks| && forall c, k | 0 <= c < |chunks| && 0 <= k < |rows[c]| :: rows[c][k] < |chunks[c]|
      invariant |spots| == i && forall j | 0 <= j < i :: Spotted(chunks, rows, spots[j], Flat(chunks)[source[j]])
    {
      var c := ChunkOf(starts, chunks, source[i]);
      var before := rows;
      spots := spots + [Spot(c, |rows[c]|)];
      rows := rows[c := rows[c] + [source[i] - starts[c]]];
      forall j | 0 <= j < i + 1 ensures Spotted(chunks, rows, spots[j], Flat(chunks)[source[j]]) {
        if j < i { assert Spotted(chunks, before, spots[j], Flat(chunks)[source[j]]); }
      }
    }
  }

  lemma {:induction false} GatherStep<A>(
      mine: seq<A>, out: seq<seq<A>>, all: seq<A>, source: seq<nat>, begin: nat, end: nat, first: seq<A>)
    requires begin <= end <= |source| && forall i | 0 <= i < |source| :: source[i] < |all|
    requires Flat(out) == mine + Taken(all, source[..begin]) && first == Taken(all, source[begin..end])
    ensures Flat(out + [first]) == mine + Taken(all, source[..end])
  {
    FlatOne(out, first);
    assert source[..end] == source[..begin] + source[begin..end];
    assert Taken(all, source[..end]) == Taken(all, source[..begin]) + first;
    Regroup(mine, Taken(all, source[..begin]), first);
  }

  /** Adds the elements `source` of another table's chunks, in chunks of at most MAX_MERGE_CHUNK. */
  method AddGathered<A>(mine: seq<seq<A>>, chunks: seq<seq<A>>, source: seq<nat>) returns (out: seq<seq<A>>)
    requires forall i | 0 <= i < |source| :: source[i] < |Flat(chunks)|
    ensures mine <= out && Flat(out) == Flat(mine) + Taken(Flat(chunks), source)
    ensures forall c | |mine| <= c < |out| :: 0 < |out[c]| <= MAX_MERGE_CHUNK
  {
    hide Flat;
    var starts := ChunkStarts(chunks);
    assert Flat(mine) + Taken(Flat(chunks), source[..0]) == Flat(mine);
    out := mine;
    var begin := 0;
    while begin < |source|
      invariant begin <= |source| && mine <= out && Flat(out) == Flat(mine) + Taken(Flat(chunks), source[..begin])
      invariant forall c | |mine| <= c < |out| :: 0 < |out[c]| <= MAX_MERGE_CHUNK
    {
      var end := if begin + MAX_MERGE_CHUNK < |source| then begin + MAX_MERGE_CHUNK else |source|;
      var first := GatherSlice(chunks, starts, source[begin..end]);
      GatherStep(Flat(mine), out, Flat(chunks), source, begin, end, first);
      out := out + [first];
      begin := end;
    }
    assert source[..|source|] == source;
  }

  // ---- states ----

  /** The state of group `g` once the states `parts` are merged into groups `ids`, in order. */
  ghost function Merged<V, S>(agg: Agg<V, S>, s: S, parts: seq<S>, ids: seq<nat>, g: nat): S
    requires |parts| == |ids|
  {
    if parts == [] then s
    else
      var n := |parts| - 1;
      var before := Merged(agg, s, parts[..n], ids[..n], g);
      if ids[n] == g then agg.merge(before, parts[n]) else before
  }

  /** Merges each state into its group's. */
  method MergeStates<V, S>(agg: Agg<V, S>, states: seq<S>, parts: seq<S>, ids: seq<nat>) returns (out: seq<S>)
    requires |parts| == |ids| && forall i | 0 <= i < |ids| :: ids[i] < |states|
    ensures |out| == |states| && forall g: nat | g < |states| :: out[g] == Merged(agg, states[g], parts, ids, g)
  {
    out := states;
    for i := 0 to |parts|
      invariant |out| == |states|
      invariant forall g: nat | g < |states| :: out[g] == Merged(agg, states[g], parts[..i], ids[..i], g)
    {
      assert parts[..i + 1][..i] == parts[..i] && ids[..i + 1][..i] == ids[..i];
      out := out[ids[i] := agg.merge(out[ids[i]], parts[i])];
    }
    assert parts[..|parts|] == parts && ids[..|ids|] == ids;
  }

  /** A group none of the states goes to keeps its own. */
  lemma {:induction false} MergedNone<V, S>(agg: Agg<V, S>, s: S, parts: seq<S>, ids: seq<nat>, g: nat)
    requires |parts| == |ids| && g !in ids
    ensures Merged(agg, s, parts, ids, g) == s
  {
    if parts != [] {
      var n := |parts| - 1;
      assert ids[n] in ids;
      MergedNone(agg, s, parts[..n], ids[..n], g);
    }
  }

  /** A group one state goes to takes it in. */
  lemma {:induction false} MergedOnce<V, S>(agg: Agg<V, S>, s: S, parts: seq<S>, ids: seq<nat>, g: nat, i: nat)
    requires |parts| == |ids| && i < |ids| && ids[i] == g && forall j | 0 <= j < |ids| && j != i :: ids[j] != g
    ensures Merged(agg, s, parts, ids, g) == agg.merge(s, parts[i])
  {
    var n := |parts| - 1;
    if i == n {
      MergedNone(agg, s, parts[..n], ids[..n], g);
    } else {
      MergedOnce(agg, s, parts[..n], ids[..n], g, i);
    }
  }

  function Ones<K, V, S>(agg: Agg<V, S>, rows: seq<Row<K, V>>): (s: seq<S>)
    ensures |s| == |rows| && forall i | 0 <= i < |rows| :: s[i] == agg.one(rows[i].value)
  {
    seq(|rows|, i requires 0 <= i < |rows| => agg.one(rows[i].value))
  }

  lemma {:induction false} OfLast<K, V>(rows: seq<Row<K, V>>, norm: K -> K, n: K)
    requires rows != []
    ensures Of(rows, norm, n) == Of(rows[..|rows| - 1], norm, n) + if norm(rows[|rows| - 1].key) == n
      then [rows[|rows| - 1]] else []
  {
    var front, last := rows[..|rows| - 1], rows[|rows| - 1];
    assert rows == front + [last] && [last][1..] == [];
    OfConcat(front, [last], norm, n);
  }

  /** A state followed by some rows and one more. */
  lemma {:induction false} FoldLast<K, V, S(!new)>(agg: Agg<V, S>, s: S, rows: seq<Row<K, V>>, last: Row<K, V>)
    requires Merges(agg)
    ensures agg.merge(s, Fold(agg, rows + [last])) == agg.merge(agg.merge(s, Fold(agg, rows)), agg.one(last.value))
  {
    FoldConcat(agg, rows, [last]);
    FoldOne(agg, last);
  }

  lemma {:induction false} FoldNone<K, V, S(!new)>(agg: Agg<V, S>, s: S)
    requires Merges(agg)
    ensures agg.merge(s, Fold<K, V, S>(agg, [])) == s
  {
  }

  /** Merging each row's state into its group's aggregates the group's rows. */
  lemma {:induction false} MergedRows<K, V, S(!new)>(
      agg: Agg<V, S>, s: S, rows: seq<Row<K, V>>, ids: seq<nat>, uniques: seq<K>, norm: K -> K, g: nat)
    requires Merges(agg) && |ids| == |rows| && g < |uniques| && Distinct(uniques)
    requires forall i | 0 <= i < |rows| :: ids[i] < |uniques| && uniques[ids[i]] == norm(rows[i].key)
    ensures Merged(agg, s, Ones(agg, rows), ids, g) == agg.merge(s, Fold(agg, Of(rows, norm, uniques[g])))
  {
    hide Fold;
    hide Merges;
    FoldNone<K, V, S>(agg, s);
    if rows != [] {
      var n := |rows| - 1;
      MergedRows(agg, s, rows[..n], ids[..n], uniques, norm, g);
      assert Ones(agg, rows)[..n] == Ones(agg, rows[..n]);
      OfLast(rows, norm, uniques[g]);
      var before := Of(rows[..n], norm, uniques[g]);
      FoldLast(agg, s, before, rows[n]);
      assert before + [] == before;
      assert ids[n] == g <==> norm(rows[n].key) == uniques[g];
    }
  }
}
