/**
 Numbering keys and gathering the keys of new groups (src/exec/group_table.cc, FirstPositions and
 AddPartGroups; the key table's contract, src/exec/key_table.h).
 */
module GroupKeys {
  import opened Lists
  import opened Grouping

  const MAX_MERGE_CHUNK: nat := 65536

  /** A key table's answer: dense ids that never change, and the new keys in an order of its own. */
  ghost predicate Numbered<K>(known: seq<K>, keys: seq<K>, ids: seq<nat>, uniques: seq<K>) {
    && known <= uniques && Distinct(uniques) && |ids| == |keys|
    && (forall i | 0 <= i < |keys| :: ids[i] < |uniques| && uniques[ids[i]] == keys[i])
    && (forall g | |known| <= g < |uniques| :: uniques[g] in keys)
  }

  /** The group of each key, adding the groups that are new (KeyTable::Consume). */
  method Number<K(==)>(known: seq<K>, keys: seq<K>) returns (ids: seq<nat>, uniques: seq<K>)
    requires Distinct(known)
    ensures Numbered(known, keys, ids, uniques)
  {
    ids, uniques := [], known;
    for i := 0 to |keys|
      invariant known <= uniques && Distinct(uniques) && |ids| == i
      invariant forall j | 0 <= j < i :: ids[j] < |uniques| && uniques[ids[j]] == keys[j]
      invariant forall g | |known| <= g < |uniques| :: uniques[g] in keys
    {
      var g := Place(uniques, keys[i]);
      if g == |uniques| {
        uniques := uniques + [keys[i]];
      }
      ids := ids + [g];
    }
  }

  method Place<K(==)>(uniques: seq<K>, key: K) returns (g: nat)
    ensures g <= |uniques| && (g < |uniques| ==> uniques[g] == key) && (g == |uniques| ==> key !in uniques)
  {
    g := 0;
    while g < |uniques| && uniques[g] != key
      invariant g <= |uniques| && key !in uniques[..g]
    {
      g := g + 1;
    }
  }

  // ---- the first row of each new group ----

  ghost predicate FirstAt(ids: seq<nat>, g: nat, p: int) {
    0 <= p < |ids| && ids[p] == g && forall j | 0 <= j < p :: ids[j] != g
  }

  /** How many entries are found. */
  function Found(first: seq<int>): nat {
    if first == [] then 0 else Found(first[..|first| - 1]) + if first[|first| - 1] >= 0 then 1 else 0
  }

  lemma {:induction false} FoundSet(first: seq<int>, k: nat, p: int)
    requires k < |first| && first[k] < 0 <= p
    ensures Found(first[k := p]) == Found(first) + 1
  {
    var next := first[k := p];
    if k == |first| - 1 {
      assert next[..k] == first[..k];
    } else {
      assert next[..|first| - 1] == first[..|first| - 1][k := p];
      FoundSet(first[..|first| - 1], k, p);
    }
  }

  lemma {:induction false} FoundAll(first: seq<int>)
    ensures Found(first) <= |first|
    ensures Found(first) == |first| ==> forall k | 0 <= k < |first| :: first[k] >= 0
  {
    if first != [] { FoundAll(first[..|first| - 1]); }
  }

  lemma {:induction false} FoundNone(first: seq<int>)
    requires forall k | 0 <= k < |first| :: first[k] < 0
    ensures Found(first) == 0
  {
    if first != [] { FoundNone(first[..|first| - 1]); }
  }

  /** Entry `k` holds the first position of group `before + k` among the first `i`, or is not found. */
  ghost predicate SoFar(ids: seq<nat>, i: nat, g: nat, p: int)
    requires i <= |ids|
  {
    if p >= 0 then p < i && FirstAt(ids, g, p) else forall j | 0 <= j < i :: ids[j] != g
  }

  lemma {:induction false} SoFarStep(ids: seq<nat>, i: nat, g: nat, p: int)
    requires i < |ids| && SoFar(ids, i, g, p)
    ensures SoFar(ids, i + 1, g, if ids[i] == g && p < 0 then i else p)
  {
  }

  /** For each new group, the first position that maps to it; the walk stops once every one is found. */
  method FirstPositions(ids: seq<nat>, before: nat, after: nat) returns (first: seq<int>)
    requires before <= after && (forall i | 0 <= i < |ids| :: ids[i] < after)
    requires forall g | before <= g < after :: g in ids
    ensures |first| == after - before && forall k: nat | k < |first| :: FirstAt(ids, before + k, first[k])
  {
    hide FirstAt;
    hide Found;
    first := seq(after - before, _ => -1);
    FoundNone(first);
    var found, i := 0, 0;
    while i < |ids| && found < after - before
      invariant i <= |ids| && |first| == after - before && found == Found(first)
      invariant forall k: nat | k < |first| :: SoFar(ids, i, before + k, first[k])
    {
      var id := ids[i];
      forall k: nat | k < |first|
        ensures SoFar(ids, i + 1, before + k, if ids[i] == before + k && first[k] < 0 then i else first[k])
      {
        SoFarStep(ids, i, before + k, first[k]);
      }
      if id >= before && first[id - before] < 0 {
        FoundSet(first, id - before, i);
        first := first[id - before := i];
        found := found + 1;
      }
      i := i + 1;
    }
    FoundAll(first);
    forall k: nat | k < |first| ensures FirstAt(ids, before + k, first[k]) {
      assert (before + k) in ids && SoFar(ids, i, before + k, first[k]);
    }
  }

  // ---- keys in chunks ----

  /** Where each chunk starts. */
  ghost predicate Starts<A>(starts: seq<nat>, chunks: seq<seq<A>>) {
    |starts| == |chunks| && forall c | 0 <= c < |chunks| :: starts[c] == |Flat(chunks[..c])|
  }

  method ChunkStarts<A>(chunks: seq<seq<A>>) returns (starts: seq<nat>)
    ensures Starts(starts, chunks)
  {
    starts := [];
    var start := 0;
    for c := 0 to |chunks|
      invariant |starts| == c && start == |Flat(chunks[..c])|
      invariant forall d | 0 <= d < c :: starts[d] == |Flat(chunks[..d])|
    {
      starts := starts + [start];
      assert chunks[..c + 1] == chunks[..c] + [chunks[c]];
      FlatOne(chunks[..c], chunks[c]);
      start := start + |chunks[c]|;
    }
  }

  lemma {:induction false} StartsGrow<A>(starts: seq<nat>, chunks: seq<seq<A>>, c: nat, d: nat)
    requires Starts(starts, chunks) && c <= d < |chunks|
    ensures starts[c] <= starts[d] && (c < d ==> starts[c] + |chunks[c]| <= starts[d])
  {
    if c < d {
      StartsGrow(starts, chunks, c, d - 1);
      assert chunks[..d] == chunks[..d - 1] + [chunks[d - 1]];
      FlatOne(chunks[..d - 1], chunks[d - 1]);
    }
  }

  /** The chunk of an element: the last that starts at or before it (an upper bound less one). */
  method ChunkOf<A>(starts: seq<nat>, chunks: seq<seq<A>>, at: nat) returns (c: nat)
    requires Starts(starts, chunks) && at < |Flat(chunks)|
    ensures c < |chunks| && starts[c] <= at < starts[c] + |chunks[c]|
    ensures Flat(chunks)[at] == chunks[c][at - starts[c]]
  {
    var lo, hi := 0, |chunks|;
    FlatEnd(starts, chunks);
    while lo < hi
      invariant 0 <= lo <= hi <= |chunks|
      invariant forall d | 0 <= d < lo :: starts[d] <= at
      invariant forall d | hi <= d < |chunks| :: starts[d] > at
    {
      var mid := (lo + hi) / 2;
      if starts[mid] <= at {
        forall d | 0 <= d <= mid ensures starts[d] <= at { StartsGrow(starts, chunks, d, mid); }
        lo := mid + 1;
      } else {
        forall d | mid <= d < |chunks| ensures starts[d] > at { StartsGrow(starts, chunks, mid, d); }
        hi := mid;
      }
    }
    c := lo - 1;
    if lo < |chunks| {
      assert starts[lo] > at;
      NextStart(starts, chunks, c);
    }
    FlatAt(chunks, c, at - starts[c]);
  }

  lemma {:induction false} NextStart<A>(starts: seq<nat>, chunks: seq<seq<A>>, c: nat)
    requires Starts(starts, chunks) && c + 1 < |chunks|
    ensures starts[c + 1] == starts[c] + |chunks[c]|
  {
    assert chunks[..c + 1] == chunks[..c] + [chunks[c]];
    FlatOne(chunks[..c], chunks[c]);
  }

  lemma {:induction false} FlatEnd<A>(starts: seq<nat>, chunks: seq<seq<A>>)
    requires Starts(starts, chunks)
    ensures chunks != [] ==> starts[0] == 0 && |Flat(chunks)| == starts[|chunks| - 1] + |chunks[|chunks| - 1]|
    ensures chunks == [] ==> Flat(chunks) == []
  {
    if chunks != [] { assert chunks[..0] == []; }
  }
}
