/**
 Stable counting sorts, as the join and grouping code writes them: count, prefix sum, place in input
 order. `key` gives an item's bucket, below `n`.
 */
module CountingSort {
  import opened Lists

  /** The items of bucket `b`, in order. */
  function Select<T>(items: seq<T>, key: T -> int, b: int): seq<T> {
    if items == [] then []
    else
      var last := items[|items| - 1];
      Select(items[..|items| - 1], key, b) + if key(last) == b then [last] else []
  }

  /** Which are those whose key is `b`. */
  lemma {:induction false} SelectPicks<T>(items: seq<T>, key: T -> int, b: int) returns (at: seq<nat>)
    ensures Picks(items, (x: T) => key(x) == b, Select(items, key, b), at)
  {
    at := [];
    if items != [] {
      var front := items[..|items| - 1];
      at := SelectPicks(front, key, b);
      at := PicksLast(items, (x: T) => key(x) == b, Select(front, key, b), at);
    }
  }

  /** The number of items of buckets below `b`. */
  function Less<T>(items: seq<T>, key: T -> int, b: int): nat {
    if items == [] then 0
    else Less(items[..|items| - 1], key, b) + if key(items[|items| - 1]) < b then 1 else 0
  }

  /** Where the sort puts item `j`: after the lower buckets and its own bucket's earlier items. */
  function Rank<T>(items: seq<T>, key: T -> int, j: nat): nat
    requires j < |items|
  {
    Less(items, key, key(items[j])) + |Select(items[..j], key, key(items[j]))|
  }

  ghost predicate InBuckets<T>(items: seq<T>, key: T -> int, n: nat) {
    forall i | 0 <= i < |items| :: 0 <= key(items[i]) < n
  }

  /** The range of `out` that is bucket `b`'s holds the bucket. */
  ghost predicate Bucket<T>(out: seq<T>, items: seq<T>, key: T -> int, b: nat) {
    && Less(items, key, b) <= Less(items, key, b + 1) <= |out|
    && out[Less(items, key, b)..Less(items, key, b + 1)] == Select(items, key, b)
  }

  /** `out` holds bucket after bucket, each bucket's items in their order in `items`. */
  ghost predicate Sorts<T>(out: seq<T>, items: seq<T>, key: T -> int, n: nat) {
    |out| == |items| && forall b: nat | b < n :: Bucket(out, items, key, b)
  }

  lemma {:induction false} LessStep<T>(items: seq<T>, key: T -> int, b: int)
    ensures Less(items, key, b + 1) == Less(items, key, b) + |Select(items, key, b)|
  {
    if items != [] { LessStep(items[..|items| - 1], key, b); }
  }

  lemma {:induction false} LessBounds<T>(items: seq<T>, key: T -> int, n: nat)
    requires InBuckets(items, key, n)
    ensures Less(items, key, 0) == 0 && Less(items, key, n) == |items|
  {
    if items != [] {
      var front := items[..|items| - 1];
      assert InBuckets(front, key, n) by {
        forall i | 0 <= i < |front| ensures 0 <= key(front[i]) < n { assert front[i] == items[i]; }
      }
      LessBounds(front, key, n);
      assert 0 <= key(items[|items| - 1]) < n;
    }
  }

  lemma {:induction false} LessMonotone<T>(items: seq<T>, key: T -> int, a: int, b: int)
    requires a <= b
    ensures Less(items, key, a) <= Less(items, key, b) <= |items|
  {
    if items != [] { LessMonotone(items[..|items| - 1], key, a, b); }
  }

  lemma {:induction false} SelectConcat<T>(a: seq<T>, b: seq<T>, key: T -> int, k: int)
    ensures Select(a + b, key, k) == Select(a, key, k) + Select(b, key, k)
  {
    if b == [] {
      assert a + b == a;
    } else {
      var front, last := b[..|b| - 1], b[|b| - 1];
      SelectConcat(a, front, key, k);
      assert (a + b)[..|a + b| - 1] == a + front && (a + b)[|a + b| - 1] == last;
    }
  }

  lemma {:induction false} SelectPrefix<T>(items: seq<T>, key: T -> int, j: nat, b: int)
    requires j < |items|
    ensures |Select(items[..j], key, b)| + (if key(items[j]) == b then 1 else 0) <= |Select(items, key, b)|
    ensures Select(items[..j + 1], key, b) == Select(items[..j], key, b) + if key(items[j]) == b then [items[j]] else []
  {
    assert items[..j + 1][..j] == items[..j];
    assert items == items[..j + 1] + items[j + 1..];
    SelectConcat(items[..j + 1], items[j + 1..], key, b);
  }

  /** A rank lies in its bucket's range. */
  lemma {:induction false} RankInBucket<T>(items: seq<T>, key: T -> int, j: nat)
    requires j < |items|
    ensures Less(items, key, key(items[j])) <= Rank(items, key, j) < Less(items, key, key(items[j]) + 1) <= |items|
  {
    SelectPrefix(items, key, j, key(items[j]));
    LessStep(items, key, key(items[j]));
    LessMonotone(items, key, key(items[j]) + 1, key(items[j]) + 1);
  }

  lemma {:induction false} RanksDiffer<T>(items: seq<T>, key: T -> int, i: nat, j: nat)
    requires i < j < |items|
    ensures Rank(items, key, i) != Rank(items, key, j)
  {
    var a, b := key(items[i]), key(items[j]);
    RankInBucket(items, key, i);
    RankInBucket(items, key, j);
    if a < b {
      LessMonotone(items, key, a + 1, b);
    } else if b < a {
      LessMonotone(items, key, b + 1, a);
    } else {
      assert items[..j][..i] == items[..i] && items[..j][i] == items[i];
      SelectPrefix(items[..j], key, i, a);
    }
  }

  /** Every item of a bucket is the one whose rank is its place in the bucket. */
  lemma {:induction false} SelectAt<T>(items: seq<T>, key: T -> int, b: int, p: nat) returns (j: nat)
    requires p < |Select(items, key, b)|
    ensures j < |items| && key(items[j]) == b && items[j] == Select(items, key, b)[p]
    ensures |Select(items[..j], key, b)| == p
  {
    var front, last := items[..|items| - 1], items[|items| - 1];
    if p < |Select(front, key, b)| {
      j := SelectAt(front, key, b, p);
      assert front[..j] == items[..j];
    } else {
      j := |items| - 1;
    }
  }

  /** Items placed at their ranks are sorted. */
  lemma {:induction false} RanksSort<T>(out: seq<T>, items: seq<T>, key: T -> int, n: nat)
    requires AtRanks(out, items, key, |items|)
    ensures Sorts(out, items, key, n)
  {
    forall b: nat | b < n ensures Bucket(out, items, key, b) {
      LessStep(items, key, b);
      LessMonotone(items, key, b + 1, b + 1);
      forall p | 0 <= p < |Select(items, key, b)|
        ensures out[Less(items, key, b) + p] == Select(items, key, b)[p]
      {
        var j := SelectAt(items, key, b, p);
        assert Rank(items, key, j) == Less(items, key, b) + p;
      }
    }
  }

  // ---- prefix sums ----

  function Sum(s: seq<nat>): nat {
    if s == [] then 0 else Sum(s[..|s| - 1]) + s[|s| - 1]
  }

  /** Replaces every entry by the sum up to it. */
  method PartialSum(a: array<nat>)
    modifies a
    ensures forall i | 0 <= i < a.Length :: a[i] == Sum(old(a[..])[..i + 1])
  {
    ghost var was := a[..];
    var sum := 0;
    for i := 0 to a.Length
      invariant sum == Sum(was[..i])
      invariant forall j | 0 <= j < i :: a[j] == Sum(was[..j + 1])
      invariant forall j | i <= j < a.Length :: a[j] == was[j]
    {
      assert was[..i + 1][..i] == was[..i];
      sum := sum + a[i];
      a[i] := sum;
    }
  }

  // ---- counts ----

  /** The counts of the first `i` items, `shift` entries up. */
  ghost predicate Counted<T>(count: seq<nat>, items: seq<T>, key: T -> int, n: nat, shift: nat) {
    && |count| == n + shift
    && (forall j | 0 <= j < shift :: count[j] == 0)
    && forall b: nat | b < n :: count[b + shift] == |Select(items, key, b)|
  }

  lemma {:induction false} CountsSum<T>(count: seq<nat>, items: seq<T>, key: T -> int, n: nat, shift: nat, b: nat)
    requires Counted(count, items, key, n, shift) && InBuckets(items, key, n) && b <= n
    ensures Sum(count[..b + shift]) == Less(items, key, b)
  {
    LessBounds(items, key, n);
    if b == 0 {
      ZeroSum(count[..shift]);
    } else {
      CountsSum(count, items, key, n, shift, b - 1);
      assert count[..b + shift][..b - 1 + shift] == count[..b - 1 + shift];
      LessStep(items, key, b - 1);
    }
  }

  lemma {:induction false} ZeroSum(s: seq<nat>)
    requires forall j | 0 <= j < |s| :: s[j] == 0
    ensures Sum(s) == 0
  {
    if s != [] { ZeroSum(s[..|s| - 1]); }
  }

  method Count<T>(items: seq<T>, key: T -> int, n: nat, shift: nat) returns (count: array<nat>)
    requires InBuckets(items, key, n)
    ensures fresh(count) && Counted(count[..], items, key, n, shift)
  {
    count := new nat[n + shift](_ => 0);
    for i := 0 to |items|
      invariant Counted(count[..], items[..i], key, n, shift)
    {
      assert items[..i + 1][..i] == items[..i];
      var b := key(items[i]);
      count[b + shift] := count[b + shift] + 1;
    }
    assert items[..|items|] == items;
  }

  /** The cursor of every bucket after `i` items. */
  ghost predicate Cursors<T>(next: seq<nat>, items: seq<T>, key: T -> int, n: nat, shift: nat, i: nat)
    requires i <= |items|
  {
    && |next| >= n + shift
    && forall b: nat | b < n :: next[b + shift] == Less(items, key, b) + |Select(items[..i], key, b)|
  }

  lemma {:induction false} CursorStep<T>(next: seq<nat>, items: seq<T>, key: T -> int, n: nat, shift: nat, i: nat)
    requires i < |items| && 0 <= key(items[i]) < n && Cursors(next, items, key, n, shift, i)
    ensures next[key(items[i]) + shift] == Rank(items, key, i) < |items|
    ensures Cursors(next[key(items[i]) + shift := Rank(items, key, i) + 1], items, key, n, shift, i + 1)
  {
    RankInBucket(items, key, i);
    forall b: nat | b < n
      ensures Select(items[..i + 1], key, b) == Select(items[..i], key, b) + if key(items[i]) == b then [items[i]]
        else []
    {
      SelectPrefix(items, key, i, b);
    }
  }

  /** The first `i` items are at their ranks. */
  ghost predicate AtRanks<T>(out: seq<T>, items: seq<T>, key: T -> int, i: nat)
    requires i <= |items|
  {
    |out| == |items| && forall j: nat | j < i :: Rank(items, key, j) < |out| && out[Rank(items, key, j)] == items[j]
  }

  lemma {:induction false} RankStep<T>(out: seq<T>, items: seq<T>, key: T -> int, i: nat)
    requires i < |items| && AtRanks(out, items, key, i)
    ensures Rank(items, key, i) < |items| && AtRanks(out[Rank(items, key, i) := items[i]], items, key, i + 1)
  {
    RankInBucket(items, key, i);
    forall j: nat | j < i ensures Rank(items, key, j) != Rank(items, key, i) { RanksDiffer(items, key, j, i); }
  }

  lemma {:induction false} CursorsStart<T>(next: seq<nat>, items: seq<T>, key: T -> int, n: nat, shift: nat)
    requires |next| >= n + shift && forall b: nat | b < n :: next[b + shift] == Less(items, key, b)
    ensures Cursors(next, items, key, n, shift, 0)
  {
  }

  /** Places the items through the bucket cursors next[shift..], which end where the next buckets start. */
  method PlaceAll<T(0)>(items: seq<T>, key: T -> int, n: nat, next: array<nat>, shift: nat) returns (out: array<T>)
    requires InBuckets(items, key, n) && next.Length >= n + shift
    requires forall b: nat | b < n :: next[b + shift] == Less(items, key, b)
    modifies next
    ensures fresh(out) && Sorts(out[..], items, key, n)
    ensures forall b: nat | b < n :: next[b + shift] == Less(items, key, b) + |Select(items, key, b)|
    ensures forall j | 0 <= j < shift :: next[j] == old(next[j])
  {
    CursorsStart(next[..], items, key, n, shift);
    hide Less;
    hide Select;
    out := new T[|items|];
    for i := 0 to |items|
      invariant Cursors(next[..], items, key, n, shift, i)
      invariant forall j | 0 <= j < shift :: next[j] == old(next[j])
      invariant AtRanks(out[..], items, key, i)
    {
      var b := key(items[i]);
      CursorStep(next[..], items, key, n, shift, i);
      var at := next[b + shift];
      RankStep(out[..], items, key, i);
      ghost var was, wasOut := next[..], out[..];
      out[at] := items[i];
      assert out[..] == wasOut[at := items[i]];
      next[b + shift] := at + 1;
      assert next[..] == was[b + shift := at + 1];
    }
    assert items[..|items|] == items;
    RanksSort(out[..], items, key, n);
  }

  /** The sort that counts one entry up and places through a copy of the starts. */
  method StableSort<T(0)>(items: seq<T>, key: T -> int, n: nat) returns (out: array<T>, start: array<nat>)
    requires InBuckets(items, key, n)
    ensures Sorts(out[..], items, key, n)
    ensures start.Length == n + 1 && forall b: nat | b <= n :: start[b] == Less(items, key, b)
  {
    start := Count(items, key, n, 1);
    ghost var count := start[..];
    PartialSum(start);
    forall b: nat | b <= n ensures start[b] == Less(items, key, b) { CountsSum(count, items, key, n, 1, b); }
    var next := new nat[n](b requires 0 <= b < n reads start => start[b]);
    out := PlaceAll(items, key, n, next, 0);
  }

  /** The sort that counts two entries up, so that placing itself turns the ends into the starts. */
  method StableSortInPlace<T(0)>(items: seq<T>, key: T -> int, n: nat) returns (out: array<T>, start: array<nat>)
    requires InBuckets(items, key, n)
    ensures Sorts(out[..], items, key, n)
    ensures start.Length == n + 2 && forall b: nat | b <= n :: start[b] == Less(items, key, b)
  {
    start := Count(items, key, n, 2);
    StartsFromCounts(start[..], items, key, n);
    PartialSum(start);
    out := PlaceAll(items, key, n, start, 1);
    StartsPlaced(start[..], items, key, n);
  }

  lemma {:induction false} StartsPlaced<T>(start: seq<nat>, items: seq<T>, key: T -> int, n: nat)
    requires InBuckets(items, key, n) && |start| == n + 2 && start[0] == 0
    requires forall b: nat | b < n :: start[b + 1] == Less(items, key, b) + |Select(items, key, b)|
    ensures forall b: nat | b <= n :: start[b] == Less(items, key, b)
  {
    LessBounds(items, key, n);
    forall b: nat | b <= n ensures start[b] == Less(items, key, b) {
      if b > 0 {
        LessStep(items, key, b - 1);
        assert start[b - 1 + 1] == Less(items, key, b - 1) + |Select(items, key, b - 1)|;
      }
    }
  }

  lemma {:induction false} StartsFromCounts<T>(count: seq<nat>, items: seq<T>, key: T -> int, n: nat)
    requires Counted(count, items, key, n, 2) && InBuckets(items, key, n)
    ensures Sum(count[..1]) == 0
    ensures forall b: nat | b <= n :: Sum(count[..b + 2]) == Less(items, key, b)
  {
    ZeroSum(count[..1]);
    forall b: nat | b <= n ensures Sum(count[..b + 2]) == Less(items, key, b) { CountsSum(count, items, key, n, 2, b); }
  }
}
