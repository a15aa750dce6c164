/**
 The hashed layout of a join table (src/exec/join_table.cc, BuildHashed and BuildDirectory): per
 partition, buckets of key slots, a slot per key with the range of its rows.
 */
module JoinHashed {
  import opened CountingSort
  import opened JoinRows
  import opened JoinGrouping

  datatype KeySlot = KeySlot(hash: nat, begin: nat, end: nat)

  /** Bucket b's slots are slots[starts[b]..starts[b + 1]]; a partition without rows has no bucket. */
  datatype Directory = Directory(buckets: nat, starts: seq<nat>, slots: seq<KeySlot>)

  /** The smallest power of two that is at least n. */
  function BitCeil(n: nat): (p: nat)
    ensures p >= 1 && p >= n
  {
    if n <= 1 then 1 else 2 * BitCeil((n + 1) / 2)
  }

  /** The bits above the partition's pick the bucket. */
  function BucketOf(hash: nat, buckets: nat): (b: nat)
    requires buckets > 0
    ensures b < buckets
  {
    hash / PARTITIONS % buckets
  }

  function BucketKey<T>(chunks: seq<seq<Row<T>>>, hash: int -> nat, buckets: nat): Ref -> int
    requires buckets > 0
  {
    (r: Ref) => BucketOf(hash(RefKey(chunks)(r)), buckets)
  }

  // ---- one bucket ----

  /** Slot `s` is the range of one key's entries. */
  ghost predicate SlotOf(rows: seq<Ref>, s: KeySlot, entries: seq<Ref>, f: Ref -> int, hash: int -> nat) {
    && s.begin < s.end <= |rows|
    && s.hash == hash(f(rows[s.begin]))
    && rows[s.begin..s.end] == Select(entries, f, f(rows[s.begin]))
  }

  ghost predicate HasSlot(rows: seq<Ref>, slots: seq<KeySlot>, f: Ref -> int, k: int) {
    exists i :: 0 <= i < |slots| && slots[i].begin < |rows| && f(rows[slots[i].begin]) == k
  }

  /** `slots` has a slot for each key of `entries`, with the key's entries in order. */
  ghost predicate Serves(rows: seq<Ref>, slots: seq<KeySlot>, entries: seq<Ref>, f: Ref -> int, hash: int -> nat) {
    && (forall i | 0 <= i < |slots| :: SlotOf(rows, slots[i], entries, f, hash))
    && (forall i | 0 <= i < |entries| :: HasSlot(rows, slots, f, f(entries[i])))
  }

  /** In a grouped sequence a maximal run of a key is all of it. */
  lemma {:induction false} RunIsSelection(g: seq<Ref>, f: Ref -> int, at: nat, stop: nat)
    requires at < stop <= |g| && Contiguous(g, f)
    requires forall i | at <= i < stop :: f(g[i]) == f(g[at])
    requires at > 0 ==> f(g[at - 1]) != f(g[at])
    requires stop < |g| ==> f(g[stop]) != f(g[at])
    ensures Select(g, f, f(g[at])) == g[at..stop]
  {
    var k := f(g[at]);
    forall i | 0 <= i < at ensures f(g[..at][i]) != k { assert Unbroken(g, f, i, at - 1, at); }
    forall i | 0 <= i < |g| - stop ensures f(g[stop..][i]) != k { assert Unbroken(g, f, at, stop, stop + i); }
    forall i | 0 <= i < stop - at ensures f(g[at..stop][i]) == k { assert g[at..stop][i] == g[at + i]; }
    PickMiddle(g[..at], g[at..stop], g[stop..], f, k);
    SplitThree(g, at, stop);
  }

  lemma {:induction false} PickMiddle(before: seq<Ref>, run: seq<Ref>, after: seq<Ref>, f: Ref -> int, k: int)
    requires forall i | 0 <= i < |before| :: f(before[i]) != k
    requires forall i | 0 <= i < |run| :: f(run[i]) == k
    requires forall i | 0 <= i < |after| :: f(after[i]) != k
    ensures Select(before + run + after, f, k) == run
  {
    SelectConcat(before + run, after, f, k);
    SelectConcat(before, run, f, k);
    SelectNone(before, f, k);
    SelectNone(after, f, k);
    SelectAll(run, f, k);
  }

  lemma {:induction false} SplitThree(g: seq<Ref>, at: nat, stop: nat)
    requires at <= stop <= |g|
    ensures g == g[..at] + g[at..stop] + g[stop..]
  {
  }

  lemma {:induction false} SliceOfSlice(g: seq<Ref>, x: nat, y: nat, a: nat, b: nat)
    requires x <= a <= b <= y <= |g|
    ensures g[x..y][a - x..b - x] == g[a..b]
  {
    forall i | 0 <= i < b - a ensures g[x..y][a - x..b - x][i] == g[a..b][i] {
      assert g[x..y][a - x + i] == g[a + i];
    }
  }

  /** The end of the run of one key from `at`. */
  method RunEnd(rows: seq<Ref>, at: nat, y: nat, f: Ref -> int) returns (stop: nat)
    requires at < y <= |rows|
    ensures at < stop <= y && forall i | at <= i < stop :: f(rows[i]) == f(rows[at])
    ensures stop < y ==> f(rows[stop]) != f(rows[at])
  {
    stop := at + 1;
    while stop < y && f(rows[stop]) == f(rows[at])
      invariant at < stop <= y && forall i | at <= i < stop :: f(rows[i]) == f(rows[at])
    {
      stop := stop + 1;
    }
  }

  /** A run of a grouped bucket makes a slot. */
  lemma {:induction false} RunSlot(
      rows: seq<Ref>, x: nat, y: nat, at: nat, stop: nat, entries: seq<Ref>, f: Ref -> int, hash: int -> nat)
    requires x <= at < stop <= y <= |rows| && Grouped(rows[x..y], entries, f)
    requires forall i | at <= i < stop :: f(rows[i]) == f(rows[at])
    requires at > x ==> f(rows[at - 1]) != f(rows[at])
    requires stop < y ==> f(rows[stop]) != f(rows[at])
    ensures SlotOf(rows, KeySlot(hash(f(rows[at])), at, stop), entries, f, hash)
  {
    var g := rows[x..y];
    RunIsSelection(g, f, at - x, stop - x);
    SliceOfSlice(rows, x, y, at, stop);
    assert Select(g, f, f(rows[at])) == Select(entries, f, f(rows[at]));
  }

  /** Some key has two entries. */
  ghost predicate Repeats(entries: seq<Ref>, f: Ref -> int) {
    exists k :: |Select(entries, f, k)| > 1
  }

  lemma {:induction false} SlotsTell(
      rows: seq<Ref>, slots: seq<KeySlot>, entries: seq<Ref>, f: Ref -> int, hash: int -> nat)
    requires Serves(rows, slots, entries, f, hash)
    ensures Repeats(entries, f) <==> exists i :: 0 <= i < |slots| && slots[i].end - slots[i].begin > 1
  {
    if i :| 0 <= i < |slots| && slots[i].end - slots[i].begin > 1 {
      assert SlotOf(rows, slots[i], entries, f, hash);
      assert |Select(entries, f, f(rows[slots[i].begin]))| > 1;
    }
    if k :| |Select(entries, f, k)| > 1 {
      var j := SelectAt(entries, f, k, 0);
      assert HasSlot(rows, slots, f, f(entries[j]));
      var i :| 0 <= i < |slots| && slots[i].begin < |rows| && f(rows[slots[i].begin]) == k;
      assert SlotOf(rows, slots[i], entries, f, hash);
    }
  }

  /** One slot per key of a grouped bucket rows[x..y]. */
  method MakeSlots(
      rows: seq<Ref>, x: nat, y: nat, ghost entries: seq<Ref>, f: Ref -> int, hash: int -> nat)
    returns (slots: seq<KeySlot>, repeats: bool)
    requires x <= y <= |rows| && Grouped(rows[x..y], entries, f)
    ensures Serves(rows, slots, entries, f, hash) && repeats == Repeats(entries, f)
  {
    slots := [];
    var at := x;
    while at < y
      invariant x <= at <= y
      invariant x < at < y ==> f(rows[at - 1]) != f(rows[at])
      invariant forall i | 0 <= i < |slots| :: SlotOf(rows, slots[i], entries, f, hash)
      invariant forall i | x <= i < at :: HasSlot(rows, slots, f, f(rows[i]))
    {
      var stop := RunEnd(rows, at, y, f);
      RunSlot(rows, x, y, at, stop, entries, f, hash);
      var slot := KeySlot(hash(f(rows[at])), at, stop);
      MoreSlots(rows, slots, slot, f, x, at, stop);
      slots := slots + [slot];
      at := stop;
    }
    forall i | 0 <= i < |entries| ensures HasSlot(rows, slots, f, f(entries[i])) {
      GroupedHas(rows[x..y], entries, f, i);
    }
    SlotsTell(rows, slots, entries, f, hash);
    repeats := AnyLong(slots);
  }

  /** Whether a slot holds more than one entry. */
  method AnyLong(slots: seq<KeySlot>) returns (long: bool)
    ensures long <==> exists i :: 0 <= i < |slots| && slots[i].end - slots[i].begin > 1
  {
    long := false;
    for i := 0 to |slots|
      invariant long <==> exists j :: 0 <= j < i && slots[j].end - slots[j].begin > 1
    {
      if slots[i].end - slots[i].begin > 1 {
        long := true;
      }
    }
  }

  lemma {:induction false} MoreSlots(
      rows: seq<Ref>, slots: seq<KeySlot>, slot: KeySlot, f: Ref -> int, x: nat, at: nat, stop: nat)
    requires x <= at < stop <= |rows| && slot.begin == at
    requires forall i | x <= i < at :: HasSlot(rows, slots, f, f(rows[i]))
    requires forall i | at <= i < stop :: f(rows[i]) == f(rows[at])
    ensures forall i | x <= i < stop :: HasSlot(rows, slots + [slot], f, f(rows[i]))
  {
    var more := slots + [slot];
    forall i | x <= i < stop ensures HasSlot(rows, more, f, f(rows[i])) {
      if i < at {
        assert HasSlot(rows, slots, f, f(rows[i]));
        var j :| 0 <= j < |slots| && slots[j].begin < |rows| && f(rows[slots[j].begin]) == f(rows[i]);
        assert more[j] == slots[j];
      } else {
        assert more[|slots|] == slot;
      }
    }
  }

  lemma {:induction false} GroupedHas(g: seq<Ref>, entries: seq<Ref>, f: Ref -> int, i: nat)
    requires Grouped(g, entries, f) && i < |entries|
    ensures exists j :: 0 <= j < |g| && f(g[j]) == f(entries[i])
  {
    var k := f(entries[i]);
    SelectPrefix(entries, f, i, k);
    assert Select(g, f, k) == Select(entries, f, k);
    var j := SelectAt(g, f, k, 0);
  }

  /** A slot's range does not depend on rows added after it. */
  lemma {:induction false} ServesLonger(
      rows: seq<Ref>, more: seq<Ref>, slots: seq<KeySlot>, entries: seq<Ref>, f: Ref -> int, hash: int -> nat)
    requires Serves(rows, slots, entries, f, hash) && rows <= more
    ensures Serves(more, slots, entries, f, hash)
  {
    forall i | 0 <= i < |slots| ensures SlotOf(more, slots[i], entries, f, hash) {
      assert SlotOf(rows, slots[i], entries, f, hash);
      assert more[slots[i].begin..slots[i].end] == rows[slots[i].begin..slots[i].end];
    }
    forall i | 0 <= i < |entries| ensures HasSlot(more, slots, f, f(entries[i])) {
      assert HasSlot(rows, slots, f, f(entries[i]));
      var j :| 0 <= j < |slots| && slots[j].begin < |rows| && f(rows[slots[j].begin]) == f(entries[i]);
      assert SlotOf(rows, slots[j], entries, f, hash);
      assert more[slots[j].begin] == rows[slots[j].begin];
    }
  }

  // ---- one partition ----

  /** Bucket `b`'s slots serve the entries of bucket `b`. */
  ghost predicate ServesTo(
      rows: seq<Ref>, starts: seq<nat>, slots: seq<KeySlot>, entries: seq<Ref>, f: Ref -> int, key: Ref -> int,
      hash: int -> nat, b: nat)
  {
    && b + 1 < |starts| && starts[b] <= starts[b + 1] <= |slots|
    && Serves(rows, slots[starts[b]..starts[b + 1]], Select(entries, key, b), f, hash)
  }

  ghost predicate IsDirectory<T>(
      chunks: seq<seq<Row<T>>>, rows: seq<Ref>, dir: Directory, entries: seq<Ref>, hash: int -> nat)
  {
    && dir.buckets > 0
    && (dir.slots == [] ==> entries == [])
    && (dir.slots != [] ==> forall b: nat | b < dir.buckets ::
          ServesTo(rows, dir.starts, dir.slots, entries, RefKey(chunks), BucketKey(chunks, hash, dir.buckets), hash, b))
  }

  /** Bucket `b`'s range of `sorted` holds its entries. */
  ghost predicate Holds(sorted: seq<Ref>, start: seq<nat>, entries: seq<Ref>, key: Ref -> int, b: nat) {
    && b + 1 < |start| && start[b] <= start[b + 1] <= |sorted|
    && sorted[start[b]..start[b + 1]] == Select(entries, key, b)
  }

  /** The part of `rows` from `base` on groups the first `n` buckets of `sorted`. */
  ghost predicate GroupedTo(rows: seq<Ref>, base: nat, sorted: seq<Ref>, start: seq<nat>, f: Ref -> int, b: nat) {
    && b + 1 < |start| && start[b] <= start[b + 1] <= |sorted| && base + start[b + 1] <= |rows|
    && Grouped(rows[base + start[b]..base + start[b + 1]], sorted[start[b]..start[b + 1]], f)
  }

  /** Groups every bucket that holds more than one entry. */
  method GroupBuckets(
      before: seq<Ref>, sorted: seq<Ref>, start: seq<nat>, n: nat, f: Ref -> int)
    returns (rows: seq<Ref>)
    requires |start| >= n + 1 && start[0] == 0 && start[n] == |sorted|
    requires forall b, c | 0 <= b <= c <= n :: start[b] <= start[c]
    ensures |rows| == |before| + |sorted| && before <= rows
    ensures forall k :: Select(rows[|before|..], f, k) == Select(sorted, f, k)
    ensures forall b: nat | b < n :: GroupedTo(rows, |before|, sorted, start, f, b)
  {
    rows := before;
    for b := 0 to n
      invariant |rows| == |before| + start[b] && before <= rows
      invariant forall k :: Select(rows[|before|..], f, k) == Select(sorted[..start[b]], f, k)
      invariant forall c: nat | c < b :: GroupedTo(rows, |before|, sorted, start, f, c)
    {
      var bucket := sorted[start[b]..start[b + 1]];
      var g := bucket;
      if |bucket| > 1 {
        g := GroupBucket(bucket, f);
      }
      assert Grouped(g, bucket, f);
      GroupedStep(before, rows, sorted, start, n, f, b, g);
      GroupedKeys(rows[|before|..], sorted, start[b], start[b + 1], f, g);
      assert (rows + g)[|before|..] == rows[|before|..] + g;
      rows := rows + g;
    }
    assert sorted[..|sorted|] == sorted;
  }

  lemma {:induction false} SliceKept(rows: seq<Ref>, g: seq<Ref>, x: nat, y: nat)
    requires x <= y <= |rows|
    ensures (rows + g)[x..y] == rows[x..y]
  {
  }

  lemma {:induction false} PrefixStep(s: seq<Ref>, x: nat, y: nat)
    requires x <= y <= |s|
    ensures s[..y] == s[..x] + s[x..y]
  {
  }

  lemma {:induction false} GroupedKeys(kept: seq<Ref>, sorted: seq<Ref>, x: nat, y: nat, f: Ref -> int, g: seq<Ref>)
    requires x <= y <= |sorted| && Grouped(g, sorted[x..y], f)
    requires forall k :: Select(kept, f, k) == Select(sorted[..x], f, k)
    ensures forall k :: Select(kept + g, f, k) == Select(sorted[..y], f, k)
  {
    PrefixStep(sorted, x, y);
    forall k ensures Select(kept + g, f, k) == Select(sorted[..y], f, k) {
      SelectConcat(kept, g, f, k);
      SelectConcat(sorted[..x], sorted[x..y], f, k);
      assert Select(g, f, k) == Select(sorted[x..y], f, k);
    }
  }

  lemma {:induction false} GroupedStep(
      before: seq<Ref>, rows: seq<Ref>, sorted: seq<Ref>, start: seq<nat>, n: nat, f: Ref -> int, b: nat, g: seq<Ref>)
    requires b < n && |start| >= n + 1 && start[n] == |sorted| && forall c, d | 0 <= c <= d <= n :: start[c] <= start[d]
    requires |rows| == |before| + start[b]
    requires forall c: nat | c < b :: GroupedTo(rows, |before|, sorted, start, f, c)
    requires |g| == start[b + 1] - start[b] && Grouped(g, sorted[start[b]..start[b + 1]], f)
    ensures forall c: nat | c < b + 1 :: GroupedTo(rows + g, |before|, sorted, start, f, c)
  {
    hide Grouped;
    hide Select;
    var base, more := |before|, rows + g;
    forall c: nat | c < b + 1 ensures GroupedTo(more, base, sorted, start, f, c) {
      if c < b {
        assert GroupedTo(rows, base, sorted, start, f, c);
        SliceKept(rows, g, base + start[c], base + start[c + 1]);
      } else {
        assert more[base + start[b]..base + start[b + 1]] == g;
      }
    }
  }

  lemma {:induction false} ServesStep(
      rows: seq<Ref>, starts: seq<nat>, slots: seq<KeySlot>, entries: seq<Ref>, f: Ref -> int, key: Ref -> int,
      hash: int -> nat, b: nat, more: seq<KeySlot>, starts': seq<nat>, slots': seq<KeySlot>)
    requires |starts| == b + 1 && starts[b] == |slots| && slots' == slots + more && starts' == starts + [|slots'|]
    requires forall c: nat | c < b :: ServesTo(rows, starts, slots, entries, f, key, hash, c)
    requires Serves(rows, more, Select(entries, key, b), f, hash)
    ensures forall c: nat | c < b + 1 :: ServesTo(rows, starts', slots', entries, f, key, hash, c)
  {
    forall c: nat | c < b + 1 ensures ServesTo(rows, starts', slots', entries, f, key, hash, c) {
      if c < b {
        assert ServesTo(rows, starts, slots, entries, f, key, hash, c);
        assert slots'[starts[c]..starts[c + 1]] == slots[starts[c]..starts[c + 1]];
      } else {
        assert slots'[|slots|..|slots| + |more|] == more;
      }
    }
  }

  /** One slot per key, bucket by bucket. */
  method SlotBuckets(
      rows: seq<Ref>, base: nat, sorted: seq<Ref>, start: seq<nat>, n: nat, ghost entries: seq<Ref>, f: Ref -> int,
      ghost key: Ref -> int, hash: int -> nat)
    returns (starts: seq<nat>, slots: seq<KeySlot>, repeats: seq<bool>)
    requires |start| >= n + 1
    requires forall b: nat | b < n :: GroupedTo(rows, base, sorted, start, f, b)
    requires forall b: nat | b < n :: Holds(sorted, start, entries, key, b)
    ensures |starts| == n + 1 && forall b: nat | b < n :: ServesTo(rows, starts, slots, entries, f, key, hash, b)
    ensures |repeats| == n && forall b: nat | b < n :: repeats[b] == Repeats(Select(entries, key, b), f)
  {
    hide Serves;
    hide Grouped;
    hide Select;
    starts, slots, repeats := [0], [], [];
    for b := 0 to n
      invariant |repeats| == b && forall c: nat | c < b :: repeats[c] == Repeats(Select(entries, key, c), f)
      invariant |starts| == b + 1 && starts[b] == |slots|
      invariant forall c: nat | c < b :: ServesTo(rows, starts, slots, entries, f, key, hash, c)
    {
      assert GroupedTo(rows, base, sorted, start, f, b) && Holds(sorted, start, entries, key, b);
      var more, twice := MakeSlots(rows, base + start[b], base + start[b + 1], Select(entries, key, b), f, hash);
      ServesStep(rows, starts, slots, entries, f, key, hash, b, more, starts + [|slots + more|], slots + more);
      repeats := repeats + [twice];
      slots := slots + more;
      starts := starts + [|slots|];
    }
  }

  /** The entries in bucket order, each bucket's in their order, and the bucket starts. */
  method SortBuckets<T>(
      chunks: seq<seq<Row<T>>>, hash: int -> nat, entries: seq<Ref>, n: nat)
    returns (sorted: seq<Ref>, start: seq<nat>)
    requires n > 0
    ensures |sorted| == |entries| && |start| == n + 2 && start[0] == 0 && start[n] == |sorted|
    ensures forall b, c | 0 <= b <= c <= n :: start[b] <= start[c]
    ensures forall b: nat | b < n :: Holds(sorted, start, entries, BucketKey(chunks, hash, n), b)
    ensures forall k :: Select(sorted, RefKey(chunks), k) == Select(entries, RefKey(chunks), k)
  {
    var key := BucketKey(chunks, hash, n);
    forall i | 0 <= i < |entries|
      ensures 0 <= key(entries[i]) < n
    {
      assert key(entries[i]) == BucketOf(hash(RefKey(chunks)(entries[i])), n);
    }
    var placed, starts := StableSortInPlace(entries, key, n);
    sorted, start := placed[..], starts[..];
    LessBounds(entries, key, n);
    forall b, c | 0 <= b <= c <= n ensures start[b] <= start[c] { LessMonotone(entries, key, b, c); }
    forall b: nat | b < n ensures Holds(sorted, start, entries, key, b) {
      assert Bucket(sorted, entries, key, b);
    }
    SortKeepsKeys(chunks, hash, sorted, entries, n);
  }

  /** The rows of one partition, appended to `before`, and the directory of their keys. */
  method BuildDirectory<T>(chunks: seq<seq<Row<T>>>, hash: int -> nat, before: seq<Ref>, entries: seq<Ref>)
    returns (rows: seq<Ref>, dir: Directory, repeats: bool)
    ensures |rows| == |before| + |entries| && before <= rows
    ensures repeats == Repeats(entries, RefKey(chunks))
    ensures forall k :: Select(rows[|before|..], RefKey(chunks), k) == Select(entries, RefKey(chunks), k)
    ensures IsDirectory(chunks, rows, dir, entries, hash)
  {
    if entries == [] {
      return before, Directory(1, [0, 0], []), false;
    }
    var n := BitCeil(|entries|);
    var sorted, start := SortBuckets(chunks, hash, entries, n);
    rows := GroupBuckets(before, sorted, start, n, RefKey(chunks));
    var starts, slots,
        twice := SlotBuckets(rows, |before|, sorted, start, n, entries, RefKey(chunks), BucketKey(chunks, hash, n),
        hash);
    AnyBucketRepeats(chunks, hash, entries, n, twice);
    repeats := true in twice;
    dir := Directory(n, starts, slots);
    SomeSlot(rows, starts, slots, entries, RefKey(chunks), BucketKey(chunks, hash, n), hash, n);
  }

  /** A key's entries lie in one bucket: two of them are two there. */
  lemma {:induction false} AnyBucketRepeats<T>(
      chunks: seq<seq<Row<T>>>, hash: int -> nat, entries: seq<Ref>, n: nat, twice: seq<bool>)
    requires n > 0 && |twice| == n
    requires forall b: nat | b < n ::
      twice[b] == Repeats(Select(entries, BucketKey(chunks, hash, n), b), RefKey(chunks))
    ensures true in twice <==> Repeats(entries, RefKey(chunks))
  {
    var f, key := RefKey(chunks), BucketKey(chunks, hash, n);
    if k :| |Select(entries, f, k)| > 1 {
      var b := BucketOf(hash(k), n);
      SelectTwice(entries, key, b, f, k);
      assert Repeats(Select(entries, key, b), f);
      assert twice[b];
    }
    if true in twice {
      var b: nat :| b < n && twice[b];
      var k :| |Select(Select(entries, key, b), f, k)| > 1;
      var i := SelectAt(Select(entries, key, b), f, k, 0);
      SelectHas(entries, key, b);
      assert key(Select(entries, key, b)[i]) == b == BucketOf(hash(k), n);
      SelectTwice(entries, key, b, f, k);
    }
  }

  lemma {:induction false} SortKeepsKeys<T>(
      chunks: seq<seq<Row<T>>>, hash: int -> nat, sorted: seq<Ref>, entries: seq<Ref>, n: nat)
    requires n > 0 && Sorts(sorted, entries, BucketKey(chunks, hash, n), n)
    ensures forall k :: Select(sorted, RefKey(chunks), k) == Select(entries, RefKey(chunks), k)
  {
    forall k ensures Select(sorted, RefKey(chunks), k) == Select(entries, RefKey(chunks), k) {
      SortKeeps(sorted, entries, BucketKey(chunks, hash, n), n, RefKey(chunks), k, BucketOf(hash(k), n));
    }
  }

  lemma {:induction false} SomeSlot(
      rows: seq<Ref>, starts: seq<nat>, slots: seq<KeySlot>, entries: seq<Ref>, f: Ref -> int, key: Ref -> int,
      hash: int -> nat, n: nat)
    requires entries != [] && 0 <= key(entries[0]) < n
    requires forall b: nat | b < n :: ServesTo(rows, starts, slots, entries, f, key, hash, b)
    ensures slots != []
  {
    var b := key(entries[0]);
    assert ServesTo(rows, starts, slots, entries, f, key, hash, b);
    SelectPrefix(entries, key, 0, b);
    var bucket := Select(entries, key, b);
    assert HasSlot(rows, slots[starts[b]..starts[b + 1]], f, f(bucket[0]));
  }
}
