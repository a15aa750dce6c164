/**
 The direct layout of a join table (src/exec/join_table.cc, BuildDirect): one dense integer key
 indexes an array of offsets into the rows.
 */
module JoinDirect {
  import opened BlockedSum
  import opened CountingSort
  import opened JoinRows
  import opened JoinBuild
  import opened JoinSegments
  import opened Words

  predicate Int64(k: int) {
    -0x8000_0000_0000_0000 <= k < 0x8000_0000_0000_0000
  }

  ghost predicate Int64Keys<T>(rows: seq<Row<T>>) {
    forall i | 0 <= i < |rows| :: Int64(rows[i].key)
  }

  /** No two rows share a key. */
  ghost predicate Unique<T>(rows: seq<Row<T>>) {
    forall i, j | 0 <= i < j < |rows| :: rows[i].key != rows[j].key
  }

  // ---- the rows in the order partitions are visited ----

  function Visited(segments: seq<seq<Segment>>, n: nat): seq<Ref>
    requires n <= |segments| && forall p | 0 <= p < n :: Forward(segments[p])
  {
    if n == 0 then [] else Visited(segments, n - 1) + SegmentsRefs(segments[n - 1])
  }

  /** A key lies in one partition: selecting it there selects it everywhere. */
  lemma {:induction false} PartitionKey<T>(all: seq<Row<T>>, hash: int -> nat, p: int, k: int)
    ensures Select(Select(all, PartOf(hash), p), RowKey(), k) == if hash(k) % PARTITIONS == p
      then Select(all, RowKey(), k) else []
  {
    if hash(k) % PARTITIONS == p {
      SelectTwice(all, PartOf(hash), p, RowKey(), k);
    } else {
      var rows := Select(all, PartOf(hash), p);
      SelectHas(all, PartOf(hash), p);
      forall i | 0 <= i < |rows| ensures RowKey()(rows[i]) != k { assert rows[i] in rows; }
      SelectNone(rows, RowKey(), k);
    }
  }

  lemma {:induction false} AllForward<T>(
      chunks: seq<seq<Row<T>>>, segments: seq<seq<Segment>>, all: seq<Row<T>>, hash: int -> nat)
    requires Partitioned(chunks, segments, all, hash)
    ensures forall p | 0 <= p < PARTITIONS :: Forward(segments[p])
  {
    forall p: nat | p < PARTITIONS
      ensures Forward(segments[p])
    {
      assert HasPartition(chunks, segments[p], all, hash, p);
    }
  }

  lemma {:induction false} FoundOnce<A>(found: seq<A>, before: seq<A>, now: seq<A>, part: int, n: int)
    requires before == if part < n - 1 then found else []
    requires now == if part == n - 1 then found else []
    ensures before + now == if part < n then found else []
  {
  }

  lemma {:induction false} VisitedStep<T>(
      chunks: seq<seq<Row<T>>>, before: seq<Ref>, now: seq<Ref>, all: seq<Row<T>>, hash: int -> nat, n: nat, k: int,
      part: int)
    requires RefsOk(chunks, before) && RefsOk(chunks, now) && part == hash(k) % PARTITIONS
    requires Rows(chunks, now) == Select(all, PartOf(hash), n)
    requires Select(Rows(chunks, before), RowKey(), k) == if part < n then Select(all, RowKey(), k) else []
    ensures RefsOk(chunks, before + now)
    ensures Select(Rows(chunks, before + now), RowKey(), k) == if part < n + 1 then Select(all, RowKey(), k) else []
  {
    hide Select;
    hide Rows;
    RowsConcat(chunks, before, now);
    SelectConcat(Rows(chunks, before), Rows(chunks, now), RowKey(), k);
    PartitionKey(all, hash, n, k);
    FoundOnce(Select(all, RowKey(), k), Select(Rows(chunks, before), RowKey(), k),
        Select(Rows(chunks, now), RowKey(), k), part, n + 1);
  }

  lemma {:induction false} VisitedKey<T>(
      chunks: seq<seq<Row<T>>>, segments: seq<seq<Segment>>, all: seq<Row<T>>, hash: int -> nat, n: nat, k: int,
      part: int)
    requires Partitioned(chunks, segments, all, hash) && n <= PARTITIONS && part == hash(k) % PARTITIONS
    requires forall p | 0 <= p < PARTITIONS :: Forward(segments[p])
    ensures RefsOk(chunks, Visited(segments, n))
    ensures Select(Rows(chunks, Visited(segments, n)), RowKey(), k) == if part < n then Select(all, RowKey(), k) else []
  {
    if n > 0 {
      hide Select;
      hide Rows;
      hide SegmentsRefs;
      VisitedKey(chunks, segments, all, hash, n - 1, k, part);
      assert HasPartition(chunks, segments[n - 1], all, hash, n - 1);
      VisitedStep(chunks, Visited(segments, n - 1), SegmentsRefs(segments[n - 1]), all, hash, n - 1, k, part);
    }
  }

  /** `rows` are the rows of the build, each key's in input order. */
  ghost predicate Rearranged<T>(chunks: seq<seq<Row<T>>>, rows: seq<Ref>, all: seq<Row<T>>) {
    RefsOk(chunks, rows) && forall k :: Select(Rows(chunks, rows), RowKey(), k) == Select(all, RowKey(), k)
  }

  lemma {:induction false} VisitedAll<T>(
      chunks: seq<seq<Row<T>>>, segments: seq<seq<Segment>>, all: seq<Row<T>>, hash: int -> nat)
    requires Partitioned(chunks, segments, all, hash)
    ensures forall p | 0 <= p < PARTITIONS :: Forward(segments[p])
    ensures Rearranged(chunks, Visited(segments, PARTITIONS), all)
  {
    AllForward(chunks, segments, all, hash);
    VisitedKey(chunks, segments, all, hash, PARTITIONS, 0, hash(0) % PARTITIONS);
    forall k ensures Select(Rows(chunks, Visited(segments, PARTITIONS)), RowKey(), k) == Select(all, RowKey(), k) {
      VisitedKey(chunks, segments, all, hash, PARTITIONS, k, hash(k) % PARTITIONS);
    }
  }

  // ---- the index ----

  /** A row's entry: its key's distance from the smallest, counted in 64 bits. */
  function IndexKey<T>(chunks: seq<seq<Row<T>>>, min: int): Ref -> int {
    (r: Ref) => Wrap(RefKey(chunks)(r) - min)
  }

  /** No key outside the build's range has an entry. */
  lemma {:induction false} OutsideRange(k: int, min: int, max: int)
    requires Int64(k) && Int64(min) && Int64(max) && min <= max
    ensures Wrap(k - min) <= Wrap(max - min) <==> min <= k <= max
    ensures min <= k <= max ==> Wrap(k - min) == k - min
  {
  }

  ghost predicate KeysRange<T>(chunks: seq<seq<Row<T>>>, refs: seq<Ref>, min: int, max: int) {
    && Int64(min) && Int64(max) && min <= max
    && forall i | 0 <= i < |refs| :: min <= RefKey(chunks)(refs[i]) <= max
  }

  /** The entries of `refs` are below span + 1, and each holds one key's rows. */
  lemma {:induction false} IndexBuckets<T>(chunks: seq<seq<Row<T>>>, refs: seq<Ref>, min: int, max: int)
    requires KeysRange(chunks, refs, min, max)
    ensures InBuckets(refs, IndexKey(chunks, min), Wrap(max - min) + 1)
    ensures forall b: nat | b <= Wrap(max - min) ::
      Select(refs, IndexKey(chunks, min), b) == Select(refs, RefKey(chunks), min + b)
  {
    forall i | 0 <= i < |refs| ensures 0 <= IndexKey(chunks, min)(refs[i]) < Wrap(max - min) + 1 {
      OutsideRange(RefKey(chunks)(refs[i]), min, max);
    }
    forall b: nat | b <= Wrap(max - min)
      ensures Select(refs, IndexKey(chunks, min), b) == Select(refs, RefKey(chunks), min + b)
    {
      OutsideRange(max, min, max);
      forall i | 0 <= i < |refs| ensures IndexKey(chunks, min)(refs[i]) == b <==> RefKey(chunks)(refs[i]) == min + b {
        OutsideRange(RefKey(chunks)(refs[i]), min, max);
      }
      SelectSame(refs, IndexKey(chunks, min), b, RefKey(chunks), min + b);
    }
  }

  /** Entry `b` delimits the rows of key min + b. */
  ghost predicate Entry<T>(
      chunks: seq<seq<Row<T>>>, rows: seq<Ref>, offsets: seq<nat>, min: int, all: seq<Row<T>>, b: nat)
    requires b + 1 < |offsets|
  {
    && offsets[b] <= offsets[b + 1] <= |rows|
    && RefsOk(chunks, rows[offsets[b]..offsets[b + 1]])
    && Rows(chunks, rows[offsets[b]..offsets[b + 1]]) == Select(all, RowKey(), min + b)
  }

  ghost predicate IsDirect<T>(
      chunks: seq<seq<Row<T>>>, rows: seq<Ref>, offsets: seq<nat>, min: int, span: nat, all: seq<Row<T>>)
  {
    && Rearranged(chunks, rows, all)
    && |offsets| == span + 2
    && forall b: nat | b <= span :: Entry(chunks, rows, offsets, min, all, b)
  }

  lemma {:induction false} RangeOfRefs<T>(
      chunks: seq<seq<Row<T>>>, refs: seq<Ref>, all: seq<Row<T>>, min: int, max: int)
    requires Rearranged(chunks, refs, all) && KeysWithin(all, min, max) && Int64(min) && Int64(max) && min <= max
    ensures KeysRange(chunks, refs, min, max)
  {
    var rows := Rows(chunks, refs);
    SameSelections(rows, all, RowKey());
    forall i | 0 <= i < |refs| ensures min <= RefKey(chunks)(refs[i]) <= max {
      assert RefOk(chunks, refs[i]);
      assert rows[i] in multiset(rows);
      assert rows[i] in all;
    }
  }

  lemma {:induction false} SortKeepsKey<T>(
      chunks: seq<seq<Row<T>>>, visited: seq<Ref>, rows: seq<Ref>, min: int, max: int, k: int)
    requires RefsOk(chunks, visited) && RefsOk(chunks, rows) && KeysRange(chunks, visited, min, max)
    requires Sorts(rows, visited, IndexKey(chunks, min), Wrap(max - min) + 1)
    ensures Select(Rows(chunks, rows), RowKey(), k) == Select(Rows(chunks, visited), RowKey(), k)
  {
    hide Select;
    hide Less;
    hide Rows;
    var n, index := Wrap(max - min) + 1, IndexKey<T>(chunks, min);
    IndexBuckets(chunks, visited, min, max);
    RowsSelect(chunks, rows, k);
    RowsSelect(chunks, visited, k);
    SortedCount(rows, visited, index, n);
    if Wrap(k - min) < n {
      SortKeeps(rows, visited, index, n, RefKey(chunks), k, Wrap(k - min));
    } else {
      SelectNone(visited, RefKey(chunks), k);
      SelectNone(rows, RefKey(chunks), k);
    }
  }

  lemma {:induction false} SortRearranges<T>(
      chunks: seq<seq<Row<T>>>, visited: seq<Ref>, rows: seq<Ref>, min: int, max: int, all: seq<Row<T>>)
    requires Rearranged(chunks, visited, all) && KeysRange(chunks, visited, min, max)
    requires Sorts(rows, visited, IndexKey(chunks, min), Wrap(max - min) + 1)
    ensures Rearranged(chunks, rows, all)
  {
    IndexBuckets(chunks, visited, min, max);
    SortedRefs(chunks, visited, rows, IndexKey(chunks, min), Wrap(max - min) + 1);
    forall k ensures Select(Rows(chunks, rows), RowKey(), k) == Select(all, RowKey(), k) {
      SortKeepsKey(chunks, visited, rows, min, max, k);
    }
  }

  lemma {:induction false} SortEntries<T>(
      chunks: seq<seq<Row<T>>>, visited: seq<Ref>, rows: seq<Ref>, offsets: seq<nat>, min: int, max: int,
      all: seq<Row<T>>, b: nat)
    requires Rearranged(chunks, visited, all) && KeysRange(chunks, visited, min, max) && b <= Wrap(max - min)
    requires Bucket(rows, visited, IndexKey(chunks, min), b)
    requires |offsets| == Wrap(max - min) + 2
    requires offsets[b] == Less(visited, IndexKey(chunks, min), b)
    requires offsets[b + 1] == Less(visited, IndexKey(chunks, min), b + 1)
    ensures Entry(chunks, rows, offsets, min, all, b)
  {
    IndexBuckets(chunks, visited, min, max);
    RowsSelect(chunks, visited, min + b);
  }

  /** Each key's rows counted, summed in blocks, and placed. */
  method BuildDirect<T>(
      chunks: seq<seq<Row<T>>>, segments: seq<seq<Segment>>, min: int, max: int, ghost all: seq<Row<T>>,
      ghost hash: int -> nat)
    returns (rows: seq<Ref>, offsets: seq<nat>, unique: bool)
    requires Partitioned(chunks, segments, all, hash) && KeysWithin(all, min, max) && Int64(min) && Int64(max)
    requires min <= max
    ensures IsDirect(chunks, rows, offsets, min, Wrap(max - min), all)
    ensures unique <==> Unique(all)
  {
    var n, index := Wrap(max - min) + 1, IndexKey<T>(chunks, min);
    VisitedAll(chunks, segments, all, hash);
    var visited := Visited(segments, PARTITIONS);
    RangeOfRefs(chunks, visited, all, min, max);
    IndexBuckets(chunks, visited, min, max);
    var start := Count(visited, index, n, 2);
    unique := NoRepeats(start, visited, index, n);
    UniqueKeys(chunks, visited, all, min, max);
    StartsFromCounts(start[..], visited, index, n);
    BlockedPartialSum(start);
    var sorted := PlaceAll(visited, index, n, start, 1);
    StartsPlaced(start[..], visited, index, n);
    rows, offsets := sorted[..], start[..n + 1];
    SortRearranges(chunks, visited, rows, min, max, all);
    forall b: nat | b <= Wrap(max - min) ensures Entry(chunks, rows, offsets, min, all, b) {
      SortEntries(chunks, visited, rows, offsets, min, max, all, b);
    }
  }

  /** Whether no entry counts two rows. */
  method NoRepeats<A>(count: array<nat>, ghost items: seq<A>, ghost key: A -> int, n: nat) returns (unique: bool)
    requires Counted(count[..], items, key, n, 2)
    ensures unique <==> forall b: nat | b < n :: |Select(items, key, b)| <= 1
  {
    unique := true;
    for b := 0 to n
      invariant unique ==> forall c: nat | c < b :: |Select(items, key, c)| <= 1
      invariant !unique ==> exists c: nat :: c < b && |Select(items, key, c)| > 1
    {
      assert count[..][b + 2] == |Select(items, key, b)|;
      if count[b + 2] > 1 {
        unique := false;
      }
    }
  }

  lemma {:induction false} UniqueKeys<T>(
      chunks: seq<seq<Row<T>>>, visited: seq<Ref>, all: seq<Row<T>>, min: int, max: int)
    requires Rearranged(chunks, visited, all) && KeysRange(chunks, visited, min, max)
    ensures Unique(all) <==> forall b: nat | b < Wrap(max - min) + 1 :: |Select(visited, IndexKey(chunks, min), b)| <= 1
  {
    IndexBuckets(chunks, visited, min, max);
    UniqueByKey(all);
    forall k
      ensures |Select(all, RowKey(), k)| == |Select(visited, RefKey(chunks), k)|
    {
      RowsSelect(chunks, visited, k);
    }
    if !Unique(all) {
      var k :| |Select(all, RowKey(), k)| > 1;
      var i := SelectAt(visited, RefKey(chunks), k, 0);
      OutsideRange(k, min, max);
      OutsideRange(max, min, max);
      assert |Select(visited, IndexKey(chunks, min), k - min)| > 1;
    } else {
      forall b: nat | b < Wrap(max - min) + 1 ensures |Select(visited, IndexKey(chunks, min), b)| <= 1 {
        assert |Select(all, RowKey(), min + b)| <= 1;
      }
    }
  }

  lemma {:induction false} UniqueByKey<T>(all: seq<Row<T>>)
    ensures Unique(all) <==> forall k :: |Select(all, RowKey(), k)| <= 1
  {
    UniqueSelections(all, RowKey());
    assert Unique(all) <==> forall i, j | 0 <= i < j < |all| :: RowKey()(all[i]) != RowKey()(all[j]);
  }

  lemma {:induction false} SortedRefs<T>(
      chunks: seq<seq<Row<T>>>, visited: seq<Ref>, rows: seq<Ref>, key: Ref -> int, n: nat)
    requires RefsOk(chunks, visited) && Sorts(rows, visited, key, n) && InBuckets(visited, key, n)
    ensures RefsOk(chunks, rows)
  {
    SortedCount(rows, visited, key, n);
    forall i | 0 <= i < |rows| ensures RefOk(chunks, rows[i]) {
      var j :| 0 <= j < |visited| && visited[j] == rows[i];
      assert RefOk(chunks, visited[j]);
    }
  }
}
