/**
 A join table: the rows of a build indexed by key in either layout, and the probe that reads it
 (src/exec/join_table.cc, JoinTable).
 */
module JoinTable {
  import opened Options
  import opened Lists
  import opened CountingSort
  import opened JoinRows
  import opened JoinBuild
  import opened JoinSegments
  import opened JoinBuilder
  import opened JoinDirect
  import opened JoinHashed
  import opened Words

  const DIRECT_SLOTS_PER_ROW: nat := 8
  const SPARSE_DIRECT_SLOTS_PER_ROW: nat := 32

  datatype Index = Direct(min: int, span: nat, offsets: seq<nat>) | Hashed(directories: seq<Directory>)

  /** The table: `rows` is JoinTable::rows(), `nulls` the retained rows with a NULL key. */
  datatype Table<T> = Table(chunks: seq<seq<Row<T>>>, rows: seq<Ref>, index: Index, unique: bool, nulls: seq<T>,
      inputRows: nat)

  /** A range of `rows` (JoinMatches). */
  datatype Matches = Matches(begin: nat, end: nat)

  // ---- the hashed layout ----

  /** The directory of `k`'s partition has a slot for `k` just when the build has the key, with its rows in order. */
  ghost predicate KeyServed<T>(
      chunks: seq<seq<Row<T>>>, rows: seq<Ref>, dir: Directory, all: seq<Row<T>>, hash: int -> nat, k: int)
  {
    && dir.buckets > 0
    && (dir.slots == [] ==> Select(all, RowKey(), k) == [])
    && (dir.slots != [] ==>
          var b := BucketOf(hash(k), dir.buckets);
          && b + 1 < |dir.starts| && dir.starts[b] <= dir.starts[b + 1] <= |dir.slots|
          && SlotsServe(chunks, rows, dir.slots[dir.starts[b]..dir.starts[b + 1]], all, hash, k))
  }

  ghost predicate SlotsServe<T>(
      chunks: seq<seq<Row<T>>>, rows: seq<Ref>, slots: seq<KeySlot>, all: seq<Row<T>>, hash: int -> nat, k: int)
  {
    && (forall i | 0 <= i < |slots| :: SlotServes(chunks, rows, slots[i], all, hash, k))
    && (Select(all, RowKey(), k) != [] ==> HasSlot(rows, slots, RefKey(chunks), k))
  }

  ghost predicate SlotServes<T>(
      chunks: seq<seq<Row<T>>>, rows: seq<Ref>, s: KeySlot, all: seq<Row<T>>, hash: int -> nat, k: int)
  {
    && s.begin < s.end <= |rows|
    && s.hash == hash(RefKey(chunks)(rows[s.begin]))
    && (RefKey(chunks)(rows[s.begin]) == k ==>
          RefsOk(chunks, rows[s.begin..s.end]) && Rows(chunks, rows[s.begin..s.end]) == Select(all, RowKey(), k))
  }

  ghost predicate IsHashed<T>(
      chunks: seq<seq<Row<T>>>, rows: seq<Ref>, dirs: seq<Directory>, all: seq<Row<T>>, hash: int -> nat)
  {
    && Rearranged(chunks, rows, all)
    && |dirs| == PARTITIONS
    && forall k :: KeyServed(chunks, rows, dirs[hash(k) % PARTITIONS], all, hash, k)
  }

  /** Selecting a key in its bucket of its partition selects it in the build. */
  lemma {:induction false} KeyInBucket<T>(
      chunks: seq<seq<Row<T>>>, segments: seq<Segment>, all: seq<Row<T>>, hash: int -> nat, p: nat, n: nat, k: int)
    requires HasPartition(chunks, segments, all, hash, p) && n > 0 && hash(k) % PARTITIONS == p
    ensures var entries := SegmentsRefs(segments);
      var chosen := Select(Select(entries, BucketKey(chunks, hash, n), BucketOf(hash(k), n)), RefKey(chunks), k);
      RefsOk(chunks, chosen) && Rows(chunks, chosen) == Select(all, RowKey(), k)
  {
    var entries := SegmentsRefs(segments);
    SelectTwice(entries, BucketKey(chunks, hash, n), BucketOf(hash(k), n), RefKey(chunks), k);
    RowsSelect(chunks, entries, k);
    PartitionKey(all, hash, p, k);
  }

  lemma {:induction false} DirectoryServes<T>(
      chunks: seq<seq<Row<T>>>, rows: seq<Ref>, dir: Directory, segments: seq<Segment>, all: seq<Row<T>>,
      hash: int -> nat, p: nat, k: int)
    requires HasPartition(chunks, segments, all, hash, p)
    requires IsDirectory(chunks, rows, dir, SegmentsRefs(segments), hash)
    requires hash(k) % PARTITIONS == p
    ensures KeyServed(chunks, rows, dir, all, hash, k)
  {
    var n, f := dir.buckets, RefKey(chunks);
    var b, key := BucketOf(hash(k), n), BucketKey(chunks, hash, n);
    var entries := Select(SegmentsRefs(segments), key, b);
    KeyInBucket(chunks, segments, all, hash, p, n, k);
    if dir.slots != [] {
      assert ServesTo(rows, dir.starts, dir.slots, SegmentsRefs(segments), f, key, hash, b);
      var slots := dir.slots[dir.starts[b]..dir.starts[b + 1]];
      SlotsServeKey(chunks, rows, slots, entries, all, hash, k);
    }
  }

  lemma {:induction false} SlotsServeKey<T>(
      chunks: seq<seq<Row<T>>>, rows: seq<Ref>, slots: seq<KeySlot>, entries: seq<Ref>, all: seq<Row<T>>,
      hash: int -> nat, k: int)
    requires Serves(rows, slots, entries, RefKey(chunks), hash)
    requires var chosen := Select(entries, RefKey(chunks), k);
      RefsOk(chunks, chosen) && Rows(chunks, chosen) == Select(all, RowKey(), k)
    ensures SlotsServe(chunks, rows, slots, all, hash, k)
  {
    forall i | 0 <= i < |slots| ensures SlotServes(chunks, rows, slots[i], all, hash, k) {
      assert SlotOf(rows, slots[i], entries, RefKey(chunks), hash);
    }
    if Select(all, RowKey(), k) != [] {
      var i := SelectAt(entries, RefKey(chunks), k, 0);
      assert HasSlot(rows, slots, RefKey(chunks), RefKey(chunks)(entries[i]));
    }
  }

  lemma {:induction false} DirectoryLonger<T>(
      chunks: seq<seq<Row<T>>>, rows: seq<Ref>, more: seq<Ref>, dir: Directory, entries: seq<Ref>, hash: int -> nat)
    requires IsDirectory(chunks, rows, dir, entries, hash) && rows <= more
    ensures IsDirectory(chunks, more, dir, entries, hash)
  {
    if dir.slots != [] {
      var f, key := RefKey(chunks), BucketKey(chunks, hash, dir.buckets);
      forall b: nat | b < dir.buckets ensures ServesTo(more, dir.starts, dir.slots, entries, f, key, hash, b) {
        assert ServesTo(rows, dir.starts, dir.slots, entries, f, key, hash, b);
        ServesLonger(rows, more, dir.slots[dir.starts[b]..dir.starts[b + 1]], Select(entries, key, b), f, hash);
      }
    }
  }

  lemma {:induction false} RearrangedBy<T>(
      chunks: seq<seq<Row<T>>>, rows: seq<Ref>, visited: seq<Ref>, all: seq<Row<T>>)
    requires Rearranged(chunks, visited, all)
    requires forall k :: Select(rows, RefKey(chunks), k) == Select(visited, RefKey(chunks), k)
    ensures Rearranged(chunks, rows, all)
  {
    SameSelections(rows, visited, RefKey(chunks));
    forall i | 0 <= i < |rows| ensures RefOk(chunks, rows[i]) {
      assert rows[i] in multiset(rows);
      var j :| 0 <= j < |visited| && visited[j] == rows[i];
      assert RefOk(chunks, visited[j]);
    }
    forall k ensures Select(Rows(chunks, rows), RowKey(), k) == Select(all, RowKey(), k) {
      RowsSelect(chunks, rows, k);
      RowsSelect(chunks, visited, k);
    }
  }

  /** Directories for the first partitions. */
  ghost predicate Directories<T>(
      chunks: seq<seq<Row<T>>>, rows: seq<Ref>, dirs: seq<Directory>, segments: seq<seq<Segment>>, hash: int -> nat)
  {
    && |dirs| <= |segments|
    && forall q: nat | q < |dirs| ::
        Forward(segments[q]) && IsDirectory(chunks, rows, dirs[q], SegmentsRefs(segments[q]), hash)
  }

  lemma {:induction false} OneMoreDirectory<T>(
      chunks: seq<seq<Row<T>>>, rows: seq<Ref>, more: seq<Ref>, dirs: seq<Directory>, dir: Directory,
      segments: seq<seq<Segment>>, hash: int -> nat)
    requires Directories(chunks, rows, dirs, segments, hash) && rows <= more && |dirs| < |segments|
    requires Forward(segments[|dirs|])
    requires IsDirectory(chunks, more, dir, SegmentsRefs(segments[|dirs|]), hash)
    ensures Directories(chunks, more, dirs + [dir], segments, hash)
  {
    forall q: nat | q < |dirs| ensures IsDirectory(chunks, more, dirs[q], SegmentsRefs(segments[q]), hash) {
      DirectoryLonger(chunks, rows, more, dirs[q], SegmentsRefs(segments[q]), hash);
    }
  }

  /** The partitions, one directory each. */
  method BuildDirectories<T>(
      chunks: seq<seq<Row<T>>>, segments: seq<seq<Segment>>, hash: int -> nat)
    returns (rows: seq<Ref>, dirs: seq<Directory>, repeats: seq<bool>)
    requires |segments| == PARTITIONS && forall p | 0 <= p < PARTITIONS :: Forward(segments[p])
    ensures |repeats| == PARTITIONS
    ensures forall p: nat | p < PARTITIONS :: repeats[p] == Repeats(SegmentsRefs(segments[p]), RefKey(chunks))
    ensures |dirs| == PARTITIONS && Directories(chunks, rows, dirs, segments, hash)
    ensures forall k :: Select(rows, RefKey(chunks), k) == Select(Visited(segments, PARTITIONS), RefKey(chunks), k)
  {
    hide IsDirectory;
    hide Repeats;
    hide Select;
    rows, dirs, repeats := [], [], [];
    for p := 0 to PARTITIONS
      invariant |repeats| == p
      invariant forall q: nat | q < p :: repeats[q] == Repeats(SegmentsRefs(segments[q]), RefKey(chunks))
      invariant |dirs| == p && Directories(chunks, rows, dirs, segments, hash)
      invariant forall k :: Select(rows, RefKey(chunks), k) == Select(Visited(segments, p), RefKey(chunks), k)
    {
      var twice;
      rows, dirs, twice := NextDirectory(chunks, segments, hash, rows, dirs);
      repeats := repeats + [twice];
    }
  }

  method NextDirectory<T>(
      chunks: seq<seq<Row<T>>>, segments: seq<seq<Segment>>, hash: int -> nat, rows: seq<Ref>, dirs: seq<Directory>)
    returns (more: seq<Ref>, dirs': seq<Directory>, repeats: bool)
    requires |dirs| < |segments| && forall p | 0 <= p < |segments| :: Forward(segments[p])
    requires Directories(chunks, rows, dirs, segments, hash)
    requires forall k :: Select(rows, RefKey(chunks), k) == Select(Visited(segments, |dirs|), RefKey(chunks), k)
    ensures repeats == Repeats(SegmentsRefs(segments[|dirs|]), RefKey(chunks))
    ensures |dirs'| == |dirs| + 1 && Directories(chunks, more, dirs', segments, hash)
    ensures forall k :: Select(more, RefKey(chunks), k) == Select(Visited(segments, |dirs'|), RefKey(chunks), k)
  {
    hide IsDirectory;
    hide Repeats;
    hide Select;
    var entries := SegmentsRefs(segments[|dirs|]);
    var dir;
    more, dir, repeats := BuildDirectory(chunks, hash, rows, entries);
    AppendedKeys(rows, more, Visited(segments, |dirs|), entries, RefKey(chunks));
    OneMoreDirectory(chunks, rows, more, dirs, dir, segments, hash);
    dirs' := dirs + [dir];
    assert Visited(segments, |dirs'|) == Visited(segments, |dirs|) + entries;
  }

  method BuildHashed<T>(chunks: seq<seq<Row<T>>>, segments: seq<seq<Segment>>, ghost all: seq<Row<T>>, hash: int -> nat)
    returns (rows: seq<Ref>, dirs: seq<Directory>, unique: bool)
    requires Partitioned(chunks, segments, all, hash)
    ensures IsHashed(chunks, rows, dirs, all, hash)
    ensures unique == Unique(all)
  {
    VisitedAll(chunks, segments, all, hash);
    UniquePartitions(chunks, segments, all, hash);
    var repeats;
    rows, dirs, repeats := BuildDirectories(chunks, segments, hash);
    unique := true !in repeats;
    RearrangedBy(chunks, rows, Visited(segments, PARTITIONS), all);
    forall k ensures KeyServed(chunks, rows, dirs[hash(k) % PARTITIONS], all, hash, k) {
      var p := hash(k) % PARTITIONS;
      assert HasPartition(chunks, segments[p], all, hash, p);
      DirectoryServes(chunks, rows, dirs[p], segments[p], all, hash, p, k);
    }
  }

  /** The build's keys are unique just when no partition repeats one. */
  lemma {:induction false} UniquePartitions<T>(
      chunks: seq<seq<Row<T>>>, segments: seq<seq<Segment>>, all: seq<Row<T>>, hash: int -> nat)
    requires Partitioned(chunks, segments, all, hash)
    ensures forall p: nat | p < PARTITIONS :: Forward(segments[p])
    ensures Unique(all) <==> forall p: nat | p < PARTITIONS :: !Repeats(SegmentsRefs(segments[p]), RefKey(chunks))
  {
    forall p: nat | p < PARTITIONS
      ensures Forward(segments[p])
    {
      assert HasPartition(chunks, segments[p], all, hash, p);
    }
    UniqueByKey(all);
    if k :| |Select(all, RowKey(), k)| > 1 {
      KeyInPartition(chunks, segments[hash(k) % PARTITIONS], all, hash, hash(k) % PARTITIONS, k);
      assert Repeats(SegmentsRefs(segments[hash(k) % PARTITIONS]), RefKey(chunks));
    }
    if p: nat :| p < PARTITIONS && Repeats(SegmentsRefs(segments[p]), RefKey(chunks)) {
      var k :| |Select(SegmentsRefs(segments[p]), RefKey(chunks), k)| > 1;
      assert HasPartition(chunks, segments[p], all, hash, p);
      KeyInPartition(chunks, segments[p], all, hash, p, k);
    }
  }

  lemma {:induction false} KeyInPartition<T>(
      chunks: seq<seq<Row<T>>>, segments: seq<Segment>, all: seq<Row<T>>, hash: int -> nat, p: nat, k: int)
    requires HasPartition(chunks, segments, all, hash, p)
    ensures |Select(SegmentsRefs(segments), RefKey(chunks), k)| == if hash(k) % PARTITIONS == p
      then |Select(all, RowKey(), k)| else 0
  {
    RowsSelect(chunks, SegmentsRefs(segments), k);
    PartitionKey(all, hash, p, k);
  }

  lemma {:induction false} AppendedKeys(
      rows: seq<Ref>, more: seq<Ref>, visited: seq<Ref>, entries: seq<Ref>, f: Ref -> int)
    requires rows <= more
    requires forall k :: Select(rows, f, k) == Select(visited, f, k)
    requires forall k :: Select(more[|rows|..], f, k) == Select(entries, f, k)
    ensures forall k :: Select(more, f, k) == Select(visited + entries, f, k)
  {
    forall k ensures Select(more, f, k) == Select(visited + entries, f, k) {
      assert more == rows + more[|rows|..];
      SelectConcat(rows, more[|rows|..], f, k);
      SelectConcat(visited, entries, f, k);
    }
  }

  // ---- the table ----

  ghost predicate IsTable<T>(t: Table<T>, all: seq<Row<T>>, hash: int -> nat) {
    && t.unique == Unique(all)
    && Rearranged(t.chunks, t.rows, all)
    && match t.index
       case Direct(min, span, offsets) =>
         && Int64(min) && Int64(min + span) && KeysWithin(all, min, min + span)
         && IsDirect(t.chunks, t.rows, offsets, min, span, all)
       case Hashed(dirs) => IsHashed(t.chunks, t.rows, dirs, all, hash)
  }

  /** Which layout a build gets: direct for one dense integer key, or a sparser one the budget can afford. */
  predicate ChoosesDirect(candidate: bool, rows: nat, span: nat, affordable: bool) {
    candidate && rows > 0
    && (span < DIRECT_SLOTS_PER_ROW * rows || (span < SPARSE_DIRECT_SLOTS_PER_ROW * rows && affordable))
  }

  /** The table of a whole merge; `affordable` is what the budget says of a sparse index. */
  method Build<T>(
      m: Merged<T>, ghost lists: seq<seq<Row<T>>>, hash: int -> nat, candidate: bool, affordable: bool)
    returns (t: Table<T>)
    requires IsMerge(m, lists, hash) && (candidate ==> Int64Keys(Flat(lists)))
    ensures IsTable(t, Flat(lists), hash) && t.nulls == m.nulls && t.inputRows == m.inputRows
    ensures t.index.Direct? == ChoosesDirect(candidate, m.numRows, Wrap(m.maxKey - m.minKey), affordable)
  {
    ghost var all := Flat(lists);
    MergePartitions(m, lists, hash);
    var chunks, span := Chunks(m.pieces), Wrap(m.maxKey - m.minKey);
    if ChoosesDirect(candidate, m.numRows, span, affordable) {
      KeyRange(all, m.minKey, m.maxKey);
      var rows, offsets, unique := BuildDirect(chunks, m.segments, m.minKey, m.maxKey, all, hash);
      t := Table(chunks, rows, Direct(m.minKey, span, offsets), unique, m.nulls, m.inputRows);
    } else {
      var rows, dirs, unique := BuildHashed(chunks, m.segments, all, hash);
      t := Table(chunks, rows, Hashed(dirs), unique, m.nulls, m.inputRows);
    }
  }

  lemma {:induction false} KeyRange<T>(all: seq<Row<T>>, min: int, max: int)
    requires all != [] && KeysWithin(all, min, max) && Int64Keys(all)
    ensures Int64(min) && Int64(max) && min <= max && Wrap(max - min) == max - min
  {
    var i :| 0 <= i < |all| && all[i].key == min;
    var j :| 0 <= j < |all| && all[j].key == max;
  }

  // ---- the probe ----

  /** The build rows a probe key meets: none for a NULL key or an unselected row. */
  ghost function Meets<T>(all: seq<Row<T>>, key: Option<int>): seq<Row<T>> {
    match key
    case None => []
    case Some(k) => Select(all, RowKey(), k)
  }

  /** `m` is the range of the rows a probe key meets, in input order; an empty range when it meets none. */
  ghost predicate Finds<T>(t: Table<T>, m: Matches, all: seq<Row<T>>, key: Option<int>) {
    && m.begin <= m.end <= |t.rows|
    && RefsOk(t.chunks, t.rows[m.begin..m.end])
    && Rows(t.chunks, t.rows[m.begin..m.end]) == Meets(all, key)
  }

  method FindDirect<T>(t: Table<T>, ghost all: seq<Row<T>>, k: int) returns (m: Matches)
    requires t.index.Direct? && Int64(k)
    requires Int64(t.index.min) && Int64(t.index.min + t.index.span)
    requires KeysWithin(all, t.index.min, t.index.min + t.index.span)
    requires IsDirect(t.chunks, t.rows, t.index.offsets, t.index.min, t.index.span, all)
    ensures Finds(t, m, all, Some(k))
  {
    var offsets, index := t.index.offsets, Wrap(k - t.index.min);
    DirectAnswer(t.chunks, t.rows, offsets, t.index.min, t.index.span, all, k);
    m := Matches(0, 0);
    if index <= t.index.span {
      if offsets[index] != offsets[index + 1] {
        m := Matches(offsets[index], offsets[index + 1]);
      }
    }
  }

  /** A key's entry delimits its rows; a key without an entry has none. */
  lemma {:induction false} DirectAnswer<T>(
      chunks: seq<seq<Row<T>>>, rows: seq<Ref>, offsets: seq<nat>, min: int, span: nat, all: seq<Row<T>>, k: int)
    requires Int64(k) && Int64(min) && Int64(min + span) && KeysWithin(all, min, min + span)
    requires IsDirect(chunks, rows, offsets, min, span, all)
    ensures var index := Wrap(k - min);
      && (index <= span ==>
            (&& offsets[index] <= offsets[index + 1] <= |rows|
                && RefsOk(chunks, rows[offsets[index]..offsets[index + 1]])
             && Rows(chunks, rows[offsets[index]..offsets[index + 1]]) == Select(all, RowKey(), k)))
      && (index > span ==> Select(all, RowKey(), k) == [])
  {
    var index := Wrap(k - min);
    OutsideRange(k, min, min + span);
    OutsideRange(min + span, min, min + span);
    if index <= span {
      assert Entry(chunks, rows, offsets, min, all, index);
    } else {
      SelectNone(all, RowKey(), k);
    }
  }

  method FindHashed<T>(t: Table<T>, ghost all: seq<Row<T>>, hash: int -> nat, k: int) returns (m: Matches)
    requires t.index.Hashed? && |t.index.directories| == PARTITIONS
    requires KeyServed(t.chunks, t.rows, t.index.directories[hash(k) % PARTITIONS], all, hash, k)
    ensures Finds(t, m, all, Some(k))
  {
    var h := hash(k);
    var dir := t.index.directories[h % PARTITIONS];
    m := Matches(0, 0);
    if dir.slots == [] {
      return;
    }
    var b := BucketOf(h, dir.buckets);
    ghost var slots := dir.slots[dir.starts[b]..dir.starts[b + 1]];
    var s := dir.starts[b];
    while s < dir.starts[b + 1]
      invariant dir.starts[b] <= s <= dir.starts[b + 1]
      invariant forall i | 0 <= i < s - dir.starts[b] :: RefKey(t.chunks)(t.rows[slots[i].begin]) != k
    {
      var slot := dir.slots[s];
      assert slots[s - dir.starts[b]] == slot && SlotServes(t.chunks, t.rows, slot, all, hash, k);
      if slot.hash == h && RefKey(t.chunks)(t.rows[slot.begin]) == k {
        return Matches(slot.begin, slot.end);
      }
      s := s + 1;
    }
    assert !HasSlot(t.rows, slots, RefKey(t.chunks), k);
  }

  /** The matches of a probe batch's rows. */
  method Find<T>(
      t: Table<T>, ghost all: seq<Row<T>>, hash: int -> nat, keys: seq<Option<int>>, selected: seq<bool>)
    returns (out: seq<Matches>)
    requires IsTable(t, all, hash) && |selected| == |keys|
    requires t.index.Direct? ==> forall i | 0 <= i < |keys| && keys[i].Some? :: Int64(keys[i].value)
    ensures |out| == |keys|
    ensures forall i | 0 <= i < |keys| :: Finds(t, out[i], all, if selected[i] then keys[i] else None)
  {
    out := [];
    for i := 0 to |keys|
      invariant |out| == i
      invariant forall j | 0 <= j < i :: Finds(t, out[j], all, if selected[j] then keys[j] else None)
    {
      var m := Matches(0, 0);
      if selected[i] && keys[i].Some? {
        if t.index.Direct? {
          m := FindDirect(t, all, keys[i].value);
        } else {
          m := FindHashed(t, all, hash, keys[i].value);
        }
      }
      out := out + [m];
    }
  }

  /** The table holds every build row once, so a position of `rows` names one row. */
  lemma {:induction false} TableHoldsRows<T>(t: Table<T>, all: seq<Row<T>>, hash: int -> nat)
    requires IsTable(t, all, hash)
    ensures RefsOk(t.chunks, t.rows) && multiset(Rows(t.chunks, t.rows)) == multiset(all)
  {
    SameSelections(Rows(t.chunks, t.rows), all, RowKey());
  }
}
