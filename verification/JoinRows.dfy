/** The rows of a join build and the references a join table keeps to them. */
module JoinRows {
  import opened Options
  import opened CountingSort

  const PARTITIONS: nat := 64

  /** One row of a build batch: its selection, its key (None where a key column is NULL) and the rest. */
  datatype Input<T> = Input(selected: bool, key: Option<int>, value: T)

  /** A selected build row with a key. */
  datatype Row<T> = Row(key: int, value: T)

  /** A row of a chunk (JoinRowRef). */
  datatype Ref = Ref(chunk: nat, row: nat)

  /** A run of one partition's rows in a chunk. */
  datatype Segment = Segment(chunk: nat, begin: nat, end: nat)

  /** One batch's rows in partition order: partition p's are rows[start[p]..start[p + 1]]. */
  datatype Piece<T> = Piece(rows: seq<Row<T>>, start: seq<nat>)

  function RowKey<T>(): Row<T> -> int {
    (r: Row<T>) => r.key
  }

  function PartOf<T>(hash: int -> nat): Row<T> -> int {
    (r: Row<T>) => hash(r.key) % PARTITIONS
  }

  /** The selected rows of a batch that have a key. */
  function Keyed<T>(batch: seq<Input<T>>): seq<Row<T>> {
    if batch == [] then []
    else
      var last := batch[|batch| - 1];
      Keyed(batch[..|batch| - 1]) + if last.selected && last.key.Some? then [Row(last.key.value, last.value)] else []
  }

  /** The selected rows of a batch whose key is NULL. */
  function NullKeyed<T>(batch: seq<Input<T>>): seq<T> {
    if batch == [] then []
    else
      var last := batch[|batch| - 1];
      NullKeyed(batch[..|batch| - 1]) + if last.selected && last.key.None? then [last.value] else []
  }

  lemma {:induction false} KeyedConcat<T>(a: seq<Input<T>>, b: seq<Input<T>>)
    ensures Keyed(a + b) == Keyed(a) + Keyed(b) && NullKeyed(a + b) == NullKeyed(a) + NullKeyed(b)
    decreases |b|
  {
    if b == [] {
      assert a + b == a;
    } else {
      var n := |b| - 1;
      KeyedConcat(a, b[..n]);
      assert (a + b)[..|a + b| - 1] == a + b[..n] && (a + b)[|a + b| - 1] == b[n];
    }
  }

  /** `piece` holds `rows` in partition order. */
  ghost predicate IsPiece<T>(piece: Piece<T>, rows: seq<Row<T>>, hash: int -> nat) {
    && Sorts(piece.rows, rows, PartOf(hash), PARTITIONS)
    && |piece.start| == PARTITIONS + 1
    && forall p: nat | p <= PARTITIONS :: piece.start[p] == Less(rows, PartOf(hash), p)
  }

  // ---- selections ----

  lemma {:induction false} SelectSame<T>(s: seq<T>, f: T -> int, a: int, g: T -> int, b: int)
    requires forall i | 0 <= i < |s| :: f(s[i]) == a <==> g(s[i]) == b
    ensures Select(s, f, a) == Select(s, g, b)
  {
    if s != [] {
      var front := s[..|s| - 1];
      assert forall i | 0 <= i < |front| :: front[i] == s[i];
      SelectSame(front, f, a, g, b);
    }
  }

  /** Selecting twice is selecting once where the second selection implies the first. */
  lemma {:induction false} SelectTwice<T>(s: seq<T>, f: T -> int, a: int, g: T -> int, b: int)
    requires forall i | 0 <= i < |s| :: g(s[i]) == b ==> f(s[i]) == a
    ensures Select(Select(s, f, a), g, b) == Select(s, g, b)
  {
    if s != [] {
      var front, last := s[..|s| - 1], s[|s| - 1];
      assert forall i | 0 <= i < |front| :: front[i] == s[i];
      SelectTwice(front, f, a, g, b);
      SelectConcat(Select(front, f, a), if f(last) == a then [last] else [], g, b);
      assert [last][..0] == [];
    }
  }

  lemma {:induction false} SelectNone<T>(s: seq<T>, f: T -> int, a: int)
    requires forall i | 0 <= i < |s| :: f(s[i]) != a
    ensures Select(s, f, a) == []
  {
    if s != [] {
      var front := s[..|s| - 1];
      assert forall i | 0 <= i < |front| :: front[i] == s[i];
      SelectNone(front, f, a);
    }
  }

  lemma {:induction false} SelectHas<T>(s: seq<T>, f: T -> int, a: int)
    ensures forall x | x in Select(s, f, a) :: f(x) == a && x in s
  {
    if s != [] {
      SelectHas(s[..|s| - 1], f, a);
      assert s == s[..|s| - 1] + [s[|s| - 1]];
    }
  }

  lemma {:induction false} SelectAll<T>(s: seq<T>, f: T -> int, a: int)
    requires forall i | 0 <= i < |s| :: f(s[i]) == a
    ensures Select(s, f, a) == s
  {
    if s != [] {
      var front := s[..|s| - 1];
      assert forall i | 0 <= i < |front| :: front[i] == s[i];
      SelectAll(front, f, a);
      assert s == front + [s[|s| - 1]];
    }
  }

  lemma {:induction false} SelectCount<T>(s: seq<T>, f: T -> int, x: T)
    ensures multiset(Select(s, f, f(x)))[x] == multiset(s)[x]
  {
    if s != [] {
      var front, last := s[..|s| - 1], s[|s| - 1];
      SelectCount(front, f, x);
      assert s == front + [last];
    }
  }

  /** Sequences with the same selections hold the same items. */
  lemma {:induction false} SameSelections<T>(a: seq<T>, b: seq<T>, f: T -> int)
    requires forall k :: Select(a, f, k) == Select(b, f, k)
    ensures multiset(a) == multiset(b)
  {
    forall x ensures multiset(a)[x] == multiset(b)[x] {
      SelectCount(a, f, x);
      SelectCount(b, f, x);
      assert Select(a, f, f(x)) == Select(b, f, f(x));
    }
  }

  // ---- sorted by bucket ----

  lemma {:induction false} SortedStep<T>(out: seq<T>, items: seq<T>, key: T -> int, c: nat, b: nat)
    requires Bucket(out, items, key, c)
    ensures Select(out[..Less(items, key, c + 1)], key, b)
         == Select(out[..Less(items, key, c)], key, b) + if b == c then Select(items, key, c) else []
  {
    var x, y := Less(items, key, c), Less(items, key, c + 1);
    assert out[..y] == out[..x] + out[x..y];
    SelectConcat(out[..x], out[x..y], key, b);
    OneBucket(items, key, c, b);
  }

  lemma {:induction false} SortedPrefix<T>(out: seq<T>, items: seq<T>, key: T -> int, n: nat, c: nat, b: nat)
    requires Sorts(out, items, key, n) && Less(items, key, 0) == 0 && c <= n
    ensures Less(items, key, c) <= |out|
    ensures Select(out[..Less(items, key, c)], key, b) == if b < c then Select(items, key, b) else []
  {
    if c > 0 {
      SortedPrefix(out, items, key, n, c - 1, b);
      assert Bucket(out, items, key, c - 1);
      SortedStep(out, items, key, c - 1, b);
    }
  }

  lemma {:induction false} OneBucket<T>(items: seq<T>, key: T -> int, c: int, b: int)
    ensures Select(Select(items, key, c), key, b) == if b == c then Select(items, key, c) else []
  {
    var bucket := Select(items, key, c);
    SelectHas(items, key, c);
    forall i | 0 <= i < |bucket| ensures key(bucket[i]) == c { assert bucket[i] in bucket; }
    if b == c { SelectAll(bucket, key, c); } else { SelectNone(bucket, key, b); }
  }

  /** A stable sort keeps every selection that lies in one bucket. */
  lemma {:induction false} SortKeeps<T>(out: seq<T>, items: seq<T>, key: T -> int, n: nat, g: T -> int, k: int, b: nat)
    requires Sorts(out, items, key, n) && InBuckets(items, key, n) && b < n
    requires forall i | 0 <= i < |items| :: g(items[i]) == k ==> key(items[i]) == b
    requires forall i | 0 <= i < |out| :: g(out[i]) == k ==> key(out[i]) == b
    ensures Select(out, g, k) == Select(items, g, k)
  {
    LessBounds(items, key, n);
    SortedPrefix(out, items, key, n, n, b);
    assert out[..|out|] == out;
    SelectTwice(out, key, b, g, k);
    SelectTwice(items, key, b, g, k);
  }

  /** A sort's items are in its input, and the other way round. */
  lemma {:induction false} SortedCount<T>(out: seq<T>, items: seq<T>, key: T -> int, n: nat)
    requires Sorts(out, items, key, n) && InBuckets(items, key, n)
    ensures forall i | 0 <= i < |out| :: out[i] in items && 0 <= key(out[i]) < n
  {
    LessBounds(items, key, n);
    forall i | 0 <= i < |out| ensures out[i] in items && 0 <= key(out[i]) < n {
      var b := BucketAt(items, key, n, i);
      assert Bucket(out, items, key, b);
      var x, y := Less(items, key, b), Less(items, key, b + 1);
      assert out[x..y][i - x] == out[i];
      SelectHas(items, key, b);
      assert out[i] in Select(items, key, b);
    }
  }

  lemma {:induction false} BucketAt<T>(items: seq<T>, key: T -> int, n: nat, i: nat) returns (b: nat)
    requires Less(items, key, 0) == 0 && i < Less(items, key, n)
    ensures b < n && Less(items, key, b) <= i < Less(items, key, b + 1)
  {
    b := n - 1;
    if Less(items, key, b) > i { b := BucketAt(items, key, b, i); }
  }

  /** Rows differ in their keys just when no key selects two. */
  lemma {:induction false} UniqueSelections<T>(s: seq<T>, f: T -> int)
    ensures (forall i, j | 0 <= i < j < |s| :: f(s[i]) != f(s[j])) <==> forall k :: |Select(s, f, k)| <= 1
  {
    forall i, j | 0 <= i < j < |s| && f(s[i]) == f(s[j])
      ensures |Select(s, f, f(s[i]))| >= 2
    {
      SelectPrefix(s, f, j, f(s[j]));
      assert s[..j][i] == s[i] && s[..j][..i] == s[..i];
      SelectPrefix(s[..j], f, i, f(s[i]));
    }
    if k :| |Select(s, f, k)| > 1 {
      var i := SelectAt(s, f, k, 0);
      var j := SelectAt(s, f, k, 1);
      assert i != j;
      assert f(s[i]) == f(s[j]);
      assert i < j || j < i;
    }
  }

  // ---- references ----

  ghost predicate RefOk<T>(chunks: seq<seq<Row<T>>>, ref: Ref) {
    ref.chunk < |chunks| && ref.row < |chunks[ref.chunk]|
  }

  ghost predicate RefsOk<T>(chunks: seq<seq<Row<T>>>, refs: seq<Ref>) {
    forall i | 0 <= i < |refs| :: RefOk(chunks, refs[i])
  }

  /** The key of a referenced row. */
  function RefKey<T>(chunks: seq<seq<Row<T>>>): Ref -> int {
    (r: Ref) => if r.chunk < |chunks| && r.row < |chunks[r.chunk]| then chunks[r.chunk][r.row].key else 0
  }

  /** The referenced rows. */
  function Rows<T>(chunks: seq<seq<Row<T>>>, refs: seq<Ref>): (rows: seq<Row<T>>)
    requires RefsOk(chunks, refs)
    ensures |rows| == |refs| && forall i | 0 <= i < |refs| :: rows[i] == chunks[refs[i].chunk][refs[i].row]
  {
    seq(|refs|, i requires 0 <= i < |refs| && RefsOk(chunks, refs) => chunks[refs[i].chunk][refs[i].row])
  }

  lemma {:induction false} RowsConcat<T>(chunks: seq<seq<Row<T>>>, a: seq<Ref>, b: seq<Ref>)
    requires RefsOk(chunks, a) && RefsOk(chunks, b)
    ensures RefsOk(chunks, a + b) && Rows(chunks, a + b) == Rows(chunks, a) + Rows(chunks, b)
  {
  }

  lemma {:induction false} RowsFront<T>(chunks: seq<seq<Row<T>>>, front: seq<Ref>, last: Ref)
    requires RefsOk(chunks, front + [last])
    ensures RefsOk(chunks, front) && RefOk(chunks, last)
    ensures Rows(chunks, front + [last]) == Rows(chunks, front) + [chunks[last.chunk][last.row]]
  {
    forall i | 0 <= i < |front| ensures RefOk(chunks, front[i]) { assert (front + [last])[i] == front[i]; }
    assert (front + [last])[|front|] == last;
  }

  lemma {:induction false} SelectOneMore<A>(front: seq<A>, last: A, f: A -> int, k: int)
    ensures Select(front + [last], f, k) == Select(front, f, k) + if f(last) == k then [last] else []
  {
    assert (front + [last])[..|front|] == front;
  }

  lemma {:induction false} RowsSelect<T>(chunks: seq<seq<Row<T>>>, refs: seq<Ref>, k: int)
    requires RefsOk(chunks, refs)
    ensures RefsOk(chunks, Select(refs, RefKey(chunks), k))
    ensures Rows(chunks, Select(refs, RefKey(chunks), k)) == Select(Rows(chunks, refs), RowKey(), k)
  {
    if refs != [] {
      var front, last := refs[..|refs| - 1], refs[|refs| - 1];
      assert refs == front + [last];
      RowsFront(chunks, front, last);
      RowsSelect(chunks, front, k);
      SelectOneMore(front, last, RefKey(chunks), k);
      SelectOneMore(Rows(chunks, front), chunks[last.chunk][last.row], RowKey(), k);
      var more: seq<Ref> := if RefKey(chunks)(last) == k then [last] else [];
      RowsConcat(chunks, Select(front, RefKey(chunks), k), more);
    }
  }
}
