/**
 The merge of a join build's parts (src/exec/join_table.cc, JoinTableBuilder): parts arrive in any
 order and are released in part order, so the segments depend on the rows alone.
 */
module JoinBuilder {
  import opened Options
  import opened Lists
  import opened JoinRows
  import opened JoinBuild
  import opened JoinSegments

  /** The rows of the first `n` parts, batch by batch. */
  function ListsOf<T>(inputs: seq<seq<seq<Input<T>>>>, n: nat): seq<seq<Row<T>>>
    requires n <= |inputs|
  {
    if n == 0 then [] else ListsOf(inputs, n - 1) + Kept(inputs[n - 1])
  }

  /** The NULL-keyed rows of the first `n` parts. */
  function NullsOf<T>(inputs: seq<seq<seq<Input<T>>>>, n: nat): seq<T>
    requires n <= |inputs|
  {
    if n == 0 then [] else NullsOf(inputs, n - 1) + AllNulls(inputs[n - 1])
  }

  /** Releasing more parts never makes the rows fewer. */
  lemma {:induction false} ListsGrow<T>(inputs: seq<seq<seq<Input<T>>>>, m: nat, n: nat)
    requires m <= n <= |inputs|
    ensures |Flat(ListsOf(inputs, m))| <= |Flat(ListsOf(inputs, n))|
    decreases n
  {
    if m < n {
      ListsGrow(inputs, m, n - 1);
      FlatConcat(ListsOf(inputs, n - 1), Kept(inputs[n - 1]));
    }
  }

  lemma {:induction false} PiecesConcat<T>(
      a: seq<Piece<T>>, la: seq<seq<Row<T>>>, b: seq<Piece<T>>, lb: seq<seq<Row<T>>>, hash: int -> nat)
    requires ArePieces(a, la, hash) && ArePieces(b, lb, hash)
    ensures ArePieces(a + b, la + lb, hash)
  {
    forall c | 0 <= c < |a + b| ensures IsPiece((a + b)[c], (la + lb)[c], hash) {
      if c < |a| { assert IsPiece(a[c], la[c], hash); } else { assert IsPiece(b[c - |a|], lb[c - |a|], hash); }
    }
  }

  lemma {:induction false} Widths<T>(pieces: seq<Piece<T>>, lists: seq<seq<Row<T>>>, hash: int -> nat)
    requires ArePieces(pieces, lists, hash)
    ensures forall c | 0 <= c < |pieces| :: |pieces[c].start| == PARTITIONS + 1
  {
    forall c | 0 <= c < |pieces|
      ensures |pieces[c].start| == PARTITIONS + 1
    {
      assert IsPiece(pieces[c], lists[c], hash);
    }
  }

  /** What releasing parts has added up to. */
  datatype Merged<T> = Merged(pieces: seq<Piece<T>>, segments: seq<seq<Segment>>, nulls: seq<T>,
                              numRows: nat, inputRows: nat, minKey: int, maxKey: int)

  /** The merge of parts whose rows are `lists`. */
  ghost predicate IsMerge<T>(m: Merged<T>, lists: seq<seq<Row<T>>>, hash: int -> nat) {
    && ArePieces(m.pieces, lists, hash)
    && |m.segments| == PARTITIONS
    && (forall p: nat | p < PARTITIONS :: m.segments[p] == SegmentsOf(m.pieces, 0, p))
    && m.numRows == |Flat(lists)| <= MAX_ROWS
    && KeysWithin(Flat(lists), m.minKey, m.maxKey)
  }

  lemma {:induction false} MergePartitions<T>(m: Merged<T>, lists: seq<seq<Row<T>>>, hash: int -> nat)
    requires IsMerge(m, lists, hash)
    ensures Partitioned(Chunks(m.pieces), m.segments, Flat(lists), hash)
  {
    forall p: nat | p < PARTITIONS ensures HasPartition(Chunks(m.pieces), m.segments[p], Flat(lists), hash, p) {
      PartitionRows(m.pieces, lists, hash, p);
    }
  }

  lemma {:induction false} SegmentsNone<T>(pieces: seq<Piece<T>>, first: nat, p: nat)
    requires p < PARTITIONS
    ensures SegmentsOf(pieces[..0], first, p) == []
  {
  }

  lemma {:induction false} SegmentsLast<T>(pieces: seq<Piece<T>>, first: nat, c: nat, p: nat)
    requires p < PARTITIONS && c < |pieces| && forall i | 0 <= i < |pieces| :: |pieces[i].start| == PARTITIONS + 1
    ensures var begin, end := pieces[c].start[p], pieces[c].start[p + 1];
      SegmentsOf(pieces[..c + 1], first, p) == SegmentsOf(pieces[..c], first, p) + if end > begin
          then [Segment(first + c, begin, end)] else []
  {
    assert pieces[..c + 1][..c] == pieces[..c];
  }

  /** Adds a part's runs to every partition's segments (JoinTableBuilder::Merge). */
  method MergeSegments<T>(m: Merged<T>, part: Part<T>) returns (segments: seq<seq<Segment>>)
    requires forall c | 0 <= c < |m.pieces| :: |m.pieces[c].start| == PARTITIONS + 1
    requires |m.segments| == PARTITIONS
    requires forall p: nat | p < PARTITIONS :: m.segments[p] == SegmentsOf(m.pieces, 0, p)
    requires forall c | 0 <= c < |part.pieces| :: |part.pieces[c].start| == PARTITIONS + 1
    ensures |segments| == PARTITIONS
    ensures forall p: nat | p < PARTITIONS :: segments[p] == SegmentsOf(m.pieces + part.pieces, 0, p)
  {
    hide SegmentsOf;
    segments := [];
    for p := 0 to PARTITIONS
      invariant |segments| == p
      invariant forall q: nat | q < p :: segments[q] == SegmentsOf(m.pieces + part.pieces, 0, q)
    {
      var runs: seq<Segment> := [];
      var chunk := |m.pieces|;
      SegmentsNone(part.pieces, |m.pieces|, p);
      for c := 0 to |part.pieces|
        invariant chunk == |m.pieces| + c && runs == SegmentsOf(part.pieces[..c], |m.pieces|, p)
      {
        SegmentsLast(part.pieces, |m.pieces|, c, p);
        var begin, end := part.pieces[c].start[p], part.pieces[c].start[p + 1];
        if end > begin {
          runs := runs + [Segment(chunk, begin, end)];
        }
        chunk := chunk + 1;
      }
      assert part.pieces[..|part.pieces|] == part.pieces;
      SegmentsConcat(m.pieces, part.pieces, 0, p);
      segments := segments + [m.segments[p] + runs];
    }
  }

  method Release<T>(m: Merged<T>, part: Part<T>, ghost lists: seq<seq<Row<T>>>, ghost batches: seq<seq<Input<T>>>,
                    hash: int -> nat, keepNulls: bool) returns (ok: bool, r: Merged<T>)
    requires IsMerge(m, lists, hash) && IsPart(part, batches, hash, keepNulls)
    ensures ok == (m.numRows + part.numRows <= MAX_ROWS)
    ensures ok ==>
      IsMerge(r, lists + Kept(batches), hash) && r.pieces == m.pieces + part.pieces && r.nulls == m.nulls + part.nulls
    ensures ok ==> r.inputRows == m.inputRows + part.inputRows
    ensures !ok ==> r == m
  {
    hide ArePieces;
    hide KeysWithin;
    hide Kept;
    hide Flat;
    hide SegmentsOf;
    ok, r := m.numRows + part.numRows <= MAX_ROWS, m;
    if ok {
      PiecesConcat(m.pieces, lists, part.pieces, Kept(batches), hash);
      FlatConcat(lists, Kept(batches));
      var min, max := m.minKey, m.maxKey;
      KeysWithinBoth(Flat(lists), min, max, Flat(Kept(batches)), part.minKey, part.maxKey);
      if part.numRows > 0 {
        min := if m.numRows == 0 || part.minKey < min then part.minKey else min;
        max := if m.numRows == 0 || part.maxKey > max then part.maxKey else max;
      }
      Widths(m.pieces, lists, hash);
      Widths(part.pieces, Kept(batches), hash);
      var segments := MergeSegments(m, part);
      r := Merged(m.pieces + part.pieces, segments, m.nulls + part.nulls,
                  m.numRows + part.numRows, m.inputRows + part.inputRows, min, max);
    }
  }

  datatype Status = Ok | AfterFailure | AfterFinish | NoSuchPart | AddedTwice | TooManyRows | PartMissing

  lemma {:induction false} SameLists<T>(a: seq<seq<seq<Input<T>>>>, b: seq<seq<seq<Input<T>>>>, n: nat)
    requires n <= |a| && n <= |b| && forall i | 0 <= i < n :: a[i] == b[i]
    ensures ListsOf(a, n) == ListsOf(b, n) && NullsOf(a, n) == NullsOf(b, n)
  {
    if n > 0 { SameLists(a, b, n - 1); }
  }

  /** The NULL-keyed rows are counted, and retained when asked for. */
  ghost predicate HasNulls<T>(m: Merged<T>, nulls: seq<T>, keepNulls: bool) {
    m.inputRows == m.numRows + |nulls| && m.nulls == if keepNulls then nulls else []
  }

  lemma {:induction false} MoreNulls<T>(
      m: Merged<T>, nulls: seq<T>, r: Merged<T>, part: Part<T>, batches: seq<seq<Input<T>>>, hash: int -> nat,
      keepNulls: bool)
    requires HasNulls(m, nulls, keepNulls) && IsPart(part, batches, hash, keepNulls)
    requires r.nulls == m.nulls + part.nulls && r.inputRows == m.inputRows + part.inputRows
    requires r.numRows == m.numRows + part.numRows
    ensures HasNulls(r, nulls + AllNulls(batches), keepNulls)
  {
  }

  lemma {:induction false} NumRows<T>(m: Merged<T>, lists: seq<seq<Row<T>>>, hash: int -> nat)
    requires IsMerge(m, lists, hash)
    ensures m.numRows == |Flat(lists)| <= MAX_ROWS
  {
  }

  lemma {:induction false} RowsCount<T>(
      m: Merged<T>, lists: seq<seq<Row<T>>>, part: Part<T>, batches: seq<seq<Input<T>>>, hash: int -> nat,
      keepNulls: bool)
    requires IsMerge(m, lists, hash) && IsPart(part, batches, hash, keepNulls)
    ensures |Flat(lists + Kept(batches))| == m.numRows + part.numRows
  {
    FlatConcat(lists, Kept(batches));
  }

  class JoinTableBuilder<T> {
    const hash: int -> nat
    const keepNulls: bool
    const numParts: nat
    var parts: seq<Option<Part<T>>>
    var nextPart: nat
    var merged: Merged<T>
    var failed: bool
    var finished: bool
    ghost var inputs: seq<seq<seq<Input<T>>>>  // each added part's batches

    constructor (hash: int -> nat, keepNulls: bool, numParts: nat)
      ensures this.hash == hash && this.keepNulls == keepNulls && this.numParts == numParts
      ensures Valid() && CaughtUp() && !failed && !finished && forall i | 0 <= i < |parts| :: parts[i].None?
    {
      this.hash, this.keepNulls, this.numParts := hash, keepNulls, numParts;
      parts, inputs := seq(numParts, _ => None), seq(numParts, _ => []);
      nextPart, failed, finished := 0, false, false;
      merged := Merged([], seq(PARTITIONS, _ => []), [], 0, 0, 0, 0);
    }

    /** Every part before nextPart is released, in order, and no other. */
    ghost predicate Valid()
      reads this
    {
      && |parts| == numParts == |inputs|
      && nextPart <= numParts
      && (forall i | 0 <= i < numParts && parts[i].Some? :: IsPart(parts[i].value, inputs[i], hash, keepNulls))
      && (forall i | 0 <= i < nextPart :: parts[i].Some?)
      && (!failed ==>
          IsMerge(merged, ListsOf(inputs, nextPart), hash) && HasNulls(merged, NullsOf(inputs, nextPart), keepNulls))
      && (failed ==> Released() > MAX_ROWS)
    }

    /** The rows of the parts released so far, the one that failed with them. */
    ghost function Released(): nat
      reads this
      requires nextPart <= |inputs|
    {
      |Flat(ListsOf(inputs, nextPart))|
    }

    /** Whether every part that can be released is. */
    ghost predicate CaughtUp()
      reads this
      requires Valid()
    {
      failed || nextPart == numParts || parts[nextPart].None?
    }

    /** Releases the next part: it counts as released whether or not its rows fit. */
    method ReleaseNext()
      requires Valid() && !failed && nextPart < numParts && parts[nextPart].Some?
      modifies this`nextPart, this`merged, this`failed
      ensures Valid() && nextPart == old(nextPart) + 1
      ensures failed <==> Released() > MAX_ROWS
    {
      hide IsMerge;
      hide IsPart;
      hide HasNulls;
      hide Flat;
      ghost var lists := ListsOf(inputs, nextPart);
      ghost var nulls := NullsOf(inputs, nextPart);
      var part := parts[nextPart].value;
      var ok, m := Release(merged, part, lists, inputs[nextPart], hash, keepNulls);
      RowsCount(merged, lists, part, inputs[nextPart], hash, keepNulls);
      if ok {
        NumRows(m, lists + Kept(inputs[nextPart]), hash);
        MoreNulls(merged, nulls, m, part, inputs[nextPart], hash, keepNulls);
      }
      nextPart, merged, failed := nextPart + 1, m, !ok;
    }

    /** Puts a part in its slot: the parts released so far stay what they are. */
    method Store(part: nat, rows: Part<T>, ghost batches: seq<seq<Input<T>>>)
      requires Valid() && !failed && part < numParts && parts[part].None? && IsPart(rows, batches, hash, keepNulls)
      modifies this`parts, this`inputs
      ensures Valid() && parts == old(parts)[part := Some(rows)] && inputs == old(inputs)[part := batches]
    {
      hide IsMerge;
      hide IsPart;
      hide HasNulls;
      SameLists(inputs, inputs[part := batches], nextPart);
      parts, inputs := parts[part := Some(rows)], inputs[part := batches];
    }

    /** Takes part `part`, and releases the parts that are now in order. */
    method Add(part: int, rows: Part<T>, ghost batches: seq<seq<Input<T>>>) returns (status: Status)
      requires Valid() && CaughtUp() && IsPart(rows, batches, hash, keepNulls)
      modifies this
      ensures Valid() && CaughtUp() && finished == old(finished)
      ensures status == AfterFailure <==> old(failed)
      ensures status == AfterFinish <==> !old(failed) && old(finished)
      ensures status == NoSuchPart <==> !old(failed) && !old(finished) && !(0 <= part < numParts)
      ensures status == AddedTwice <==> !old(failed) && !old(finished) && 0 <= part < numParts && old(parts)[part].Some?
      ensures status != PartMissing
      ensures failed <==> old(failed) || status == TooManyRows
      ensures status == TooManyRows <==> !old(failed) && Released() > MAX_ROWS
      ensures status == Ok || status == TooManyRows ==>
        (0 <= part < numParts && old(parts)[part].None?
         && parts == old(parts)[part := Some(rows)] && inputs == old(inputs)[part := batches])
      ensures !(status == Ok || status == TooManyRows) ==>
        (parts == old(parts) && inputs == old(inputs) && merged == old(merged) && nextPart == old(nextPart))
    {
      hide IsMerge;
      hide IsPart;
      hide HasNulls;
      if failed { return AfterFailure; }
      NumRows(merged, ListsOf(inputs, nextPart), hash);
      if finished { return AfterFinish; }
      if part < 0 || part >= numParts { return NoSuchPart; }
      if parts[part].Some? { return AddedTwice; }
      Store(part, rows, batches);
      NumRows(merged, ListsOf(inputs, nextPart), hash);
      while nextPart < numParts && parts[nextPart].Some?
        invariant Valid() && !failed && Released() <= MAX_ROWS
        invariant parts == old(parts)[part := Some(rows)] && inputs == old(inputs)[part := batches]
        invariant finished == old(finished)
        decreases numParts - nextPart
      {
        ReleaseNext();
        if failed {
          return TooManyRows;
        }
      }
      return Ok;
    }

    /** Whether the build is whole: then the merge is that of all parts, whatever order they came in. */
    method CheckFinish() returns (status: Status)
      requires Valid() && CaughtUp()
      modifies this`finished
      ensures finished
      ensures status == Ok <==> !old(finished) && !failed && nextPart == numParts
      ensures status == Ok ==> IsMerge(merged, ListsOf(inputs, numParts), hash)
      ensures status == Ok ==> HasNulls(merged, NullsOf(inputs, numParts), keepNulls)
      ensures !old(finished) && !failed ==> (status == Ok <==> forall i | 0 <= i < numParts :: parts[i].Some?)
      ensures failed ==> |Flat(ListsOf(inputs, numParts))| > MAX_ROWS
    {
      hide IsMerge;
      hide IsPart;
      hide HasNulls;
      ListsGrow(inputs, nextPart, numParts);
      status := if finished then AfterFinish else if failed then AfterFailure
                else if nextPart < numParts then PartMissing else Ok;
      finished := true;
      assert !failed && nextPart < numParts ==> parts[nextPart].None?;
    }
  }
}
