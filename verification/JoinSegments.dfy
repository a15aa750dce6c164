/** The runs of one partition's rows over a build's chunks: all the partition's rows, in input order. */
module JoinSegments {
  import opened Lists
  import opened CountingSort
  import opened JoinRows
  import opened JoinBuild

  function SegmentRefs(segment: Segment): (refs: seq<Ref>)
    requires segment.begin <= segment.end
    ensures |refs| == segment.end - segment.begin
    ensures forall i | 0 <= i < |refs| :: refs[i] == Ref(segment.chunk, segment.begin + i)
  {
    seq(segment.end - segment.begin,
        i requires 0 <= i < segment.end - segment.begin => Ref(segment.chunk, segment.begin + i))
  }

  predicate Forward(segments: seq<Segment>) {
    forall s | s in segments :: s.begin <= s.end
  }

  /** The rows of the segments, segment by segment. */
  function SegmentsRefs(segments: seq<Segment>): seq<Ref>
    requires Forward(segments)
  {
    if segments == [] then []
    else SegmentsRefs(segments[..|segments| - 1]) + SegmentRefs(segments[|segments| - 1])
  }

  /** The runs of partition `p` in the pieces from chunk `first` on: a piece without a row of it has none. */
  function SegmentsOf<T>(pieces: seq<Piece<T>>, first: nat, p: nat): seq<Segment>
    requires p < PARTITIONS && forall c | 0 <= c < |pieces| :: |pieces[c].start| == PARTITIONS + 1
  {
    if pieces == [] then []
    else
      var n := |pieces| - 1;
      var begin, end := pieces[n].start[p], pieces[n].start[p + 1];
      SegmentsOf(pieces[..n], first, p) + if end > begin then [Segment(first + n, begin, end)] else []
  }

  lemma {:induction false} SegmentsConcat<T>(a: seq<Piece<T>>, b: seq<Piece<T>>, first: nat, p: nat)
    requires p < PARTITIONS
    requires forall c | 0 <= c < |a| :: |a[c].start| == PARTITIONS + 1
    requires forall c | 0 <= c < |b| :: |b[c].start| == PARTITIONS + 1
    ensures SegmentsOf(a + b, first, p) == SegmentsOf(a, first, p) + SegmentsOf(b, first + |a|, p)
  {
    if b == [] {
      assert a + b == a;
    } else {
      var front := b[..|b| - 1];
      SegmentsConcat(a, front, first, p);
      assert (a + b)[..|a + b| - 1] == a + front && (a + b)[|a + b| - 1] == b[|b| - 1];
    }
  }

  /** One piece's run of a partition, as zero or one segments. */
  function RunOf<T>(piece: Piece<T>, chunk: nat, p: nat): (segments: seq<Segment>)
    requires p < PARTITIONS && |piece.start| == PARTITIONS + 1
    ensures Forward(segments)
  {
    if piece.start[p + 1] > piece.start[p] then [Segment(chunk, piece.start[p], piece.start[p + 1])] else []
  }

  lemma {:induction false} RunRows<T>(
      chunks: seq<seq<Row<T>>>, chunk: nat, piece: Piece<T>, rows: seq<Row<T>>, hash: int -> nat, p: nat)
    requires p < PARTITIONS && IsPiece(piece, rows, hash) && chunk < |chunks| && chunks[chunk] == piece.rows
    ensures RefsOk(chunks, SegmentsRefs(RunOf(piece, chunk, p)))
    ensures Rows(chunks, SegmentsRefs(RunOf(piece, chunk, p))) == Select(rows, PartOf(hash), p)
  {
    assert Bucket(piece.rows, rows, PartOf(hash), p);
    if piece.start[p + 1] > piece.start[p] {
      var segment := Segment(chunk, piece.start[p], piece.start[p + 1]);
      SegmentRows(chunks, segment);
      assert [segment][..0] == [];
      assert SegmentsRefs([segment]) == SegmentRefs(segment);
    }
  }

  lemma {:induction false} RefsConcat(a: seq<Segment>, b: seq<Segment>)
    requires Forward(a) && Forward(b) && |b| <= 1
    ensures Forward(a + b) && SegmentsRefs(a + b) == SegmentsRefs(a) + SegmentsRefs(b)
  {
    if b == [] {
      assert a + b == a;
    } else {
      assert (a + b)[..|a + b| - 1] == a && (a + b)[|a + b| - 1] == b[0];
      assert b[..|b| - 1] == [] && SegmentsRefs(b) == SegmentRefs(b[0]);
    }
  }

  /** The segments of a partition refer to all its rows, in input order. */
  lemma {:induction false} PartitionRows<T>(pieces: seq<Piece<T>>, lists: seq<seq<Row<T>>>, hash: int -> nat, p: nat)
    requires p < PARTITIONS && ArePieces(pieces, lists, hash)
    ensures Forward(SegmentsOf(pieces, 0, p))
    ensures RefsOk(Chunks(pieces), SegmentsRefs(SegmentsOf(pieces, 0, p)))
    ensures Rows(Chunks(pieces), SegmentsRefs(SegmentsOf(pieces, 0, p))) == Select(Flat(lists), PartOf(hash), p)
  {
    if pieces != [] {
      var n := |pieces| - 1;
      var front, chunks := pieces[..n], Chunks(pieces);
      forall c | 0 <= c < n
        ensures IsPiece(front[c], lists[..n][c], hash)
      {
        assert IsPiece(pieces[c], lists[c], hash);
      }
      PartitionRows(front, lists[..n], hash, p);
      var before, run := SegmentsOf(front, 0, p), RunOf(pieces[n], n, p);
      MoreChunks(Chunks(front), chunks, SegmentsRefs(before));
      assert IsPiece(pieces[n], lists[n], hash);
      RunRows(chunks, n, pieces[n], lists[n], hash, p);
      assert SegmentsOf(pieces, 0, p) == before + run;
      RefsConcat(before, run);
      RowsConcat(chunks, SegmentsRefs(before), SegmentsRefs(run));
      SelectConcat(Flat(lists[..n]), lists[n], PartOf(hash), p);
    }
  }

  lemma {:induction false} MoreChunks<T>(a: seq<seq<Row<T>>>, b: seq<seq<Row<T>>>, refs: seq<Ref>)
    requires a <= b && RefsOk(a, refs)
    ensures RefsOk(b, refs) && Rows(b, refs) == Rows(a, refs)
  {
    forall i | 0 <= i < |refs| ensures RefOk(b, refs[i]) { assert RefOk(a, refs[i]); }
  }

  lemma {:induction false} SegmentRows<T>(chunks: seq<seq<Row<T>>>, segment: Segment)
    requires segment.chunk < |chunks| && segment.begin <= segment.end <= |chunks[segment.chunk]|
    ensures RefsOk(chunks, SegmentRefs(segment))
    ensures Rows(chunks, SegmentRefs(segment)) == chunks[segment.chunk][segment.begin..segment.end]
  {
  }

  /** The segments refer to all the rows of partition `p`, in input order. */
  ghost predicate HasPartition<T>(
      chunks: seq<seq<Row<T>>>, segments: seq<Segment>, all: seq<Row<T>>, hash: int -> nat, p: nat)
  {
    && Forward(segments)
    && RefsOk(chunks, SegmentsRefs(segments))
    && Rows(chunks, SegmentsRefs(segments)) == Select(all, PartOf(hash), p)
  }

  ghost predicate Partitioned<T>(
      chunks: seq<seq<Row<T>>>, segments: seq<seq<Segment>>, all: seq<Row<T>>, hash: int -> nat)
  {
    |segments| == PARTITIONS && forall p: nat | p < PARTITIONS :: HasPartition(chunks, segments[p], all, hash, p)
  }
}
