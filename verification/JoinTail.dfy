/**
 The build rows a join emits once its probe is done (src/exec/hash_join.cc, BuildRowEmitter): those
 its marks select, or those they do not and then the ones with a NULL key.
 */
module JoinTail {
  import opened Options
  import opened Lists
  import opened JoinRows
  import opened NestedLoop
  import opened JoinWindows

  /** The build rows from position `i` on that come out. */
  function TailFrom<P, T>(rows: seq<Row<T>>, marks: set<nat>, unmatched: bool, i: nat): seq<OutRow<P, T>>
    requires i <= |rows|
    decreases |rows| - i
  {
    if i == |rows| then []
    else if (i in marks) != unmatched then [BuildRow(rows[i])] + TailFrom(rows, marks, unmatched, i + 1)
    else TailFrom(rows, marks, unmatched, i + 1)
  }

  function NullRows<P, T>(values: seq<T>): (rows: seq<OutRow<P, T>>)
    ensures |rows| == |values| && forall i | 0 <= i < |values| :: rows[i] == NullRow(values[i])
  {
    seq(|values|, i requires 0 <= i < |values| => NullRow(values[i]))
  }

  /** The NULL-key rows from row `r` of chunk `c` on. */
  function NullsFrom<T>(chunks: seq<seq<T>>, c: nat, r: nat): seq<T>
    requires c < |chunks| ==> r <= |chunks[c]|
    decreases |chunks| - c
  {
    if c >= |chunks| then [] else chunks[c][r..] + NullsFrom(chunks, c + 1, 0)
  }

  lemma {:induction false} NullRowsConcat<P, T>(a: seq<T>, b: seq<T>)
    ensures NullRows<P, T>(a + b) == NullRows<P, T>(a) + NullRows<P, T>(b)
  {
  }

  lemma {:induction false} NullsStep<P, T>(chunks: seq<seq<T>>, c: nat, r: nat, count: nat)
    requires c < |chunks| && r + count <= |chunks[c]|
    ensures NullRows<P, T>(NullsFrom(chunks, c, r))
      == NullRows<P, T>(chunks[c][r..r + count]) + NullRows<P, T>(NullsFrom(chunks, c, r + count))
  {
    var slice, rest := chunks[c][r..r + count], chunks[c][r + count..];
    assert chunks[c][r..] == slice + rest;
    Regroup(slice, rest, NullsFrom(chunks, c + 1, 0));
    NullRowsConcat<P, T>(slice, NullsFrom(chunks, c, r + count));
  }

  lemma {:induction false} NullsNext<T>(chunks: seq<seq<T>>, c: nat)
    requires c < |chunks|
    ensures NullsFrom(chunks, c, |chunks[c]|) == NullsFrom(chunks, c + 1, 0)
  {
  }

  lemma {:induction false} NullsEnd<T>(chunks: seq<seq<T>>, c: nat, r: nat)
    requires c >= |chunks|
    ensures NullsFrom(chunks, c, r) == []
  {
  }

  lemma {:induction false} TailStep<P, T>(
      found: seq<OutRow<P, T>>, rows: seq<Row<T>>, marks: set<nat>, unmatched: bool, i: nat)
    requires i < |rows|
    ensures found + TailFrom(rows, marks, unmatched, i)
         == (if (i in marks) != unmatched then found + [BuildRow(rows[i])] else found)
             + TailFrom(rows, marks, unmatched, i + 1)
  {
    Regroup(found, [BuildRow(rows[i])], TailFrom<P, T>(rows, marks, unmatched, i + 1));
  }

  lemma {:induction false} TailEnd<P, T>(rows: seq<Row<T>>, marks: set<nat>, unmatched: bool)
    ensures TailFrom<P, T>(rows, marks, unmatched, |rows|) == []
  {
  }

  class BuildRowEmitter<P, T> {
    const unmatched: bool
    var position: nat
    var nullChunk: nat
    var nullRow: nat

    constructor (unmatched: bool)
      ensures this.unmatched == unmatched && position == 0 && nullChunk == 0 && nullRow == 0
    {
      this.unmatched := unmatched;
      position, nullChunk, nullRow := 0, 0, 0;
    }

    ghost predicate Valid(rows: seq<Row<T>>, chunks: seq<seq<T>>)
      reads this
    {
      position <= |rows| && (nullChunk < |chunks| ==> nullRow <= |chunks[nullChunk]|)
    }

    /** The rows still to come. */
    ghost function Rest(rows: seq<Row<T>>, marks: set<nat>, chunks: seq<seq<T>>): seq<OutRow<P, T>>
      reads this
      requires Valid(rows, chunks)
    {
      TailFrom(rows, marks, unmatched, position) + if unmatched then NullRows(NullsFrom(chunks, nullChunk, nullRow))
          else []
    }

    /** The next batch: at most `batchSize` rows, and none only at the end. */
    method Next(
        rows: seq<Row<T>>, marks: set<nat>, chunks: seq<seq<T>>, batchSize: nat)
      returns (out: Option<Batch<OutRow<P, T>>>)
      requires Valid(rows, chunks) && batchSize > 0
      modifies this
      ensures Valid(rows, chunks)
      ensures out.Some? ==> out.value.selection.None? && 0 < |out.value.data| <= batchSize
      ensures RowsOf(out) + Rest(rows, marks, chunks) == old(Rest(rows, marks, chunks))
      ensures out.None? ==> Rest(rows, marks, chunks) == []
    {
      TailEnd<P, T>(rows, marks, unmatched);
      hide TailFrom;
      hide NullsFrom;
      ghost var before := TailFrom<P, T>(rows, marks, unmatched, position);
      var found: seq<OutRow<P, T>> := [];
      while position < |rows| && |found| < batchSize
        invariant Valid(rows, chunks) && |found| <= batchSize && nullChunk == old(nullChunk) && nullRow == old(nullRow)
        invariant found + TailFrom(rows, marks, unmatched, position) == before
        decreases |rows| - position
      {
        var at := position;
        position := position + 1;
        TailStep(found, rows, marks, unmatched, at);
        if (at in marks) != unmatched {
          found := found + [BuildRow(rows[at])];
        }
      }
      ghost var nulls: seq<OutRow<P, T>> := if unmatched then NullRows(NullsFrom(chunks, nullChunk, nullRow)) else [];
      Regroup(found, TailFrom<P, T>(rows, marks, unmatched, position), nulls);
      if found == [] {
        if unmatched {
          out := NextNullKeyed(rows, chunks, batchSize);
        } else {
          out := None;
        }
      } else {
        out := Some(Batch(found, None));
      }
    }

    method NextNullKeyed(
        ghost rows: seq<Row<T>>, chunks: seq<seq<T>>, batchSize: nat)
      returns (out: Option<Batch<OutRow<P, T>>>)
      requires Valid(rows, chunks) && batchSize > 0
      modifies this`nullChunk, this`nullRow
      ensures Valid(rows, chunks)
      ensures out.Some? ==> out.value.selection.None? && 0 < |out.value.data| <= batchSize
      ensures RowsOf(out) + NullRows(NullsFrom(chunks, nullChunk, nullRow))
        == old(NullRows<P, T>(NullsFrom(chunks, nullChunk, nullRow)))
      ensures out.None? ==> NullsFrom(chunks, nullChunk, nullRow) == []
    {
      hide NullsFrom;
      while nullChunk < |chunks|
        invariant Valid(rows, chunks)
        invariant NullsFrom(chunks, nullChunk, nullRow) == old(NullsFrom(chunks, nullChunk, nullRow))
        decreases |chunks| - nullChunk
      {
        var chunk := chunks[nullChunk];
        var left := |chunk| - nullRow;
        if left <= 0 {
          NullsNext(chunks, nullChunk);
          nullChunk := nullChunk + 1;
          nullRow := 0;
        } else {
          var count := if left < batchSize then left else batchSize;
          var slice := chunk[nullRow..nullRow + count];
          NullsStep<P, T>(chunks, nullChunk, nullRow, count);
          nullRow := nullRow + count;
          return Some(Batch(NullRows(slice), None));
        }
      }
      NullsEnd(chunks, nullChunk, nullRow);
      out := None;
    }
  }
}
