/**
 A join build's input: batches sorted by partition into pieces (JoinBuildPart), and parts released
 in part order whatever order they arrive in (JoinTableBuilder), src/exec/join_table.cc.
 */
module JoinBuild {
  import opened Lists
  import opened CountingSort
  import opened JoinRows

  const MAX_ROWS: nat := 0xffffffff

  /** The rows of the batches that hold one, batch by batch: every piece has a row. */
  function Kept<T>(batches: seq<seq<Input<T>>>): seq<seq<Row<T>>> {
    if batches == [] then []
    else
      var rows := Keyed(batches[|batches| - 1]);
      Kept(batches[..|batches| - 1]) + if rows == [] then [] else [rows]
  }

  function AllNulls<T>(batches: seq<seq<Input<T>>>): seq<T> {
    if batches == [] then [] else AllNulls(batches[..|batches| - 1]) + NullKeyed(batches[|batches| - 1])
  }

  function Chunks<T>(pieces: seq<Piece<T>>): (chunks: seq<seq<Row<T>>>)
    ensures |chunks| == |pieces| && forall c | 0 <= c < |pieces| :: chunks[c] == pieces[c].rows
  {
    seq(|pieces|, c requires 0 <= c < |pieces| => pieces[c].rows)
  }

  /** The pieces are those of the lists of rows, one each. */
  ghost predicate ArePieces<T>(pieces: seq<Piece<T>>, lists: seq<seq<Row<T>>>, hash: int -> nat) {
    |pieces| == |lists| && forall c | 0 <= c < |pieces| :: IsPiece(pieces[c], lists[c], hash)
  }

  ghost predicate HasKey<T>(rows: seq<Row<T>>, k: int) {
    exists i :: 0 <= i < |rows| && rows[i].key == k
  }

  /** `min` and `max` are the smallest and largest key, when there is a row. */
  ghost predicate KeysWithin<T>(rows: seq<Row<T>>, min: int, max: int) {
    && (forall i | 0 <= i < |rows| :: min <= rows[i].key <= max)
    && (rows != [] ==> HasKey(rows, min) && HasKey(rows, max))
  }

  /** The range of two lists' keys is the wider of theirs. */
  lemma {:induction false} KeysWithinBoth<T>(a: seq<Row<T>>, min: int, max: int, b: seq<Row<T>>, lo: int, hi: int)
    requires KeysWithin(a, min, max) && KeysWithin(b, lo, hi)
    ensures a == [] ==> KeysWithin(a + b, lo, hi)
    ensures b == [] ==> KeysWithin(a + b, min, max)
    ensures a != [] && b != [] ==> KeysWithin(a + b, if min < lo then min else lo, if max > hi then max else hi)
  {
    if a == [] {
      assert a + b == b;
    } else if b == [] {
      assert a + b == a;
    } else {
      forall k | HasKey(a, k) || HasKey(b, k) ensures HasKey(a + b, k) {
        if HasKey(a, k) {
          var i :| 0 <= i < |a| && a[i].key == k;
          assert (a + b)[i].key == k;
        } else {
          var i :| 0 <= i < |b| && b[i].key == k;
          assert (a + b)[|a| + i].key == k;
        }
      }
    }
  }

  /** What one part holds. */
  datatype Part<T> = Part(pieces: seq<Piece<T>>, nulls: seq<T>, numRows: nat, inputRows: nat, minKey: int, maxKey: int)

  /** `part` holds the batches `batches`. */
  ghost predicate IsPart<T>(part: Part<T>, batches: seq<seq<Input<T>>>, hash: int -> nat, keepNulls: bool) {
    && ArePieces(part.pieces, Kept(batches), hash)
    && part.numRows == |Flat(Kept(batches))|
    && part.inputRows == part.numRows + |AllNulls(batches)|
    && part.nulls == (if keepNulls then AllNulls(batches) else [])
    && KeysWithin(Flat(Kept(batches)), part.minKey, part.maxKey)
  }

  lemma {:induction false} KeptFlat<T>(batches: seq<seq<Input<T>>>, batch: seq<Input<T>>)
    ensures Kept(batches + [batch]) == Kept(batches) + if Keyed(batch) == [] then [] else [Keyed(batch)]
    ensures Flat(Kept(batches + [batch])) == Flat(Kept(batches)) + Keyed(batch)
    ensures AllNulls(batches + [batch]) == AllNulls(batches) + NullKeyed(batch)
  {
    assert (batches + [batch])[..|batches|] == batches;
    if Keyed(batch) == [] {
      assert Kept(batches) + [] == Kept(batches) && Flat(Kept(batches)) + [] == Flat(Kept(batches));
    } else {
      FlatOne(Kept(batches), Keyed(batch));
    }
  }

  method MinMax<T>(rows: seq<Row<T>>) returns (min: int, max: int)
    requires rows != []
    ensures KeysWithin(rows, min, max)
  {
    min, max := rows[0].key, rows[0].key;
    for i := 1 to |rows|
      invariant forall j | 0 <= j < i :: min <= rows[j].key <= max
      invariant HasKey(rows, min) && HasKey(rows, max)
    {
      if rows[i].key < min { min := rows[i].key; }
      if rows[i].key > max { max := rows[i].key; }
    }
  }

  /** One batch's keyed rows in partition order. */
  method SortPiece<T(0)>(rows: seq<Row<T>>, hash: int -> nat) returns (piece: Piece<T>)
    ensures IsPiece(piece, rows, hash)
  {
    var sorted, start := StableSort(rows, PartOf(hash), PARTITIONS);
    piece := Piece(sorted[..], start[..]);
  }

  class JoinBuildPart<T(0)> {
    const hash: int -> nat
    const keepNulls: bool
    var part: Part<T>
    ghost var batches: seq<seq<Input<T>>>

    constructor (hash: int -> nat, keepNulls: bool)
      ensures Valid() && batches == [] && this.hash == hash && this.keepNulls == keepNulls
    {
      this.hash, this.keepNulls := hash, keepNulls;
      part, batches := Part([], [], 0, 0, 0, 0), [];
    }

    ghost predicate Valid()
      reads this
    {
      IsPart(part, batches, hash, keepNulls)
    }

    /** Adds the selected rows of a batch; one of more rows than a reference counts is refused whole. */
    method AppendRows(batch: seq<Input<T>>) returns (ok: bool)
      requires Valid()
      modifies this
      ensures Valid() && ok == (|Keyed(batch)| + |NullKeyed(batch)| == 0 || |batch| <= MAX_ROWS)
      ensures batches == if ok then old(batches) + [batch] else old(batches)
      ensures !ok ==> part == old(part)
    {
      ok := |Keyed(batch)| + |NullKeyed(batch)| == 0 || |batch| <= MAX_ROWS;
      if ok {
        part := Appended(part, batches, batch, hash, keepNulls);
        batches := batches + [batch];
      }
    }
  }

  method Appended<T(0)>(
      was: Part<T>, ghost batches: seq<seq<Input<T>>>, batch: seq<Input<T>>, hash: int -> nat, keepNulls: bool)
    returns (part: Part<T>)
    requires IsPart(was, batches, hash, keepNulls)
    ensures IsPart(part, batches + [batch], hash, keepNulls)
  {
    var rows, nulls := Keyed(batch), NullKeyed(batch);
    part := Extended(was, nulls, keepNulls);
    if rows == [] {
      NullsAdded(was, batches, batch, hash, keepNulls);
    } else {
      var piece := SortPiece(rows, hash);
      var min, max := MinMax(rows);
      KeysWithinBoth(Flat(Kept(batches)), was.minKey, was.maxKey, rows, min, max);
      if was.numRows > 0 {
        min := if was.minKey < min then was.minKey else min;
        max := if was.maxKey > max then was.maxKey else max;
      }
      part := part.(pieces := was.pieces + [piece], numRows := was.numRows + |rows|,
              inputRows := was.inputRows + |rows| + |nulls|, minKey := min, maxKey := max);
      PieceAdded(was, part, batches, batch, hash, keepNulls, piece);
    }
  }

  /** The part with a batch's NULL-keyed rows, retained when asked for. */
  function Extended<T>(part: Part<T>, nulls: seq<T>, keepNulls: bool): Part<T> {
    part.(nulls := part.nulls + (if keepNulls then nulls else []), inputRows := part.inputRows + |nulls|)
  }

  lemma {:induction false} NullsAdded<T>(
      was: Part<T>, batches: seq<seq<Input<T>>>, batch: seq<Input<T>>, hash: int -> nat, keepNulls: bool)
    requires IsPart(was, batches, hash, keepNulls) && Keyed(batch) == []
    ensures IsPart(Extended(was, NullKeyed(batch), keepNulls), batches + [batch], hash, keepNulls)
  {
    KeptFlat(batches, batch);
    assert Kept(batches + [batch]) == Kept(batches);
  }

  lemma {:induction false} PieceAdded<T>(
      was: Part<T>, part: Part<T>, batches: seq<seq<Input<T>>>, batch: seq<Input<T>>, hash: int -> nat, keepNulls: bool,
      piece: Piece<T>)
    requires IsPart(was, batches, hash, keepNulls) && Keyed(batch) != [] && IsPiece(piece, Keyed(batch), hash)
    requires part.pieces == was.pieces + [piece] && part.numRows == was.numRows + |Keyed(batch)|
    requires part.inputRows == was.inputRows + |Keyed(batch)| + |NullKeyed(batch)|
    requires part.nulls == was.nulls + (if keepNulls then NullKeyed(batch) else [])
    requires KeysWithin(Flat(Kept(batches)) + Keyed(batch), part.minKey, part.maxKey)
    ensures IsPart(part, batches + [batch], hash, keepNulls)
  {
    hide ArePieces;
    hide KeysWithin;
    hide Kept;
    hide Flat;
    hide AllNulls;
    hide IsPiece;
    KeptFlat(batches, batch);
    OneMorePiece(was.pieces, Kept(batches), piece, Keyed(batch), hash);
  }

  lemma {:induction false} OneMorePiece<T>(
      pieces: seq<Piece<T>>, lists: seq<seq<Row<T>>>, piece: Piece<T>, rows: seq<Row<T>>, hash: int -> nat)
    requires ArePieces(pieces, lists, hash) && IsPiece(piece, rows, hash)
    ensures ArePieces(pieces + [piece], lists + [rows], hash)
  {
    hide IsPiece;
    forall c | 0 <= c < |pieces| + 1 ensures IsPiece((pieces + [piece])[c], (lists + [rows])[c], hash) {
      if c < |pieces| { assert IsPiece(pieces[c], lists[c], hash); }
    }
  }
}
