/**
 The prefix sum of a join's key offsets in blocks (src/exec/join_table.cc, BuildDirect): every block
 scans its own slice, then is raised by the totals of the blocks before it.
 */
module BlockedSum {
  import opened CountingSort

  const BLOCKS: nat := 64

  function Bound(total: nat, block: nat, c: nat): (at: nat)
    ensures at <= total
  {
    if c * block < total then c * block else total
  }

  lemma {:induction false} BoundStep(total: nat, block: nat, c: nat)
    ensures Bound(total, block, c) <= Bound(total, block, c + 1)
    ensures Bound(total, block, c + 1)
         == if Bound(total, block, c) + block < total then Bound(total, block, c) + block else total
  {
    assert (c + 1) * block == c * block + block;
  }

  /** The sum of the first `i` entries. */
  ghost function Upto(was: seq<nat>, i: nat): nat
    requires i <= |was|
  {
    Sum(was[..i])
  }

  lemma {:induction false} UptoStep(was: seq<nat>, i: nat)
    requires i < |was|
    ensures Upto(was, i + 1) == Upto(was, i) + was[i]
  {
    assert was[..i + 1][..i] == was[..i];
  }

  /** Scans the entries from `from` to `to` on their own: each comes out its prefix sum less that at `from`. */
  method ScanBlock(a: array<nat>, from: nat, to: nat, ghost was: seq<nat>) returns (sum: nat)
    requires from <= to <= a.Length == |was| && forall i | from <= i < to :: a[i] == was[i]
    modifies a
    ensures sum + Upto(was, from) == Upto(was, to)
    ensures forall i | from <= i < to :: a[i] + Upto(was, from) == Upto(was, i + 1)
    ensures forall i | 0 <= i < a.Length && !(from <= i < to) :: a[i] == old(a[i])
  {
    sum := 0;
    for i := from to to
      invariant sum + Upto(was, from) == Upto(was, i)
      invariant forall j | from <= j < i :: a[j] + Upto(was, from) == Upto(was, j + 1)
      invariant forall j | 0 <= j < a.Length && !(from <= j < i) :: a[j] == old(a[j])
    {
      UptoStep(was, i);
      sum := sum + a[i];
      a[i] := sum;
    }
  }

  method RaiseBlock(a: array<nat>, from: nat, to: nat, add: nat)
    requires from <= to <= a.Length
    modifies a
    ensures forall i | from <= i < to :: a[i] == old(a[i]) + add
    ensures forall i | 0 <= i < a.Length && !(from <= i < to) :: a[i] == old(a[i])
  {
    for i := from to to
      invariant forall j | from <= j < i :: a[j] == old(a[j]) + add
      invariant forall j | 0 <= j < a.Length && !(from <= j < i) :: a[j] == old(a[j])
    {
      a[i] := a[i] + add;
    }
  }

  /** The bounds of the blocks: from 0 up to the length, never back. */
  ghost predicate Bounds(at: seq<nat>, total: nat) {
    && |at| == BLOCKS + 1 && at[0] == 0 && at[BLOCKS] == total
    && forall c, d | 0 <= c <= d < |at| :: at[c] <= at[d]
  }

  method MakeBounds(total: nat) returns (at: seq<nat>)
    ensures Bounds(at, total)
  {
    var block := (total + BLOCKS - 1) / BLOCKS;
    at := [0];
    for c := 0 to BLOCKS
      invariant |at| == c + 1 && at[c] == Bound(total, block, c)
      invariant forall i, j | 0 <= i <= j < |at| :: at[i] <= at[j]
      invariant at[0] == 0
    {
      BoundStep(total, block, c);
      at := at + [if at[c] + block < total then at[c] + block else total];
    }
  }

  /** Block `c` is scanned on its own: its entries are their prefix sums less the one at its start. */
  ghost predicate Short(a: seq<nat>, was: seq<nat>, at: seq<nat>, c: nat)
    requires |a| == |was| && Bounds(at, |a|) && c < BLOCKS
  {
    forall i | at[c] <= i < at[c + 1] :: a[i] + Upto(was, at[c]) == Upto(was, i + 1)
  }

  lemma {:induction false} ShortStays(a: seq<nat>, b: seq<nat>, was: seq<nat>, at: seq<nat>, c: nat)
    requires |a| == |b| == |was| && Bounds(at, |a|) && c < BLOCKS && Short(a, was, at, c)
    requires forall i | at[c] <= i < at[c + 1] :: b[i] == a[i]
    ensures Short(b, was, at, c)
  {
  }

  /** The total of block `c`. */
  ghost predicate Total(sum: nat, was: seq<nat>, at: seq<nat>, c: nat)
    requires Bounds(at, |was|) && c < BLOCKS
  {
    sum + Upto(was, at[c]) == Upto(was, at[c + 1])
  }

  method ScanBlocks(a: array<nat>, at: seq<nat>) returns (sums: seq<nat>)
    requires Bounds(at, a.Length)
    modifies a
    ensures |sums| == BLOCKS && forall c | 0 <= c < BLOCKS :: Total(sums[c], old(a[..]), at, c)
    ensures forall c | 0 <= c < BLOCKS :: Short(a[..], old(a[..]), at, c)
  {
    ghost var was := a[..];
    sums := [];
    for c := 0 to BLOCKS
      invariant |sums| == c && forall d | 0 <= d < c :: Total(sums[d], was, at, d)
      invariant forall d | 0 <= d < c :: Short(a[..], was, at, d)
      invariant forall i | at[c] <= i < a.Length :: a[i] == was[i]
    {
      ghost var before := a[..];
      var sum := ScanBlock(a, at[c], at[c + 1], was);
      forall d | 0 <= d < c ensures Short(a[..], was, at, d) { ShortStays(before, a[..], was, at, d); }
      sums := sums + [sum];
    }
  }

  /** The prefix sum in blocks is the prefix sum. */
  method BlockedPartialSum(a: array<nat>)
    modifies a
    ensures forall i | 0 <= i < a.Length :: a[i] == Sum(old(a[..])[..i + 1])
  {
    ghost var was := a[..];
    var at := MakeBounds(a.Length);
    var sums := ScanBlocks(a, at);
    var base := 0;
    for c := 0 to BLOCKS
      invariant base == Upto(was, at[c])
      invariant forall i | 0 <= i < at[c] :: a[i] == Upto(was, i + 1)
      invariant forall d | c <= d < BLOCKS :: Short(a[..], was, at, d)
    {
      ghost var before := a[..];
      if c > 0 && base > 0 {
        RaiseBlock(a, at[c], at[c + 1], base);
      }
      assert Short(before, was, at, c);
      forall d | c + 1 <= d < BLOCKS ensures Short(a[..], was, at, d) { ShortStays(before, a[..], was, at, d); }
      assert Total(sums[c], was, at, c);
      base := base + sums[c];
    }
  }
}
