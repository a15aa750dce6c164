/**
 A bucket's entries with each key's together, in order (src/exec/join_table.cc, GroupBucket).
 */
module JoinGrouping {
  import opened CountingSort
  import opened JoinRows

  ghost predicate Unbroken<A>(s: seq<A>, f: A -> int, i: int, j: int, l: int) {
    0 <= i <= j <= l < |s| && f(s[i]) == f(s[l]) ==> f(s[j]) == f(s[i])
  }

  /** Entries of one key have no other key's between them. */
  ghost predicate Contiguous<A>(s: seq<A>, f: A -> int) {
    forall i, j, l :: Unbroken(s, f, i, j, l)
  }

  /** `out` is `entries` with each key's entries together, in their order. */
  ghost predicate Grouped<A>(out: seq<A>, entries: seq<A>, f: A -> int) {
    && |out| == |entries|
    && (forall k :: Select(out, f, k) == Select(entries, f, k))
    && Contiguous(out, f)
  }

  /** `heads` are the first entries of the keys of s[..n], one a key. */
  ghost predicate Heads<A>(heads: seq<nat>, s: seq<A>, f: A -> int, n: nat)
    requires n <= |s|
  {
    && (forall h | 0 <= h < |heads| :: heads[h] < n)
    && (forall g, h | 0 <= g < h < |heads| :: f(s[heads[g]]) != f(s[heads[h]]))
    && (forall j | 0 <= j < n :: HeadOf(heads, s, f, j))
  }

  ghost predicate HeadOf<A>(heads: seq<nat>, s: seq<A>, f: A -> int, j: nat)
    requires j < |s|
  {
    exists h :: 0 <= h < |heads| && heads[h] < |s| && f(s[heads[h]]) == f(s[j])
  }

  /** The key of entry `i` among the heads, starting with `previous`; |heads| for a new key. */
  method KeyOf<A>(heads: seq<nat>, s: seq<A>, f: A -> int, i: nat, previous: nat) returns (h: nat)
    requires i < |s| && previous < |heads| && forall h | 0 <= h < |heads| :: heads[h] < |s|
    ensures h <= |heads|
    ensures h < |heads| ==> f(s[heads[h]]) == f(s[i])
    ensures h == |heads| ==> forall g | 0 <= g < |heads| :: f(s[heads[g]]) != f(s[i])
  {
    if f(s[i]) == f(s[heads[previous]]) {
      return previous;
    }
    h := 0;
    while h < |heads|
      invariant h <= |heads| && forall g | 0 <= g < h :: f(s[heads[g]]) != f(s[i])
    {
      if h != previous && f(s[i]) == f(s[heads[h]]) {
        return h;
      }
      h := h + 1;
    }
  }

  lemma {:induction false} HeadsGrow<A>(heads: seq<nat>, s: seq<A>, f: A -> int, n: nat)
    requires n < |s| && Heads(heads, s, f, n)
    ensures (forall h | 0 <= h < |heads| :: f(s[heads[h]]) != f(s[n])) ==> Heads(heads + [n], s, f, n + 1)
    ensures HeadOf(heads, s, f, n) ==> Heads(heads, s, f, n + 1)
  {
    if forall h | 0 <= h < |heads| :: f(s[heads[h]]) != f(s[n]) {
      var more := heads + [n];
      forall j | 0 <= j < n + 1 ensures HeadOf(more, s, f, j) {
        if j < n {
          assert HeadOf(heads, s, f, j);
          var h :| 0 <= h < |heads| && heads[h] < |s| && f(s[heads[h]]) == f(s[j]);
          assert more[h] == heads[h];
        } else {
          assert more[|heads|] == n;
        }
      }
    }
  }

  lemma {:induction false} ContiguousGrow<A>(heads: seq<nat>, s: seq<A>, f: A -> int, n: nat, current: nat)
    requires 0 < n < |s| && Heads(heads, s, f, n) && Contiguous(s[..n], f)
    requires current < |heads| && f(s[n - 1]) == f(s[heads[current]])
    requires f(s[n]) == f(s[n - 1]) || forall g | 0 <= g < |heads| :: f(s[heads[g]]) != f(s[n])
    ensures Contiguous(s[..n + 1], f)
  {
    var t := s[..n + 1];
    forall i, j, l ensures Unbroken(t, f, i, j, l) {
      if 0 <= i <= j <= l < |t| && f(t[i]) == f(t[l]) {
        assert Unbroken(s[..n], f, i, j, if l < n then l else n - 1);
        if l == n && i < n { assert HeadOf(heads, s, f, i); }
      }
    }
  }

  /** Whether each key's entries are together already. */
  method Together<A>(s: seq<A>, f: A -> int) returns (together: bool)
    ensures together ==> Contiguous(s, f)
  {
    if s == [] {
      return true;
    }
    var heads: seq<nat>, current: nat := [0], 0;
    together := true;
    var i: nat := 1;
    while i < |s| && together
      invariant 1 <= i <= |s| && Heads(heads, s, f, i) && current < |heads|
      invariant together ==> f(s[i - 1]) == f(s[heads[current]]) && Contiguous(s[..i], f)
    {
      var h := KeyOf(heads, s, f, i, current);
      HeadsGrow(heads, s, f, i);
      if h == |heads| {
        ContiguousGrow(heads, s, f, i, current);
        heads := heads + [i];
        current := |heads| - 1;
      } else if h != current {
        together := false;
      } else {
        ContiguousGrow(heads, s, f, i, current);
      }
      i := i + 1;
    }
    if together {
      assert s[..|s|] == s;
    }
  }

  /** Each entry's key, numbered in the order the keys appear. */
  ghost predicate Numbers<A>(nums: seq<nat>, heads: seq<nat>, s: seq<A>, f: A -> int, n: nat)
    requires n <= |s|
  {
    && |nums| == n && Heads(heads, s, f, n)
    && forall i | 0 <= i < n :: nums[i] < |heads| && f(s[heads[nums[i]]]) == f(s[i])
  }

  method NumberKeys<A>(s: seq<A>, f: A -> int) returns (nums: seq<nat>, heads: seq<nat>)
    requires s != []
    ensures Numbers(nums, heads, s, f, |s|)
  {
    nums, heads := [0], [0];
    var current: nat := 0;
    assert HeadOf(heads, s, f, 0) by { assert f(s[heads[0]]) == f(s[0]); }
    for i := 1 to |s|
      invariant Numbers(nums, heads, s, f, i) && current < |heads|
    {
      var h := KeyOf(heads, s, f, i, current);
      HeadsGrow(heads, s, f, i);
      if h == |heads| {
        heads := heads + [i];
      }
      current := h;
      nums := nums + [current];
    }
  }

  /** Entries with their key numbers. */
  function Tagged<A>(nums: seq<nat>, s: seq<A>): (t: seq<(int, A)>)
    requires |nums| == |s|
    ensures |t| == |s| && forall i | 0 <= i < |s| :: t[i] == (nums[i], s[i])
  {
    seq(|s|, i requires 0 <= i < |s| == |nums| => (nums[i], s[i]))
  }

  function Untagged<A>(t: seq<(int, A)>): (s: seq<A>)
    ensures |s| == |t| && forall i | 0 <= i < |t| :: s[i] == t[i].1
  {
    seq(|t|, i requires 0 <= i < |t| => t[i].1)
  }

  function First<A>(): ((int, A)) -> int { (p: (int, A)) => p.0 }

  function OnSecond<A>(f: A -> int): ((int, A)) -> int { (p: (int, A)) => f(p.1) }

  lemma {:induction false} UntaggedSelect<A>(t: seq<(int, A)>, f: A -> int, k: int)
    ensures Select(Untagged(t), f, k) == Untagged(Select(t, OnSecond(f), k))
  {
    if t != [] {
      UntaggedSelect(t[..|t| - 1], f, k);
      assert Untagged(t)[..|t| - 1] == Untagged(t[..|t| - 1]);
    }
  }

  /** A stable sort's buckets never go back. */
  lemma {:induction false} SortedAscends<A>(out: seq<A>, items: seq<A>, key: A -> int, n: nat, i: nat, j: nat)
    requires Sorts(out, items, key, n) && InBuckets(items, key, n) && i <= j < |out|
    ensures key(out[i]) <= key(out[j])
  {
    LessBounds(items, key, n);
    var b := BucketAt(items, key, n, i);
    var c := BucketAt(items, key, n, j);
    InBucket(out, items, key, n, i, b);
    InBucket(out, items, key, n, j, c);
    if c < b { LessMonotone(items, key, c + 1, b); }
  }

  lemma {:induction false} InBucket<A>(out: seq<A>, items: seq<A>, key: A -> int, n: nat, i: nat, b: nat)
    requires Sorts(out, items, key, n) && b < n && Less(items, key, b) <= i < Less(items, key, b + 1)
    ensures i < |out| && key(out[i]) == b
  {
    assert Bucket(out, items, key, b);
    var x, y := Less(items, key, b), Less(items, key, b + 1);
    assert out[x..y][i - x] == out[i];
    SelectHas(items, key, b);
    assert out[i] in Select(items, key, b);
  }

  /** Sorting by key number groups the keys. */
  lemma {:induction false} SortGroups<A>(nums: seq<nat>, heads: seq<nat>, s: seq<A>, f: A -> int, out: seq<(int, A)>)
    requires Numbers(nums, heads, s, f, |s|) && Sorts(out, Tagged(nums, s), First(), |heads|)
    ensures Grouped(Untagged(out), s, f)
  {
    var t, r := Tagged(nums, s), Untagged(out);
    SortedCount(out, t, First(), |heads|);
    SortKeepsNumbers(nums, heads, s, f, out);
    assert Untagged(t) == s;
    forall k ensures Select(r, f, k) == Select(s, f, k) {
      UntaggedSelect(out, f, k);
      UntaggedSelect(t, f, k);
      if i :| 0 <= i < |s| && f(s[i]) == k {
        SortKeeps(out, t, First(), |heads|, OnSecond(f), k, nums[i]);
      } else {
        SelectNone(t, OnSecond(f), k);
        SelectNone(out, OnSecond(f), k);
      }
    }
    forall i, j, l ensures Unbroken(r, f, i, j, l) {
      if 0 <= i <= j <= l < |r| {
        SortedAscends(out, t, First(), |heads|, i, j);
        SortedAscends(out, t, First(), |heads|, j, l);
      }
    }
  }

  /** After the sort, as before it, equal numbers are equal keys. */
  lemma {:induction false} SortKeepsNumbers<A>(
      nums: seq<nat>, heads: seq<nat>, s: seq<A>, f: A -> int, out: seq<(int, A)>)
    requires Numbers(nums, heads, s, f, |s|) && Sorts(out, Tagged(nums, s), First(), |heads|)
    ensures InBuckets(Tagged(nums, s), First(), |heads|)
    ensures forall i | 0 <= i < |out| :: 0 <= out[i].0 < |heads| && f(s[heads[out[i].0]]) == f(out[i].1)
    ensures forall i, j | 0 <= i < |out| && 0 <= j < |out| :: out[i].0 == out[j].0 <==> f(out[i].1) == f(out[j].1)
    ensures forall i, j | 0 <= i < |s| && 0 <= j < |s| :: nums[i] == nums[j] <==> f(s[i]) == f(s[j])
    ensures forall i, j | 0 <= i < |s| && 0 <= j < |out| :: nums[i] == out[j].0 <==> f(s[i]) == f(out[j].1)
  {
    SortedCount(out, Tagged(nums, s), First(), |heads|);
    forall i | 0 <= i < |out| ensures 0 <= out[i].0 < |heads| && f(s[heads[out[i].0]]) == f(out[i].1) {
      var j :| 0 <= j < |s| && Tagged(nums, s)[j] == out[i];
    }
  }

  /** A bucket's entries, each key's together: as they are when they are together already, else sorted by key. */
  method GroupBucket<A(0)>(s: seq<A>, f: A -> int) returns (out: seq<A>)
    ensures Grouped(out, s, f)
  {
    var together := Together(s, f);
    if together || s == [] {
      return s;
    }
    var nums, heads := NumberKeys(s, f);
    forall i | 0 <= i < |s| ensures 0 <= First()(Tagged(nums, s)[i]) < |heads| { }
    var sorted, start := StableSort(Tagged(nums, s), First(), |heads|);
    SortGroups(nums, heads, s, f, sorted[..]);
    out := Untagged(sorted[..]);
  }
}
