/**
 The frequent values of a stream in bounded memory (src/exec/heavy_hitters.cc): a Misra-Gries summary
 of `capacity` counters.
 */
module HeavyHitters {
  type Counters = map<int, int>

  // ---- counters ----

  function Counter(m: Counters, v: int): int { if v in m then m[v] else 0 }

  ghost function Any<T>(s: set<T>): (v: T)
    requires s != {}
    ensures v in s
  {
    var v :| v in s;
    v
  }

  ghost function SumOver(m: Counters, values: set<int>): int {
    if values == {} then 0
    else
      var v := Any(values);
      Counter(m, v) + SumOver(m, values - {v})
  }

  ghost function Sum(m: Counters): int { SumOver(m, m.Keys) }

  lemma {:induction false} SumOne(m: Counters, values: set<int>, v: int)
    requires v in values
    ensures SumOver(m, values) == Counter(m, v) + SumOver(m, values - {v})
    decreases values
  {
    var w := Any(values);
    if w != v {
      SumOne(m, values - {w}, v);
      SumOne(m, values - {v}, w);
      assert values - {w} - {v} == values - {v} - {w};
    }
  }

  /** Two that differ by `d` on each value. */
  lemma {:induction false} SumShifted(m: Counters, n: Counters, values: set<int>, d: int)
    requires forall v | v in values :: Counter(n, v) == Counter(m, v) + d
    ensures SumOver(n, values) == SumOver(m, values) + d * |values|
    decreases values
  {
    if values != {} {
      var v := Any(values);
      SumOne(m, values, v);
      SumOne(n, values, v);
      var rest := values - {v};
      SumShifted(m, n, rest, d);
      assert |values| == |rest| + 1;
      assert d * (|rest| + 1) == d * |rest| + d;
    }
  }

  lemma {:induction false} NoOthers(a: set<int>, b: set<int>)
    requires b <= a && a - b == {}
    ensures a == b
  {
    forall v | v in a ensures v in b { assert v in a - b || v in b; }
  }

  /** Values without a counter add nothing. */
  lemma {:induction false} SumOfKeys(m: Counters, values: set<int>)
    requires m.Keys <= values
    ensures SumOver(m, values) == Sum(m)
    decreases values
  {
    var others := values - m.Keys;
    if others == {} {
      NoOthers(values, m.Keys);
    } else {
      var v := Any(others);
      SumOne(m, values, v);
      SumOfKeys(m, values - {v});
    }
  }

  lemma {:induction false} SumSet(m: Counters, v: int, n: int)
    ensures Sum(m[v := n]) == Sum(m) - Counter(m, v) + n
  {
    var all := m.Keys + {v};
    SumOfKeys(m, all);
    SumOfKeys(m[v := n], all);
    SumOne(m, all, v);
    SumOne(m[v := n], all, v);
    SumShifted(m, m[v := n], all - {v}, 0);
  }

  /** Every counter one down; the ones at 0 go. */
  function Decremented(m: Counters): Counters {
    map v | v in m && m[v] != 1 :: m[v] - 1
  }

  lemma {:induction false} SumDecremented(m: Counters)
    ensures Sum(Decremented(m)) == Sum(m) - |m|
  {
    SumOfKeys(Decremented(m), m.Keys);
    SumShifted(m, Decremented(m), m.Keys, -1);
  }

  // ---- the summary of a stream ----

  function Added(capacity: nat, m: Counters, v: int): Counters {
    if v in m then m[v := m[v] + 1]
    else if |m| < capacity then m[v := 1]
    else Decremented(m)
  }

  ghost function Summary(capacity: nat, stream: seq<int>): Counters {
    if stream == [] then map[]
    else Added(capacity, Summary(capacity, stream[..|stream| - 1]), stream[|stream| - 1])
  }

  /** How often every counter went down. */
  ghost function Rounds(capacity: nat, stream: seq<int>): nat {
    if stream == [] then 0
    else
      var front, v := stream[..|stream| - 1], stream[|stream| - 1];
      var m := Summary(capacity, front);
      Rounds(capacity, front) + if v in m || |m| < capacity then 0 else 1
  }

  function Occurrences(stream: seq<int>, v: int): nat {
    if stream == [] then 0
    else Occurrences(stream[..|stream| - 1], v) + if stream[|stream| - 1] == v then 1 else 0
  }

  ghost predicate Counts(capacity: nat, m: Counters) {
    |m| <= capacity && forall v | v in m :: m[v] > 0
  }

  lemma {:induction false} CountsKept(capacity: nat, m: Counters, v: int)
    requires Counts(capacity, m)
    ensures Counts(capacity, Added(capacity, m, v))
  {
    if v in m {
      assert m[v := m[v] + 1].Keys == m.Keys;
    } else if |m| < capacity {
      assert m[v := 1].Keys == m.Keys + {v};
    } else {
      assert Decremented(m).Keys <= m.Keys;
      Fewer(Decremented(m).Keys, m.Keys);
    }
  }

  lemma {:induction false} Fewer(a: set<int>, b: set<int>)
    requires a <= b
    ensures |a| <= |b|
  {
    assert b == a + (b - a);
  }

  /**
   What the summary keeps: the values are those counted and `capacity + 1` for every round, and a
   counter is its value's occurrences but for at most the rounds.
   */
  ghost predicate Conserved(capacity: nat, stream: seq<int>, m: Counters, rounds: nat) {
    && Counts(capacity, m)
    && |stream| == Sum(m) + (capacity + 1) * rounds
    && forall v :: Counter(m, v) <= Occurrences(stream, v) <= Counter(m, v) + rounds
  }

  lemma {:induction false} Conserves(capacity: nat, stream: seq<int>)
    ensures Conserved(capacity, stream, Summary(capacity, stream), Rounds(capacity, stream))
    decreases |stream|
  {
    if stream == [] {
      assert Sum(map[]) == 0;
    } else {
      hide Conserved;
      var front, v := stream[..|stream| - 1], stream[|stream| - 1];
      Conserves(capacity, front);
      var m := Summary(capacity, front);
      OneMore(capacity, front, v, m, Rounds(capacity, front));
      assert stream == front + [v];
    }
  }

  lemma {:induction false} OneMore(capacity: nat, stream: seq<int>, v: int, m: Counters, rounds: nat)
    requires Conserved(capacity, stream, m, rounds)
    ensures Conserved(capacity, stream + [v], Added(capacity, m, v), rounds + if v in m || |m| < capacity then 0 else 1)
  {
    CountsKept(capacity, m, v);
    SumKept(capacity, m, v);
    assert (capacity + 1) * (rounds + 1) == (capacity + 1) * rounds + capacity + 1;
    assert (stream + [v])[..|stream|] == stream;
  }

  lemma {:induction false} SumKept(capacity: nat, m: Counters, v: int)
    requires Counts(capacity, m)
    ensures Sum(Added(capacity, m, v)) == Sum(m) + if v in m || |m| < capacity then 1 else 0 - capacity
  {
    hide SumOver;
    if v in m {
      SumSet(m, v, m[v] + 1);
    } else if |m| < capacity {
      SumSet(m, v, 1);
    } else {
      SumDecremented(m);
    }
  }

  lemma {:induction false} SumNonNegative(m: Counters, values: set<int>)
    requires forall v | v in m :: m[v] > 0
    ensures SumOver(m, values) >= 0
    decreases values
  {
    if values != {} {
      var v := Any(values);
      SumOne(m, values, v);
      SumNonNegative(m, values - {v});
    }
  }

  /** A counter is short by at most a (capacity + 1)-th of the stream; a more frequent value has one. */
  lemma {:induction false} Frequent(capacity: nat, stream: seq<int>, v: int)
    ensures var m := Summary(capacity, stream);
      && Counter(m, v) <= Occurrences(stream, v)
      && (capacity + 1) * (Occurrences(stream, v) - Counter(m, v)) <= |stream|
      && ((capacity + 1) * Occurrences(stream, v) > |stream| ==> v in m)
  {
    hide Summary;
    hide Rounds;
    Conserves(capacity, stream);
    var m, rounds := Summary(capacity, stream), Rounds(capacity, stream);
    SumNonNegative(m, m.Keys);
    AtMost(capacity + 1, Occurrences(stream, v) - Counter(m, v), rounds);
  }

  lemma {:induction false} AtMost(n: nat, a: int, b: int)
    requires a <= b
    ensures n * a <= n * b
  {
    assert n * b == n * a + n * (b - a);
    assert n * (b - a) >= 0;
  }

  // ---- the summary as the engine keeps it ----

  ghost predicate Ascending(s: seq<int>) { forall i, j | 0 <= i < j < |s| :: s[i] < s[j] }

  function Insert(s: seq<int>, v: int): seq<int> {
    if s == [] then [v] else if v < s[0] then [v] + s else [s[0]] + Insert(s[1..], v)
  }

  lemma {:induction false} Inserted(s: seq<int>, v: int)
    requires Ascending(s) && v !in s
    ensures Ascending(Insert(s, v)) && forall x :: x in Insert(s, v) <==> x == v || x in s
    decreases |s|
  {
    if s != [] && v >= s[0] {
      Inserted(s[1..], v);
      var r := Insert(s[1..], v);
      forall x ensures x in Insert(s, v) <==> x == v || x in s {
        assert s == [s[0]] + s[1..];
      }
      forall j | 0 <= j < |r| ensures s[0] < r[j] {
        assert r[j] in r;
        if r[j] != v {
          var i :| 0 <= i < |s| - 1 && s[1..][i] == r[j];
          assert s[i + 1] == r[j];
        }
      }
    }
  }

  /** Every value seen more than `share` of all. */
  ghost predicate MissesNone(stream: seq<int>, share: real, heavy: seq<int>) {
    forall v | Occurrences(stream, v) as real > Part(share, |stream|) :: v in heavy
  }

  /** Only values seen more than `share` less a (capacity + 1)-th of all. */
  ghost predicate NearlyAll(capacity: nat, stream: seq<int>, share: real, heavy: seq<int>) {
    forall v | v in heavy :: Occurrences(stream, v) as real > Bound(capacity, stream, share)
  }

  function Part(share: real, n: nat): real { share * n as real }

  function Bound(capacity: nat, stream: seq<int>, share: real): real {
    Part(share, |stream|) - |stream| as real / (capacity + 1) as real
  }

  /** `Above` gives the value: it has a counter over the bound. */
  ghost predicate Reported(capacity: nat, stream: seq<int>, share: real, v: int) {
    var m := Summary(capacity, stream);
    v in m && m[v] as real > Bound(capacity, stream, share)
  }

  class HeavyHitters {
    const capacity: nat
    var counters: Counters
    var count: nat
    ghost var stream: seq<int>

    ghost predicate Valid()
      reads this
    {
      count == |stream| && counters == Summary(capacity, stream)
    }

    constructor (capacity: nat)
      ensures Valid() && stream == [] && this.capacity == if capacity == 0 then 1 else capacity
    {
      this.capacity := if capacity == 0 then 1 else capacity;
      counters, count, stream := map[], 0, [];
    }

    method Add(value: int)
      requires Valid()
      modifies this
      ensures Valid() && stream == old(stream) + [value]
    {
      assert (stream + [value])[..|stream|] == stream;
      count := count + 1;
      stream := stream + [value];
      if value in counters {
        counters := counters[value := counters[value] + 1];
      } else if |counters| < capacity {
        counters := counters[value := 1];
      } else {
        counters := Decrement(counters);
      }
    }

    /** The values that may have been seen more than `share` of all, sorted. */
    method Above(share: real) returns (heavy: seq<int>)
      requires Valid()
      ensures Ascending(heavy)
      ensures forall v :: v in heavy <==> Reported(capacity, stream, share, v)
      ensures forall v | v in heavy :: v in counters
      ensures Part(share, capacity + 1) >= 1.0 ==> MissesNone(stream, share, heavy)
      ensures NearlyAll(capacity, stream, share, heavy)
    {
      hide Summary;
      hide Occurrences;
      hide MissesNone;
      hide NearlyAll;
      var n := count as real;
      var floor := share * n - n / (capacity + 1) as real;
      heavy := Over(counters, floor);
      assert floor == Bound(capacity, stream, share);
      AboveBound(capacity, stream, share, heavy);
    }
  }

  /** Every counter one down, one after the other. */
  method Decrement(m: Counters) returns (out: Counters)
    ensures out == Decremented(m)
  {
    out := m;
    var left := m.Keys;
    while left != {}
      invariant left <= m.Keys
      invariant out.Keys == left + Decremented(m).Keys
      invariant forall v | v in left :: out[v] == m[v]
      invariant forall v | v in out && v !in left :: out[v] == m[v] - 1
      decreases left
    {
      var v := Take(left);
      left := left - {v};
      out := if out[v] - 1 == 0 then out - {v} else out[v := out[v] - 1];
    }
    assert out.Keys == Decremented(m).Keys;
    assert forall v | v in out :: out[v] == Decremented(m)[v];
  }

  method Take<T>(s: set<T>) returns (v: T)
    requires s != {}
    ensures v in s
  {
    v :| v in s;
  }

  /** The values whose counters are over a bound, sorted. */
  method Over(m: Counters, floor: real) returns (heavy: seq<int>)
    ensures Ascending(heavy)
    ensures forall v :: v in heavy <==> v in m && m[v] as real > floor
  {
    heavy := [];
    var left := m.Keys;
    while left != {}
      invariant left <= m.Keys && Ascending(heavy)
      invariant forall v :: v in heavy <==> v in m && v !in left && m[v] as real > floor
      decreases left
    {
      var v := Take(left);
      left := left - {v};
      if m[v] as real > floor {
        Inserted(heavy, v);
        heavy := Insert(heavy, v);
      }
    }
  }

  lemma {:induction false} AboveBound(capacity: nat, stream: seq<int>, share: real, heavy: seq<int>)
    requires var m := Summary(capacity, stream);
      forall v :: v in heavy <==> v in m && m[v] as real > Bound(capacity, stream, share)
    ensures Part(share, capacity + 1) >= 1.0 ==> MissesNone(stream, share, heavy)
    ensures NearlyAll(capacity, stream, share, heavy)
  {
    hide Summary;
    hide Occurrences;
    hide Bound;
    hide Part;
    forall v | v in heavy ensures Occurrences(stream, v) as real > Bound(capacity, stream, share) {
      Frequent(capacity, stream, v);
    }
    if Part(share, capacity + 1) >= 1.0 {
      forall v | Occurrences(stream, v) as real > Part(share, |stream|) ensures v in heavy {
        Share(capacity, stream, v, share);
      }
    }
  }

  /** A value seen more than `share` keeps a counter over the bound. */
  lemma {:induction false} Share(capacity: nat, stream: seq<int>, v: int, share: real)
    requires Part(share, capacity + 1) >= 1.0 && Occurrences(stream, v) as real > Part(share, |stream|)
    ensures var m := Summary(capacity, stream); v in m && m[v] as real > Bound(capacity, stream, share)
  {
    hide Summary;
    hide Occurrences;
    Frequent(capacity, stream, v);
    var m, c, n := Summary(capacity, stream), (capacity + 1) as real, |stream| as real;
    var short := Occurrences(stream, v) - Counter(m, v);
    assert c * short as real == ((capacity + 1) * short) as real;
    NotOver(c, short as real, n);
    ShareOf(share, c, n);
  }

  lemma {:induction false} NotOver(c: real, x: real, n: real)
    requires c > 0.0 && c * x <= n
    ensures x <= n / c
  {
    var y := n / c - x;
    assert c * (n / c) == n;
    assert c * y == n - c * x;
    Positive(c, y);
  }

  lemma {:induction false} Positive(c: real, y: real)
    requires c > 0.0
    ensures c * y >= 0.0 ==> y >= 0.0
  {
    if y < 0.0 { assert c * (-y) > 0.0; }
  }

  lemma {:induction false} ShareOf(share: real, c: real, n: real)
    requires c > 0.0 && n >= 0.0 && share * c >= 1.0
    ensures share * n >= n / c
  {
    var one := n / c;
    assert n == one * c && one >= 0.0;
    assert share * n == (share * c) * one;
    assert (share * c - 1.0) * one >= 0.0;
  }

  // ---- shares below ----

  ghost function Distinct(n: nat): seq<int> {
    seq(n, i => i)
  }

  lemma {:induction false} AllCounted(capacity: nat, n: nat)
    requires n <= capacity
    ensures var m := Summary(capacity, Distinct(n)); |m| == n && forall v :: v in m <==> 0 <= v < n
    ensures var m := Summary(capacity, Distinct(n)); forall v | v in m :: m[v] == 1
  {
    if n > 0 {
      AllCounted(capacity, n - 1);
      assert Distinct(n)[..n - 1] == Distinct(n - 1);
      var m := Summary(capacity, Distinct(n - 1));
      assert m[n - 1 := 1].Keys == m.Keys + {n - 1};
    }
  }

  lemma {:induction false} SeenOnce(n: nat, v: nat)
    ensures Occurrences(Distinct(n), v) == if v < n then 1 else 0
  {
    if n > 0 {
      SeenOnce(n - 1, v);
      assert Distinct(n)[..n - 1] == Distinct(n - 1);
    }
  }

  lemma {:induction false} NoneLeft(capacity: nat)
    ensures Summary(capacity, Distinct(capacity + 1)) == map[]
  {
    var stream := Distinct(capacity + 1);
    AllCounted(capacity, capacity);
    assert stream[..capacity] == Distinct(capacity) && stream[capacity] == capacity;
    var m := Summary(capacity, Distinct(capacity));
    assert Summary(capacity, stream) == Decremented(m);
    assert forall v | v in m :: m[v] == 1;
    assert Decremented(m).Keys == {};
  }

  /** Below a (capacity + 1)-th a value can be missed, whatever the bound: no counter is left. */
  lemma {:induction false} MissedBelow(capacity: nat, share: real)
    requires Part(share, capacity + 1) < 1.0
    ensures exists stream, v ::
      Summary(capacity, stream) == map[] && Occurrences(stream, v) as real > Part(share, |stream|)
  {
    hide Part;
    NoneLeft(capacity);
    SeenOnce(capacity + 1, 0);
    Once(capacity + 1, Distinct(capacity + 1), share);
  }

  /** A stream and a value in it that `Above` misses. */
  ghost predicate Misses(capacity: nat, stream: seq<int>, share: real, v: int) {
    Occurrences(stream, v) as real > Part(share, |stream|) && !Reported(capacity, stream, share, v)
  }

  /** `Above` misses no value of any stream just when the share is at least a (capacity + 1)-th. */
  lemma {:induction false} NeverMisses(capacity: nat, share: real)
    ensures (forall stream, v :: !Misses(capacity, stream, share, v)) <==> Part(share, capacity + 1) >= 1.0
  {
    hide Summary;
    hide Occurrences;
    hide Part;
    hide Bound;
    if Part(share, capacity + 1) >= 1.0 {
      forall stream, v ensures !Misses(capacity, stream, share, v) {
        if Occurrences(stream, v) as real > Part(share, |stream|) { Share(capacity, stream, v, share); }
      }
    } else {
      MissedBelow(capacity, share);
      var stream, v :| Summary(capacity, stream) == map[] && Occurrences(stream, v) as real > Part(share, |stream|);
      assert Misses(capacity, stream, share, v);
    }
  }

  lemma {:induction false} Once(n: nat, stream: seq<int>, share: real)
    requires Part(share, n) < 1.0 && |stream| == n && Occurrences(stream, 0) == 1
    ensures Occurrences(stream, 0) as real > Part(share, |stream|)
  {
    hide Occurrences;
    hide Part;
    assert Occurrences(stream, 0) as real == 1.0;
  }
}
