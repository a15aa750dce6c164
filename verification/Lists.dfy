/** Lists of lists. */
module Lists {
  /** All of them, in order. */
  function Flat<A>(lists: seq<seq<A>>): seq<A> {
    if lists == [] then [] else Flat(lists[..|lists| - 1]) + lists[|lists| - 1]
  }

  lemma {:induction false} FlatOne<A>(lists: seq<seq<A>>, list: seq<A>)
    ensures Flat(lists + [list]) == Flat(lists) + list
  {
    assert (lists + [list])[..|lists|] == lists;
  }

  lemma {:induction false} FlatConcat<A>(a: seq<seq<A>>, b: seq<seq<A>>)
    ensures Flat(a + b) == Flat(a) + Flat(b)
  {
    if b == [] {
      assert a + b == a;
    } else {
      var front, last := b[..|b| - 1], b[|b| - 1];
      FlatConcat(a, front);
      assert (a + b)[..|a + b| - 1] == a + front;
      assert Flat(a) + Flat(front) + last == Flat(a) + (Flat(front) + last);
    }
  }

  /** Element `j` of list `c` comes after the lists before it. */
  lemma {:induction false} FlatAt<A>(lists: seq<seq<A>>, c: nat, j: nat)
    requires c < |lists| && j < |lists[c]|
    ensures |Flat(lists[..c])| + j < |Flat(lists)| && Flat(lists)[|Flat(lists[..c])| + j] == lists[c][j]
  {
    assert lists == lists[..c] + ([lists[c]] + lists[c + 1..]);
    FlatConcat(lists[..c], [lists[c]] + lists[c + 1..]);
    FlatConcat([lists[c]], lists[c + 1..]);
    FlatOne([], lists[c]);
    assert [] + [lists[c]] == [lists[c]];
  }

  lemma {:induction false} Regroup<A>(a: seq<A>, b: seq<A>, c: seq<A>)
    ensures a + b + c == a + (b + c) && (b == [] ==> a + b == a) && (b != [] ==> (a + b)[|a + b| - 1] == b[|b| - 1])
  {
  }

  // ---- picking ----

  /** `sub` is the elements at the places `at`, which are all places of elements to keep, in order. */
  ghost predicate Picks<A>(s: seq<A>, keep: A -> bool, sub: seq<A>, at: seq<nat>) {
    PickedAt(s, sub, at) && Rising(at) && KeepsAt(s, keep, at)
  }

  ghost predicate PickedAt<A>(s: seq<A>, sub: seq<A>, at: seq<nat>) {
    |sub| == |at| && forall i | 0 <= i < |at| :: at[i] < |s| && sub[i] == s[at[i]]
  }

  ghost predicate Rising(at: seq<nat>) {
    forall i, j | 0 <= i < j < |at| :: at[i] < at[j]
  }

  ghost predicate KeepsAt<A>(s: seq<A>, keep: A -> bool, at: seq<nat>) {
    forall k: nat | k < |s| :: keep(s[k]) <==> k in at
  }

  /** One more element in front. */
  lemma {:induction false} PicksFirst<A>(s: seq<A>, keep: A -> bool, sub: seq<A>, at: seq<nat>) returns (more: seq<nat>)
    requires s != [] && Picks(s[1..], keep, sub, at)
    ensures Picks(s, keep, if keep(s[0]) then [s[0]] + sub else sub, more)
  {
    hide KeepsAt;
    hide PickedAt;
    hide Rising;
    more := if keep(s[0]) then [0] + Later(at) else Later(at);
    LaterKeeps(s, keep, at, more);
    LaterPicked(s, sub, at);
    LaterRises(at);
  }

  lemma {:induction false} LaterPicked<A>(s: seq<A>, sub: seq<A>, at: seq<nat>)
    requires s != [] && PickedAt(s[1..], sub, at)
    ensures PickedAt(s, sub, Later(at)) && PickedAt(s, [s[0]] + sub, [0] + Later(at))
  {
    var all := [0] + Later(at);
    forall i | 0 <= i < |all| ensures all[i] < |s| && ([s[0]] + sub)[i] == s[all[i]] {
      if i > 0 { assert all[i] == at[i - 1] + 1 && ([s[0]] + sub)[i] == sub[i - 1]; }
    }
  }

  lemma {:induction false} LaterRises(at: seq<nat>)
    requires Rising(at)
    ensures Rising(Later(at)) && Rising([0] + Later(at))
  {
    var all := [0] + Later(at);
    forall i, j | 0 <= i < j < |all| ensures all[i] < all[j] {
      assert all[j] == at[j - 1] + 1;
      if i > 0 { assert all[i] == at[i - 1] + 1; }
    }
  }

  lemma {:induction false} LaterKeeps<A>(s: seq<A>, keep: A -> bool, at: seq<nat>, more: seq<nat>)
    requires s != [] && KeepsAt(s[1..], keep, at) && more == if keep(s[0]) then [0] + Later(at) else Later(at)
    ensures KeepsAt(s, keep, more)
  {
    forall k: nat | k < |s| ensures keep(s[k]) <==> k in more {
      LaterHas(at, k);
      if k > 0 { assert s[1..][k - 1] == s[k]; }
    }
  }

  /** The places after one more. */
  function Later(at: seq<nat>): (later: seq<nat>)
    ensures |later| == |at| && forall i | 0 <= i < |at| :: later[i] == at[i] + 1
  {
    seq(|at|, i requires 0 <= i < |at| => at[i] + 1)
  }

  lemma {:induction false} LaterHas(at: seq<nat>, k: nat)
    ensures k in Later(at) <==> k > 0 && k - 1 in at
  {
    if i :| 0 <= i < |at| && at[i] == k - 1 { assert Later(at)[i] == k; }
  }

  /** One more element at the end. */
  lemma {:induction false} PicksLast<A>(s: seq<A>, keep: A -> bool, sub: seq<A>, at: seq<nat>) returns (more: seq<nat>)
    requires s != [] && Picks(s[..|s| - 1], keep, sub, at)
    ensures Picks(s, keep, sub + if keep(s[|s| - 1]) then [s[|s| - 1]] else [], more)
  {
    hide KeepsAt;
    var n := |s| - 1;
    more := at + if keep(s[n]) then [n] else [];
    LastKeeps(s, keep, sub, at, more);
  }

  lemma {:induction false} LastKeeps<A>(s: seq<A>, keep: A -> bool, sub: seq<A>, at: seq<nat>, more: seq<nat>)
    requires s != [] && PickedAt(s[..|s| - 1], sub, at) && KeepsAt(s[..|s| - 1], keep, at)
    requires more == at + if keep(s[|s| - 1]) then [|s| - 1] else []
    ensures KeepsAt(s, keep, more)
  {
    var n := |s| - 1;
    forall k: nat | k < |s| ensures keep(s[k]) <==> k in more {
      if k < n { assert s[..n][k] == s[k]; }
    }
  }
}
