/**
 The slots of an open-addressing table under the triangular probe, as values: what holds between any
 two operations of FixedTable, and what placing one entry keeps.
 */
module Probing {
  import opened ControlGroup
  import opened Triangular

  /**
   A table of 8 * 2^log slots: `control` has eight bytes past the slots, `slots` the group ids.
   */
  datatype Slots = Slots(log: nat, control: seq<bv8>, slots: seq<nat>) {
    function Capacity(): nat { 8 * Pow2(log) }

    predicate Full(s: nat)
      requires s < |control|
    {
      control[s] < EMPTY
    }

    /** At least two groups, and the mirror an unaligned load past the end reads. */
    ghost predicate Shaped() {
      && log >= 1
      && |slots| == Capacity()
      && |control| == Capacity() + WIDTH
      && forall k | 0 <= k < WIDTH :: control[Capacity() + k] == control[k]
    }

    ghost predicate GroupFull(pos: nat)
      requires Shaped()
    {
      forall k | 0 <= k < WIDTH :: Full(At(pos, k))
    }

    function At(pos: nat, k: nat): (s: nat)
      ensures s < Capacity()
    {
      (pos + k) % Capacity()
    }

    /** The group the i-th probe of a hash loads. */
    function Probe(h: bv64, i: nat): (pos: nat)
      ensures pos < Capacity()
    {
      (Home(h) + 8 * Triangle(i)) % Capacity()
    }

    function Home(h: bv64): (pos: nat)
      ensures pos < Capacity()
    {
      (h >> 32) as nat % Capacity()
    }

    /** A probe of `h` meets slot `s` in its i-th group, every group before being full. */
    ghost predicate MeetsAt(h: bv64, s: nat, i: nat, k: nat)
      requires Shaped()
    {
      && i < Pow2(log) && k < WIDTH && At(Probe(h, i), k) == s
      && forall j: nat | j < i :: GroupFull(Probe(h, j))
    }

    ghost predicate Meets(h: bv64, s: nat)
      requires Shaped()
    {
      exists i: nat, k: nat :: MeetsAt(h, s, i, k)
    }

    /** Slot `s` holds group slots[s] of `keys`, with its tag, where its probe finds it. */
    ghost predicate Holds<Key>(hash: Key -> bv64, keys: seq<Key>, s: nat)
      requires Shaped() && s < Capacity()
    {
      && slots[s] < |keys|
      && control[s] == Tag(hash(keys[slots[s]]))
      && Meets(hash(keys[slots[s]]), s)
    }

    /** The full slots hold the groups `ids` of `keys`, each once. */
    ghost predicate Stores<Key>(hash: Key -> bv64, keys: seq<Key>, ids: set<nat>) {
      && Shaped()
      && (forall s: nat {:trigger Holds(hash, keys, s)} | s < Capacity() && Full(s) ::
          slots[s] in ids && Holds(hash, keys, s))
      && (forall s: nat, t: nat | s < Capacity() && t < Capacity() && Full(s) && Full(t) && slots[s] == slots[t] ::
          s == t)
      && (forall g | g in ids :: exists s: nat :: s < Capacity() && Full(s) && slots[s] == g)
    }
  }

  function Tag(h: bv64): (t: bv8)
    ensures t < EMPTY
  {
    TagBits(h);
    (h >> 57) as bv8
  }

  lemma TagBits(h: bv64)
    ensures h >> 57 < 0x80
  {
  }

  /** No slot full, mirror included. */
  function Blank(log: nat): Slots {
    var n := 8 * Pow2(log);
    Slots(log, seq(n + WIDTH, i => EMPTY), seq(n, i => 0))
  }

  lemma BlankStoresNothing<Key>(hash: Key -> bv64, keys: seq<Key>, log: nat)
    requires log >= 1
    ensures Blank(log).Stores(hash, keys, {})
  {
  }

  /** The slots after `group` takes slot `slot`, the mirror byte with it. */
  function Placed(t: Slots, slot: nat, tag: bv8, group: nat): (r: Slots)
    requires t.Shaped() && slot < t.Capacity()
    ensures r.log == t.log && r.Shaped()
    ensures r.control[..t.Capacity()] == t.control[..t.Capacity()][slot := tag]
    ensures r.slots == t.slots[slot := group]
  {
    var control := t.control[slot := tag];
    t.(control := if slot < WIDTH then control[t.Capacity() + slot := tag] else control,
       slots := t.slots[slot := group])
  }

  /** `r` is `t` with slot `slot` filled, as far as full slots go. */
  ghost predicate Fills(t: Slots, r: Slots, slot: nat)
    requires t.Shaped() && r.Shaped() && r.log == t.log
  {
    forall s: nat | s < t.Capacity() :: r.Full(s) <==> t.Full(s) || s == slot
  }

  lemma PlacedFills(t: Slots, slot: nat, tag: bv8, group: nat)
    requires t.Shaped() && slot < t.Capacity() && tag < EMPTY
    ensures Fills(t, Placed(t, slot, tag, group), slot)
  {
    var r := Placed(t, slot, tag, group);
    forall s: nat | s < t.Capacity() ensures r.Full(s) <==> t.Full(s) || s == slot {
      assert r.control[..t.Capacity()][s] == r.control[s] && t.control[..t.Capacity()][s] == t.control[s];
    }
  }

  lemma GroupStaysFull(t: Slots, r: Slots, slot: nat, pos: nat)
    requires t.Shaped() && r.Shaped() && r.log == t.log && Fills(t, r, slot) && t.GroupFull(pos)
    ensures r.GroupFull(pos)
  {
    forall k | 0 <= k < WIDTH ensures r.Full(r.At(pos, k)) {
      assert t.Full(t.At(pos, k));
    }
  }

  /** Filling a slot keeps every probe path: groups that are full stay full. */
  lemma PathStays(t: Slots, r: Slots, slot: nat, h: bv64, s: nat)
    requires t.Shaped() && r.Shaped() && r.log == t.log && Fills(t, r, slot) && t.Meets(h, s)
    ensures r.Meets(h, s)
  {
    var i, k :| t.MeetsAt(h, s, i, k);
    forall j: nat | j < i ensures r.GroupFull(r.Probe(h, j)) {
      GroupStaysFull(t, r, slot, t.Probe(h, j));
    }
    assert r.MeetsAt(h, s, i, k);
  }

  /** Placing a group where its own probe first meets an EMPTY slot adds it and disturbs no other. */
  lemma PlaceStores<Key>(t: Slots, hash: Key -> bv64, keys: seq<Key>, ids: set<nat>, slot: nat, group: nat)
    requires t.Stores(hash, keys, ids) && slot < t.Capacity() && !t.Full(slot)
    requires group < |keys| && group !in ids && t.Meets(hash(keys[group]), slot)
    ensures Placed(t, slot, Tag(hash(keys[group])), group).Stores(hash, keys, ids + {group})
  {
    var tag := Tag(hash(keys[group]));
    var r := Placed(t, slot, tag, group);
    PlacedFills(t, slot, tag, group);
    forall s: nat | s < r.Capacity() && r.Full(s)
      ensures r.slots[s] in ids + {group} && r.Holds(hash, keys, s)
    {
      assert r.control[s] == r.control[..t.Capacity()][s];
      if s != slot {
        assert t.Full(s) && t.Holds(hash, keys, s);
        assert r.control[s] == t.control[..t.Capacity()][s] == t.control[s];
      }
      PathStays(t, r, slot, hash(keys[r.slots[s]]), s);
    }
    forall s: nat | s < t.Capacity() && t.Full(s) ensures t.slots[s] in ids { assert t.Holds(hash, keys, s); }
    PlacedOnce(t, r, ids, slot, group);
  }

  lemma PlacedOnce(t: Slots, r: Slots, ids: set<nat>, slot: nat, group: nat)
    requires t.Shaped() && r.Shaped() && r.log == t.log && Fills(t, r, slot) && slot < t.Capacity() && !t.Full(slot)
    requires r.slots == t.slots[slot := group] && group !in ids
    requires forall s: nat | s < t.Capacity() && t.Full(s) :: t.slots[s] in ids
    requires forall s: nat, u: nat | s < t.Capacity() && u < t.Capacity() && t.Full(s) && t.Full(u)
      && t.slots[s] == t.slots[u] :: s == u
    requires forall g | g in ids :: exists s: nat :: s < t.Capacity() && t.Full(s) && t.slots[s] == g
    ensures forall s: nat, u: nat | s < r.Capacity() && u < r.Capacity() && r.Full(s) && r.Full(u)
      && r.slots[s] == r.slots[u] :: s == u
    ensures forall g | g in ids + {group} :: exists s: nat :: s < r.Capacity() && r.Full(s) && r.slots[s] == g
  {
    forall g | g in ids + {group}
      ensures exists s: nat :: s < r.Capacity() && r.Full(s) && r.slots[s] == g
    {
      if g == group {
        assert r.Full(slot) && r.slots[slot] == g;
      } else {
        var s: nat :| s < t.Capacity() && t.Full(s) && t.slots[s] == g;
        assert r.Full(s) && r.slots[s] == g;
      }
    }
  }

  /** New keys past the stored ones change nothing. */
  lemma MoreKeys<Key>(t: Slots, hash: Key -> bv64, keys: seq<Key>, ids: set<nat>, more: seq<Key>)
    requires t.Stores(hash, keys, ids)
    ensures t.Stores(hash, keys + more, ids)
  {
    forall s: nat | s < t.Capacity() && t.Full(s) ensures t.slots[s] in ids && t.Holds(hash, keys + more, s) {
      assert t.Holds(hash, keys, s);
    }
  }

  /** A slot is left: the stored groups are fewer than the slots. */
  ghost predicate SlotLeft<Key>(t: Slots, keys: seq<Key>, ids: set<nat>) {
    |keys| < t.Capacity() || (|keys| == t.Capacity() && exists g: nat :: g < |keys| && g !in ids)
  }

  /** With fewer groups than slots, every probe meets a group that is not full. */
  lemma SomeGroupNotFull<Key>(t: Slots, hash: Key -> bv64, keys: seq<Key>, ids: set<nat>, h: bv64) returns (i: nat)
    requires t.Stores(hash, keys, ids) && SlotLeft(t, keys, ids)
    ensures i < Pow2(t.log) && !t.GroupFull(t.Probe(h, i))
  {
    if s: nat :| s < t.Capacity() && !t.Full(s) {
      var k;
      i, k := WalkCovers(t.Home(h), s, t.log);
      Joined(t.Home(h) + 8 * Triangle(i), k, t.Capacity());
      assert t.At(t.Probe(h, i), k) == s;
    } else {
      AllStored(t, hash, keys, ids);
      assert false;
    }
  }

  /** A full table holds as many groups as it has slots. */
  lemma AllStored<Key>(t: Slots, hash: Key -> bv64, keys: seq<Key>, ids: set<nat>)
    requires t.Stores(hash, keys, ids) && forall s: nat | s < t.Capacity() :: t.Full(s)
    ensures !SlotLeft(t, keys, ids)
  {
    forall s: nat | s < t.Capacity() ensures t.slots[s] < |keys| && t.slots[s] in ids { assert t.Holds(hash, keys, s); }
    Pigeonhole(t.slots, |keys|);
    if |keys| == t.Capacity() {
      forall g: nat | g < |keys| ensures g in ids {
        assert g in t.slots;
        var s: nat :| s < |t.slots| && t.slots[s] == g;
      }
    }
  }

  /** A table with as many groups as slots is full. */
  lemma AllFull<Key>(t: Slots, hash: Key -> bv64, keys: seq<Key>, ids: set<nat>)
    requires t.Stores(hash, keys, ids) && |keys| == t.Capacity() && forall g: nat | g < |keys| :: g in ids
    ensures forall s: nat | s < t.Capacity() :: t.Full(s)
  {
    var at := seq(|keys|, g requires 0 <= g < |keys| => SlotOf(t, hash, keys, ids, g));
    Pigeonhole(at, t.Capacity());
    forall s: nat | s < t.Capacity() ensures t.Full(s) {
      assert s in at;
    }
  }

  ghost function SlotOf<Key>(t: Slots, hash: Key -> bv64, keys: seq<Key>, ids: set<nat>, g: nat): (s: nat)
    requires t.Stores(hash, keys, ids) && g in ids
    ensures s < t.Capacity() && t.Full(s) && t.slots[s] == g
  {
    var s: nat :| s < t.Capacity() && t.Full(s) && t.slots[s] == g;
    s
  }

  /** A probe for a key that a full table does not hold meets neither the key nor an EMPTY slot. */
  lemma NeverEnds<Key>(t: Slots, hash: Key -> bv64, keys: seq<Key>, ids: set<nat>, key: Key, i: nat)
    requires t.Stores(hash, keys, ids) && key !in keys && forall s: nat | s < t.Capacity() :: t.Full(s)
    ensures t.GroupFull(t.Probe(hash(key), i)) && Lacks(t, keys, t.Probe(hash(key), i), key)
  {
    forall s: nat | s < t.Capacity() ensures !HoldsKey(t, keys, s, key) {
      if t.slots[s] < |keys| { assert keys[t.slots[s]] in keys; }
    }
  }

  /** When as many probes as there are groups meet neither the key nor an EMPTY slot, no slot has either. */
  lemma AllProbed<Key>(t: Slots, keys: seq<Key>, h: bv64, key: Key, s: nat)
    requires t.Shaped() && s < t.Capacity()
    requires forall i: nat | i < Pow2(t.log) :: t.GroupFull(t.Probe(h, i)) && Lacks(t, keys, t.Probe(h, i), key)
    ensures t.Full(s) && !HoldsKey(t, keys, s, key)
  {
    var i, k := WalkCovers(t.Home(h), s, t.log);
    Joined(t.Home(h) + 8 * Triangle(i), k, t.Capacity());
    assert t.At(t.Probe(h, i), k) == s;
    assert t.GroupFull(t.Probe(h, i)) && Lacks(t, keys, t.Probe(h, i), key);
  }

  lemma Joined(a: nat, b: nat, p: nat)
    requires p > 0
    ensures (a % p + b) % p == (a + b) % p
  {
    Quotient(a, p);
    ModShift(a % p + b, a / p, p);
  }

  lemma FirstProbe(t: Slots, h: bv64)
    ensures t.Probe(h, 0) == t.Home(h)
  {
    Remainder(t.Home(h), 0, t.Home(h), t.Capacity());
  }

  /** The stride after i probes: the walk's next position is its closed form. */
  lemma NextProbe(t: Slots, h: bv64, i: nat)
    ensures t.Probe(h, i + 1) == (t.Probe(h, i) + 8 * (i + 1)) % t.Capacity()
  {
    Joined(t.Home(h) + 8 * Triangle(i), 8 * (i + 1), t.Capacity());
  }

  /** The eight bytes an unaligned load at `pos` reads are those of the eight slots from it, wrapping. */
  lemma LoadWraps(t: Slots, pos: nat, k: nat)
    requires t.Shaped() && pos < t.Capacity() && k < WIDTH
    ensures t.control[pos..pos + WIDTH][k] == t.control[t.At(pos, k)]
  {
    var n := t.Capacity();
    assert n >= 16;
    if pos + k < n {
      Remainder(pos + k, 0, pos + k, n);
    } else {
      Remainder(pos + k, 1, pos + k - n, n);
    }
  }

  /** Slot `s` is full and holds `key`. */
  ghost predicate HoldsKey<Key>(t: Slots, keys: seq<Key>, s: nat, key: Key)
    requires t.Shaped() && s < t.Capacity()
  {
    t.Full(s) && t.slots[s] < |keys| && keys[t.slots[s]] == key
  }

  /** No slot of the group at `pos` holds `key`. */
  ghost predicate Lacks<Key>(t: Slots, keys: seq<Key>, pos: nat, key: Key)
    requires t.Shaped()
  {
    forall k | 0 <= k < WIDTH :: !HoldsKey(t, keys, t.At(pos, k), key)
  }

  /** A held key is met no later than the first group with an EMPTY slot. */
  lemma MetInTime<Key>(t: Slots, keys: seq<Key>, h: bv64, s: nat, key: Key, i: nat) returns (j: nat)
    requires t.Shaped() && s < t.Capacity() && t.Meets(h, s) && HoldsKey(t, keys, s, key)
    requires !t.GroupFull(t.Probe(h, i))
    ensures j <= i && !Lacks(t, keys, t.Probe(h, j), key)
  {
    var j', k :| t.MeetsAt(h, s, j', k);
    j := j';
  }

  /**
   A probe that has met no slot holding `key` up to a group with an EMPTY slot has met none because
   none does.
   */
  lemma MissIsAbsence<Key>(t: Slots, hash: Key -> bv64, keys: seq<Key>, ids: set<nat>, key: Key, i: nat)
    requires t.Stores(hash, keys, ids) && !t.GroupFull(t.Probe(hash(key), i))
    requires forall j: nat | j <= i :: Lacks(t, keys, t.Probe(hash(key), j), key)
    ensures forall g | g in ids && g < |keys| :: keys[g] != key
  {
    forall g | g in ids && g < |keys| ensures keys[g] != key {
      var s: nat :| s < t.Capacity() && t.Full(s) && t.slots[s] == g;
      assert t.Holds(hash, keys, s);
      if keys[g] == key {
        var j := MetInTime(t, keys, hash(key), s, key, i);
      }
    }
  }
}
