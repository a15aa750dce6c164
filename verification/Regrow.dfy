/** How FixedTable re-places its groups in a larger table: in id order, or in the order of the old slots. */
module Regrow {
  import opened FirstSeen
  import opened Options
  import opened Probing
  import opened ProbeLoops

  ghost function FirstIds(n: nat): set<nat> {
    if n == 0 then {} else FirstIds(n - 1) + {n - 1}
  }

  lemma FirstIdsHolds(n: nat, g: nat)
    ensures g in FirstIds(n) <==> g < n
  {
  }

  /** Growth in slot order: the ids of the old slots before `at`. */
  ghost function Walked(from: Slots, at: nat): set<nat>
    requires at <= |from.slots| <= |from.control|
  {
    if at == 0 then {}
    else if from.Full(at - 1) then Walked(from, at - 1) + {from.slots[at - 1]}
    else Walked(from, at - 1)
  }

  lemma WalkedHolds(from: Slots, at: nat, g: nat)
    requires at <= |from.slots| <= |from.control|
    ensures g in Walked(from, at) <==> exists s: nat :: s < at && from.Full(s) && from.slots[s] == g
  {
    if at > 0 { WalkedHolds(from, at - 1, g); }
  }

  lemma WalkedAll<Key>(hash: Key -> bv64, keys: seq<Key>, from: Slots, ids: set<nat>)
    requires from.Stores(hash, keys, ids)
    ensures Walked(from, from.Capacity()) == ids
  {
    forall g ensures g in Walked(from, from.Capacity()) <==> g in ids {
      WalkedHolds(from, from.Capacity(), g);
      if s: nat :| s < from.Capacity() && from.Full(s) && from.slots[s] == g {
        assert from.Holds(hash, keys, s);
      }
    }
  }

  lemma NextWalked<Key>(hash: Key -> bv64, keys: seq<Key>, from: Slots, ids: set<nat>, at: nat)
    requires from.Stores(hash, keys, ids) && at < from.Capacity() && from.Full(at)
    ensures from.slots[at] !in Walked(from, at) && from.slots[at] < |keys|
  {
    WalkedHolds(from, at, from.slots[at]);
    assert from.Holds(hash, keys, at);
  }

  /** `t` holds the groups `ids`, and has slots for all. */
  ghost predicate Roomy<Key>(t: Slots, hash: Key -> bv64, keys: seq<Key>, ids: set<nat>) {
    |keys| <= t.Capacity() && t.Stores(hash, keys, ids)
  }

  method Place<Key>(t: Slots, hash: Key -> bv64, keys: seq<Key>, ghost ids: set<nat>, group: nat) returns (r: Slots)
    requires Roomy(t, hash, keys, ids) && group < |keys| && group !in ids
    ensures r.log == t.log && Roomy(r, hash, keys, ids + {group})
  {
    var h := hash(keys[group]);
    ghost var end := SomeGroupNotFull(t, hash, keys, ids, h);
    var slot := FirstEmpty(t, h, end);
    PlaceStores(t, hash, keys, ids, slot, group);
    r := Placed(t, slot, Tag(h), group);
  }

  method PlaceNext<Key>(t: Slots, hash: Key -> bv64, keys: seq<Key>, group: nat) returns (r: Slots)
    requires group < |keys| && Roomy(t, hash, keys, FirstIds(group))
    ensures r.log == t.log && Roomy(r, hash, keys, FirstIds(group + 1))
  {
    FirstIdsHolds(group, group);
    r := Place(t, hash, keys, FirstIds(group), group);
    assert FirstIds(group + 1) == FirstIds(group) + {group};
  }

  method PlaceById<Key>(blank: Slots, hash: Key -> bv64, keys: seq<Key>) returns (t: Slots)
    requires Roomy(blank, hash, keys, {})
    ensures t.log == blank.log && Roomy(t, hash, keys, FirstIds(|keys|))
  {
    t := blank;
    var group := 0;
    while group < |keys|
      invariant group <= |keys| && t.log == blank.log && Roomy(t, hash, keys, FirstIds(group))
    {
      t := PlaceNext(t, hash, keys, group);
      group := group + 1;
    }
  }

  method MoveSlot<Key>(
      t: Slots, hash: Key -> bv64, keys: seq<Key>, from: Slots, ghost ids: set<nat>, at: nat)
    returns (r: Slots)
    requires from.Stores(hash, keys, ids) && at < from.Capacity() && Roomy(t, hash, keys, Walked(from, at))
    ensures r.log == t.log && Roomy(r, hash, keys, Walked(from, at + 1))
  {
    r := t;
    if from.Full(at) {
      NextWalked(hash, keys, from, ids, at);
      r := Place(t, hash, keys, Walked(from, at), from.slots[at]);
      assert Walked(from, at + 1) == Walked(from, at) + {from.slots[at]};
    } else {
      assert Walked(from, at + 1) == Walked(from, at);
    }
  }

  method PlaceBySlot<Key>(
      blank: Slots, hash: Key -> bv64, keys: seq<Key>, from: Slots, ghost ids: set<nat>)
    returns (t: Slots)
    requires Roomy(blank, hash, keys, {}) && from.Stores(hash, keys, ids)
    ensures t.log == blank.log && Roomy(t, hash, keys, ids)
  {
    t := blank;
    var at := 0;
    while at < |from.slots|
      invariant at <= |from.slots| && t.log == blank.log && Roomy(t, hash, keys, Walked(from, at))
    {
      t := MoveSlot(t, hash, keys, from, ids, at);
      at := at + 1;
    }
    WalkedAll(hash, keys, from, ids);
  }

  /** A key no group has, placed as the next one. */
  lemma InsertStores<Key>(t: Slots, hash: Key -> bv64, keys: seq<Key>, slot: nat, key: Key)
    requires Roomy(t, hash, keys, FirstIds(|keys|)) && |keys| < t.Capacity()
    requires slot < t.Capacity() && !t.Full(slot) && t.Meets(hash(key), slot)
    ensures Roomy(Placed(t, slot, Tag(hash(key)), |keys|), hash, keys + [key], FirstIds(|keys| + 1))
  {
    FirstIdsHolds(|keys|, |keys|);
    MoreKeys(t, hash, keys, FirstIds(|keys|), [key]);
    PlaceStores(t, hash, keys + [key], FirstIds(|keys|), slot, |keys|);
    assert FirstIds(|keys| + 1) == FirstIds(|keys|) + {|keys|};
  }

  lemma AllDiffer<Key>(keys: seq<Key>, key: Key)
    requires forall g | g in FirstIds(|keys|) && g < |keys| :: keys[g] != key
    ensures key !in keys
  {
    forall g: nat | g < |keys| ensures keys[g] != key { FirstIdsHolds(|keys|, g); }
  }

  /** A probe for `key` has no end: none of its groups has an EMPTY slot or the key. */
  ghost predicate Endless<Key>(t: Slots, hash: Key -> bv64, keys: seq<Key>, key: Key)
    requires t.Shaped()
  {
    forall i: nat :: t.GroupFull(t.Probe(hash(key), i)) && Lacks(t, keys, t.Probe(hash(key), i), key)
  }

  /** A probe has no end just when every slot has a group and none has the key. */
  lemma {:induction false} EndlessWhen<Key>(t: Slots, hash: Key -> bv64, keys: seq<Key>, key: Key)
    requires Roomy(t, hash, keys, FirstIds(|keys|))
    ensures Endless(t, hash, keys, key) <==> |keys| == t.Capacity() && key !in keys
  {
    forall g: nat | g < |keys| ensures g in FirstIds(|keys|) { FirstIdsHolds(|keys|, g); }
    if |keys| == t.Capacity() && key !in keys {
      AllFull(t, hash, keys, FirstIds(|keys|));
      forall i: nat ensures t.GroupFull(t.Probe(hash(key), i)) && Lacks(t, keys, t.Probe(hash(key), i), key) {
        NeverEnds(t, hash, keys, FirstIds(|keys|), key, i);
      }
    }
    if Endless(t, hash, keys, key) {
      NoneHolds(t, hash, keys, FirstIds(|keys|), key);
      AllStored(t, hash, keys, FirstIds(|keys|));
      AllDiffer(keys, key);
    }
  }

  /** The table and keys after one more row, and its group: the next one when its key is new; None without end. */
  method Numbered<Key(==)>(t: Slots, hash: Key -> bv64, keys: seq<Key>, key: Key)
    returns (t': Slots, keys': seq<Key>, id: Option<nat>)
    requires Roomy(t, hash, keys, FirstIds(|keys|)) && Distinct(keys)
    ensures id.None? <==> Endless(t, hash, keys, key)
    ensures id.None? ==> t' == t && keys' == keys
    ensures id.Some? ==> keys' == Add(keys, key) && id.value == IndexOf(keys', key)
    ensures Distinct(keys') && t'.log == t.log && Roomy(t', hash, keys', FirstIds(|keys'|))
  {
    hide Endless;
    hide FirstIds;
    hide HoldsKey;
    EndlessWhen(t, hash, keys, key);
    t', keys', id := t, keys, None;
    var r := Find(t, hash, keys, FirstIds(|keys|), key);
    match r {
      case Held(slot) =>
        HeldKey(t, keys, slot, key);
        id := Some(t.slots[slot]);
      case Free(slot) =>
        AllDiffer(keys, key);
        AnEmptySlot(t, hash, keys, slot);
        InsertStores(t, hash, keys, slot, key);
        t', keys', id := Placed(t, slot, Tag(hash(key)), |keys|), keys + [key], Some(|keys|);
        IndexUnique(keys', |keys|);
      case NoEnd =>
        AllDiffer(keys, key);
        AllStored(t, hash, keys, FirstIds(|keys|));
    }
  }

  lemma {:induction false} HeldKey<Key>(t: Slots, keys: seq<Key>, slot: nat, key: Key)
    requires t.Shaped() && slot < t.Capacity() && HoldsKey(t, keys, slot, key) && Distinct(keys)
    ensures key in keys && t.slots[slot] == IndexOf(keys, key)
  {
    IndexUnique(keys, t.slots[slot]);
  }

  lemma {:induction false} AnEmptySlot<Key>(t: Slots, hash: Key -> bv64, keys: seq<Key>, slot: nat)
    requires Roomy(t, hash, keys, FirstIds(|keys|)) && slot < t.Capacity() && !t.Full(slot)
    ensures |keys| < t.Capacity()
  {
    if |keys| == t.Capacity() {
      forall g: nat | g < |keys| ensures g in FirstIds(|keys|) { FirstIdsHolds(|keys|, g); }
      AllFull(t, hash, keys, FirstIds(|keys|));
    }
  }
}
