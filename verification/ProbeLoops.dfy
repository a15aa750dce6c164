/** The probe loops of FixedTable over a table's slots. */
module ProbeLoops {
  import opened ControlGroup
  import opened Probing
  import opened Triangular

  lemma GroupBytes(t: Slots, pos: nat)
    requires t.Shaped() && pos < t.Capacity()
    ensures pos + WIDTH <= |t.control|
    ensures forall k | 0 <= k < WIDTH :: t.control[pos..pos + WIDTH][k] == t.control[t.At(pos, k)]
  {
    forall k | 0 <= k < WIDTH ensures t.control[pos..pos + WIDTH][k] == t.control[t.At(pos, k)] {
      LoadWraps(t, pos, k);
    }
  }

  /** The first EMPTY slot of the group at `pos`, if it has one. */
  method EmptyIn(t: Slots, pos: nat) returns (found: bool, k: nat)
    requires t.Shaped() && pos < t.Capacity()
    ensures found <==> !t.GroupFull(pos)
    ensures found ==> k < WIDTH && !t.Full(t.At(pos, k))
  {
    GroupBytes(t, pos);
    var group := t.control[pos..pos + WIDTH];
    var empty := EmptyMask(group);
    found, k := empty != 0, 0;
    if found {
      var rest;
      k, rest := TakeLowest(empty);
      assert group[k] >= EMPTY;
      assert !t.Full(t.At(pos, k));
    } else {
      forall k | 0 <= k < WIDTH ensures t.Full(t.At(pos, k)) {
        assert group[k] < EMPTY;
      }
    }
  }

  lemma MetHere(t: Slots, h: bv64, i: nat, k: nat)
    requires t.Shaped() && i < Pow2(t.log) && k < WIDTH
    requires forall j: nat | j < i :: t.GroupFull(t.Probe(h, j))
    ensures t.Meets(h, t.At(t.Probe(h, i), k))
  {
    assert t.MeetsAt(h, t.At(t.Probe(h, i), k), i, k);
  }

  method Advance(t: Slots, ghost h: bv64, ghost i: nat, pos: nat, stride: nat) returns (next: nat)
    requires pos == t.Probe(h, i) && stride == 8 * (i + 1)
    ensures next == t.Probe(h, i + 1)
  {
    NextProbe(t, h, i);
    next := (pos + stride) % t.Capacity();
  }

  /** The slot an insert of `h` takes: an EMPTY one in the first group of its probe that has one. */
  method FirstEmpty(t: Slots, h: bv64, ghost end: nat) returns (slot: nat)
    requires t.Shaped() && end < Pow2(t.log) && !t.GroupFull(t.Probe(h, end))
    ensures slot < t.Capacity() && !t.Full(slot) && t.Meets(h, slot)
  {
    var pos := t.Home(h);
    FirstProbe(t, h);
    var stride := WIDTH;
    ghost var i: nat := 0;
    while true
      invariant pos == t.Probe(h, i) && stride == 8 * (i + 1)
      invariant i <= end && forall j: nat | j < i :: t.GroupFull(t.Probe(h, j))
      decreases end - i
    {
      var found, k := EmptyIn(t, pos);
      if found {
        slot := t.At(pos, k);
        MetHere(t, h, i, k);
        return;
      }
      pos := Advance(t, h, i, pos, stride);
      stride, i := stride + WIDTH, i + 1;
    }
  }

  /** The slot of the group at `pos` that holds `key`, if one does: only tag matches are compared. */
  method FindIn<Key(==)>(t: Slots, hash: Key -> bv64, keys: seq<Key>, ghost ids: set<nat>, key: Key, tag: bv8, pos: nat)
    returns (found: bool, slot: nat)
    requires t.Stores(hash, keys, ids) && pos < t.Capacity() && tag == Tag(hash(key))
    ensures found ==> slot < t.Capacity() && HoldsKey(t, keys, slot, key)
    ensures !found ==> Lacks(t, keys, pos, key)
  {
    GroupBytes(t, pos);
    var group := t.control[pos..pos + WIDTH];
    var matches := TagMask(group, tag);
    found, slot := false, 0;
    while matches != 0
      invariant IsMask(matches)
      invariant forall k | 0 <= k < WIDTH :: Flags(matches, k) ==> t.Full(t.At(pos, k))
      invariant forall k | 0 <= k < WIDTH :: group[k] == tag && !Flags(matches, k) ==>
        !HoldsKey(t, keys, t.At(pos, k), key)
      decreases matches
    {
      var k, rest := TakeLowest(matches);
      slot := t.At(pos, k);
      assert t.Full(slot) && t.Holds(hash, keys, slot);
      if keys[t.slots[slot]] == key {
        found := true;
        return;
      }
      matches := rest;
    }
    forall k | 0 <= k < WIDTH ensures !HoldsKey(t, keys, t.At(pos, k), key) {
      var s := t.At(pos, k);
      if t.Full(s) {
        assert t.Holds(hash, keys, s);
        if keys[t.slots[s]] == key {
          assert group[k] == tag;
        }
      }
    }
  }

  /** What a probe for a key comes to. */
  datatype Probed = Held(slot: nat) | Free(slot: nat) | NoEnd

  /** The slot that holds `key`, or the slot an insert of it takes when none does, or neither in a full table. */
  method Find<Key(==)>(t: Slots, hash: Key -> bv64, keys: seq<Key>, ghost ids: set<nat>, key: Key)
    returns (r: Probed)
    requires t.Stores(hash, keys, ids)
    ensures r.Held? ==> r.slot < t.Capacity() && HoldsKey(t, keys, r.slot, key)
    ensures r.Free? ==> r.slot < t.Capacity() && !t.Full(r.slot) && t.Meets(hash(key), r.slot)
    ensures !r.Held? ==> forall g | g in ids && g < |keys| :: keys[g] != key
    ensures r.NoEnd? ==> forall s: nat | s < t.Capacity() :: t.Full(s)
  {
    var h := hash(key);
    var tag := Tag(h);
    var pos := t.Home(h);
    FirstProbe(t, h);
    var stride := WIDTH;
    var i: nat := 0;
    while i < Pow2(t.log)  // after as many probes as groups, the code's loop only goes over them again
      invariant i <= Pow2(t.log) && pos == t.Probe(h, i) && stride == 8 * (i + 1)
      invariant forall j: nat | j < i :: t.GroupFull(t.Probe(h, j)) && Lacks(t, keys, t.Probe(h, j), key)
    {
      var found, slot := FindIn(t, hash, keys, ids, key, tag, pos);
      if found {
        return Held(slot);
      }
      var empty, k := EmptyIn(t, pos);
      if empty {
        MetHere(t, h, i, k);
        MissIsAbsence(t, hash, keys, ids, key, i);
        return Free(t.At(pos, k));
      }
      pos := Advance(t, h, i, pos, stride);
      stride, i := stride + WIDTH, i + 1;
    }
    NoneHolds(t, hash, keys, ids, key);
    return NoEnd;
  }

  lemma NoneHolds<Key>(t: Slots, hash: Key -> bv64, keys: seq<Key>, ids: set<nat>, key: Key)
    requires t.Stores(hash, keys, ids)
    requires forall i: nat | i < Pow2(t.log) ::
      t.GroupFull(t.Probe(hash(key), i)) && Lacks(t, keys, t.Probe(hash(key), i), key)
    ensures forall s: nat | s < t.Capacity() :: t.Full(s)
    ensures forall g | g in ids && g < |keys| :: keys[g] != key
  {
    forall s: nat | s < t.Capacity() ensures t.Full(s) && !HoldsKey(t, keys, s, key) {
      AllProbed(t, keys, hash(key), key, s);
    }
    forall g | g in ids && g < |keys| ensures keys[g] != key {
      var s := SlotOf(t, hash, keys, ids, g);
      assert !HoldsKey(t, keys, s, key);
    }
  }
}
