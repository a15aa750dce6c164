/**
 The open-addressing table that numbers fixed-width keys (bench/group_loops.h, FixedTable), over an
 arbitrary hash and an arbitrary memory budget.
 */
module FixedTable {
  import opened FirstSeen
  import opened LoadFactor
  import opened Options
  import opened Probing
  import opened Regrow
  import opened Triangular
  import opened Words

  const CHUNK: nat := 256
  const MIN_HITS: nat := 64
  const MAX_GROWTH: nat := 8

  /** How a call ends; the last two are calls that do not. */
  datatype Status = Ok | OutOfMemory | CapacityError | GrowthNeverEnds | ProbeNeverEnds

  /** One of the requests numbered from `first` to `last` is refused. */
  ghost predicate Refused(grants: nat -> bool, first: nat, last: nat) {
    exists r: nat :: first <= r < last && !grants(r)
  }

  function Larger(a: nat, b: nat): nat { if a < b then b else a }

  /** The groups after the second call: 9/8 of the estimate, at most MAX_GROWTH times those there are. */
  function Guess(first: nat, rows: nat, hits: nat, groups: nat): (wanted: nat)
    requires hits > 0
    ensures wanted <= groups * MAX_GROWTH
  {
    var guess, bound := Wrap(Wrap(first * rows) / hits * 9) / 8, groups * MAX_GROWTH;
    if guess < bound then guess else bound
  }

  /** What a caller may ask of a table. */
  datatype Op<Key> = Reserve(groups: nat) | Consume(rows: seq<Key>)

  /** The rows of a run, in order. */
  function Rows<Key>(ops: seq<Op<Key>>): seq<Key> {
    if ops == [] then [] else Rows(ops[..|ops| - 1]) + RowsOf(ops[|ops| - 1])
  }

  function RowsOf<Key>(op: Op<Key>): seq<Key> {
    match op
    case Reserve(_) => []
    case Consume(rows) => rows
  }

  /** The groups one call may ask for. */
  function Asked<Key>(op: Op<Key>): nat {
    match op
    case Reserve(groups) => groups
    case Consume(rows) => |rows|
  }

  /** The groups one call reserves. */
  function Reserved<Key>(op: Op<Key>): nat {
    match op
    case Reserve(groups) => groups
    case Consume(_) => 0
  }

  /** The most groups any reservation of a run asks for. */
  function Most<Key>(ops: seq<Op<Key>>): nat {
    if ops == [] then 0 else Larger(Most(ops[..|ops| - 1]), Reserved(ops[|ops| - 1]))
  }

  lemma {:induction false} RunGrows<Key>(ops: seq<Op<Key>>, i: nat)
    requires i <= |ops|
    ensures |Rows(ops[..i])| <= |Rows(ops)| && Most(ops[..i]) <= Most(ops)
    decreases |ops| - i
  {
    if i == |ops| {
      assert ops[..i] == ops;
    } else {
      RunGrows(ops, i + 1);
      assert ops[..i + 1][..i] == ops[..i];
    }
  }

  class FixedTable<Key(==)> {
    const hash: Key -> bv64
    const slotOrder: bool  // growth walks the old slots rather than the ids
    const loadNum: nat
    const loadDen: nat
    const estimates: bool
    const grants: nat -> bool  // the budget's answer to the n-th reservation that grows
    var requests: nat
    var table: Slots  // control and slots, once capacity > 0
    var keys: seq<Key>
    var keyCapacity: nat
    var capacity: nat
    var growAt: nat
    var calls: nat
    var firstGroups: nat

    constructor (hash: Key -> bv64, slotOrder: bool, loadNum: nat, loadDen: nat, estimates: bool, grants: nat -> bool)
      requires 0 < loadDen
      ensures Valid() && keys == [] && capacity == 0 && requests == 0
      ensures this.loadNum == loadNum && this.loadDen == loadDen && this.grants == grants && this.hash == hash
    {
      this.hash, this.slotOrder, this.loadNum, this.loadDen := hash, slotOrder, loadNum, loadDen;
      this.estimates, this.grants, requests := estimates, grants, 0;
      table, keys, keyCapacity, capacity, growAt, calls, firstGroups := Slots(0, [], []), [], 0, 0, 0, 0, 0;
    }

    /** Every group is in its slot, and the groups fit the load. */
    ghost predicate Valid()
      reads this
    {
      && 0 < loadDen
      && Distinct(keys)
      && |keys| <= growAt
      && if capacity == 0 then growAt == 0
         else && capacity == Size(table.log) <= MAX_CAPACITY && growAt == Room(capacity, loadNum, loadDen)
              && Roomy(table, hash, keys, FirstIds(|keys|))
    }

    /** The table from which doubling starts. */
    function Least(): nat
      reads this
    {
      if capacity > 0 then table.log else 1
    }

    /** No table the code allows has room for `need` groups. */
    ghost predicate TooLarge(need: nat)
      requires 0 < loadDen
      reads this
    {
      need > growAt && NoRoom(Least(), LARGEST, loadNum, loadDen, need)
    }

    /** No capacity of 64 bits gives room for `need` groups. */
    ghost predicate Unbounded(need: nat)
      requires 0 < loadDen
      reads this
    {
      need > growAt && NoRoom(Least(), LAST, loadNum, loadDen, need)
    }

    lemma Shape()
      requires Valid()
      ensures 1 <= Least() <= LARGEST && |keys| <= capacity <= MAX_CAPACITY
      ensures capacity > 0 ==> capacity == Size(Least())
    {
      SizeLimit(table.log);
    }

    /** Asks the budget for more. */
    method Request() returns (granted: bool)
      modifies this`requests
      ensures requests == old(requests) + 1 && granted == grants(old(requests))
    {
      granted := grants(requests);
      requests := requests + 1;
    }

    /** Moves every group to a table of 8 * 2^log slots; a refusal leaves the table as it was. */
    method Rehash(log: nat) returns (ok: bool)
      requires Valid() && Least() <= log <= LARGEST && |keys| <= Room(Size(log), loadNum, loadDen)
      modifies this`requests, this`table, this`capacity, this`growAt
      ensures Valid() && requests == old(requests) + 1 && ok == grants(old(requests))
      ensures ok ==> table.log == log && capacity == Size(log) && growAt == Room(capacity, loadNum, loadDen)
      ensures !ok ==> table == old(table) && capacity == old(capacity) && growAt == old(growAt)
    {
      hide Room;
      ok := Request();
      if ok {
        Shape();
        SizeLimit(log);
        SizesGrow(Least(), log);
        var blank := Blank(log);
        BlankStoresNothing(hash, keys, log);
        if slotOrder && capacity > 0 {
          table := PlaceBySlot(blank, hash, keys, table, FirstIds(|keys|));
        } else {
          table := PlaceById(blank, hash, keys);
        }
        capacity, growAt := Size(log), Room(Size(log), loadNum, loadDen);
      }
    }

    /** A table with room for `need` groups, unless the budget refuses, none may be so large, or doubling never ends. */
    method GrowTo(need: nat) returns (status: Status)
      requires Valid() && growAt < need
      modifies this`requests, this`table, this`capacity, this`growAt
      ensures Valid() && status != ProbeNeverEnds
      ensures status == GrowthNeverEnds <==> old(Unbounded(need))
      ensures status == CapacityError <==> old(TooLarge(need)) && !old(Unbounded(need))
      ensures status == Ok ==> need <= growAt && NoRoom(old(Least()), Least() - 1, loadNum, loadDen, need)
      ensures status == Ok || status == OutOfMemory ==> requests == old(requests) + 1
      ensures status == OutOfMemory ==> !grants(old(requests))
      ensures status == Ok ==> grants(old(requests))
      ensures status != Ok ==> table == old(table) && capacity == old(capacity) && growAt == old(growAt)
      ensures status == CapacityError || status == GrowthNeverEnds ==> requests == old(requests)
    {
      hide Room;
      hide Roomy;
      hide FirstIds;
      hide Distinct;
      hide Size;
      Shape();
      var first := if capacity > 0 then table.log else 1;
      var fit := Fitting(first, loadNum, loadDen, need);
      if fit.None? {
        return GrowthNeverEnds;
      }
      SizeLimit(fit.value);
      if Size(fit.value) > MAX_CAPACITY {
        return CapacityError;
      }
      var ok := Rehash(fit.value);
      status := if ok then Ok else OutOfMemory;
    }

    /** The groups a call wants in all, in 64 bits. */
    function Need(extra: nat): nat
      reads this
    {
      Wrap(|keys| + extra)
    }

    /** Room for `extra` more groups; each way it can fail has its exact condition. */
    method MakeRoom(extra: nat) returns (status: Status)
      requires Valid()
      modifies this`requests, this`table, this`capacity, this`growAt, this`keyCapacity
      ensures Valid() && requests >= old(requests) && status != ProbeNeverEnds
      ensures status == GrowthNeverEnds <==> old(Unbounded(Need(extra)))
      ensures status == CapacityError <==> old(TooLarge(Need(extra))) && !old(Unbounded(Need(extra)))
      ensures status == OutOfMemory <==>
        status != CapacityError && status != GrowthNeverEnds && Refused(grants, old(requests), requests)
      ensures status == Ok ==> Need(extra) <= growAt
      ensures status == Ok && Need(extra) > old(growAt) ==>
        NoRoom(old(Least()), Least() - 1, loadNum, loadDen, Need(extra))
      ensures status == CapacityError || status == GrowthNeverEnds || old(Need(extra)) <= old(growAt) ==>
        table == old(table) && capacity == old(capacity) && growAt == old(growAt)
    {
      hide Room;
      hide Roomy;
      hide FirstIds;
      hide Distinct;
      hide NoRoom;
      hide Wrap;
      var need := Wrap(|keys| + extra);
      if need > growAt {
        status := GrowTo(need);
        if status != Ok {
          return;
        }
      }
      if need > keyCapacity {
        var ok := Request();
        if !ok {
          return OutOfMemory;
        }
        keyCapacity := Larger(need, Larger(16, Wrap(keyCapacity * 2)));
      }
      return Ok;
    }

    /** The group of `key`, the next id when it is new; None when its probe has no end. */
    method FindOrInsert(key: Key) returns (id: Option<nat>)
      requires Valid() && |keys| < growAt
      modifies this`table, this`keys
      ensures Valid() && |keys| <= old(|keys|) + 1
      ensures id.None? <==> old(|keys|) == capacity && key !in old(keys)
      ensures id.None? ==> keys == old(keys) && Endless(table, hash, keys, key)
      ensures id.Some? ==> keys == Add(old(keys), key) && id.value == IndexOf(keys, key)
    {
      hide Room;
      hide Endless;
      hide FirstIds;
      EndlessWhen(table, hash, keys, key);
      table, keys, id := Numbered(table, hash, keys, key);
    }

    /** All slots are taken, so a probe for `key` has no end, and yet the load has room. */
    ghost predicate Stuck(key: Key)
      reads this
    {
      |keys| == capacity < growAt && key !in keys && table.Shaped() && Endless(table, hash, keys, key)
    }

    method NumberRow(ghost before: seq<Key>, rows: seq<Key>, row: nat, done: seq<nat>) returns (ok: bool, ids: seq<nat>)
      requires Valid() && row < |rows| && |keys| < growAt
      requires keys == Keys(before, rows[..row]) && done == Ids(before, rows[..row])
      modifies this`table, this`keys
      ensures Valid() && |keys| <= old(|keys|) + 1
      ensures ok ==> keys == Keys(before, rows[..row + 1]) && ids == Ids(before, rows[..row + 1])
      ensures !ok ==> keys == old(keys) && ids == done && Stuck(rows[row])
    {
      hide Room;
      hide Endless;
      NextRow(before, rows, row);
      var id := FindOrInsert(rows[row]);
      ok := id.Some?;
      ids := if ok then done + [id.value] else done;
    }

    /** The probes of one chunk, after its room check; `done` holds the ids of the rows before it. */
    method ConsumeChunk(
        ghost before: seq<Key>, rows: seq<Key>, start: nat, count: nat, done: seq<nat>)
      returns (ok: bool, ids: seq<nat>)
      requires Valid() && start + count <= |rows| && |keys| + count <= growAt
      requires keys == Keys(before, rows[..start]) && done == Ids(before, rows[..start])
      modifies this`table, this`keys
      ensures Valid() && start <= |ids| <= start + count
      ensures keys == Keys(before, rows[..|ids|]) && ids == Ids(before, rows[..|ids|])
      ensures ok ==> |ids| == start + count
      ensures !ok ==> |ids| < start + count && Stuck(rows[|ids|])
    {
      hide Room;
      hide Keys;
      hide Ids;
      hide Roomy;
      hide FirstIds;
      hide Distinct;
      hide Stuck;
      ids := done;
      while |ids| < start + count
        invariant start <= |ids| <= start + count && Valid() && |keys| + (start + count - |ids|) <= growAt
        invariant keys == Keys(before, rows[..|ids|]) && ids == Ids(before, rows[..|ids|])
        decreases start + count - |ids|
      {
        ok, ids := NumberRow(before, rows, |ids|, ids);
        if !ok {
          return;
        }
      }
      ok := true;
    }

    /** The rows in chunks, one room check each; a chunk that gets no room stops the call before it. */
    method ConsumeRows(rows: seq<Key>) returns (status: Status, ids: seq<nat>)
      requires Valid()
      modifies this
      ensures Valid() && requests >= old(requests)
      ensures |ids| <= |rows| && keys == Keys(old(keys), rows[..|ids|]) && ids == Ids(old(keys), rows[..|ids|])
      ensures status == Ok <==> |ids| == |rows|
      ensures status == ProbeNeverEnds ==> |ids| < |rows| && Stuck(rows[|ids|])
      ensures status == GrowthNeverEnds ==> |ids| < |rows| && Unbounded(|keys| + Chunk(|rows| - |ids|))
      ensures status == CapacityError ==> |ids| < |rows| && TooLarge(|keys| + Chunk(|rows| - |ids|))
      ensures status == OutOfMemory ==> Refused(grants, old(requests), requests)
      ensures status == Ok ==> !Refused(grants, old(requests), requests)
      ensures old(|keys|) + |rows| <= old(growAt) ==>
        capacity == old(capacity) && status != CapacityError && status != GrowthNeverEnds
    {
      hide Room;
      hide NoRoom;
      hide Roomy;
      hide FirstIds;
      hide Distinct;
      hide Refused;
      hide Keys;
      hide Ids;
      hide Stuck;
      hide Need;
      ids, status := [], Ok;
      RunNothing(keys);
      NoneRefused(grants, requests);
      while |ids| < |rows|
        invariant |ids| <= |rows| && Valid() && status == Ok && requests >= old(requests)
        invariant !Refused(grants, old(requests), requests)
        invariant keys == Keys(old(keys), rows[..|ids|]) && ids == Ids(old(keys), rows[..|ids|])
        invariant old(|keys|) + |rows| <= old(growAt) ==> capacity == old(capacity) && growAt == old(growAt)
        decreases |rows| - |ids|
      {
        var count := Chunk(|rows| - |ids|);
        KeysBound(old(keys), rows[..|ids|]);
        SmallNeed(count);
        ghost var first := requests;
        status := MakeRoom(count);
        RefusedWithin(grants, old(requests), first, requests);
        if status != Ok {
          return;
        }
        SmallNeed(count);
        var ok;
        ok, ids := ConsumeChunk(old(keys), rows, |ids|, count, ids);
        if !ok {
          return ProbeNeverEnds, ids;
        }
      }
    }

    lemma SmallNeed(extra: nat)
      requires Valid() && extra <= MAX_GROWTH * MAX_CAPACITY
      ensures Need(extra) == |keys| + extra && |keys| <= MAX_CAPACITY
    {
      Shape();
    }

    /** Numbers `rows`: the ids of the first-seen map, whatever the table's size, load or growth. */
    method ConsumeChunked(rows: seq<Key>) returns (status: Status, ids: seq<nat>, ghost need: nat)
      requires Valid()
      modifies this
      ensures Valid() && requests >= old(requests)
      ensures |ids| <= |rows| && keys == Keys(old(keys), rows[..|ids|]) && ids == Ids(old(keys), rows[..|ids|])
      ensures status == Ok ==> |ids| == |rows|
      ensures status == ProbeNeverEnds ==> |ids| < |rows| && Stuck(rows[|ids|])
      ensures status == GrowthNeverEnds ==> Unbounded(need)
      ensures status == CapacityError ==> TooLarge(need) && need <= old(|keys|) + |rows|
      ensures need <= MAX_GROWTH * MAX_CAPACITY
      ensures status == OutOfMemory ==> Refused(grants, old(requests), requests)
      ensures old(|keys|) + |rows| <= old(growAt) ==> |keys| <= old(capacity)
      ensures old(|keys|) + |rows| <= old(growAt) && |ids| < |rows| ==>
        capacity == old(capacity) && (status == ProbeNeverEnds || status == OutOfMemory)
    {
      hide Room;
      hide NoRoom;
      hide Roomy;
      hide FirstIds;
      hide Distinct;
      hide Refused;
      hide Keys;
      hide Ids;
      hide Stuck;
      var before := |keys|;
      status, ids := ConsumeRows(rows);
      need := |keys| + Chunk(|rows| - |ids|);
      KeysBound(old(keys), rows[..|ids|]);
      Shape();
      if status == Ok && estimates {
        status, need := Estimate(before, ids);
      }
    }

    /** After the second call, room for the groups its hits suggest; a refusal changes no group. */
    method Estimate(before: nat, ids: seq<nat>) returns (status: Status, ghost need: nat)
      requires Valid()
      modifies this`requests, this`table, this`capacity, this`growAt, this`keyCapacity, this`calls, this`firstGroups
      ensures Valid() && requests >= old(requests) && (status == Ok || status == GrowthNeverEnds)
      ensures status == GrowthNeverEnds ==> Unbounded(need)
      ensures need <= MAX_GROWTH * MAX_CAPACITY
    {
      hide Room;
      hide NoRoom;
      hide Roomy;
      hide FirstIds;
      hide Distinct;
      hide Refused;
      status, need := Ok, 0;
      if calls >= 2 {
        return;
      }
      calls := calls + 1;
      if calls == 1 {
        firstGroups := |keys|;
        return;
      }
      if before != firstGroups || firstGroups == 0 {
        return;
      }
      var hits := 0;
      for row := 0 to |ids| {
        hits := hits + if ids[row] < firstGroups then 1 else 0;
      }
      if hits < MIN_HITS {
        return;
      }
      var wanted := Guess(firstGroups, |ids|, hits, |keys|);
      if wanted > |keys| {
        Shape();
        SmallNeed(wanted - |keys|);
        need := wanted;
        var reserved := MakeRoom(wanted - |keys|);
        status := if reserved == GrowthNeverEnds then GrowthNeverEnds else Ok;
      }
    }

    /**
     Any run of reservations and batches numbers its rows as one first-seen map of all of them. It stops only
     where the budget refuses a request, or no table may have the groups asked for; with products below 2^64
     doubling always ends, and with a safe load every probe does.
     */
    method Run(ops: seq<Op<Key>>) returns (status: Status, ids: seq<nat>)
      requires Valid()
      modifies this
      ensures Valid() && requests >= old(requests)
      ensures status == Ok ==> keys == Keys(old(keys), Rows(ops)) && ids == Ids(old(keys), Rows(ops))
      ensures status == OutOfMemory ==> Refused(grants, old(requests), requests)
      ensures status == ProbeNeverEnds ==> !Safe(loadNum, loadDen)
      ensures Unwrapped(loadNum, loadDen, Most(ops) + MAX_GROWTH * MAX_CAPACITY) ==>
        && status != GrowthNeverEnds
        && (status == CapacityError ==>
            old(|keys|) + |Rows(ops)| + Most(ops) > Room(MAX_CAPACITY, loadNum, loadDen))
    {
      hide Keys;
      hide Ids;
      hide Room;
      hide NoRoom;
      hide Safe;
      hide Unwrapped;
      hide Refused;
      hide Roomy;
      hide FirstIds;
      hide Distinct;
      hide Stuck;
      status, ids := Ok, [];
      RunNothing(old(keys));
      for i := 0 to |ops|
        invariant Valid() && requests >= old(requests) && status == Ok
        invariant keys == Keys(old(keys), Rows(ops[..i])) && ids == Ids(old(keys), Rows(ops[..i]))
      {
        RunStep(old(keys), ops, i);
        RunGrows(ops, i + 1);
        ghost var first := requests;
        var more; ghost var need;
        status, more, need := Do(ops[i]);
        RefusedWithin(grants, old(requests), first, requests);
        if status != Ok {
          Shape();
          NoneTooMany(need, Most(ops) + MAX_GROWTH * MAX_CAPACITY);
          return;
        }
        ids := ids + more;
      }
      assert ops[..|ops|] == ops;
    }

    lemma NoneTooMany(need: nat, most: nat)
      requires Valid() && need <= most
      ensures Unwrapped(loadNum, loadDen, most) ==>
        !Unbounded(need) && (TooLarge(need) ==> need > Room(MAX_CAPACITY, loadNum, loadDen))
    {
      hide Room;
      if Unwrapped(loadNum, loadDen, most) {
        Shape();
        NoMore(need, most, loadDen);
        Found(Least(), loadNum, loadDen, need);
      }
    }

    /** A full table with room left shows that the load is not safe. */
    lemma StuckUnsafe(key: Key)
      requires Valid() && Stuck(key)
      ensures !Safe(loadNum, loadDen)
    {
      hide Room;
      Shape();
      assert Room(Size(Least()), loadNum, loadDen) > Size(Least());
    }

    /** One call of a run; `need` is the number of groups it got no room for. */
    method Do(op: Op<Key>) returns (status: Status, ids: seq<nat>, ghost need: nat)
      requires Valid()
      modifies this
      ensures Valid() && requests >= old(requests)
      ensures status == Ok ==> keys == Keys(old(keys), RowsOf(op)) && ids == Ids(old(keys), RowsOf(op))
      ensures status == OutOfMemory ==> Refused(grants, old(requests), requests)
      ensures status == ProbeNeverEnds ==> !Safe(loadNum, loadDen)
      ensures status == GrowthNeverEnds ==> Unbounded(need)
      ensures status == CapacityError ==> TooLarge(need) && need <= old(|keys|) + Asked(op)
      ensures need <= Reserved(op) + MAX_GROWTH * MAX_CAPACITY
    {
      hide Room;
      hide NoRoom;
      hide Refused;
      hide Roomy;
      hide FirstIds;
      hide Distinct;
      hide Stuck;
      hide Safe;
      match op {
        case Reserve(groups) =>
          need := Need(groups);
          Shape();
          status := MakeRoom(groups);
          ids := [];
        case Consume(rows) =>
          status, ids, need := ConsumeChunked(rows);
          if status == ProbeNeverEnds { StuckUnsafe(rows[|ids|]); }
          assert status == Ok ==> rows[..|ids|] == rows;
      }
    }

    /** Fills a new table up, given one with more room than slots: its room is reserved, then it is given new keys. */
    method Overfill(log: nat, key: nat -> Key) returns (status: Status)
      requires Valid() && capacity == 0 && 1 <= log <= LARGEST && Room(Size(log), loadNum, loadDen) > Size(log)
      requires (forall r: nat :: grants(r)) && forall i: nat, j: nat :: key(i) == key(j) ==> i == j
      modifies this
      ensures Valid() && status == ProbeNeverEnds
      ensures keys == First(key, capacity) && Stuck(key(capacity))
    {
      hide Room;
      hide Roomy;
      hide FirstIds;
      hide Distinct;
      hide Keys;
      hide Ids;
      hide Endless;
      hide Size;
      var groups := Room(Size(log), loadNum, loadDen);
      RoomFitsWord(Size(log), loadNum, loadDen);
      status := MakeRoom(groups);
      Shape();
      assert Least() <= log;
      SizesGrow(Least(), log);
      var slots := capacity;
      var ids; ghost var need;
      status, ids, need := ConsumeChunked(First(key, slots + 1));
      KeysOfNew(key, slots + 1, |ids|);
    }

    /**
     A new table can be filled up exactly when its load is not safe, and then the probe for one key more has no
     end.
     */
    method FillUp(key: nat -> Key) returns (status: Status)
      requires Valid() && capacity == 0
      requires (forall r: nat :: grants(r)) && forall i: nat, j: nat :: key(i) == key(j) ==> i == j
      modifies this
      ensures Valid()
      ensures status == ProbeNeverEnds <==> !Safe(loadNum, loadDen)
      ensures status == ProbeNeverEnds ==> keys == First(key, capacity) && Stuck(key(capacity))
    {
      hide Room;
      hide Roomy;
      hide Distinct;
      hide Stuck;
      hide Size;
      for log := 1 to LARGEST + 1
        invariant Valid() && capacity == 0
        invariant forall l: nat | 1 <= l < log :: Room(Size(l), loadNum, loadDen) <= Size(l)
      {
        if Room(Size(log), loadNum, loadDen) > Size(log) {
          status := Overfill(log, key);
          return;
        }
      }
      status := Ok;
    }
  }

  lemma RoomFitsWord(capacity: nat, num: nat, den: nat)
    requires den > 0
    ensures Wrap(Room(capacity, num, den)) == Room(capacity, num, den)
  {
    var x := Wrap(capacity * num);
    Quotient(x, den);
    if x / den > x { Scaled(x / den, x, den); NoMore(1, den, x); }
  }

  /** The first `n` of a list of keys without end. */
  function First<Key>(key: nat -> Key, n: nat): (rows: seq<Key>)
    ensures |rows| == n && forall i: nat | i < n :: rows[i] == key(i)
  {
    if n == 0 then [] else First(key, n - 1) + [key(n - 1)]
  }

  /** Different rows are their own keys. */
  lemma {:induction false} KeysOfNew<Key>(key: nat -> Key, n: nat, k: nat)
    requires k <= n && forall i: nat, j: nat :: key(i) == key(j) ==> i == j
    ensures First(key, n)[..k] == First(key, k) && Keys([], First(key, k)) == First(key, k)
    decreases k
  {
    if k > 0 {
      KeysOfNew(key, n, k - 1);
      assert First(key, k)[..k - 1] == First(key, k - 1);
    }
  }

  lemma {:induction false} RunNothing<Key>(keys: seq<Key>)
    ensures Keys(keys, []) == keys && Ids(keys, []) == []
  {
  }

  lemma {:induction false} RunStep<Key>(keys: seq<Key>, ops: seq<Op<Key>>, i: nat)
    requires i < |ops|
    ensures var before := Keys(keys, Rows(ops[..i]));
      && Keys(keys, Rows(ops[..i + 1])) == Keys(before, RowsOf(ops[i]))
      && Ids(keys, Rows(ops[..i + 1])) == Ids(keys, Rows(ops[..i])) + Ids(before, RowsOf(ops[i]))
      && Reserved(ops[i]) <= Most(ops[..i + 1])
      && |before| + Asked(ops[i]) <= |keys| + |Rows(ops[..i + 1])| + Most(ops[..i + 1])
  {
    assert ops[..i + 1][..i] == ops[..i];
    KeysConcat(keys, Rows(ops[..i]), RowsOf(ops[i]));
    KeysBound(keys, Rows(ops[..i]));
  }

  lemma {:induction false} RefusedWithin(grants: nat -> bool, first: nat, mid: nat, last: nat)
    requires first <= mid <= last
    ensures Refused(grants, first, last) <==> Refused(grants, first, mid) || Refused(grants, mid, last)
  {
  }

  lemma {:induction false} NoneRefused(grants: nat -> bool, first: nat)
    ensures !Refused(grants, first, first)
  {
  }

  /** How many of `n` rows the next chunk takes. */
  function Chunk(n: nat): nat { if n < CHUNK then n else CHUNK }

  lemma NextRow<Key>(keys: seq<Key>, rows: seq<Key>, n: nat)
    requires n < |rows|
    ensures Keys(keys, rows[..n + 1]) == Add(Keys(keys, rows[..n]), rows[n])
    ensures Ids(keys, rows[..n + 1]) == Ids(keys, rows[..n]) + [IndexOf(Keys(keys, rows[..n + 1]), rows[n])]
  {
    assert rows[..n + 1][..n] == rows[..n];
  }
}
