/**
 The room a load factor gives a group-id table, in the 64-bit arithmetic of the code
 (bench/group_loops.h, MakeRoom and Rehash): where doubling finds a table, and when no table has more
 room than slots.
 */
module LoadFactor {
  import opened Options
  import opened Triangular
  import opened Words

  const MAX_CAPACITY: nat := 0x2000000
  const LARGEST: nat := 22  // 8 * 2^22 is MAX_CAPACITY
  const LAST: nat := 60  // 8 * 2^60 is the last power of two in 64 bits

  /** The slots of a table. */
  function Size(log: nat): (n: nat)
    ensures n > 0
  {
    8 * Pow2(log)
  }

  /** The groups a table of `capacity` slots holds under the load, the product taken in 64 bits. */
  function Room(capacity: nat, num: nat, den: nat): nat
    requires den > 0
  {
    Wrap(capacity * num) / den
  }

  /** No table from `first` to `last` has room for `need` groups. */
  predicate NoRoom(first: nat, last: nat, num: nat, den: nat, need: nat)
    requires den > 0
  {
    forall log: nat | first <= log <= last :: Room(Size(log), num, den) < need
  }

  // ---- sizes ----

  lemma {:induction false} SizesGrow(a: nat, b: nat)
    requires a <= b
    ensures Size(a) <= Size(b)
    decreases b
  {
    if a < b { SizesGrow(a, b - 1); }
  }

  lemma {:induction false} PowersAdd(a: nat, b: nat)
    ensures Pow2(a + b) == Pow2(a) * Pow2(b)
    decreases b
  {
    if b > 0 {
      PowersAdd(a, b - 1);
      assert Pow2(a) * (2 * Pow2(b - 1)) == 2 * (Pow2(a) * Pow2(b - 1));
    }
  }

  lemma {:induction false} Sizes()
    ensures Size(LARGEST) == MAX_CAPACITY && 2 * Size(LAST) == WORD && Size(1) == 16
  {
    assert Pow2(5) == 32 && Pow2(10) == 1024;
    PowersAdd(10, 10);
    PowersAdd(20, 2);
    PowersAdd(20, 20);
    PowersAdd(40, 20);
  }

  /** The largest table is the one of MAX_CAPACITY slots. */
  lemma {:induction false} SizeLimit(log: nat)
    ensures Size(log) <= MAX_CAPACITY <==> log <= LARGEST
  {
    Sizes();
    if log <= LARGEST { SizesGrow(log, LARGEST); } else { SizesGrow(LARGEST + 1, log); }
  }

  // ---- the doubling loop ----

  /** The capacity after some turns of the doubling loop. */
  function Turned(size: nat, turns: nat): nat {
    if turns == 0 then size else Wrap(2 * Turned(size, turns - 1))
  }

  lemma {:induction false} TurnedTo(first: nat, turns: nat)
    requires first <= LAST
    ensures Turned(Size(first), turns) == if first + turns <= LAST then Size(first + turns) else 0
    decreases turns
  {
    if turns > 0 {
      TurnedTo(first, turns - 1);
      Sizes();
      if first + turns <= LAST { SizesGrow(first + turns, LAST); }
    }
  }

  /** When no table has the room, every turn of the doubling loop leads to another. */
  lemma {:induction false} NeverFound(first: nat, num: nat, den: nat, need: nat)
    requires first <= LAST && den > 0 && need > 0
    ensures NoRoom(first, LAST, num, den, need)
      <==> forall turns: nat :: Room(Turned(Size(first), turns), num, den) < need
  {
    hide Size;
    if NoRoom(first, LAST, num, den, need) {
      forall turns: nat ensures Room(Turned(Size(first), turns), num, den) < need {
        TurnedTo(first, turns);
        Empty(num, den);
      }
    } else {
      var log: nat :| first <= log <= LAST && Room(Size(log), num, den) >= need;
      TurnedTo(first, log - first);
    }
  }

  lemma Empty(num: nat, den: nat)
    requires den > 0
    ensures Room(0, num, den) == 0
  {
  }

  /** The smallest table from `first` on with room for `need` groups; None when doubling never ends. */
  method Fitting(first: nat, num: nat, den: nat, need: nat) returns (fit: Option<nat>)
    requires first <= LAST && den > 0 && need > 0
    ensures fit.None? <==> NoRoom(first, LAST, num, den, need)
    ensures fit.Some? ==> first <= fit.value <= LAST && need <= Room(Size(fit.value), num, den)
    ensures fit.Some? && fit.value > first ==> NoRoom(first, fit.value - 1, num, den, need)
  {
    hide Room;
    var log, size := first, Size(first);
    while Room(size, num, den) < need
      invariant first <= log <= LAST && size == Size(log)
      invariant log > first ==> NoRoom(first, log - 1, num, den, need)
      decreases LAST - log
    {
      TurnedTo(log, 1);
      size := Wrap(2 * size);
      if size == 0 {
        return None;  // no capacity of 64 bits is left, and 0 slots stay 0
      }
      log := log + 1;
    }
    return Some(log);
  }

  // ---- where nothing wraps ----

  /** The load and the groups asked for keep every product of the doubling loop below 2^64. */
  predicate Unwrapped(num: nat, den: nat, need: nat) {
    0 < num && 0 < den && MAX_CAPACITY * num < WORD && 2 * (need * den) <= WORD
  }

  lemma Short(capacity: nat, num: nat, den: nat, need: nat)
    requires den > 0 && capacity * num < WORD
    ensures Room(capacity, num, den) < need <==> capacity * num < need * den
  {
    var x := capacity * num;
    Quotient(x, den);
    if x / den < need { Scaled(need, x / den, den); } else { NoMore(need, x / den, den); }
  }

  lemma NoMore(a: nat, b: nat, p: nat)
    requires a <= b
    ensures a * p <= b * p
  {
    assert (b - a) * p >= 0;
  }

  /** A table of at most MAX_CAPACITY slots has no wrapped room, and a larger one no less. */
  lemma {:induction false} RoomGrows(a: nat, b: nat, num: nat, den: nat, need: nat)
    requires den > 0 && a <= b && b * num < WORD
    ensures Room(b, num, den) < need ==> Room(a, num, den) < need
  {
    NoMore(a, b, num);
    Short(a, num, den, need);
    Short(b, num, den, need);
  }

  lemma {:induction false} StillShort(first: nat, log: nat, num: nat, den: nat, need: nat)
    requires first <= log <= LAST && first <= LARGEST && Unwrapped(num, den, need)
    requires NoRoom(first, LAST, num, den, need)
    ensures Size(log) * num < need * den
    decreases log
  {
    hide Room;
    if log == first {
      SizeLimit(first);
      NoMore(Size(first), MAX_CAPACITY, num);
    } else {
      StillShort(first, log - 1, num, den, need);
      assert Size(log) * num == 2 * (Size(log - 1) * num) by { Doubled(num, Size(log - 1)); }
    }
    Short(Size(log), num, den, need);
  }

  /** Then doubling ends, and it ends past the largest table just when that one has too little room. */
  lemma {:induction false} Found(first: nat, num: nat, den: nat, need: nat)
    requires first <= LARGEST && Unwrapped(num, den, need)
    ensures !NoRoom(first, LAST, num, den, need)
    ensures NoRoom(first, LARGEST, num, den, need) <==> need > Room(MAX_CAPACITY, num, den)
  {
    hide Room;
    Sizes();
    if NoRoom(first, LAST, num, den, need) {
      StillShort(first, LAST, num, den, need);
      NoMore(1, num, Size(LAST));
    }
    forall log: nat | first <= log <= LARGEST && need > Room(MAX_CAPACITY, num, den)
      ensures Room(Size(log), num, den) < need
    {
      SizesGrow(log, LARGEST);
      RoomGrows(Size(log), MAX_CAPACITY, num, den, need);
    }
  }

  // ---- where doubling has no end ----

  /** More groups than 64 bits of product give room for. */
  lemma {:induction false} TooMany(first: nat, num: nat, den: nat, need: nat)
    requires den > 0 && need * den >= WORD
    ensures NoRoom(first, LAST, num, den, need)
  {
    forall log: nat | first <= log <= LAST ensures Room(Size(log), num, den) < need {
      var x := Wrap(Size(log) * num);
      Quotient(x, den);
      if need <= x / den { NoMore(need, x / den, den); }
    }
  }

  /** Every load has a reservation whose doubling never ends. */
  lemma {:induction false} EveryLoad(first: nat, num: nat, den: nat)
    requires den > 0
    ensures NoRoom(first, LAST, num, den, WORD - 1)
  {
    if den == 1 {
      forall log: nat | first <= log <= LAST ensures Room(Size(log), num, den) < WORD - 1 {
        EvenProduct(Pow2(log), num);
      }
    } else {
      NoMore(2, den, WORD - 1);
      TooMany(first, num, den, WORD - 1);
    }
  }

  lemma EvenProduct(power: nat, num: nat)
    ensures Wrap(8 * power * num) % 2 == 0
  {
    var x := 4 * (power * num);
    assert 8 * power * num == 2 * x;
    Quotient(2 * x, WORD);
  }

  /** Loads that are not above 1, each with a number of groups for which doubling never ends. */
  lemma {:induction false} SmallLoadsWithoutEnd(den: nat)
    requires den > 0
    ensures NoRoom(1, LAST, 0x1000_0000_0000_0000, 0x2000_0000_0000_0000, 1)
    ensures NoRoom(1, LAST, 1, 0x1000_0000_0000_0000, 9)
    ensures NoRoom(1, LAST, 7, 8, 0x2000_0000_0000_0000)
    ensures NoRoom(1, LAST, 0, den, 1)
  {
    forall log: nat | 1 <= log <= LAST
      ensures Room(Size(log), 0x1000_0000_0000_0000, 0x2000_0000_0000_0000) == 0
      ensures Room(Size(log), 1, 0x1000_0000_0000_0000) <= 8
    {
      assert Size(log) * 0x1000_0000_0000_0000 == 0 + Pow2(log - 1) * WORD;
      ModShift(0, Pow2(log - 1), WORD);
      Sizes();
      SizesGrow(log, LAST);
    }
    TooMany(1, 7, 8, 0x2000_0000_0000_0000);
  }

  // ---- loads that leave a slot for every new group ----

  /** No table has more room than slots. */
  predicate Safe(num: nat, den: nat)
    requires den > 0
  {
    forall log: nat | 1 <= log <= LARGEST :: Room(Size(log), num, den) <= Size(log)
  }

  lemma WithinSlots(capacity: nat, num: nat, den: nat)
    requires den > 0 && capacity * num < WORD
    ensures Room(capacity, num, den) <= capacity <==> capacity * num < (capacity + 1) * den
  {
    Short(capacity, num, den, capacity + 1);
  }

  lemma {:induction false} SafeBelow(log: nat, num: nat, den: nat)
    requires den > 0 && MAX_CAPACITY * num < WORD && log <= LARGEST
    requires MAX_CAPACITY * num < (MAX_CAPACITY + 1) * den
    ensures Size(log) * num < WORD && Size(log) * num < (Size(log) + 1) * den
    decreases LARGEST - log
  {
    if log == LARGEST {
      Sizes();
    } else {
      SafeBelow(log + 1, num, den);
      SafeHalf(Size(log), num, den);
    }
  }

  lemma {:induction false} SafeHalf(size: nat, num: nat, den: nat)
    requires (2 * size) * num < (2 * size + 1) * den && (2 * size) * num < WORD
    ensures size * num < (size + 1) * den && size * num < WORD
  {
    assert (2 * size) * num == 2 * (size * num);
    Distribute(2 * size, 1, den);
    Distribute(size, 1, den);
    assert (2 * size) * den == 2 * (size * den);
  }

  /** The largest table decides it, unless products wrap. */
  lemma {:induction false} SafeWhen(num: nat, den: nat)
    requires den > 0 && MAX_CAPACITY * num < WORD
    ensures Safe(num, den) <==> Room(MAX_CAPACITY, num, den) <= MAX_CAPACITY
    ensures Safe(num, den) <==> MAX_CAPACITY * num < (MAX_CAPACITY + 1) * den
  {
    hide Room;
    Sizes();
    WithinSlots(MAX_CAPACITY, num, den);
    if MAX_CAPACITY * num < (MAX_CAPACITY + 1) * den {
      forall log: nat | 1 <= log <= LARGEST ensures Room(Size(log), num, den) <= Size(log) {
        SafeBelow(log, num, den);
        WithinSlots(Size(log), num, den);
      }
    }
  }

  /** Every load up to 1 is safe, and some above 1 are. */
  lemma {:induction false} SafeLoads(num: nat, den: nat)
    ensures 0 < den && num <= den && MAX_CAPACITY * num < WORD ==> Safe(num, den)
    ensures Safe(0x2000002, 0x2000001) && !Safe(9, 8)
  {
    if 0 < den && num <= den && MAX_CAPACITY * num < WORD {
      SafeWhen(num, den);
      NoMore(num, den, MAX_CAPACITY);
    }
    SafeWhen(0x2000002, 0x2000001);
    SafeWhen(9, 8);
  }
}
