/** The meaning of a group-id table: dense ids in the order keys are first seen. */
module FirstSeen {

  ghost predicate Distinct<Key>(keys: seq<Key>) {
    forall i, j | 0 <= i < j < |keys| :: keys[i] != keys[j]
  }

  function IndexOf<Key(==)>(keys: seq<Key>, key: Key): (i: nat)
    requires key in keys
    ensures i < |keys| && keys[i] == key
  {
    if keys[0] == key then 0 else 1 + IndexOf(keys[1..], key)
  }

  /** The keys after one more row. */
  function Add<Key(==)>(keys: seq<Key>, row: Key): seq<Key> {
    if row in keys then keys else keys + [row]
  }

  /** The keys after `rows`, in id order. */
  function Keys<Key(==)>(keys: seq<Key>, rows: seq<Key>): seq<Key> {
    if rows == [] then keys else Add(Keys(keys, rows[..|rows| - 1]), rows[|rows| - 1])
  }

  /** The id of each row. */
  function Ids<Key(==)>(keys: seq<Key>, rows: seq<Key>): (ids: seq<nat>)
    ensures |ids| == |rows|
  {
    if rows == [] then []
    else
      var row := rows[|rows| - 1];
      Ids(keys, rows[..|rows| - 1]) + [IndexOf(Add(Keys(keys, rows[..|rows| - 1]), row), row)]
  }

  lemma {:induction false} KeysGrow<Key>(keys: seq<Key>, rows: seq<Key>)
    requires Distinct(keys)
    ensures keys <= Keys(keys, rows) && Distinct(Keys(keys, rows))
    ensures forall key :: key in Keys(keys, rows) <==> key in keys || key in rows
  {
    if rows != [] {
      var front := rows[..|rows| - 1];
      KeysGrow(keys, front);
      assert rows == front + [rows[|rows| - 1]];
    }
  }

  lemma {:induction false} KeysBound<Key>(keys: seq<Key>, rows: seq<Key>)
    ensures |Keys(keys, rows)| <= |keys| + |rows|
  {
    if rows != [] { KeysBound(keys, rows[..|rows| - 1]); }
  }

  lemma IndexUnique<Key>(keys: seq<Key>, i: nat)
    requires Distinct(keys) && i < |keys|
    ensures IndexOf(keys, keys[i]) == i
  {
  }

  lemma {:induction false} KeysConcat<Key>(keys: seq<Key>, a: seq<Key>, b: seq<Key>)
    ensures Keys(keys, a + b) == Keys(Keys(keys, a), b)
    ensures Ids(keys, a + b) == Ids(keys, a) + Ids(Keys(keys, a), b)
  {
    if b == [] {
      assert a + b == a;
    } else {
      var front, last := b[..|b| - 1], b[|b| - 1];
      KeysConcat(keys, a, front);
      assert (a + b)[..|a + b| - 1] == a + front && (a + b)[|a + b| - 1] == last;
    }
  }

  /** Equal rows share an id, distinct rows do not, and an id names its row. */
  lemma {:induction false} IdsName<Key>(keys: seq<Key>, rows: seq<Key>)
    requires Distinct(keys)
    ensures forall i | 0 <= i < |rows| ::
      Ids(keys, rows)[i] < |Keys(keys, rows)| && Keys(keys, rows)[Ids(keys, rows)[i]] == rows[i]
    ensures forall i, j | 0 <= i < |rows| && 0 <= j < |rows| ::
      Ids(keys, rows)[i] == Ids(keys, rows)[j] <==> rows[i] == rows[j]
  {
    KeysGrow(keys, rows);
    if rows != [] {
      var front, last := rows[..|rows| - 1], rows[|rows| - 1];
      IdsName(keys, front);
      KeysGrow(keys, front);
      forall i | 0 <= i < |rows|
        ensures Ids(keys, rows)[i] < |Keys(keys, rows)| && Keys(keys, rows)[Ids(keys, rows)[i]] == rows[i]
      {
        if i < |front| {
          assert Ids(keys, rows)[i] == Ids(keys, front)[i] && front[i] == rows[i];
        }
      }
    }
  }

  /** A row that is new takes the next dense id; ids never depend on the rows after it. */
  lemma NewRowIsNext<Key>(keys: seq<Key>, rows: seq<Key>, i: nat)
    requires Distinct(keys) && i < |rows|
    ensures rows[i] !in keys && rows[i] !in rows[..i] ==> Ids(keys, rows)[i] == |Keys(keys, rows[..i])|
    ensures rows[i] in keys ==> Ids(keys, rows)[i] == IndexOf(keys, rows[i])
  {
    var a, b := rows[..i + 1], rows[i + 1..];
    assert rows == a + b && a[..i] == rows[..i];
    KeysConcat(keys, a, b);
    KeysGrow(keys, rows[..i]);
    assert Ids(keys, rows)[i] == Ids(keys, a)[i];
    KeysGrow(keys, a);
    var ks := Keys(keys, a);
    if rows[i] in keys {
      var k := IndexOf(keys, rows[i]);
      assert ks[k] == rows[i];
      IndexUnique(ks, k);
    } else if rows[i] !in rows[..i] {
      IndexUnique(ks, |ks| - 1);
    }
  }
}
