/** Sorted lists and their bound searches: src/Core/Collections/SortedListEx.cs.

    A list keeps its keys, in increasing order, beside its values. Keys are compared through
    `rank`, the number that the comparer of the list compares.
  */
module SortedLists {
  import opened Options

  datatype SortedList<K, V> = SortedList(keys: seq<K>, values: seq<V>)

  ghost predicate Increasing<K>(keys: seq<K>, rank: K -> nat) {
    forall i, j | 0 <= i < j < |keys| :: rank(keys[i]) < rank(keys[j])
  }

  ghost predicate Sorted<K, V>(list: SortedList<K, V>, rank: K -> nat) {
    |list.keys| == |list.values| && Increasing(list.keys, rank)
  }

  /** How many keys do not come after x. */
  function CountLe<K>(keys: seq<K>, rank: K -> nat, x: nat): (n: nat)
    ensures n <= |keys|
  {
    if keys == [] then 0
    else if rank(keys[|keys| - 1]) <= x then |keys|
    else CountLe(keys[..|keys| - 1], rank, x)
  }

  /** How many keys come before x. */
  function CountLt<K>(keys: seq<K>, rank: K -> nat, x: nat): (n: nat)
    ensures n <= |keys|
  {
    if keys == [] then 0
    else if rank(keys[|keys| - 1]) < x then |keys|
    else CountLt(keys[..|keys| - 1], rank, x)
  }

  /** CountLe splits the keys at x. */
  lemma {:induction false} CountLeIs<K>(keys: seq<K>, rank: K -> nat, x: nat)
    requires Increasing(keys, rank)
    ensures forall i | 0 <= i < |keys| :: rank(keys[i]) <= x <==> i < CountLe(keys, rank, x)
  {
    if keys != [] && rank(keys[|keys| - 1]) > x {
      CountLeIs(keys[..|keys| - 1], rank, x);
    }
  }

  lemma {:induction false} CountLtIs<K>(keys: seq<K>, rank: K -> nat, x: nat)
    requires Increasing(keys, rank)
    ensures forall i | 0 <= i < |keys| :: rank(keys[i]) < x <==> i < CountLt(keys, rank, x)
  {
    if keys != [] && rank(keys[|keys| - 1]) >= x {
      CountLtIs(keys[..|keys| - 1], rank, x);
    }
  }

  /** The value at the greatest key that is not above `key`. */
  method TryGetLowerBound<K, V>(list: SortedList<K, V>, rank: K -> nat, key: K) returns (value: Option<V>)
    requires Sorted(list, rank)
    ensures var n := CountLe(list.keys, rank, rank(key));
            value == if n == 0 then None else Some(list.values[n - 1])
  {
    CountLeIs(list.keys, rank, rank(key));
    var lo, hi := 0, |list.keys| - 1;
    value := None;
    while lo <= hi
      invariant 0 <= lo <= hi + 1 <= |list.keys|
      invariant lo <= CountLe(list.keys, rank, rank(key)) <= hi + 1
      invariant value == if lo == 0 then None else Some(list.values[lo - 1])
      decreases hi - lo
    {
      var mid := (hi - lo) / 2 + lo;
      var k := list.keys[mid];
      if rank(k) == rank(key) {
        assert mid + 1 < |list.keys| ==> rank(list.keys[mid + 1]) > rank(key);
        return Some(list.values[mid]);
      }
      if rank(k) < rank(key) {
        value := Some(list.values[mid]);
        lo := mid + 1;
      } else {
        hi := mid - 1;
      }
    }
  }

  /** The least key that is not below `key`. */
  method TryGetUpperBoundKey<K, V>(list: SortedList<K, V>, rank: K -> nat, key: K) returns (closest: Option<K>)
    requires Sorted(list, rank)
    ensures var n := CountLt(list.keys, rank, rank(key));
            if n == |list.keys| then closest == None else closest.Some? && closest.value == list.keys[n]
  {
    CountLtIs(list.keys, rank, rank(key));
    var lo, hi := 0, |list.keys| - 1;
    closest := None;
    while lo <= hi
      invariant 0 <= lo <= hi + 1 <= |list.keys|
      invariant lo <= CountLt(list.keys, rank, rank(key)) <= hi + 1
      invariant if hi + 1 == |list.keys| then closest == None else closest == Some(list.keys[hi + 1])
      decreases hi - lo
    {
      var mid := (hi - lo) / 2 + lo;
      var k := list.keys[mid];
      if rank(k) == rank(key) {
        assert mid > 0 ==> rank(list.keys[mid - 1]) < rank(key);
        assert mid == CountLt(list.keys, rank, rank(key));
        return Some(k);
      }
      if rank(k) < rank(key) {
        lo := mid + 1;
      } else {
        closest := Some(k);
        hi := mid - 1;
      }
    }
  }

  /** Insertion of a new element at a position. */
  function Insert<T>(s: seq<T>, at: nat, x: T): seq<T>
    requires at <= |s|
  {
    s[..at] + [x] + s[at..]
  }

  lemma InsertIs<T>(s: seq<T>, at: nat, x: T)
    requires at <= |s|
    ensures var r := Insert(s, at, x);
            && |r| == |s| + 1 && r[at] == x
            && (forall i | 0 <= i < at :: r[i] == s[i])
            && (forall i | at < i <= |s| :: r[i] == s[i - 1])
  {
  }

  /** SortedList.Add: a key that is already there is refused. */
  function Add<K, V>(list: SortedList<K, V>, rank: K -> nat, key: K, value: V): Option<SortedList<K, V>>
    requires |list.keys| == |list.values|
  {
    var n := CountLt(list.keys, rank, rank(key));
    if n < |list.keys| && rank(list.keys[n]) == rank(key) then None
    else Some(SortedList(Insert(list.keys, n, key), Insert(list.values, n, value)))
  }

  /** The list has this value at a key of this rank. */
  ghost predicate Holds<K, V>(list: SortedList<K, V>, rank: K -> nat, x: nat, value: V)
    requires |list.keys| == |list.values|
  {
    exists i | 0 <= i < |list.keys| :: rank(list.keys[i]) == x && list.values[i] == value
  }

  /** An addition is refused exactly if the key is there, and otherwise adds just that entry. */
  lemma AddIff<K, V(!new)>(list: SortedList<K, V>, rank: K -> nat, key: K, value: V)
    requires Sorted(list, rank)
    ensures var r := Add(list, rank, key, value);
            && (r.None? <==> exists v :: Holds(list, rank, rank(key), v))
            && (r.Some? ==>
                  && |r.value.keys| == |r.value.values| == |list.keys| + 1
                  && forall x, v :: Holds(r.value, rank, x, v) <==>
                                    Holds(list, rank, x, v) || (x == rank(key) && v == value))
  {
    CountLtIs(list.keys, rank, rank(key));
    var n, r := CountLt(list.keys, rank, rank(key)), Add(list, rank, key, value);
    if r.None? {
      assert Holds(list, rank, rank(key), list.values[n]);
    } else {
      InsertIs(list.keys, n, key);
      InsertIs(list.values, n, value);
      forall x, v ensures Holds(r.value, rank, x, v) <==> Holds(list, rank, x, v) || (x == rank(key) && v == value) {
        HoldsAfterInsert(list, rank, n, key, value, x, v);
      }
    }
  }

  lemma HoldsAfterInsert<K, V>(list: SortedList<K, V>, rank: K -> nat, n: nat, key: K, value: V, x: nat, v: V)
    requires |list.keys| == |list.values| && n <= |list.keys|
    ensures Holds(SortedList(Insert(list.keys, n, key), Insert(list.values, n, value)), rank, x, v) <==>
            Holds(list, rank, x, v) || (x == rank(key) && v == value)
  {
    var after := SortedList(Insert(list.keys, n, key), Insert(list.values, n, value));
    if Holds(list, rank, x, v) {
      var i :| 0 <= i < |list.keys| && rank(list.keys[i]) == x && list.values[i] == v;
      var j := if i < n then i else i + 1;
      assert after.keys[j] == list.keys[i] && after.values[j] == list.values[i];
    }
    assert after.keys[n] == key && after.values[n] == value;
    if Holds(after, rank, x, v) {
      var j :| 0 <= j < |after.keys| && rank(after.keys[j]) == x && after.values[j] == v;
      var i := if j < n then j else j - 1;
      assert j != n ==> list.keys[i] == after.keys[j] && list.values[i] == after.values[j];
    }
  }

  lemma AddKeepsSorted<K, V>(list: SortedList<K, V>, rank: K -> nat, key: K, value: V)
    requires Sorted(list, rank) && Add(list, rank, key, value).Some?
    ensures Sorted(Add(list, rank, key, value).value, rank)
  {
    CountLtIs(list.keys, rank, rank(key));
  }
}
