/**
 * `VecMap<K, V>` of benches/header_map/vec_map.rs: a map that keeps its pairs
 * in one growable vector and finds keys by scanning it from the front. The
 * vector is the field `vec`, which the mutating methods reassign. A `&mut V`
 * that the source hands out (from `get_mut`, `VacantEntry::insert` or
 * `OccupiedEntry::into_mut`) is modelled as the index of the pair it points
 * into, and a store through it is `WriteValue`.
 */
module VecMaps {
  import opened Options
  import opened PairSeqs

  /**
   * The result of `entry`: the key is absent and is kept for a later insert,
   * or it is present at the recorded position. The source's handles also hold
   * an exclusive borrow of the map; here that borrow becomes the preconditions
   * of `VacantInsert` and `IntoMut` (the map has not changed since `Entry`).
   */
  datatype Entry<K> = Vacant(key: K) | Occupied(pos: nat)

  class VecMap<K(==), V> {
    /** The stored pairs, in insertion order modulo removals. */
    var vec: seq<(K, V)>

    /** The map's invariant: no two stored pairs have equal keys. */
    ghost predicate Valid()
      reads this
    {
      KeysDistinct(vec)
    }

    /** `with_capacity`: an empty map (the capacity hint has no observable effect). */
    constructor WithCapacity(cap: nat)
      ensures Valid()
      ensures vec == []
    {
      vec := [];
    }

    /** `find`: scan from the front for the first pair whose key is `k`. */
    method Find(k: K) returns (r: Option<nat>)
      ensures r.Some? <==> HasKey(vec, k)
      ensures r.Some? ==> FirstWithKey(vec, k, r.value)
      ensures r == Position(vec, k)
    {
      var i := 0;
      while i < |vec|
        invariant 0 <= i <= |vec|
        invariant forall j :: 0 <= j < i ==> vec[j].0 != k
      {
        if vec[i].0 == k {
          PositionOfFirst(vec, k, i);
          return Some(i);
        }
        i := i + 1;
      }
      return None;
    }

    /** `insert`: overwrite the pair with an equal key in place, or append. */
    method Insert(key: K, value: V)
      requires Valid()
      modifies this
      ensures Valid()
      ensures vec == Inserted(old(vec), key, value)
      ensures Lookup(vec, key) == Some(value)
      ensures forall k' :: k' != key ==> Lookup(vec, k') == Lookup(old(vec), k')
    {
      InsertKeepsDistinct(vec, key, value);
      LookupAfterInsert(vec, key, value);
      forall k' | k' != key ensures Lookup(Inserted(vec, key, value), k') == Lookup(vec, k') {
        LookupOtherAfterInsert(vec, key, value, k');
      }
      var found := Find(key);
      match found
      case Some(pos) =>
        vec := vec[pos := (key, value)];
      case None =>
        vec := vec + [(key, value)];
    }

    /** `entry`: one scan, yielding the position of `key` or a vacant handle holding it. */
    method Entry(key: K) returns (e: Entry<K>)
      ensures e.Occupied? <==> HasKey(vec, key)
      ensures e.Occupied? ==> FirstWithKey(vec, key, e.pos)
      ensures e.Occupied? ==> Lookup(vec, key) == Some(vec[e.pos].1)
      ensures e.Vacant? ==> e.key == key
    {
      var found := Find(key);
      match found
      case Some(pos) =>
        e := Occupied(pos);
      case None =>
        e := Vacant(key);
    }

    /**
     * `VacantEntry::insert`: push the pending key with `val` and return a
     * reference to the new value, which is the last index.
     */
    method VacantInsert(e: Entry<K>, val: V) returns (pos: nat)
      requires Valid()
      requires e.Vacant? && !HasKey(vec, e.key)
      modifies this
      ensures Valid()
      ensures vec == old(vec) + [(e.key, val)]
      ensures vec == Inserted(old(vec), e.key, val)
      ensures pos == |vec| - 1 && vec[pos] == (e.key, val)
      ensures Lookup(vec, e.key) == Some(val)
    {
      VacantPushIsInsert(vec, e.key, val);
      LookupAfterInsert(vec, e.key, val);
      vec := vec + [(e.key, val)];
      pos := |vec| - 1;
    }

    /** `OccupiedEntry::into_mut`: a reference to the value at the recorded position. */
    method IntoMut(e: Entry<K>) returns (pos: nat)
      requires Valid()
      requires e.Occupied? && e.pos < |vec|
      ensures pos == e.pos && pos < |vec|
      ensures Lookup(vec, vec[pos].0) == Some(vec[pos].1)
    {
      PositionOfStoredKey(vec, e.pos);
      pos := e.pos;
    }

    /** A store through a reference to the value at index `pos`. */
    method WriteValue(pos: nat, val: V)
      requires Valid()
      requires pos < |vec|
      modifies this
      ensures Valid()
      ensures vec == WithValueAt(old(vec), pos, val)
      ensures Lookup(vec, vec[pos].0) == Some(val)
    {
      LookupAfterWrite(vec, pos, val);
      vec := vec[pos := (vec[pos].0, val)];
    }

    /** `get`: the value stored with the first pair whose key is `key`. */
    method Get(key: K) returns (r: Option<V>)
      ensures r == Lookup(vec, key)
      ensures r.Some? <==> HasKey(vec, key)
      ensures r.Some? ==> exists i: nat :: FirstWithKey(vec, key, i) && vec[i].1 == r.value
    {
      var found := Find(key);
      match found
      case Some(pos) =>
        r := Some(vec[pos].1);
      case None =>
        r := None;
    }

    /** `get_mut`: a reference to the value `get` would return, as its position. */
    method GetMut(key: K) returns (r: Option<nat>)
      ensures r.Some? <==> HasKey(vec, key)
      ensures r.Some? ==> FirstWithKey(vec, key, r.value)
      ensures r.Some? ==> Lookup(vec, key) == Some(vec[r.value].1)
    {
      r := Find(key);
    }

    /** `contains_key`: whether `get` finds a match. */
    method ContainsKey(key: K) returns (b: bool)
      ensures b <==> HasKey(vec, key)
      ensures b <==> Lookup(vec, key).Some?
    {
      var found := Find(key);
      b := found.Some?;
    }

    /** `len`: the number of stored pairs, which is the number of distinct keys. */
    method Len() returns (n: nat)
      requires Valid()
      ensures n == |vec|
      ensures n == |Keys(vec)|
    {
      DistinctKeysCount(vec);
      n := |vec|;
    }

    /**
     * `iter`: the stored pairs in storage order; every pair it yields is what
     * `get` returns for that pair's key.
     */
    method Iter() returns (r: seq<(K, V)>)
      requires Valid()
      ensures r == vec
      ensures forall i :: 0 <= i < |r| ==> Lookup(vec, r[i].0) == Some(r[i].1)
    {
      forall i | 0 <= i < |vec| ensures Lookup(vec, vec[i].0) == Some(vec[i].1) {
        PositionOfStoredKey(vec, i);
      }
      r := vec;
    }

    /**
     * `remove`: delete the first pair whose key is `key`, shifting the tail,
     * and return its value; an absent key leaves the map unchanged.
     */
    method Remove(key: K) returns (r: Option<V>)
      requires Valid()
      modifies this
      ensures Valid()
      ensures r == Lookup(old(vec), key)
      ensures vec == Removed(old(vec), key)
      ensures r.None? ==> vec == old(vec)
      ensures Lookup(vec, key) == None
      ensures forall k' :: k' != key ==> Lookup(vec, k') == Lookup(old(vec), k')
    {
      RemoveKeepsDistinct(vec, key);
      LookupAfterRemove(vec, key);
      forall k' | k' != key ensures Lookup(Removed(vec, key), k') == Lookup(vec, k') {
        LookupOtherAfterRemove(vec, key, k');
      }
      var found := Find(key);
      match found
      case Some(pos) =>
        r := Some(vec[pos].1);
        vec := vec[..pos] + vec[pos + 1..];
      case None =>
        r := None;
    }

    /** `clear`: drop every pair. */
    method Clear()
      requires Valid()
      modifies this
      ensures Valid()
      ensures vec == []
      ensures forall k :: Lookup(vec, k) == None
    {
      vec := [];
    }
  }

  // Worked examples: what a caller can conclude from the contracts above alone.

  /** Overwriting an existing key keeps its position; a new key goes to the end. */
  method ExampleOverwrite()
  {
    var m := new VecMap<string, int>.WithCapacity(4);
    m.Insert("a", 1);
    m.Insert("b", 2);
    m.Insert("a", 3);
    var n := m.Len();
    var a := m.Get("a");
    var b := m.Get("b");
    var pairs := m.Iter();
    assert n == 2 && a == Some(3) && b == Some(2);
    assert pairs == [("a", 3), ("b", 2)];
  }

  /** Removal returns the value and keeps the other pairs in order. */
  method ExampleRemove()
  {
    var m := new VecMap<string, int>.WithCapacity(0);
    m.Insert("x", 10);
    m.Insert("y", 20);
    var r := m.Remove("x");
    var n := m.Len();
    var pairs := m.Iter();
    assert r == Some(10) && n == 1 && pairs == [("y", 20)];
    var again := m.Remove("x");
    assert again == None && m.vec == [("y", 20)];
  }

  /** Both entry handles: a vacant insert, then an update through an occupied entry. */
  method ExampleEntry()
  {
    var m := new VecMap<string, int>.WithCapacity(0);
    var e := m.Entry("z");
    assert e.Vacant?;
    var p := m.VacantInsert(e, 99);
    var z := m.Get("z");
    assert z == Some(99);
    var e' := m.Entry("z");
    assert e'.Occupied?;
    var q := m.IntoMut(e');
    m.WriteValue(q, 100);
    z := m.Get("z");
    assert z == Some(100);
  }

  /** Clearing twice leaves the same empty state as clearing once. */
  method ExampleClear()
  {
    var m := new VecMap<string, int>.WithCapacity(2);
    m.Insert("k", 1);
    m.Clear();
    var once := m.vec;
    m.Clear();
    var n := m.Len();
    var k := m.Get("k");
    assert m.vec == once && n == 0 && k == None;
  }
}
