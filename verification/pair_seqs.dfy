/**
 * The abstract behaviour of a vector-backed map, stated as pure functions over
 * the vector of key/value pairs it stores (the field `vec: Vec<(K, V)>` of
 * `VecMap` in benches/header_map/vec_map.rs). Every lookup goes through one
 * forward scan that stops at the first pair whose key is equal to the lookup
 * key (`Position`); insertion, removal and writes through a returned reference
 * are defined on top of it, and the lemmas state what each does to lookups,
 * to the order of the pairs and to key uniqueness.
 */
module PairSeqs {
  import opened Options

  /** Some stored pair has key `k`. */
  ghost predicate HasKey<K, V>(s: seq<(K, V)>, k: K)
  {
    exists i :: 0 <= i < |s| && s[i].0 == k
  }

  /** Index `i` holds the first pair of `s` whose key is `k`. */
  ghost predicate FirstWithKey<K, V>(s: seq<(K, V)>, k: K, i: nat)
  {
    i < |s| && s[i].0 == k && forall j :: 0 <= j < i ==> s[j].0 != k
  }

  /** No two stored pairs have equal keys: the map's invariant. */
  ghost predicate KeysDistinct<K, V>(s: seq<(K, V)>)
  {
    forall i, j :: 0 <= i < j < |s| ==> s[i].0 != s[j].0
  }

  /** The two sequences store the same keys at the same indices. */
  ghost predicate SameKeys<K, V>(s: seq<(K, V)>, t: seq<(K, V)>)
  {
    |s| == |t| && forall i :: 0 <= i < |s| ==> s[i].0 == t[i].0
  }

  /**
   * The scan behind every lookup: the index of the first pair whose key is
   * `k`, or None when no pair has that key.
   */
  function Position<K(==), V>(s: seq<(K, V)>, k: K): (r: Option<nat>)
    ensures r.Some? <==> HasKey(s, k)
    ensures r.Some? ==> FirstWithKey(s, k, r.value)
  {
    if |s| == 0 then None
    else if s[0].0 == k then Some(0)
    else match Position(s[1..], k)
      case None => None
      case Some(i) => Some(i + 1)
  }

  /** The value stored with the first pair whose key is `k`, if any. */
  function Lookup<K(==), V>(s: seq<(K, V)>, k: K): (r: Option<V>)
    ensures r.Some? <==> HasKey(s, k)
    ensures r.Some? ==> exists i: nat :: FirstWithKey(s, k, i) && s[i].1 == r.value
  {
    match Position(s, k)
    case None => None
    case Some(i) => Some(s[i].1)
  }

  /** The state after inserting `(k, v)`: overwrite the first match in place, or append. */
  function Inserted<K(==), V>(s: seq<(K, V)>, k: K, v: V): (t: seq<(K, V)>)
    ensures HasKey(s, k) ==> |t| == |s|
    ensures !HasKey(s, k) ==> |t| == |s| + 1
  {
    match Position(s, k)
    case Some(i) => s[i := (k, v)]
    case None => s + [(k, v)]
  }

  /** Delete index `i`, shifting the tail down by one; the other pairs keep their order. */
  function RemoveAt<K, V>(s: seq<(K, V)>, i: nat): (t: seq<(K, V)>)
    requires i < |s|
    ensures |t| == |s| - 1
    ensures forall j :: 0 <= j < i ==> t[j] == s[j]
    ensures forall j :: i <= j < |t| ==> t[j] == s[j + 1]
  {
    s[..i] + s[i + 1..]
  }

  /** The state after removing key `k`: the first match deleted, or `s` itself. */
  function Removed<K(==), V>(s: seq<(K, V)>, k: K): (t: seq<(K, V)>)
    ensures HasKey(s, k) ==> |t| == |s| - 1
    ensures !HasKey(s, k) ==> t == s
  {
    match Position(s, k)
    case Some(i) => RemoveAt(s, i)
    case None => s
  }

  /** The state after writing `v` through a reference to the value at index `i`. */
  function WithValueAt<K, V>(s: seq<(K, V)>, i: nat, v: V): (t: seq<(K, V)>)
    requires i < |s|
    ensures SameKeys(s, t)
    ensures t[i].1 == v
    ensures forall j :: 0 <= j < |s| && j != i ==> t[j] == s[j]
  {
    s[i := (s[i].0, v)]
  }

  /** The set of stored keys. */
  function Keys<K, V>(s: seq<(K, V)>): (r: set<K>)
  {
    if |s| == 0 then {} else {s[0].0} + Keys(s[1..])
  }

  /** A key is in `Keys(s)` exactly when some stored pair has it. */
  lemma {:induction false} InKeys<K, V>(s: seq<(K, V)>, k: K)
    ensures k in Keys(s) <==> HasKey(s, k)
  {
    if |s| > 0 {
      InKeys(s[1..], k);
      if HasKey(s, k) && k != s[0].0 {
        var i :| 0 <= i < |s| && s[i].0 == k;
        assert s[1..][i - 1].0 == k;
      }
      if HasKey(s[1..], k) {
        var i :| 0 <= i < |s[1..]| && s[1..][i].0 == k;
        assert s[i + 1].0 == k;
      }
    }
  }

  // ---------------------------------------------------------------- lookup

  /** The first match is unique: any index that is a first match is the one the scan returns. */
  lemma PositionOfFirst<K, V>(s: seq<(K, V)>, k: K, i: nat)
    requires FirstWithKey(s, k, i)
    ensures Position(s, k) == Some(i)
  {
  }

  /** When keys are distinct, looking up the key stored at `i` finds index `i`. */
  lemma PositionOfStoredKey<K, V>(s: seq<(K, V)>, i: nat)
    requires KeysDistinct(s) && i < |s|
    ensures Position(s, s[i].0) == Some(i)
    ensures Lookup(s, s[i].0) == Some(s[i].1)
  {
  }

  /** Lookups only look at keys: sequences with the same keys give the same positions. */
  lemma PositionSameKeys<K, V>(s: seq<(K, V)>, t: seq<(K, V)>, k: K)
    requires SameKeys(s, t)
    ensures Position(s, k) == Position(t, k)
  {
  }

  /** The number of stored pairs equals the number of distinct keys when keys are unique. */
  lemma {:induction false} DistinctKeysCount<K, V>(s: seq<(K, V)>)
    requires KeysDistinct(s)
    ensures |Keys(s)| == |s|
  {
    if |s| > 0 {
      assert KeysDistinct(s[1..]) by {
        forall i, j | 0 <= i < j < |s[1..]| ensures s[1..][i].0 != s[1..][j].0 {
          assert s[1..][i] == s[i + 1] && s[1..][j] == s[j + 1];
        }
      }
      DistinctKeysCount(s[1..]);
      InKeys(s[1..], s[0].0);
    }
  }

  // ---------------------------------------------------------------- insert

  /**
   * Insert of a present key overwrites the first match in place and leaves every
   * other index alone; insert of an absent key appends and leaves the prefix alone.
   */
  lemma InsertedShape<K, V>(s: seq<(K, V)>, k: K, v: V)
    ensures Position(s, k).Some? ==>
      var i := Position(s, k).value;
      |Inserted(s, k, v)| == |s| && Inserted(s, k, v)[i] == (k, v) &&
      forall j :: 0 <= j < |s| && j != i ==> Inserted(s, k, v)[j] == s[j]
    ensures Position(s, k).None? ==>
      |Inserted(s, k, v)| == |s| + 1 && Inserted(s, k, v)[..|s|] == s &&
      Inserted(s, k, v)[|s|] == (k, v)
  {
  }

  /** After insert(k, v), get(k) returns v. */
  lemma LookupAfterInsert<K, V>(s: seq<(K, V)>, k: K, v: V)
    ensures Lookup(Inserted(s, k, v), k) == Some(v)
  {
    var t := Inserted(s, k, v);
    match Position(s, k)
    case Some(i) =>
      assert SameKeys(s, t);
      PositionSameKeys(s, t, k);
    case None =>
      PositionOfFirst(t, k, |s|);
  }

  /** Insert of `k` leaves the lookup of every other key unchanged. */
  lemma LookupOtherAfterInsert<K, V>(s: seq<(K, V)>, k: K, v: V, k': K)
    requires k' != k
    ensures Lookup(Inserted(s, k, v), k') == Lookup(s, k')
  {
    var t := Inserted(s, k, v);
    match Position(s, k)
    case Some(i) =>
      assert SameKeys(s, t);
      PositionSameKeys(s, t, k');
    case None =>
      match Position(s, k')
      case Some(j) => PositionOfFirst(t, k', j);
      case None => assert !HasKey(t, k');
  }

  /** Insert keeps keys unique. */
  lemma InsertKeepsDistinct<K, V>(s: seq<(K, V)>, k: K, v: V)
    requires KeysDistinct(s)
    ensures KeysDistinct(Inserted(s, k, v))
  {
  }

  /** Vacant-entry insertion (push of an absent key) is the same state as insert. */
  lemma VacantPushIsInsert<K, V>(s: seq<(K, V)>, k: K, v: V)
    requires !HasKey(s, k)
    ensures s + [(k, v)] == Inserted(s, k, v)
    ensures KeysDistinct(s) ==> KeysDistinct(s + [(k, v)])
  {
  }

  // ---------------------------------------------------------------- remove

  /** Removing key `k` makes it absent, provided keys were unique. */
  lemma LookupAfterRemove<K, V>(s: seq<(K, V)>, k: K)
    requires KeysDistinct(s)
    ensures Lookup(Removed(s, k), k) == None
  {
  }

  /** Removing key `k` leaves the lookup of every other key unchanged. */
  lemma LookupOtherAfterRemove<K, V>(s: seq<(K, V)>, k: K, k': K)
    requires k' != k
    ensures Lookup(Removed(s, k), k') == Lookup(s, k')
  {
    var t := Removed(s, k);
    match Position(s, k)
    case None =>
    case Some(i) =>
      match Position(s, k')
      case Some(j) =>
        if j < i {
          assert t[j] == s[j];
          PositionOfFirst(t, k', j);
        } else {
          assert t[j - 1] == s[j];
          forall m | 0 <= m < j - 1 ensures t[m].0 != k' {
            if m >= i {
              assert t[m] == s[m + 1];
            }
          }
          PositionOfFirst(t, k', j - 1);
        }
      case None =>
        forall m | 0 <= m < |t| ensures t[m].0 != k' {
          assert t[m] == if m < i then s[m] else s[m + 1];
        }
  }

  /** Remove keeps keys unique. */
  lemma RemoveKeepsDistinct<K, V>(s: seq<(K, V)>, k: K)
    requires KeysDistinct(s)
    ensures KeysDistinct(Removed(s, k))
  {
  }

  /**
   * Remove preserves the relative order of the surviving pairs: result index
   * `j` holds the pair from original index `j` before the removed position
   * and `j + 1` from it on, so increasing result indices come from increasing
   * original indices.
   */
  lemma RemovedPreservesOrder<K, V>(s: seq<(K, V)>, k: K, a: nat, b: nat)
    requires a < b < |Removed(s, k)|
    ensures var p := if HasKey(s, k) then Position(s, k).value else |s|;
            var a', b' := (if a < p then a else a + 1), (if b < p then b else b + 1);
            a' < b' < |s| && Removed(s, k)[a] == s[a'] && Removed(s, k)[b] == s[b']
  {
  }

  // ---------------------------------------------------------------- entry

  /**
   * Writing through the reference at the first match of a key makes get of that
   * key return the new value; with unique keys every index is that key's first
   * match, and uniqueness is kept.
   */
  lemma LookupAfterWrite<K, V>(s: seq<(K, V)>, i: nat, v: V)
    requires i < |s|
    ensures Position(s, s[i].0) == Some(i) ==> Lookup(WithValueAt(s, i, v), s[i].0) == Some(v)
    ensures KeysDistinct(s) ==> Lookup(WithValueAt(s, i, v), s[i].0) == Some(v)
    ensures KeysDistinct(s) ==> KeysDistinct(WithValueAt(s, i, v))
  {
  }
}
