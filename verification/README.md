# VecMap, modelled in Dafny

`VecMap<K, V>` (benches/header_map/vec_map.rs) is a small map for header
storage that keeps its key/value pairs in one growable vector and finds a key
by scanning that vector from the front. Every lookup-based operation goes
through the private scan `find`, which returns the index of the first pair
whose key equals the lookup key. `insert` overwrites that pair in place or
pushes a new one. `entry` scans once and hands back a vacant handle (holding
the key) or an occupied handle (holding the position). `remove` is an
order-preserving positional delete. `get`, `get_mut`, `contains_key`, `len`,
`iter` and `clear` complete the API.

The project has three files:

- `option.dfy` (module `Options`): the `Option` result of lookups.
- `pair_seqs.dfy` (module `PairSeqs`): the behaviour as pure functions over the
  stored sequence of pairs, with the lemmas about it: first-match lookup,
  insert and remove and their effect on every lookup, order preservation,
  key uniqueness, and the count of distinct keys.
- `vec_map.dfy` (module `VecMaps`): the class `VecMap` with the field
  `vec: seq<(K, V)>` that its methods reassign, the invariant `Valid()`
  (keys pairwise distinct), the `Entry` datatype, one method per operation
  proved against `PairSeqs`, and four worked client examples.
  `find` is a `while` loop whose invariant says that no earlier index matched.

A `&mut V` that the source returns (from `get_mut`, `VacantEntry::insert` and
`OccupiedEntry::into_mut`) is modelled as the index of the pair it points
into. A store through such a reference is `VecMap.WriteValue`.

## Model

| member | source | states |
|---|---|---|
| `PairSeqs.Position` | benches/header_map/vec_map.rs:74-76 | Returns Some(i) exactly when some stored key equals k; then i is the smallest index whose key equals k |
| `PairSeqs.Lookup` | benches/header_map/vec_map.rs:39-41 | Some exactly when the key is stored; the value is the one paired with the first matching key |
| `PairSeqs.Inserted` | benches/header_map/vec_map.rs:17-22 | Insert keeps the length when the key is present and adds one pair when it is absent |
| `PairSeqs.RemoveAt` | benches/header_map/vec_map.rs:63-67 | Positional delete: one pair shorter, the prefix unchanged, the tail shifted down by one (not swapped) |
| `PairSeqs.Removed` | benches/header_map/vec_map.rs:63-67 | Removing a present key shortens by one; removing an absent key leaves the pairs unchanged |
| `PairSeqs.WithValueAt` | benches/header_map/vec_map.rs:103-106 | A store through the reference at index i changes that value only: every key stays, every other pair stays |
| `PairSeqs.PositionOfFirst` | benches/header_map/vec_map.rs:74-76 | Any first match is the index the scan returns (first-match semantics are unique) |
| `PairSeqs.PositionOfStoredKey` | benches/header_map/vec_map.rs:39-41 | With distinct keys, looking up the key stored at i finds index i and returns the value stored at i |
| `PairSeqs.PositionSameKeys` | benches/header_map/vec_map.rs:74-76 | The scan reads only keys: two vectors with the same keys at the same indices give the same position |
| `PairSeqs.InKeys` | benches/header_map/vec_map.rs:54-56 | A key is in the key set exactly when some stored pair has it |
| `PairSeqs.DistinctKeysCount` | benches/header_map/vec_map.rs:54-56 | With unique keys, the number of stored pairs equals the number of distinct keys |
| `PairSeqs.InsertedShape` | benches/header_map/vec_map.rs:17-22 | A present key is overwritten at the found index with (k, v) and every other index is untouched; an absent key is appended after the unchanged prefix |
| `PairSeqs.LookupAfterInsert` | benches/header_map/vec_map.rs:17-22 | After insert(k, v), get(k) returns v, whether k was present or not |
| `PairSeqs.LookupOtherAfterInsert` | benches/header_map/vec_map.rs:17-22 | Insert of k does not change the lookup of any other key |
| `PairSeqs.InsertKeepsDistinct` | benches/header_map/vec_map.rs:17-22 | Insert preserves key uniqueness |
| `PairSeqs.VacantPushIsInsert` | benches/header_map/vec_map.rs:89-95 | Pushing an absent key is the same state as insert of that key, and keeps keys unique |
| `PairSeqs.LookupAfterRemove` | benches/header_map/vec_map.rs:63-67 | With unique keys, after remove(k) the key k is no longer found |
| `PairSeqs.LookupOtherAfterRemove` | benches/header_map/vec_map.rs:63-67 | Remove of k does not change the lookup of any other key |
| `PairSeqs.RemoveKeepsDistinct` | benches/header_map/vec_map.rs:63-67 | Remove preserves key uniqueness |
| `PairSeqs.RemovedPreservesOrder` | benches/header_map/vec_map.rs:63-67 | Result index j holds original index j before the removed position and j + 1 from it on, so surviving pairs keep their relative order |
| `PairSeqs.LookupAfterWrite` | benches/header_map/vec_map.rs:103-106 | Writing v through the reference at the first match of a key (under unique keys, any stored index) makes get of that key return v, and keeps keys unique |
| `VecMaps.VecMap.WithCapacity` | benches/header_map/vec_map.rs:10-14 | A new map is empty and valid, whatever the capacity hint |
| `VecMaps.VecMap.Find` | benches/header_map/vec_map.rs:74-76 | The loop returns Some(i) exactly when the key is stored, with i the first matching index; it agrees with Position |
| `VecMaps.VecMap.Insert` | benches/header_map/vec_map.rs:17-22 | New state is Inserted(old, k, v); keys stay unique; get(k) returns v and every other key's lookup is unchanged |
| `VecMaps.VecMap.Entry` | benches/header_map/vec_map.rs:25-36 | Occupied exactly when the key is stored, at its first matching position; Vacant holds the looked-up key |
| `VecMaps.VecMap.VacantInsert` | benches/header_map/vec_map.rs:89-95 | Pushes (key, val), which equals insert on an absent key; the returned reference is the last index; get(key) returns val |
| `VecMaps.VecMap.IntoMut` | benches/header_map/vec_map.rs:103-107 | The reference addresses the recorded position, which is in range, and the value there is the one get returns for its key |
| `VecMaps.VecMap.WriteValue` | benches/header_map/vec_map.rs:104-106 | A store through a reference changes only that value, and get of that pair's key then returns the new value |
| `VecMaps.VecMap.Get` | benches/header_map/vec_map.rs:39-41 | Some exactly when the key is stored, carrying the value of the first matching pair |
| `VecMaps.VecMap.GetMut` | benches/header_map/vec_map.rs:44-46 | Finds the same first matching position whose value get returns; None exactly when the key is absent |
| `VecMaps.VecMap.ContainsKey` | benches/header_map/vec_map.rs:49-51 | True exactly when get returns Some |
| `VecMaps.VecMap.Len` | benches/header_map/vec_map.rs:54-56 | The number of stored pairs, equal to the number of distinct keys |
| `VecMaps.VecMap.Iter` | benches/header_map/vec_map.rs:59-61 | The pairs in storage order; each yielded pair is what get returns for its key |
| `VecMaps.VecMap.Remove` | benches/header_map/vec_map.rs:63-67 | Returns the key's value or None; new state is the order-preserving delete (unchanged when absent); the key is then absent and other lookups are unchanged |
| `VecMaps.VecMap.Clear` | benches/header_map/vec_map.rs:69-71 | No pairs remain and every get returns None; a second clear yields the same state |

## Left out

- Heterogeneous lookup through `K2: PartialEq<K> + ?Sized` is not modelled: lookups take the stored key type and use Dafny's equality, which is reflexive and symmetric, whereas a `PartialEq` implementation need not be.
- The capacity hint of `with_capacity` has no observable effect and is ignored.
- The lifetimes and exclusive borrows of `Entry`, `VacantEntry` and `OccupiedEntry` are not modelled: the handles are plain data, and the borrow's guarantee that the map is unchanged since `entry` becomes a precondition of `VacantInsert` (the key is still absent) and `IntoMut` (the position is still in range).
- A `&mut V` result is a position; the `&V` result of `get` and the `&(K, V)` items of `iter` are returned as values; aliasing is not modelled.
- `iter` returns the stored sequence instead of a lazy slice iterator.
- `len` is an unbounded natural, not a `usize`; overflow of the vector length is not modelled.
- `#[derive(Clone)]`, allocation failure and the vector's memory growth are not modelled.
