# CacheLRU in Dafny

This project models the generic fixed-capacity LRU cache `CacheLRU<Tkey, Tvalue>` of
`src/CacheLRU.cs` and proves what its operations do. The cache keeps two structures
that must agree:

- an index `dict` from each key to a node of a doubly linked list;
- the list `lru_order` of key-value pairs, from least recently used (head) to most
  recently used (tail);
- a separately kept `count`.

Inserting a new key into a full cache first evicts the head of the list.

The project has four modules:

- `Seqs` (`seqs.dfy`): sequence facts the cache relies on. These are `NoDup`,
  `IndexOf` and `Without` (a sequence with one element taken out). `LinkedList.Remove(node)`
  unlinks a node through its own links, without a search. The model keeps the list as a
  sequence, so it needs `IndexOf` to find the position the node has there.
- `LruSpec` (`lru_spec.dfy`): the abstract state `State(capacity, order, vals)`.
  `order` is the keys from least to most recently used; `vals` maps each key to its
  value. The module defines `Invariant` (positive capacity never exceeded, no key
  twice, order and index hold the same keys). It also defines the four state changes
  the class is built from:
  - `Evict` (RemoveLRU);
  - `Append` (the private `Add(node)`);
  - `Delete` (the private `Remove(key, out node)`);
  - `Put` (Update).

  The lemmas state what these changes do.
- `CacheLRU` (`cache_lru.dfy`): the class itself.
  - Its real fields are `count`, `lruOrder` (the list, a sequence of `Node` objects)
    and `dict` (a map from keys to nodes).
  - A `Node` is an object whose `item` Update overwrites in place, as
    `node.Value = kv` does on a `LinkedListNode`.
  - The mutating methods also state the footprint `Repr` (the nodes the cache owns):
    - the constructor's is fresh, and `Clear` empties it;
    - the inserts add only fresh nodes to it, and Update on a present key reuses
      that key's own node, so its footprint is unchanged;
    - the removals only shrink it, and `RemoveLRU` keeps it.

    So a client can go on calling the cache after each call.
  - `Valid()` ties the fields to the ghost abstract state:
    - the i-th node of the list is the index's node for the i-th key;
    - each indexed node holds its own key with that key's value;
    - `count` is the list's length.
  - Every mutating method is proved to change the abstract state exactly as the
    matching `LruSpec` function says, and to keep `Valid()`.
  - `CopyTo` is a loop that writes an array in place.
- `Demo` (`demo.dfy`): the console demo of `src/Program.cs` as a client. The cache has
  capacity 10 and holds the squares of 0..9. Inserting 11 evicts 0. Key 3 is then
  removed twice: the first removal gives 9 and the second fails. `TouchThenInsert`
  drives Update: in a full cache of capacity 2, updating the older key makes the other
  key the next victim.

C#'s exceptions become values. `New` returns `Failure(CapacityOutOfRange)` for a
capacity below one. The strict `Add` and `Add(KeyValuePair)` return
`Fail(ElementAlreadyInCache)` and leave the cache unchanged. The indexer's getter on a
missing key is a precondition of `Get`.

Reads never change recency. The indexer's getter, `TryGetValue`, `ContainsKey` and
`Contains` are functions or a method without a `modifies` clause, so order and count
are unchanged by construction. The code treats only Update (and the inserts built on
it) as a touch: reading a key does not move it to the tail. The model follows that.
Enumeration, `Keys` and `CopyTo` follow the index's order, which the model leaves
unspecified.

## Model

| member | source | states |
|---|---|---|
| Seqs.IndexOf | src/CacheLRU.cs:117 | the position of the unlinked node in the list, which the model needs because it keeps the list as a sequence: the first position holding the element |
| Seqs.WithoutMembers | src/CacheLRU.cs:117 | taking one element out keeps exactly the other elements |
| Seqs.WithoutAt | src/CacheLRU.cs:117 | unlinking an element that occurs once closes the gap: the result is the prefix before it followed by the suffix after it, so the others keep their relative order |
| Seqs.NoDupWithout | src/CacheLRU.cs:117 | unlinking keeps the list free of duplicates |
| Seqs.NoDupTail | src/CacheLRU.cs:155 | RemoveFirst keeps the list duplicate-free and takes out the only copy of the head |
| Seqs.NoDupCard | src/CacheLRU.cs:11-13 | a duplicate-free list and the set of its keys have the same size |
| LruSpec.Empty | src/CacheLRU.cs:15-23 | the new cache has the given capacity and holds nothing; for a positive capacity it is consistent |
| LruSpec.Evict | src/CacheLRU.cs:147-157 | RemoveLRU keeps the capacity, lowers the size by one (none when empty) and drops the head key from the index |
| LruSpec.Append | src/CacheLRU.cs:82-92 | the private `Add(node)` keeps the capacity and leaves the new key at the tail with its value; a cache within its capacity stays within it |
| LruSpec.Delete | src/CacheLRU.cs:111-123 | the private `Remove(key, out node)` keeps the capacity and leaves the key absent; an absent key changes nothing |
| LruSpec.Put | src/CacheLRU.cs:31-45 | Update keeps the capacity and leaves the key resident with the new value at the tail |
| LruSpec.InvariantSize | src/CacheLRU.cs:11-13 | in every consistent state the index and the list have the same size |
| LruSpec.EmptyInvariant | src/CacheLRU.cs:15-23 | the new cache (and the cleared one) is consistent and empty |
| LruSpec.EvictInvariant | src/CacheLRU.cs:147-157 | RemoveLRU keeps the cache consistent |
| LruSpec.AppendInvariant | src/CacheLRU.cs:82-92 | adding an absent key, with eviction when full, keeps the cache consistent, and so keeps `count <= capacity` |
| LruSpec.DeleteInvariant | src/CacheLRU.cs:111-123 | removing a key keeps the cache consistent |
| LruSpec.EvictTakesHead | src/CacheLRU.cs:147-157 | RemoveLRU is a no-op on the empty cache. Otherwise it takes exactly the head key out of both order and index, lowers the size by one, and leaves the survivors their values and their relative order |
| LruSpec.AppendEvictsAtMostHead | src/CacheLRU.cs:82-92 | a new key lands at the tail with its value. If the cache was not full nothing else changes. If it was full, exactly the head is evicted, once, and the size stays at capacity |
| LruSpec.DeleteKeepsOthers | src/CacheLRU.cs:111-123 | removing a present key takes it out of both structures, lowers the size by one, and closes its gap in the order, leaving the other keys, values and order as they were; removing an absent key changes nothing |
| LruSpec.PutPresentMovesToTail | src/CacheLRU.cs:31-45 | Update on a present key replaces its value and moves it to the tail. The size is unchanged, nothing is evicted, and the other keys keep their relative order |
| LruSpec.PutAbsentInserts | src/CacheLRU.cs:31-45 | Update on an absent key is the insertion, eviction of the head when full included |
| LruSpec.PutInvariant | src/CacheLRU.cs:31-45 | after any Update, which is a removal followed by a re-insertion, the key is resident with the new value at the most recently used position |
| LruSpec.PutTwice | src/CacheLRU.cs:31-45 | updating a key twice with the same value gives the same state as updating it once |
| LruSpec.TouchHead | src/CacheLRU.cs:31-45 | updating the least recently used key makes it the most recently used and moves every other key up one place |
| LruSpec.TouchSavesFromEviction | src/CacheLRU.cs:82-92 | in a full cache, after updating the least recently used key, the next insertion evicts the second-oldest key and keeps the updated one |
| CacheLRU.Node.constructor | src/CacheLRU.cs:42 | the new `LinkedListNode` holds the given pair; `item` is a mutable field, so Update's `node.Value = kv` (src/CacheLRU.cs:38) overwrites it in place |
| CacheLRU.LinkedTail | src/CacheLRU.cs:154-155 | removing the head key from the index and the first node from the list keeps them in step |
| CacheLRU.LinkedSnoc | src/CacheLRU.cs:89-90 | adding a key to the index and its node at the end of the list keeps them in step |
| CacheLRU.LinkedRemoveAt | src/CacheLRU.cs:115-117 | removing a key from the index and its node from the list keeps them in step |
| CacheLRU.HoldsRemove | src/CacheLRU.cs:154 | removing an index entry leaves each remaining node holding its own key and value |
| CacheLRU.HoldsUnlink | src/CacheLRU.cs:115-117 | a removed node is no other key's node, so it can leave the cache's footprint |
| CacheLRU.HoldsAdd | src/CacheLRU.cs:89 | indexing a node that holds its key keeps every node holding its own key and value |
| CacheLRU.IndexedIsListed | src/CacheLRU.cs:115-117 | the node the index returns is linked into the list, so unlinking it finds it |
| CacheLRU.RepresentsEvict | src/CacheLRU.cs:154-156 | the first node holds the head key, and the three field updates of RemoveLRU represent `Evict` |
| CacheLRU.RepresentsAppend | src/CacheLRU.cs:89-91 | with room left, the three field updates of `Add(node)` represent `Append` |
| CacheLRU.RepresentsDelete | src/CacheLRU.cs:115-119 | the node the index gives for a key sits at that key's place in the order, and the three field updates of `Remove(key, out node)` represent `Delete` |
| CacheLRU.CopiedSnoc | src/CacheLRU.cs:209-211 | writing the next key's pair into the next slot extends the copied run |
| CacheLRU.SplitStep | src/CacheLRU.cs:208-212 | taking one more key from the keys still to copy keeps every key either copied exactly once or still to copy |
| CacheLRU.CopiedAll | src/CacheLRU.cs:205-213 | a run of distinct copied keys covering the index is one slot per resident pair, with its current value |
| CacheLRU.CopyPairs | src/CacheLRU.cs:205-213 | the loop of CopyTo writes each key of the index exactly once, with its node's value, into consecutive slots from `arrayIndex`, and no other slot |
| CacheLRU.CacheLRU.constructor | src/CacheLRU.cs:15-23 | for a positive capacity, the new cache is consistent and empty, and owns only fresh objects |
| CacheLRU.CacheLRU.New | src/CacheLRU.cs:15-23 | the constructor fails with CapacityOutOfRange exactly when the capacity is 0 or less, and otherwise gives an empty consistent cache owning only fresh objects |
| CacheLRU.CacheLRU.Get | src/CacheLRU.cs:27 | the indexer's getter returns the key's current value, for a resident key |
| CacheLRU.CacheLRU.Update | src/CacheLRU.cs:31-45 | Update (and the indexer's setter) keeps the cache consistent and performs `Put`: unlink the key if present, reuse or create its node, add it at the tail. On a present key the index keeps the key's own node and the footprint is unchanged; on an absent key the index gets a fresh node, the only one added to the footprint |
| CacheLRU.CacheLRU.Keys | src/CacheLRU.cs:47 | the key collection is exactly the set of resident keys, which are exactly the keys of the order |
| CacheLRU.CacheLRU.Count | src/CacheLRU.cs:52 | `count` equals both the index size and the list length, and is at most the capacity |
| CacheLRU.CacheLRU.Contains | src/CacheLRU.cs:53-54 | true exactly when the key is resident and its current value equals the given one |
| CacheLRU.CacheLRU.Add | src/CacheLRU.cs:61-71 | a present key fails with ElementAlreadyInCache and leaves the state unchanged; an absent key is appended at the tail with its value, evicting the head if full; only fresh nodes join the footprint |
| CacheLRU.CacheLRU.AddPair | src/CacheLRU.cs:73-80 | fails, leaving the state unchanged, only when that exact key and value are resident; otherwise it is an Update, so a different value for a resident key is overwritten; only fresh nodes join the footprint |
| CacheLRU.CacheLRU.AddNode | src/CacheLRU.cs:82-92 | the private `Add(node)` keeps the cache consistent and performs `Append`: evict once if full, then index and link the node at the tail: the node itself becomes the key's index entry and the list's last node, and exactly that node joins the footprint |
| CacheLRU.CacheLRU.Clear | src/CacheLRU.cs:94-99 | the cache returns to the empty state of the same capacity and owns no nodes |
| CacheLRU.CacheLRU.ContainsKey | src/CacheLRU.cs:102 | true exactly when the key is resident, in the index and in the order alike |
| CacheLRU.CacheLRU.Remove | src/CacheLRU.cs:105-109 | true exactly when the key was resident; the state becomes `Delete` of the old one and the footprint only shrinks |
| CacheLRU.CacheLRU.Unlink | src/CacheLRU.cs:111-123 | the private `Remove(key, out node)`: on a hit it returns the key's node, which holds the key's old pair and is no longer in the cache; on a miss it returns null; the state becomes `Delete` of the old one. The footprint loses exactly that node on a hit and is unchanged on a miss |
| CacheLRU.CacheLRU.RemoveAndGet | src/CacheLRU.cs:125-136 | `Remove(key, out value)`: true exactly when the key was resident, then with its old value; the state becomes `Delete` of the old one and the footprint only shrinks |
| CacheLRU.CacheLRU.RemovePair | src/CacheLRU.cs:138-145 | removes only when the stored value equals the given one; otherwise returns false and leaves the state unchanged; the footprint only shrinks |
| CacheLRU.CacheLRU.RemoveLRU | src/CacheLRU.cs:147-157 | keeps the cache consistent and performs `Evict`: no-op on the empty cache, otherwise drops the head from list and index and lowers `count`; the footprint is kept |
| CacheLRU.CacheLRU.TryGetValue | src/CacheLRU.cs:159-170 | true exactly when the key is resident, then with its current value; nothing changes |
| CacheLRU.CacheLRU.Items | src/CacheLRU.cs:201-203 | what enumeration yields, as a set: exactly the resident pairs with their current values |
| CacheLRU.CacheLRU.CopyTo | src/CacheLRU.cs:205-213 | writes `count` slots from `arrayIndex`, one per resident key with its current value, each key once; all other slots are unchanged |
| Demo.FillStep | src/Program.cs:11-14 | one round of the first loop: a cache that is not full takes the next key with its square at the tail, without evicting |
| Demo.FillSquares | src/Program.cs:10-14 | ten inserts into a fresh cache of capacity 10 give the full order 0, 1, ..., 9 (the j-th least recently used key is j), each key with its square, and no other key |
| Demo.Scenario | src/Program.cs:10-29 | 0 is resident before 11 is inserted and evicted after; removing 3 succeeds with 9, and removing it again fails |
| Demo.FillTwo | src/CacheLRU.cs:61-71 | two inserts into a fresh cache of capacity 2 give the order 1, 2 with each key mapped to itself |
| Demo.TouchThenInsert | src/CacheLRU.cs:31-45 | after Update on the least recently used key of a full cache, the next insertion evicts the other key; the updated key stays with its new value and the count stays at capacity |

## Left out

- `Values` (src/CacheLRU.cs:49-50) casts a LINQ query to `ICollection<Tvalue>`. What that does at run time depends on LINQ's internals, which are not part of this model. The values are reachable through `Items`.
- Enumeration (the nested `LRUEnumerator`, `GetEnumerator`, src/CacheLRU.cs:172-203) is modelled only as the set `Items`. Its order is the .NET `Dictionary`'s, which is unspecified. `Reset` throws `NotSupportedException`. src/CacheLRU.LRUEnumerator.cs duplicates the nested struct and is not part of this model.
- `IsReadOnly` (src/CacheLRU.cs:56) is the constant false and carries nothing to prove.
- src/Program.cs's console output and its final `foreach` are left out. The first three printed values are `Demo.Scenario`'s results `zeroBefore`, `zeroAfter` and `res`. The fourth is `res` after the failed second `Remove(3, out res)` (src/Program.cs:27-29), which is `default(int)`, 0. `Demo.Scenario` drops that value, because the model leaves a miss's value unconstrained (see RemoveAndGet below).
- The internals of `Dictionary`, `LinkedList` and `LinkedListNode` are left out, and so are hashing and `Equals`. The index is a Dafny `map`, and the list is a sequence of node objects. Keys and values are types with equality, and `Equals` on values is `==`.
- Exceptions are not modelled as C# exceptions. The constructor's and both `Add`s' exceptions are `Result`/`Outcome` values. The indexer getter's `KeyNotFoundException` is the precondition of `CacheLRU.CacheLRU.Get`.
- CacheLRU.CacheLRU.CopyTo: requires `0 <= arrayIndex` and room for `count` pairs. On a non-empty cache the source instead throws: with a negative `arrayIndex` the first write (src/CacheLRU.cs:210) already throws, so nothing is written; with too little room it throws part-way, leaving a partly written array. The model does not follow either path. On an empty cache the source's loop (src/CacheLRU.cs:208-212) never runs, so any `arrayIndex`, even a negative one, returns normally without touching the array; the precondition excludes those calls too.
- CacheLRU.CacheLRU.TryGetValue: on a miss the value returned is C#'s `default(Tvalue)`; the contract leaves it unconstrained. The class requires `V` to have a default value (`V(==, 0)`), but no expression names that value, so a contract cannot state it.
- CacheLRU.CacheLRU.RemoveAndGet: on a miss the value returned is `default(Tvalue)`; the contract leaves it unconstrained, as for TryGetValue.
- Integer widths are not modelled. `count` never exceeds `capacity`, so it stays within 32 bits. An `arrayIndex + count` beyond `int.MaxValue` is excluded by the array-room precondition.
- Thread safety and collection-modified-during-enumeration checks do not exist in the code, and have no counterpart here.
- The code never moves a key on a read, and the model follows it: reads are side-effect free.
