# Croc's in-array chained hash table and string interner, in Dafny

This project models `croc::Hash` (src/croc/base/hash.hpp). It is the hash
table behind the Croc runtime's tables and its string-interning table. It
also models the interner's string operations (src/croc/types/string.cpp).

The table keeps every node in one array. A key's *home slot* is
`hash & mHashMask`. Keys with the same home form a *chain*, linked through
the nodes' `next` indices, where the array length means "end of chain". A
chain always starts at its home slot. A node that sits in another chain's
home slot is moved out when that chain's first key arrives. The free-slot
cursor `mColBucket` only moves forward, except when `markUnused` frees a
slot below it. The table rehashes only when no slot is free. Each node has a
flag word: a used bit and two "modified" bits, which the garbage collector
sets and reads.

The Dafny model is imperative, like the source:

- `HashTable.Hash` is a class with the source's fields. `nodes` is an
  `array`, and `hashMask`, `colBucket` and `size` are fields that the
  methods update.
- The chain walks, the cursor scan, the iteration scans and the reinsert
  loop of `resizeArray` are `while` loops with invariants.
- Two ghost fields describe the layout. `chains[h]` lists the slots of home
  `h`'s chain in link order. `slotOf[k]` is the slot of key `k`.
- `Valid()` is the layout invariant (`HashChains.Inv`):
  - the capacity is 0 or a power of two ≥ 4, and the mask is `capacity - 1`
    truncated to 32 bits;
  - every slot below the cursor is used;
  - `size` is the number of used slots;
  - every used slot is the slot of its key;
  - cached hashes are correct;
  - every chain starts at its home, links its members in order and ends
    with the array length, and every present key is on its home's chain.
- `Contents()` is the key→value map the array represents. `FlagWords()` is
  each key's flag word.
- Each operation is proved against these maps. Each one keeps `Valid()`.

The interner (`Strings`) works on a `Hash<Bytes, Str?>`. `Interned(tab)`
says the table is valid and every entry is an object whose content is its
key. That is the uniqueness the interner relies on: one object per content.

Files:

- `bits.dfy`: `&` on naturals, powers of two and `largerPow2`.
- `hash_nodes.dfy`: flags, nodes, the two hashers, and `init`, `equals` and
  `copyFrom`.
- `hash_chains.dfy`: the invariant and its basic facts.
- `hash_steps.dfy`: the three insertion cases.
- `hash_removal.dfy`: the three removal cases.
- `hash_walk.dfy`: the chain walks of `lookupNode` and `remove`.
- `hash_iter.dfy`: what iteration visits.
- `hash_table.dfy`: the class.
- `strings.dfy`: the interner.

Where the source does not compile as written, the model follows the evident
intent:

- The loop condition on hash.hpp:198 uses `IS_USED(n->next->flags)`, but
  `next` is an index. It is read as the flags of `nodes[n->next]`.
- `lookupNode(key)` (hash.hpp:238-241) calls `Hasher::hash`, which neither
  hasher defines. It would be `lookupNode(key, toHash(key))`, which `Lookup`
  covers.
- `IS_MODIFIED` (hash.hpp:302) is not defined in the shown headers. It is
  read as "either modified bit is set".

## Model

| member | source | states |
|---|---|---|
| HashNodes.DefaultHash | src/croc/base/hash.hpp:32-38 | `DefaultHasher` casts an integer key to `uint32`: keys in range map to themselves, and any key maps to its residue modulo 2^32 |
| HashNodes.DefaultHashWraps | src/croc/base/hash.hpp:32-38 | keys 2^32 apart collide under the default hasher (a documented consequence of the cast; no other member relies on it) |
| HashNodes.InitHash | src/croc/base/hash.hpp:56-66 | `init` records the hash on the caching node shape and leaves a plain node unchanged; key, value, link and flags are kept |
| HashNodes.Equals | src/croc/base/hash.hpp:57-67 | `equals` holds only when the key matches, and on the caching shape only when the stored hash matches too |
| HashNodes.EqualsIsKeyEquality | src/croc/base/hash.hpp:57-67 | with a correct cached hash and the key's own hash, `equals` is exactly key equality on both shapes |
| HashNodes.CopyFrom | src/croc/base/hash.hpp:58-68 | `copyFrom` takes the other node's value, and its hash on the caching shape; key, link and flags are untouched |
| Bits.BitAnd | src/croc/base/hash.hpp:250 | `hash & mask` is at most the mask |
| Bits.MaskIsMod | src/croc/base/hash.hpp:370 | for a power-of-two capacity m, `h & (m - 1)` equals `h mod m` |
| Bits.LargerPow2 | src/croc/base/hash.hpp:98-107 | `largerPow2(n)` is a power of two and at least n |
| Bits.AtLeastFour | src/croc/base/hash.hpp:104-105 | `newSize < 4 ? 4 : newSize` is at least 4 and at least its argument, and a power of two when its argument is one |
| Bits.DoublePow2 | src/croc/base/hash.hpp:361-362 | doubling a power of two gives a power of two, so `rehash` keeps the capacity a power of two |
| HashChains.HomeInRange | src/croc/base/hash.hpp:136-137 | under the capacity and mask invariant, every key's home slot is inside a non-empty array, and while the capacity is at most 2^32 it is the hash modulo the capacity (by `MaskIsMod`) |
| HashChains.HomeSlotInvariant | src/croc/base/hash.hpp:139-162 | the home-slot invariant: the home of every present key is used, holds a key with that same home, and following `next` from it reaches the key |
| HashChains.PresentKeyHead | src/croc/base/hash.hpp:139-149 | a present key's home slot is the first member of its chain |
| HashChains.EmptyInv | src/croc/base/hash.hpp:338-344 | an all-unused array of capacity 0 or a power of two ≥ 4, with cursor 0, size 0 and the matching mask, satisfies the invariant |
| HashChains.UsedCountFull | src/croc/base/hash.hpp:391-398 | when every slot is used, the used count is the capacity |
| HashChains.UnusedBelowCapacity | src/croc/base/hash.hpp:391-398 | an unused slot means the used count is below the capacity |
| HashChains.EntriesKeys | src/croc/base/hash.hpp:312-315 | under the slot invariant, the value map and the flag map both have exactly the present keys |
| HashChains.SameEntriesGrow | src/croc/base/hash.hpp:164-168 | adding one key while keeping every other entry updates the value and flag maps at that key only |
| HashChains.SameEntriesShrink | src/croc/base/hash.hpp:171-216 | dropping one key while keeping every other entry removes that key from both maps and changes nothing else |
| HashChains.PredecessorWalkEnds | src/croc/base/hash.hpp:153-154 | the walk from a chain's head toward a displaced member reaches its predecessor on that chain |
| HashSteps.InsertAtFreeHome | src/croc/base/hash.hpp:161-168 | first insertion case: a free home slot receives the new node as a chain of its own, and the invariant holds with one more entry |
| HashSteps.InsertAfterHead | src/croc/base/hash.hpp:143-168 | second case: the home holds its own chain's head, so the new node goes into the free slot right after the head, and the invariant and all other entries are kept |
| HashSteps.InsertDisplacing | src/croc/base/hash.hpp:150-168 | third case: the home holds another chain's node, which moves to the free slot behind its predecessor, and the new key takes the home; the invariant holds and every other entry keeps its value and flags |
| HashSteps.PlacedAdded | src/croc/base/hash.hpp:136-168 | any of the three placements adds exactly the new key, with flags `NodeFlags_Used`, to the value and flag maps |
| HashSteps.SetPayload | src/croc/base/hash.hpp:380-385 | rewriting a used node's value, hash and flags in place keeps the invariant and changes only that key's value and flags |
| HashRemoval.RemoveOnly | src/croc/base/hash.hpp:183-185 | removing the only member of a chain clears its used bit, moves the cursor back if needed, and keeps the invariant with one entry fewer |
| HashRemoval.RemovePromote | src/croc/base/hash.hpp:186-192 | removing a chain's head that has successors copies the next node into the head slot and frees the next slot; the invariant holds and the other entries are kept |
| HashRemoval.RemoveUnlink | src/croc/base/hash.hpp:200-207 | removing a later chain member frees it and links its predecessor past it; the invariant holds and the other entries are kept |
| HashRemoval.KeepCursorFreeing | src/croc/base/hash.hpp:347-357 | `markUnused` keeps the cursor invariant (every slot below it is used) by moving the cursor back to the freed slot when that slot is lower |
| HashRemoval.DroppedAbsent | src/croc/base/hash.hpp:171-216 | when the key is absent, the unchanged table already has the key dropped from both maps |
| HashWalk.WalkFound | src/croc/base/hash.hpp:250-254 | a used node that `equals` the key with the key's own hash is the key's slot |
| HashWalk.WalkEnd | src/croc/base/hash.hpp:250-259 | a chain walk that reaches an unused slot or the end link without a match proves the key absent |
| HashWalk.SeekStart | src/croc/base/hash.hpp:180-198 | the loop of `remove` starts at the head of the key's home chain, and if the key is present it lies further down |
| HashWalk.SeekFound | src/croc/base/hash.hpp:200-207 | in that loop, a successor that `equals` the key is the key's slot, and the current node is its predecessor on the chain |
| HashWalk.SeekMissed | src/croc/base/hash.hpp:200-210 | a successor that does not match moves the walk one chain member on, and a present key still lies ahead |
| HashWalk.SeekEnd | src/croc/base/hash.hpp:198-215 | the loop of `remove` stops without a match only when the key is absent |
| HashIteration.FirstFrom | src/croc/base/hash.hpp:262-310 | the scan from `idx` stops at the first selected slot at or after `idx`, passes over only unselected slots, and otherwise stops at the end (or at `idx` when `idx` is already past it) |
| HashIteration.VisitsIncreasing | src/croc/base/hash.hpp:262-278 | repeated calls return slots in strictly increasing order, all at or after the start |
| HashIteration.VisitsExactly | src/croc/base/hash.hpp:262-310 | repeated calls from `idx` return exactly the selected slots at or after `idx` |
| HashIteration.VisitsCount | src/croc/base/hash.hpp:262-294 | from `idx`, the calls returning a used slot number the used slots left after `idx` |
| HashIteration.VisitsAllFromZero | src/croc/base/hash.hpp:262-294 | iterating from 0 visits every used slot exactly once: as many visits as used slots, and each used slot among them |
| HashTable.RemoveFirstSlotAsWritten | src/croc/base/hash.hpp:171-175 | as written, the first slot `remove` reads is `hash & mask`, with no test for an empty array |
| HashTable.RemoveOnEmptyReadsPastEnd | src/croc/base/hash.hpp:171-178 | on a valid table with no array, that slot is slot 0 of a length-0 array, for every key |
| HashTable.Hash.constructor | src/croc/base/hash.hpp:71-79 | a zero-initialised table is valid and empty: no array, mask 0, cursor NULL, size 0 |
| HashTable.Hash.AllocNodes | src/croc/base/hash.hpp:369 | freshly allocated nodes are all unused |
| HashTable.Hash.Length | src/croc/base/hash.hpp:312-315 | `length` is the number of entries in the represented map |
| HashTable.Hash.Capacity | src/croc/base/hash.hpp:317-320 | `capacity` is the array length, which is 0 or a power of two of at least 4, and never less than the number of entries |
| HashTable.Hash.GetColBucket | src/croc/base/hash.hpp:391-398 | the cursor only advances, and stops at an unused slot; it reaches NULL exactly when size equals capacity; the invariant is kept |
| HashTable.Hash.ScanFree | src/croc/base/hash.hpp:393-395 | the cursor scan passes only used slots and stops at the first unused one, or at the end |
| HashTable.Hash.LookupNode | src/croc/base/hash.hpp:243-260 | `lookupNode` returns only a used slot holding the key; with the key's own hash it returns a slot exactly when the key is present, and that slot is the key's; an empty table gives NULL |
| HashTable.Hash.WalkChain | src/croc/base/hash.hpp:247-259 | the chain loop of `lookupNode` returns the key's slot when the key is present and NULL otherwise |
| HashTable.Hash.PlaceAtHome | src/croc/base/hash.hpp:161-168 | the node is written into the free home slot, the link ends the chain, then `init`, the key and flags `Used` are set |
| HashTable.Hash.PlaceAfterHead | src/croc/base/hash.hpp:143-168 | the writes of the second insertion case, as the source orders them, give the state of `InsertAfterHead` |
| HashTable.Hash.FindPredecessor | src/croc/base/hash.hpp:141-154 | the walk from the displaced node's home stops at its predecessor on that chain |
| HashTable.Hash.PlaceDisplacing | src/croc/base/hash.hpp:150-168 | the writes of the third case (relink the predecessor, move the node out, end the new chain), as the source orders them, give the state of `InsertDisplacing` |
| HashTable.Hash.Place | src/croc/base/hash.hpp:136-168 | given a free slot, the three cases together add exactly the new key, with flags `Used`, and keep the invariant |
| HashTable.Hash.InsertNode | src/croc/base/hash.hpp:109-169 | returns the slot of `key`. A present key changes nothing. Otherwise the size grows by one, the new entry has flags exactly `Used`, every other entry keeps its value and flags, and the array is replaced only when no slot was free |
| HashTable.Hash.InsertAbsent | src/croc/base/hash.hpp:125-168 | for an absent key: a free slot (after a rehash when every slot is used), then the placement; the maps change at the key only |
| HashTable.Hash.FreeSlot | src/croc/base/hash.hpp:125-134 | a free slot exists after this step; the table is rehashed exactly when size equals capacity, and the entries are kept |
| HashTable.Hash.GrowForSlot | src/croc/base/hash.hpp:128-134 | on a full table, the rehash yields a new array in which the cursor finds a free slot, with every entry kept |
| HashTable.Hash.AddAbsent | src/croc/base/hash.hpp:136-168 | the placement of an absent key into the given free slot, and the size increment |
| HashTable.Hash.Rehash | src/croc/base/hash.hpp:359-365 | `rehash` doubles the capacity, or makes it 4 when it is 0, keeping every key's value and flag word and the size |
| HashTable.Hash.ResizeArray | src/croc/base/hash.hpp:367-389 | `resizeArray` gives a fresh array of `newSize` slots, with the key→value map, every entry's full flag word and the size all preserved |
| HashTable.Hash.Refill | src/croc/base/hash.hpp:376-386 | the reinsert loop leaves exactly the old entries, with their values and flags, and the old entry count as size |
| HashTable.Hash.RefillStep | src/croc/base/hash.hpp:378-385 | one turn of the loop adds old slot `i`'s entry when it is used, and does nothing otherwise |
| HashTable.Hash.Reset | src/croc/base/hash.hpp:369-372 | the start of `resizeArray`: a fresh all-unused array, mask `newSize - 1`, cursor 0, size 0 and no entries |
| HashTable.Hash.Reinsert | src/croc/base/hash.hpp:380-385 | one reinsertion needs no rehash, and the old node's value and whole flag word end up under its key |
| HashTable.Hash.CopyInto | src/croc/base/hash.hpp:383-384 | `copyFrom` plus the flag copy changes only that key's value and flags |
| HashTable.Hash.Remove | src/croc/base/hash.hpp:171-216 | `remove` returns true exactly when the key was present. Afterwards the key is absent from both maps, every other entry is kept and the size drops by one. An absent key changes nothing |
| HashTable.Hash.RemoveNode | src/croc/base/hash.hpp:171-216 | the body of `remove` on the array, with the guard for an empty table that the source lacks (see Findings) |
| HashTable.Hash.MarkUnused | src/croc/base/hash.hpp:347-357 | `markUnused` clears only the used bit, moves the cursor back to a smaller freed slot, and decrements the size |
| HashTable.Hash.RemoveAlone | src/croc/base/hash.hpp:183-185 | removal of the only member of a chain drops exactly that key |
| HashTable.Hash.RemovePromoting | src/croc/base/hash.hpp:186-192 | `*n = *next`, then `markUnused(next)`, drops exactly that key |
| HashTable.Hash.UnlinkAfter | src/croc/base/hash.hpp:203-207 | `markUnused(next)`, then the relink of the predecessor, drops exactly that key |
| HashTable.Hash.SeekInChain | src/croc/base/hash.hpp:196-215 | the loop of `remove` finds the predecessor of the key's slot exactly when the key is present |
| HashTable.Hash.Lookup | src/croc/base/hash.hpp:218-226 | `lookup(key)` returns the stored value exactly when the key is present |
| HashTable.Hash.LookupWithHash | src/croc/base/hash.hpp:228-236 | `lookup(key, hash)` returns only a stored value of the key; with the key's own hash, it does so exactly when the key is present |
| HashTable.Hash.SetValue | src/croc/base/hash.hpp:109-112 | a write through the pointer `insert` returns changes that key's value only, and keeps the flags and the invariant |
| HashTable.Hash.Prealloc | src/croc/base/hash.hpp:98-107 | afterwards the capacity is at least n. If n is at most the old capacity, nothing changes; otherwise the array is resized to `max(4, largerPow2(n))` slots. All entries are kept |
| HashTable.Hash.Minimize | src/croc/base/hash.hpp:327-336 | an empty table is cleared to capacity 0; otherwise the table is resized to `max(4, largerPow2(size))` slots, keeping all entries |
| HashTable.Hash.Clear | src/croc/base/hash.hpp:338-344 | `clear` leaves no array, mask 0, cursor 0, size 0 and no entries, and the table is valid |
| HashTable.Hash.DupInto | src/croc/base/hash.hpp:81-87 | the copy has the same nodes, mask, cursor index and size, so it represents the same entries; the source table is unchanged |
| HashTable.Hash.DupIntoNodes | src/croc/base/hash.hpp:89-96 | the same, into a given array that becomes the other table's |
| HashTable.Hash.CopyNodes | src/croc/base/hash.hpp:81-96 | `slicea` leaves the destination equal to the source |
| HashTable.Hash.Scan | src/croc/base/hash.hpp:262-310 | the shared loop stops at `FirstFrom(idx)` |
| HashTable.Hash.Next | src/croc/base/hash.hpp:262-278 | `next` returns the entry of the first used slot at or after `idx`, with `idx` one past it; that entry is in the map with that value. It returns false with `idx` at the end when no used slot remains |
| HashTable.Hash.NextNode | src/croc/base/hash.hpp:280-294 | `nextNode` returns the first used slot at or after `idx`, with `idx` one past it, or false with `idx` at the end |
| HashTable.Hash.NextModified | src/croc/base/hash.hpp:296-310 | `nextModified` returns the first slot at or after `idx` with a modified bit set, with `idx` one past it, or false with `idx` at the end |
| Strings.Str.constructor | src/croc/types/string.cpp:30-35 | a new string object holds the hash, byte length, code-point length and content it was given |
| Strings.CanonicalAdd | src/croc/types/string.cpp:37 | entering an object under its own content keeps every entry's content equal to its key |
| Strings.CanonicalDrop | src/croc/types/string.cpp:45 | dropping an entry keeps that property |
| Strings.InternedUnique | src/croc/types/string.cpp:28-29 | every object the canonical table holds is its entry under its own content, so two held objects have equal contents exactly when they are the same object |
| Strings.Lookup | src/croc/types/string.cpp:13-26 | sets `h` to the content hash, and returns the interned object exactly when the content is a key, otherwise null; a returned object has that content |
| Strings.Create | src/croc/types/string.cpp:30-40 | a fresh object with `hash == h`, `length == data.length`, `cpLength == cpLen` and content `data`, entered under its own content, so a later lookup of `data` returns it; the table stays canonical |
| Strings.Free | src/croc/types/string.cpp:43-48 | requires the content to be present (the source asserts `remove` succeeded); afterwards it is absent and every other entry is unchanged |
| Strings.Scmp | src/croc/types/string.cpp:51-54 | the stand-in byte comparison returns -1, 0 or 1 |
| Strings.ScmpZero | src/croc/types/string.cpp:51-54 | `scmp` is zero exactly on equal contents |
| Strings.ScmpFlip | src/croc/types/string.cpp:51-54 | `scmp` is antisymmetric |
| Strings.Compare | src/croc/types/string.cpp:51-54 | `compare` is zero exactly when the contents are equal |
| Strings.CompareInterned | src/croc/types/string.cpp:28-54 | for any two objects the canonical table holds, `compare` is zero exactly when they are the same object |
| Strings.ContainsAsWritten | src/croc/types/string.cpp:57-65 | as written, `contains` returns false in every case, including the `s->length < sub.length` case |
| Strings.ContainsMissesItself | src/croc/types/string.cpp:57-65 | as written, `contains` says a string does not contain itself, although it occurs at offset 0 |
| Strings.OccursFrom | src/croc/types/string.cpp:62-63 | the search is true exactly when `sub` occurs at some offset at or after `i` |
| Strings.Contains | src/croc/types/string.cpp:57-65 | the intended `contains`: true exactly when `sub` occurs in the content, and never when the string is shorter than `sub` |
| Strings.Slice | src/croc/types/string.cpp:69-79 | returns an object with the sliced content. If that content is interned, it is the existing object and the table is unchanged; otherwise a fresh object with `cpLength == hi - lo` is entered. The table stays canonical |

## Left out

- Memory management: the `Memory` allocator, the `free` of the old array in
  `resizeArray` and `clear`, and `FREE_OBJ`/`ALLOC_OBJSZ_ACYC` in the
  interner. Allocation is `new`; releasing storage is not modelled.
- `dataSize` (hash.hpp:322-325): it is `sizeof(Node)` arithmetic, and the
  node layout in bytes is not part of this model.
- Pointers: a `Node*` or `V*` the source returns is a slot index here.
  `insert` (hash.hpp:109-112) is `InsertNode` plus `SetValue` for the
  caller's write through the pointer. The pointer arithmetic of `dupInto`
  (hash.hpp:81-96) is the cursor index copied unchanged.
- DupInto: requires the other table's array to have the source's length and
  to be a different array. The source leaves that check to `slicea`, which
  is not part of this model.
- MethodHasher, `crocstr::toHash`: the hasher is the function-valued field
  `hasher`, which may be any function. `DefaultHasher` is modelled
  concretely for integer keys (`DefaultHash`).
- `scmp` is not part of this model: `Scmp` is a byte-wise lexicographic
  comparison returning -1, 0 or 1; that range belongs to the stand-in, and
  `Compare` does not promise it. The proved facts (zero exactly on equal
  content, antisymmetry) are what `compare` relies on.
- `utf8Slice` is a function parameter of `Slice`. Code-point decoding is not
  modelled.
- `charAt` (string.cpp:82-85) only forwards to `utf8CharAt`, which is not
  part of this model. It has no logic of its own to state.
- Slice: requires `lo <= hi`, because `hi - lo` is computed in an unsigned
  word. The source's "these indices better be good" puts this on the
  caller. Whether `hi` is within `cpLength` is left to `utf8Slice`.
- MarkUnused: requires `size > 0`. The source decrements an unsigned
  counter. Every call frees a used node, which is counted, so the wrap at 0
  cannot happen.
- `size_t` widths: sizes and indices are unbounded naturals. Only the
  32-bit hash and mask are truncated explicitly.
- Node addresses: the model does not express that node addresses stop being valid
  across a rehash. The cursor and slot indices are per array.
- The garbage collector's setting and clearing of the modified bits is
  external. The table only carries the bits over (`resizeArray`) or clears
  them (insertion).
- Concurrency is not modelled: the table is single-threaded by design.

## Findings

| source | as written | input that shows it | evidently intended | confidence | as-written member | corrected member |
|---|---|---|---|---|---|---|
| src/croc/base/hash.hpp:171-178 | `remove` reads `mNodes[hash & mHashMask]` without checking for an empty array | any key, on a table straight from construction or after `clear` (no array, mask 0): slot 0 of a length-0 array is read | return false on an empty table, as `lookupNode` does at hash.hpp:245-246 | not executed; high, the guard is present in `lookupNode` and missing here | HashTable.RemoveOnEmptyReadsPastEnd | HashTable.Hash.RemoveNode |
| src/croc/types/string.cpp:57-65 | `contains` returns false after its length test, in every case | `s` = "abc", `sub` = "abc": the content occurs at offset 0 but the result is false | true exactly when `sub` occurs in the content, as the commented-out `locatePattern` call says | not executed; certain, the search is a TODO | Strings.ContainsMissesItself | Strings.Contains |
