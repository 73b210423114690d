# juju/lru in Dafny

A model of the two caches of the Go package `lru`:

- **StringCache** (strings.go). It keeps at most `maxSize` strings, so that equal strings can share one copy (`Intern`). Each string sits in a slot of an arena `buf` of `stringElem`s. The live slots form a circular doubly linked list through slot 0, the root, most recently used first. A map sends each cached string to its slot. A miss below capacity takes slot `size + 1` and grows the arena by `realloc` when needed. A miss at capacity reuses the least recently used slot, `root.prev`. `Validate` walks the list and checks every link.
- **LRU** (lru.go). A generic least-recently-used cache of key/value pairs: a recency list of keys plus a map from key to value.

Both caches follow one eviction policy, `Recency.Use`:

- a key that is present moves to the front;
- a new key is pushed on the front, after the back key is evicted when the cache is full.

The project has five modules:

- `Recency` (recency.dfy): the policy on plain sequences (`Without`, `Touch`, `Use`, `Replay`) and its properties.
- `Arena` (arena.dfy): the slot arena. `Linked(b, o)` says a snapshot `b` of `buf` links the live slots `o` into the circular list. It also gives what the unlink and splice writes of `moveToFront` do, and how a walk from the root follows the links.
- `CacheState` (cachestate.dfy): the representation invariant `Inv` of StringCache over a snapshot of its fields, and one lemma per kind of `Intern` step.
- `Strings` (strings.dfy): class `StringCache`.
  - `buf` is an `array<Elem>` that `Realloc` replaces.
  - `values` is a `map` field.
  - A ghost `order` holds the live slots front to back.
  - A ghost `calls` counts the `Intern` calls.
- `Lru` (lru.dfy): class `LRU`. `keys` is a `seq` field, most recently used first, and `values` is a `map` field; the methods reassign both.

## Model

| member | source | states |
|---|---|---|
| Recency.Without | strings.go:194-198 | unlinking a key drops exactly that key; the others stay, in order |
| Recency.WithoutAppend | strings.go:194-198 | removing a key from a concatenation removes it from both parts |
| Recency.WithoutAt | strings.go:194-198 | in a duplicate-free list, removing the key at position p leaves the keys before p and the keys after p |
| Recency.DistinctRemove | strings.go:194-198 | dropping one position of a duplicate-free list keeps it duplicate-free |
| Recency.WithoutDistinct | strings.go:194-198 | unlinking keeps the list duplicate-free and shortens it by one when the key was there |
| Recency.DistinctSnoc | strings.go:170-175 | appending a key that is not in a duplicate-free list keeps it duplicate-free |
| Recency.Touch | lru.go:42 | move-to-front: the key is first, followed by all other keys in their old order |
| Recency.TouchAt | strings.go:188-204 | after moving the key at p to the front, the keys before p shift back one place and the keys after p stay put |
| Recency.TouchDistinct | lru.go:61-66 | moving a key to the front keeps the list duplicate-free, and keeps its length when the key was present |
| Recency.TouchFront | strings.go:189-192 | moving the front key to the front changes nothing, which is why moveToFront returns early |
| Recency.Use | strings.go:154-179 | one access: the key ends up first; the length grows by one up to the capacity for a new key and is kept for a present key; the only key lost is the back key, when a new key meets a full cache |
| Recency.UseNew | lru.go:45-55 | a new key is pushed on the front of the list, minus its back key when the cache is full |
| Recency.Replay | strings.go:154-179 | the order after a series of accesses stays duplicate-free, within the capacity, with the last key accessed first |
| Recency.ReplayNewest | lru.go:34-36 | accessing distinct keys in an empty cache leaves min(count, capacity) keys, the newest first, in reverse order of access |
| Recency.OldestEvicted | lru.go:47-55 | once more distinct keys than the capacity have been added, every key older than the newest `cap` is gone and each of those `cap` is present |
| Recency.TouchedSurvives | lru.go:61-66 | a key just used survives the next eviction from a full cache, and the eviction takes the back key of the touched order |
| Recency.DistinctCard | lru.go:34-36 | a duplicate-free list has as many distinct keys as positions, so the map size is the list length |
| Arena.Values | strings.go:54-57 | the cached strings are read off the live slots front to back, one per slot |
| Arena.UnlinkWrites | strings.go:196-197 | the two unlink writes set prev.next and next.prev; no other slot and no string changes |
| Arena.Unlink | strings.go:194-198 | unlinking the slot at position p leaves the other live slots linked in the same order; only the links of the neighbours change |
| Arena.UnlinkAt | strings.go:194-198 | each position of the shortened list is linked both ways after the unlink |
| Arena.PushFront | strings.go:199-203 | splicing a slot that is not live between the root and the old front makes it the new front and keeps the rest of the list |
| Arena.Extend | strings.go:145-147 | copying the slots into a longer arena keeps every link and every cached string |
| Arena.ValuesTouch | strings.go:188-204 | when the live slots hold distinct strings, the strings move to the front along with their slot |
| Arena.Relabel | strings.go:169 | writing a slot's string leaves every link intact and changes only that slot's string |
| Arena.LinkedChain | strings.go:98 | following next from the root visits the live slots in list order and returns to the root |
| Arena.PathStep | strings.go:98 | one more step of Validate's walk extends the path by the current slot |
| Arena.PathEnd | strings.go:98 | a walk that is back at the root has covered the whole chain |
| Arena.PathPrefix | strings.go:98 | a path one slot longer was a path to that slot |
| Arena.PathInChain | strings.go:98-125 | the links decide the walk: every path from the root is a prefix of the chain and stands on the chain's next slot, or on the root once the chain is done |
| CacheState.IndexedValues | strings.go:26 | when the map and the slots agree, the cached strings are exactly the map's keys, none of them twice |
| CacheState.IndexedReorder | strings.go:188-204 | reordering the list without touching any string keeps the map in step |
| CacheState.IndexedAdmit | strings.go:169-177 | a fresh slot taking a new string: the map gains that string at that slot and grows by one |
| CacheState.IndexedReplace | strings.go:171-177 | a reused slot: the map loses the slot's old string and gains the new one; its size is unchanged |
| CacheState.AdmitContents | strings.go:163-177 | a new string pushed in a fresh slot goes in front of all the old strings |
| CacheState.RelabelLast | strings.go:174 | writing the back slot's string replaces the last cached string |
| CacheState.ReplaceContents | strings.go:170-177 | reusing the back slot drops the last string and puts the new one in front |
| CacheState.HitStep | strings.go:155-159 | an Intern hit keeps the invariant, reorders the strings by Use, and puts the string's slot at the front |
| CacheState.ExtendInv | strings.go:166-168 | growing the arena with empty slots keeps the invariant and the cached strings |
| CacheState.ExtendIndexed | strings.go:145-147 | growing the arena keeps the map in step with the slots |
| CacheState.FilledGrown | strings.go:163-169 | a fill is a possible growth followed by writing one slot's string |
| CacheState.FreshSlot | strings.go:164-169 | slot size + 1 is unused and unlinked (prev 0), and after the write it holds the new string |
| CacheState.FillSlot | strings.go:163-169 | after the growth that may be needed, slot size + 1 lies inside the arena, is not live, and has prev 0 |
| CacheState.FillContents | strings.go:163-177 | below capacity the strings after the miss follow Use |
| CacheState.FillBounds | strings.go:164-176 | after a miss below capacity the live slots are 1..size + 1 and the slots above stay empty |
| CacheState.FillInv | strings.go:163-177 | a miss below capacity keeps the invariant, with the new string live in slot size + 1 at the front |
| CacheState.FillStep | strings.go:161-178 | a miss below capacity keeps the invariant; the strings follow Use; the front slot is size + 1 |
| CacheState.ReplaceSlot | strings.go:170-175 | at capacity, root.prev is the back of the list, a live slot, and writing its string keeps the links |
| CacheState.ReplaceStep | strings.go:170-177 | a miss at capacity keeps the invariant; the strings follow Use; the front slot is the old root.prev |
| Strings.SlotIndex | strings.go:165 | the uint32 slot index lies below 2^32 and equals size whenever size does |
| Strings.SizeAcceptedAsWritten | strings.go:38-41 | NewStringCache's guard as written accepts every size up to and including 2^32 |
| Strings.SizeLimitWrapsToRoot | strings.go:38-41 | a size of 2^32 passes the guard, and slot number 2^32 gets index 0, the root |
| Strings.CheckSlotAsWritten | strings.go:100-124 | a slot the checks as written pass also passes the corrected checks, and below 2^32 slots they pass exactly the same slots; they read past the end of buf only below 2^32 slots, when a prev, a next or the map entry of the slot's string equals len(buf) |
| Strings.PrevAtLengthReadsPastEnd | strings.go:101-104 | below 2^32 slots, a prev equal to len(buf) gets through the as-written guard and is read out of range |
| Strings.NextAtLengthReadsPastEnd | strings.go:105-111 | below 2^32 slots, on a slot whose prev links back to it, a next equal to len(buf) gets through the as-written guard and is read out of range |
| Strings.MapEntryAtLengthReadsPastEnd | strings.go:116-122 | below 2^32 slots, on a slot linked both ways, a map entry equal to len(buf) gets through the as-written guard and the error message reads that index out of range |
| Strings.FullArenaRejectsFront | strings.go:108-111 | in every valid cache with two strings or more and an arena of 2^32 slots, the walk's first slot passes every corrected check, yet the as-written guard, comparing with uint32(len(buf)) == 0, rejects its next index |
| Strings.StringCache.ContentsAreKeys | strings.go:20-28 | under the invariant the cached strings are the map's keys, none of them twice, and there are size <= maxSize of them |
| Strings.StringCache.constructor | strings.go:34-70 | an empty, valid cache with an arena of min(n + 1, 101) slots, root linked to itself, and zero counters |
| Strings.StringCache.Len | strings.go:73-75 | returns the number of cached strings, at most maxSize |
| Strings.StringCache.HitCounts | strings.go:84-89 | hit + miss is the number of Intern calls |
| Strings.StringCache.Contains | strings.go:183-186 | true exactly when the string is cached; nothing changes |
| Strings.StringCache.Validate | strings.go:93-133 | passes exactly when the structure is consistent: the walk from the root checks out slot by slot and has size slots, and the map has size entries |
| Strings.StringCache.WalkList | strings.go:98-125 | a walk that passes is a checked chain of `count` slots; on a consistent structure the walk is the list and nothing fails |
| Strings.StringCache.CheckSlot | strings.go:100-124 | passes exactly when the slot is linked both ways and the map sends its string to it; an out-of-range prev or next is reported as such, never read |
| Strings.StringCache.Realloc | strings.go:135-149 | the new arena has nextSize slots, or min(3 * (len - 1), maxSize) + 1 for 0; old slots are copied and new ones are empty |
| Strings.StringCache.MoveToFront | strings.go:188-204 | the slot becomes the front, the other live slots keep their order, and no string moves |
| Strings.StringCache.Detach | strings.go:194-198 | the slot leaves the list; only the links of live slots change |
| Strings.StringCache.Splice | strings.go:199-203 | the slot becomes the front of the list; only the links of live slots change |
| Strings.StringCache.Intern | strings.go:154-179 | returns v; keeps the invariant; buf is the old arena or a fresh one; the cached strings follow Use; counts one hit or one miss; a hit leaves the map and size unchanged; v's slot is size + 1 (a miss below capacity) or the old root.prev (a miss at capacity), and it is at the front |
| Strings.StringCache.InternHit | strings.go:155-159 | a hit returns v, keeps the invariant and the map, applies Use with v's slot in front, and counts one hit |
| Strings.StringCache.InternMiss | strings.go:161-178 | a miss keeps the invariant, keeps the arena or makes a fresh one, applies Use with v's slot in front, counts one miss, and gives v slot size + 1 below capacity or the old root.prev at capacity |
| Strings.StringCache.Tally | strings.go:158-161 | counts the call as a hit or as a miss; the cache contents are untouched |
| Strings.StringCache.Hit | strings.go:155-159 | a hit returns v, keeps the invariant, leaves the map unchanged, and moves v's slot to the front by Use |
| Strings.StringCache.Miss | strings.go:162-178 | a miss keeps the invariant, keeps the arena or makes a fresh one, puts v at the front by Use, and gives it slot size + 1 below capacity or the old root.prev at capacity |
| Strings.StringCache.Admit | strings.go:163-169 | below capacity, size grows by one, v takes slot size, the arena is the old one or a fresh one, and the strings follow Use |
| Strings.StringCache.PromoteFresh | strings.go:176-177 | the move to front that ends a miss below capacity keeps the invariant and the strings follow Use |
| Strings.StringCache.TakeFreshSlot | strings.go:163-169 | v is written into slot size + 1, now inside the arena, and that slot is neither live nor linked |
| Strings.StringCache.FillFreshSlot | strings.go:164-169 | size grows by one; the arena grows when the slot is past its end; v is written into slot size |
| Strings.StringCache.Evict | strings.go:170-177 | at capacity, v takes the slot of the least recently used string, which leaves the cache; the strings follow Use |
| Strings.StringCache.ReuseLastSlot | strings.go:171-174 | the reused slot is root.prev, a live slot; its old string leaves the map and v takes the slot |
| Strings.StringCache.Prealloc | strings.go:208-215 | the arena becomes maxSize + 1 slots; strings, map, order, size and counters are unchanged |
| Strings.StringCache.ValidIsConsistent | strings.go:93-133 | a valid cache passes every check Validate makes |
| Lru.RemoveLastAsWritten | lru.go:80-87 | removeLast as written: with a last key it drops it from the list and the map; on an empty list it dereferences nil |
| Lru.ZeroSizeAddDereferencesNil | lru.go:25-31 | a cache made with size <= 0 is empty and already "full", so the first Add reaches removeLast on an empty list and dereferences nil |
| Lru.LRU.constructor | lru.go:25-31 | an empty, valid cache with the given maxSize |
| Lru.LRU.Len | lru.go:34-36 | the map's size is the list's length, at most maxSize |
| Lru.LRU.Peek | lru.go:72-77 | the stored value exactly when the key is cached |
| Lru.LRU.Get | lru.go:61-69 | returns what Peek would have returned; a hit moves the key to the front; a miss changes nothing |
| Lru.LRU.Add | lru.go:39-57 | keeps the invariant; the keys follow Use; the key now maps to the new value and every other surviving key keeps its value; Len is kept for a present key and becomes min(Len + 1, maxSize) for a new key; when full, the back key is evicted |
| Lru.LRU.RemoveLast | lru.go:80-87 | drops the back key from both the list and the map; on an empty cache it does nothing |

## Left out

- The root pointer (`sc.root`, strings.go:27) is not modelled, so neither is Validate's check that it points at `buf[0]`. Slot 0 is always the root.
- Go's `container/list` is modelled by a sequence of keys, and each `cacheEntry`'s list element by the key's position in it.
- Map capacity hints are left out: `make(map, n)` in init, New and Prealloc. So is Prealloc's copy of the map into a new map: the model keeps the map as it was.
- Counters are unbounded naturals; `int64` overflow of `hitCount` and `missCount` is not modelled.
- Strings are compared by value. Whether Intern returns the same backing memory, the point of interning, is outside Dafny's reach.
- Error values carry the slot and the numbers, not `fmt` messages. Go's two map-mismatch messages, for an index outside buf and inside it, are one `MapMismatch`.
- Concurrency: neither cache is safe for concurrent use, and the model is sequential.
- Strings.StringCache.constructor: requires 0 < n < 2^32. For n < 0 Go panics in init: n == -1 makes an empty buf, so `&sc.buf[0]` (strings.go:67) is out of range, and n <= -2 passes a negative length to `make` (strings.go:65). Only n == 0 builds a cache, and it keeps its single cached string in the root slot, which Validate would then reject. The 2^32 bound is the corrected guard under Findings.
- Strings.StringCache.Validate: the walk is cut off with `Cycle` once it would visit more slots than the arena holds; Go's loop has no such bound and does not terminate on a cyclic list.
- Strings.StringCache.Validate: indices are compared with len(buf) as an int, the corrected guard under Findings. Go compares with `uint32(len(sc.buf))`, which is 0 for an arena of 2^32 slots (maxSize 2^32 - 1 after Prealloc), so there Go rejects a valid cache that holds two strings or more.
- Strings.StringCache.Validate: an out-of-range `root.next` is reported as `BadNextIndex(0)`; Go would index out of range there.
- Strings.StringCache.Intern: on a miss the counter update comes after the list update instead of first (strings.go:161); a hit counts after the move to front, as Go does (strings.go:156-158). The map entry of a miss is written before the move to front instead of after (strings.go:177). Neither write is read in between, so the final state is the same.
- Strings.StringCache.Prealloc: requires a valid cache. Prealloc may be called between any two operations, and the cache is valid there.
- Lru.LRU.Add: requires maxSize > 0. With maxSize <= 0 Go's first Add dereferences nil; see Findings.
- Lru.LRU: keys need equality (`==`). Go's `interface{}` keys panic at run time when they are not comparable.

## Findings

| source | as written | input that shows it | evidently intended | confidence | as-written member | corrected member |
|---|---|---|---|---|---|---|
| strings.go:101-104, 108-111, 117-122 | the range guards reject only an index greater than `len(sc.buf)`, then index `sc.buf` with it | a slot whose `prev` (or `next`, or map entry) equals `len(sc.buf)`: Validate panics with an index out of range instead of returning an error | reject any index `>= len(sc.buf)` | not executed; high | Strings.CheckSlotAsWritten, Strings.PrevAtLengthReadsPastEnd, Strings.NextAtLengthReadsPastEnd, Strings.MapEntryAtLengthReadsPastEnd | Strings.StringCache.CheckSlot |
| strings.go:101, 108, 117 | the range guards compare with `uint32(len(sc.buf))`, which is 0 once the arena has 2^32 slots | `NewStringCache(1<<32 - 1)`, `Prealloc()`, `Intern("a")`, `Intern("b")`, `Validate()`: at the front slot `next` is 1, and `1 > 0` makes Validate report a bad next index on a valid cache | compare with `len(sc.buf)` as an int | not executed; medium | Strings.CheckSlotAsWritten, Strings.FullArenaRejectsFront | Strings.StringCache.CheckSlot, Strings.StringCache.Validate |
| strings.go:38-41, 165 | the guard `size > 1<<32` admits a size of exactly 2^32, while slot indices are uint32 | `NewStringCache(1 << 32)`: the miss that fills slot 2^32 gets `uint32(1<<32) == 0` and writes the new string into the root | reject sizes of 2^32 and more | not executed; medium | Strings.SizeAcceptedAsWritten, Strings.SizeLimitWrapsToRoot | Strings.StringCache.constructor |
| lru.go:80-87 | `delete(lru.values, last.Value)` sits outside the `last != nil` guard | `New(0)` and then `Add(k, v)`: `keys.Len() >= maxSize` holds on the empty list, `removeLast` finds no back element and dereferences nil | delete only when there is a last element | not executed; high | Lru.RemoveLastAsWritten, Lru.ZeroSizeAddDereferencesNil | Lru.LRU.RemoveLast |
