# HashMap with linear probing, in Dafny

This project models the `HashMap` class of `DSA-Hashmaps.js`. The class is
a string-keyed map stored in one flat slot array. It uses:

- open addressing with linear probing from `djb2(key) mod capacity`;
- deletion by tombstone: `remove` flags the slot `deleted` and leaves key and value in place;
- growth to three times the capacity when `(length + 1) / capacity > 0.9`, rebuilding the table by re-`set`ting every non-empty old slot.

The model also covers the two helpers built on the map, `uniqueChars` and
`permutationPalindrome`.

Files:

- `wrappers.dfy`: `Option`, `Result` and `Outcome`.
- `djb2.dfy` (module `Djb2`): keys as sequences of UTF-16 code units, which is what `charCodeAt` yields. It has the hash as a recurrence, and the JavaScript operators `<<`, `&` and `>>> 0` as explicit 32-bit conversions.
- `probing.dfy` (module `Probing`): the map as a value. It has the slot states `Empty | Live(key, value) | Tomb(key, value)`, the table (slots, `length`, `_deleted`, the stray `deleted` property), and each operation as a function. It also has the table invariant, a reference lookup, and the lemmas.
- `hashmap.dfy` (module `HashMaps`): `class HashMap<V>`. Its fields are updated in place: an `array` of slots, `length`, `capacity`, `deletedCount` and `deleted`. Every method is proved to produce exactly the table that the matching `Probing` function computes, so the lemmas of `Probing` apply to the class.
- `scenarios.dfy`: concrete traces on tables of two, six and eight slots. They pin down the quirks below.
- `palindromes.dfy`: `uniqueChars` and `permutationPalindrome`. The second runs on the `HashMap` class.

The source's quirks are kept, not fixed:

- `length` grows on every `set`, overwrites included.
- `remove` lowers `length` but leaves a written slot behind. Tombstones can therefore fill the table without the load check firing. The probe then runs out. The source's `set` then writes its entry under the property `_slots[undefined]` instead of an index; the model reports this as the failure `SlotsExhausted` and changes nothing, and `get` and `remove` report a key error (see "## Left out").
- A resize re-sets tombstones as live entries.
- When a key owns several old slots, the one at the highest old index wins. That can be a removed, stale value.
- `_resize` assigns the property `deleted`, not `_deleted`, so `_deleted` is never reset.

The invariant `Probing.Valid` has five parts:

- Each key has at most one live slot.
- Every slot on a live key's probe path before its slot is written.
- The number of live slots is at most `length`.
- The number of tombstones is at most `_deleted`.
- `10·length ≤ 9·capacity`: the load check keeps `length` below the capacity.

The reference definition `Probing.Lookup` is a linear scan for a live slot with the key. Under the invariant, `get` agrees with it. `Probing.LastWritten` is the value in the highest-indexed written slot holding a key, and the contents after a resize are stated with it.

## Model

| member | source | states |
|---|---|---|
| Djb2.Hash | DSA-Hashmaps.js:70-77 | the djb2 recurrence h0 = 5381, h(i+1) = (h(i)·33 + code(i)) mod 2^32; its result is below 2^32 |
| Djb2.ToInt32 | DSA-Hashmaps.js:73-74 | ECMAScript ToInt32: a signed 32-bit value congruent to its argument modulo 2^32 |
| Djb2.ToUint32 | DSA-Hashmaps.js:76 | `>>> 0`: a value in `[0, 2^32)` congruent to the argument modulo 2^32 |
| Djb2.JsShiftLeft5 | DSA-Hashmaps.js:73 | `hash << 5`: a signed 32-bit value congruent to `32·hash` modulo 2^32 |
| Djb2.JsStep | DSA-Hashmaps.js:73-74 | one iteration of the loop body: a signed 32-bit value congruent to `33·hash + code` modulo 2^32 |
| Djb2.JsStepIsRecurrence | DSA-Hashmaps.js:73-74 | one loop step `(hash << 5) + hash + c` then `hash & hash`, read unsigned, is the recurrence step `(h·33 + c) mod 2^32` |
| HashMaps.HashMap.HashString | DSA-Hashmaps.js:70-77 | the loop over the key's code units with the 32-bit operators returns exactly `Hash(key)`, which is below 2^32 |
| HashMaps.HashMap.constructor | DSA-Hashmaps.js:4-9 | a map of `initialCapacity` empty slots with `length` and `_deleted` 0 and no `deleted` property; it satisfies the invariant |
| HashMaps.HashMap.Default | DSA-Hashmaps.js:4 | the same with the default capacity 8 |
| Probing.EmptyTable | DSA-Hashmaps.js:5-8 | the constructor's state: `capacity` slots, all empty, `length` and `_deleted` 0, no `deleted` property |
| Probing.LoadExceeded | DSA-Hashmaps.js:20-21 | the load check fires whenever `length + 1` exceeds the capacity; when it does not fire on a nonempty array, `length + 1` stays below the capacity |
| Probing.LoadExceededIsRatio | DSA-Hashmaps.js:20-21 | the integer test `10·(length+1) > 9·capacity` holds exactly when `(length+1)/capacity > 0.9` is true of the real numbers |
| Probing.Start | DSA-Hashmaps.js:45 | `hash % capacity`: an index below the slot count, the hash itself when the hash is below it |
| Probing.ProbeIndex | DSA-Hashmaps.js:47-48 | `i % capacity` at step i from the start: below the slot count, the start plus i before the wrap and the start plus i minus the slot count after it |
| Probing.ProbeOffset | DSA-Hashmaps.js:45-48 | the probe step at which index j is visited; visiting that step gives back j |
| Probing.Stops | DSA-Hashmaps.js:50 | an empty slot always stops the probe, a tombstone never does, and a written slot that stops it holds the key |
| Probing.FirstStop | DSA-Hashmaps.js:47-53 | the first probe step from i whose slot is empty or live with the key, with no such step skipped; the slot count when there is none |
| Probing.FindSlot | DSA-Hashmaps.js:43-54 | a returned index is in range, its slot is empty or live with the key, and no earlier index on the probe path qualifies |
| Probing.FindSlotVisitsAll | DSA-Hashmaps.js:47-54 | the probe returns nothing exactly when no slot of the table is empty or live with the key |
| Probing.FindSlotIsFirst | DSA-Hashmaps.js:47-52 | the returned index comes no later on the probe path than any qualifying slot |
| HashMaps.HashMap.FindSlot | DSA-Hashmaps.js:43-54 | the loop from `hash % capacity` over `capacity` indices, wrapping, returns `Probing.FindSlot` of the slot array |
| Probing.Get | DSA-Hashmaps.js:11-17 | a failure is a key error; a success returns a value that a live slot holds under the key |
| Probing.GetIsLookup | DSA-Hashmaps.js:11-17 | under the invariant, `get` returns the value of the key's live slot and a key error when there is none |
| HashMaps.HashMap.Get | DSA-Hashmaps.js:11-17 | changes nothing and returns `Probing.Get` of the current table |
| Probing.Place | DSA-Hashmaps.js:25-29 | writing where the probe stops fails exactly when no slot stops it; on success one more to `length`, same capacity, counters kept |
| Probing.PlaceKeepsValid | DSA-Hashmaps.js:25-29 | a placement after a load check that did not fire keeps the invariant and the tombstone count |
| Probing.PlaceLookup | DSA-Hashmaps.js:25-29 | after a placement the key finds the new value and every other key finds what it found before |
| Probing.Grow | DSA-Hashmaps.js:20-23 | the table is three times larger exactly when the load check fires, and afterwards the load check passes; after growth the table has no tombstone and a free slot |
| Probing.Set | DSA-Hashmaps.js:19-30 | it fails, with `SlotsExhausted`, exactly when the load check did not fire and the probe finds no slot, and then no slot stops the probe; a success has capacity ×3 exactly when the load check fired, keeps `_deleted`, sets `deleted` to 0 exactly when it grew and keeps it otherwise, and has `length` one more than before or, after growth, one more than the number of written old slots |
| Probing.SetFailsExactlyWhenExhausted | DSA-Hashmaps.js:19-30 | `set` fails exactly when the load check does not fire and every slot is a tombstone or another key's live slot |
| Probing.SetSemantics | DSA-Hashmaps.js:19-30 | a successful `set` keeps the invariant and `get(key)` then returns the value. Without growth, other keys are unchanged and written slots stay written. With growth, another key returns its highest-indexed old value |
| Probing.SetOverwritesInPlace | DSA-Hashmaps.js:25-29 | setting a key that is live at slot i, with no growth, rewrites slot i and adds one to `length` |
| Probing.SetTwice | DSA-Hashmaps.js:19-30 | after `set(k, v1)` a second `set(k, v2)` succeeds and `get(k)` returns v2; without growth it rewrites the very slot holding `(k, v1)` |
| HashMaps.HashMap.Set | DSA-Hashmaps.js:19-30 | keeps the invariant; on success the new state is `Probing.Set` of the old one, on failure the state is unchanged and the error is returned |
| Probing.Remove | DSA-Hashmaps.js:32-41 | a failure is a key error; a success lowers `length` by one, raises `_deleted` by one, keeps the capacity |
| Probing.RemoveKeepsValid | DSA-Hashmaps.js:32-41 | a removal keeps the invariant |
| Probing.RemoveLookup | DSA-Hashmaps.js:32-41 | after a removal the key has no live slot and every other key finds what it found before |
| Probing.RemoveSemantics | DSA-Hashmaps.js:32-41 | `remove` fails exactly when `get` fails; afterwards `get(key)` is a key error, other keys are unchanged, written slots stay written |
| HashMaps.HashMap.Remove | DSA-Hashmaps.js:32-41 | keeps the invariant and the slot array; the new state is `Probing.Remove` of the old, or unchanged with the key error |
| Probing.TombstonesExhaustProbe | DSA-Hashmaps.js:47-54 | when every slot is a tombstone the probe returns nothing, `get` and `remove` are key errors, and `set` without growth is reported as `SlotsExhausted` |
| Probing.RebuildStart | DSA-Hashmaps.js:57-61 | a table of `size` empty slots with `length` 0, `deleted` 0 and `_deleted` kept, valid and with room to re-set every old slot |
| Probing.RebuildStep | DSA-Hashmaps.js:63-66 | during a rebuild the load check never fires and each re-set succeeds |
| Probing.RebuildSetIsPlace | DSA-Hashmaps.js:63-66 | during a rebuild `set` is a plain placement: no nested resize |
| Probing.Reinsert | DSA-Hashmaps.js:63-67 | re-setting the remaining old slots keeps the invariant, the size and the counters, and adds one to `length` per written slot |
| Probing.ReinsertStep | DSA-Hashmaps.js:63-67 | one iteration of the rebuild loop: an empty old slot is skipped, a written one is re-set, which succeeds |
| Probing.Resize | DSA-Hashmaps.js:56-68 | the rebuilt table keeps the invariant and has the new size, `length` equal to the number of written old slots, no tombstone, `_deleted` kept, `deleted` 0 |
| HashMaps.HashMap.Resize | DSA-Hashmaps.js:56-68 | the loop over the old array, calling `Set`, leaves exactly `Probing.Resize` of the old table in a fresh array |
| Probing.ReinsertLookup | DSA-Hashmaps.js:63-67 | after the rebuild a key finds the value of its highest-indexed written old slot, or what the start table held when it had none |
| Probing.ResizeLookup | DSA-Hashmaps.js:56-68 | after a resize a key finds the value of its highest-indexed written old slot, tombstones included |
| Probing.ResizeHighestSlotWins | DSA-Hashmaps.js:63-66 | when slot j is the last written old slot with its key, `get` after the resize returns slot j's value |
| Probing.RemovedKeyComesBack | DSA-Hashmaps.js:63-66 | a removed key is found again after a resize |
| Probing.LastWrittenIsLookup | DSA-Hashmaps.js:63-66 | with no tombstone, the highest-indexed written slot of a key is its live slot |
| Probing.DictionarySetSucceeds | DSA-Hashmaps.js:19-30 | with no tombstone `set` always succeeds, keeps the invariant and leaves no tombstone |
| Probing.DictionarySet | DSA-Hashmaps.js:19-30 | with no tombstone, after `set` the key finds the new value and every other key finds its old one, growth included |
| Scenarios.OverwriteIsCounted | DSA-Hashmaps.js:29 | setting "B" twice in the default table leaves one live slot and `length` 2 |
| Scenarios.TombstonesFillTable | DSA-Hashmaps.js:32-54 | set and remove "B", then "A", in two slots: both slots are tombstones, `length` is 0, the load check does not fire, `set("A")` is reported as `SlotsExhausted` and `get("A")` is a key error |
| Scenarios.RebuildStale | DSA-Hashmaps.js:56-68 | rebuilding [live ("B", 20), tombstone ("B", 10)] into six slots leaves ("B", 10) at index 3, `length` 2, `_deleted` 1, `deleted` 0 |
| Scenarios.StaleValueAfterGrowth | DSA-Hashmaps.js:19-30 | after "B" is set, removed and set to 20, `get("B")` is 20; the next `set` grows the table and `get("B")` becomes the removed 10; `length` is 3 for two keys |
| Palindromes.Distinct | DSA-Hashmaps.js:84-92 | only code units of the string appear in the distinct list |
| Palindromes.DistinctElements | DSA-Hashmaps.js:84-92 | the distinct list has no repeated code unit and holds exactly the string's code units |
| Palindromes.DistinctInFirstAppearanceOrder | DSA-Hashmaps.js:84-92 | the distinct list is in order of first appearance in the string |
| Palindromes.UniqueChars | DSA-Hashmaps.js:84-92 | the loop that pushes each code unit not yet held returns `Distinct(s)` |
| Palindromes.PalindromePermutation | DSA-Hashmaps.js:94-116 | some rearrangement of s is a palindrome exactly when at most one code unit occurs an odd number of times |
| Palindromes.OddCountOfDistinct | DSA-Hashmaps.js:107-115 | counting odd totals over the distinct code units, fewer than two is that condition |
| Palindromes.ZeroStep | DSA-Hashmaps.js:99-101 | each `set(c, 0)` of the first loop succeeds and keeps every code unit set so far at 0 |
| Palindromes.TallyStep | DSA-Hashmaps.js:103-105 | each `set(c, get(c) + 1)` of the second loop succeeds and keeps every count equal to the occurrences so far |
| Palindromes.PermutationPalindrome | DSA-Hashmaps.js:94-116 | the three loops over a fresh `HashMap` return true exactly when at most one code unit occurs an odd number of times, that is, exactly when some rearrangement of the string is a palindrome |

## Left out

- `groupAnagrams` is not part of this model. It depends on the default ordering of `Array.prototype.sort` and on pushing into arrays reached through the map.
- `main`, its demo calls and `console.log` are not modelled: they are driver and output code.
- The load ratio is computed in floating point in the source. The model uses the exact integer test `10·(length+1) > 9·capacity`; `Probing.LoadExceededIsRatio` ties it to the real ratio 0.9.
- HashMaps.HashMap.Set: when the probe runs out, the source writes the property `_slots[undefined]` and still adds one to `length`. The model reports `SlotsExhausted` and leaves the state unchanged. Only a resize drops the stray property in the source, since it starts from a new array and visits indices only.
- Probing.Set: the same divergence; where the source writes `_slots[undefined]` and adds one to `length`, it returns `SlotsExhausted`.
- HashMaps.HashMap.Get: when its probe runs out after such a stray write, the source reads `_slots[undefined]` and returns the stray value; the model reports a key error.
- HashMaps.HashMap.Remove: when its probe runs out after such a stray write, the source flags `_slots[undefined]` deleted, lowers `length` and raises `_deleted`; the model reports a key error and changes nothing.
- Keys are compared with `==` in the source; since keys are strings, the model compares code-unit sequences.
- JavaScript's sparse array is modelled as an explicit `Empty` slot state; `for ... of` over the old array visits its indices in order, with holes as `Empty`.
- HashMaps.HashMap.constructor: requires a positive capacity; a capacity of 0 makes `hash % 0` NaN in the source.
- HashMaps.HashMap.Resize: requires `10·capacity ≤ 9·size`, which the only caller meets with `size = 3·capacity`. It keeps the rebuild from triggering a nested resize; the source states no such bound.
- `length` and the counters are unbounded integers in the model; the source's numbers are doubles, exact only up to 2^53.
- Palindromes.PermutationPalindrome: the model does not capture the console output inside the function.
