# Persistent map and list (mndrix/ps), modelled in Dafny

This project models the two persistent containers of the Go package `ps`.

**The map** (`map.dfy`, module `PersistentMap`) is a binary search tree ordered by the 64-bit hash of each string key, never by the key itself. It is never rebalanced. `Set` and `Delete` copy only the path from the root to the node they change, so every older map stays intact. The self-referential empty sentinel `nilMap` is the `Empty` variant of `Tree<V>`. The value type `Any` is the type parameter `V`. A `clone` followed by field assignments is a datatype update (`t.(left := …)`). `hashKey` is a parameter `H: string -> Hash` of the operations that take a key. `Hash` is the integers below 2^64, so unsigned comparison is integer comparison. `Lookup` returns `Option<V>`, where `None` stands for the `(nil, false)` pair.

The abstract meaning of a tree is `Contents`, a map from stored hash to the stored (key, value). The invariant `Valid` is strict hash order plus correct cached counts. What the proofs establish:

- `Set`, both `Delete`s and `NewMap` keep `Valid`, and keep `WellHashed` (each stored hash is the hash of its stored key).
- `Set` then `Lookup` returns the new value for every key with the same hash.
- `Set` changes `Size()` by exactly 0 or 1.
- When the hash is already present, `Set` keeps the old key and replaces only the value. So a colliding key silently overwrites another key's value.
- `deleteRightmost` and `deleteLeftmost` extract the maximum and the minimum.
- The two-child replacement policy: if the left subtree is strictly larger, the rightmost node of the left subtree replaces the root; otherwise the leftmost node of the right subtree does.
- `ForEach` and `Keys` visit every binding once, `Size()` times, in strictly increasing hash order.

`deleteLowLevel` is modelled twice: as written (`DeleteLowLevel`) and with the evident fix (`DeleteLowLevelCorrected`); see Findings. The package-level functions `Delete` and `DeleteCorrected` wrap them.

One detail of the source, which the model keeps: the node that `deleteRightmost` extracts keeps its old, stale count, while `deleteLeftmost` resets it to 1. This cannot be observed, because `deleteLowLevel` always recalculates the count of the replacement node.

**The list** (`list.dfy`, module `PersistentList`) is a cons cell with a cached `depth`. The empty list is the zero-valued struct with depth 0. `IsNil` tests `depth == 0`, as the source does. `Head` and `Tail` panic on an empty list, so they require a non-empty list. `ForEach` is the sequence of values handed to the callback. `Reverse` is a loop that folds `Cons` over the values `ForEach` visits.

`map_test.dfy` restates the package's map test for every hash function.

## Model

| member | source | states |
|---|---|---|
| `PersistentMap.NewMap` | map.go:63-79 | the new map is the empty sentinel: valid, nil, size 0, no bindings |
| `PersistentMap.IsLeaf` | map.go:259-262 | a node is a leaf by its count alone; on a counted tree, exactly when it has neither subtree |
| `PersistentMap.SubtreeCount` | map.go:264-274 | 0, 1 or 2: 0 iff no subtree, 2 iff both subtrees |
| `PersistentMap.RecalculateCount` | map.go:141-152 | only the count changes, and a node over counted subtrees becomes counted |
| `PersistentMap.SizeIsCardinality` | map.go:40-42 | on a valid tree the cached count `Size()` is the number of stored bindings |
| `PersistentMap.SetLowLevelSpec` | map.go:112-139 | setLowLevel keeps order and counts; it binds an absent hash to (key, value), or replaces only the value of a present hash and keeps its key; size +1 iff the hash was absent |
| `PersistentMap.LookupLowLevelSpec` | map.go:281-295 | on an ordered tree, lookup finds a hash iff some node carries it and then returns that node's value; None on the empty map |
| `PersistentMap.DeleteRightmost` | map.go:215-232 | returns the node with the largest hash, childless, with its stored binding, and a valid remainder holding exactly the other bindings, one smaller |
| `PersistentMap.DeleteLeftmost` | map.go:233-249 | the same for the smallest hash; the extracted node has count 1 |
| `PersistentMap.ReplaceWithRightmost` | map.go:196-204 | the rightmost node of the left subtree replaces the root over the unchanged right subtree; result valid, root binding gone, one smaller |
| `PersistentMap.ReplaceWithLeftmost` | map.go:206-212 | the leftmost node of the right subtree replaces the root over the unchanged left subtree; result valid, root binding gone, one smaller |
| `PersistentMap.DeleteOwnNode` | map.go:185-212 | removing a root: a leaf becomes empty; a single child is returned as is; with two children, the left side's rightmost node is used if the left side is strictly larger, else the right side's leftmost; always valid, root binding gone, one smaller |
| `PersistentMap.DeleteLowLevel` | map.go:160-213 | as written: found iff the search finds the hash; not found returns the same tree; found returns the tree with its own root removed |
| `PersistentMap.DeleteLowLevelSpec` | map.go:160-213 | as written, on a valid tree: found iff the hash is stored; the result is valid and one smaller when found; but the binding removed is the root's |
| `PersistentMap.DeleteLowLevelCorrected` | map.go:31-33 | corrected delete: found iff the hash is stored; absent returns the same tree; result valid, holds exactly the other bindings, one smaller when found |
| `PersistentMap.ForEachLength` | map.go:301-318 | on a counted tree ForEach visits exactly `Size()` nodes |
| `PersistentMap.InOrderHashesSorted` | map.go:301-318 | the in-order hashes are exactly the stored hashes, strictly increasing (left, self, right) |
| `PersistentMap.ForEachMatchesContents` | map.go:301-318 | the i-th (key, value) visited is the binding of the i-th hash in order |
| `PersistentMap.ForEachSpec` | map.go:44-45 | ForEach visits every binding once, `Size()` times, in strictly increasing hash order |
| `PersistentMap.Keys` | map.go:320-328 | the slice has length `Size()` and holds the visited keys in visit order |
| `PersistentMap.KeysInHashOrder` | map.go:47-49 | with honest hashes, the keys come in strictly increasing `H` order, hence are distinct |
| `PersistentMap.SetThenLookup` | map.go:104-110 | after Set(k, v), every key with `H(k') == H(k)`, colliding ones included, looks up v; all other keys look up as before |
| `PersistentMap.SetSize` | map.go:25-29 | Set keeps the invariants and honest hashes; size grows by one iff the key's hash was not stored |
| `PersistentMap.SetTwice` | map.go:135-138 | a second Set of a key leaves the second value and does not change the size |
| `PersistentMap.DeleteAbsent` | map.go:161-179 | deleting a key whose hash is not stored returns the identical map (both variants) |
| `PersistentMap.DeleteCorrectedThenLookup` | map.go:31-33 | after the corrected Delete(k), keys with k's hash are not found; all other keys look up as before |
| `PersistentMap.DeleteSize` | map.go:154-158 | both deletes keep honest hashes and shrink the size by one iff the key's hash was stored |
| `PersistentMap.DeleteAsWrittenMissesNonRoot` | map.go:166-186 | counterexample: with "a" at the root and "b" below it, the as-written Delete("b") leaves "b" and drops "a"; the corrected one drops "b" only |
| `PersistentMapScenario.MapImmutable` | map_test.go:5-28 | for every hash function: Set twice keeps the first map's value, both sizes are 1, and Delete gives size 0 and no keys |
| `PersistentList.NewList` | list.go:10-14 | the new list is valid, nil, size 0, and visits nothing |
| `PersistentList.Cons` | list.go:26-33 | the new list is non-empty, with the value as Head, the receiver as Tail, size one more, valid if the receiver is, and visits the value then the receiver's values |
| `PersistentList.SizeIsLength` | list.go:16-24 | on a valid list Size() is the number of values ForEach visits; IsNil iff the empty list and nothing visited |
| `PersistentList.Reverse` | list.go:62-67 | the result is valid, visits the receiver's values in the opposite order, and has the same size |
| `PersistentList.ReversedTwice` | list.go:62-67 | reversing the visit order twice gives it back |
| `PersistentList.ConsScenario` | list.go:27-51 | Cons 3, 2, 1: head 1, then 2, size 3, visited 1, 2, 3, reversed 3, 2, 1 |

## Left out

- The body of `hashKey` (FNV-1 64-bit over the key's printed bytes, map.go:98-102) is a library call. It is the parameter `H`. Any deterministic function can stand for it.
- `String()` (map.go:331-340) is debugging output built with formatted I/O.
- The benchmarks in map_test.go:30-42 only measure time.
- Pointer identity is not modelled. Structural sharing of untouched subtrees, the `self == nilMap` test and garbage collection are not modelled either. Trees are values, so "the same map" means equal values, and an old map is unchanged by construction.
- The O(log N) claims (map.go:28, 32, 37) are left out. Nothing rebalances the tree, so the depth can be linear.
- Go's 64-bit `int` for `count` and `depth` is a `nat`. Overflow would need more nodes than memory can hold.
- `PersistentMap.DeleteLowLevel`, `DeleteOwnNode`, `DeleteRightmost` and `DeleteLeftmost` require `Valid`. The source picks its branches by the cached count (`isLeaf` tests `count == 1`), so it relies on the invariant. Every map built by `NewMap`, `Set` and `Delete` satisfies it (proved). Malformed trees are outside the model.
- `ForEach` and `Keys` take no callback. `ForEach` is the sequence of arguments the callback would receive, in call order.

## Findings

| source | as written | input that shows it | evidently intended | confidence | as-written member | corrected member |
|---|---|---|---|---|---|---|
| map.go:166-186 | the branches that descend left or right build `newMap` and do not return it, so control falls through to "delete our own node": whenever the hash is found below the root, the root is deleted | a map with "a" (hash 10) at the root and "b" (hash 20) as its right child; `Delete("b")` still finds "b" and loses "a" | `return newMap, true` after each `recalculateCount(newMap)` | high; not executed | `PersistentMap.DeleteLowLevel`, `PersistentMap.DeleteAsWrittenMissesNonRoot` | `PersistentMap.DeleteLowLevelCorrected` |
