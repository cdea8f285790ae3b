# Bounded heap and argmax/argmin, modelled in Dafny

This project models the data-structure part of `utils.py`, a helper file from a collection of
statistical-learning algorithms. It covers two things.

- The `Heap` class. It is a priority queue over `(key, i, value)` entries kept in a `heapq` list.
  `key` is computed once, when the value is pushed. `i` is a counter that rises with every push,
  so two entries with equal keys are ordered by push order and never by their values.
  An optional `max_len` bounds the heap: after a push that makes it too long, `push` calls `pop()`.
- `argmax` and `argmin`. Each returns the first index whose key is the largest (smallest),
  together with that key.

The heap is an immutable Dafny value (`BoundedHeap.Heap`), and every operation returns the new
state. `top` is a pure function, so "top does not change the heap" holds by construction.
The entries are a sequence that stands for heapq's array. The model never depends on the
array's order: `pop` removes the least entry by `(key, seqNo)` and leaves the others as they were.

**Which end is evicted.** `heapq` is a min-heap, so the overflow `pop()` removes the least entry.
A bounded heap therefore keeps its `max_len` *largest* entries. Among equal keys, the earliest
push is evicted first. Pushing 5, 1, 4, 2, 8 under a bound of 3 keeps 4, 5 and 8, not 1, 2 and 4
(`HeapExamples.KeepsLargestExample`). Any bound is accepted without complaint, including 0. With
a bound of 0 each push evicts one least entry of the grown heap, so the heap never grows.

**Which constructor.** For a non-empty `arr`, the constructor as written (utils.py:17-20) has a
bug, described under Findings. `BoundedHeap.Create` models the corrected constructor, and the
heap theorems are stated for it. The constructor as written is modelled separately in `BulkLoad`.

Modules:

- `Results`: `Option` and `Result`.
- `HeapEntries`: the entry, its order, and the least-entry choice that heapq makes.
- `BoundedHeap`: the class's operations.
- `HeapProperties`: theorems over sequences of operations.
- `HeapExamples`: two concrete runs of pushes, one with bound 3 and pushes 5, 1, 4, 2, 8, and one with bound 2 and three equal-key pushes x, y, z.
- `BulkLoad`: the constructor finding below.
- `ArgExtremes`: `argmax` and `argmin`.

## Model

| member | source | states |
|---|---|---|
| HeapEntries.MinIndex | utils.py:43-44 | picks an entry that no other entry precedes by (key, seqNo); it has the least key, and when sequence numbers are distinct it comes strictly before every other entry |
| BoundedHeap.Create | utils.py:12-20 | with the corrected constructor: a missing or empty `arr` gives an empty heap; a non-empty one is loaded with keys computed once, is not trimmed to `max_len`, holds exactly the values of `arr` in order, each with its key, and has distinct sequence numbers below the counter, which is \|arr\| |
| BoundedHeap.Len | utils.py:22-23 | the length is zero exactly when no entry is stored |
| BoundedHeap.NonEmpty | utils.py:25-26 | `bool(heap)` holds iff `len(heap)` is not zero |
| BoundedHeap.Top | utils.py:40-41 | fails with `EmptyHeap` iff the heap is empty; otherwise returns the value of a least entry, the strictly least one when sequence numbers are distinct |
| BoundedHeap.PopEntry | utils.py:43-44 | fails iff empty; otherwise removes exactly one occurrence of a least entry, keeps every other entry and the counter, and on a valid heap the removed entry precedes all that remain |
| BoundedHeap.Pop | utils.py:43-44 | fails iff empty; otherwise returns the value of a removed least entry, the length drops by one, and the counter, key function and bound are unchanged |
| BoundedHeap.Push | utils.py:32-38 | the counter rises by exactly 1; without overflow the new entry is appended and the length grows by 1; on overflow a least entry of the grown heap is removed and the length is unchanged; `len <= max_len` and validity are kept when they held before |
| BoundedHeap.DrainEntries | utils.py:28-30 | iterating empties the heap; the yielded entries are a permutation of the stored ones, keys never decrease, and on a valid heap equal keys come out in push order |
| BoundedHeap.Drain | utils.py:28-30 | iteration yields exactly `len(heap)` values, which are the stored values counted with multiplicity, in ascending key order when every stored key is the key of its value, and leaves the heap empty |
| HeapProperties.PushAll | utils.py:32-38 | a run of pushes raises the counter by the number of pushes and keeps validity and the capacity bound |
| HeapProperties.RetainsLargest | utils.py:35-38 | after pushing `xs` into an empty heap, the heap is valid and holds min(\|xs\|, max_len) of the pushed entries, and every evicted entry has a smaller key than every kept one, or an equal key and an earlier push |
| HeapProperties.UnboundedKeepsAll | utils.py:32-38 | without a bound, pushing `xs` into an empty heap stores every pushed entry, numbered in push order |
| HeapProperties.CreateMatchesPushes | utils.py:15-20 | with the corrected constructor, loading `arr` gives the same entries and counter as pushing `arr` one by one into an unbounded heap |
| HeapProperties.OverfullStaysOverfull | utils.py:17-19 | a heap created with more elements than `max_len` keeps exactly that length under any number of pushes, so the bound is never restored |
| HeapProperties.ReachableInvariants | utils.py:12-44 | with the corrected constructor, in every heap reachable by push, pop and top, sequence numbers are distinct and below the counter; the counter equals the loaded plus pushed count and is never reset; a heap created within its bound stays within it |
| HeapProperties.MinIndexIgnoresValues | utils.py:33-35 | which entry is least depends only on keys and sequence numbers |
| HeapProperties.PushIgnoresValue | utils.py:33-36 | pushing two values with equal keys gives heaps that agree on every key and sequence number, so eviction and placement never depend on the stored value |
| HeapProperties.TopAgreesWithPop | utils.py:40-44 | `bool(heap)` holds iff `top` succeeds iff `pop` succeeds, and `top` returns the value `pop` removes |
| HeapProperties.TopIsFirstDrained | utils.py:28-30 | iteration yields `top()` first |
| HeapExamples.KeepsLargestExample | utils.py:37-38 | bound 3, pushes 5, 1, 4, 2, 8: the heap keeps 4, 5 and 8 |
| HeapExamples.EqualKeysEvictEarliestExample | utils.py:35-38 | bound 2, three equal-key pushes x, y, z: the heap keeps y and z |
| HeapExamples.KeepsLargestUnderIdentity | utils.py:32-38 | the first scenario with the key `lambda k: k` itself: the heap keeps 5, 4 and 8 |
| HeapExamples.EqualKeysUnderConstantKey | utils.py:32-38 | the second scenario with the key `lambda c: 0` itself: the heap keeps y and z |
| BulkLoad.LoadAsWritten | utils.py:18-20 | the bulk path as written stores, for each element in order, a pair of its key and the element itself, with no sequence number, and leaves the counter at 0 |
| BulkLoad.BulkTieConsultsValues | utils.py:17-20 | as written, a push whose key ties with a loaded element is ordered by comparing the loaded value with the pushed entry's sequence number, and two loaded elements with equal keys are ordered by comparing their values |
| BulkLoad.TupleOrderIsBefore | utils.py:35 | on stored triples, Python's tuple order is exactly `Before` in both directions, never sets a value against a sequence number, and consults values only when key and sequence number both tie |
| BulkLoad.CorrectedNeverConsultsValues | utils.py:15-20 | with the corrected constructor, any two entries of any reachable heap are ordered by key and sequence number alone, never by a stored value |
| ArgExtremes.Keys | utils.py:91 | the key list has one key per element, at the same position |
| ArgExtremes.MaxOf | utils.py:92 | `max` returns an element of the list that no element exceeds |
| ArgExtremes.MinOf | utils.py:97 | `min` returns an element of the list that no element is below |
| ArgExtremes.IndexOf | utils.py:93 | `list.index` returns the first position holding the value |
| ArgExtremes.ArgMax | utils.py:90-93 | fails iff the input is empty; otherwise returns an index in range whose key is the returned value, no key exceeds it, and no earlier index has it |
| ArgExtremes.ArgMin | utils.py:95-98 | fails iff the input is empty; otherwise returns the first index of the smallest key, with that key |
| ArgExtremes.ArgMaxCharacterized | utils.py:90-93 | `argmax` returns `(idx, v)` if and only if `idx` is the first index attaining the largest key `v` |
| ArgExtremes.ArgMinIsNegatedArgMax | utils.py:95-98 | `argmin` under a key equals `argmax` under the negated key, with the returned key negated back |

## Left out

- `entropy`, `condition_entrpy`, `info_gain`, `info_gain_ratio` and `gini` (utils.py:100-130) are left out: they are floating-point formulas over `log` and division.
- `euc_dis` and `safe_sparse_dot` (utils.py:47-88) are left out: they are thin wrappers over numpy and scipy routines that are not part of this model.
- The matplotlib import is left out: it is unused.
- heapq's sift-up and sift-down are left out. Only what callers can observe is modelled: pop removes a least entry by (key, sequence number).
- Keys are `int`. Python accepts any mutually ordered key type.
- `max_len` is `Option<nat>`, with `None` for the default `inf`. A negative bound behaves like 0 in the code, because the length after a push is at least 1. A non-integer bound is not modelled.
- The key function is total and pure. Exceptions it might raise, and later mutation of a stored value, are not modelled; the key is computed once either way.
- Iteration is modelled to completion (`Drain`). A generator abandoned half-way, leaving the remaining entries in the heap, is not modelled separately.
- BoundedHeap.Create: models the corrected constructor (see Findings). As written, utils.py:18 stores `(key, value)` pairs and line 20 sets the counter to 0. So a key tie between a loaded and a pushed element is decided by comparing the loaded value with the pushed entry's sequence number, a key tie between two loaded elements by comparing their values, and the counter restarts at 0. The as-written path is `BulkLoad.LoadAsWritten`.
- HeapProperties.CreateMatchesPushes: holds for the corrected constructor only. As written, the loaded heap holds pairs and a counter of 0, so it differs from the pushed heap.
- HeapProperties.ReachableInvariants: describes heaps from the corrected constructor. As written, the counter after loading a non-empty `arr` is the number of pushes alone, and a key tie involving a loaded entry reaches a stored value: against a pushed entry its sequence number, against another loaded entry that entry's value. For an empty `arr` the two constructors coincide.
- HeapEntries.MinIndex: among entries with identical key and sequence number, the choice of which one to remove is not specified. Such ties cannot occur in a valid heap.
- BoundedHeap.Len: states emptiness only. That the length is the number of stored values is stated through `Drain`, which yields exactly `Len` values and exactly the stored ones.

## Findings

| source | as written | input that shows it | evidently intended | confidence | as-written member | corrected member |
|---|---|---|---|---|---|---|
| utils.py:17-20 | the constructor stores `(key(i), i)` pairs without a sequence number and leaves the counter at 0, so a key tie between a loaded and a pushed element is decided by comparing the loaded value with the pushed entry's sequence number, and one between two loaded elements by comparing their values, against the comment at lines 33-34 | `Heap([{}], key=lambda d: 0).push({})`: heapq compares `(0, 0, {})` with `(0, {})` and evaluates `0 < {}`, a TypeError | loaded elements are numbered like pushes (0 .. n-1) and the counter continues at n, so values are never compared and ties keep insertion order | high (derived from Python's tuple comparison; not executed) | BulkLoad.BulkTieConsultsValues | BulkLoad.CorrectedNeverConsultsValues |
