# Persistent structures: a verified model of the vector trie and the bucket map

This project models the two working collections of the PersistentStructures library in Dafny and
proves what they promise.

**`PythonPVector`** (src/pvector.py) is a persistent vector:
- A 32-way trie holds the leading values in full leaves of 32. A tail buffer holds up to 32 trailing values.
- `set`, `append` and a non-empty `extend` return a new handle that shares untouched structure with the old one, and they record it in the receiver's version list, which `undo` and `redo` step through.
- `remove` and a non-trivial slice rebuild their result from a new empty vector. They record that empty vector in the receiver's version list, and the result shares no structure with the receiver.
- `extend([])` and `v[:]` return the receiver itself and record nothing.

**`PMap`** (src/pmap.py) is a hash map:
- It holds a size and a vector of buckets. Each bucket is absent or a list of key/value pairs.
- Its writes go through a working copy, `_Evolver`. The working copy is rehashed into twice as many buckets when the buckets become too few for the size.

Files:

- `bits.dfy` (module `Bits`): powers of two, right shifts, and the division facts that split an index into 5-bit digits.
- `wrappers.dfy` (module `Wrappers`): `Option`, `Result` and Python's exception kinds (`IndexError`, `TypeError`, `ValueError`, `KeyError`).
- `lists.dfy` (module `Lists`): the Python list built-ins the vector relies on (`index`, `count`, `remove`, slicing with start and stop).
- `trie.dfy` (module `Trie`): the trie nodes as an immutable datatype.
  - It also holds the pure copy functions `_do_set`, `_new_path`, `_push_tail` and `_create_new_root`.
  - The abstraction `Elements` gives a node's values in order, which is what `_fill_list` appends.
  - The shape invariant says:
    - every leaf is full and sits at depth `shift / 5`;
    - no node has more than 32 children;
    - every node but the last among its siblings is full;
    - the tail holds at most 32 values, and `count` is the size of the tree plus that of the tail.
- `pvector.dfy` (module `PVectors`): `PythonPVector` as a class.
  - Its fields are `count`, `shift`, `root`, `tail`, `tailOffset` and the version list.
  - Every operation is proved against `Contents()`, which is the tree's values followed by the tail, i.e. what `tolist` returns.
  - The in-place bulk load (`_mutating_*`, `extend`) is a loop with invariants. So is the read-only descent of `_node_for`.
  - `pvector` and `v` are `PVectorOf`.
- `pmap.dfy` (module `PMaps`):
  - Pure specification functions over the bucket sequence:
    - `Lookup` (the scan of the key's bucket);
    - `Items` (`iteritems`);
    - `Rehash` (the loop of `_reallocate` and `mapping`);
    - `Assign` (the write of `set`);
    - `Delete` (the write of `remove`);
    - `UpdatedValue` (what `update_with` leaves for a key).
  - Lemmas: the invariant (every pair in its key's bucket, no key twice in a bucket, `size` equal to the number of pairs) is preserved, and every write touches only its key.
  - Classes `PMap` and `Evolver` whose methods carry these facts.

Modelling choices:

- **Hashing.** Python's `hash` is a parameter `hash: K -> int` of each map, fixed for its lifetime. `hash(key) % len(buckets)` is Dafny's `%`, which agrees with Python's for a positive divisor.
- **The overflow test.** `len(buckets) < 0.67 * size` is stated in integers as `100 * len(buckets) < 67 * size`.
- **The buckets evolver.** The map's buckets are a vector whose `evolver()` (with `is_dirty` and `persistent`) is called but not defined anywhere in the repository. `Evolver` therefore holds the bucket sequence itself and a `dirty` flag. Every write sets the flag, including a rehash. `persistent` returns the original map while the flag is clear.
- **Identity.** The `v is not val` test of `_Evolver.set` (src/pmap.py:181) compares the stored value with the new one by identity; the model compares them by value. A list's `index` on the version list compares handles, and in Dafny it compares object references, as the source's default equality does.
- **Node copies.** Trie nodes are never written after they are built (every write copies them), so they are values. A vector handle is an object. Two kinds of write change it in place. `set`, `append` and a non-empty `extend` append the new handle to the receiver's version list (`_save_version`); `remove` and a non-trivial slice append the empty vector they rebuild from instead; `extend([])` and `v[:]` append nothing. The bulk load inside `extend` rewrites the new handle's `count`, `shift`, `root` and `tail`.

## Model

| member | source | states |
|---|---|---|
| Lists.IndexOf | src/pvector.py:289-292 | `list.index`: a position holding `x`, before which no position holds `x` |
| Lists.CountOf | src/pvector.py:294-297 | `list.count`: the number of occurrences of `x`, as the multiset count |
| Lists.RemoveFirst | src/pvector.py:302-303 | `list.remove`: one value shorter, the values before the first `x` kept, those after it shifted down one, and the multiset loses exactly one `x` |
| Lists.SliceBound | src/pvector.py:50 | one bound of a step-1 slice: a missing bound takes its default, a bound in `0..len` is kept, a larger one becomes `len`, a negative one counts from the end, and one below `-len` becomes 0 |
| Lists.Slice | src/pvector.py:50 | `l[a:b]` with step 1: never longer than `l`; `[:]` is `l`; in-range bounds give `l[a..b]`; `[:b]` and `[a:]` give the prefix and the suffix; a negative `[:b]` or `[a:]` counts from the end |
| Trie.ChildAt | src/pvector.py:166-170 | one step of the descent: digit `(i >> level) & 31` names an existing child, and the value at local offset `i` is that child's value at the remainder |
| Trie.ChildDigits | src/pvector.py:168 | an index splits into the child digit times the child width plus the offset inside the child |
| Trie.DenseSize | src/pvector.py:174-191 | a well-shaped subtree at level L holds a positive multiple of 32 and at most 2^(L+5) values |
| Trie.RootSize | src/pvector.py:174-191 | the root holds a multiple of 32 values, at most 2^(shift+5) |
| Trie.DoSet | src/pvector.py:144-158 | `_do_set` returns a well-shaped node whose values are the old ones with the local offset of `i` replaced by `val`, having the same number of children and sharing every child but the one on the path |
| Trie.ReplaceChild | src/pvector.py:155-156 | writing the rewritten child back into a copy keeps the shape and replaces exactly the one value |
| Trie.NewPath | src/pvector.py:218-223 | `_new_path` wraps its leaf in single-child branches; its values are the leaf's and a full leaf gives a well-shaped path |
| Trie.PushTailSlot | src/pvector.py:277-280 | the digit `((count-1) >> level) & 31` names the last child when it has room, and otherwise the next free slot |
| Trie.DescendForPush | src/pvector.py:276-287 | at an inner level above the leaves, the digit names either the last child, which is then a well-shaped subtree with room for the tail, or the next free slot next to full children |
| Trie.AppendChild | src/pvector.py:273-274 | hanging a new full subtree after full children keeps the shape and appends its values |
| Trie.ReplaceLastChild | src/pvector.py:280-283 | replacing the last child by one holding its values plus the tail keeps the shape and appends the tail |
| Trie.LeafRowRoom | src/pvector.py:271-274 | at the leaf row, a non-overflowing tree always has room for one more leaf |
| Trie.PushTail | src/pvector.py:264-287 | `_push_tail` returns a well-shaped node whose values are the parent's followed by the full tail |
| Trie.RootOverflowIffFull | src/pvector.py:183 | the overflow test `(count >> 5) > (1 << shift)` holds exactly when the root is full |
| Trie.GrowRoot | src/pvector.py:185-186 | a new root over the full old root and a fresh path is well shaped one level higher, with the old values then the path's |
| Trie.InsertAtRoot | src/pvector.py:189 | when the root is not full, its size is what `_push_tail` expects from `count` |
| Trie.CreateNewRoot | src/pvector.py:174-191 | `_create_new_root` returns a well-shaped root holding the old values and then the tail; shift grows by exactly 5 precisely when the old root was full, and stays otherwise |
| PVectors.TailSlot | src/pvector.py:120-124 | an index in the tail reaches it at `i & 31` |
| PVectors.RootOffset | src/pvector.py:132-136 | proof step for `Set` and `NodeFor`: an index below the tree's width is its own remainder modulo that width, so the descent starts from the index itself |
| PVectors.PVector.constructor | src/pvector.py:27-37 | `__new__` stores the fields, sets `tail_offset = count - len(tail)`, appends the new handle to a copy of the given version list, and is valid when the trie invariant holds |
| PVectors.PVector.SaveVersion | src/pvector.py:63-65 | `_save_version` appends the given handle to the version list |
| PVectors.PVector.Length | src/pvector.py:39-40 | `len` is the length of `tolist()` |
| PVectors.PVector.NodeFor | src/pvector.py:160-172 | `_node_for` succeeds exactly for `0 <= i < count`, otherwise IndexError; the row returned holds `tolist()[i]` at `i & 31`, and is the tail past the tail offset |
| PVectors.PVector.Get | src/pvector.py:52-55 | `v[i]` is `tolist()[i]`, a negative `i` counting from the end; an index outside `-count..count-1` raises IndexError |
| PVectors.PVector.FillList | src/pvector.py:67-75 | `_fill_list` extends the list with the subtree's values in order |
| PVectors.PVector.ToList | src/pvector.py:77-81 | `tolist` is exactly the vector's contents |
| PVectors.PVector.Set | src/pvector.py:108-142 | `set`: a non-integer index raises TypeError and an out-of-range one IndexError, both without recording a version; an in-range index gives a new valid vector with only that position replaced, reusing the root for a tail write and the tail for a tree write; `i == count` behaves as `append`; the new vector is recorded |
| PVectors.PVector.Append | src/pvector.py:193-216 | `append` gives a new valid vector whose contents are the old ones plus `val` and whose count is one more; the root is shared while the tail has room; otherwise the tail is folded in and the shift grows by 5 exactly when the root was full; the new vector is recorded |
| PVectors.PVector.MutatingFillTail | src/pvector.py:231-239 | moves `min(32 - len(tail), remaining)` values into the tail, raising `count` by as many, and returns the new offset |
| PVectors.PVector.MutatingInsertTail | src/pvector.py:225-229 | folds the full tail into the tree (values kept in order), empties the tail and keeps the trie invariant; the shift grows by 5 exactly when the root was full |
| PVectors.PVector.MutatingExtend | src/pvector.py:241-249 | appends every value of the sequence in place, keeping the trie invariant and the tail offset |
| PVectors.PVector.Extend | src/pvector.py:251-262 | `extend([])` is this same handle with nothing recorded; otherwise a new valid vector with the values appended, recorded once |
| PVectors.PVector.ExtendVector | src/pvector.py:254 | extending by another vector: an empty one gives this same handle and records nothing; otherwise a new valid vector with that vector's contents appended, recorded as the newest version, with the receiver's version list as its own |
| PVectors.PVector.Remove | src/pvector.py:299-306 | `remove(x)` raises ValueError and records nothing when `x` is absent. Otherwise it records a fresh empty vector as the newest version and returns a valid vector holding the old contents without the first `x`. That vector is the empty one itself when nothing is left. Otherwise its version list is the receiver's followed by itself, which the empty vector shares |
| PVectors.PVector.Rebuild | src/pvector.py:304-306 | a fresh empty vector is recorded as the newest version; the result holds exactly the given values; it is that empty vector when there are none, and otherwise a new vector whose version list is the receiver's followed by itself |
| PVectors.PVector.Slice | src/pvector.py:42-50 | `v[:]` is this same handle with nothing recorded; any other step-1 slice holds `tolist()[start:stop]`, built like `remove`'s result with the same version-list clauses |
| PVectors.PVector.Index | src/pvector.py:289-292 | `index(x)` succeeds exactly when `x` occurs, giving its first position; otherwise ValueError |
| PVectors.PVector.Count | src/pvector.py:294-297 | `count(x)` is the number of occurrences of `x` |
| PVectors.PVector.Undo | src/pvector.py:95-99 | `undo` gives the version before this handle in its list, or the handle itself when it is first |
| PVectors.PVector.Redo | src/pvector.py:101-106 | `redo` gives the version after this handle in its list, or the handle itself when it is last |
| PVectors.PVectorOf | src/pvector.py:309-310 | `pvector(s)` is a valid vector holding `s`; for non-empty `s` its versions are the empty vector and itself |
| PVectors.RoundTrip | src/pvector.py:309-310 | `pvector(s).tolist() == s` for every `s`, the empty one included |
| PVectors.RemoveThenUndo | src/pvector.py:302-306 | after `w = v.remove(x)` on a vector of two or more values, `w.undo()` is the empty vector `remove` recorded, of length 0, and not `v` |
| PVectors.UndoRedoScenario | tests/test_pvector.py:127-135 | `pvector(s).undo()` has length 0 for non-empty `s`; after `v1 = v.append(x)` on an empty `v`, `v.redo().tolist() == [x]` |
| PMaps.BucketIndex | src/pmap.py:21 | `hash(key) % len(buckets)` lies in `0..len-1` |
| PMaps.BucketIndexResidue | src/pmap.py:21 | the slot differs from the hash by a multiple of the bucket count |
| PMaps.GetBucket | src/pmap.py:16-23 | `_get_bucket` returns the slot computed from the key's hash and bucket count alone, and the bucket in it |
| PMaps.KeyIndex | src/pmap.py:32-34 | the position of the first pair whose key is `key`, or the length when none has it |
| PMaps.Find | src/pmap.py:31-35 | the scan finds nothing exactly when no pair has the key; otherwise the value of the first pair with that key |
| PMaps.Scan | src/pmap.py:32-34 | the scanning loop returns what `Find` specifies |
| PMaps.GetItemIn | src/pmap.py:25-35 | `_getitem` returns the value held for the key, or raises KeyError when there is none |
| PMaps.ContainsIn | src/pmap.py:37-48 | `_contains` is true exactly when `_getitem` would find a value |
| PMaps.InItems | src/pmap.py:97-104 | a pair is among `iteritems` exactly when some bucket holds it |
| PMaps.ItemsUpdate | src/pmap.py:97-104 | replacing one bucket trades its pairs for the new bucket's pairs among the items (as multisets) |
| PMaps.FindUnique | src/pmap.py:31-35 | in a bucket without repeated keys the scan finds `v` exactly when `(key, v)` is in the bucket |
| PMaps.LookupIffInItems | src/pmap.py:25-35 | in a well-formed map, lookup gives `v` for `key` exactly when `(key, v)` is among the items |
| PMaps.ItemsUnique | src/pmap.py:97-104 | no key appears twice among the items of a well-formed map |
| PMaps.Place | src/pmap.py:204-209 | one turn of the rehashing loop, which keeps the bucket count; `PlaceStep` ties it to the loop body and `PlaceWellFormed` states what it keeps |
| PMaps.PlaceStep | src/pmap.py:204-209 | the turn as written (append to a non-empty bucket, else a new one-pair bucket) is `Place` |
| PMaps.Rehash | src/pmap.py:200-212 | the rehashing loop yields exactly `n` buckets; what they hold is stated by `RehashItems`, `RehashWellFormed` and `RehashLookup` |
| PMaps.RehashItems | src/pmap.py:200-212 | rehashing keeps exactly the multiset of pairs it is given |
| PMaps.PlaceWellFormed | src/pmap.py:204-209 | placing a pair whose key is new keeps every pair in its key's bucket and no key twice in a bucket |
| PMaps.RehashWellFormed | src/pmap.py:200-212 | rehashing pairs with distinct keys puts each pair in bucket `hash(k) % n` |
| PMaps.RehashLookup | src/pmap.py:200-212 | rehashing the items of a well-formed map changes no lookup |
| PMaps.RehashSize | src/pmap.py:200-212 | rehashing keeps the number of pairs |
| PMaps.RehashFacts | src/pmap.py:200-212 | rehashing a map into `n` buckets keeps its invariant, its size and every lookup |
| PMaps.ReplaceValue | src/pmap.py:184 | the copied bucket keeps its length and its keys in order, keeps every pair of another key, and gives the key the value `val` |
| PMaps.Assign | src/pmap.py:174-198 | the write of `set`, which keeps the bucket count; its meaning is stated by `AssignLookup`, `AssignLocal` and `AssignInvariant` |
| PMaps.FindReplace | src/pmap.py:184 | after the copy, the key is found with `val` and every other key as before |
| PMaps.FindPrepend | src/pmap.py:189-191 | after putting `(key, val)` in front, the key is found with `val` and every other key as before |
| PMaps.AssignLookup | src/pmap.py:174-198 | after `set`, the key holds `val` and every other key holds what it held |
| PMaps.AssignLocal | src/pmap.py:176-196 | `set` writes only the key's bucket, keeps every pair of another key in it, and adds a pair exactly when the key was absent |
| PMaps.AssignInvariant | src/pmap.py:174-198 | `set` keeps the map invariant, the size growing by one exactly when the key was absent |
| PMaps.AssignFacts | src/pmap.py:174-198 | the invariant with the new size, and every lookup after `set` |
| PMaps.Without | src/pmap.py:241-242 | the filtered bucket is shorter exactly when the key was present |
| PMaps.WithoutMembers | src/pmap.py:241 | the filtered bucket holds exactly the pairs of another key |
| PMaps.WithoutUnique | src/pmap.py:241-242 | filtering a bucket without repeated keys leaves none repeated and drops exactly one pair when the key was present |
| PMaps.Delete | src/pmap.py:237-246 | the write of `remove`, which keeps the bucket count; its meaning is stated by `DeleteLookup`, `DeleteLocal` and `DeleteInvariant` |
| PMaps.DeleteLocal | src/pmap.py:241-244 | `remove` writes only the key's bucket, keeping every pair of another key |
| PMaps.DeleteLookup | src/pmap.py:235-248 | after `remove`, the key has no value and every other key holds what it held |
| PMaps.DeleteInvariant | src/pmap.py:235-248 | removing a present key keeps the map invariant with one pair fewer |
| PMaps.DeleteFacts | src/pmap.py:235-248 | every lookup after `remove` |
| PMaps.Prepared | src/pmap.py:171-172 | the buckets `set` writes into (rehashed into twice as many when `len < 0.67 * size`) are never empty; `PreparedFacts` states what the rehash keeps |
| PMaps.PreparedFacts | src/pmap.py:171-172 | the optional rehash before a write keeps the invariant, the size and every lookup |
| PMaps.PrepareOutcome | src/pmap.py:171-176 | the lookup `set` does after the optional rehash is the one before it |
| PMaps.SetOutcome | src/pmap.py:169-198 | everything `set` promises on values: the invariant with the new size, the key holding `val`, every other key unchanged |
| PMaps.RemoveOutcome | src/pmap.py:235-246 | everything removing a present key promises: the invariant with one pair fewer, the key without a value, every other key unchanged |
| PMaps.AgreeExceptSelf | src/pmap.py:248 | a failed `remove` changes no key |
| PMaps.WriteBucket | src/pmap.py:176-196 | the scan and write of `set` yield `Assign`; the size grows exactly when the key was absent; a write happens exactly when the key did not already hold `val`, and none leaves the buckets as they were |
| PMaps.DeleteFrom | src/pmap.py:237-248 | the scan and write of `remove` succeed exactly when the key is present, yielding `Delete`; otherwise the buckets are unchanged |
| PMaps.UpdatedFromNothing | src/pmap.py:148 | before any pair is written, the working copy holds what the map holds |
| PMaps.UpdateStep | src/pmap.py:151 | one write of `update_with` (`f(held, new)` for a held key, `new` otherwise) extends what the working copy holds by that pair |
| PMaps.UpdatedUntouched | src/pmap.py:149-151 | a key `update_with` never writes keeps its value |
| PMaps.UpdatedOnce | src/pmap.py:149-151 | a key written once ends with `f(old, new)` when it held a value, and with `new` otherwise |
| PMaps.UpdatedKeepsRight | src/pmap.py:141-145 | with `lambda l, r: r`, a key ends with the value of its last write |
| PMaps.WritePairs | src/pmap.py:150-151 | the inner loop of `update_with` writes the pairs in order, each as `UpdateStep` says |
| PMaps.PMap.constructor | src/pmap.py:9-14 | `__new__` stores the size, the buckets and the hash |
| PMaps.PMap.Length | src/pmap.py:115-116 | `len` is the number of pairs |
| PMaps.PMap.GetItem | src/pmap.py:50-51 | `m[key]` is the value held for the key, or KeyError |
| PMaps.PMap.Contains | src/pmap.py:53-54 | `key in m` exactly when the map holds a value for it |
| PMaps.PMap.Evolver | src/pmap.py:250-251 | a fresh working copy of this map's buckets and size, not yet written |
| PMaps.PMap.Set | src/pmap.py:129-133 | a valid map where the key holds `val`, every other key holds what it held, and the size grows exactly when the key was absent; this same map when nothing needed writing |
| PMaps.PMap.Remove | src/pmap.py:135-139 | KeyError when the key has no value; otherwise a valid map with one pair fewer, no value for the key and every other key unchanged |
| PMaps.PMap.UpdateWith | src/pmap.py:147-153 | a valid map holding, for every key, what writing the pairs of `maps` in order leaves, a held key getting `f(held, new)` |
| PMaps.PMap.Update | src/pmap.py:141-145 | `update_with` with the right-hand value kept |
| PMaps.Evolver.constructor | src/pmap.py:158-161 | starts from the original map's buckets and size, clean |
| PMaps.Evolver.GetItem | src/pmap.py:163-164 | the value the working copy holds for the key, or KeyError |
| PMaps.Evolver.Contains | src/pmap.py:232-233 | whether the working copy holds a value for the key |
| PMaps.Evolver.Length | src/pmap.py:229-230 | the number of pairs of the working copy |
| PMaps.Evolver.Reallocate | src/pmap.py:200-212 | the buckets become the rehash of every pair, in `iteritems` order, into `newSize` buckets |
| PMaps.Evolver.Set | src/pmap.py:169-198 | the working copy is rehashed first when `len < 0.67 * size`, then the key holds `val`, every other key is unchanged, the invariant holds, the size grows exactly when the key was absent, and the copy is dirty exactly when something was written |
| PMaps.Evolver.Remove | src/pmap.py:235-248 | KeyError and nothing changed when the key is absent; otherwise the key is deleted, the size drops by one and the copy is dirty; other keys unchanged either way |
| PMaps.Evolver.Persistent | src/pmap.py:220-227 | the original map, the very same object, when nothing was written; otherwise a new map over the working copy with the evolver's size |
| PMaps.RehashOfDictionary | src/pmap.py:254-272 | rehashing the pairs of a dictionary gives a valid map of that size holding exactly those pairs |
| PMaps.Mapping | src/pmap.py:254-272 | `mapping(d)` is a valid map over 8 buckets with size `len(d)` that holds exactly the pairs of `d` |

## Left out

- src/plist.py (the fat-node list) is not part of this model. It is unfinished in the repository: a stub search function, and a branch of its append that never returns.
- main.py is not part of this model; it is a demonstration script that only prints.
- Python's `hash` is a parameter of each map, fixed for its lifetime, and the hashes it gives are not modelled. The `__hash__`, `__repr__`, `__str__`, `__iter__`, `__getattr__` and `_totuple` methods are left out, as is `compare_pvector`, which nothing calls.
- `__add__` is `extend` and is not modelled separately.
- Slices with a step are left out. Only start and stop are modelled, and `v[::1]` is not distinguished from `v[:]`.
- The optional start and stop arguments of `index` are left out.
- `__getitem__` with an index that is neither an integer nor a slice is left out. A float that is in range once a negative one is shifted by `count` passes the comparisons and then raises TypeError at `>>` or `&`. A float out of range raises IndexError from `_node_for`. A value that cannot be compared with 0 raises TypeError at that comparison.
- The map's `values`, `keys`, `items`, `iterkeys` and `itervalues` are left out. They are `iteritems` projected and copied into a vector; `Items` models `iteritems`.
- `PMap.undo` and `PMap.redo` are left out. They would need the vector operations on the bucket vector, which the model represents by its sequence of buckets.
- `pmap(**kwargs)` is left out. It is `mapping` over the keyword dictionary.
- The float comparison `len(buckets) < 0.67 * size` is stated exactly, as `100 * len < 67 * size`. IEEE rounding of `0.67 * size` is not modelled.
- The map's bucket vector and its evolver (with `is_dirty` and `persistent`) are not defined in the repository. The model represents them by a sequence of buckets plus a `dirty` flag that every write sets, so structural sharing of the bucket vector is not modelled.
- PMaps.Evolver.Persistent: clears `dirty` after making a new map, which is what a persistent-vector evolver does once it hands out a snapshot. The source delegates this to the undefined bucket evolver.
- PMaps.Evolver.Reallocate: sets `dirty`, because the source replaces the bucket evolver by a fresh one that it then extends.
- PMaps.Mapping: takes the dictionary as a sequence of pairs with distinct keys, which is what a Python `dict` guarantees. Its `items()` order is the order of that sequence.
- PMaps.Lookup, Items, Flatten and UpdatedValue are specification functions. What they mean is stated by the lemmas about them above.
- Aliasing of Python lists between handles (a new tree reusing the old tail list as a leaf) is not modelled. Nodes and tails are values, and no list that another handle can see is written in place in the source.
- PMaps.PMap.Set, PMaps.Evolver.Set: a new value that is `==` to the stored one but not the same object is not written. The source writes it and returns a new map; the model returns the same map.
- The version list of `undo`/`redo` compares handles by identity, which Dafny's reference equality gives. Versions of other handles that share objects are not tracked beyond each handle's own list.
- `_fill_list` is a static method in the model (`FillList`), since it reads no field of the handle.
