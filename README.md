# MultiKeyMap prefix trie, modelled in Dafny

`mkm::MultiKeyMap<V, Keys...>` (inc/MultiKeyMap.h) maps a key of `K` parts to
a value. It stores the pairs in a prefix trie. Each node has one
`std::unordered_map` of children per key part, an optional stored
`(key, value)` pair and a parent pointer. A lookup by a leading partial key
yields every pair below the node that partial key reaches. inc/trie.h is an
earlier version of the same trie. It keeps no size, sets no parent links, and
its `erase` only clears child maps. inc/Index.h holds the compile-time helpers
the type dispatch relies on. The `detail` namespace of inc/MultiKeyMap.h
(lines 47-129) holds copies of them.

The model:

- **Nodes in an arena.** Nodes live in a `seq<Node>`, and a `shared_ptr<Node>`
  becomes an index into it. A key is a `seq<P>` of `k` parts. One generic part
  type `P` stands for all the key types, and part `j` of a node is looked up in
  that node's child map `j`.
- **An abstract view.** `View` describes a trie by two ghost maps:
  - `nodeAt`: every live partial key, sent to the node it reaches;
  - `contents`: the stored pairs.

  `TrieCore.Shape` ties an arena to its view. `TrieCore.ParentLinks` states
  the parent links that inc/MultiKeyMap.h keeps.
- **Path resolver.** `TrieCore.Lookup` models the const resolver.
  `TrieCore.LookupOrCreate` models the creating resolver, with parent links
  switched on for inc/MultiKeyMap.h and off for inc/trie.h. Both are loops
  with invariants, proved against the view.
- **Iterator.** `TrieIterator.Iterator` is a class whose node stack is a
  field. It models `IteratorImpl`, which is the same in both headers
  (inc/trie.h:174-328). Its ghost `Remaining` set is the set of stored keys
  still to be yielded. The constructor from the node of a partial key `p`
  makes `Remaining` exactly the stored keys that start with `p`. `Next` takes
  out exactly the current key. So the iterator yields every such key exactly
  once.
- **The two containers.** `Mkm.MultiKeyMap` (inc/MultiKeyMap.h) and
  `EarlyTrie.MultiKeyMap` (inc/trie.h) are classes. Their fields are the
  arena, the root and, in the former, `m_size`. Each method states its effect
  on `view.contents`, the map the container stands for. The steps both
  containers share are in `TrieOps`: storing a pair, and finding the value of
  a full key.
- **`erase`.** `TrieErase` models it: clearing the child maps of a node, and
  unlinking a node from its parent.
- **Index helpers.** Module `Index` models the helpers of inc/Index.h as
  functions on sequences. A type pack becomes a sequence of type tags, and a
  tuple becomes a sequence of values.

Where a source comment and the code disagree, the model follows the code:

- `tupleHead<I>` of an `n`-tuple takes `n - I - 1` elements, not the `n - I`
  its comment says.
- The iterator walks its stack last-in first-out, not breadth-first.
- Nodes one part deep get no parent, because the resolver starts with a null
  parent.

## Model

| member | source | states |
|---|---|---|
| Index.IndexOf | inc/Index.h:25-32 | `IndexImpl`: defined only when the type occurs in the pack. The result is a position holding that type, and no earlier position holds it. |
| Index.GetIndexOfType | inc/Index.h:40-63 | `getIndexOfType<T, Ts...>()`: the first position of `T` in `Ts` once const, volatile and reference are stripped from `T`. |
| Index.QualifiersIgnored | inc/Index.h:12-41 | Two spellings of a type that differ only in qualifiers get the same index. |
| Index.IndexOfDistinct | inc/Index.h:25-32 | In a pack of distinct types, the index of the type at position `i` is `i`. |
| Index.GetIndexOfTypeExamples | inc/Index.h:60-63 | In `<int, float, char, int>`, `int` and `const int` are at 0, `float` at 1 and `char` at 2. |
| Index.ForEach | inc/Index.h:77-110 | `forEach` calls `f` once per tuple element, in index order. |
| Index.RemoveType | inc/Index.h:126-133 | `RemoveType<T, Ts...>` keeps every element other than `T`, each as many times as in `Ts`, and drops every `T`. |
| Index.RemoveTypeAppend | inc/Index.h:126-133 | `RemoveType` filters each part of a concatenation on its own, so the kept elements stay in their original order. |
| Index.TupleTail | inc/Index.h:138-154 | `tupleTail<I>` of an `n`-tuple `t` has `n - I` elements, the j-th being `t[I + j]`. |
| Index.TupleHead | inc/Index.h:156-171 | `tupleHead<I>` of an `n`-tuple is its first `n - I - 1` elements. |
| Index.SplitTuple | inc/Index.h:179-193 | `splitTuple<I>` of an `n`-tuple as written: a head of `n - I - 2` elements and the tail from `I` on. |
| Index.SplitTupleSixAtTwo | inc/Index.h:161-193 | For a 6-tuple, `tupleHead<2>` has 3 elements, and `splitTuple<2>` gives a 2-element head and a 4-element tail. |
| Index.SplitTupleSevenDuplicates | inc/Index.h:179-193 | For a 7-tuple split at 2, element 2 is in both halves, and the halves do not join back to the tuple. |
| Index.SplitTupleAt | inc/Index.h:179-193 | The split the comment intends: `I` elements, then the rest; the two halves join back to the tuple. |
| TrieCore.EmptyNode | inc/MultiKeyMap.h:189-202 | `std::make_shared<Node>()`: one empty child map per key part, no stored pair, and the parent given. |
| TrieCore.EmptyArena | inc/MultiKeyMap.h:240-243 | A root with no children is a well-formed trie storing nothing, with the root's parent null. |
| TrieCore.LivePrefix | inc/MultiKeyMap.h:1108-1136 | Every leading part of a live partial key is live, because the resolver reaches a node only through its prefixes. |
| TrieCore.DeadPrefixHasNoKeys | inc/MultiKeyMap.h:1003-1006 | A partial key that resolves to null has no stored key starting with it. |
| TrieCore.FullKeyPrefixKeys | inc/MultiKeyMap.h:718-730 | The only stored key starting with a full key is that key itself, if it is stored. |
| TrieCore.PrefixKeysBound | inc/MultiKeyMap.h:865-871 | The keys below a partial key are among the stored keys, so `erase` cannot take the size below zero. |
| TrieCore.ChildMapIndex | inc/MultiKeyMap.h:1151-1156 | `getChildrenTypeFromTuple<T>` selects the child map at the first position declared with type `T`. |
| TrieCore.DispatchIsPositional | inc/MultiKeyMap.h:1151-1156 | With distinct key types, part `i` is looked up in child map `i`, which agrees with erase's unlink by position at inc/MultiKeyMap.h:881-882. |
| TrieCore.RepeatedTypeSharesMap | inc/MultiKeyMap.h:1151-1156 | With key types `<int, int>`, the second part is looked up in the first part's map. |
| TrieCore.Lookup | inc/MultiKeyMap.h:964-1015 | The const resolver returns the node of the partial key when it is live, and null otherwise. It stops at the first missing part and changes nothing. The same resolver is at inc/trie.h:581-630. |
| TrieCore.Stored | inc/MultiKeyMap.h:303-306 | `node->data = { key, value }` changes only that node's pair. |
| TrieCore.StoredShape | inc/MultiKeyMap.h:295-310 | Storing a pair at the node of a live full key keeps the trie well formed, with that key now mapped to the value. |
| TrieCore.ParentLinksKept | inc/MultiKeyMap.h:1122-1133 | The parent links survive any change that keeps every node's parent field and only forgets live partial keys. |
| TrieCore.AddChild | inc/MultiKeyMap.h:1124 | `children[x] = std::make_shared<Node>()`: the new node takes the next index, and only that one map of that one node changes. |
| TrieCore.AddChildShape | inc/MultiKeyMap.h:1122-1126 | Creating a missing child keeps the trie well formed and makes the extended partial key live, with no pair stored. |
| TrieCore.AddChildParents | inc/MultiKeyMap.h:1124-1126 | The new node's parent is the previous node on the path, or null one part deep, so the parent links hold. |
| TrieCore.ResolvePart | inc/MultiKeyMap.h:1108-1136 | One part of the creating resolver: reuse the child if it exists, or create exactly that one node. Stored pairs and other partial keys stay as they were. |
| TrieCore.Descend | inc/MultiKeyMap.h:1108-1136 | One turn of the fold: the partial key one part longer becomes live, the node reached becomes the next parent, and only prefixes of the key are added. |
| TrieCore.LookupOrCreate | inc/MultiKeyMap.h:1085-1139 | The creating resolver returns the node of the whole partial key and adds only prefixes of that key. It keeps every live partial key and stored pair, and keeps the parent links when they are kept. For inc/trie.h:700-751 it sets no links. |
| TrieIterator.Iterator.End | inc/MultiKeyMap.h:357 | `IteratorImpl()` has an empty stack and yields nothing. |
| TrieIterator.Iterator.constructor | inc/MultiKeyMap.h:334-351 | From null it is the end iterator. From the node of `p` it yields exactly the stored keys that start with `p`, and its top node holds a pair. |
| TrieIterator.Iterator.IsEnd | inc/MultiKeyMap.h:427-429 | `isEnd()` holds exactly when nothing remains to be yielded. |
| TrieIterator.Iterator.Get | inc/MultiKeyMap.h:485-487 | `operator*` gives the current key, one still to be yielded, with the value stored for it. |
| TrieIterator.Iterator.Equals | inc/MultiKeyMap.h:407-420 | `==` holds exactly when both iterators are at the end, or neither is and both point at the same key. |
| TrieIterator.Iterator.PushChildren | inc/MultiKeyMap.h:448-453 | Every child of one map is pushed once, together with its partial key. |
| TrieIterator.Iterator.PushChildMaps | inc/MultiKeyMap.h:445-454 | `forEach` over the child maps pushes exactly the children of the node. |
| TrieIterator.Iterator.Advance | inc/MultiKeyMap.h:438-455 | `advance()` pops the top node and pushes its children. The subtrees still to visit lose exactly the popped node and stay disjoint. |
| TrieIterator.AdvanceIncomparable | inc/MultiKeyMap.h:438-455 | Replacing the top node by its children keeps the stacked subtrees disjoint. |
| TrieIterator.AdvanceCoveredShrinks | inc/MultiKeyMap.h:438-455 | After `advance()` nothing new is to be visited, and the popped node is not. |
| TrieIterator.AdvanceCoveredKeeps | inc/MultiKeyMap.h:438-455 | After `advance()` every node strictly below the popped one is still to be visited. |
| TrieIterator.Iterator.SkipEmpty | inc/MultiKeyMap.h:345-349 | The skip loop stops with a pair on top or at the end, and skips no stored key. |
| TrieIterator.Iterator.Next | inc/MultiKeyMap.h:366-384 | `++` at the end changes nothing. Otherwise it removes exactly the current key from the keys still to be yielded. |
| TrieErase.Cleared | inc/MultiKeyMap.h:874-878 | All child maps of the node are empty, and nothing else changes. |
| TrieErase.Unlinked | inc/MultiKeyMap.h:880-883 | Only the last part of the key is removed, from one map of the parent. |
| TrieErase.ClearChildMaps | inc/MultiKeyMap.h:874-878 | The fold over the key types clears every child map of the node, also at inc/trie.h:510-512. |
| TrieErase.ClearedLinks | inc/MultiKeyMap.h:874-878 | After clearing, every partial key that stays live still hangs off its parent's node. |
| TrieErase.ClearedShape | inc/trie.h:502-513 | Clearing the node of `p` leaves a well-formed trie. Its live partial keys are those not strictly below `p`, and it stores only the pairs whose keys stay live. |
| TrieErase.UnlinkedLinkedUp | inc/MultiKeyMap.h:880-883 | After the unlink, every other live partial key still hangs off its parent. |
| TrieErase.UnlinkedLinkedDown | inc/MultiKeyMap.h:880-883 | After the unlink, every child map leads only to live partial keys. |
| TrieErase.UnlinkedShape | inc/MultiKeyMap.h:880-883 | Unlinking a cleared node from its parent leaves a well-formed trie without that partial key. |
| TrieErase.UnlinkedAfterCleared | inc/MultiKeyMap.h:874-883 | Clearing and then unlinking drops `p` and everything below it. |
| TrieErase.UnlinkStep | inc/MultiKeyMap.h:880-883 | A node has a parent exactly when its key has two or more parts. That parent is the node one part up, and unlinking there keeps the shape and the parent links. |
| TrieOps.Store | inc/MultiKeyMap.h:303-306 | Storing into an empty full-key node adds that one pair, keeps the shape and keeps any parent links (also inc/trie.h:159-161). |
| TrieOps.FindValue | inc/MultiKeyMap.h:718-735 | `find(key)` compared with `end()`: the stored value, or `out_of_range` exactly when the key is not stored. |
| TrieOps.AllKeysExtendEmpty | inc/MultiKeyMap.h:553-555 | `begin()` starts at the root, below which lie all stored keys. |
| EarlyTrie.MultiKeyMap.constructor | inc/trie.h:141-143 | A new trie stores nothing. |
| EarlyTrie.Put | inc/trie.h:152-165 | Resolve with create and no parent links, then store the pair only when the node has none. Returns true exactly when the key was absent. |
| EarlyTrie.MultiKeyMap.Insert | inc/trie.h:152-165 | `insert` stores the pair and returns true exactly when the key is absent; otherwise the map is unchanged. |
| EarlyTrie.MultiKeyMap.Begin | inc/trie.h:376-392 | `begin()` yields every stored key. |
| EarlyTrie.MultiKeyMap.End | inc/trie.h:383-399 | `end()` yields nothing. |
| EarlyTrie.MultiKeyMap.Find | inc/trie.h:427-435 | `find(p...)` yields exactly the stored keys that start with `p`. |
| EarlyTrie.MultiKeyMap.At | inc/trie.h:468-494 | `at` gives the stored value, and `out_of_range` exactly when `find` is at the end. |
| EarlyTrie.MultiKeyMap.Erase | inc/trie.h:502-513 | `erase(p)` clears the child maps of `p`'s node. It drops every stored key strictly below `p` and keeps a pair stored at `p` itself. |
| EarlyTrie.ErasedBelow | inc/trie.h:502-513 | What survives clearing below `p` is the stored keys minus those that strictly extend `p`. |
| EarlyTrie.EraseFullKeyKeepsPair | inc/trie.h:502-513 | With `K = 2`, `insert((1, 2), 7)` then `erase((1, 2))` leaves `at(1, 2)` returning 7. |
| Mkm.MultiKeyMap.constructor | inc/MultiKeyMap.h:240-243 | A new map is empty, with size 0. |
| Mkm.MultiKeyMap.FromPairs | inc/MultiKeyMap.h:245-256 | The range and initializer-list constructors insert the pairs in order. A key is stored exactly when some pair has it, with the value of its first pair, and the size counts the keys. |
| Mkm.MultiKeyMap.Copy | inc/MultiKeyMap.h:258-267 | The copy stores exactly the pairs of the original, with the same size. |
| Mkm.MultiKeyMap.Insert | inc/MultiKeyMap.h:295-310 | `insert` on an absent key stores the pair, adds 1 to the size and returns true. On a present key it returns false and changes nothing. |
| Mkm.MultiKeyMap.Index | inc/MultiKeyMap.h:791-807 | `operator[]` stores `mapped_type{}` only for an absent key, and returns the value now stored for the key. |
| Mkm.MultiKeyMap.Begin | inc/MultiKeyMap.h:553-555 | `begin()` yields every stored key. |
| Mkm.MultiKeyMap.End | inc/MultiKeyMap.h:560-562 | `end()` yields nothing. |
| Mkm.MultiKeyMap.Find | inc/MultiKeyMap.h:606-614 | `find(p...)` yields exactly the stored keys that start with `p`, and is the end iterator when there are none. |
| Mkm.MultiKeyMap.Count | inc/MultiKeyMap.h:666-681 | `count(p...)` is the number of stored keys that start with `p`. |
| Mkm.MultiKeyMap.Contains | inc/MultiKeyMap.h:683-691 | `contains(p...)` holds exactly when some stored key starts with `p`. |
| Mkm.MultiKeyMap.At | inc/MultiKeyMap.h:718-735 | `at` gives the stored value, and `out_of_range` exactly when the key is not stored. |
| Mkm.MultiKeyMap.Size | inc/MultiKeyMap.h:838-840 | `size()` is the number of stored pairs. |
| Mkm.MultiKeyMap.Empty | inc/MultiKeyMap.h:845-847 | `empty()` holds exactly when no pair is stored. |
| Mkm.MultiKeyMap.Clear | inc/MultiKeyMap.h:661-664 | After `clear()` nothing is stored, and the size is 0. |
| Mkm.MultiKeyMap.Swap | inc/MultiKeyMap.h:886-889 | The two maps exchange their contents, and both stay well formed with sizes that count their pairs. |
| Mkm.MultiKeyMap.Equals | inc/MultiKeyMap.h:693-703 | `==` holds exactly when the two maps store the same pairs. |
| Mkm.MultiKeyMap.Erase | inc/MultiKeyMap.h:856-884 | The size drops by the number of stored keys that start with `p`. The keys strictly below `p` die, and so does `p` itself when it has two or more parts. With `K >= 2` exactly the keys starting with `p` are dropped, and the size counts what is left. |
| Mkm.Emplace | inc/MultiKeyMap.h:295-310 | The shared body of `insert` and `operator[]`. It stores the pair only when the key is absent, and then the size goes up by one. It returns the node holding the key's value. |
| Mkm.InsertPairs | inc/MultiKeyMap.h:245-252 | The range constructor's loop builds exactly the map of the pairs inserted in order, with the size counting it. |
| Mkm.FirstWinsStep | inc/MultiKeyMap.h:245-252 | Inserting one more pair keeps the first pair of each key. |
| Mkm.InsertedNext | inc/MultiKeyMap.h:245-252 | One more `insert` adds the pair exactly when its key is absent. |
| Mkm.InsertedFirstWins | inc/MultiKeyMap.h:245-256 | The map built by the range constructor stores a key exactly when some pair has it, with the value of its first pair. |
| Mkm.InsertAll | inc/MultiKeyMap.h:258-267 | The copy constructor's loop inserts every pair the iterator over the original yields, so the copy stores the same pairs. |
| Mkm.InsertNext | inc/MultiKeyMap.h:264-266 | One turn of that loop: the pair at the iterator is inserted, and it leaves the pairs still to copy. |
| Mkm.FoundNext | inc/MultiKeyMap.h:696-700 | One turn of the loop in `==`. On a match the pair counts as checked. On a mismatch, or a key `find` does not reach, the maps differ. |
| Mkm.AllFound | inc/MultiKeyMap.h:696-702 | The loop of `==` holds exactly when every pair of `rhs` is stored here with an equal value. |
| Mkm.SameSizeSubmap | inc/MultiKeyMap.h:693-703 | Two maps of the same size where every pair of one is in the other are equal, which makes `==` an equality of contents. |
| Mkm.EraseBelow | inc/MultiKeyMap.h:856-884 | The body of `erase`, proved against the erased view; with `K >= 2` the size still counts the stored pairs. |
| Mkm.CountDown | inc/MultiKeyMap.h:865-871 | The decrement loop lowers the size by exactly the number of stored keys that start with `p`. |
| Mkm.ClearAndUnlink | inc/MultiKeyMap.h:874-883 | Clearing and then unlinking when there is a parent gives the erased view. The root, the shape and the parent links are kept. |
| Mkm.ErasedKeys | inc/MultiKeyMap.h:856-884 | With `K >= 2`, the keys that survive erase are exactly the stored keys that do not start with `p`. |
| Mkm.EraseFullKeyDropsPair | inc/MultiKeyMap.h:856-884 | With `K = 2`, `insert((1, 2), 7)` then `erase((1, 2))` leaves `at(1, 2)` throwing `out_of_range`. |

## Left out

- The debug output sink (`NullBuffer`, `_MKM_DEBUG_OUTPUT`) is I/O with no effect on the map, so it is not modelled.
- `shared_ptr` ownership and lifetimes are not modelled. Nodes are arena indices, and nodes cut off by `erase` or `clear` stay in the arena, unreachable.
- The move constructor (inc/MultiKeyMap.h:269-272) and the copy assignment by placement `new` over `this` (276-282) are object-lifetime tricks with no trie logic, so they are not modelled.
- `operator[](key_type&&)` (inc/MultiKeyMap.h:817-831) is not modelled, because it would not compile if instantiated. It reads `node->data.second` on a `std::optional`.
- `merge` (inc/MultiKeyMap.h:891-897) is not modelled, because it erases from `rhs` while iterating over `rhs`.
- The tuple overload of `find` in inc/trie.h:401-408 is not modelled. The file marks it as broken.
- Traversal order is not modelled. It depends on `std::unordered_map` hash order. The iterator is specified by the set of keys it yields, each once, and child maps are walked in an arbitrary order.
- Key types are heterogeneous in C++. Here they are one part type, and child maps are chosen by position. `TrieCore.DispatchIsPositional` shows this agrees with the choice by type when all key types are distinct. `TrieCore.RepeatedTypeSharesMap` shows where it does not.
- Values are generic. `==` needs `V` to be comparable.
- Sizes are unbounded naturals. `size_t` wrap-around cannot happen while the size counts stored pairs.
- Partial keys are always leading parts of a key, as the source requires. A partial key that skips parts does not type-check there.
- The root is created eagerly. In inc/MultiKeyMap.h the range constructor leaves `root` null until the first insert (1093-1099). Every observable result is the same as with an empty root.
- Loops test for the end with `IsEnd` instead of comparing with a fresh `end()`. `TrieIterator.Iterator.Equals` proves the two tests agree.
- Mkm.MultiKeyMap.Swap requires both maps to have the same `K` and the same `mapped_type{}`, which the C++ type system guarantees.
- Mkm.MultiKeyMap.Erase: for `K = 1` it promises only the erased view and the new size, not that the size still counts the stored pairs. There a one-part key's node has no parent and is never unlinked, so its pair stays while `m_size` drops.
- Mkm.MultiKeyMap.Erase and EarlyTrie.MultiKeyMap.Erase require the partial key to be live. The source dereferences a null node otherwise (inc/MultiKeyMap.h:877, inc/trie.h:511).
- Mkm.MultiKeyMap.Erase requires at least one key part. With an empty tuple, `sizeof...(PartialKey) - 1` names no tuple element, so the call does not compile.
- EarlyTrie.MultiKeyMap.Erase models the evident meaning of `std::get<Keys>(node->children).clear()`: clear every child map. As written, it names each map by the key type rather than the map type and would not compile.
- References returned by `at`, `operator[]` and `operator*` are modelled as values. Writing through them is not modelled.

## Findings

| source | as written | input that shows it | evidently intended | confidence | as-written member | corrected member |
|---|---|---|---|---|---|---|
| inc/Index.h:179-193 | `splitTuple<I>` of an `n`-tuple takes `tupleHead<I + 1>`, which has `n - I - 2` elements, and `tupleTail<I>`, which starts at `I`. | A 7-tuple split at `I = 2`: the head is elements 0-2 and the tail is elements 2-6, so element 2 is in both. | The head is the `I` elements before the split point and the tail is the rest, so no element is duplicated. | not executed | Index.SplitTupleSevenDuplicates | Index.SplitTupleAt |
| inc/trie.h:502-513 | `erase` only clears the child maps of the resolved node. It leaves the node linked with its data. | `K = 2`: `insert((1, 2), 7)`, `erase((1, 2))`, then `at(1, 2)` still returns 7. | Its doc comment promises to erase every value matching the key. inc/MultiKeyMap.h also unlinks the node, which removes the pair. | not executed | EarlyTrie.EraseFullKeyKeepsPair | Mkm.EraseBelow |
