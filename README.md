# Skip list as an ordered multiset

This project models the `SkipList` class of `skip_list.py` in Dafny and proves properties of it. The class is an ordered multiset of integers kept as a probabilistic skip list. Every node (`Element`) holds three things:

- a value;
- a `quantity`, the number of times the value was inserted and not yet deleted;
- one forward link per level the node belongs to.

Two sentinels frame the list: the head, whose key is below every value, and the tail, whose key is above every value.

The model is imperative, like the source:

- **Arena.** `SkipLists.SkipList` is a class whose fields form an arena of integer handles. `value[n]`, `quantity[n]` and `next[n]` are the fields of element `n`. Handle 0 is the head, handle 1 the tail, and -1 stands for Python's `None`.
- **Keys.** The float infinities of the sentinels become the datatype `Key = NegInf | Val(int) | PosInf`, in module `Keys`.
- **Ghost state.** Two ghost fields describe what the structure means. `nodes` holds the live nodes in bottom-level order. `contents` holds the multiset of stored values.
- **Level k.** Level k is defined as the head, then the live nodes that are at least k+1 tall, then the tail (`Levels.Level`). Because every level is this filter of the same node list, keys run in the same order on every level and the levels nest.
- **The invariant.** `ListInvariant.ListInv` says the following:
  - keys strictly ascend along `nodes`;
  - every level's links run from the head through exactly those nodes to the tail;
  - the head has at least one level, and every level above 0 holds a live node;
  - every live node has a quantity of at least 1;
  - `contents` is the multiset the nodes and their quantities describe;
  - `numElements == |contents|`.
- **Operations.** Every operation of the class is a method proved against this state.
  - `insert` and `delete` are each split into a few methods. The main method runs the search, a helper applies the change, and there is a method for each of the source's loops.
  - Each state change is followed by a lemma of `ListInvariant` showing that the invariant is kept.
- **Supporting modules.**
  - `Splicing` proves that splicing a node in, or unlinking it, level by level rewrites each level into the level of the new node list.
  - `Bags` proves how the multiset changes.

`__len__` is documented in the source as "the number of unique elements", but the code counts every occurrence. The counter goes up on every insert and down on each delete that finds its value. The model follows the code: `Len` returns `|contents|`, the multiset's cardinality. A delete of an absent value leaves the counter unchanged, because the source returns before it decrements (`skip_list.py:109-112`).

## Model

| member | source | states |
|---|---|---|
| SkipLists.SkipList.NewElement | skip_list.py:13-19 | a new element is the next handle of the arena, holds its key with quantity 1 and has exactly `height` links that lead nowhere; nothing else changes |
| SkipLists.SkipList.constructor | skip_list.py:22-29 | an empty list: the invariant holds, the multiset is empty, the counter is 0, the head has one level linking to the tail, and the tail has no links |
| SkipLists.LeadingHeads | skip_list.py:38-40 | the number of consecutive "heads" at the start of the coin draws: all draws before it are heads and the draw at it (if any) is tails |
| SkipLists.RandomHeight | skip_list.py:32-41 | the height is at least 1, and is one more than the number of leading heads among the coin draws |
| SkipLists.SkipList.SearchPath | skip_list.py:44-57 | one entry per head level. Entry k is the level-k predecessor of v's rank: its key is below v and the key it links to on level k is not |
| SkipLists.SkipList.SearchLevel | skip_list.py:53-56 | one level of the search: started from the predecessor on the level above (or the head on the top level), the walk stops at the level-h predecessor of v's rank, below v and linking to a key not below v |
| SkipLists.SkipList.Search | skip_list.py:60-68 | returns a node exactly when v is in the multiset; that node is live, holds v, and its quantity is v's multiplicity |
| SkipLists.SkipList.Contains | skip_list.py:71-75 | true exactly when v is in the multiset |
| SkipLists.SkipList.Insert | skip_list.py:78-99 | adds one v to the multiset and raises the counter by 1, keeping the invariant. No node's height changes. A present v only has its node's quantity raised, with no link changed. A new v gets a node of height 1 + leading heads at its rank, and the head grows to exactly that height when it was shorter |
| SkipLists.SkipList.AddNode | skip_list.py:90-99 | a new v: a node of height 1 + leading heads is added at v's rank with quantity 1, the head grows to max(old height, node height), v is added to the multiset and the invariant holds |
| SkipLists.SkipList.RaiseHead | skip_list.py:93-95 | while the head is shorter than `height`, it gets a level linking to the tail and the path gets the head for that level; nothing else changes |
| SkipLists.SkipList.SpliceIn | skip_list.py:97-99 | on every level below `height`, the node takes over its predecessor's link and the predecessor links to the node; every other link is unchanged |
| SkipLists.SkipList.Delete | skip_list.py:102-122 | removes one v from the multiset, lowering the counter exactly when v was present, keeping the invariant and every node's height. Absent v: nothing changes. Quantity above 1: only it is lowered. Quantity 1: the node leaves the live nodes, the others keep their order, and the head does not grow |
| SkipLists.SkipList.Discard | skip_list.py:112-122 | v found at rank p: the counter drops by 1 and one v leaves the multiset, either through a lower quantity (no links change) or by taking the node out of the live nodes |
| SkipLists.SkipList.Decrement | skip_list.py:114-116 | the node's quantity drops by 1, one v leaves the multiset, links and nodes unchanged, invariant kept |
| SkipLists.SkipList.RemoveNode | skip_list.py:118-122 | a node holding v once is unlinked from every level: the live nodes lose exactly it, v leaves the multiset, heights are kept and the head does not grow |
| SkipLists.SkipList.Unlink | skip_list.py:118-122 | on each of t's levels the predecessor takes over t's link. The first level where the predecessor is the head and now links to the tail stops the loop and cuts the head to max(1, h) levels; no earlier level met that test |
| SkipLists.SkipList.Iter | skip_list.py:125-132 | the nodes visited from head.next[0] up to the tail (recognised by its empty link list) are the live nodes, each once, in strictly ascending value order, and their values are exactly the values of the multiset |
| SkipLists.SkipList.Len | skip_list.py:135-140 | the counter is the multiset's cardinality, counting every occurrence |
| SkipLists.SkipList.HeadHeightIsTallest | skip_list.py:93-95 | the head is as tall as the tallest live node, and one level tall when there is none |
| ListInvariant.Located | skip_list.py:66-68 | the bottom-level successor of the search's first entry is the node of v's rank (or the tail), holds v exactly when v is in the multiset, and its quantity is v's multiplicity |
| ListInvariant.Multiplicity | skip_list.py:86-88 | v's multiplicity is the quantity of the node of v's rank when it holds v, and 0 otherwise |
| ListInvariant.Members | skip_list.py:125-132 | a value is in the multiset exactly when some live node holds it |
| ListInvariant.OnePerValue | skip_list.py:86-91 | no two live nodes hold the same value |
| ListInvariant.Recounted | skip_list.py:86-88 | raising a present value's quantity and the counter keeps the invariant with one more v |
| ListInvariant.Decounted | skip_list.py:114-116 | lowering a quantity above 1 and the counter keeps the invariant with one v fewer |
| ListInvariant.Grown | skip_list.py:90-95 | after creating the node and growing the head, the new node is on no level, all levels are still linked, and the path holds the predecessors on each of the node's levels |
| ListInvariant.Inserted | skip_list.py:97-99 | splicing the new node in at v's rank keeps the invariant, with the node among the live nodes and v counted once more |
| ListInvariant.ReadyToUnlink | skip_list.py:118-119 | on each of the target's levels, the path entry is another node that takes part in that level |
| ListInvariant.UnlinkedLevels | skip_list.py:118-122 | after the delete loop, with or without the cut, the links form exactly the levels of the live nodes without the target, and the head has not grown |
| ListInvariant.Removed | skip_list.py:118-122 | a node holding v once, taken off every level, keeps the invariant without it and with one v fewer in the multiset |
| Splicing.EmptiedLevel | skip_list.py:120 | the test the loop makes (the predecessor is the head and now links to the tail) holds exactly when no other node is left on that level |
| Splicing.DeleteLevelsCut | skip_list.py:120-121 | cutting the head at the first emptied level h to max(1, h) levels leaves the levels of the remaining nodes correctly linked and every upper level non-empty |
| Splicing.DeleteLevels | skip_list.py:118-119 | a loop that unlinked the node from all its levels without a cut leaves the levels of the remaining nodes correctly linked |
| Splicing.InsertLevels | skip_list.py:97-99 | splicing a fresh node in behind the predecessors on its levels gives the levels of the node list with the node at v's rank |
| Levels.LevelsNest | skip_list.py:97-99 | every handle on level k + 1 is on level k too |
| Levels.StopIndex | skip_list.py:54-55 | a walk on an ascending level that stops where the next key is not below v stops at the predecessor of v's rank |
| Levels.DescendOnto | skip_list.py:53-54 | where the search drops from level k + 1 to k, it stands on a handle of level k other than the tail, whose key is below v |
| Levels.PredLinksToSucc | skip_list.py:54-56 | on a linked level, the predecessor of rank p is followed by the successor of rank p |
| Bags.BagIncrement | skip_list.py:87 | raising one node's quantity adds one occurrence of its value to the multiset |
| Bags.BagDecrement | skip_list.py:115 | lowering a quantity above 1 removes one occurrence of its value, and the cardinality drops by one |
| Bags.BagInsert | skip_list.py:91-99 | a new node holding v once, put at v's rank, adds exactly one v |
| Bags.BagRemove | skip_list.py:118-122 | taking out a node that holds v once removes exactly one v, and the cardinality drops by one |
| Keys.LessIsStrictTotalOrder | skip_list.py:54 | the key order the search compares with is irreflexive, transitive and total |

## Left out

- `_repr_level` and `__repr__` (`skip_list.py:143-156`) are not modelled. They only render the levels as text.
- `random()` (`skip_list.py:39`) is not modelled. `Insert` and `RandomHeight` take the coin draws as a `seq<bool>` parameter, with draws past its end counting as tails, so the geometric distribution of heights is not modelled.
- Float keys are not modelled. Values are `int`, and the sentinels' `-inf`/`+inf` are the `NegInf`/`PosInf` keys. Inserting infinities or NaN is therefore not expressible.
- `SkipLists.SkipList.Iter`: the source's `__iter__` is a lazy generator. The model returns the whole sequence of nodes it yields.
- Unlinked elements stay in the arena, as garbage does in Python until collected. Object identity (`is`) is handle equality.
- `insert` and `delete` each appear as several methods (`Insert`/`AddNode`/`RaiseHead`/`SpliceIn`, `Delete`/`Discard`/`Decrement`/`RemoveNode`/`Unlink`). Together they perform the source's statements in the source's order.
