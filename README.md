# C Dynamic Graph Library — a verified Dafny model of its core

The library keeps three sequential, in-place data structures. This project
models each one in Dafny and proves what its code promises.

- **DynaGraph** (`dynagraph.dfy`, from `dynagraph.c`): an undirected, weighted
  multigraph over vertex slots `0 .. V-1`.
  - Every slot has an active flag and an adjacency list. New entries go to
    the head of the list.
  - An edge counter `E` is kept.
  - `n_vertex` is the high-water mark of slots handed out.
  - Removed slots wait in a FIFO queue and are reused before any fresh slot.
  - When no slot is left, the capacity `V` doubles.

  `class Graph` holds the lists in an `array<seq<Link>>`, the flags in an
  `array<bool>` and the queue in a `seq<int>`.

  Every operation preserves the store invariant `GraphInv`:
  - every list entry names a slot below `V`;
  - for all `i` and `j`, the weights that list `i` holds for `j` equal the
    weights that list `j` holds for `i`, in the same order;
  - a self-loop's weights come in pairs;
  - the total number of entries is `2 * E`;
  - `n_vertex <= V`, and slots at or above it are inactive;
  - each queued slot is inactive, below `n_vertex` and queued once, and
    every inactive slot below `n_vertex` is queued;
  - inactive slots have empty lists.

- **HashTable** (`hash_table.dfy`, from `hash_table.c`): a separate-chaining
  map from items to integer ids, plus a reverse array from ids to items.
  - The hash is a 31-multiplier fold that wraps modulo 2^32.
  - The table rehashes into twice as many chains once `currentN / M`
    exceeds `TARGET_ALPHA = 5`.
  - `class HashTable` keeps the chains in an `array<seq<Entry>>`, in order
    from the head.

  Invariant `TableInv`:
  - every node sits in the chain of its item's hash;
  - no item is stored twice;
  - `currentN` counts the nodes;
  - every reverse slot that was assigned and is not void names an item
    stored under that id.

- **UnionFind** (`union_find.dfy`, from `UF.c`): union by size without path
  compression, over two fixed arrays `id` and `size`.
  - Invariant `Sound`: a non-root's parent has a strictly larger size, which
    is what makes `UF_find` terminate.
  - Each root's size is the number of elements in its tree.

Allocation failure enters only where the code handles it with a visible
result, as a boolean parameter `allocOk`:
- the growth path of `DynaGraphNodeInsert`;
- the new chain array of `resize_hash_table`.

## Model

| member | source | states |
|---|---|---|
| UnionFind.UF.Init | UF.c:11-20 | every element is its own root with size 1, and the invariant holds |
| UnionFind.UF.UFFind | UF.c:22-26 | the result is a root (`id[i] == i`) and is the root reached from `p` by following parent links; nothing changes |
| UnionFind.UF.UFUnion | UF.c:29-45 | -1 exactly when both roots are the same, with nothing changed; otherwise 0, after which `find(p) == find(q)`; the larger root (q's root on a tie) becomes the parent; exactly one `id` entry and one `size` entry change, the new size being the sum; every element of the other tree now finds the new root, and all other elements keep their root; the invariant is kept |
| UnionFind.Root | UF.c:24 | following links ends at a root (`id[r] == r`), and a root is its own root |
| UnionFind.TwoTreesFit | UF.c:35-43 | two distinct trees together hold at most N elements, so the summed size never exceeds N |
| UnionFind.LinkKeepsForest | UF.c:36-42 | hanging one root under another keeps the forest shape: links stay in range, and a parent is larger than its child |
| UnionFind.RootAfterLink | UF.c:36-42 | after the link, exactly the elements of the hung tree change root, and they now reach the other root |
| UnionFind.LinkKeepsCounts | UF.c:36-42 | after the link, every root's size is still the number of elements in its tree |
| HashTable.FoldIsPoly | hash_table.c:25-28 | the wrapped accumulator is the key's base-31 polynomial modulo 2^32 |
| HashTable.HashFunc | hash_table.c:23-30 | the loop computes the unsigned 32-bit fold modulo M, which lies in `[0, M)` |
| HashTable.Lookup | hash_table.c:99-106 | the result is -1 when no node of the chain holds the item; otherwise it is the id of the first node that does |
| HashTable.FirstId | hash_table.c:137-153 | gives the position of the first node with the id, or the chain length when there is none |
| HashTable.RemoveIdCut | hash_table.c:134-155 | removing by id cuts out exactly the node at the first matching position, keeping the order of the rest; with no match the chain is unchanged |
| HashTable.RemoveIdContents | hash_table.c:134-155 | removal takes exactly one occurrence of the first matching node out of the chain's multiset of nodes |
| HashTable.RemoveTargetNode | hash_table.c:134-155 | the walk with a trailing pointer gives the chain with its first node of that id removed |
| HashTable.EntriesMember | hash_table.c:19 | a node is stored in the table iff some chain holds it |
| HashTable.InOwnChain | hash_table.c:99-106 | in a hashed table, a node is stored iff the chain of its item's hash holds it |
| HashTable.PushAllHashed | hash_table.c:81-90 | pushing nodes to the head of their chain among the new chains keeps every node in its own chain |
| HashTable.PushAllEntries | hash_table.c:81-90 | pushing nodes adds exactly those nodes, so a rehash loses or duplicates nothing |
| HashTable.Relink | hash_table.c:82-89 | the inner loop pushes the nodes of one old chain, head first, onto the heads of their new chains |
| HashTable.Rehash | hash_table.c:69-90 | gives 2M empty chains, then the relinking of every old chain in order |
| HashTable.RehashKeeps | hash_table.c:68-96 | rehashing a valid table into 2M chains gives a valid table with the same multiset of nodes |
| HashTable.ReverseRestrict | hash_table.c:61-64 | resizing the reverse array keeps the invariant for the slots assigned below the new size |
| HashTable.AddKeepsUnique | hash_table.c:111-115 | adding a node for an item that is not stored keeps items unique |
| HashTable.InsertChains | hash_table.c:114-118 | prepending the new node keeps the chains valid, adds exactly that node, and raises the count by one |
| HashTable.InsertReverse | hash_table.c:117 | binding the slot of the new node keeps the reverse array valid |
| HashTable.InsertKeeps | hash_table.c:114-118 | the state change of an insert for a new item keeps the invariant and adds exactly the new node |
| HashTable.LookupFinds | hash_table.c:99-106 | in a valid table, searching for a stored node's item finds that node's id |
| HashTable.EntriesRemove | hash_table.c:163 | cutting the first node with the id out of a chain removes exactly that node from the table |
| HashTable.RemoveKeepsUnique | hash_table.c:163 | removing a node keeps items unique |
| HashTable.RemoveChains | hash_table.c:162-165 | cutting the node out keeps the chains valid, with the count one lower |
| HashTable.RemoveReverse | hash_table.c:164 | voiding the slot keeps the reverse array valid |
| HashTable.RemoveKeeps | hash_table.c:157-166 | for an assigned non-void slot, the chain of its item does hold a node with the id; exactly the first such node leaves the table, and the invariant holds with `currentN - 1` |
| HashTable.RemoveEffect | hash_table.c:157-166 | exactly one node goes, and no node with another id is lost; when the id was bound to one item only, that item is no longer stored |
| HashTable.UnlinkOutcome | hash_table.c:157-166 | the removal step keeps the invariant and has the effect just described |
| HashTable.HashTable.Init | hash_table.c:46-58 | gives `M == maxN`, `currentN == 0` and `size_rev_array == maxN`, with every chain empty, no slot assigned, and the invariant holding |
| HashTable.HashTable.ResizeReverseArray | hash_table.c:61-64 | `size_rev_array` becomes the new size, and the slots below both sizes keep their items; the chains are untouched and the invariant is kept |
| HashTable.HashTable.ResizeHashTable | hash_table.c:68-96 | the new table is the relinking of the old chains into 2M chains and M doubles; the stored nodes and `currentN` are unchanged; if allocation fails nothing changes |
| HashTable.HashTable.Insert | hash_table.c:110-125 | a stored item leaves everything unchanged; otherwise the node is prepended to its chain, the slot is bound, the count rises, and M doubles exactly when `currentN > 5M` (and allocation succeeds); afterwards a search for the item gives `id`; the invariant is kept, including the load bound |
| HashTable.HashTable.AddNew | hash_table.c:114-118 | the node goes to the head of its item's chain, the reverse slot names the item, and the count rises by one |
| HashTable.HashTable.Remove | hash_table.c:157-166 | a void slot leaves everything unchanged; otherwise the first node with the id leaves the chain of the slot's item, the slot becomes void, and the count drops; the removal effect holds, so an item bound once is no longer found |
| HashTable.HashTable.RemoveAssigned | hash_table.c:162-165 | gives the unlinked table, the voided slot and the lowered count, with the invariant kept |
| HashTable.HashTable.Search | hash_table.c:99-106 | gives the id of the first node in the item's chain holding it; -1 exactly when the item is not stored; nothing changes |
| HashTable.HashTable.SearchMeaning | hash_table.c:99-106 | the probe gives -1 iff the item is not stored, and otherwise names a stored node of the item |
| DynaGraph.WeightsEmpty | dynagraph.c:107 | a list has no weights for w iff it has no entry for w |
| DynaGraph.RemoveFirstFacts | dynagraph.c:107-116 | removing the first entry for w shortens the list by one when there is one; otherwise the list is unchanged; either way it keeps a subset of the entries |
| DynaGraph.RemoveFirstCut | dynagraph.c:107-116 | removal stops at the first entry for w and cuts exactly that entry out, keeping the others in order |
| DynaGraph.WeightsRemoveFirst | dynagraph.c:107-116 | removing the first entry for w drops the first weight for w and leaves every other neighbour's weights as they were |
| DynaGraph.Unlink | dynagraph.c:107-116 | the scan finds an entry for w iff the list has one; it gives the list with the first such entry removed, and the list unchanged when there is none |
| DynaGraph.RemoveAllFacts | dynagraph.c:95-101 | detaching v from a list leaves no entry for v and keeps a subset of the entries |
| DynaGraph.WeightsRemoveAll | dynagraph.c:95-101 | detaching v leaves the weights of every other neighbour as they were |
| DynaGraph.RemoveAllAfterFirst | dynagraph.c:118-127 | detaching v after a first-entry removal for v is the same as detaching v alone |
| DynaGraph.RemoveAllNone | dynagraph.c:95-101 | detaching v from a list with no entry for v changes nothing |
| DynaGraph.TotalUpdate | dynagraph.c:87 | replacing one list changes the entry total by the difference in lengths |
| DynaGraph.Cleared | dynagraph.c:37-41 | the two zeroed allocations give V empty lists and V cleared flags |
| DynaGraph.Doubled | dynagraph.c:49-68 | the arrays are twice as long; the old part is copied, and the new half is empty and inactive |
| DynaGraph.InitInv | dynagraph.c:34-41 | the initial state satisfies the store invariant |
| DynaGraph.InsertWeights | dynagraph.c:85-86 | after an insert, list i holds one more weight `wt` for j exactly when (i, j) is an end pair of the edge (twice for a self-loop), at the head |
| DynaGraph.InsertAdj | dynagraph.c:85-87 | an insert keeps the adjacency invariant with `E + 1` |
| DynaGraph.InsertKeeps | dynagraph.c:83-87 | an insert between two active slots keeps the store invariant |
| DynaGraph.RemoveWeights | dynagraph.c:107-128 | after both scans succeed, list i loses the first weight for j exactly when (i, j) is an end pair of the edge, and nothing else |
| DynaGraph.RemoveFindsPartner | dynagraph.c:118-119 | under the invariant, an entry for w in v's list always has its partner, so the second scan always finds one |
| DynaGraph.RemoveAdj | dynagraph.c:107-128 | removing an edge that v's list holds finds both entries and keeps the adjacency invariant with `E - 1` |
| DynaGraph.RemoveIsolated | dynagraph.c:104-129 | an edge removal only shortens lists, so inactive slots stay empty |
| DynaGraph.GrowAdj | dynagraph.c:61-69 | appending empty lists keeps the adjacency invariant |
| DynaGraph.GrowSlots | dynagraph.c:61-69 | appending inactive slots keeps the slot invariant and isolation |
| DynaGraph.GrowKeeps | dynagraph.c:48-70 | the growth step keeps the store invariant |
| DynaGraph.ActivateFresh | dynagraph.c:71-74 | activating slot `n_vertex` and raising it keeps the slot invariant when nothing is queued |
| DynaGraph.FreshKeeps | dynagraph.c:71-74 | fresh activation keeps the store invariant |
| DynaGraph.ActivateQueued | dynagraph.c:77-78 | popping the front of the queue and activating it keeps the slot invariant |
| DynaGraph.QueuedKeeps | dynagraph.c:77-78 | recycled activation keeps the store invariant |
| DynaGraph.Deactivate | dynagraph.c:92-93 | deactivating an active slot and appending it to the queue keeps the slot invariant |
| DynaGraph.DetachStep | dynagraph.c:96-99 | the list head of v names a neighbour w other than v; removing (v, w) finds both entries, takes exactly the head off v's list, and takes only an entry for v off w's list |
| DynaGraph.DetachDone | dynagraph.c:96-101 | when v's list is empty, by symmetry no list keeps an entry for v; the lists are the originals with every entry for v gone, and the deactivated slot is isolated |
| DynaGraph.Graph.Init | dynagraph.c:31-44 | V slots, all inactive with empty lists, with `E == 0`, `n_vertex == 0`, an empty queue, and the invariant holding |
| DynaGraph.Graph.NodeInsert | dynagraph.c:46-80 | growth happens exactly when `n_vertex == V` and the queue is empty: V doubles, the old flags and lists are kept, and the new half is inactive and empty (it returns -1 with nothing changed when allocation fails); with an empty queue it returns the old `n_vertex`, activates it and raises `n_vertex`; otherwise it returns the oldest queued slot, pops it and activates it, leaving `V` and `n_vertex` as they were; the result was inactive and is below V; E is unchanged and the invariant is kept |
| DynaGraph.Graph.EdgeInsert | dynagraph.c:82-88 | nothing changes unless both ends are in range and active; otherwise `(w, wt)` is prepended to v's list and `(v, wt)` to w's list, and E rises by one; parallel edges and self-loops are accepted; the invariant is kept |
| DynaGraph.Graph.EdgeRemove | dynagraph.c:104-129 | out-of-range ends change nothing; otherwise the first entry for w leaves v's list and, if there was one, the first entry for v leaves w's list; E drops exactly when both were found, which under the invariant is exactly when v's list held w; the invariant is kept |
| DynaGraph.Graph.NodeRemove | dynagraph.c:90-102 | an inactive slot is a no-op; otherwise the slot is deactivated and appended to the queue, its list ends empty, every other list loses exactly its entries for v, E drops by the number of incident edges, and the invariant is kept |
| DynaGraph.RemoveUndoesInsert | dynagraph.c:82-129 | removing the edge just inserted finds both entries and restores every list exactly, for any weight, self-loops included |

## Left out

- Memory management is not modelled: `malloc`, `free` and `realloc` as such, the `*free` functions (`DynaGraphfree`, `hash_free`, `free_table`, `free_node`, `UF_free`) and the allocation failures that return NULL from the constructors. Allocation is assumed to succeed except on the two growth paths that take `allocOk`.
- insert_node_head: a failed node allocation would drop the whole chain (hash_table.c:115). Node allocation is assumed to succeed.
- HashTable.HashTable.Insert: the load test compares floats (`(float) currentN / (float) M > 5.0`). Here it is the exact integer test `currentN > 5 * M`. Float rounding for very large counts is not modelled.
- HashTable.KeyChar: `item.h` is not part of this model. An item is its key, a string of characters 1..127. `item_compare` is key equality, and `Item_set_void` gives `Void`. Restricting the characters avoids the signedness of C `char` in `hash_func`.
- HashTable.HashTable.Remove requires that slot `id` was assigned by an insert (the ghost set `written`). Slots that `malloc` or `realloc` never filled hold garbage in the C code, and reading them is not modelled. With this precondition the chain always holds the node, so the source's "decrement even if no node matched" case cannot arise.
- HashTable.HashTable.Remove: "a later search returns -1" is promised only when every stored node with that id holds the slot's item (the condition inside `RemovedFrom`). hash_insert does not check that an id is unused, so two items X and Y can both be stored under id 0 in one chain. For example, insert X with id 0, then Y with id 0, then let a rehash reverse their order (hash_table.c:83-88). hash_remove(0) then unlinks the first node with id 0 in Y's chain, which is X's (hash_table.c:139). Y stays stored under id 0, and the slot is voided.
- ResizeReverseArray: a failed `realloc` is not modelled.
- DynaGraph.Graph.NodeRemove requires `0 <= v < V`, because the code does no range check at dynagraph.c:91. It also requires that v have no self-loop: with one, the second scan of DynaGraphEdgeRemove frees the node the loop reads next.
- DynaGraph.Graph.Init requires `V >= 1`, because doubling a capacity of 0 stays 0. HashTable.HashTable.Init requires `maxN >= 1`, because a modulus of 0 is undefined.
- DynaGraph.Graph.NodeInsert: the two growth allocations fail together or not at all, as a single `allocOk`.
- The `graph == NULL` checks are not modelled: a `Graph` object always exists.
- The external `Queue.h` is a FIFO `seq<int>`: `Qput` appends and `Qget` pops the front.
- `ST.h` and the `tab` field of the graph are not part of this model. The shown code only creates and frees them.
- The `is_active` flags are `bool`, not `int`.
- Integers are unbounded. Overflow of `E`, `V`, `2 * V` and `currentN` in C `int` is not modelled. The hash accumulator's 32-bit wrap-around is modelled.
- The connectivity algorithms (components, articulation points, bridges, spanning forest) are not in the modelled files.
- `n_vertex` is modelled as what the code makes it: a high-water mark of the slots handed out, never lowered by DynaGraphNodeRemove (dynagraph.c:73, 90-102), not a count of active vertices.
- The graph code never calls `resize_reverse_array` or `hash_remove`, and it uses the symbol table only at creation. So the graph and the hash index are modelled as independent structures, with no coupling of their capacities.
- HashTable.RemoveId, DynaGraph.Weights, DynaGraph.RemoveFirst and DynaGraph.RemoveAll: their own ensures only bound the length. What they mean is stated in the lemmas next to them: RemoveIdCut, RemoveIdContents, WeightsEmpty, RemoveFirstFacts, RemoveFirstCut and RemoveAllFacts.
