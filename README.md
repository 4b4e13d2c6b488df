# A verified model of a page-oriented B-tree and its page allocator

This project models the core of a small single-writer B-tree storage
engine written in C++. The engine maps integer keys to values. It comes in
two variants that share one algorithm:

- the in-memory tree of `btree.cpp`, whose nodes are heap records;
- the persistent tree of `btree-db.cpp`, whose nodes are 4K pages of a
  memory-mapped index file addressed by a 20-bit page index;

and the page store `disk_map` of `disk.cpp` / `disk.hpp`. The page store
has a superblock with a magic number, a bitmap with one bit per page, and
a `{length, index}` header at the start of every page.

## How the model is built

- `layout.dfy` (module `Layout`): the superblock record `index_header`,
  its default values, the page header `inode`, and the region sizes.
- `bits.dfy` (module `Bits`): 32-bit bitmap words. Bit `j` of a word is
  `(w / 2^j) % 2`. The allocator's `|= 1 << j` and `&= ~(1 << j)` are
  `Or` and `AndNot`, each proved to change exactly bit `j`.
- `pagestore.dfy` (module `PageStore`): the `DiskMap` class. The mapped
  memory is three parts: the superblock (a `Header` value), the bitmap (an
  `array<u32>`) and the page headers (an `array<Inode>` indexed by page
  slot). A pointer into the page file is a `Loc` (half, page in half), and
  a pointer off a page boundary is `Misaligned`.
- `nodes.dfy` (module `Nodes`): the node record `{leaf, n, items}`. Each
  item is a child reference followed by a key/value pair, and one slot
  past the last entry holds the last child. The module also has the index
  loops that shift item slots (`ShiftRight`, `ShiftLeft`, `CopySlots`,
  `OpenSlot`). `Entries` and `Children` are the abstract views of a node.
- `treemodel.dfy`, `steps.dfy`, `slots.dfy`, `frames.dfy`, `descent.dfy`,
  `order.dfy`: the ghost view of a tree stored in a map from node
  reference to node. `Content(s, x, h)` is the in-order entry sequence of
  the subtree of `x` with height `h`. `Reach` is the set of nodes that
  subtree occupies. `Tree` says sibling subtrees share no node. `Filled`
  bounds the entry count of every node below the subtree root. The lemmas
  there show that each restructuring step keeps the in-order sequence:
  split, root growth, merge, redistribution, predecessor paste, root
  shrink.
- `memcore.dfy` / `memtree.dfy` (modules `MemCore`, `MemTree`): the
  in-memory tree. The node procedures take the node heap as a value and
  return the new heap. The `BTree` class holds the heap, `root`,
  `node_count` and `search_miss_cnt`, and its public operations call the
  procedures.
- `dbcore.dfy` / `dbtree.dfy` (modules `DbCore`, `DbTree`): the persistent
  tree. Its nodes are keyed by page index. Every allocation goes through
  `DiskMap`, so an allocation can fail. `Owns` ties each stored node to a
  page whose bit is set and whose header names that page.

Every tree operation is specified by what it does to the tree's in-order
sequence:

- insertion places the new entry between a key not above it and a key not
  below it (`InsertedAt`);
- erasure removes exactly one entry with the key (`RemovedAt`), or changes
  nothing and counts a miss;
- search returns a value exactly when the sequence holds the key.

Every operation keeps the tree shape (equal leaf depth, no shared node,
occupancy bounds) and leaves every node outside the subtree it works on
untouched.

Decisions where the source leaves a choice:

- **Duplicate keys** are accepted, as the source does. The sequence is
  sorted non-strictly. An inserted entry goes somewhere among the entries
  with an equal key.
- **The lower bound kept by erase.** `erase_max` repairs the last pair of
  children of a node *before* it descends into it (`btree.cpp:355-357`).
  The leaf it finally shortens can therefore end with `t - 2` entries, and
  nothing on the way back up repairs it. So the in-memory tree keeps
  non-root nodes between `t - 2` and `2t - 1` entries, not the textbook
  `t - 1`. For `t = 2` this lets an internal node below the root become
  empty. `fixup`'s clamp then yields `i = -1`, so erasure is modelled for
  `t >= 3` (see Left out). The persistent tree, which never erases, keeps
  the full `t - 1` bound. `MemCore.ShortLeaf` and `MemCore.EmptiedNode`
  exhibit both effects; see Findings.

## Model

| member | source | states |
|---|---|---|
| `Layout.FreshHeader` | disk.hpp:59-72 | the default superblock has magic 0xd0d0baba, version 1, zero node count and root index 0, length 4K + 128K + 4G, and a page budget (1,000,000) that is positive and below the 2^20 pages |
| `Layout.RegionsFit` | disk.cpp:19-22 | the bitmap words fill the 128K behind the 4K superblock exactly, the bitmap has one bit for each of the 2^20 pages of the 4G page file, and each half mapping holds 2^19 pages |
| `Bits.Or` | disk.cpp:127 | `w \| (1 << j)` sets bit j and leaves every other bit as it was |
| `Bits.AndNot` | disk.cpp:200 | `w & ~(1 << j)` clears bit j and leaves every other bit as it was |
| `Bits.FullWord` | disk.cpp:119-120 | a word equals 0xFFFFFFFF exactly when all 32 bits are set, so skipping such words skips only pages in use |
| `Bits.SetBit` | disk.cpp:127-128 | marking page idx makes exactly that page used |
| `Bits.ClearBit` | disk.cpp:196-200 | clearing page idx makes exactly that page free |
| `Bits.ClearAfterSet` | disk.cpp:195-201 | clearing the bit just set for a free page gives back the original bitmap |
| `Bits.FirstFreeOnce` | disk.cpp:118-131 | a bitmap has only one lowest free page |
| `Bits.Dec32` | disk.cpp:201 | `node_count--` on an unsigned 32-bit counter is one below modulo 2^32 |
| `PageStore.GetInodeAsWritten` | disk.cpp:263-278 | get_inode as written: a page exactly for indices 1 .. 2^20 - 1, with offset `idx & 0xFFFFF` |
| `PageStore.StrayPage` | disk.cpp:274-277 | with that mask, every index with bit 19 set lands 2^19 pages beyond its page, outside the half mapping |
| `PageStore.GetInode` | disk.cpp:263-278 | no page for index 0 or an index with bits above 19; otherwise bit 19 picks the half and the page lies inside it, at the slot equal to the index |
| `PageStore.LocOfSlot` | disk.cpp:274-277 | every page of the two halves except slot 0 is found again from its slot: index and location translate both ways |
| `PageStore.Read` | disk.cpp:281-290 | read gives the page of a valid index and nothing for 0 or an out-of-range index |
| `PageStore.DiskMap.constructor` | disk.cpp:70-86 | a header without the magic becomes the fresh default and bitmap word 0 becomes 1, reserving page 0; a header with the magic is kept as it is |
| `PageStore.DiskMap.FindFree` | disk.cpp:117-131 | the scan skips full words and sets the lowest clear bit; the page it reports is the first free one; with every bit set nothing changes |
| `PageStore.DiskMap.AllocateInode` | disk.cpp:98-171 | fails, changing nothing, exactly when node_count has reached max_node_count or every page is used; otherwise marks the lowest free page, counts it, gives it header {4K, idx}, and returns it unless idx is the index handed out last |
| `PageStore.DiskMap.Allocate` | disk.cpp:173-180 | the payload of the page allocate_inode hands out, or nothing, with the same effect on the store |
| `PageStore.DiskMap.DeallocInode` | disk.cpp:182-209 | -1 for a misaligned page, -2 for a header index above 2^20, -3 when get_inode of that index is another page, each changing nothing; otherwise clears exactly that page's bit, decrements node_count and zeroes the header |
| `PageStore.DiskMap.Payload2Inode` | disk.cpp:211-222 | the page of a payload exactly when its header length is 4K |
| `PageStore.DiskMap.Payload2Index` | disk.cpp:225-233 | the index recorded in the header of a page whose header length is 4K, and 0 for any other page |
| `PageStore.DiskMap.Dealloc` | disk.cpp:235-244 | -1 and no change for a header length other than 4K; otherwise the outcome of dealloc_inode, 0 exactly for a page whose header leads back to it |
| `PageStore.DiskMap.ReadRootNode` | disk.cpp:246-257 | no page while the superblock's root index is 0; otherwise the page with that index |
| `PageStore.DiskMap.Save` | disk.cpp:304-316 | 0 exactly for a page whose header length is 4K, -1 otherwise |
| `PageStore.SaveInode` | disk.cpp:293-302 | -1 for a misaligned page, 0 otherwise |
| `PageStore.AllocThenFree` | disk.cpp:195-208 | freeing the page allocation took gives back the bitmap and the node count |
| `Nodes.ZeroNode` | btree.cpp:127-140 | a zero-filled node is not a leaf, has no entries, and every child slot is null |
| `Nodes.ShiftRight` | btree.cpp:193-194 | the downward copy loop moves a slot range up by d and leaves the other slots alone |
| `Nodes.ShiftLeft` | btree.cpp:403-404 | the upward copy loop moves a slot range down by d and leaves the other slots alone |
| `Nodes.CopySlots` | btree.cpp:186-187 | the copy loop puts count slots of the source at position at and leaves the rest alone |
| `Nodes.OpenSlot` | btree.cpp:233-234 | the leaf-insert loop stops at the slot p where kv belongs, every later entry moved up one slot |
| `Nodes.LeafInsert` | btree.cpp:229-240 | inserting into a non-full leaf adds one entry, puts kv between a key not above it and the larger keys, and restores the trailing child slot |
| `Order.InsertSorted` | btree.cpp:225-256 | an insertion at a position that respects the order keeps the sequence sorted, with one more entry |
| `Order.RemoveSorted` | btree.cpp:401-405 | removing an entry keeps the sequence sorted, with one entry fewer |
| `Order.InsertedFound` | btree-db.cpp:482-502 | after an insertion the new key is present, and every key present before still is, so search finds it |
| `Order.ScanMiss` | btree.cpp:328-338 | when the scan stops before a larger key in a sorted node, the node does not hold k |
| `Order.LastIsMax` | btree-db.cpp:374-389 | the last entry of the sorted sequence has the largest key |
| `Order.FirstIsMin` | btree-db.cpp:391-406 | the first entry of the sorted sequence has the smallest key |
| `MemCore.AllocateNode` | btree.cpp:127-140 | a zero-filled node under a fresh id, node_count up by one |
| `MemCore.FreeNode` | btree.cpp:142-149 | the node leaves the heap, node_count down by one |
| `MemCore.SplitInto` | btree.cpp:179-199 | the node work of a split: z gets y's upper t - 1 entries and last child, y keeps t - 1 entries, and x gains y's entry t - 1 at position i with children y and z at i and i+1 |
| `MemCore.SplitChild` | btree.cpp:172-203 | on a full child y, both halves hold t - 1 entries, the parent's entries gain y's entry t - 1 at i, its children i and i+1 are y and the new node, and its n grows by one |
| `MemCore.SplitFull` | btree.cpp:172-203 | read on the tree, the split keeps x's in-order sequence and occupancy bounds and touches only x's subtree and the new node |
| `MemCore.SplitFullDone` | btree.cpp:172-203 | the node-level outcome of split_child is a split of the tree: same sequence, halves of t - 1 entries |
| `MemCore.ChildSlot` | btree.cpp:243-245 | the backwards scan of insert_nonfull ends at the position whose neighbouring keys bracket k |
| `MemCore.PrepareChild` | btree.cpp:243-253 | before descending, the chosen child has room; after a split the descent goes right exactly when k is above the promoted key; the sequence is unchanged |
| `MemCore.InsertNonfull` | btree.cpp:225-256 | the subtree's sequence gains kv between a key not above and a key not below it; only the subtree's nodes change; bounds are kept |
| `MemCore.RootSplit` | btree.cpp:210-217 | a new internal root whose children are the old root and the new half, holding the old root's entry t - 1 |
| `MemCore.GrowRoot` | btree.cpp:206-219 | a full root makes the tree one level higher, holding the same sequence, with one entry in the new root |
| `MemCore.Grown` | btree.cpp:210-217 | the store the root split leaves is a tree one level higher with the same sequence |
| `MemCore.Insert` | btree.cpp:206-223 | insert keeps a rooted tree; its height grows by at most one; its sequence gains kv in order |
| `MemCore.StillRooted` | btree.cpp:218-221 | a descent from a non-full root leaves a tree that fills the heap, with the root within bounds |
| `MemCore.Scan` | btree.cpp:326-329 | the forward scan stops at the first entry whose key is not below k |
| `MemCore.Search` | btree.cpp:324-342 | a value exactly when the subtree's sequence holds k, and then an entry (k, value) of the sequence |
| `MemCore.SearchMax` | btree.cpp:259-267 | the leaf at the end of the rightmost path, whose entries end the sequence; never NULL in a tree whose nodes hold at least one entry |
| `MemCore.SearchMin` | btree.cpp:270-278 | the leaf at the end of the leftmost path, whose entries begin the sequence; never NULL in such a tree |
| `MemCore.SubHeight` | btree.cpp:115-122 | following first pointers to a leaf counts exactly the subtree's height, since all leaves are at equal depth |
| `MemCore.HeightAsWritten` | btree.cpp:110-122 | height() as written has a result exactly for an internal root; on a leaf root it follows a pointer to no node |
| `MemCore.Height` | btree.cpp:110-113 | the number of levels, root included; it agrees with the as-written result wherever that exists |
| `MemCore.FreshHeight` | btree.cpp:101-122 | on a new tree, height() as written follows the leaf root's NULL first pointer |
| `MemCore.Concate` | btree.cpp:552-594 | child i takes the separator and all of child i+1; x loses one entry; the right child is freed, node_count down by one; the left child holds n_y + 1 + n_z entries |
| `MemCore.ShareLeft` | btree.cpp:504-517 | moving entries from z to a short y keeps (y entries, separator, z entries) and the children in order |
| `MemCore.ShareRight` | btree.cpp:518-533 | moving entries from a long y to z keeps (y entries, separator, z entries) and the children in order |
| `MemCore.Rebalance` | btree.cpp:480-543 | z gets floor(total/2) entries and y the rest; the pair keeps its combined in-order sequence; x's n and children do not change |
| `MemCore.FixMerge` | btree.cpp:460-463 | the merge branch of fixup: child i takes the separator and child i+1, which leaves the store; same sequence, one entry fewer in x, merged node at most 2t - 1 entries |
| `MemCore.FixShare` | btree.cpp:464-467 | the redistribute branch of fixup: the pair's entries dealt out again around a new separator, z taking half rounded down; same nodes and sequence, and the right child back to at least t - 1 |
| `MemCore.Fixup` | btree.cpp:442-469 | on pair i (clamped to n - 1): the store is unchanged when both children hold at least t - 1 entries; otherwise the pair is merged when it totals below 2t - 1 and redistributed when it totals 2t - 1 or more; same sequence, all nodes back within bounds |
| `MemCore.EraseMaxLeaf` | btree.cpp:349-354 | on a leaf: NULL with no change when it is empty; otherwise exactly its last entry is dropped, left in slot n, and nothing else changes |
| `MemCore.EraseMax` | btree.cpp:347-358 | removes the last entry of the subtree and leaves it in the returned leaf's slot n; NULL with no change for an empty subtree; the child is read after fixup |
| `MemCore.HitIff` | btree.cpp:331 | after the scan, the guarded hit test (`i < n` and equal key) holds exactly when the node holds k |
| `MemCore.FreshLeafHit` | btree.cpp:395-405 | the unguarded hit test of erase matches key 0 on an empty zero-filled leaf, which holds no entry, and would drive n to -1 |
| `MemCore.EraseInLeaf` | btree.cpp:401-407 | on a leaf hit, exactly entry i leaves the leaf and n drops by one |
| `MemCore.EraseHit` | btree.cpp:409-418 | on an internal hit, the in-order predecessor replaces entry i; the subtree's sequence loses exactly that entry |
| `MemCore.EraseBelow` | btree.cpp:420-432 | an internal miss recurses into child i; the sequence loses an entry with key k exactly when it held one |
| `MemCore.EraseAt` | btree.cpp:381-435 | erase(x, k) removes one entry with key k when the subtree holds k, and otherwise reports a miss and changes no entry; all nodes stay within bounds |
| `MemCore.StaleMaxChild` | btree.cpp:355-357 | a valid tree with t = 3 in which the child erase_max reads before fixup is the node fixup's merge frees |
| `MemCore.TwoLeafTree` | btree.cpp:355-357 | node 1 over leaves 2 and 3 is a tree of height 1 holding leaf 2's entries, node 1's entry and leaf 3's entries, within any bounds the leaves meet; the counterexample stores are such trees |
| `MemCore.ShortLeaf` | btree.cpp:347-358 | on a t = 3 tree whose leaves hold t - 1 entries, fixup changes nothing and erase_max leaves the last leaf with t - 2 entries: the tree still has its shape but no longer meets MIN_ITEMS |
| `MemCore.FullPair` | btree.cpp:347-358 | the t = 3 counterexample tree meets what fixup and erase_max ask of it, with both leaves at t - 1 entries |
| `MemCore.ShortPair` | btree.cpp:355-357 | with its last leaf down to one entry, the counterexample tree is filled for the bound t - 2 and not for t - 1 |
| `MemCore.EmptiedNode` | btree.cpp:442-467 | with t = 2, fixup on an internal node over a one-entry leaf and an empty leaf merges them and leaves the internal node with no entry, where the next fixup's clamp gives -1 |
| `MemCore.StripLosesRoot` | btree.cpp:365-369 | the as-written root strip on an emptied leaf root frees the only node and makes a non-node the root |
| `MemCore.StripRoot` | btree.cpp:360-370 | an internal root left with no entries is freed and its only child becomes the root, the height drops by one; a leaf root stays; the sequence is unchanged |
| `MemCore.Erase` | btree.cpp:360-370 | erase at the root: exactly one entry with key k leaves when there is one, otherwise a miss; the height drops by at most one |
| `MemTree.BTree.constructor` | btree.cpp:83-106 | a new tree is one empty leaf root and node_count is 1 |
| `MemTree.BTree.Insert` | btree.cpp:206-223 | the tree stays valid, its entries gain kv in order, one more entry, and the height grows by at most one |
| `MemTree.BTree.Search` | btree.cpp:317-320 | a value exactly when the tree holds k, and then an entry of the tree |
| `MemTree.BTree.SearchMax` | btree.cpp:259-267 | the leaf whose entries end the tree's sequence |
| `MemTree.BTree.SearchMin` | btree.cpp:270-278 | the leaf whose entries begin the tree's sequence |
| `MemTree.BTree.Height` | btree.cpp:110-113 | the number of levels of the tree |
| `MemTree.BTree.Erase` | btree.cpp:360-370 | an entry with key k leaves the tree when present; otherwise the entries stay and search_miss_cnt grows by one; the height drops by at most one |
| `DbCore.FanOut` | btree-db.cpp:103-108 | t is half of (4K - node size) / item size; MIN_ITEMS = t - 1, MAX_ITEMS = 2t - 1 |
| `DbCore.FanOutFits` | btree-db.cpp:47-53 | with room for four items the constants make a B-tree, and the slots split_child touches lie inside the page behind its header |
| `DbCore.AllocateNode` | btree-db.cpp:165-169 | a zero-filled node on the lowest free page, or NULL with the node store unchanged exactly when allocate refuses; the page store changes exactly as allocate_inode changes it (the page marked, counted and headed on success; nothing, or the duplicate-index page marked, counted and headed, on NULL) |
| `DbCore.SplitChild` | btree-db.cpp:228-271 | with no page for the sibling, NULL with the node store unchanged; otherwise halves of t - 1 entries, the promoted entry at i, and children i and i+1 linked by page index; the page store changes exactly as the one allocate_inode call changes it |
| `DbCore.SplitFull` | btree-db.cpp:228-271 | a successful split keeps x's sequence and bounds; a failed one changes nothing |
| `DbCore.PrepareChild` | btree-db.cpp:328-340 | descends into the child after the last key not above k, splitting it first when full and moving right when k is above the promoted key |
| `DbCore.InsertNonfull` | btree-db.cpp:302-343 | on success the subtree's sequence gains kv in order; when a split finds no page, the sequence is unchanged; bounds and page ownership kept |
| `DbCore.FreeNode` | btree-db.cpp:171-175 | the node leaves the store, its bit is cleared, and its page header zeroed |
| `DbCore.RootSplit` | btree-db.cpp:283-293 | the new root holds the old root's middle entry between the old root and the new half, or nothing changes when a page is missing |
| `DbCore.GrowRoot` | btree-db.cpp:280-297 | the tree grows one level with the same sequence, or stays as it is |
| `DbCore.Insert` | btree-db.cpp:276-299 | insert keeps a persistent tree whose root index the superblock records; on success the sequence gains kv in order; on failure the sequence is unchanged |
| `DbCore.ItemCount` | btree-db.cpp:346-358 | the loop over n + 1 children plus n counts exactly the entries of the subtree |
| `DbCore.SearchMax` | btree-db.cpp:409-422 | NULL exactly for a node without entries; otherwise the leaf whose entries end the sequence; the invalid-node report never happens in a tree |
| `DbCore.SearchMin` | btree-db.cpp:425-436 | NULL exactly for a node without entries; otherwise the leaf whose entries begin the sequence |
| `DbCore.GetMaxItem` | btree-db.cpp:374-389 | the last entry of the tree's sequence, nothing for an empty tree |
| `DbCore.GetMinItem` | btree-db.cpp:391-406 | the first entry of the tree's sequence, nothing for an empty tree |
| `DbCore.NextAsWritten` | btree-db.cpp:337-339 | after split_child as written, the descent goes to y or to the split's (possibly NULL) result |
| `DbCore.SplitFailAsWritten` | btree-db.cpp:336-342 | when the split fails, the as-written descent reaches NULL or a still-full node |
| `DbCore.RootSplitFailAsWritten` | btree-db.cpp:283-298 | when the root's split fails, the as-written insert installs an internal root with no entries (not a valid tree) and descends into NULL or the full old root |
| `DbTree.BTree.constructor` | btree-db.cpp:86-144 | fan-out from the page size; a recorded root is taken as the tree; otherwise an empty leaf root is allocated and its page index recorded, and its first pointer is 0, so height() as written has no result on it; the recorded root index is never 0 |
| `DbTree.BTree.Insert` | btree-db.cpp:276-299 | entries gain kv in order with one more entry, or stay as they were with last_error set to BTREE_OUT_OF_STORAGE |
| `DbTree.BTree.Search` | btree-db.cpp:475-502 | a value exactly when the tree holds k |
| `DbCore.HeightAsWritten` | btree-db.cpp:148-161 | height() as written has a result exactly for an internal root, and then the number of levels; on a leaf root it reads page 0 |
| `DbCore.FreshHeight` | btree-db.cpp:154-161 | on the zero-filled leaf root a new tree starts with, height() as written reads page 0, which read refuses, while the tree has one level |
| `DbTree.BTree.Height` | btree-db.cpp:148-161 | the number of levels of the tree, a leaf root counting as one; it agrees with the as-written result wherever that exists |
| `DbTree.BTree.ItemCount` | btree-db.cpp:360-363 | the number of entries in the tree |
| `DbTree.BTree.GetMaxNode` | btree-db.cpp:365-372 | NULL exactly when node_count is 0 or the tree is empty; otherwise the leaf that ends the sequence |
| `DbTree.BTree.GetMaxItem` | btree-db.cpp:374-389 | the tree's last entry, whose key is the largest; nothing for an empty tree |
| `DbTree.BTree.GetMinItem` | btree-db.cpp:391-406 | the tree's first entry, whose key is the smallest; nothing for an empty tree |

## Left out

- Opening, mapping, unmapping and flushing the two files (`open`, `mmap`, `munmap`, `msync`) are OS I/O. The mapped regions are the arrays of `DiskMap`, and the constructor receives their contents as parameters.
- Page payload bytes are not modelled. A node lives in a map from page index (or heap id) to node record, and the page header array holds only `{length, index}`. The byte layout, `sizeof` values and packing are replaced by the parameters `nodeSize` and `itemSize`.
- Pointer arithmetic and alignment (`payload - sizeof(inode)`, `% SZ_4K`) are not modelled: a page is named by its location, and a misaligned pointer is the value `Misaligned`.
- Node item arrays are sequence values that the procedures replace, not arrays updated in place. The slot loops are methods over sequences, so aliasing between nodes is not captured.
- The node procedures take and return the node heap as a value. The tree classes hold it in fields. The store therefore cannot alias a node with the tree object.
- `calloc` failure and `exit` in the in-memory `allocate_node` are not modelled: in-memory allocation always succeeds.
- Console output, `dump_node`/`dump_item`, the `main` drivers, `bench.hpp` and `timer.hpp` are UI and benchmarking.
- The PROFILE counters other than `search_miss_cnt` are left out, because they only feed statistics.
- The persistent tree's own `node_count` field is not modelled; the superblock's `node_count` is.
- The persistent tree's `erase`, `erase_max`, `fixup`, `rebalance` and `concate` copy (`btree-db.cpp:507-754`) is never instantiated and mixes pointers with page indices. Erase is modelled once, from `btree.cpp`.
- The `disk_write`/`save` calls after each node update are not modelled as calls. With shared mappings they change nothing; `Save` is modelled on its own.
- `set_child_node`/`get_child_node` are not separate members. A node's page index is its key in the store, and `Owns` proves that `payload2index` of that page gives the same index.
- `MemCore.EraseMax`, `MemCore.EraseHit`, `MemCore.EraseBelow`, `MemCore.EraseAt`, `MemCore.Erase`: proved for t >= 3 only. For t = 2 the t - 2 lower bound the source keeps lets an internal node below the root become empty, and `fixup`'s clamp then reads child -1.
- `MemTree.BTree.Erase`: requires t >= 3 for the same reason.
- `MemTree.BTree.SearchMax`, `MemTree.BTree.SearchMin`: the result is proved non-NULL only for t >= 3. For t = 2 a node below the root may hold no entries, as explained above.
- `DbTree.BTree.constructor`: requires the first allocation of an empty store to succeed. When it fails, the source dereferences a NULL root.
- `DiskMap.AllocateInode`'s duplicate-index check comes after the bit is set, the page counted and its header written. This is modelled as written: a NULL result then still leaves the page marked.

## Findings

| source | as written | input that shows it | evidently intended | confidence | as-written member | corrected member |
|---|---|---|---|---|---|---|
| disk.cpp:274-275 | the offset is `idx & 0xFFFFF`, which keeps bit 19 | any index 0x80000 .. 0xFFFFF: the page lands 2^19 pages past its place, beyond the 2G of the second half mapping | offset = `idx & ~(1 << 19)` within the 20-bit index, as the comment says | high, not executed | `PageStore.StrayPage` | `PageStore.GetInode` |
| btree.cpp:400 | the hit test of erase reads key i without `i < x->n` | erase(0) on a new tree: the scan stops at slot 0 of the empty leaf, its zero key matches, and n becomes -1 | the guarded test `i < x->n && k == key(i)` of search (btree.cpp:331) | high, not executed | `MemCore.FreshLeafHit` | `MemCore.HitIff` |
| btree.cpp:355-357 | erase_max reads the last child before fixup and descends into it afterwards | the tree of `StaleStore` with t = 3: fixup(1, 0) merges leaf 3 into leaf 2 and frees 3, which erase_max then reads | read the last child after fixup | high, not executed | `MemCore.StaleMaxChild` | `MemCore.EraseMax` |
| btree.cpp:365-369 | a root left with n == 0 is replaced by its first child even when it is a leaf | insert one key into a new tree and erase it: the leaf root is freed and its never-set first pointer becomes the root | strip only an internal root | high, not executed | `MemCore.StripLosesRoot` | `MemCore.StripRoot` |
| btree.cpp:115-122 | height(x) follows the first child of x before testing whether x is a leaf | height() on a new tree reads the node named by the leaf root's null first pointer | a leaf root has height 1 | high, not executed | `MemCore.FreshHeight` | `MemCore.Height` |
| btree-db.cpp:154-161 | height(x) reads the page of x's first pointer before testing whether x is a leaf | height() on a new tree: the leaf root's first pointer is 0, get_inode(0) and read(0) give NULL (disk.cpp:265-266, 283-287), and `y->leaf` dereferences it | a leaf root has height 1 | high, not executed | `DbCore.FreshHeight` | `DbTree.BTree.Height` |
| btree.cpp:75, 355-357, 442-449 | the comment promises nodes of t - 1 .. 2t - 1 entries, but erase_max repairs a pair only before it descends, so the leaf it shortens can end with t - 2 entries; for t = 2 that is 0, an internal node can then be emptied by a merge, and fixup's clamp gives i = -1 | t = 3, node 1 over leaves (10, 20) and (40, 50): erase_max(1) leaves leaf (40); t = 2, node 1 over leaves (10) and (): fixup(1, 0) leaves node 1 with no entry | the bound erase keeps is t - 2 .. 2t - 1, which holds for t >= 3; t = 2 is not supported | high, not executed | `MemCore.ShortLeaf`, `MemCore.EmptiedNode` | `MemCore.Erase` |
| btree-db.cpp:336-342 | the result of split_child is not checked | a full child and no free page: the descent goes on into NULL or into the still-full child | stop and report BTREE_OUT_OF_STORAGE with the tree unchanged | high, not executed | `DbCore.SplitFailAsWritten` | `DbCore.InsertNonfull` |
| btree-db.cpp:292-298 | the result of the root's split_child is not checked | a full root, one free page for the new root and none for the half: the empty new root is installed and the descent reaches NULL or the full old root | give the new root's page back and leave the tree as it was | high, not executed | `DbCore.RootSplitFailAsWritten` | `DbCore.Insert` |
