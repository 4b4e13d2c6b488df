/**
 * The persistent B-tree (btree-db.cpp): the tree object over a page
 * store, with its root, its minimum degree t computed from the page size
 * and last_error.  Its nodes are pages of the store, named by page index;
 * the superblock records the root's index, so that a tree written to the
 * files is found again when they are mapped.  The node procedures of
 * DbCore do the work.
 *
 * The tree is read through the ghost view of TreeModel: a tree of height
 * height whose in-order entry sequence, Elements(), is sorted by key,
 * every node below the root holding between t - 1 and 2t - 1 entries,
 * every node a page the bitmap marks as used.
 */
module DbTree {
  import opened Nodes
  import opened TreeModel
  import opened Order
  import opened Layout
  import opened Bits
  import opened PageStore
  import opened MemCore
  import opened DbCore

  /** last_error after an allocation that found no page. */
  const BTREE_OUT_OF_STORAGE := 1

  class BTree<V> {
    /** t, MIN_ITEMS, MAX_ITEMS, the slots of a page and the value a zeroed slot holds. */
    const d: Params<V>
    /** The mapped index: superblock, bitmap and page headers. */
    const disk: DiskMap
    /** The tree's nodes, by page index. */
    var store: Store<V>
    var root: int
    var lastError: int
    ghost var height: nat

    /** The tree invariant: a sorted B-tree whose nodes are exactly its pages, rooted where the superblock says. */
    ghost predicate Valid()
      reads this, disk, disk.bitmap, disk.pages
    {
      Proper(d) && OnDisk(disk, store, d.slots) && Shaped(store, d, root, height) &&
      Sorted(Content(store, root, height)) && disk.hdr.rootNodeIndex == root
    }

    /** The entries of the tree in order. */
    ghost function Elements(): seq<KeyVal<V>>
      reads this, disk, disk.bitmap, disk.pages
      requires Valid()
    {
      Content(store, root, height)
    }

    /**
     * btree() with init_root_node(): t is half the number of items a page
     * holds after the node header.  A root recorded in the superblock is
     * taken as the tree, whose nodes are the pages given in nodes;
     * otherwise a page is allocated for an empty leaf root and its index
     * recorded.  The root index is then never 0, so init_root_node's
     * throw is never reached.
     */
    constructor (dm: DiskMap, nodes: Store<V>, ghost h: nat, nodeSize: int, itemSize: int, zero: V)
      requires 0 < itemSize <= nodeSize && 4 * itemSize <= SZ_4K - nodeSize
      requires dm.Valid()
      requires dm.ReadRootNode().Some? ==>
                 OnDisk(dm, nodes, FanOut(nodeSize, itemSize, zero).slots) &&
                 Shaped(nodes, FanOut(nodeSize, itemSize, zero), dm.hdr.rootNodeIndex, h) &&
                 Sorted(Content(nodes, dm.hdr.rootNodeIndex, h))
      requires dm.ReadRootNode().None? ==>
                 nodes == map[] && dm.hdr.nodeCount < dm.hdr.maxNodeCount && !Full(dm.bitmap[..]) &&
                 !FirstFree(dm.bitmap[..], dm.lastIdx)
      modifies dm, dm.bitmap, dm.pages
      ensures Valid() && disk == dm && d == FanOut(nodeSize, itemSize, zero) && lastError == 0
      ensures disk.hdr.rootNodeIndex != 0
      ensures old(dm.ReadRootNode()).Some? ==>
                root == old(dm.hdr.rootNodeIndex) && store == nodes && Elements() == Content(nodes, root, h)
      ensures old(dm.ReadRootNode()).None? ==> Elements() == [] && height == 0 && store.Keys == {root}
      ensures old(dm.ReadRootNode()).None? ==>
                store[root].items[0].c == NULL && DbCore.HeightAsWritten(store, root, height).None?
    {
      var p := FanOut(nodeSize, itemSize, zero);
      FanOutFits(nodeSize, itemSize, zero);
      var s := nodes;
      var x := dm.hdr.rootNodeIndex;
      ghost var g := h;
      if dm.ReadRootNode().None? {
        ghost var idx;
        s, x, idx := DbCore.AllocateNode(dm, map[], p);
        var X := s[x].(leaf := true, n := 0);
        s := s[x := X];
        Leaf(s, x);
        var loc := GetInode(x).value;
        assert dm.pages[Slot(loc)] == dm.pages[..][x];
        dm.hdr := dm.hdr.(rootNodeIndex := dm.Payload2Index(loc));
        g := 0;
      }
      d, disk := p, dm;
      store, root, height := s, x, g;
      lastError := 0;
    }

    /**
     * insert: kv joins the tree's entries, after every entry with a smaller
     * key and before every entry with a larger one; the tree grows a level
     * when the root is full.  When a page for a split cannot be had, the
     * entries stay as they were and last_error reports BTREE_OUT_OF_STORAGE.
     */
    method Insert(kv: KeyVal<V>) returns (ghost ok: bool, ghost p: int)
      requires Valid()
      modifies this, disk, disk.bitmap, disk.pages
      ensures Valid() && old(height) <= height <= old(height) + 1
      ensures ok ==> InsertedAt(old(Elements()), Elements(), kv, p) && |Elements()| == |old(Elements())| + 1 &&
                     lastError == old(lastError)
      ensures !ok ==> Elements() == old(Elements()) && lastError == BTREE_OUT_OF_STORAGE
    {
      ghost var h: nat;
      var s, r, done;
      s, r, h, done, p := DbCore.Insert(disk, store, d, root, kv, height);
      ok := done;
      if done {
        InsertSorted(old(Elements()), Content(s, r, h), kv, p);
      } else {
        lastError := BTREE_OUT_OF_STORAGE;
      }
      store, root, height := s, r, h;
    }

    /** search: the value of an entry with key k, present exactly when the tree holds k. */
    method Search(k: int) returns (r: Option<V>)
      requires Valid()
      ensures r.Some? <==> HasKey(Elements(), k)
      ensures r.Some? ==> KeyVal(k, r.value) in Elements()
    {
      r := MemCore.Search(store, root, k, height);
    }

    /** height(): the number of levels, the root's included. */
    function Height(): (n: nat)
      reads this, disk, disk.bitmap, disk.pages
      requires Valid()
      ensures n == height + 1
      ensures height > 0 ==> DbCore.HeightAsWritten(store, root, height) == Some(n)
    {
      MemCore.Height(store, root, height)
    }

    /** item_count(): the number of entries in the tree. */
    method ItemCount() returns (cnt: int)
      requires Valid()
      ensures cnt == |Elements()|
    {
      cnt := DbCore.ItemCount(store, root, height);
    }

    /**
     * get_max_node: NULL while the superblock counts no node, otherwise
     * search_max on the root, the leaf whose entries end the tree's
     * sequence, NULL only for an empty tree.
     */
    method GetMaxNode() returns (x: int)
      requires Valid()
      ensures x != NULL ==> x in store && store[x].leaf && EndsWith(Elements(), Entries(store[x]))
      ensures x == NULL <==> disk.hdr.nodeCount == 0 || Elements() == []
    {
      if disk.hdr.nodeCount == 0 {
        return NULL;
      }
      var invalid;
      x, invalid := DbCore.SearchMax(store, root, height, d.minItems, d.maxItems);
      if x == NULL {
        Leaf(store, root);
      }
    }

    /**
     * get_max_item: the last entry of the leaf search_max finds, which is
     * the tree's last and largest entry; nothing for an empty tree.
     * search_max's report of an invalid node cannot happen in a tree, so
     * last_error is left alone.
     */
    method GetMaxItem() returns (r: Option<KeyVal<V>>)
      requires Valid()
      ensures r.None? <==> Elements() == []
      ensures r.Some? ==> r.value == Elements()[|Elements()| - 1]
      ensures r.Some? ==> forall q :: 0 <= q < |Elements()| ==> Elements()[q].key <= r.value.key
    {
      r := DbCore.GetMaxItem(store, d, root, height);
      if r.Some? {
        LastIsMax(Elements());
      }
    }

    /**
     * get_min_item: the first entry of the leaf search_min finds, which is
     * the tree's first and smallest entry; nothing for an empty tree.
     */
    method GetMinItem() returns (r: Option<KeyVal<V>>)
      requires Valid()
      ensures r.None? <==> Elements() == []
      ensures r.Some? ==> r.value == Elements()[0]
      ensures r.Some? ==> forall q :: 0 <= q < |Elements()| ==> r.value.key <= Elements()[q].key
    {
      r := DbCore.GetMinItem(store, d, root, height);
      if r.Some? {
        FirstIsMin(Elements());
      }
    }
  }
}
