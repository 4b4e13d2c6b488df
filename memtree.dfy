/**
 * The in-memory B-tree of minimum degree t (btree.cpp): the tree object
 * with its root pointer, node_count and search_miss_cnt.  Nodes live in a
 * store from node ids to node records (0 is the null id), with the id the
 * next allocation hands out; the node procedures of MemCore do the work.
 *
 * The tree is read through the ghost view of TreeModel: a tree of height
 * height whose in-order entry sequence, Elements(), is sorted by key.
 * A node below the root holds between t - 2 and 2t - 1 entries.  The
 * usual lower bound t - 1 is not what this tree keeps: erase_max repairs
 * the last child of a node before it descends into it, so the leaf it
 * finally shortens may be left with t - 2 entries.  Erasure is modelled
 * for t >= 3, where t - 2 >= 1 keeps every internal node non-empty.
 */
module MemTree {
  import opened Nodes
  import opened TreeModel
  import opened Order
  import opened MemCore

  class BTree<V> {
    /** t, MIN_ITEMS, MAX_ITEMS, the node size and the value calloc leaves in a slot. */
    const d: Params<V>
    var store: Store<V>
    var nextId: int
    var root: int
    var nodeCount: int
    var searchMissCnt: int
    ghost var height: nat

    /** The node heap as MemCore's procedures take it. */
    function Mem(): Arena<V>
      reads this
    {
      Arena(store, nextId, nodeCount)
    }

    /** The tree invariant: a sorted B-tree that occupies exactly the heap. */
    ghost predicate Valid()
      reads this
    {
      Proper(d) && Rooted(Mem(), d, root, height) && Sorted(Content(store, root, height))
    }

    /** The entries of the tree in order. */
    ghost function Elements(): seq<KeyVal<V>>
      reads this
      requires Valid()
    {
      Content(store, root, height)
    }

    /** A new tree: a single empty leaf root, the only node allocated. */
    constructor (t: int, zero: V)
      requires 2 <= t
      ensures Valid() && d.t == t && d.zero == zero
      ensures Elements() == [] && height == 0 && nodeCount == 1 && searchMissCnt == 0
    {
      var p := Params(t, t - 1, 2 * t - 1, t - 2, 2 * t + 2, zero);
      var a, x := AllocateNode(Arena(map[], NULL + 1, 0), p);
      var X := a.store[x].(leaf := true, n := 0);
      PoolSet(a.store, p.slots, a.nextId, x, X);
      var s := a.store[x := X];
      assert s.Keys == a.store.Keys;
      Leaf(s, x);
      d := p;
      store, nextId, nodeCount := s, a.nextId, a.nodeCount;
      root := x;
      searchMissCnt := 0;
      height := 0;
    }

    /**
     * insert: kv joins the tree's entries, after every entry with a smaller
     * key and before every entry with a larger one; the tree grows a level
     * when the root is full.
     */
    method Insert(kv: KeyVal<V>) returns (ghost p: int)
      requires Valid()
      modifies this
      ensures Valid() && InsertedAt(old(Elements()), Elements(), kv, p)
      ensures |Elements()| == |old(Elements())| + 1
      ensures old(height) <= height <= old(height) + 1 && searchMissCnt == old(searchMissCnt)
    {
      ghost var h: nat;
      var a;
      a, root, h, p := MemCore.Insert(Mem(), d, root, kv, height);
      InsertSorted(old(Elements()), Content(a.store, root, h), kv, p);
      store, nextId, nodeCount := a.store, a.nextId, a.nodeCount;
      height := h;
    }

    /** search: the value of an entry with key k, present exactly when the tree holds k. */
    method Search(k: int) returns (r: Option<V>)
      requires Valid()
      ensures r.Some? <==> HasKey(Elements(), k)
      ensures r.Some? ==> KeyVal(k, r.value) in Elements()
    {
      r := MemCore.Search(store, root, k, height);
    }

    /** search_max on the root: the leaf whose entries end the tree's sequence. */
    method SearchMax() returns (p: int)
      requires Valid()
      ensures p != NULL ==> p in store && store[p].leaf && EndsWith(Elements(), Entries(store[p]))
      ensures 3 <= d.t ==> p != NULL
    {
      p := MemCore.SearchMax(store, root, height, d.low, d.maxItems);
    }

    /** search_min on the root: the leaf whose entries begin the tree's sequence. */
    method SearchMin() returns (p: int)
      requires Valid()
      ensures p != NULL ==> p in store && store[p].leaf && StartsWith(Elements(), Entries(store[p]))
      ensures 3 <= d.t ==> p != NULL
    {
      p := MemCore.SearchMin(store, root, height, d.low, d.maxItems);
    }

    /** height(): the number of levels, the root's included. */
    function Height(): (n: nat)
      reads this
      requires Valid()
      ensures n == height + 1
    {
      MemCore.Height(store, root, height)
    }

    /**
     * erase: an entry with key k leaves the tree's entries when there is
     * one, and search_miss_cnt counts the erasures that found none; the
     * tree loses a level when the root is left without entries.
     */
    method Erase(k: int) returns (ghost q: int)
      requires Valid() && 3 <= d.t
      modifies this
      ensures Valid()
      ensures HasKey(old(Elements()), k) ==> RemovedAt(old(Elements()), Elements(), k, q) &&
                                             searchMissCnt == old(searchMissCnt)
      ensures !HasKey(old(Elements()), k) ==> Elements() == old(Elements()) &&
                                              searchMissCnt == old(searchMissCnt) + 1
      ensures old(height) - 1 <= height <= old(height)
    {
      ghost var h: nat;
      var a, miss;
      a, root, h, miss, q := MemCore.Erase(Mem(), d, root, k, height);
      if !miss {
        RemoveSorted(old(Elements()), Content(a.store, root, h), k, q);
      } else {
        searchMissCnt := searchMissCnt + 1;
      }
      store, nextId, nodeCount := a.store, a.nextId, a.nodeCount;
      height := h;
    }
  }
}
