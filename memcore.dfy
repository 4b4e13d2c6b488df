/**
 * The node procedures of the in-memory B-tree (btree.cpp): split_child,
 * insert_nonfull, search, search_max, search_min, height, erase_max,
 * erase, fixup, rebalance and concate.  Each takes the node heap as a
 * value (the store of nodes with the allocator's state) and returns the
 * heap it leaves behind; the BTree class in MemTree holds the heap in its
 * fields and calls these.
 *
 * Every procedure is specified on the ghost tree view of TreeModel: the
 * subtree it works on stays a tree, its in-order sequence changes exactly
 * as the operation intends, nothing outside the subtree changes, and its
 * nodes keep their occupancy bounds.
 */
module MemCore {
  import opened Nodes
  import opened TreeModel
  import opened Steps
  import opened Order
  import opened Frames
  import opened Descent
  import Slots

  /**
   * The constants of a tree of minimum degree t: MIN_ITEMS (t - 1),
   * MAX_ITEMS (2t - 1), the least entry count this tree keeps in a node
   * below the root (t - 2), the item slots of a node, and the value
   * zero-filled memory leaves in a slot.  The in-memory tree has 2t + 2
   * slots (the record's own two and the 2t allocated behind it), the
   * persistent tree as many as its page holds; the procedures here touch
   * no slot beyond 2t.
   */
  datatype Params<V> = Params(t: int, minItems: int, maxItems: int, low: int, slots: int, zero: V)

  ghost predicate Proper<V>(d: Params<V>)
  {
    2 <= d.t && d.minItems == d.t - 1 && d.maxItems == 2 * d.t - 1 && d.low == d.t - 2 &&
    2 * d.t + 1 <= d.slots
  }

  /** The node heap: the nodes by id (0 is NULL), the id the next allocation hands out, and node_count. */
  datatype Arena<V> = Arena(store: Store<V>, nextId: int, nodeCount: int)

  /** Every stored node has cap item slots and an id in NULL + 1 .. next - 1. */
  ghost predicate Pool<V>(s: Store<V>, cap: int, next: int)
  {
    forall y :: y in s ==> NULL < y < next && Sized(s[y], cap)
  }

  /** The heap invariant: nodes are sized and counted, and no live id is handed out again. */
  ghost predicate Heap<V>(a: Arena<V>, d: Params<V>)
  {
    NULL < a.nextId && Pool(a.store, d.slots, a.nextId) && a.nodeCount == |a.store.Keys|
  }

  /**
   * The heap holds exactly the B-tree of root r and height h: each node
   * of the heap is a node of the tree, each node below the root holds
   * low..MAX_ITEMS entries, and the root at most MAX_ITEMS and, when
   * internal, at least one.
   */
  ghost predicate Rooted<V>(a: Arena<V>, d: Params<V>, r: int, h: nat)
  {
    Heap(a, d) && Tree(a.store, r, h) && a.store.Keys == Reach(a.store, r, h) &&
    Filled(a.store, r, h, d.low, d.maxItems) && a.store[r].n <= d.maxItems && (h > 0 ==> 1 <= a.store[r].n)
  }

  /** Storing a sized node under a handed-out id keeps the pool. */
  lemma PoolSet<V>(s: Store<V>, cap: int, next: int, y: int, nd: Node<V>)
    requires Pool(s, cap, next) && NULL < y < next && Sized(nd, cap)
    ensures Pool(s[y := nd], cap, next)
  {
  }

  // ---------------------------------------------------------------------
  // allocate_node, free_node
  // ---------------------------------------------------------------------

  /** allocate_node: a zero-filled node under a fresh id, counted in node_count. */
  method AllocateNode<V>(a: Arena<V>, d: Params<V>) returns (a': Arena<V>, x: int)
    requires Proper(d) && Heap(a, d)
    ensures Heap(a', d) && x == a.nextId && x !in a.store && x != NULL
    ensures a'.store == a.store[x := ZeroNode(d.slots, d.zero)]
    ensures a'.nextId == a.nextId + 1 && a'.nodeCount == a.nodeCount + 1
  {
    x := a.nextId;
    var s := a.store[x := ZeroNode(d.slots, d.zero)];
    assert s.Keys == a.store.Keys + {x};
    a' := Arena(s, a.nextId + 1, a.nodeCount + 1);
  }

  /** free_node: the node leaves the heap and node_count. */
  method FreeNode<V>(a: Arena<V>, d: Params<V>, x: int) returns (a': Arena<V>)
    requires Heap(a, d) && x in a.store
    ensures Heap(a', d) && a'.store == a.store - {x}
    ensures a'.nextId == a.nextId && a'.nodeCount == a.nodeCount - 1
  {
    var s := a.store - {x};
    assert a.store.Keys == s.Keys + {x};
    a' := Arena(s, a.nextId, a.nodeCount - 1);
  }

  // ---------------------------------------------------------------------
  // split_child, insert, insert_nonfull
  // ---------------------------------------------------------------------

  /**
   * split_child: the full child y of x moves its upper half into a new
   * node z and its middle entry up into x at position i.
   */
  method SplitChild<V>(a: Arena<V>, d: Params<V>, x: int, i: int, y: int) returns (a': Arena<V>, z: int)
    requires Proper(d) && Heap(a, d) && x in a.store && y in a.store && x != y
    requires 0 <= i <= a.store[x].n < d.maxItems && a.store[y].n == d.maxItems
    ensures Heap(a', d) && z == a.nextId && z !in a.store && a'.nextId == a.nextId + 1
    ensures a'.store.Keys == a.store.Keys + {z}
    ensures Agree(a.store, a'.store, a.store.Keys - {x, y})
    ensures SplitHalves(a.store, a'.store, y, z, d.t)
    ensures a'.store[y].n == d.minItems && a'.store[z].n == d.minItems
    ensures a'.store[x].leaf == a.store[x].leaf && a'.store[x].n == a.store[x].n + 1
    ensures Children(a'.store[x]) == Children(a.store[x])[..i] + [y, z] + Children(a.store[x])[i + 1..]
    ensures Entries(a'.store[x]) == Entries(a.store[x])[..i] + [Entries(a.store[y])[d.t - 1]] +
                                    Entries(a.store[x])[i..]
  {
    var a1;
    a1, z := AllocateNode(a, d);
    var s2 := SplitInto(a1.store, d, x, i, y, z);
    forall w | w in s2
      ensures NULL < w < a1.nextId && Sized(s2[w], d.slots)
    {
      if w !in {x, y, z} {
        assert s2[w] == a1.store[w];
      }
    }
    a' := a1.(store := s2);
  }

  /**
   * The node work of split_child once the zero-filled node z is in place:
   * z receives the slots of y after its middle entry, y keeps the slots
   * before it, and x makes room at position i for the middle entry
   * between y and z.  Both trees share it, the persistent one allocating
   * z on the page store.
   */
  method SplitInto<V>(s: Store<V>, d: Params<V>, x: int, i: int, y: int, z: int) returns (s': Store<V>)
    requires Proper(d) && x in s && y in s && z in s && x != y && z != x && z != y
    requires Sized(s[x], d.slots) && Sized(s[y], d.slots) && s[z] == ZeroNode(d.slots, d.zero)
    requires 0 <= i <= s[x].n < d.maxItems && s[y].n == d.maxItems
    ensures s'.Keys == s.Keys && Agree(s, s', s.Keys - {x, y, z})
    ensures Sized(s'[x], d.slots) && Sized(s'[y], d.slots) && Sized(s'[z], d.slots)
    ensures SplitHalves(s, s', y, z, d.t)
    ensures s'[y].n == d.minItems && s'[z].n == d.minItems
    ensures s'[x].leaf == s[x].leaf && s'[x].n == s[x].n + 1
    ensures Children(s'[x]) == Children(s[x])[..i] + [y, z] + Children(s[x])[i + 1..]
    ensures Entries(s'[x]) == Entries(s[x])[..i] + [Entries(s[y])[d.t - 1]] + Entries(s[x])[i..]
  {
    var X, Y := s[x], s[y];
    var zi := CopySlots(s[z].items, 0, Y.items, d.t, d.t);
    Slots.SplitHalf(Y, s[z].items, zi, d.t);
    var m := Y.items[d.t - 1].kv;
    var xi := ShiftRight(X.items, 1, i + 1, X.n + 1);
    Slots.SplitParent(X, xi, i, y, z, m);
    var Z, X2 := Node(Y.leaf, d.minItems, zi), Node(X.leaf, X.n + 1, xi[i := Item(y, m)][i + 1 := xi[i + 1].(c := z)]);
    s' := s[z := Z][y := Y.(n := d.minItems)][x := X2];
    assert s'.Keys == s.Keys;
  }

  /**
   * split_child of the full child i = y of x, read on the tree: x keeps
   * its in-order sequence, gains the middle entry m of y at position i,
   * and its children i and i+1 are the two halves.
   */
  method SplitFull<V>(a: Arena<V>, d: Params<V>, x: int, i: int, y: int, ghost h: nat, ghost g: nat)
    returns (a': Arena<V>, ghost m: KeyVal<V>)
    requires Proper(d) && Heap(a, d) && Tree(a.store, x, h) && h == g + 1 && 0 <= i <= a.store[x].n < d.maxItems
    requires y == Children(a.store[x])[i] && y in a.store && a.store[y].n == d.maxItems
    requires Filled(a.store, x, h, d.low, d.maxItems)
    ensures Heap(a', d) && SplitDone(a.store, a'.store, x, h, i, m, d.low, d.maxItems, d.minItems)
  {
    ChildOf(a.store, x, h, g, i, d.low, d.maxItems);
    m := Entries(a.store[y])[d.t - 1];
    var z;
    a', z := SplitChild(a, d, x, i, y);
    SplitFullDone(a.store, a'.store, d, x, h, g, i, y, z, m, d.low);
  }

  /**
   * The node work of split_child is a split of the tree: x's subtree keeps
   * its sequence and its lower bound lo, and the two halves hold MIN_ITEMS
   * entries each.
   */
  lemma SplitFullDone<V>(s: Store<V>, s': Store<V>, d: Params<V>, x: int, h: nat, g: nat, i: int, y: int, z: int,
                         m: KeyVal<V>, lo: int)
    requires Proper(d) && Tree(s, x, h) && h == g + 1 && 0 <= i <= s[x].n < d.maxItems
    requires y == Children(s[x])[i] && y in s && Sized(s[y], d.slots) && s[y].n == d.maxItems
    requires m == Entries(s[y])[d.t - 1] && Filled(s, x, h, lo, d.maxItems) && lo <= d.minItems
    requires z !in s && s'.Keys == s.Keys + {z} && Sized(s'[x], d.slots) && Agree(s, s', s.Keys - {x, y}) &&
             SplitHalves(s, s', y, z, d.t) &&
             s'[y].n == d.minItems && s'[z].n == d.minItems &&
             s'[x].leaf == s[x].leaf && s'[x].n == s[x].n + 1 &&
             Children(s'[x]) == Children(s[x])[..i] + [y, z] + Children(s[x])[i + 1..] &&
             Entries(s'[x]) == Entries(s[x])[..i] + [Entries(s[y])[d.t - 1]] + Entries(s[x])[i..]
    ensures SplitDone(s, s', x, h, i, m, lo, d.maxItems, d.minItems)
  {
    SplitAt(s, s', x, h, g, i, y, z, d.t, m, lo, d.maxItems, d.minItems);
  }

  /**
   * insert_nonfull's scan of a node from its last entry down: the first
   * position whose entry has a key not below k, which is where k belongs.
   */
  method ChildSlot<V>(X: Node<V>, k: int) returns (i: int)
    requires 0 <= X.n < |X.items|
    ensures Between(Entries(X), i, k)
  {
    i := X.n - 1;
    while i >= 0 && k < X.items[i].kv.key
      invariant -1 <= i < X.n
      invariant forall q :: i < q < X.n ==> k < X.items[q].kv.key
    {
      i := i - 1;
    }
    i := i + 1;
  }

  /**
   * The first half of insert_nonfull on an internal node: the scan down
   * to the child whose neighbouring keys bracket kv's, and the split of
   * that child when it is full.
   */
  method PrepareChild<V>(a: Arena<V>, d: Params<V>, x: int, kv: KeyVal<V>, ghost h: nat, ghost g: nat)
    returns (a': Arena<V>, i: int)
    requires Proper(d) && Heap(a, d) && Tree(a.store, x, h) && h == g + 1
    requires a.store[x].n < d.maxItems && Filled(a.store, x, h, d.low, d.maxItems)
    ensures Heap(a', d) && Prepared(a.store, a'.store, x, h, i, kv.key, d.low, d.maxItems)
  {
    var X := a.store[x];
    i := ChildSlot(X, kv.key);
    var y := X.items[i].c;
    assert y == Children(X)[i];
    ChildOf(a.store, x, h, g, i, d.low, d.maxItems);
    if a.store[y].n == d.maxItems {
      ghost var m;
      a', m := SplitFull(a, d, x, i, y, h, g);
      SplitChoice(a.store, a'.store, x, h, i, m, d.low, d.maxItems, d.minItems, kv.key,
                  if kv.key > m.key then i + 1 else i);
      if kv.key > a'.store[x].items[i].kv.key {
        i := i + 1;
      }
    } else {
      a' := a;
      KeepChoice(a.store, x, h, i, kv.key, d.low, d.maxItems);
    }
  }

  /**
   * insert_nonfull: kv goes into the subtree of x, which has room for it;
   * a full child is split on the way down.  The subtree's sequence gains
   * kv at a position p between a key not above kv's and a key not below it.
   */
  method InsertNonfull<V>(a: Arena<V>, d: Params<V>, x: int, kv: KeyVal<V>, ghost h: nat)
    returns (a': Arena<V>, ghost p: int)
    requires Proper(d) && Heap(a, d) && Tree(a.store, x, h)
    requires a.store[x].n < d.maxItems && Filled(a.store, x, h, d.low, d.maxItems)
    decreases h
    ensures Heap(a', d) && Tree(a'.store, x, h)
    ensures InsertedAt(Content(a.store, x, h), Content(a'.store, x, h), kv, p)
    ensures Rewrites(a.store, a'.store, Reach(a.store, x, h), Reach(a'.store, x, h))
    ensures a.store[x].n <= a'.store[x].n <= a.store[x].n + 1
    ensures Filled(a'.store, x, h, d.low, d.maxItems)
  {
    var s := a.store;
    if s[x].leaf {
      var r, q := LeafInsert(s[x], kv);
      PoolSet(s, d.slots, a.nextId, x, r);
      a' := a.(store := s[x := r]);
      assert a'.store.Keys == s.Keys;
      p := q;
      Leaf(s, x);
      Leaf(a'.store, x);
      Local(s, a'.store, {x}, {x}, {x});
    } else {
      ghost var g := h - 1;
      var a1, i := PrepareChild(a, d, x, kv, h, g);
      ghost var s1 := a1.store;
      var y := a1.store[x].items[i].c;
      assert y == Children(s1[x])[i];
      ChildOf(s1, x, h, g, i, d.low, d.maxItems);
      assert d.low <= s1[y].n < d.maxItems;
      ghost var q;
      a', q := InsertNonfull(a1, d, y, kv, g);
      ghost var s2 := a'.store;
      assert d.low <= s2[y].n <= d.maxItems;
      p := InsertFinish(s, s1, s2, x, h, g, i, y, kv, q, d.low, d.maxItems);
    }
  }

  /**
   * The node work of insert's full-root branch: a new internal node x,
   * whose first pointer is set to x itself before split_child overwrites
   * it, takes the middle entry of the full root r between r and the new
   * node z.
   */
  method RootSplit<V>(a: Arena<V>, d: Params<V>, r: int) returns (a': Arena<V>, x: int, z: int)
    requires Proper(d) && Heap(a, d) && r in a.store && a.store[r].n == d.maxItems
    ensures Heap(a', d) && x !in a.store && z !in a.store && x != z
    ensures a'.store.Keys == a.store.Keys + {x, z} && Agree(a.store, a'.store, a.store.Keys - {r})
    ensures x in a'.store && !a'.store[x].leaf && 0 <= a'.store[x].n < |a'.store[x].items|
    ensures SplitHalves(a.store, a'.store, r, z, d.t)
    ensures Children(a'.store[x]) == [r, z] && Entries(a'.store[x]) == [Entries(a.store[r])[d.t - 1]]
  {
    var a1;
    a1, x := AllocateNode(a, d);
    var S := a1.store[x];
    S := S.(leaf := false, n := 0, items := S.items[0 := S.items[0].(c := x)]);
    PoolSet(a1.store, d.slots, a1.nextId, x, S);
    var a2 := a1.(store := a1.store[x := S]);
    assert a2.store.Keys == a1.store.Keys;
    assert Children(a2.store[x]) == [x] && Entries(a2.store[x]) == [];
    a', z := SplitChild(a2, d, x, 0, r);
  }

  /**
   * The full-root branch of insert: the tree grows one level under the
   * new root x and keeps its in-order sequence.
   */
  method GrowRoot<V>(a: Arena<V>, d: Params<V>, r: int, ghost h: nat, ghost h': nat) returns (a': Arena<V>, x: int)
    requires Proper(d) && Heap(a, d) && Tree(a.store, r, h) && a.store.Keys == Reach(a.store, r, h)
    requires a.store[r].n == d.maxItems && Filled(a.store, r, h, d.low, d.maxItems) && h' == h + 1
    ensures Heap(a', d) && Tree(a'.store, x, h') && a'.store.Keys == Reach(a'.store, x, h')
    ensures Content(a'.store, x, h') == Content(a.store, r, h)
    ensures a'.store[x].n == 1 && Filled(a'.store, x, h', d.low, d.maxItems)
  {
    var z;
    a', x, z := RootSplit(a, d, r);
    Grown(a.store, a'.store, d, r, h, h', x, z);
  }

  /** The store RootSplit leaves is a tree one level higher under x, holding the same sequence. */
  lemma Grown<V>(s: Store<V>, s': Store<V>, d: Params<V>, r: int, h: nat, h': nat, x: int, z: int)
    requires Proper(d) && Tree(s, r, h) && s.Keys == Reach(s, r, h) && h' == h + 1
    requires s[r].n == d.maxItems && Filled(s, r, h, d.low, d.maxItems)
    requires x !in s && z !in s && x != z && s'.Keys == s.Keys + {x, z} && Agree(s, s', s.Keys - {r})
    requires x in s' && !s'[x].leaf && 0 <= s'[x].n < |s'[x].items|
    requires SplitHalves(s, s', r, z, d.t)
    requires Children(s'[x]) == [r, z] && Entries(s'[x]) == [Entries(s[r])[d.t - 1]]
    ensures Tree(s', x, h') && s'.Keys == Reach(s', x, h') && Content(s', x, h') == Content(s, r, h)
    ensures s'[x].n == 1 && Filled(s', x, h', d.low, d.maxItems)
  {
    RootGrow(s, s', r, h, h', x, z, d.t, d.low, d.maxItems);
  }

  /**
   * insert: kv goes into the tree of root r, which first grows a level
   * when r is full.  The tree's sequence gains kv at a position p between
   * a key not above kv's and a key not below it.
   */
  method Insert<V>(a: Arena<V>, d: Params<V>, r: int, kv: KeyVal<V>, ghost h: nat)
    returns (a': Arena<V>, r': int, ghost h': nat, ghost p: int)
    requires Proper(d) && Rooted(a, d, r, h)
    ensures Rooted(a', d, r', h') && h <= h' <= h + 1
    ensures InsertedAt(Content(a.store, r, h), Content(a'.store, r', h'), kv, p)
  {
    var a1 := a;
    r', h' := r, h;
    if a.store[r].n == d.maxItems {
      h' := h + 1;
      a1, r' := GrowRoot(a, d, r, h, h');
    }
    assert Rooted(a1, d, r', h') && a1.store[r'].n < d.maxItems && Content(a1.store, r', h') == Content(a.store, r, h);
    a', p := InsertNonfull(a1, d, r', kv, h');
    StillRooted(a1.store, a'.store, d, r', h');
  }

  /** A descent from the root that rewrote only the tree's nodes leaves a tree that is the whole store, with a root in bounds. */
  lemma StillRooted<V>(s: Store<V>, s': Store<V>, d: Params<V>, r: int, h: nat)
    requires Tree(s, r, h) && s.Keys == Reach(s, r, h) && s[r].n < d.maxItems && (h > 0 ==> 1 <= s[r].n)
    requires Tree(s', r, h) && Rewrites(s, s', Reach(s, r, h), Reach(s', r, h)) && s[r].n <= s'[r].n <= s[r].n + 1
    ensures s'.Keys == Reach(s', r, h) && s'[r].n <= d.maxItems && (h > 0 ==> 1 <= s'[r].n)
  {
  }

  // ---------------------------------------------------------------------
  // search, search_max, search_min
  // ---------------------------------------------------------------------

  /** The scan of search and erase: past every entry whose key is below k. */
  method Scan<V>(nd: Node<V>, k: int) returns (i: int)
    requires 0 <= nd.n <= |nd.items|
    ensures 0 <= i <= nd.n
    ensures forall j :: 0 <= j < i ==> nd.items[j].kv.key < k
    ensures i < nd.n ==> k <= nd.items[i].kv.key
  {
    i := 0;
    while i < nd.n && k > nd.items[i].kv.key
      invariant 0 <= i <= nd.n
      invariant forall j :: 0 <= j < i ==> nd.items[j].kv.key < k
    {
      i := i + 1;
    }
  }

  /**
   * search: the value of an entry with key k in the subtree of x, found
   * exactly when the subtree's sorted sequence holds such an entry.
   */
  method Search<V>(s: Store<V>, x: int, k: int, ghost h: nat) returns (r: Option<V>)
    requires Wf(s, x, h) && Sorted(Content(s, x, h))
    decreases h
    ensures r.Some? <==> HasKey(Content(s, x, h), k)
    ensures r.Some? ==> KeyVal(k, r.value) in Content(s, x, h)
  {
    var X := s[x];
    var i := Scan(X, k);
    if i < X.n && k == X.items[i].kv.key {
      EntryIn(s, x, h, i);
      assert Entries(X)[i] == KeyVal(k, X.items[i].kv.val);
      return Some(X.items[i].kv.val);
    }
    if X.leaf {
      Leaf(s, x);
      ScanMiss(Entries(X), i, k);
      return None;
    }
    assert Gap(Entries(X), i, k);
    ghost var g := h - 1;
    SearchDescent(s, x, h, g, i, k);
    var y := X.items[i].c;
    assert y == Children(X)[i];
    r := Search(s, y, k, g);
    if r.Some? {
      assert KeyVal(k, r.value) in Content(s, Children(s[x])[i], g);
    }
  }

  /**
   * search_max: the leaf at the end of the rightmost path, whose entries
   * end the subtree's sequence; NULL when an internal node on that path
   * holds no entry.
   */
  method SearchMax<V>(s: Store<V>, x: int, ghost h: nat, ghost lo: int, ghost hi: int) returns (r: int)
    requires Tree(s, x, h) && NULL !in s
    decreases h
    ensures r != NULL ==> r in s && s[r].leaf && 0 <= s[r].n < |s[r].items| &&
                          EndsWith(Content(s, x, h), Entries(s[r]))
    ensures (h > 0 ==> 1 <= s[x].n) && Filled(s, x, h, lo, hi) && 1 <= lo ==> r != NULL
  {
    if s[x].leaf {
      Leaf(s, x);
      assert Content(s, x, h)[|Content(s, x, h)| - |Entries(s[x])|..] == Entries(s[x]);
      return x;
    }
    if s[x].n == 0 {
      return NULL;
    }
    ghost var g := h - 1;
    var y := s[x].items[s[x].n].c;
    LastBlock(s, x, h, g);
    assert y == Children(s[x])[s[x].n];
    r := SearchMax(s, y, g, lo, hi);
    if r != NULL {
      EndsWithAfter(Pre(Kids(s, x, h), Entries(s[x]), s[x].n), Content(s, y, g), Entries(s[r]));
    }
    if Filled(s, x, h, lo, hi) && 1 <= lo {
      ChildOf(s, x, h, g, s[x].n, lo, hi);
    }
  }

  /**
   * search_min: the leaf at the end of the leftmost path, whose entries
   * begin the subtree's sequence; NULL when an internal node on that path
   * holds no entry.
   */
  method SearchMin<V>(s: Store<V>, x: int, ghost h: nat, ghost lo: int, ghost hi: int) returns (r: int)
    requires Tree(s, x, h) && NULL !in s
    decreases h
    ensures r != NULL ==> r in s && s[r].leaf && 0 <= s[r].n < |s[r].items| &&
                          StartsWith(Content(s, x, h), Entries(s[r]))
    ensures (h > 0 ==> 1 <= s[x].n) && Filled(s, x, h, lo, hi) && 1 <= lo ==> r != NULL
  {
    if s[x].leaf {
      Leaf(s, x);
      assert Content(s, x, h)[..|Entries(s[x])|] == Entries(s[x]);
      return x;
    }
    if s[x].n == 0 {
      return NULL;
    }
    ghost var g := h - 1;
    var y := s[x].items[0].c;
    FirstBlock(s, x, h, g);
    assert y == Children(s[x])[0];
    r := SearchMin(s, y, g, lo, hi);
    if r != NULL {
      StartsWithBefore(Content(s, y, g), Post(Kids(s, x, h), Entries(s[x]), 0), Entries(s[r]));
    }
    if Filled(s, x, h, lo, hi) && 1 <= lo {
      ChildOf(s, x, h, g, 0, lo, hi);
    }
  }

  // ---------------------------------------------------------------------
  // height
  // ---------------------------------------------------------------------

  /**
   * height(x) on an internal node: one level for each first pointer
   * followed until it names a leaf.  Every leaf lies at the same depth, so
   * this is the subtree's height in edges.
   */
  function SubHeight<V>(s: Store<V>, x: int, ghost h: nat): (n: nat)
    requires Wf(s, x, h) && !s[x].leaf
    decreases h
    ensures n == h
  {
    var y := s[x].items[0].c;
    KidsAt(s, x, h, h - 1, 0);
    assert y == Children(s[x])[0];
    if s[y].leaf then 1 else 1 + SubHeight(s, y, h - 1)
  }

  /**
   * height() as written: 1 + height(root).  On a leaf root, height(root)
   * follows the root's first pointer, which no leaf sets, and reads the
   * node it names; here that pointer names no node of the store.
   */
  function HeightAsWritten<V>(s: Store<V>, r: int, ghost h: nat): (n: Option<nat>)
    requires Wf(s, r, h) && (s[r].leaf ==> s[r].items[0].c !in s)
    ensures n.Some? <==> h > 0
  {
    if s[r].leaf then None else Some(1 + SubHeight(s, r, h))
  }

  /** height() as meant: the number of levels of the tree, a leaf root counting as one. */
  function Height<V>(s: Store<V>, r: int, ghost h: nat): (n: nat)
    requires Wf(s, r, h)
    ensures n == h + 1
    ensures h > 0 ==> HeightAsWritten(s, r, h) == Some(n)
  {
    if s[r].leaf then 1 else 1 + SubHeight(s, r, h)
  }

  /** On the tree a new BTree starts with, height() as written follows a NULL pointer. */
  lemma FreshHeight<V>(d: Params<V>, x: int)
    requires Proper(d) && x != NULL
    ensures var s := map[x := ZeroNode(d.slots, d.zero).(leaf := true)];
            Wf(s, x, 0) && s[x].items[0].c == NULL && HeightAsWritten(s, x, 0).None? && Height(s, x, 0) == 1
  {
    var s := map[x := ZeroNode(d.slots, d.zero).(leaf := true)];
    Leaf(s, x);
  }

  // ---------------------------------------------------------------------
  // concate, rebalance
  // ---------------------------------------------------------------------

  /**
   * concate: child y = i of x takes entry i of x and every slot of its
   * right sibling z = i+1; x drops entry i and the pointer to z, and z is
   * freed.
   */
  method Concate<V>(a: Arena<V>, d: Params<V>, x: int, i: int, ghost y: int, ghost z: int) returns (a': Arena<V>)
    requires Proper(d) && Heap(a, d) && x in a.store && !a.store[x].leaf && 0 <= i < a.store[x].n
    requires y == Children(a.store[x])[i] && z == Children(a.store[x])[i + 1]
    requires y in a.store && z in a.store && x != y && x != z && y != z
    requires a.store[y].n + a.store[z].n < d.maxItems
    ensures Heap(a', d) && Merged(a.store, a'.store, x, i)
    ensures a'.store.Keys == a.store.Keys - {z} && Agree(a.store, a'.store, a.store.Keys - {x, y, z})
    ensures y in a'.store && a'.store[y].n == a.store[y].n + 1 + a.store[z].n
    ensures i == a.store[x].n - 1 ==> Children(a'.store[x])[a'.store[x].n] == y
  {
    var X := a.store[x];
    var py, pz := X.items[i].c, X.items[i + 1].c;
    assert py == y && pz == z;
    var Y, Z := a.store[py], a.store[pz];
    var m := X.items[i].kv;
    var ya := Y.items[Y.n := Y.items[Y.n].(kv := m)];
    var yb := CopySlots(ya, Y.n + 1, Z.items, 0, Z.n + 1);
    Slots.MergeChild(Y, Z, m, yb);
    var xa := ShiftLeft(X.items, 1, i + 1, X.n);
    Slots.MergeParent(X, xa, i, py);
    var X2 := Node(X.leaf, X.n - 1, xa[i := xa[i].(c := py)]);
    var Y2 := Node(Y.leaf, Y.n + 1 + Z.n, yb);
    assert Entries(X) == Entries(a.store[x]) && Entries(X)[i] == m;
    PoolSet(a.store, d.slots, a.nextId, py, Y2);
    PoolSet(a.store[py := Y2], d.slots, a.nextId, x, X2);
    var s1 := a.store[py := Y2][x := X2];
    assert s1.Keys == a.store.Keys;
    a' := FreeNode(a.(store := s1), d, pz);
  }

  /**
   * rebalance when y is the short side: the separator and the first slots
   * of z move to the end of y, and z's remaining slots move down.
   */
  method ShareLeft<V>(Y: Node<V>, Z: Node<V>, sep: KeyVal<V>, ny: int, nz: int)
    returns (Y2: Node<V>, Z2: Node<V>, m: KeyVal<V>)
    requires 0 <= Y.n < ny < |Y.items| && 0 <= nz && ny + nz == Y.n + Z.n && Z.n < |Z.items|
    ensures Y2.leaf == Y.leaf && Y2.n == ny && |Y2.items| == |Y.items|
    ensures Z2.leaf == Z.leaf && Z2.n == nz && |Z2.items| == |Z.items|
    ensures Entries(Y2) + [m] + Entries(Z2) == Entries(Y) + [sep] + Entries(Z)
    ensures Children(Y2) + Children(Z2) == Children(Y) + Children(Z)
  {
    var n := ny - Y.n;
    var ya := Y.items[Y.n := Y.items[Y.n].(kv := sep)];
    var yb := CopySlots(ya, Y.n + 1, Z.items, 0, n);
    m := Z.items[n - 1].kv;
    var za := ShiftLeft(Z.items, n, n, Z.n);
    Slots.ShiftToLeft(Y, Z, sep, n, yb, za);
    Y2, Z2 := Node(Y.leaf, Y.n + n, yb), Node(Z.leaf, Z.n - n, za);
  }

  /**
   * rebalance when y is the long side: z's slots move up, y's last slots
   * fill the gap, the separator goes in front of z's old entries and y's
   * entry ny becomes the separator.
   */
  method ShareRight<V>(Y: Node<V>, Z: Node<V>, sep: KeyVal<V>, ny: int, nz: int)
    returns (Y2: Node<V>, Z2: Node<V>, m: KeyVal<V>)
    requires 0 <= ny < Y.n < |Y.items| && 0 <= Z.n < nz < |Z.items| && ny + nz == Y.n + Z.n
    ensures Y2.leaf == Y.leaf && Y2.n == ny && |Y2.items| == |Y.items|
    ensures Z2.leaf == Z.leaf && Z2.n == nz && |Z2.items| == |Z.items|
    ensures Entries(Y2) + [m] + Entries(Z2) == Entries(Y) + [sep] + Entries(Z)
    ensures Children(Y2) + Children(Z2) == Children(Y) + Children(Z)
  {
    var n := Y.n - ny;
    var za := ShiftRight(Z.items, n, n, nz);
    var zb := CopySlots(za, 0, Y.items, ny + 1, n);
    Slots.ShiftToRight(Y, Z, sep, n, ny, za, zb);
    m := Y.items[ny].kv;
    Y2, Z2 := Y.(n := ny), Node(Z.leaf, nz, zb[n - 1 := zb[n - 1].(kv := sep)]);
  }

  /**
   * rebalance: the entries of y = child i, entry i of x and the entries of
   * z = child i+1 are dealt out again, z taking half of y's and z's entries
   * rounded down and y the rest, with a new entry i of x between them.
   */
  method Rebalance<V>(a: Arena<V>, d: Params<V>, x: int, i: int, ghost y: int, ghost z: int)
    returns (a': Arena<V>, ghost m2: KeyVal<V>)
    requires Proper(d) && Heap(a, d) && x in a.store && !a.store[x].leaf && 0 <= i < a.store[x].n
    requires y == Children(a.store[x])[i] && z == Children(a.store[x])[i + 1]
    requires y in a.store && z in a.store && x != y && x != z && y != z
    requires a.store[y].n < d.minItems || a.store[z].n < d.minItems
    requires d.maxItems <= a.store[y].n + a.store[z].n
    requires a.store[y].n <= d.maxItems && a.store[z].n <= d.maxItems
    ensures Heap(a', d) && Rebalanced(a.store, a'.store, x, i, m2)
    ensures a'.store.Keys == a.store.Keys && Agree(a.store, a'.store, a.store.Keys - {x, y, z})
    ensures a'.store[y].n + a'.store[z].n == a.store[y].n + a.store[z].n
    ensures a'.store[z].n == (a.store[y].n + a.store[z].n) / 2
  {
    var X := a.store[x];
    var py, pz := X.items[i].c, X.items[i + 1].c;
    assert py == y && pz == z;
    var Y, Z := a.store[py], a.store[pz];
    var tn := Y.n + Z.n;
    var an := tn / 2;
    var nz := an;
    var ny := tn - nz;
    var sep := X.items[i].kv;
    var Y2, Z2, m;
    if Y.n < ny {
      Y2, Z2, m := ShareLeft(Y, Z, sep, ny, nz);
    } else {
      Y2, Z2, m := ShareRight(Y, Z, sep, ny, nz);
    }
    m2 := m;
    Slots.EntrySet(X, i, m);
    var X2 := X.(items := X.items[i := X.items[i].(kv := m)]);
    PoolSet(a.store, d.slots, a.nextId, pz, Z2);
    PoolSet(a.store[pz := Z2], d.slots, a.nextId, py, Y2);
    PoolSet(a.store[pz := Z2][py := Y2], d.slots, a.nextId, x, X2);
    var s1 := a.store[pz := Z2][py := Y2][x := X2];
    assert s1.Keys == a.store.Keys;
    a' := a.(store := s1);
  }

  // ---------------------------------------------------------------------
  // fixup
  // ---------------------------------------------------------------------

  /**
   * The subtree of x, rewritten from s to s', is still a tree with the
   * same in-order sequence, and every node below x is within lo..hi.
   */
  ghost predicate Repaired<V>(s: Store<V>, s': Store<V>, x: int, h: nat, lo: int, hi: int)
  {
    Wf(s, x, h) && Tree(s', x, h) && Content(s', x, h) == Content(s, x, h) &&
    Rewrites(s, s', Reach(s, x, h), Reach(s', x, h)) && Filled(s', x, h, lo, hi)
  }

  /** The pair fixup(x, i) works on: i, or the last pair when i is x's entry count n. */
  function FixIndex(n: int, i: int): int
  {
    if i == n then i - 1 else i
  }

  /**
   * What fixup does to the pair of children i and i+1 of x, decided by
   * their entry counts alone: nothing when both hold at least lo entries;
   * otherwise concate when the two total less than hi, and rebalance, z
   * taking half of the total rounded down, when they total more.
   */
  ghost predicate FixedPair<V>(s: Store<V>, s': Store<V>, x: int, i: int, lo: int, hi: int, m2: KeyVal<V>)
    requires x in s && 0 <= i < s[x].n < |s[x].items|
  {
    var cs := Children(s[x]);
    cs[i] in s && cs[i + 1] in s &&
    var ny, nz := s[cs[i]].n, s[cs[i + 1]].n;
    (lo <= ny && lo <= nz ==> s' == s) &&
    ((ny < lo || nz < lo) && ny + nz < hi ==> Merged(s, s', x, i) && cs[i + 1] !in s') &&
    ((ny < lo || nz < lo) && hi <= ny + nz ==>
       Rebalanced(s, s', x, i, m2) && cs[i + 1] in s' && s'[cs[i + 1]].n == (ny + nz) / 2)
  }

  /** fixup leaves the store alone when both children of its pair hold at least lo entries. */
  lemma FixedNothing<V>(s: Store<V>, s': Store<V>, x: int, i: int, lo: int, hi: int, m2: KeyVal<V>)
    requires x in s && 0 <= i < s[x].n < |s[x].items| && FixedPair(s, s', x, i, lo, hi, m2)
    requires lo <= s[Children(s[x])[i]].n && lo <= s[Children(s[x])[i + 1]].n
    ensures s' == s
  {
  }

  /** concate at pair i of x, read on the tree: one node fewer, the same sequence, every node in bounds. */
  method FixMerge<V>(a: Arena<V>, d: Params<V>, x: int, i: int, ghost y: int, ghost z: int,
                     ghost h: nat, ghost g: nat, ghost u: int, ghost m: KeyVal<V>) returns (a': Arena<V>)
    requires Proper(d) && Heap(a, d) && Tree(a.store, x, h) && h == g + 1 && 0 <= i < a.store[x].n
    requires y == Children(a.store[x])[i] && z == Children(a.store[x])[i + 1] && y in a.store && z in a.store
    requires FilledBut(a.store, x, h, u, d.low, d.maxItems) && (u < 0 || u == i || u == i + 1)
    requires d.low - 1 <= a.store[y].n && d.low - 1 <= a.store[z].n
    requires a.store[y].n < d.minItems || a.store[z].n < d.minItems
    requires a.store[y].n + a.store[z].n < d.maxItems
    ensures Heap(a', d) && Repaired(a.store, a'.store, x, h, d.low, d.maxItems)
    ensures a'.store[x].n == a.store[x].n - 1
    ensures Children(a'.store[x]) == Children(a.store[x])[..i] + [y] + Children(a.store[x])[i + 2..]
    ensures y in a'.store && a'.store[y].n == a.store[y].n + 1 + a.store[z].n
    ensures i == a.store[x].n - 1 ==> Children(a'.store[x])[a'.store[x].n] == y
    ensures FixedPair(a.store, a'.store, x, i, d.minItems, d.maxItems, m)
  {
    ghost var s := a.store;
    PairOf(s, x, h, g, i);
    PairIn(s, x, h, g, i);
    FilledButIff(s, x, h, g, u, d.low, d.maxItems);
    a' := Concate(a, d, x, i, y, z);
    MergeStep(s, a'.store, x, h, g, i, u, d.low, d.maxItems);
    Local(s, a'.store, Reach(s, x, h), Reach(a'.store, x, h), {x, y, z});
  }

  /** rebalance at pair i of x, read on the tree: the same nodes and sequence, every node in bounds. */
  method FixShare<V>(a: Arena<V>, d: Params<V>, x: int, i: int, ghost y: int, ghost z: int,
                     ghost h: nat, ghost g: nat, ghost u: int) returns (a': Arena<V>, ghost m2: KeyVal<V>)
    requires Proper(d) && Heap(a, d) && Tree(a.store, x, h) && h == g + 1 && 0 <= i < a.store[x].n
    requires y == Children(a.store[x])[i] && z == Children(a.store[x])[i + 1] && y in a.store && z in a.store
    requires FilledBut(a.store, x, h, u, d.low, d.maxItems) && (u < 0 || u == i || u == i + 1)
    requires a.store[y].n < d.minItems || a.store[z].n < d.minItems
    requires d.maxItems <= a.store[y].n + a.store[z].n
    requires a.store[y].n <= d.maxItems && a.store[z].n <= d.maxItems
    ensures Heap(a', d) && Repaired(a.store, a'.store, x, h, d.low, d.maxItems)
    ensures a'.store[x].n == a.store[x].n && Children(a'.store[x]) == Children(a.store[x])
    ensures z in a'.store && d.minItems <= a'.store[z].n
    ensures FixedPair(a.store, a'.store, x, i, d.minItems, d.maxItems, m2)
  {
    ghost var s := a.store;
    PairOf(s, x, h, g, i);
    PairIn(s, x, h, g, i);
    FilledButIff(s, x, h, g, u, d.low, d.maxItems);
    a', m2 := Rebalance(a, d, x, i, y, z);
    assert FixedPair(s, a'.store, x, i, d.minItems, d.maxItems, m2);
    RebalanceStep(s, a'.store, x, h, g, i, m2, u, d.low, d.maxItems);
    Local(s, a'.store, Reach(s, x, h), Reach(a'.store, x, h), {x, y, z});
  }

  /**
   * fixup(x, i): the pair of children around entry i of x (the last pair
   * when i is past the last entry) is repaired when either holds fewer
   * than MIN_ITEMS entries, by concate when the two fit in one node with
   * their separator and by rebalance otherwise.  The subtree keeps its
   * sequence, and every node below x is back within bounds.  Called on the
   * last pair of a filled node, fixup leaves x's last child at least
   * MIN_ITEMS entries.  Which of the three happens is decided by the
   * pair's entry counts alone: nothing when both hold MIN_ITEMS, concate
   * when one is short and the two total less than MAX_ITEMS, rebalance
   * when one is short and they total more.
   */
  method Fixup<V>(a: Arena<V>, d: Params<V>, x: int, i0: int, ghost h: nat, ghost g: nat, ghost u: int)
    returns (a': Arena<V>, ghost m2: KeyVal<V>)
    requires Proper(d) && Heap(a, d) && Tree(a.store, x, h) && h == g + 1 && 0 <= i0 <= a.store[x].n
    requires 1 <= a.store[x].n && FilledBut(a.store, x, h, u, d.low, d.maxItems) && (u < 0 || u == i0)
    ensures Heap(a', d) && Repaired(a.store, a'.store, x, h, d.low, d.maxItems)
    ensures a.store[x].n - 1 <= a'.store[x].n <= a.store[x].n
    ensures u < 0 && i0 == a.store[x].n - 1 ==>
            Children(a'.store[x])[a'.store[x].n] in a'.store &&
            d.minItems <= a'.store[Children(a'.store[x])[a'.store[x].n]].n
    ensures FixedPair(a.store, a'.store, x, FixIndex(a.store[x].n, i0), d.minItems, d.maxItems, m2)
  {
    ghost var s := a.store;
    var X := a.store[x];
    var i := FixIndex(X.n, i0);
    var y, z := X.items[i].c, X.items[i + 1].c;
    assert y == Children(s[x])[i] && z == Children(s[x])[i + 1];
    m2 := X.items[i].kv;
    PairOf(s, x, h, g, i);
    FilledButIff(s, x, h, g, u, d.low, d.maxItems);
    ghost var cs := Children(s[x]);
    assert d.low - 1 <= s[cs[i]].n <= d.maxItems && d.low - 1 <= s[cs[i + 1]].n <= d.maxItems;
    if a.store[y].n < d.minItems || a.store[z].n < d.minItems {
      if a.store[y].n + a.store[z].n < d.maxItems {
        a' := FixMerge(a, d, x, i, y, z, h, g, u, m2);
        if u < 0 && i0 == X.n - 1 {
          assert d.low <= s[cs[i]].n && d.low <= s[cs[i + 1]].n;
        }
      } else {
        a', m2 := FixShare(a, d, x, i, y, z, h, g, u);
      }
    } else {
      a' := a;
      ReachInStore(s, x, h);
      Same(s, Reach(s, x, h));
      assert FixedPair(s, a'.store, x, i, d.minItems, d.maxItems, m2);
    }
  }

  // ---------------------------------------------------------------------
  // erase_max
  // ---------------------------------------------------------------------

  /** s' is s with the last entry of node p dropped, and nothing else changed. */
  ghost predicate DroppedLast<V>(s: Store<V>, s': Store<V>, p: int)
  {
    p in s && s' == s[p := s[p].(n := s[p].n - 1)]
  }

  /** erase_max on a leaf: its last entry e is dropped and left in slot n; NULL for an empty leaf. */
  method EraseMaxLeaf<V>(a: Arena<V>, d: Params<V>, x: int) returns (a': Arena<V>, p: int, ghost e: KeyVal<V>)
    requires Proper(d) && Heap(a, d) && Tree(a.store, x, 0)
    ensures Heap(a', d) && Tree(a'.store, x, 0) && Filled(a'.store, x, 0, d.low, d.maxItems)
    ensures Rewrites(a.store, a'.store, Reach(a.store, x, 0), Reach(a'.store, x, 0))
    ensures a.store[x].n - 1 <= a'.store[x].n <= a.store[x].n
    ensures p == NULL <==> Content(a.store, x, 0) == []
    ensures p == NULL ==> a'.store == a.store
    ensures p != NULL ==> Content(a.store, x, 0) == Content(a'.store, x, 0) + [e] &&
                          p in a'.store && a'.store[p].leaf && 0 <= a'.store[p].n < |a'.store[p].items| &&
                          a'.store[p].items[a'.store[p].n].kv == e
    ensures p != NULL ==> p == x && DroppedLast(a.store, a'.store, p)
  {
    ghost var s := a.store;
    var X := a.store[x];
    Leaf(s, x);
    if X.n == 0 {
      return a, NULL, KeyVal(0, d.zero);
    }
    var X2 := X.(n := X.n - 1);
    Slots.DropLast(X);
    e := X.items[X.n - 1].kv;
    PoolSet(s, d.slots, a.nextId, x, X2);
    a' := a.(store := a.store[x := X2]);
    assert a'.store.Keys == s.Keys;
    Leaf(a'.store, x);
    Local(s, a'.store, {x}, {x}, {x});
    p := x;
  }

  /**
   * erase_max(x): the last entry e of the subtree's sequence is dropped,
   * and the leaf p that held it is returned with e left in its slot p.n,
   * where erase reads it back.  On the way down each last pair of
   * children is repaired first, so the leaf does not fall below the
   * bounds.  NULL when the subtree holds no entry.
   *
   * The child descended into is read after fixup; see StaleMaxChild for
   * what reading it before fixup leads to.
   */
  method EraseMax<V>(a: Arena<V>, d: Params<V>, x: int, ghost h: nat) returns (a': Arena<V>, p: int, ghost e: KeyVal<V>)
    requires Proper(d) && 3 <= d.t && Heap(a, d) && Tree(a.store, x, h)
    requires Filled(a.store, x, h, d.low, d.maxItems) && (h > 0 ==> 1 <= a.store[x].n)
    decreases h
    ensures Heap(a', d) && Tree(a'.store, x, h) && Filled(a'.store, x, h, d.low, d.maxItems)
    ensures Rewrites(a.store, a'.store, Reach(a.store, x, h), Reach(a'.store, x, h))
    ensures a.store[x].n - 1 <= a'.store[x].n <= a.store[x].n
    ensures p == NULL <==> Content(a.store, x, h) == []
    ensures p == NULL ==> a'.store == a.store
    ensures p != NULL ==> Content(a.store, x, h) == Content(a'.store, x, h) + [e] &&
                          p in a'.store && a'.store[p].leaf && 0 <= a'.store[p].n < |a'.store[p].items| &&
                          a'.store[p].items[a'.store[p].n].kv == e
  {
    ghost var s := a.store;
    var X := a.store[x];
    if X.leaf {
      Leaf(s, x);
      a', p, e := EraseMaxLeaf(a, d, x);
      return;
    }
    ghost var g := h - 1;
    EntryIn(s, x, h, 0);
    FilledButIff(s, x, h, g, -1, d.low, d.maxItems);
    ghost var m2;
    var a1;
    a1, m2 := Fixup(a, d, x, X.n - 1, h, g, -1);
    ghost var s1 := a1.store;
    var y := a1.store[x].items[a1.store[x].n].c;
    assert y == Children(s1[x])[s1[x].n];
    ChildOf(s1, x, h, g, s1[x].n, d.low, d.maxItems);
    EntryIn(s1, y, g, 0);
    a', p, e := EraseMax(a1, d, y, g);
    MaxDescent(s1, a'.store, x, h, g, y, e, d.low, d.maxItems);
    Trans(s, s1, a'.store, Reach(s, x, h), Reach(s1, x, h), Reach(a'.store, x, h));
  }

  // ---------------------------------------------------------------------
  // erase
  // ---------------------------------------------------------------------

  /** The hit test of erase as written: the key in slot i, whether or not slot i holds an entry. */
  predicate HitAsWritten<V>(nd: Node<V>, i: int, k: int)
    requires 0 <= i < |nd.items|
  {
    nd.items[i].kv.key == k
  }

  /** The hit test of search, which erase means too: slot i holds an entry and its key is k. */
  predicate Hit<V>(nd: Node<V>, i: int, k: int)
    requires 0 <= i < |nd.items|
  {
    i < nd.n && nd.items[i].kv.key == k
  }

  /** After the scan of a sorted node, the hit test says exactly whether the node holds k. */
  lemma HitIff<V>(nd: Node<V>, i: int, k: int)
    requires 0 <= nd.n < |nd.items| && 0 <= i <= nd.n && Sorted(Entries(nd))
    requires forall j :: 0 <= j < i ==> nd.items[j].kv.key < k
    requires i < nd.n ==> k <= nd.items[i].kv.key
    ensures Hit(nd, i, k) <==> HasKey(Entries(nd), k)
  {
    if !Hit(nd, i, k) {
      ScanMiss(Entries(nd), i, k);
    } else {
      assert Entries(nd)[i].key == k;
    }
  }

  /**
   * The hit test as written hits on an empty leaf: a fresh tree's root is
   * a zero-filled leaf, the scan for key 0 stops at slot 0, and the slot's
   * zero key matches although the node holds no entry.  erase then shifts
   * and decrements n to -1.
   */
  lemma FreshLeafHit<V>(d: Params<V>)
    requires Proper(d)
    ensures var nd := ZeroNode(d.slots, d.zero).(leaf := true);
            HitAsWritten(nd, 0, 0) && !Hit(nd, 0, 0) && !HasKey(Entries(nd), 0) && nd.n - 1 < 0
  {
  }

  /** erase on a leaf hit: entry i leaves the leaf, the slots behind it moving down by one. */
  method EraseInLeaf<V>(a: Arena<V>, d: Params<V>, x: int, i: int) returns (a': Arena<V>)
    requires Proper(d) && Heap(a, d) && x in a.store && a.store[x].leaf && 0 <= i < a.store[x].n
    ensures Heap(a', d) && a'.store.Keys == a.store.Keys && Agree(a.store, a'.store, a.store.Keys - {x})
    ensures x in a'.store && a'.store[x].leaf && a'.store[x].n == a.store[x].n - 1
    ensures Entries(a'.store[x]) == Entries(a.store[x])[..i] + Entries(a.store[x])[i + 1..]
  {
    var X := a.store[x];
    var xa := ShiftLeft(X.items, 1, i + 1, X.n);
    Slots.RemoveSlot(X, xa, i);
    var X2 := Node(X.leaf, X.n - 1, xa);
    PoolSet(a.store, d.slots, a.nextId, x, X2);
    a' := a.(store := a.store[x := X2]);
    assert a'.store.Keys == a.store.Keys;
  }

  /**
   * erase on an internal hit at entry i of x: erase_max takes the last
   * entry off child i's subtree and it is pasted over entry i.  x's
   * sequence loses entry i; child i may be one entry short.
   */
  method EraseHit<V>(a: Arena<V>, d: Params<V>, x: int, i: int, ghost h: nat, ghost g: nat)
    returns (a': Arena<V>, ghost q: int)
    requires Proper(d) && 3 <= d.t && Heap(a, d) && Tree(a.store, x, h) && h == g + 1 && 0 <= i < a.store[x].n
    requires Filled(a.store, x, h, d.low, d.maxItems)
    ensures Heap(a', d) && Tree(a'.store, x, h) && a'.store[x].n == a.store[x].n
    ensures RemovedAt(Content(a.store, x, h), Content(a'.store, x, h), Entries(a.store[x])[i].key, q)
    ensures Rewrites(a.store, a'.store, Reach(a.store, x, h), Reach(a'.store, x, h))
    ensures FilledBut(a'.store, x, h, i, d.low, d.maxItems)
  {
    ghost var s := a.store;
    var y := a.store[x].items[i].c;
    ghost var z := Children(s[x])[i + 1];
    assert y == Children(s[x])[i];
    ChildOf(s, x, h, g, i, d.low, d.maxItems);
    EntryIn(s, y, g, 0);
    var a1, p;
    ghost var e;
    a1, p, e := EraseMax(a, d, y, g);
    ghost var s1 := a1.store;
    var m := a1.store[p].items[a1.store[p].n].kv;
    var X1 := a1.store[x];
    assert X1 == s[x];
    Slots.EntrySet(X1, i, m);
    var X2 := X1.(items := X1.items[i := X1.items[i].(kv := m)]);
    PoolSet(a1.store, d.slots, a1.nextId, x, X2);
    a' := a1.(store := a1.store[x := X2]);
    assert a'.store.Keys == s1.Keys;
    assert Pasted(s, s1, a'.store, x, i, e);
    q := ErasePaste(s, s1, a'.store, x, h, g, i, y, z, e, d.low, d.maxItems);
  }

  /**
   * erase on an internal miss: k lies strictly between entries i-1 and i
   * of x, so erase goes on in child i.  x's sequence loses an entry with
   * key k exactly when it holds one; child i may be one entry short.
   */
  method EraseBelow<V>(a: Arena<V>, d: Params<V>, x: int, i: int, k: int, ghost h: nat, ghost g: nat)
    returns (a': Arena<V>, miss: bool, ghost q: int)
    requires Proper(d) && 3 <= d.t && Heap(a, d) && Tree(a.store, x, h) && h == g + 1 && 0 <= i <= a.store[x].n
    requires Sorted(Content(a.store, x, h)) && Filled(a.store, x, h, d.low, d.maxItems)
    requires i > 0 ==> Entries(a.store[x])[i - 1].key < k
    requires i < a.store[x].n ==> k < Entries(a.store[x])[i].key
    decreases h, 0
    ensures Heap(a', d) && Tree(a'.store, x, h) && a'.store[x] == a.store[x]
    ensures miss <==> !HasKey(Content(a.store, x, h), k)
    ensures !miss ==> RemovedAt(Content(a.store, x, h), Content(a'.store, x, h), k, q)
    ensures miss ==> Content(a'.store, x, h) == Content(a.store, x, h)
    ensures Rewrites(a.store, a'.store, Reach(a.store, x, h), Reach(a'.store, x, h))
    ensures FilledBut(a'.store, x, h, i, d.low, d.maxItems)
  {
    ghost var s := a.store;
    var y := a.store[x].items[i].c;
    assert y == Children(s[x])[i];
    ChildOf(s, x, h, g, i, d.low, d.maxItems);
    SortedChild(s, x, h, g, i);
    ghost var q1;
    a', miss, q1 := EraseAt(a, d, y, k, g);
    q := EraseDescent(s, a'.store, x, h, g, i, y, k, q1, d.low, d.maxItems);
  }

  /**
   * erase(x, k): an entry with key k leaves the subtree of x when there is
   * one (miss is search_miss_cnt's increment when there is not), and every
   * node below x stays within bounds: each node on the way back up repairs
   * the pair of children around the one erase went through.
   */
  method EraseAt<V>(a: Arena<V>, d: Params<V>, x: int, k: int, ghost h: nat)
    returns (a': Arena<V>, miss: bool, ghost q: int)
    requires Proper(d) && 3 <= d.t && Heap(a, d) && Tree(a.store, x, h) && Sorted(Content(a.store, x, h))
    requires Filled(a.store, x, h, d.low, d.maxItems) && (h > 0 ==> 1 <= a.store[x].n)
    decreases h, 1
    ensures Heap(a', d) && Tree(a'.store, x, h) && Filled(a'.store, x, h, d.low, d.maxItems)
    ensures Rewrites(a.store, a'.store, Reach(a.store, x, h), Reach(a'.store, x, h))
    ensures a.store[x].n - 1 <= a'.store[x].n <= a.store[x].n
    ensures miss <==> !HasKey(Content(a.store, x, h), k)
    ensures !miss ==> RemovedAt(Content(a.store, x, h), Content(a'.store, x, h), k, q)
    ensures miss ==> Content(a'.store, x, h) == Content(a.store, x, h)
  {
    ghost var s := a.store;
    var X := a.store[x];
    var i := Scan(X, k);
    var a1;
    if Hit(X, i, k) {
      miss := false;
      if X.leaf {
        Leaf(s, x);
        a' := EraseInLeaf(a, d, x, i);
        q := i;
        return;
      }
      a1, q := EraseHit(a, d, x, i, h, h - 1);
    } else {
      if X.leaf {
        Leaf(s, x);
        HitIff(X, i, k);
        a', miss, q := a, true, 0;
        ReachInStore(s, x, h);
        Same(s, Reach(s, x, h));
        return;
      }
      a1, miss, q := EraseBelow(a, d, x, i, k, h, h - 1);
    }
    ghost var s1 := a1.store;
    ghost var m2;
    a', m2 := Fixup(a1, d, x, i, h, h - 1, i);
    Trans(s, s1, a'.store, Reach(s, x, h), Reach(s1, x, h), Reach(a'.store, x, h));
  }

  /** A node of minimum degree 3 (eight slots) whose first two slots are i0 and i1, the rest zero. */
  function Slots8(leaf: bool, n: int, i0: Item<int>, i1: Item<int>): Node<int>
  {
    var z := Item(NULL, KeyVal(0, 0));
    Node(leaf, n, [i0, i1, z, z, z, z, z, z])
  }

  /** Node 1 holds the entry 20 between the leaves 2 (entry 10) and 3 (entry 30). */
  function StaleStore(): Store<int>
  {
    map[1 := Slots8(false, 1, Item(2, KeyVal(20, 0)), Item(3, KeyVal(0, 0))),
        2 := Slots8(true, 1, Item(NULL, KeyVal(10, 0)), Item(NULL, KeyVal(0, 0))),
        3 := Slots8(true, 1, Item(NULL, KeyVal(30, 0)), Item(NULL, KeyVal(0, 0)))]
  }

  /** Node 1 with entry e2 between leaves 2 and 3 is a tree of height 1 holding leaf 2's entries, e2 and leaf 3's entries. */
  lemma {:induction false} TwoLeafTree<V>(s: Store<V>, e2: KeyVal<V>)
    requires 1 in s && 2 in s && 3 in s
    requires !s[1].leaf && s[1].n == 1 && 2 <= |s[1].items| && s[1].items[0] == Item(2, e2) && s[1].items[1].c == 3
    requires s[2].leaf && 0 <= s[2].n < |s[2].items| && s[3].leaf && 0 <= s[3].n < |s[3].items|
    ensures Tree(s, 1, 1) && Content(s, 1, 1) == Entries(s[2]) + [e2] + Entries(s[3]) && Children(s[1]) == [2, 3]
    ensures forall lo, hi :: lo <= s[2].n <= hi && lo <= s[3].n <= hi ==> Filled(s, 1, 1, lo, hi)
  {
    assert Children(s[1]) == [2] + [3] && Entries(s[1]) == [e2];
    Leaf(s, 2);
    Leaf(s, 3);
    ListSingle(s, 2, 0);
    ListSingle(s, 3, 0);
    ListConcat(s, [2], [3], 0);
    Internal(s, 1, 1, 0);
    InterleaveTwo(Entries(s[2]), e2, Entries(s[3]));
    assert Contents(s, [2] + [3], 0) == [Entries(s[2]), Entries(s[3])];
  }

  /**
   * The as-written erase_max, on the tree of StaleStore with minimum
   * degree 3: it keeps the pointer to the last child of node 1, 3, and
   * calls fixup(1, 0), which finds leaf 2 short and the pair small
   * enough, so concate frees child 0 + 1 of node 1, which is 3.  erase_max
   * then descends into the freed node.
   */
  lemma StaleMaxChild()
    ensures var d := Params(3, 2, 5, 1, 8, 0);
            var s := StaleStore();
            Proper(d) && Heap(Arena(s, 4, 3), d) && Tree(s, 1, 1) && Sorted(Content(s, 1, 1)) &&
            Filled(s, 1, 1, d.low, d.maxItems) &&
            Children(s[1]) == [2, 3] && s[1].items[s[1].n].c == 3 &&
            s[2].n < d.minItems && s[2].n + s[3].n < d.maxItems
  {
    var s := StaleStore();
    var e1, e2, e3 := KeyVal(10, 0), KeyVal(20, 0), KeyVal(30, 0);
    TwoLeafTree(s, e2);
    assert Entries(s[2]) == [e1] && Entries(s[3]) == [e3];
    assert s.Keys == {1, 2, 3};
    assert Sorted([e1, e2, e3]);
  }

  // ---------------------------------------------------------------------
  // the lower bound erase keeps
  // ---------------------------------------------------------------------

  /** Node 1 holds the entry 30 between the leaves 2 (entries 10, 20) and 3 (entries 40, 50). */
  function FullPairStore(): Store<int>
  {
    map[1 := Slots8(false, 1, Item(2, KeyVal(30, 0)), Item(3, KeyVal(0, 0))),
        2 := Slots8(true, 2, Item(NULL, KeyVal(10, 0)), Item(NULL, KeyVal(20, 0))),
        3 := Slots8(true, 2, Item(NULL, KeyVal(40, 0)), Item(NULL, KeyVal(50, 0)))]
  }

  /**
   * erase_max lets a leaf fall to t - 2 entries.  On the tree of
   * FullPairStore with minimum degree 3, whose leaves hold t - 1 = 2
   * entries, erase_max(1) first calls fixup(1, 0), which finds both
   * leaves at MIN_ITEMS and changes nothing, and then erase_max(3) drops
   * 50 from leaf 3, which keeps a single entry.  erase_max repairs only
   * before it descends, so nothing on its way back repairs the leaf; when
   * node 1 is the child an internal hit of erase hands to erase_max, the
   * fixup that erase runs afterwards looks at node 1 and its sibling, not
   * at the leaf.
   */
  method ShortLeaf() returns (a': Arena<int>)
    ensures 3 in a'.store && a'.store[3].leaf && a'.store[3].n == 1
    ensures Tree(a'.store, 1, 1) && Children(a'.store[1]) == [2, 3]
    ensures Filled(a'.store, 1, 1, 1, 5) && !Filled(a'.store, 1, 1, 2, 5)
  {
    var d := Params(3, 2, 5, 1, 8, 0);
    var s := FullPairStore();
    FullPair();
    var a1, m2 := Fixup(Arena(s, 4, 3), d, 1, 0, 1, 0, -1);
    FixedNothing(s, a1.store, 1, 0, d.minItems, d.maxItems, m2);
    var p;
    ghost var e;
    a', p, e := EraseMaxLeaf(a1, d, 3);
    ShortPair(a'.store);
  }

  /** The tree of FullPairStore, with minimum degree 3, meets what fixup and erase_max ask of it. */
  lemma FullPair()
    ensures var d, s := Params(3, 2, 5, 1, 8, 0), FullPairStore();
            Proper(d) && Heap(Arena(s, 4, 3), d) && Tree(s, 1, 1) && 1 <= s[1].n &&
            FilledBut(s, 1, 1, -1, d.low, d.maxItems) && Children(s[1]) == [2, 3] &&
            s[2].n == 2 && s[3].n == 2 && Tree(s, 3, 0) && Content(s, 3, 0) != []
  {
    var s := FullPairStore();
    TwoLeafTree(s, KeyVal(30, 0));
    FilledButIff(s, 1, 1, 0, -1, 1, 5);
    Leaf(s, 3);
    assert Entries(s[3]) == [KeyVal(40, 0), KeyVal(50, 0)];
    assert s.Keys == {1, 2, 3};
  }

  /** With leaf 3 down to one entry, the tree of FullPairStore keeps its shape but not MIN_ITEMS. */
  lemma ShortPair(s: Store<int>)
    requires s == FullPairStore()[3 := FullPairStore()[3].(n := 1)]
    ensures Tree(s, 1, 1) && Children(s[1]) == [2, 3]
    ensures Filled(s, 1, 1, 1, 5) && !Filled(s, 1, 1, 2, 5)
  {
    TwoLeafTree(s, KeyVal(30, 0));
    assert s[3].n == 1;
  }

  /** Node 1 holds the entry 20 between the leaves 2 (entry 10) and 3, which holds none. */
  function EmptiedStore(): Store<int>
  {
    map[1 := Slots8(false, 1, Item(2, KeyVal(20, 0)), Item(3, KeyVal(0, 0))),
        2 := Slots8(true, 1, Item(NULL, KeyVal(10, 0)), Item(NULL, KeyVal(0, 0))),
        3 := Slots8(true, 0, Item(NULL, KeyVal(0, 0)), Item(NULL, KeyVal(0, 0)))]
  }

  /**
   * With minimum degree 2 the t - 2 bound is 0: a leaf such as leaf 3 of
   * EmptiedStore, left empty by erase_max as in ShortLeaf, is in bounds.
   * When erase_max then passes node 1, fixup(1, 0) finds leaf 3 short and
   * the pair small, and concate leaves node 1, an internal node, with no
   * entry.  The next fixup on node 1 clamps its index to -1, a child that
   * does not exist.
   */
  method EmptiedNode() returns (a': Arena<int>)
    ensures 1 in a'.store && !a'.store[1].leaf && a'.store[1].n == 0
    ensures FixIndex(a'.store[1].n, 0) == -1 && FixIndex(a'.store[1].n, a'.store[1].n - 1) == -1
  {
    var d := Params(2, 1, 3, 0, 8, 0);
    var s := EmptiedStore();
    TwoLeafTree(s, KeyVal(20, 0));
    FilledButIff(s, 1, 1, 0, -1, d.low, d.maxItems);
    assert s.Keys == {1, 2, 3};
    assert Children(s[1]) == [2, 3] && Entries(s[1]) == [KeyVal(20, 0)];
    ghost var m2;
    a', m2 := Fixup(Arena(s, 4, 3), d, 1, 0, 1, 0, -1);
    assert Entries(a'.store[1]) == [];
  }

  // ---------------------------------------------------------------------
  // erase at the root: the root strip
  // ---------------------------------------------------------------------

  /** The root strip of erase as written: a root without entries is freed and its first pointer becomes the root. */
  function StripAsWritten<V>(a: Arena<V>, r: int): (res: (Arena<V>, int))
    requires r in a.store && 0 <= a.store[r].n < |a.store[r].items|
  {
    if a.store[r].n == 0 then (Arena(a.store - {r}, a.nextId, a.nodeCount - 1), a.store[r].items[0].c)
    else (a, r)
  }

  /**
   * The strip as written loses the tree when the last entry leaves a leaf
   * root: the root is freed and the new root is whatever its first slot
   * names, which is no node of the heap.
   */
  lemma StripLosesRoot<V>(a: Arena<V>, d: Params<V>, r: int)
    requires Heap(a, d) && a.store.Keys == {r} && a.store[r].leaf && a.store[r].n == 0
    ensures StripAsWritten(a, r).1 !in StripAsWritten(a, r).0.store
    ensures StripAsWritten(a, r).0.store == map[]
  {
    assert (a.store - {r}).Keys == {};
  }

  /**
   * The root strip erase means: an internal root left without entries is
   * freed and its only child becomes the root, the tree losing a level; a
   * leaf root stays, empty or not.  The tree keeps its sequence and fills
   * its heap, and the root stays within the bounds.
   */
  method StripRoot<V>(a: Arena<V>, d: Params<V>, r: int, ghost h: nat) returns (a': Arena<V>, r': int, ghost h': nat)
    requires Proper(d) && 3 <= d.t && Heap(a, d) && Tree(a.store, r, h) && a.store.Keys == Reach(a.store, r, h)
    requires Filled(a.store, r, h, d.low, d.maxItems) && a.store[r].n <= d.maxItems
    ensures Rooted(a', d, r', h') && h' <= h <= h' + 1 && Content(a'.store, r', h') == Content(a.store, r, h)
    ensures a.store[r].leaf ==> a' == a && r' == r
  {
    if a.store[r].n == 0 && !a.store[r].leaf {
      r' := a.store[r].items[0].c;
      h' := h - 1;
      assert Children(a.store[r])[0] == r';
      a' := FreeNode(a, d, r);
      RootShrink(a.store, a'.store, r, h, h');
    } else {
      a', r', h' := a, r, h;
    }
  }

  /**
   * erase(k) on the tree of root r: an entry with key k leaves the tree's
   * sequence when there is one; an internal root left without entries is
   * then dropped for its only child, the tree losing a level.
   */
  method Erase<V>(a: Arena<V>, d: Params<V>, r: int, k: int, ghost h: nat)
    returns (a': Arena<V>, r': int, ghost h': nat, miss: bool, ghost q: int)
    requires Proper(d) && 3 <= d.t && Rooted(a, d, r, h) && Sorted(Content(a.store, r, h))
    ensures Rooted(a', d, r', h') && h' <= h <= h' + 1
    ensures miss <==> !HasKey(Content(a.store, r, h), k)
    ensures !miss ==> RemovedAt(Content(a.store, r, h), Content(a'.store, r', h'), k, q)
    ensures miss ==> Content(a'.store, r', h') == Content(a.store, r, h)
  {
    var a1;
    a1, miss, q := EraseAt(a, d, r, k, h);
    a', r', h' := StripRoot(a1, d, r, h);
  }
}
