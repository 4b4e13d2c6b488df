/**
 * The node procedures of the persistent B-tree (btree-db.cpp): the same
 * split_child, insert and insert_nonfull as the in-memory tree, but with
 * nodes addressed by page index and allocated on the page store, so that
 * an allocation can fail; and the read-only walks item_count,
 * search_max and search_min.
 *
 * The nodes are a store from page index to node (the payloads of the
 * pages); the page store is the DiskMap object, whose bitmap and page
 * headers the procedures change through allocate and dealloc.  Owns ties
 * the two together: every stored node sits on a page that is marked in
 * the bitmap and whose header names the page itself.
 */
module DbCore {
  import opened Nodes
  import opened TreeModel
  import opened Steps
  import opened Order
  import opened Frames
  import opened Descent
  import opened Layout
  import opened Bits
  import opened PageStore
  import opened MemCore

  // ---------------------------------------------------------------------
  // fan-out
  // ---------------------------------------------------------------------

  /**
   * The constructor's constants: n_item = (4K - sizeof(node)) / sizeof(item)
   * items fit behind the node record, max_items_count is n_item, and t is
   * half of it.  The node record holds one item itself, so a node has
   * n_item + 1 slots.
   */
  function FanOut<V>(nodeSize: int, itemSize: int, zero: V): (d: Params<V>)
    requires 0 < itemSize <= nodeSize < SZ_4K
    ensures d.t == (SZ_4K - nodeSize) / itemSize / 2 && d.slots == (SZ_4K - nodeSize) / itemSize + 1
    ensures d.minItems == d.t - 1 && d.maxItems == 2 * d.t - 1
  {
    var nItem := (SZ_4K - nodeSize) / itemSize;
    var t := nItem / 2;
    Params(t, t - 1, 2 * t - 1, t - 2, nItem + 1, zero)
  }

  /**
   * With room for four items behind the node record, the derived constants
   * make a B-tree (t >= 2, 2t + 1 slots at least), and when an item is
   * no smaller than the page's inode header, the slots 0 .. 2t - 1 that
   * split_child and insert_nonfull touch end inside the page, behind the
   * header that opens it.
   */
  lemma FanOutFits<V>(nodeSize: int, itemSize: int, zero: V)
    requires 0 < itemSize <= nodeSize && 4 * itemSize <= SZ_4K - nodeSize
    ensures Proper(FanOut(nodeSize, itemSize, zero))
    ensures var d := FanOut(nodeSize, itemSize, zero);
            INODE_SIZE <= itemSize ==> INODE_SIZE + nodeSize + (2 * d.t - 1) * itemSize <= SZ_4K
  {
    var nItem := (SZ_4K - nodeSize) / itemSize;
    var t := nItem / 2;
    assert 4 <= nItem;
    assert nodeSize + nItem * itemSize <= SZ_4K;
    assert (2 * t - 1) * itemSize <= nItem * itemSize - itemSize;
  }

  // ---------------------------------------------------------------------
  // nodes on pages
  // ---------------------------------------------------------------------

  /**
   * The nodes s live on the page store whose bitmap is bits and whose
   * page headers are pages: each node's page is a page of the store
   * (not page 0), marked in use, headed {4K, its own index}, and the node
   * has cap slots.
   */
  ghost predicate Owns<V>(bits: seq<u32>, pages: seq<Inode>, s: Store<V>, cap: int)
  {
    |bits| == WORDS && |pages| == PAGES &&
    forall y :: y in s ==> 0 < y < PAGES && Used(bits, y) && pages[y] == Inode(SZ_4K, y) && Sized(s[y], cap)
  }

  /** The page store is loaded and the nodes s live on it. */
  ghost predicate OnDisk<V>(dm: DiskMap, s: Store<V>, cap: int)
    reads dm, dm.bitmap, dm.pages
  {
    dm.Valid() && Owns(dm.bitmap[..], dm.pages[..], s, cap)
  }

  /** Dropping nodes, or rewriting nodes in place, keeps them on their pages. */
  lemma OwnsSubset<V>(bits: seq<u32>, pages: seq<Inode>, s: Store<V>, s': Store<V>, cap: int)
    requires Owns(bits, pages, s, cap) && s'.Keys <= s.Keys
    requires forall y :: y in s' ==> Sized(s'[y], cap)
    ensures Owns(bits, pages, s', cap)
  {
  }

  /**
   * allocate_inode marking the free page idx and heading it: the nodes
   * stay on their pages, and a node stored at idx is on its page too.
   */
  lemma OwnsMark<V>(bits: seq<u32>, pages: seq<Inode>, s: Store<V>, cap: int, idx: int, nd: Node<V>)
    requires Owns(bits, pages, s, cap) && 0 < idx < PAGES && !Used(bits, idx)
    ensures Owns(SetBit(bits, idx), pages[idx := Inode(SZ_4K, idx)], s, cap)
    ensures Sized(nd, cap) ==> Owns(SetBit(bits, idx), pages[idx := Inode(SZ_4K, idx)], s[idx := nd], cap)
  {
  }

  /** dealloc_inode freeing a page that holds no node leaves the nodes on their pages. */
  lemma OwnsFree<V>(bits: seq<u32>, pages: seq<Inode>, s: Store<V>, cap: int, idx: int)
    requires Owns(bits, pages, s, cap) && 0 < idx < PAGES && idx !in s
    ensures Owns(ClearBit(bits, idx), pages[idx := Inode(0, 0)], s, cap)
  {
  }

  /**
   * The persistent tree of root r and height h: a tree occupying exactly
   * the stored nodes, each node below the root holding MIN_ITEMS ..
   * MAX_ITEMS entries, the root at most MAX_ITEMS and, when internal, at
   * least one.
   */
  ghost predicate Shaped<V>(s: Store<V>, d: Params<V>, r: int, h: nat)
  {
    Tree(s, r, h) && s.Keys == Reach(s, r, h) && Filled(s, r, h, d.minItems, d.maxItems) &&
    s[r].n <= d.maxItems && (h > 0 ==> 1 <= s[r].n)
  }

  // ---------------------------------------------------------------------
  // allocate_node, split_child
  // ---------------------------------------------------------------------

  /**
   * allocate_node: a zero-filled node on the page allocate hands out, or
   * NULL.  The page is the lowest free one; the call fails when node_count
   * has reached max_node_count, when every page is in use, or when the
   * lowest free page is the one handed out last.
   */
  method AllocateNode<V>(dm: DiskMap, s: Store<V>, d: Params<V>) returns (s': Store<V>, x: int, ghost idx: int)
    requires Proper(d) && OnDisk(dm, s, d.slots)
    modifies dm, dm.bitmap, dm.pages
    ensures OnDisk(dm, s', d.slots)
    ensures dm.Allocated(if x == NULL then None else GetInode(x), idx)
    ensures dm.hdr.rootNodeIndex == old(dm.hdr.rootNodeIndex)
    ensures x == NULL ==> s' == s
    ensures x != NULL ==> x !in s && s' == s[x := ZeroNode(d.slots, d.zero)] && FirstFree(old(dm.bitmap[..]), x)
    ensures x == NULL <==> old(dm.hdr.nodeCount) >= old(dm.hdr.maxNodeCount) || Full(old(dm.bitmap[..])) ||
                           FirstFree(old(dm.bitmap[..]), old(dm.lastIdx))
  {
    ghost var B, P := dm.bitmap[..], dm.pages[..];
    var p;
    p, idx := dm.Allocate();
    if p.Some? {
      x := dm.Payload2Index(p.value);
      s' := s[x := ZeroNode(d.slots, d.zero)];
      OwnsMark(B, P, s, d.slots, x, ZeroNode(d.slots, d.zero));
    } else {
      x, s' := NULL, s;
      if idx != -1 {
        OwnsMark(B, P, s, d.slots, idx, ZeroNode(d.slots, d.zero));
        if FirstFree(B, old(dm.lastIdx)) {
          FirstFreeOnce(B, idx, old(dm.lastIdx));
        }
      }
    }
  }

  /**
   * split_child: the full child y, which x's pointer i names, moves its
   * upper half into a new node z and its middle entry up into x at
   * position i.  When no page can be allocated for z, NULL is returned
   * before x or y is touched.
   */
  method SplitChild<V>(dm: DiskMap, s: Store<V>, d: Params<V>, x: int, i: int, y: int)
    returns (s': Store<V>, z: int, ghost idx: int)
    requires Proper(d) && OnDisk(dm, s, d.slots)
    requires x in s && y in s && x != y && 0 <= i <= s[x].n < d.maxItems && s[y].n == d.maxItems
    requires Children(s[x])[i] == y
    modifies dm, dm.bitmap, dm.pages
    ensures OnDisk(dm, s', d.slots)
    ensures dm.Allocated(if z == NULL then None else GetInode(z), idx)
    ensures dm.hdr.rootNodeIndex == old(dm.hdr.rootNodeIndex)
    ensures z == NULL ==> s' == s
    ensures z != NULL ==> z !in s && s'.Keys == s.Keys + {z} && Agree(s, s', s.Keys - {x, y}) &&
                          SplitHalves(s, s', y, z, d.t) &&
                          s'[y].n == d.minItems && s'[z].n == d.minItems &&
                          s'[x].leaf == s[x].leaf && s'[x].n == s[x].n + 1 &&
                          Children(s'[x]) == Children(s[x])[..i] + [y, z] + Children(s[x])[i + 1..] &&
                          Entries(s'[x]) == Entries(s[x])[..i] + [Entries(s[y])[d.t - 1]] + Entries(s[x])[i..]
  {
    var s1;
    s1, z, idx := AllocateNode(dm, s, d);
    if z != NULL {
      s' := SplitInto(s1, d, x, i, y, z);
      forall w | w in s'
        ensures Sized(s'[w], d.slots)
      {
        if w !in {x, y, z} {
          assert s'[w] == s1[w];
        }
      }
      OwnsSubset(dm.bitmap[..], dm.pages[..], s1, s', d.slots);
    } else {
      s' := s;
    }
  }

  /**
   * split_child of the full child i = y of x, read on the tree: when it
   * succeeds, x keeps its in-order sequence, gains the middle entry m of
   * y at position i, and its children i and i+1 are the two halves.
   */
  method SplitFull<V>(dm: DiskMap, s: Store<V>, d: Params<V>, x: int, i: int, y: int, ghost h: nat, ghost g: nat)
    returns (s': Store<V>, ok: bool, ghost m: KeyVal<V>)
    requires Proper(d) && OnDisk(dm, s, d.slots)
    requires Tree(s, x, h) && h == g + 1 && 0 <= i <= s[x].n < d.maxItems
    requires y == Children(s[x])[i] && y in s && s[y].n == d.maxItems
    requires Filled(s, x, h, d.minItems, d.maxItems)
    modifies dm, dm.bitmap, dm.pages
    ensures OnDisk(dm, s', d.slots)
    ensures dm.hdr.rootNodeIndex == old(dm.hdr.rootNodeIndex)
    ensures ok ==> SplitDone(s, s', x, h, i, m, d.minItems, d.maxItems, d.minItems)
    ensures !ok ==> s' == s
  {
    ChildOf(s, x, h, g, i, d.minItems, d.maxItems);
    m := Entries(s[y])[d.t - 1];
    var z;
    ghost var idx;
    s', z, idx := SplitChild(dm, s, d, x, i, y);
    ok := z != NULL;
    if ok {
      SplitFullDone(s, s', d, x, h, g, i, y, z, m, d.minItems);
    }
  }

  // ---------------------------------------------------------------------
  // insert, insert_nonfull
  // ---------------------------------------------------------------------

  /**
   * The first half of insert_nonfull on an internal node: the scan down
   * to the child whose neighbouring keys bracket kv's, and the split of
   * that child when it is full.  When the split finds no page, nothing
   * has changed.
   */
  method PrepareChild<V>(dm: DiskMap, s: Store<V>, d: Params<V>, x: int, kv: KeyVal<V>, ghost h: nat, ghost g: nat)
    returns (s': Store<V>, i: int, ok: bool)
    requires Proper(d) && OnDisk(dm, s, d.slots) && Tree(s, x, h) && h == g + 1
    requires s[x].n < d.maxItems && Filled(s, x, h, d.minItems, d.maxItems)
    modifies dm, dm.bitmap, dm.pages
    ensures OnDisk(dm, s', d.slots) && dm.hdr.rootNodeIndex == old(dm.hdr.rootNodeIndex)
    ensures !ok ==> s' == s
    ensures ok ==> Prepared(s, s', x, h, i, kv.key, d.minItems, d.maxItems)
  {
    var X := s[x];
    i := ChildSlot(X, kv.key);
    var y := X.items[i].c;
    assert y == Children(X)[i];
    ChildOf(s, x, h, g, i, d.minItems, d.maxItems);
    if s[y].n >= d.maxItems {
      ghost var m;
      s', ok, m := SplitFull(dm, s, d, x, i, y, h, g);
      if ok {
        SplitChoice(s, s', x, h, i, m, d.minItems, d.maxItems, d.minItems, kv.key,
                    if kv.key > m.key then i + 1 else i);
        if kv.key > s'[x].items[i].kv.key {
          i := i + 1;
        }
      }
    } else {
      s', ok := s, true;
      KeepChoice(s, x, h, i, kv.key, d.minItems, d.maxItems);
    }
  }

  /**
   * insert_nonfull stopping below x at a split that found no page: the
   * subtree of child i, split on the way or not, kept its sequence, and so
   * does x's.
   */
  lemma {:induction false} KeepDescent<V>(s0: Store<V>, s1: Store<V>, s2: Store<V>, x: int, h: nat, g: nat, i: int,
                                          y: int, lo: int, hi: int)
    requires Tree(s0, x, h) && Tree(s1, x, h) && Content(s1, x, h) == Content(s0, x, h)
    requires Rewrites(s0, s1, Reach(s0, x, h), Reach(s1, x, h))
    requires h == g + 1 && 0 <= i <= s1[x].n && y == Children(s1[x])[i] && Wf(s1, y, g)
    requires Tree(s2, y, g) && Rewrites(s1, s2, Reach(s1, y, g), Reach(s2, y, g))
    requires Content(s2, y, g) == Content(s1, y, g)
    requires Filled(s1, x, h, lo, hi) && lo <= s2[y].n <= hi && Filled(s2, y, g, lo, hi)
    ensures x in s2 && s2[x] == s1[x] && Tree(s2, x, h)
    ensures Content(s2, x, h) == Content(s0, x, h)
    ensures Rewrites(s0, s2, Reach(s0, x, h), Reach(s2, x, h))
    ensures Filled(s2, x, h, lo, hi)
  {
    ChildOf(s1, x, h, g, i, lo, hi);
    ReplaceChild(s1, s2, x, h, g, i, lo, hi);
    ContentAt(s1, x, h, g, i);
    Widen(s1, s2, Reach(s1, x, h), Reach(s1, y, g), Reach(s2, y, g));
    FilledButIff(s2, x, h, g, i, lo, hi);
    Trans(s0, s1, s2, Reach(s0, x, h), Reach(s1, x, h), Reach(s2, x, h));
  }

  /**
   * insert_nonfull with the failed split handled: kv goes into the
   * subtree of x, which has room for it, a full child being split on the
   * way down.  On success the subtree's sequence gains kv at a position p
   * between a key not above kv's and a key not below it; when a split
   * finds no page, the descent stops there and the sequence is unchanged.
   */
  method InsertNonfull<V>(dm: DiskMap, s: Store<V>, d: Params<V>, x: int, kv: KeyVal<V>, ghost h: nat)
    returns (s': Store<V>, ok: bool, ghost p: int)
    requires Proper(d) && OnDisk(dm, s, d.slots) && Tree(s, x, h)
    requires s[x].n < d.maxItems && Filled(s, x, h, d.minItems, d.maxItems)
    modifies dm, dm.bitmap, dm.pages
    decreases h
    ensures OnDisk(dm, s', d.slots) && dm.hdr.rootNodeIndex == old(dm.hdr.rootNodeIndex)
    ensures Tree(s', x, h) && Rewrites(s, s', Reach(s, x, h), Reach(s', x, h))
    ensures s[x].n <= s'[x].n <= s[x].n + 1
    ensures Filled(s', x, h, d.minItems, d.maxItems)
    ensures ok ==> InsertedAt(Content(s, x, h), Content(s', x, h), kv, p)
    ensures !ok ==> Content(s', x, h) == Content(s, x, h)
  {
    if s[x].leaf {
      var r, q := LeafInsert(s[x], kv);
      s' := s[x := r];
      OwnsSubset(dm.bitmap[..], dm.pages[..], s[x := r], s', d.slots);
      ok, p := true, q;
      Leaf(s, x);
      Leaf(s', x);
      Local(s, s', {x}, {x}, {x});
    } else {
      ghost var g := h - 1;
      var s1, i, found := PrepareChild(dm, s, d, x, kv, h, g);
      if !found {
        s', ok, p := s1, false, 0;
        ReachInStore(s, x, h);
        Same(s, Reach(s, x, h));
      } else {
        var y := s1[x].items[i].c;
        assert y == Children(s1[x])[i];
        ChildOf(s1, x, h, g, i, d.minItems, d.maxItems);
        ghost var q;
        s', ok, q := InsertNonfull(dm, s1, d, y, kv, g);
        if ok {
          p := InsertFinish(s, s1, s', x, h, g, i, y, kv, q, d.minItems, d.maxItems);
        } else {
          p := 0;
          KeepDescent(s, s1, s', x, h, g, i, y, d.minItems, d.maxItems);
        }
      }
    }
  }

  /**
   * free_node: the node leaves the store and its page is handed back, its
   * bit cleared and its header zeroed.
   */
  method FreeNode<V>(dm: DiskMap, s: Store<V>, d: Params<V>, x: int) returns (s': Store<V>)
    requires OnDisk(dm, s, d.slots) && x in s
    modifies dm, dm.bitmap, dm.pages
    ensures OnDisk(dm, s', d.slots) && s' == s - {x}
    ensures dm.hdr == old(dm.hdr).(nodeCount := Dec32(old(dm.hdr.nodeCount)))
    ensures dm.bitmap[..] == ClearBit(old(dm.bitmap[..]), x) && dm.pages[..] == old(dm.pages[..])[x := Inode(0, 0)]
  {
    ghost var B, P := dm.bitmap[..], dm.pages[..];
    s' := s - {x};
    OwnsSubset(B, P, s, s', d.slots);
    var loc := GetInode(x).value;
    assert dm.pages[Slot(loc)] == P[x];
    var res := dm.Dealloc(loc);
    OwnsFree(B, P, s', d.slots, x);
  }

  /**
   * The node work of insert's full-root branch: a new internal node x,
   * whose first pointer names the full root r, takes r's middle entry
   * between r and the new node z.  Without a page for x nothing changes;
   * without a page for z, x is freed again and the store is as it was.
   */
  method RootSplit<V>(dm: DiskMap, s: Store<V>, d: Params<V>, r: int) returns (s': Store<V>, x: int, ghost z: int)
    requires Proper(d) && OnDisk(dm, s, d.slots) && r in s && s[r].n == d.maxItems
    modifies dm, dm.bitmap, dm.pages
    ensures OnDisk(dm, s', d.slots) && dm.hdr.rootNodeIndex == old(dm.hdr.rootNodeIndex)
    ensures x == NULL ==> s' == s
    ensures x != NULL ==> x !in s && z !in s && x != z && s'.Keys == s.Keys + {x, z} &&
                          Agree(s, s', s.Keys - {r}) &&
                          x in s' && !s'[x].leaf && 0 <= s'[x].n < |s'[x].items| &&
                          SplitHalves(s, s', r, z, d.t) &&
                          Children(s'[x]) == [r, z] && Entries(s'[x]) == [Entries(s[r])[d.t - 1]]
  {
    ghost var idx;
    var s1, x1;
    s1, x1, idx := AllocateNode(dm, s, d);
    if x1 == NULL {
      s', x, z := s, NULL, NULL;
    } else {
      var S := s1[x1];
      S := S.(leaf := false, n := 0, items := S.items[0 := S.items[0].(c := r)]);
      var s2 := s1[x1 := S];
      Fresh(s, x1, s1[x1], S);
      OwnsSubset(dm.bitmap[..], dm.pages[..], s1, s2, d.slots);
      assert Children(s2[x1]) == [r] && Entries(s2[x1]) == [];
      var s3, z1;
      s3, z1, idx := SplitChild(dm, s2, d, x1, 0, r);
      if z1 == NULL {
        s' := FreeNode(dm, s2, d, x1);
        x, z := NULL, NULL;
      } else {
        s', x, z := s3, x1, z1;
        RootSplitDone(s, s2, s', d, r, x, z);
      }
    }
  }

  /** A node added under a fresh index and then rewritten leaves the other nodes alone and can be dropped again. */
  lemma Fresh<V>(s: Store<V>, x: int, A: Node<V>, B: Node<V>)
    requires x !in s
    ensures s[x := A][x := B].Keys == s.Keys + {x} && Agree(s, s[x := A][x := B], s.Keys)
    ensures s[x := A][x := B][x] == B && s[x := A][x := B] - {x} == s
  {
    assert s[x := A][x := B] == s[x := B];
  }

  /** A split of r under the new empty node x, made in s2, is seen from s as the grown root's halves. */
  lemma RootSplitDone<V>(s: Store<V>, s2: Store<V>, s3: Store<V>, d: Params<V>, r: int, x: int, z: int)
    requires Proper(d) && r in s && 0 <= s[r].n < |s[r].items| && s[r].n == d.maxItems
    requires x !in s && s2.Keys == s.Keys + {x} && Agree(s, s2, s.Keys)
    requires Sized(s2[x], d.slots) && s2[x].n == 0 && Children(s2[x]) == [r] && x in s3 && Sized(s3[x], d.slots)
    requires z !in s2 && s3.Keys == s2.Keys + {z} && Agree(s2, s3, s2.Keys - {x, r}) &&
             SplitHalves(s2, s3, r, z, d.t) &&
             s3[x].leaf == s2[x].leaf && s3[x].n == s2[x].n + 1 &&
             Children(s3[x]) == Children(s2[x])[..0] + [r, z] + Children(s2[x])[1..] &&
             Entries(s3[x]) == Entries(s2[x])[..0] + [Entries(s2[r])[d.t - 1]] + Entries(s2[x])[0..]
    ensures x !in s && z !in s && x != z && s3.Keys == s.Keys + {x, z} &&
            Agree(s, s3, s.Keys - {r}) &&
            x in s3 && s3[x].leaf == s2[x].leaf && 0 <= s3[x].n < |s3[x].items| &&
            SplitHalves(s, s3, r, z, d.t) &&
            Children(s3[x]) == [r, z] && Entries(s3[x]) == [Entries(s[r])[d.t - 1]]
  {
    assert s2[r] == s[r];
    assert Children(s2[x])[1..] == [] && Entries(s2[x]) == [];
  }

  /** The tree grown by RootSplit is a persistent tree one level higher with the same sequence. */
  lemma GrowShaped<V>(s: Store<V>, s': Store<V>, d: Params<V>, r: int, h: nat, h': nat, x: int, z: int)
    requires Proper(d) && Shaped(s, d, r, h) && s[r].n == d.maxItems && h' == h + 1
    requires x !in s && z !in s && x != z && s'.Keys == s.Keys + {x, z} && Agree(s, s', s.Keys - {r})
    requires x in s' && !s'[x].leaf && 0 <= s'[x].n < |s'[x].items|
    requires SplitHalves(s, s', r, z, d.t)
    requires Children(s'[x]) == [r, z] && Entries(s'[x]) == [Entries(s[r])[d.t - 1]]
    ensures Shaped(s', d, x, h') && Content(s', x, h') == Content(s, r, h) && s'[x].n == 1
  {
    RootGrow(s, s', r, h, h', x, z, d.t, d.minItems, d.maxItems);
  }

  /**
   * The full-root branch of insert: the tree grows one level under the
   * new root x and keeps its sequence, or, when a page cannot be had,
   * stays as it is.
   */
  method GrowRoot<V>(dm: DiskMap, s: Store<V>, d: Params<V>, r: int, ghost h: nat, ghost h': nat)
    returns (s': Store<V>, x: int)
    requires Proper(d) && OnDisk(dm, s, d.slots) && Shaped(s, d, r, h) && s[r].n == d.maxItems && h' == h + 1
    modifies dm, dm.bitmap, dm.pages
    ensures OnDisk(dm, s', d.slots) && dm.hdr.rootNodeIndex == old(dm.hdr.rootNodeIndex)
    ensures x == NULL ==> s' == s
    ensures x != NULL ==> Shaped(s', d, x, h') && Content(s', x, h') == Content(s, r, h) && s'[x].n == 1
  {
    ghost var z;
    s', x, z := RootSplit(dm, s, d, r);
    if x != NULL {
      GrowShaped(s, s', d, r, h, h', x, z);
    }
  }

  /** insert_nonfull on the root of a persistent tree leaves a persistent tree. */
  lemma NonfullShaped<V>(s: Store<V>, s': Store<V>, d: Params<V>, r: int, h: nat)
    requires Proper(d) && Shaped(s, d, r, h) && s[r].n < d.maxItems
    requires Tree(s', r, h) && Rewrites(s, s', Reach(s, r, h), Reach(s', r, h))
    requires s[r].n <= s'[r].n <= s[r].n + 1 && Filled(s', r, h, d.minItems, d.maxItems)
    ensures Shaped(s', d, r, h)
  {
  }

  /**
   * insert with the out-of-storage cases handled: a full root first grows
   * the tree a level, and the new root's page index is recorded in the
   * superblock.  On success the tree's sequence gains kv at a position p
   * between a key not above kv's and a key not below it; when a page
   * cannot be had, the sequence is unchanged.
   */
  method Insert<V>(dm: DiskMap, s: Store<V>, d: Params<V>, r: int, kv: KeyVal<V>, ghost h: nat)
    returns (s': Store<V>, r': int, ghost h': nat, ok: bool, ghost p: int)
    requires Proper(d) && OnDisk(dm, s, d.slots) && Shaped(s, d, r, h) && dm.hdr.rootNodeIndex == r
    modifies dm, dm.bitmap, dm.pages
    ensures OnDisk(dm, s', d.slots) && Shaped(s', d, r', h') && dm.hdr.rootNodeIndex == r'
    ensures h <= h' <= h + 1
    ensures ok ==> InsertedAt(Content(s, r, h), Content(s', r', h'), kv, p)
    ensures !ok ==> Content(s', r', h') == Content(s, r, h)
  {
    var s1 := s;
    r', h' := r, h;
    var grown := true;
    if s[r].n >= d.maxItems {
      var x;
      s1, x := GrowRoot(dm, s, d, r, h, h + 1);
      if x == NULL {
        grown := false;
      } else {
        var loc := GetInode(x).value;
        assert dm.pages[Slot(loc)] == dm.pages[..][x];
        dm.hdr := dm.hdr.(rootNodeIndex := dm.Payload2Index(loc));
        r', h' := x, h + 1;
      }
    }
    if grown {
      s', ok, p := InsertNonfull(dm, s1, d, r', kv, h');
      NonfullShaped(s1, s', d, r', h');
    } else {
      s', ok, p := s, false, 0;
    }
  }

  // ---------------------------------------------------------------------
  // height
  // ---------------------------------------------------------------------

  /**
   * height() as written: 1 + height(root), where height(x) reads the page
   * named by x's first pointer through disk_read before it asks whether x
   * is a leaf.  No leaf's first pointer is ever set, so on a leaf root it
   * is 0, read(0) gives NULL, and height(x) dereferences it: a result
   * exists only for an internal root.
   */
  function HeightAsWritten<V>(s: Store<V>, r: int, ghost h: nat): (n: Option<nat>)
    requires Wf(s, r, h) && (s[r].leaf ==> s[r].items[0].c == NULL)
    requires forall y :: y in s ==> 0 < y < PAGES
    ensures n.Some? <==> h > 0
    ensures n.Some? ==> n.value == MemCore.Height(s, r, h)
  {
    var c := s[r].items[0].c;
    assert h > 0 ==> c in s by {
      if h > 0 {
        KidsAt(s, r, h, h - 1, 0);
      }
    }
    if Read(c).None? then None else Some(1 + SubHeight(s, r, h))
  }

  /**
   * The tree a new btree starts with is a zero-filled leaf on a page of
   * its own: height() as written reads page 0 there, which read refuses.
   */
  lemma FreshHeight<V>(d: Params<V>, x: int)
    requires Proper(d) && 0 < x < PAGES
    ensures var s := map[x := ZeroNode(d.slots, d.zero).(leaf := true)];
            Wf(s, x, 0) && s[x].items[0].c == NULL && Read(s[x].items[0].c).None? &&
            HeightAsWritten(s, x, 0).None? && MemCore.Height(s, x, 0) == 1
  {
    var s := map[x := ZeroNode(d.slots, d.zero).(leaf := true)];
    Leaf(s, x);
  }

  // ---------------------------------------------------------------------
  // item_count, search_max, search_min
  // ---------------------------------------------------------------------

  /**
   * item_count: x's own entries plus, on an internal node, the counts of
   * its n + 1 children read one after the other: the length of the
   * subtree's sequence.
   */
  method ItemCount<V>(s: Store<V>, x: int, ghost h: nat) returns (cnt: int)
    requires Wf(s, x, h)
    decreases h
    ensures cnt == |Content(s, x, h)|
  {
    cnt := s[x].n;
    if s[x].leaf {
      Leaf(s, x);
      return;
    }
    ghost var g := h - 1;
    ghost var K := Kids(s, x, h);
    var i := 0;
    while i <= s[x].n
      invariant 0 <= i <= s[x].n + 1
      invariant cnt == s[x].n + TotalLength(K[..i])
    {
      KidsAt(s, x, h, g, i);
      var c := ItemCount(s, s[x].items[i].c, g);
      assert K[..i + 1] == K[..i] + [K[i]];
      TotalLengthAppend(K[..i], K[i]);
      cnt := cnt + c;
      i := i + 1;
    }
    assert K[..i] == K;
    InterleaveLength(K, Entries(s[x]));
  }

  /**
   * search_max on pages: NULL for a node without entries, the node itself
   * for a leaf, otherwise the search goes on in the last child.  A last
   * child naming its own parent would be reported as an invalid node; in a
   * tree that never happens.  The leaf found holds entries that end the
   * subtree's sequence, and in a filled tree NULL comes back exactly when
   * the root holds nothing.
   */
  method SearchMax<V>(s: Store<V>, x: int, ghost h: nat, ghost lo: int, ghost hi: int) returns (r: int, invalid: bool)
    requires Tree(s, x, h) && NULL !in s
    decreases h
    ensures !invalid
    ensures r != NULL ==> r in s && s[r].leaf && 1 <= s[r].n < |s[r].items| &&
                          EndsWith(Content(s, x, h), Entries(s[r]))
    ensures (h > 0 ==> 1 <= s[x].n) && Filled(s, x, h, lo, hi) && 1 <= lo ==> (r == NULL <==> s[x].n == 0)
  {
    if x == NULL || s[x].n == 0 {
      return NULL, false;
    }
    if s[x].leaf {
      Leaf(s, x);
      assert Content(s, x, h)[|Content(s, x, h)| - |Entries(s[x])|..] == Entries(s[x]);
      return x, false;
    }
    ghost var g := h - 1;
    var y := s[x].items[s[x].n].c;
    LastBlock(s, x, h, g);
    ChildOf(s, x, h, g, s[x].n, lo, hi);
    assert y == Children(s[x])[s[x].n] && y in Reach(s, y, g);
    if y == x {
      assert false;
      r, invalid := NULL, true;
    } else {
      r, invalid := SearchMax(s, y, g, lo, hi);
      if r != NULL {
        EndsWithAfter(Pre(Kids(s, x, h), Entries(s[x]), s[x].n), Content(s, y, g), Entries(s[r]));
      }
    }
  }

  /**
   * search_min on pages: NULL for a node without entries, the node itself
   * for a leaf, otherwise the search goes on in the first child.  The leaf
   * found holds entries that begin the subtree's sequence.
   */
  method SearchMin<V>(s: Store<V>, x: int, ghost h: nat, ghost lo: int, ghost hi: int) returns (r: int)
    requires Tree(s, x, h) && NULL !in s
    decreases h
    ensures r != NULL ==> r in s && s[r].leaf && 1 <= s[r].n < |s[r].items| &&
                          StartsWith(Content(s, x, h), Entries(s[r]))
    ensures (h > 0 ==> 1 <= s[x].n) && Filled(s, x, h, lo, hi) && 1 <= lo ==> (r == NULL <==> s[x].n == 0)
  {
    if x == NULL || s[x].n == 0 {
      return NULL;
    }
    if s[x].leaf {
      Leaf(s, x);
      assert Content(s, x, h)[..|Entries(s[x])|] == Entries(s[x]);
      return x;
    }
    ghost var g := h - 1;
    var y := s[x].items[0].c;
    FirstBlock(s, x, h, g);
    ChildOf(s, x, h, g, 0, lo, hi);
    assert y == Children(s[x])[0];
    r := SearchMin(s, y, g, lo, hi);
    if r != NULL {
      StartsWithBefore(Content(s, y, g), Post(Kids(s, x, h), Entries(s[x]), 0), Entries(s[r]));
    }
  }

  /**
   * get_max_item on the tree rooted at r: the last entry of the leaf
   * search_max finds, which is the last entry of the tree's sequence;
   * nothing for an empty tree.
   */
  method GetMaxItem<V>(s: Store<V>, d: Params<V>, r: int, ghost h: nat) returns (m: Option<KeyVal<V>>)
    requires Proper(d) && Shaped(s, d, r, h) && NULL !in s
    ensures m.None? <==> Content(s, r, h) == []
    ensures m.Some? ==> m.value == Content(s, r, h)[|Content(s, r, h)| - 1]
  {
    var x, invalid := SearchMax(s, r, h, d.minItems, d.maxItems);
    if x == NULL {
      assert s[r].n == 0 && h == 0;
      Leaf(s, r);
      m := None;
    } else {
      assert 1 <= s[x].n == |Entries(s[x])|;
      m := Some(s[x].items[s[x].n - 1].kv);
      assert m.value == Entries(s[x])[s[x].n - 1];
    }
  }

  /**
   * get_min_item on the tree rooted at r: the first entry of the leaf
   * search_min finds, which is the first entry of the tree's sequence;
   * nothing for an empty tree.
   */
  method GetMinItem<V>(s: Store<V>, d: Params<V>, r: int, ghost h: nat) returns (m: Option<KeyVal<V>>)
    requires Proper(d) && Shaped(s, d, r, h) && NULL !in s
    ensures m.None? <==> Content(s, r, h) == []
    ensures m.Some? ==> m.value == Content(s, r, h)[0]
  {
    var x := SearchMin(s, r, h, d.minItems, d.maxItems);
    if x == NULL {
      assert s[r].n == 0 && h == 0;
      Leaf(s, r);
      m := None;
    } else {
      assert 1 <= s[x].n == |Entries(s[x])|;
      m := Some(s[x].items[0].kv);
      assert m.value == Entries(s[x])[0];
    }
  }

  // ---------------------------------------------------------------------
  // A failed split, as written
  // ---------------------------------------------------------------------

  /**
   * The node insert_nonfull descends to after split_child as written: the
   * new right half z when kv's key is above x's entry i, y otherwise.  The
   * split's result is not looked at, so z is NULL when no page was had.
   */
  function NextAsWritten<V>(x: Node<V>, i: int, y: int, z: int, k: int): (w: int)
    requires 0 <= i < |x.items|
    ensures w == y || w == z
  {
    if k > x.items[i].kv.key then z else y
  }

  /**
   * When split_child finds no page, insert_nonfull as written goes on into
   * NULL or into the still-full child: neither is a node it may insert into.
   */
  lemma SplitFailAsWritten<V>(s: Store<V>, d: Params<V>, x: int, i: int, y: int, k: int)
    requires Proper(d) && NULL !in s && x in s && Sized(s[x], d.slots) && 0 <= i <= s[x].n
    requires y in s && s[y].n == d.maxItems
    ensures var w := NextAsWritten(s[x], i, y, NULL, k); w !in s || s[w].n >= d.maxItems
  {
  }

  /**
   * When the new root's split finds no page, insert as written still makes
   * the new root, empty, the tree's root, and the insert_nonfull that
   * follows descends into NULL or into the old, full root.
   */
  lemma RootSplitFailAsWritten<V>(s: Store<V>, d: Params<V>, r: int, h: nat, x: int, k: int)
    requires Proper(d) && NULL !in s && Shaped(s, d, r, h) && s[r].n >= d.maxItems
    requires x != NULL && x !in s
    ensures var Z := ZeroNode(d.slots, d.zero);
            var S := Z.(items := Z.items[0 := Z.items[0].(c := r)]);
            var s' := s[x := S];
            !Shaped(s', d, x, h + 1) &&
            var w := NextAsWritten(S, 0, r, NULL, k); w !in s' || s'[w].n >= d.maxItems
  {
  }
}
