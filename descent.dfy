/**
 * One level of a recursive descent, seen from the parent.  insert_nonfull,
 * erase and erase_max each rewrite the subtree of one child of x and then
 * come back to x; these lemmas turn what the recursive call promised about
 * the child's in-order sequence into the same promise about x's.
 */
module Descent {
  import opened Nodes
  import opened TreeModel
  import opened Steps
  import opened Order
  import opened Frames

  /** A step that replaces the nodes in A by what it reports is a rewrite of any R containing A. */
  lemma Local<V>(s0: Store<V>, s1: Store<V>, R0: set<int>, R1: set<int>, A: set<int>)
    requires A <= R0 <= s0.Keys && R1 * s0.Keys <= R0 && s1.Keys == s0.Keys - R0 + R1
    requires Agree(s0, s1, s0.Keys - A)
    ensures Rewrites(s0, s1, R0, R1)
  {
  }

  /** The children i and i+1 of a tree lie in its nodes. */
  lemma {:induction false} PairIn<V>(s: Store<V>, x: int, h: nat, g: nat, i: int)
    requires Tree(s, x, h) && h == g + 1 && 0 <= i < s[x].n
    ensures {x, Children(s[x])[i], Children(s[x])[i + 1]} <= Reach(s, x, h) <= s.Keys
  {
    var cs := Children(s[x]);
    ChildOf(s, x, h, g, i, 0, 0);
    ChildOf(s, x, h, g, i + 1, 0, 0);
    assert cs[i] in Reach(s, cs[i], g) && cs[i + 1] in Reach(s, cs[i + 1], g);
  }

  /**
   * split_child on child i = y of x, the new node z taking y's upper half:
   * x is still a tree with the same in-order sequence, one node larger.
   */
  /**
   * s1 is s0 after child i of x was split around its entry m: x's subtree
   * keeps its in-order sequence and its bounds, x gains m at position i,
   * its children i and i+1 are the two halves of half entries each, and
   * nothing outside x's subtree changed but for the new node.
   */
  ghost predicate SplitDone<V>(s0: Store<V>, s1: Store<V>, x: int, h: nat, i: int, m: KeyVal<V>,
                               lo: int, hi: int, half: int)
  {
    Tree(s0, x, h) && Tree(s1, x, h) && h > 0 && 0 <= i <= s0[x].n && s1[x].n == s0[x].n + 1 &&
    Content(s1, x, h) == Content(s0, x, h) &&
    Rewrites(s0, s1, Reach(s0, x, h), Reach(s1, x, h)) &&
    Filled(s1, x, h, lo, hi) &&
    Entries(s1[x]) == Entries(s0[x])[..i] + [m] + Entries(s0[x])[i..] &&
    Children(s1[x])[i] in s1 && s1[Children(s1[x])[i]].n == half &&
    Children(s1[x])[i + 1] in s1 && s1[Children(s1[x])[i + 1]].n == half
  }

  lemma {:induction false} SplitAt<V>(s0: Store<V>, s1: Store<V>, x: int, h: nat, g: nat, i: int, y: int, z: int,
                                      k: int, m: KeyVal<V>, lo: int, hi: int, half: int)
    requires Tree(s0, x, h) && h == g + 1 && 0 <= i <= s0[x].n && y == Children(s0[x])[i] && z !in s0
    requires x in s1 && !s1[x].leaf && 0 <= s1[x].n < |s1[x].items|
    requires SplitHalves(s0, s1, y, z, k) && half == k - 1 && s1[y].n == half && s1[z].n == half
    requires Children(s1[x]) == Children(s0[x])[..i] + [y, z] + Children(s0[x])[i + 1..]
    requires m == Entries(s0[y])[k - 1] && s1[x].n == s0[x].n + 1
    requires Entries(s1[x]) == Entries(s0[x])[..i] + [m] + Entries(s0[x])[i..]
    requires Agree(s0, s1, s0.Keys - {x, y}) && s1.Keys == s0.Keys + {z}
    requires Filled(s0, x, h, lo, hi) && lo <= k - 1 && lo <= s0[y].n - k
    ensures SplitDone(s0, s1, x, h, i, m, lo, hi, half)
  {
    ChildOf(s0, x, h, g, i, lo, hi);
    ReachInStore(s0, x, h);
    assert y in Reach(s0, y, g);
    SplitStep(s0, s1, x, h, g, i, k, z, lo, hi);
    Local(s0, s1, Reach(s0, x, h), Reach(s1, x, h), {x, y});
    assert Children(s1[x])[i] == y && Children(s1[x])[i + 1] == z;
  }

  /**
   * s1 is s0 made ready for a descent towards key k: x's subtree keeps its
   * sequence and its bounds, x gained at most one entry, and its child i,
   * whose neighbouring keys bracket k, has room for one more entry.
   */
  ghost predicate Prepared<V>(s0: Store<V>, s1: Store<V>, x: int, h: nat, i: int, k: int, lo: int, hi: int)
  {
    Tree(s0, x, h) && Tree(s1, x, h) && 0 <= i <= s1[x].n &&
    Content(s1, x, h) == Content(s0, x, h) &&
    Rewrites(s0, s1, Reach(s0, x, h), Reach(s1, x, h)) &&
    s0[x].n <= s1[x].n <= s0[x].n + 1 &&
    Filled(s1, x, h, lo, hi) &&
    Between(Entries(s1[x]), i, k) &&
    Children(s1[x])[i] in s1 && s1[Children(s1[x])[i]].n < hi
  }

  /**
   * After a split at i, the descent goes to the left half when k is not
   * above the middle entry m and to the right half otherwise; either half
   * has room, and the chosen slot still brackets k.
   */
  lemma SplitChoice<V>(s0: Store<V>, s1: Store<V>, x: int, h: nat, i: int, m: KeyVal<V>,
                       lo: int, hi: int, half: int, k: int, j: int)
    requires SplitDone(s0, s1, x, h, i, m, lo, hi, half) && half < hi
    requires Between(Entries(s0[x]), i, k) && j == (if k > m.key then i + 1 else i)
    ensures Entries(s1[x])[i] == m && Prepared(s0, s1, x, h, j, k, lo, hi)
  {
    BetweenSplit(Entries(s0[x]), i, m, k, j);
  }

  /** A child with room needs no split: the store is already prepared. */
  lemma KeepChoice<V>(s: Store<V>, x: int, h: nat, i: int, k: int, lo: int, hi: int)
    requires Tree(s, x, h) && 0 <= i <= s[x].n && Filled(s, x, h, lo, hi) && Between(Entries(s[x]), i, k)
    requires Children(s[x])[i] in s && s[Children(s[x])[i]].n < hi
    ensures Prepared(s, s, x, h, i, k, lo, hi)
  {
    ReachInStore(s, x, h);
    Same(s, Reach(s, x, h));
  }

  /** Child i of a node whose in-order sequence is sorted has a sorted sequence too. */
  lemma {:induction false} SortedChild<V>(s: Store<V>, x: int, h: nat, g: nat, i: int)
    requires Wf(s, x, h) && h == g + 1 && 0 <= i <= s[x].n && Sorted(Content(s, x, h))
    ensures Wf(s, Children(s[x])[i], g) && Sorted(Content(s, Children(s[x])[i], g))
  {
    ContentAt(s, x, h, g, i);
    var P, C, Q := Pre(Kids(s, x, h), Entries(s[x]), i), Content(s, Children(s[x])[i], g),
                   Post(Kids(s, x, h), Entries(s[x]), i);
    SortedParts(P + C, Q);
    SortedParts(P, C);
  }

  /**
   * search and erase descend into child i of x when k lies in the gap
   * between entries i-1 and i: every entry with key k of x's sequence is
   * in that child's block.
   */
  lemma {:induction false} SearchDescent<V>(s: Store<V>, x: int, h: nat, g: nat, i: int, k: int)
    requires Wf(s, x, h) && h == g + 1 && Sorted(Content(s, x, h)) && Gap(Entries(s[x]), i, k)
    ensures Wf(s, Children(s[x])[i], g) && Sorted(Content(s, Children(s[x])[i], g))
    ensures HasKey(Content(s, x, h), k) <==> HasKey(Content(s, Children(s[x])[i], g), k)
    ensures forall e :: e in Content(s, Children(s[x])[i], g) ==> e in Content(s, x, h)
  {
    var K, E := Kids(s, x, h), Entries(s[x]);
    SortedChild(s, x, h, g, i);
    ContentAt(s, x, h, g, i);
    if i > 0 { PreLast(K, E, i); }
    if i < |E| { PostFirst(K, E, i); }
    Narrow(Pre(K, E, i), Content(s, Children(s[x])[i], g), Post(K, E, i), k);
  }

  /** The in-order sequence of an internal node ends with its last child's. */
  lemma {:induction false} LastBlock<V>(s: Store<V>, x: int, h: nat, g: nat)
    requires Wf(s, x, h) && h == g + 1
    ensures Wf(s, Children(s[x])[s[x].n], g)
    ensures Content(s, x, h) == Pre(Kids(s, x, h), Entries(s[x]), s[x].n) + Content(s, Children(s[x])[s[x].n], g)
  {
    ContentAt(s, x, h, g, s[x].n);
  }

  /** The in-order sequence of an internal node starts with its first child's. */
  lemma {:induction false} FirstBlock<V>(s: Store<V>, x: int, h: nat, g: nat)
    requires Wf(s, x, h) && h == g + 1
    ensures Wf(s, Children(s[x])[0], g)
    ensures Content(s, x, h) == Content(s, Children(s[x])[0], g) + Post(Kids(s, x, h), Entries(s[x]), 0)
  {
    ContentAt(s, x, h, g, 0);
  }

  /** Entry i of a node belongs to its in-order sequence. */
  lemma {:induction false} EntryIn<V>(s: Store<V>, x: int, h: nat, i: int)
    requires Wf(s, x, h) && 0 <= i < s[x].n
    ensures Entries(s[x])[i] in Content(s, x, h)
  {
    if h > 0 {
      ContentAt(s, x, h, h - 1, i);
      PostFirst(Kids(s, x, h), Entries(s[x]), i);
      var P, C, Q := Pre(Kids(s, x, h), Entries(s[x]), i), Content(s, Children(s[x])[i], h - 1),
                     Post(Kids(s, x, h), Entries(s[x]), i);
      assert (P + C + Q)[|P| + |C|] == Q[0];
    }
  }

  /**
   * insert_nonfull descended into child i of x, whose neighbouring entries
   * bracket kv's key, and inserted kv there: x's sequence gains kv at the
   * matching place.
   */
  lemma {:induction false} InsertDescent<V>(s1: Store<V>, s2: Store<V>, x: int, h: nat, g: nat, i: int, y: int,
                                            kv: KeyVal<V>, q: int, lo: int, hi: int) returns (p: int)
    requires Tree(s1, x, h) && h == g + 1 && 0 <= i <= s1[x].n && y == Children(s1[x])[i] && Wf(s1, y, g)
    requires Tree(s2, y, g) && Rewrites(s1, s2, Reach(s1, y, g), Reach(s2, y, g))
    requires InsertedAt(Content(s1, y, g), Content(s2, y, g), kv, q)
    requires i > 0 ==> Entries(s1[x])[i - 1].key <= kv.key
    requires i < s1[x].n ==> kv.key <= Entries(s1[x])[i].key
    ensures x in s2 && s2[x] == s1[x] && Tree(s2, x, h)
    ensures InsertedAt(Content(s1, x, h), Content(s2, x, h), kv, p)
    ensures Rewrites(s1, s2, Reach(s1, x, h), Reach(s2, x, h))
    ensures Filled(s1, x, h, lo, hi) && lo <= s2[y].n <= hi && Filled(s2, y, g, lo, hi) ==>
            Filled(s2, x, h, lo, hi)
  {
    var K, E := Kids(s1, x, h), Entries(s1[x]);
    ChildOf(s1, x, h, g, i, lo, hi);
    ReplaceChild(s1, s2, x, h, g, i, lo, hi);
    ContentAt(s1, x, h, g, i);
    if i > 0 { PreLast(K, E, i); }
    if i < |E| { PostFirst(K, E, i); }
    p := InsertWithin(Pre(K, E, i), Content(s1, y, g), Post(K, E, i), Content(s2, y, g), kv, q);
    Widen(s1, s2, Reach(s1, x, h), Reach(s1, y, g), Reach(s2, y, g));
    FilledButIff(s2, x, h, g, i, lo, hi);
  }

  /**
   * The whole step of insert_nonfull after its recursive call: the
   * descent into child i composed with the split that preceded it.
   */
  lemma InsertFinish<V>(s0: Store<V>, s1: Store<V>, s2: Store<V>, x: int, h: nat, g: nat, i: int, y: int,
                        kv: KeyVal<V>, q: int, lo: int, hi: int) returns (p: int)
    requires Tree(s0, x, h) && Tree(s1, x, h) && Content(s1, x, h) == Content(s0, x, h)
    requires Rewrites(s0, s1, Reach(s0, x, h), Reach(s1, x, h))
    requires h == g + 1 && 0 <= i <= s1[x].n && y == Children(s1[x])[i] && Wf(s1, y, g)
    requires Tree(s2, y, g) && Rewrites(s1, s2, Reach(s1, y, g), Reach(s2, y, g))
    requires InsertedAt(Content(s1, y, g), Content(s2, y, g), kv, q)
    requires i > 0 ==> Entries(s1[x])[i - 1].key <= kv.key
    requires i < s1[x].n ==> kv.key <= Entries(s1[x])[i].key
    requires Filled(s1, x, h, lo, hi) && lo <= s2[y].n <= hi && Filled(s2, y, g, lo, hi)
    ensures x in s2 && s2[x] == s1[x] && Tree(s2, x, h)
    ensures InsertedAt(Content(s0, x, h), Content(s2, x, h), kv, p)
    ensures Rewrites(s0, s2, Reach(s0, x, h), Reach(s2, x, h))
    ensures Filled(s2, x, h, lo, hi)
  {
    p := InsertDescent(s1, s2, x, h, g, i, y, kv, q, lo, hi);
    Trans(s0, s1, s2, Reach(s0, x, h), Reach(s1, x, h), Reach(s2, x, h));
  }

  /**
   * erase descended into child i of x, past every entry of x below k and
   * before every entry above k.  The child's removal (or its no-op, when
   * the child holds no entry with key k) is x's.
   */
  lemma {:induction false} EraseDescent<V>(s1: Store<V>, s2: Store<V>, x: int, h: nat, g: nat, i: int, y: int,
                                           k: int, q: int, lo: int, hi: int) returns (p: int)
    requires Tree(s1, x, h) && h == g + 1 && 0 <= i <= s1[x].n && y == Children(s1[x])[i] && Wf(s1, y, g)
    requires Sorted(Content(s1, x, h))
    requires Tree(s2, y, g) && Rewrites(s1, s2, Reach(s1, y, g), Reach(s2, y, g))
    requires i > 0 ==> Entries(s1[x])[i - 1].key < k
    requires i < s1[x].n ==> k < Entries(s1[x])[i].key
    requires HasKey(Content(s1, y, g), k) ==> RemovedAt(Content(s1, y, g), Content(s2, y, g), k, q)
    requires !HasKey(Content(s1, y, g), k) ==> Content(s2, y, g) == Content(s1, y, g)
    ensures x in s2 && s2[x] == s1[x] && Tree(s2, x, h)
    ensures HasKey(Content(s1, x, h), k) ==> RemovedAt(Content(s1, x, h), Content(s2, x, h), k, p)
    ensures !HasKey(Content(s1, x, h), k) ==> Content(s2, x, h) == Content(s1, x, h)
    ensures HasKey(Content(s1, x, h), k) <==> HasKey(Content(s1, y, g), k)
    ensures Rewrites(s1, s2, Reach(s1, x, h), Reach(s2, x, h))
    ensures Filled(s1, x, h, lo, hi) && lo - 1 <= s2[y].n <= hi && Filled(s2, y, g, lo, hi) ==>
            FilledBut(s2, x, h, i, lo, hi)
  {
    var K, E := Kids(s1, x, h), Entries(s1[x]);
    ChildOf(s1, x, h, g, i, lo, hi);
    ReplaceChild(s1, s2, x, h, g, i, lo, hi);
    ContentAt(s1, x, h, g, i);
    if i > 0 { PreLast(K, E, i); }
    if i < |E| { PostFirst(K, E, i); }
    Narrow(Pre(K, E, i), Content(s1, y, g), Post(K, E, i), k);
    p := 0;
    if HasKey(Content(s1, y, g), k) {
      p := RemoveWithin(Pre(K, E, i), Content(s1, y, g), Post(K, E, i), Content(s2, y, g), k, q);
    }
    Widen(s1, s2, Reach(s1, x, h), Reach(s1, y, g), Reach(s2, y, g));
  }

  /**
   * erase on an internal hit at entry i of x: erase_max took the last entry
   * m off child y's sequence (s0 to s1) and m was pasted over entry i
   * (s1 to s2).  x's sequence lost exactly entry i.
   */
  lemma {:induction false} ErasePaste<V>(s0: Store<V>, s1: Store<V>, s2: Store<V>, x: int, h: nat, g: nat, i: int,
                                         y: int, z: int, m: KeyVal<V>, lo: int, hi: int) returns (p: int)
    requires Tree(s0, x, h) && h == g + 1 && 0 <= i < s0[x].n
    requires y == Children(s0[x])[i] && z == Children(s0[x])[i + 1] && Wf(s0, y, g)
    requires Tree(s1, y, g) && Rewrites(s0, s1, Reach(s0, y, g), Reach(s1, y, g))
    requires Content(s0, y, g) == Content(s1, y, g) + [m]
    requires Pasted(s0, s1, s2, x, i, m)
    ensures Tree(s2, x, h)
    ensures RemovedAt(Content(s0, x, h), Content(s2, x, h), Entries(s0[x])[i].key, p)
    ensures Rewrites(s0, s2, Reach(s0, x, h), Reach(s2, x, h))
    ensures (Filled(s0, x, h, lo, hi) && lo - 1 <= s1[y].n <= hi && Filled(s1, y, g, lo, hi)) ==>
            FilledBut(s2, x, h, i, lo, hi)
  {
    var K, E := Kids(s0, x, h), Entries(s0[x]);
    PasteStep(s0, s1, s2, x, h, g, i, y, z, m, lo, hi);
    ContentPair(s0, x, h, g, i);
    RemoveSeparator(Pre(K, E, i), Content(s1, y, g), m, E[i], Content(s0, z, g), Post(K, E, i + 1));
    p := |Pre(K, E, i)| + |Content(s1, y, g)| + 1;
  }

  /**
   * erase_max descended into the last child y of x and took the last entry
   * e off its sequence: x's sequence lost its last entry, e.
   */
  lemma {:induction false} MaxDescent<V>(s1: Store<V>, s2: Store<V>, x: int, h: nat, g: nat, y: int,
                                         e: KeyVal<V>, lo: int, hi: int)
    requires Tree(s1, x, h) && h == g + 1 && y == Children(s1[x])[s1[x].n] && Wf(s1, y, g)
    requires Tree(s2, y, g) && Rewrites(s1, s2, Reach(s1, y, g), Reach(s2, y, g))
    requires Content(s1, y, g) == Content(s2, y, g) + [e]
    ensures x in s2 && s2[x] == s1[x] && Tree(s2, x, h)
    ensures Content(s1, x, h) == Content(s2, x, h) + [e]
    ensures Rewrites(s1, s2, Reach(s1, x, h), Reach(s2, x, h))
    ensures Filled(s1, x, h, lo, hi) && lo <= s2[y].n <= hi && Filled(s2, y, g, lo, hi) ==>
            Filled(s2, x, h, lo, hi)
  {
    var n := s1[x].n;
    ChildOf(s1, x, h, g, n, lo, hi);
    ReplaceChild(s1, s2, x, h, g, n, lo, hi);
    ContentAt(s1, x, h, g, n);
    var P := Pre(Kids(s1, x, h), Entries(s1[x]), n);
    assert Post(Kids(s1, x, h), Entries(s1[x]), n) == [];
    assert Content(s1, x, h) == P + (Content(s2, y, g) + [e]);
    assert Content(s2, x, h) == P + Content(s2, y, g);
    Widen(s1, s2, Reach(s1, x, h), Reach(s1, y, g), Reach(s2, y, g));
    FilledButIff(s2, x, h, g, n, lo, hi);
  }
}
