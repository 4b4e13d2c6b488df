/**
 * The restructuring steps of the B-tree, stated on the abstract view: each
 * lemma relates the store before a step (s1) to the store after it (s2) by
 * the node-level changes the step makes, and concludes that the subtree is
 * still a tree, keeps its in-order sequence (or changes it exactly as the
 * step intends) and keeps its occupancy bounds.
 *
 * Both engines perform the same steps (split_child, root growth, descent,
 * concate, rebalance, root shrink), so both use these lemmas.
 */
module Steps {
  import opened Nodes
  import opened TreeModel

  // ---------------------------------------------------------------------
  // Occupancy with one child allowed to be short by one
  // ---------------------------------------------------------------------

  /**
   * Every node strictly below x holds between lo and hi entries, except
   * that child u of x may hold lo - 1.  This is the state erase leaves a
   * node in before fixup repairs it.
   */
  ghost predicate FilledBut<V>(s: Store<V>, x: int, h: nat, u: int, lo: int, hi: int)
    requires Wf(s, x, h) && h > 0
  {
    FilledButAll(s, Children(s[x]), h - 1, u, lo, hi)
  }

  ghost predicate FilledButAll<V>(s: Store<V>, cs: seq<int>, g: nat, u: int, lo: int, hi: int)
    requires WfAll(s, cs, g)
  {
    forall j :: 0 <= j < |cs| ==>
      (if j == u then lo - 1 else lo) <= s[cs[j]].n <= hi && Filled(s, cs[j], g, lo, hi)
  }

  /** A filled node is filled but for any child; the exception is void once child u is back in bounds. */
  lemma FilledButIff<V>(s: Store<V>, x: int, h: nat, g: nat, u: int, lo: int, hi: int)
    requires Wf(s, x, h) && h == g + 1
    ensures WfAll(s, Children(s[x]), g)
    ensures Filled(s, x, h, lo, hi) ==> FilledBut(s, x, h, u, lo, hi)
    ensures FilledBut(s, x, h, u, lo, hi) && (0 <= u <= s[x].n ==> lo <= s[Children(s[x])[u]].n) ==>
            Filled(s, x, h, lo, hi)
  {
    Internal(s, x, h, g);
  }

  /** Outside a window that holds the exception, all children of x are in bounds. */
  lemma {:induction false} ButOutside<V>(s: Store<V>, x: int, h: nat, g: nat, u: int, a: int, b: int,
                                         lo: int, hi: int)
    requires Wf(s, x, h) && h == g + 1 && 0 <= a <= b <= s[x].n + 1
    requires FilledBut(s, x, h, u, lo, hi) && (u < 0 || a <= u < b)
    ensures WfAll(s, Children(s[x])[..a], g) && WfAll(s, Children(s[x])[b..], g)
    ensures WfAll(s, Children(s[x])[a..b], g)
    ensures FilledAll(s, Children(s[x])[..a], g, lo, hi) && FilledAll(s, Children(s[x])[b..], g, lo, hi)
    ensures FilledButAll(s, Children(s[x])[a..b], g, u - a, lo, hi)
  {
    var cs := Children(s[x]);
    forall j | 0 <= j < |cs[..a]| ensures cs[..a][j] in s && Wf(s, cs[..a][j], g) {
      assert cs[..a][j] == cs[j];
    }
    forall j | 0 <= j < |cs[b..]| ensures cs[b..][j] in s && Wf(s, cs[b..][j], g) {
      assert cs[b..][j] == cs[b + j];
    }
    forall j | 0 <= j < |cs[a..b]| ensures cs[a..b][j] in s && Wf(s, cs[a..b][j], g) {
      assert cs[a..b][j] == cs[a + j];
    }
    forall j | 0 <= j < |cs[..a]| ensures lo <= s[cs[..a][j]].n <= hi && Filled(s, cs[..a][j], g, lo, hi) {
      assert cs[..a][j] == cs[j];
    }
    forall j | 0 <= j < |cs[b..]| ensures lo <= s[cs[b..][j]].n <= hi && Filled(s, cs[b..][j], g, lo, hi) {
      assert cs[b..][j] == cs[b + j];
    }
    forall j | 0 <= j < |cs[a..b]|
      ensures (if j == u - a then lo - 1 else lo) <= s[cs[a..b][j]].n <= hi && Filled(s, cs[a..b][j], g, lo, hi)
    {
      assert cs[a..b][j] == cs[a + j];
    }
  }

  /**
   * After the children in a window are replaced by ws, with the siblings
   * outside the window unchanged, x is filled but for position v when ws is
   * filled but for position v - a.
   */
  lemma {:induction false} ButSplice<V>(s1: Store<V>, s2: Store<V>, x: int, h: nat, g: nat, a: int, b: int,
                                        ws: seq<int>, v: int, lo: int, hi: int)
    requires Wf(s1, x, h) && h == g + 1 && 0 <= a <= b <= s1[x].n + 1
    requires Wf(s2, x, h) && WfAll(s2, ws, g)
    requires Children(s2[x]) == Children(s1[x])[..a] + ws + Children(s1[x])[b..]
    requires WfAll(s1, Children(s1[x])[..a], g) && WfAll(s1, Children(s1[x])[b..], g)
    requires FilledAll(s1, Children(s1[x])[..a], g, lo, hi) && FilledAll(s1, Children(s1[x])[b..], g, lo, hi)
    requires Agree(s1, s2, Reaches(s1, Children(s1[x])[..a], g))
    requires Agree(s1, s2, Reaches(s1, Children(s1[x])[b..], g))
    requires FilledButAll(s2, ws, g, v - a, lo, hi) && (v < 0 || a <= v < a + |ws|)
    ensures FilledBut(s2, x, h, v, lo, hi)
  {
    var cs, cs2 := Children(s1[x]), Children(s2[x]);
    FrameAll(s1, s2, cs[..a], g);
    FrameAll(s1, s2, cs[b..], g);
    assert FilledAll(s2, cs[..a], g, lo, hi) && FilledAll(s2, cs[b..], g, lo, hi);
    ButConcat(s2, cs[..a], ws, cs[b..], g, v, lo, hi);
  }

  lemma {:induction false} ButConcat<V>(s: Store<V>, L: seq<int>, W: seq<int>, R: seq<int>, g: nat, v: int,
                                        lo: int, hi: int)
    requires WfAll(s, L, g) && WfAll(s, W, g) && WfAll(s, R, g) && WfAll(s, L + W + R, g)
    requires FilledAll(s, L, g, lo, hi) && FilledButAll(s, W, g, v - |L|, lo, hi) && FilledAll(s, R, g, lo, hi)
    requires v < 0 || |L| <= v < |L| + |W|
    ensures FilledButAll(s, L + W + R, g, v, lo, hi)
  {
    var c := L + W + R;
    forall j | 0 <= j < |c|
      ensures (if j == v then lo - 1 else lo) <= s[c[j]].n <= hi && Filled(s, c[j], g, lo, hi)
    {
      if j < |L| {
        assert c[j] == L[j];
      } else if j < |L| + |W| {
        assert c[j] == W[j - |L|];
      } else {
        assert c[j] == R[j - |L| - |W|];
      }
    }
  }

  // ---------------------------------------------------------------------
  // Two sibling subtrees as a list
  // ---------------------------------------------------------------------

  lemma {:induction false} TwoList<V>(s: Store<V>, y: int, z: int, g: nat)
    requires Tree(s, y, g) && Tree(s, z, g) && Reach(s, y, g) !! Reach(s, z, g)
    ensures WfAll(s, [y, z], g) && TreeAll(s, [y, z], g) && Disjoint(s, [y, z], g)
    ensures Reaches(s, [y, z], g) == Reach(s, y, g) + Reach(s, z, g)
    ensures Contents(s, [y, z], g) == [Content(s, y, g), Content(s, z, g)]
    ensures forall lo, hi :: FilledAll(s, [y, z], g, lo, hi) <==>
              lo <= s[y].n <= hi && Filled(s, y, g, lo, hi) && lo <= s[z].n <= hi && Filled(s, z, g, lo, hi)
  {
    ListSingle(s, y, g);
    ListSingle(s, z, g);
    assert [y, z] == [y] + [z];
    ListConcat(s, [y], [z], g);
  }

  // ---------------------------------------------------------------------
  // split_child
  // ---------------------------------------------------------------------

  /**
   * The node-level effect of splitting y at entry k-1 into y and z: y keeps
   * the first k-1 entries (and first k children), z receives the entries
   * after entry k-1 (and the remaining children).
   */
  ghost predicate SplitHalves<V>(s1: Store<V>, s2: Store<V>, y: int, z: int, k: int)
  {
    y in s1 && 0 <= s1[y].n < |s1[y].items| && 0 < k <= s1[y].n &&
    y in s2 && z in s2 &&
    s2[y].leaf == s1[y].leaf && 0 <= s2[y].n < |s2[y].items| &&
    s2[z].leaf == s1[y].leaf && 0 <= s2[z].n < |s2[z].items| &&
    Entries(s2[y]) == Entries(s1[y])[..k - 1] && Entries(s2[z]) == Entries(s1[y])[k..] &&
    (!s1[y].leaf ==> Children(s2[y]) == Children(s1[y])[..k] && Children(s2[z]) == Children(s1[y])[k..])
  }

  /**
   * Splitting child i of x (the child y moves its entry k-1 up into x at
   * position i, and the new node z becomes child i+1) keeps the tree and its
   * in-order sequence, and adds exactly z to the nodes of the subtree.
   */
  lemma {:induction false} SplitStep<V>(s1: Store<V>, s2: Store<V>, x: int, h: nat, g: nat, i: int, k: int,
                                        z: int, lo: int, hi: int)
    requires Tree(s1, x, h) && h == g + 1 && 0 <= i <= s1[x].n && z !in s1
    requires x in s2 && !s2[x].leaf && 0 <= s2[x].n < |s2[x].items|
    requires SplitHalves(s1, s2, Children(s1[x])[i], z, k)
    requires Children(s2[x]) == Children(s1[x])[..i] + [Children(s1[x])[i], z] + Children(s1[x])[i + 1..]
    requires Entries(s2[x]) == Entries(s1[x])[..i] + [Entries(s1[Children(s1[x])[i]])[k - 1]] + Entries(s1[x])[i..]
    requires Agree(s1, s2, s1.Keys - {x, Children(s1[x])[i]})
    ensures Tree(s2, x, h) && Content(s2, x, h) == Content(s1, x, h)
    ensures Reach(s2, x, h) == Reach(s1, x, h) + {z}
    ensures Filled(s1, x, h, lo, hi) && lo <= k - 1 && lo <= s1[Children(s1[x])[i]].n - k ==>
            Filled(s2, x, h, lo, hi)
  {
    var cs, E := Children(s1[x]), Entries(s1[x]);
    var y := cs[i];
    var m := Entries(s1[y])[k - 1];
    SplitKids(s1, s2, x, h, g, i, k, z);
    RewriteWindow(s1, s2, x, h, g, i, i + 1, [y, z], [m]);
    InterleaveTwo(Content(s2, y, g), m, Content(s2, z, g));
    ContentAt(s1, x, h, g, i);
    SetGrow(Reach(s1, x, h), Reach(s1, y, g), Reaches(s2, [y, z], g), z);
    if Filled(s1, x, h, lo, hi) && lo <= k - 1 && lo <= s1[y].n - k {
      SplitFilled(s1, s2, x, h, g, i, k, z, lo, hi);
      Internal(s2, x, h, g);
    }
  }

  /** The two halves of a split child, as a list of siblings in place of the child. */
  lemma {:induction false} SplitKids<V>(s1: Store<V>, s2: Store<V>, x: int, h: nat, g: nat, i: int, k: int, z: int)
    requires Tree(s1, x, h) && h == g + 1 && 0 <= i <= s1[x].n && z !in s1
    requires x in s2
    requires SplitHalves(s1, s2, Children(s1[x])[i], z, k)
    requires Agree(s1, s2, s1.Keys - {x, Children(s1[x])[i]})
    ensures WfAll(s1, Children(s1[x]), g)
    ensures Wf(s1, Children(s1[x])[i], g)
    ensures Tree(s2, Children(s1[x])[i], g) && Tree(s2, z, g)
    ensures WfAll(s2, [Children(s1[x])[i], z], g) && TreeAll(s2, [Children(s1[x])[i], z], g)
    ensures Disjoint(s2, [Children(s1[x])[i], z], g)
    ensures Contents(s2, [Children(s1[x])[i], z], g) ==
            [Content(s2, Children(s1[x])[i], g), Content(s2, z, g)]
    ensures Content(s2, Children(s1[x])[i], g) + [Entries(s1[Children(s1[x])[i]])[k - 1]] + Content(s2, z, g) ==
            Content(s1, Children(s1[x])[i], g)
    ensures WfAll(s1, Children(s1[x])[i..i + 1], g)
    ensures Reaches(s1, Children(s1[x])[i..i + 1], g) == Reach(s1, Children(s1[x])[i], g)
    ensures Reaches(s2, [Children(s1[x])[i], z], g) == Reach(s1, Children(s1[x])[i], g) + {z}
    ensures Reach(s1, Children(s1[x])[i], g) <= Reach(s1, x, h) <= s1.Keys
    ensures forall lo, hi :: Filled(s1, Children(s1[x])[i], g, lo, hi) && lo <= k - 1 &&
                             lo <= s1[Children(s1[x])[i]].n - k && s1[Children(s1[x])[i]].n <= hi ==>
                             FilledAll(s2, [Children(s1[x])[i], z], g, lo, hi)
  {
    var cs := Children(s1[x]);
    var y := cs[i];
    assert cs[i..i + 1] == [y];
    Internal(s1, x, h, g);
    ReachSubset(s1, cs, g, i);
    NotBelow(s1, x, h, y, g);
    ReachInStore(s1, x, h);
    SplitPair(s1, s2, y, z, g, k);
    ListSingle(s1, y, g);
  }

  /** The occupancy half of SplitStep: the siblings and both halves are filled. */
  lemma {:induction false} SplitFilled<V>(s1: Store<V>, s2: Store<V>, x: int, h: nat, g: nat, i: int, k: int,
                                          z: int, lo: int, hi: int)
    requires Tree(s1, x, h) && h == g + 1 && 0 <= i <= s1[x].n && z !in s1
    requires x in s2
    requires SplitHalves(s1, s2, Children(s1[x])[i], z, k)
    requires Agree(s1, s2, s1.Keys - {x, Children(s1[x])[i]})
    requires Filled(s1, x, h, lo, hi) && lo <= k - 1 && lo <= s1[Children(s1[x])[i]].n - k
    ensures WfAll(s1, Children(s1[x])[..i], g) && WfAll(s1, Children(s1[x])[i + 1..], g)
    ensures FilledAll(s1, Children(s1[x])[..i], g, lo, hi) && FilledAll(s1, Children(s1[x])[i + 1..], g, lo, hi)
    ensures WfAll(s2, [Children(s1[x])[i], z], g) && FilledAll(s2, [Children(s1[x])[i], z], g, lo, hi)
  {
    var cs := Children(s1[x]);
    var y := cs[i];
    WindowFilled(s1, x, h, g, i, i + 1, lo, hi);
    assert cs[i..i + 1] == [y];
    ListSingle(s1, y, g);
    SplitKids(s1, s2, x, h, g, i, k, z);
  }

  /**
   * Growing the tree at a full root r: a new internal node x whose only
   * child is r splits r, so x holds r's entry k-1 between r and the new
   * node z.  The tree grows by one level and keeps its in-order sequence.
   */
  lemma {:induction false} RootGrow<V>(s1: Store<V>, s2: Store<V>, r: int, h: nat, h': nat, x: int, z: int, k: int,
                                       lo: int, hi: int)
    requires Tree(s1, r, h) && h' == h + 1 && x !in s1 && z !in s1 && x != z
    requires x in s2 && !s2[x].leaf && 0 <= s2[x].n < |s2[x].items|
    requires SplitHalves(s1, s2, r, z, k)
    requires Children(s2[x]) == [r, z] && Entries(s2[x]) == [Entries(s1[r])[k - 1]]
    requires Agree(s1, s2, s1.Keys - {r})
    ensures Tree(s2, x, h') && Content(s2, x, h') == Content(s1, r, h)
    ensures Reach(s2, x, h') == Reach(s1, r, h) + {x, z}
    ensures Filled(s1, r, h, lo, hi) && lo <= k - 1 && lo <= s1[r].n - k && s1[r].n <= hi ==>
            Filled(s2, x, h', lo, hi)
  {
    ReachInStore(s1, r, h);
    SplitPair(s1, s2, r, z, h, k);
    Internal(s2, x, h', h);
    InterleaveTwo(Content(s2, r, h), Entries(s1[r])[k - 1], Content(s2, z, h));
    SetAddTwo(Reach(s1, r, h), x, z);
  }

  /** The two halves of a split node, as a list of siblings. */
  lemma {:induction false} SplitPair<V>(s1: Store<V>, s2: Store<V>, y: int, z: int, g: nat, k: int)
    requires Tree(s1, y, g) && z !in Reach(s1, y, g)
    requires SplitHalves(s1, s2, y, z, k)
    requires Agree(s1, s2, Reach(s1, y, g) - {y})
    ensures WfAll(s2, [y, z], g) && TreeAll(s2, [y, z], g) && Disjoint(s2, [y, z], g)
    ensures Tree(s2, y, g) && Tree(s2, z, g)
    ensures Contents(s2, [y, z], g) == [Content(s2, y, g), Content(s2, z, g)]
    ensures Content(s2, y, g) + [Entries(s1[y])[k - 1]] + Content(s2, z, g) == Content(s1, y, g)
    ensures Reaches(s2, [y, z], g) == Reach(s1, y, g) + {z}
    ensures forall lo, hi :: Filled(s1, y, g, lo, hi) && lo <= k - 1 && lo <= s1[y].n - k && s1[y].n <= hi ==>
                             FilledAll(s2, [y, z], g, lo, hi)
  {
    SplitNode(s1, s2, y, z, g, k);
    TwoList(s2, y, z, g);
  }

  // ---------------------------------------------------------------------
  // Descent: one child's subtree changes, its parent does not
  // ---------------------------------------------------------------------

  /**
   * Child i of x is rewritten below (by a recursive insert or erase) while x
   * itself is untouched: x's in-order sequence changes in exactly the place
   * of that child's sequence.
   */
  lemma {:induction false} ReplaceChild<V>(s1: Store<V>, s2: Store<V>, x: int, h: nat, g: nat, i: int,
                                           lo: int, hi: int)
    requires Tree(s1, x, h) && h == g + 1 && 0 <= i <= s1[x].n
    requires x in s2 && s2[x] == s1[x]
    requires Wf(s1, Children(s1[x])[i], g) && Tree(s2, Children(s1[x])[i], g)
    requires Reach(s2, Children(s1[x])[i], g) * s1.Keys <= Reach(s1, Children(s1[x])[i], g)
    requires Agree(s1, s2, s1.Keys - Reach(s1, Children(s1[x])[i], g))
    ensures Tree(s2, x, h)
    ensures Reach(s2, x, h) == Reach(s1, x, h) - Reach(s1, Children(s1[x])[i], g) + Reach(s2, Children(s1[x])[i], g)
    ensures Content(s2, x, h) ==
            Pre(Kids(s1, x, h), Entries(s1[x]), i) + Content(s2, Children(s1[x])[i], g) +
            Post(Kids(s1, x, h), Entries(s1[x]), i)
    ensures (Filled(s1, x, h, lo, hi) && lo - 1 <= s2[Children(s1[x])[i]].n <= hi &&
             Filled(s2, Children(s1[x])[i], g, lo, hi)) ==> FilledBut(s2, x, h, i, lo, hi)
  {
    var cs, E := Children(s1[x]), Entries(s1[x]);
    var y := cs[i];
    ReplacePrep(s1, s2, x, h, g, i);
    InterleaveOne(Content(s2, y, g));
    RewriteWindow(s1, s2, x, h, g, i, i + 1, [y], []);
    if Filled(s1, x, h, lo, hi) && lo - 1 <= s2[y].n <= hi && Filled(s2, y, g, lo, hi) {
      ReplaceFilled(s1, s2, x, h, g, i, lo, hi);
    }
  }

  /** The window facts ReplaceChild hands to RewriteWindow. */
  lemma {:induction false} ReplacePrep<V>(s1: Store<V>, s2: Store<V>, x: int, h: nat, g: nat, i: int)
    requires Tree(s1, x, h) && h == g + 1 && 0 <= i <= s1[x].n
    requires x in s2 && s2[x] == s1[x]
    requires Wf(s1, Children(s1[x])[i], g) && Tree(s2, Children(s1[x])[i], g)
    requires Reach(s2, Children(s1[x])[i], g) * s1.Keys <= Reach(s1, Children(s1[x])[i], g)
    requires Agree(s1, s2, s1.Keys - Reach(s1, Children(s1[x])[i], g))
    ensures Children(s2[x]) == Children(s1[x])[..i] + [Children(s1[x])[i]] + Children(s1[x])[i + 1..]
    ensures Entries(s2[x]) == Entries(s1[x])[..i] + [] + Entries(s1[x])[i + 1 - 1..]
    ensures WfAll(s2, [Children(s1[x])[i]], g) && TreeAll(s2, [Children(s1[x])[i]], g)
    ensures Disjoint(s2, [Children(s1[x])[i]], g)
    ensures Contents(s2, [Children(s1[x])[i]], g) == [Content(s2, Children(s1[x])[i], g)]
    ensures WfAll(s1, Children(s1[x])[i..i + 1], g)
    ensures Reaches(s2, [Children(s1[x])[i]], g) * s1.Keys <= Reaches(s1, Children(s1[x])[i..i + 1], g)
    ensures Reaches(s2, [Children(s1[x])[i]], g) == Reach(s2, Children(s1[x])[i], g)
    ensures Reaches(s1, Children(s1[x])[i..i + 1], g) == Reach(s1, Children(s1[x])[i], g)
    ensures Agree(s1, s2, s1.Keys - Reaches(s1, Children(s1[x])[i..i + 1], g) - {x})
  {
    var cs := Children(s1[x]);
    var y := cs[i];
    assert cs[i..i + 1] == [y];
    ListSingle(s1, y, g);
    ListSingle(s2, y, g);
  }

  /** The occupancy half of ReplaceChild. */
  lemma {:induction false} ReplaceFilled<V>(s1: Store<V>, s2: Store<V>, x: int, h: nat, g: nat, i: int,
                                            lo: int, hi: int)
    requires Tree(s1, x, h) && h == g + 1 && 0 <= i <= s1[x].n
    requires x in s2 && s2[x] == s1[x]
    requires Wf(s1, Children(s1[x])[i], g) && Tree(s2, Children(s1[x])[i], g)
    requires Reach(s2, Children(s1[x])[i], g) * s1.Keys <= Reach(s1, Children(s1[x])[i], g)
    requires Agree(s1, s2, s1.Keys - Reach(s1, Children(s1[x])[i], g))
    requires Wf(s2, x, h)
    requires Filled(s1, x, h, lo, hi) && lo - 1 <= s2[Children(s1[x])[i]].n <= hi
    requires Filled(s2, Children(s1[x])[i], g, lo, hi)
    ensures FilledBut(s2, x, h, i, lo, hi)
  {
    var y := Children(s1[x])[i];
    ReplacePrep(s1, s2, x, h, g, i);
    WindowSiblings(s1, s2, x, h, g, i, i + 1);
    FilledButIff(s1, x, h, g, -1, lo, hi);
    ButOutside(s1, x, h, g, -1, i, i + 1, lo, hi);
    ListSingle(s2, y, g);
    assert FilledButAll(s2, [y], g, 0, lo, hi);
    ButSplice(s1, s2, x, h, g, i, i + 1, [y], i, lo, hi);
  }

  // ---------------------------------------------------------------------
  // concate: children i and i+1 merge around entry i
  // ---------------------------------------------------------------------

  /**
   * The node-level effect of concate at position i of x: y (child i) takes
   * entry i of x and all of z (child i+1); x loses entry i and child i+1.
   */
  ghost predicate Merged<V>(s1: Store<V>, s2: Store<V>, x: int, i: int)
    requires x in s1 && 0 <= i < s1[x].n < |s1[x].items|
  {
    var cs, E := Children(s1[x]), Entries(s1[x]);
    var y, z := cs[i], cs[i + 1];
    y in s1 && 0 <= s1[y].n < |s1[y].items| && z in s1 && 0 <= s1[z].n < |s1[z].items| &&
    x in s2 && !s2[x].leaf && 0 <= s2[x].n < |s2[x].items| &&
    Children(s2[x]) == cs[..i] + [y] + cs[i + 2..] && Entries(s2[x]) == E[..i] + E[i + 1..] &&
    y in s2 && s2[y].leaf == s1[y].leaf && 0 <= s2[y].n < |s2[y].items| &&
    Entries(s2[y]) == Entries(s1[y]) + [E[i]] + Entries(s1[z]) &&
    (!s1[y].leaf ==> Children(s2[y]) == Children(s1[y]) + Children(s1[z]))
  }

  lemma SetAddTwo<T>(A: set<T>, x: T, z: T)
    ensures {x} + (A + {z}) == A + {x, z}
  {
  }

  /** Swapping a block of a set for the same block plus one element. */
  lemma SetGrow<T>(R: set<T>, A: set<T>, B: set<T>, z: T)
    requires A <= R && B == A + {z}
    ensures R - A + B == R + {z}
  {
  }

  /** Swapping a block of a set for the same block less one element. */
  lemma SetSwap<T>(R: set<T>, A: set<T>, B: set<T>, z: T)
    requires A <= R && z in A && B == A - {z}
    ensures R - A + B == R - {z}
  {
  }

  /** Concate keeps the tree and its in-order sequence, and frees exactly z. */
  lemma {:induction false} MergeStep<V>(s1: Store<V>, s2: Store<V>, x: int, h: nat, g: nat, i: int,
                                        u: int, lo: int, hi: int)
    requires Tree(s1, x, h) && h == g + 1 && 0 <= i < s1[x].n
    requires WfAll(s1, Children(s1[x]), g) && Merged(s1, s2, x, i)
    requires Agree(s1, s2, s1.Keys - {x, Children(s1[x])[i], Children(s1[x])[i + 1]})
    ensures Tree(s2, x, h) && Content(s2, x, h) == Content(s1, x, h)
    ensures Reach(s2, x, h) == Reach(s1, x, h) - {Children(s1[x])[i + 1]}
    ensures (FilledBut(s1, x, h, u, lo, hi) && (u < 0 || u == i || u == i + 1) &&
             lo <= s2[Children(s1[x])[i]].n <= hi) ==> Filled(s2, x, h, lo, hi)
  {
    var cs, E := Children(s1[x]), Entries(s1[x]);
    var y, z := cs[i], cs[i + 1];
    ContentPair(s1, x, h, g, i);
    MergeKids(s1, s2, x, h, g, i);
    MergePrep(s1, s2, x, h, g, i);
    InterleaveOne(Content(s2, y, g));
    RewriteWindow(s1, s2, x, h, g, i, i + 2, [y], []);
    SetSwap(Reach(s1, x, h), Reach(s1, y, g) + Reach(s1, z, g), Reach(s2, y, g), z);
    if FilledBut(s1, x, h, u, lo, hi) && (u < 0 || u == i || u == i + 1) && lo <= s2[y].n <= hi {
      MergeFilled(s1, s2, x, h, g, i, u, lo, hi);
    }
  }

  lemma {:induction false} MergeKids<V>(s1: Store<V>, s2: Store<V>, x: int, h: nat, g: nat, i: int)
    requires Tree(s1, x, h) && h == g + 1 && 0 <= i < s1[x].n
    requires WfAll(s1, Children(s1[x]), g) && Merged(s1, s2, x, i)
    requires Agree(s1, s2, s1.Keys - {x, Children(s1[x])[i], Children(s1[x])[i + 1]})
    ensures Children(s1[x])[i] != Children(s1[x])[i + 1]
    ensures Reach(s1, Children(s1[x])[i], g) !! Reach(s1, Children(s1[x])[i + 1], g)
    ensures Reach(s1, Children(s1[x])[i], g) + Reach(s1, Children(s1[x])[i + 1], g) <= Reach(s1, x, h)
    ensures Children(s1[x])[i + 1] in Reach(s1, Children(s1[x])[i + 1], g)
    ensures Tree(s2, Children(s1[x])[i], g)
    ensures Content(s2, Children(s1[x])[i], g) ==
            Content(s1, Children(s1[x])[i], g) + [Entries(s1[x])[i]] + Content(s1, Children(s1[x])[i + 1], g)
    ensures Reach(s2, Children(s1[x])[i], g) ==
            Reach(s1, Children(s1[x])[i], g) + Reach(s1, Children(s1[x])[i + 1], g) - {Children(s1[x])[i + 1]}
    ensures forall lo, hi :: Filled(s1, Children(s1[x])[i], g, lo, hi) && Filled(s1, Children(s1[x])[i + 1], g, lo, hi) ==>
                             Filled(s2, Children(s1[x])[i], g, lo, hi)
  {
    var cs := Children(s1[x]);
    var y, z := cs[i], cs[i + 1];
    Internal(s1, x, h, g);
    assert Reach(s1, y, g) !! Reach(s1, z, g);
    ReachSubset(s1, cs, g, i);
    ReachSubset(s1, cs, g, i + 1);
    NotBelow(s1, x, h, y, g);
    NotBelow(s1, x, h, z, g);
    ReachInStore(s1, y, g);
    ReachInStore(s1, z, g);
    MergeNodes(s1, s2, y, z, g, Entries(s1[x])[i]);
  }

  lemma {:induction false} MergePrep<V>(s1: Store<V>, s2: Store<V>, x: int, h: nat, g: nat, i: int)
    requires Tree(s1, x, h) && h == g + 1 && 0 <= i < s1[x].n
    requires WfAll(s1, Children(s1[x]), g) && Merged(s1, s2, x, i)
    requires Agree(s1, s2, s1.Keys - {x, Children(s1[x])[i], Children(s1[x])[i + 1]})
    requires Tree(s2, Children(s1[x])[i], g)
    requires Reach(s1, Children(s1[x])[i], g) !! Reach(s1, Children(s1[x])[i + 1], g)
    requires Reach(s2, Children(s1[x])[i], g) ==
             Reach(s1, Children(s1[x])[i], g) + Reach(s1, Children(s1[x])[i + 1], g) - {Children(s1[x])[i + 1]}
    ensures Entries(s2[x]) == Entries(s1[x])[..i] + [] + Entries(s1[x])[i + 2 - 1..]
    ensures WfAll(s2, [Children(s1[x])[i]], g) && TreeAll(s2, [Children(s1[x])[i]], g)
    ensures Disjoint(s2, [Children(s1[x])[i]], g)
    ensures Contents(s2, [Children(s1[x])[i]], g) == [Content(s2, Children(s1[x])[i], g)]
    ensures Reaches(s2, [Children(s1[x])[i]], g) == Reach(s2, Children(s1[x])[i], g)
    ensures WfAll(s1, Children(s1[x])[i..i + 2], g)
    ensures Reaches(s1, Children(s1[x])[i..i + 2], g) ==
            Reach(s1, Children(s1[x])[i], g) + Reach(s1, Children(s1[x])[i + 1], g)
    ensures Children(s1[x])[i + 1] in Reach(s1, Children(s1[x])[i + 1], g)
    ensures Agree(s1, s2, s1.Keys - Reaches(s1, Children(s1[x])[i..i + 2], g) - {x})
  {
    var cs := Children(s1[x]);
    var y, z := cs[i], cs[i + 1];
    ListSingle(s2, y, g);
    assert cs[i..i + 2] == [y, z];
    TwoList(s1, y, z, g);
  }

  lemma {:induction false} MergeFilled<V>(s1: Store<V>, s2: Store<V>, x: int, h: nat, g: nat, i: int,
                                          u: int, lo: int, hi: int)
    requires Tree(s1, x, h) && h == g + 1 && 0 <= i < s1[x].n
    requires WfAll(s1, Children(s1[x]), g) && Merged(s1, s2, x, i)
    requires Agree(s1, s2, s1.Keys - {x, Children(s1[x])[i], Children(s1[x])[i + 1]})
    requires Tree(s2, x, h)
    requires FilledBut(s1, x, h, u, lo, hi) && (u < 0 || u == i || u == i + 1)
    requires lo <= s2[Children(s1[x])[i]].n <= hi
    ensures Filled(s2, x, h, lo, hi)
  {
    var cs := Children(s1[x]);
    var y, z := cs[i], cs[i + 1];
    MergeKids(s1, s2, x, h, g, i);
    MergePrep(s1, s2, x, h, g, i);
    WindowSiblings(s1, s2, x, h, g, i, i + 2);
    PairOutside(s1, x, h, g, i, u, lo, hi);
    assert FilledButAll(s2, [y], g, -1 - i, lo, hi);
    ButSplice(s1, s2, x, h, g, i, i + 2, [y], -1, lo, hi);
    FilledButIff(s2, x, h, g, -1, lo, hi);
  }

  /** The occupancy facts about the two children of a window and its siblings. */
  lemma {:induction false} PairOutside<V>(s: Store<V>, x: int, h: nat, g: nat, i: int, u: int, lo: int, hi: int)
    requires Tree(s, x, h) && h == g + 1 && 0 <= i < s[x].n
    requires FilledBut(s, x, h, u, lo, hi) && (u < 0 || u == i || u == i + 1)
    ensures WfAll(s, Children(s[x])[..i], g) && WfAll(s, Children(s[x])[i + 2..], g)
    ensures FilledAll(s, Children(s[x])[..i], g, lo, hi) && FilledAll(s, Children(s[x])[i + 2..], g, lo, hi)
    ensures Wf(s, Children(s[x])[i], g) && Wf(s, Children(s[x])[i + 1], g)
    ensures Filled(s, Children(s[x])[i], g, lo, hi) && Filled(s, Children(s[x])[i + 1], g, lo, hi)
  {
    var cs := Children(s[x]);
    ButOutside(s, x, h, g, u, i, i + 2, lo, hi);
    assert cs[i..i + 2][0] == cs[i] && cs[i..i + 2][1] == cs[i + 1];
  }

  // ---------------------------------------------------------------------
  // rebalance
  // ---------------------------------------------------------------------

  /**
   * The node-level effect of rebalance at position i of x: the entries of
   * y (child i), the separator and the entries of z (child i+1) are regrouped
   * around the new separator m2; the children of y and z are regrouped the
   * same way, and x keeps its children.
   */
  ghost predicate Rebalanced<V>(s1: Store<V>, s2: Store<V>, x: int, i: int, m2: KeyVal<V>)
    requires x in s1 && 0 <= i < s1[x].n < |s1[x].items|
  {
    var cs, E := Children(s1[x]), Entries(s1[x]);
    var y, z := cs[i], cs[i + 1];
    y in s1 && 0 <= s1[y].n < |s1[y].items| && z in s1 && 0 <= s1[z].n < |s1[z].items| &&
    x in s2 && !s2[x].leaf && 0 <= s2[x].n < |s2[x].items| &&
    Children(s2[x]) == cs && Entries(s2[x]) == E[..i] + [m2] + E[i + 1..] &&
    y in s2 && s2[y].leaf == s1[y].leaf && 0 <= s2[y].n < |s2[y].items| &&
    z in s2 && s2[z].leaf == s1[z].leaf && 0 <= s2[z].n < |s2[z].items| &&
    Entries(s2[y]) + [m2] + Entries(s2[z]) == Entries(s1[y]) + [E[i]] + Entries(s1[z]) &&
    (!s1[y].leaf ==> Children(s2[y]) + Children(s2[z]) == Children(s1[y]) + Children(s1[z]))
  }

  lemma SetSame<T>(R: set<T>, A: set<T>, B: set<T>)
    requires A <= R && B == A
    ensures R - A + B == R
  {
  }

  /** Rebalance keeps the tree, its in-order sequence and its nodes. */
  lemma {:induction false} RebalanceStep<V>(s1: Store<V>, s2: Store<V>, x: int, h: nat, g: nat, i: int,
                                            m2: KeyVal<V>, u: int, lo: int, hi: int)
    requires Tree(s1, x, h) && h == g + 1 && 0 <= i < s1[x].n
    requires WfAll(s1, Children(s1[x]), g) && Rebalanced(s1, s2, x, i, m2)
    requires Agree(s1, s2, s1.Keys - {x, Children(s1[x])[i], Children(s1[x])[i + 1]})
    ensures Tree(s2, x, h) && Content(s2, x, h) == Content(s1, x, h)
    ensures Reach(s2, x, h) == Reach(s1, x, h)
    ensures (FilledBut(s1, x, h, u, lo, hi) && (u < 0 || u == i || u == i + 1) &&
             lo <= s2[Children(s1[x])[i]].n <= hi && lo <= s2[Children(s1[x])[i + 1]].n <= hi) ==>
            Filled(s2, x, h, lo, hi)
  {
    var cs, E := Children(s1[x]), Entries(s1[x]);
    var y, z := cs[i], cs[i + 1];
    ContentPair(s1, x, h, g, i);
    RebalanceKids(s1, s2, x, h, g, i, m2);
    RebalancePrep(s1, s2, x, h, g, i, m2);
    TwoList(s2, y, z, g);
    InterleaveTwo(Content(s2, y, g), m2, Content(s2, z, g));
    RewriteWindow(s1, s2, x, h, g, i, i + 2, [y, z], [m2]);
    SetSame(Reach(s1, x, h), Reach(s1, y, g) + Reach(s1, z, g), Reach(s2, y, g) + Reach(s2, z, g));
    if FilledBut(s1, x, h, u, lo, hi) && (u < 0 || u == i || u == i + 1) &&
       lo <= s2[y].n <= hi && lo <= s2[z].n <= hi {
      RebalanceFilled(s1, s2, x, h, g, i, m2, u, lo, hi);
    }
  }

  lemma {:induction false} RebalanceKids<V>(s1: Store<V>, s2: Store<V>, x: int, h: nat, g: nat, i: int,
                                            m2: KeyVal<V>)
    requires Tree(s1, x, h) && h == g + 1 && 0 <= i < s1[x].n
    requires WfAll(s1, Children(s1[x]), g) && Rebalanced(s1, s2, x, i, m2)
    requires Agree(s1, s2, s1.Keys - {x, Children(s1[x])[i], Children(s1[x])[i + 1]})
    ensures Reach(s1, Children(s1[x])[i], g) !! Reach(s1, Children(s1[x])[i + 1], g)
    ensures Reach(s1, Children(s1[x])[i], g) + Reach(s1, Children(s1[x])[i + 1], g) <= Reach(s1, x, h)
    ensures Tree(s2, Children(s1[x])[i], g) && Tree(s2, Children(s1[x])[i + 1], g)
    ensures Reach(s2, Children(s1[x])[i], g) !! Reach(s2, Children(s1[x])[i + 1], g)
    ensures Content(s2, Children(s1[x])[i], g) + [m2] + Content(s2, Children(s1[x])[i + 1], g) ==
            Content(s1, Children(s1[x])[i], g) + [Entries(s1[x])[i]] + Content(s1, Children(s1[x])[i + 1], g)
    ensures Reach(s2, Children(s1[x])[i], g) + Reach(s2, Children(s1[x])[i + 1], g) ==
            Reach(s1, Children(s1[x])[i], g) + Reach(s1, Children(s1[x])[i + 1], g)
    ensures forall lo, hi :: Filled(s1, Children(s1[x])[i], g, lo, hi) && Filled(s1, Children(s1[x])[i + 1], g, lo, hi) ==>
                             Filled(s2, Children(s1[x])[i], g, lo, hi) && Filled(s2, Children(s1[x])[i + 1], g, lo, hi)
  {
    var cs := Children(s1[x]);
    var y, z := cs[i], cs[i + 1];
    Internal(s1, x, h, g);
    assert Reach(s1, y, g) !! Reach(s1, z, g);
    ReachSubset(s1, cs, g, i);
    ReachSubset(s1, cs, g, i + 1);
    NotBelow(s1, x, h, y, g);
    NotBelow(s1, x, h, z, g);
    ReachInStore(s1, y, g);
    ReachInStore(s1, z, g);
    RebalanceNodes(s1, s2, y, z, g, Entries(s1[x])[i], m2);
  }

  lemma {:induction false} RebalancePrep<V>(s1: Store<V>, s2: Store<V>, x: int, h: nat, g: nat, i: int,
                                            m2: KeyVal<V>)
    requires Tree(s1, x, h) && h == g + 1 && 0 <= i < s1[x].n
    requires WfAll(s1, Children(s1[x]), g) && Rebalanced(s1, s2, x, i, m2)
    requires Agree(s1, s2, s1.Keys - {x, Children(s1[x])[i], Children(s1[x])[i + 1]})
    ensures Children(s2[x]) == Children(s1[x])[..i] + [Children(s1[x])[i], Children(s1[x])[i + 1]] +
                               Children(s1[x])[i + 2..]
    ensures Entries(s2[x]) == Entries(s1[x])[..i] + [m2] + Entries(s1[x])[i + 2 - 1..]
    ensures WfAll(s1, Children(s1[x])[i..i + 2], g)
    ensures Reaches(s1, Children(s1[x])[i..i + 2], g) ==
            Reach(s1, Children(s1[x])[i], g) + Reach(s1, Children(s1[x])[i + 1], g)
    ensures Agree(s1, s2, s1.Keys - Reaches(s1, Children(s1[x])[i..i + 2], g) - {x})
  {
    var cs := Children(s1[x]);
    assert cs == cs[..i] + [cs[i], cs[i + 1]] + cs[i + 2..];
    PairSlice(s1, x, h, g, i);
    ReachInStore(s1, cs[i], g);
    ReachInStore(s1, cs[i + 1], g);
  }

  /** Children i and i+1 of x as a slice of its child list. */
  lemma {:induction false} PairSlice<V>(s: Store<V>, x: int, h: nat, g: nat, i: int)
    requires Tree(s, x, h) && h == g + 1 && 0 <= i < s[x].n
    ensures Tree(s, Children(s[x])[i], g) && Tree(s, Children(s[x])[i + 1], g)
    ensures WfAll(s, Children(s[x])[i..i + 2], g)
    ensures Reaches(s, Children(s[x])[i..i + 2], g) == Reach(s, Children(s[x])[i], g) + Reach(s, Children(s[x])[i + 1], g)
  {
    var cs := Children(s[x]);
    assert cs[i..i + 2] == [cs[i], cs[i + 1]];
    Internal(s, x, h, g);
    assert Reach(s, cs[i], g) !! Reach(s, cs[i + 1], g);
    TwoList(s, cs[i], cs[i + 1], g);
  }

  /** Both regrouped children are back in bounds and filled below. */
  lemma {:induction false} RebalancePairFilled<V>(s1: Store<V>, s2: Store<V>, x: int, h: nat, g: nat, i: int,
                                                  m2: KeyVal<V>, u: int, lo: int, hi: int)
    requires Tree(s1, x, h) && h == g + 1 && 0 <= i < s1[x].n
    requires WfAll(s1, Children(s1[x]), g) && Rebalanced(s1, s2, x, i, m2)
    requires Agree(s1, s2, s1.Keys - {x, Children(s1[x])[i], Children(s1[x])[i + 1]})
    requires FilledBut(s1, x, h, u, lo, hi) && (u < 0 || u == i || u == i + 1)
    requires lo <= s2[Children(s1[x])[i]].n <= hi && lo <= s2[Children(s1[x])[i + 1]].n <= hi
    ensures WfAll(s2, [Children(s1[x])[i], Children(s1[x])[i + 1]], g)
    ensures FilledAll(s2, [Children(s1[x])[i], Children(s1[x])[i + 1]], g, lo, hi)
  {
    var cs := Children(s1[x]);
    var y, z := cs[i], cs[i + 1];
    PairOutside(s1, x, h, g, i, u, lo, hi);
    RebalanceKids(s1, s2, x, h, g, i, m2);
    TwoList(s2, y, z, g);
  }

  /** The siblings outside the pair are untouched, so x is filled once the pair is. */
  lemma {:induction false} PairFilled<V>(s1: Store<V>, s2: Store<V>, x: int, h: nat, g: nat, i: int,
                                         u: int, lo: int, hi: int)
    requires Tree(s1, x, h) && h == g + 1 && 0 <= i < s1[x].n && Wf(s2, x, h)
    requires Children(s2[x]) == Children(s1[x])[..i] + [Children(s1[x])[i], Children(s1[x])[i + 1]] +
                                Children(s1[x])[i + 2..]
    requires WfAll(s2, [Children(s1[x])[i], Children(s1[x])[i + 1]], g)
    requires FilledAll(s2, [Children(s1[x])[i], Children(s1[x])[i + 1]], g, lo, hi)
    requires WfAll(s1, Children(s1[x])[..i], g) && WfAll(s1, Children(s1[x])[i + 2..], g)
    requires Agree(s1, s2, Reaches(s1, Children(s1[x])[..i], g))
    requires Agree(s1, s2, Reaches(s1, Children(s1[x])[i + 2..], g))
    requires FilledBut(s1, x, h, u, lo, hi) && (u < 0 || u == i || u == i + 1)
    ensures Filled(s2, x, h, lo, hi)
  {
    var cs := Children(s1[x]);
    ButOutside(s1, x, h, g, u, i, i + 2, lo, hi);
    ButSplice(s1, s2, x, h, g, i, i + 2, [cs[i], cs[i + 1]], -1, lo, hi);
    FilledButIff(s2, x, h, g, -1, lo, hi);
  }

  lemma {:induction false} RebalanceFilled<V>(s1: Store<V>, s2: Store<V>, x: int, h: nat, g: nat, i: int,
                                              m2: KeyVal<V>, u: int, lo: int, hi: int)
    requires Tree(s1, x, h) && h == g + 1 && 0 <= i < s1[x].n
    requires WfAll(s1, Children(s1[x]), g) && Rebalanced(s1, s2, x, i, m2)
    requires Agree(s1, s2, s1.Keys - {x, Children(s1[x])[i], Children(s1[x])[i + 1]})
    requires Tree(s2, x, h)
    requires FilledBut(s1, x, h, u, lo, hi) && (u < 0 || u == i || u == i + 1)
    requires lo <= s2[Children(s1[x])[i]].n <= hi && lo <= s2[Children(s1[x])[i + 1]].n <= hi
    ensures Filled(s2, x, h, lo, hi)
  {
    RebalancePairFilled(s1, s2, x, h, g, i, m2, u, lo, hi);
    RebalancePrep(s1, s2, x, h, g, i, m2);
    WindowSiblings(s1, s2, x, h, g, i, i + 2);
    PairFilled(s1, s2, x, h, g, i, u, lo, hi);
  }

  // ---------------------------------------------------------------------
  // Root shrink
  // ---------------------------------------------------------------------

  /**
   * An internal root x left without entries has a single child c, which
   * holds the whole in-order sequence; dropping x leaves c as a tree one
   * level lower that occupies every node of x's tree but x.
   */
  lemma {:induction false} RootShrink<V>(s1: Store<V>, s2: Store<V>, x: int, h: nat, g: nat)
    requires Tree(s1, x, h) && h == g + 1 && s1[x].n == 0
    requires Agree(s1, s2, Reach(s1, x, h) - {x})
    ensures Children(s1[x]) == [Children(s1[x])[0]]
    ensures Tree(s2, Children(s1[x])[0], g)
    ensures Content(s2, Children(s1[x])[0], g) == Content(s1, x, h)
    ensures Reach(s2, Children(s1[x])[0], g) == Reach(s1, x, h) - {x}
    ensures forall lo, hi :: Filled(s1, x, h, lo, hi) ==>
                             lo <= s2[Children(s1[x])[0]].n <= hi && Filled(s2, Children(s1[x])[0], g, lo, hi)
  {
    var c := Children(s1[x])[0];
    assert Children(s1[x]) == [c];
    Internal(s1, x, h, g);
    ListSingle(s1, c, g);
    RootNotBelow(s1, x, h);
    Frame(s1, s2, c, g);
  }
}
