/**
 * How a recursive operation on a subtree changes the store: the nodes the
 * subtree occupied are replaced by the nodes it occupies afterwards, and
 * every other node is left alone.  Also the facts about one child of a
 * tree that the descending operations need, and the paste step of erase,
 * where an internal entry is overwritten by its predecessor.
 */
module Frames {
  import opened Nodes
  import opened TreeModel
  import opened Steps
  import Slots

  /**
   * s1 is s0 with the nodes R0 replaced by the nodes R1: every other node
   * of s0 is unchanged, and R1 uses only nodes of R0 or nodes s0 did not hold.
   */
  ghost predicate Rewrites<V>(s0: Store<V>, s1: Store<V>, R0: set<int>, R1: set<int>)
  {
    s1.Keys == s0.Keys - R0 + R1 && R1 * s0.Keys <= R0 && Agree(s0, s1, s0.Keys - R0)
  }

  /** Two rewrites in a row, the second of what the first produced. */
  lemma Trans<V>(s0: Store<V>, s1: Store<V>, s2: Store<V>, R0: set<int>, R1: set<int>, R2: set<int>)
    requires Rewrites(s0, s1, R0, R1) && Rewrites(s1, s2, R1, R2)
    ensures Rewrites(s0, s2, R0, R2)
  {
    forall w | w in s0.Keys - R0 ensures w in s1.Keys - R1 {
    }
  }

  /** A rewrite of part of a larger set of nodes is a rewrite of the larger set. */
  lemma Widen<V>(s0: Store<V>, s1: Store<V>, R: set<int>, A: set<int>, B: set<int>)
    requires Rewrites(s0, s1, A, B) && A <= R <= s0.Keys
    ensures Rewrites(s0, s1, R, R - A + B)
  {
  }

  /** A store rewrites itself. */
  lemma Same<V>(s: Store<V>, R: set<int>)
    requires R <= s.Keys
    ensures Rewrites(s, s, R, R)
  {
  }

  /** Child i of a tree is a tree inside it, not containing it, and filled as x's bounds say. */
  lemma {:induction false} ChildOf<V>(s: Store<V>, x: int, h: nat, g: nat, i: int, lo: int, hi: int)
    requires Tree(s, x, h) && h == g + 1 && 0 <= i <= s[x].n
    ensures Tree(s, Children(s[x])[i], g) && Children(s[x])[i] in s
    ensures Reach(s, Children(s[x])[i], g) <= Reach(s, x, h) <= s.Keys
    ensures x !in Reach(s, Children(s[x])[i], g)
    ensures Filled(s, x, h, lo, hi) ==>
            lo <= s[Children(s[x])[i]].n <= hi && Filled(s, Children(s[x])[i], g, lo, hi)
  {
    Internal(s, x, h, g);
    ReachSubset(s, Children(s[x]), g, i);
    RootNotBelow(s, x, h);
    ReachInStore(s, x, h);
  }

  /** Children i and i+1 of a tree are two different nodes, neither of them x. */
  lemma {:induction false} PairOf<V>(s: Store<V>, x: int, h: nat, g: nat, i: int)
    requires Tree(s, x, h) && h == g + 1 && 0 <= i < s[x].n
    ensures Children(s[x])[i] in s && Children(s[x])[i + 1] in s
    ensures Children(s[x])[i] != Children(s[x])[i + 1]
    ensures x != Children(s[x])[i] && x != Children(s[x])[i + 1]
  {
    var cs := Children(s[x]);
    Siblings(s, x, h, g, i);
    assert cs[i] in Reach(s, cs[i], g) && cs[i + 1] in Reach(s, cs[i + 1], g);
    ChildOf(s, x, h, g, i, 0, 0);
    ChildOf(s, x, h, g, i + 1, 0, 0);
  }

  /** Agreement carried across two stores, the second of which changed only x. */
  lemma AgreeChain<V>(s0: Store<V>, s1: Store<V>, s2: Store<V>, x: int, A: set<int>, C: set<int>)
    requires Agree(s0, s1, A) && Agree(s1, s2, s1.Keys - {x}) && C <= A && x !in C
    ensures Agree(s0, s2, C)
  {
  }

  // ---------------------------------------------------------------------
  // erase's paste: child i rewritten below, entry i overwritten by m
  // ---------------------------------------------------------------------

  /**
   * s2 is s1 with entry i of x overwritten by m, where x is the node s0
   * held (the rewrite from s0 to s1 happened below x).
   */
  ghost predicate Pasted<V>(s0: Store<V>, s1: Store<V>, s2: Store<V>, x: int, i: int, m: KeyVal<V>)
  {
    x in s0 && 0 <= i < s0[x].n < |s0[x].items| &&
    x in s2 && s2[x].leaf == s0[x].leaf && 0 <= s2[x].n < |s2[x].items| &&
    Children(s2[x]) == Children(s0[x]) &&
    Entries(s2[x]) == Entries(s0[x])[..i] + [m] + Entries(s0[x])[i + 1..] &&
    s2.Keys == s1.Keys && Agree(s1, s2, s1.Keys - {x})
  }

  /**
   * erase on an internal hit: erase_max rewrote the subtree of child y = i
   * (s0 to s1), then entry i of x was overwritten with m (s1 to s2).  x is
   * still a tree, and its in-order sequence changes only in the block of
   * y, entry i and z = child i+1.
   */
  lemma {:induction false} PasteStep<V>(s0: Store<V>, s1: Store<V>, s2: Store<V>, x: int, h: nat, g: nat, i: int,
                                        y: int, z: int, m: KeyVal<V>, lo: int, hi: int)
    requires Tree(s0, x, h) && h == g + 1 && 0 <= i < s0[x].n
    requires y == Children(s0[x])[i] && z == Children(s0[x])[i + 1] && Wf(s0, y, g)
    requires Tree(s1, y, g) && Rewrites(s0, s1, Reach(s0, y, g), Reach(s1, y, g))
    requires Pasted(s0, s1, s2, x, i, m)
    ensures Tree(s2, x, h) && Wf(s0, z, g)
    ensures Content(s2, x, h) ==
            Pre(Kids(s0, x, h), Entries(s0[x]), i) + (Content(s1, y, g) + [m] + Content(s0, z, g)) +
            Post(Kids(s0, x, h), Entries(s0[x]), i + 1)
    ensures Rewrites(s0, s2, Reach(s0, x, h), Reach(s2, x, h))
    ensures (Filled(s0, x, h, lo, hi) && lo - 1 <= s1[y].n <= hi && Filled(s1, y, g, lo, hi)) ==>
            FilledBut(s2, x, h, i, lo, hi)
  {
    PasteFacts(s0, x, h, g, i, y, z);
    PasteKids(s0, s1, s2, x, g, y, z);
    PastePrep(s0, s1, s2, x, h, g, i, y, z, m);
    TwoList(s2, y, z, g);
    InterleaveTwo(Content(s2, y, g), m, Content(s2, z, g));
    RewriteWindow(s0, s2, x, h, g, i, i + 2, [y, z], [m]);
    PasteReach(s0.Keys, Reach(s0, x, h), Reach(s0, y, g), Reach(s0, z, g), Reach(s1, y, g));
    PasteRewrites(s0, s1, s2, x, Reach(s0, x, h), Reach(s0, y, g), Reach(s1, y, g));
    if Filled(s0, x, h, lo, hi) && lo - 1 <= s1[y].n <= hi && Filled(s1, y, g, lo, hi) {
      PasteFilled(s0, s1, s2, x, h, g, i, y, z, m, lo, hi);
    }
  }

  lemma PasteReach(K: set<int>, R: set<int>, Y: set<int>, Z: set<int>, Y1: set<int>)
    requires Y + Z <= R <= K && Y !! Z && Y1 * K <= Y
    ensures R - (Y + Z) + (Y1 + Z) == R - Y + Y1
  {
  }

  /** Overwriting one node of R outside the rewritten part Y keeps the rewrite a rewrite of R. */
  lemma PasteRewrites<V>(s0: Store<V>, s1: Store<V>, s2: Store<V>, x: int, R: set<int>, Y: set<int>, Y1: set<int>)
    requires Rewrites(s0, s1, Y, Y1) && Y <= R <= s0.Keys && x in R - Y
    requires s2.Keys == s1.Keys && Agree(s1, s2, s1.Keys - {x})
    ensures Rewrites(s0, s2, R, R - Y + Y1)
  {
  }

  /** Children i and i+1 of x: disjoint trees inside x, neither holding x. */
  lemma {:induction false} PasteFacts<V>(s0: Store<V>, x: int, h: nat, g: nat, i: int, y: int, z: int)
    requires Tree(s0, x, h) && h == g + 1 && 0 <= i < s0[x].n
    requires y == Children(s0[x])[i] && z == Children(s0[x])[i + 1]
    ensures Tree(s0, y, g) && Tree(s0, z, g)
    ensures Reach(s0, y, g) !! Reach(s0, z, g)
    ensures Reach(s0, y, g) + Reach(s0, z, g) <= Reach(s0, x, h) <= s0.Keys
    ensures x in Reach(s0, x, h) && x !in Reach(s0, y, g) && x !in Reach(s0, z, g)
  {
    ChildOf(s0, x, h, g, i, 0, 0);
    ChildOf(s0, x, h, g, i + 1, 0, 0);
    Siblings(s0, x, h, g, i);
    UnionWithin(Reach(s0, y, g), Reach(s0, z, g), Reach(s0, x, h));
  }

  /** Children i and i+1 occupy disjoint nodes, and x is one of its own nodes. */
  lemma {:induction false} Siblings<V>(s: Store<V>, x: int, h: nat, g: nat, i: int)
    requires Tree(s, x, h) && h == g + 1 && 0 <= i < s[x].n
    ensures Wf(s, Children(s[x])[i], g) && Wf(s, Children(s[x])[i + 1], g)
    ensures Reach(s, Children(s[x])[i], g) !! Reach(s, Children(s[x])[i + 1], g)
    ensures x in Reach(s, x, h)
  {
    Internal(s, x, h, g);
    var cs := Children(s[x]);
    assert Reach(s, cs[i], g) !! Reach(s, cs[i + 1], g);
  }

  lemma UnionWithin<T>(A: set<T>, B: set<T>, C: set<T>)
    requires A <= C && B <= C
    ensures A + B <= C
  {
  }

  /** The two subtrees around entry i after the paste. */
  lemma {:induction false} PasteKids<V>(s0: Store<V>, s1: Store<V>, s2: Store<V>, x: int, g: nat, y: int, z: int)
    requires Tree(s0, y, g) && Tree(s0, z, g) && Reach(s0, y, g) !! Reach(s0, z, g)
    requires x in s0 && x !in Reach(s0, y, g) && x !in Reach(s0, z, g)
    requires Tree(s1, y, g) && Rewrites(s0, s1, Reach(s0, y, g), Reach(s1, y, g))
    requires s2.Keys == s1.Keys && Agree(s1, s2, s1.Keys - {x})
    ensures Tree(s2, y, g) && Tree(s2, z, g)
    ensures Content(s2, y, g) == Content(s1, y, g) && Reach(s2, y, g) == Reach(s1, y, g)
    ensures s2[y] == s1[y] && forall lo, hi :: Filled(s2, y, g, lo, hi) == Filled(s1, y, g, lo, hi)
    ensures Content(s2, z, g) == Content(s0, z, g) && Reach(s2, z, g) == Reach(s0, z, g)
    ensures Reach(s2, y, g) !! Reach(s2, z, g)
  {
    ReachInStore(s0, z, g);
    PasteY(s0, s1, s2, x, y, g);
    PasteZ(s0, s1, s2, x, z, g, Reach(s0, y, g));
    Apart(s0.Keys, Reach(s0, y, g), Reach(s0, z, g), Reach(s1, y, g));
  }

  lemma Apart(K: set<int>, Y: set<int>, Z: set<int>, Y1: set<int>)
    requires Y !! Z && Z <= K && Y1 * K <= Y
    ensures Y1 !! Z
  {
  }

  /** The rewritten child is untouched by the paste into its parent. */
  lemma {:induction false} PasteY<V>(s0: Store<V>, s1: Store<V>, s2: Store<V>, x: int, y: int, g: nat)
    requires Wf(s0, y, g) && Tree(s1, y, g) && Rewrites(s0, s1, Reach(s0, y, g), Reach(s1, y, g))
    requires x in s0 && x !in Reach(s0, y, g)
    requires s2.Keys == s1.Keys && Agree(s1, s2, s1.Keys - {x})
    ensures Tree(s2, y, g) && Content(s2, y, g) == Content(s1, y, g) && Reach(s2, y, g) == Reach(s1, y, g)
    ensures s2[y] == s1[y] && forall lo, hi :: Filled(s2, y, g, lo, hi) == Filled(s1, y, g, lo, hi)
  {
    ReachInStore(s1, y, g);
    assert x !in Reach(s1, y, g);
    assert y in Reach(s1, y, g);
    Frame(s1, s2, y, g);
  }

  /** The sibling outside the rewrite is untouched by both steps. */
  lemma {:induction false} PasteZ<V>(s0: Store<V>, s1: Store<V>, s2: Store<V>, x: int, z: int, g: nat, Y: set<int>)
    requires Tree(s0, z, g) && Reach(s0, z, g) !! Y && x !in Reach(s0, z, g)
    requires Agree(s0, s1, s0.Keys - Y) && Agree(s1, s2, s1.Keys - {x})
    ensures Tree(s2, z, g) && Content(s2, z, g) == Content(s0, z, g) && Reach(s2, z, g) == Reach(s0, z, g)
  {
    ReachInStore(s0, z, g);
    AgreeChain(s0, s1, s2, x, s0.Keys - Y, Reach(s0, z, g));
    Frame(s0, s2, z, g);
  }

  /** The window facts PasteStep hands to RewriteWindow. */
  lemma {:induction false} PastePrep<V>(s0: Store<V>, s1: Store<V>, s2: Store<V>, x: int, h: nat, g: nat, i: int,
                                        y: int, z: int, m: KeyVal<V>)
    requires Tree(s0, x, h) && h == g + 1 && 0 <= i < s0[x].n
    requires y == Children(s0[x])[i] && z == Children(s0[x])[i + 1] && Wf(s0, y, g)
    requires Wf(s1, y, g) && Rewrites(s0, s1, Reach(s0, y, g), Reach(s1, y, g))
    requires Pasted(s0, s1, s2, x, i, m)
    ensures Children(s2[x]) == Children(s0[x])[..i] + [y, z] + Children(s0[x])[i + 2..]
    ensures Entries(s2[x]) == Entries(s0[x])[..i] + [m] + Entries(s0[x])[i + 2 - 1..]
    ensures WfAll(s0, Children(s0[x])[i..i + 2], g)
    ensures Wf(s0, z, g) && Reaches(s0, Children(s0[x])[i..i + 2], g) == Reach(s0, y, g) + Reach(s0, z, g)
    ensures Agree(s0, s2, s0.Keys - Reaches(s0, Children(s0[x])[i..i + 2], g) - {x})
  {
    var cs := Children(s0[x]);
    assert cs == cs[..i] + [y, z] + cs[i + 2..];
    PairSlice(s0, x, h, g, i);
    AgreeChain(s0, s1, s2, x, s0.Keys - Reach(s0, y, g), s0.Keys - Reaches(s0, cs[i..i + 2], g) - {x});
  }

  /** Two filled siblings, the first of which may be one short. */
  lemma ButPair<V>(s: Store<V>, y: int, z: int, g: nat, lo: int, hi: int)
    requires Wf(s, y, g) && Wf(s, z, g)
    requires lo - 1 <= s[y].n <= hi && Filled(s, y, g, lo, hi)
    requires lo <= s[z].n <= hi && Filled(s, z, g, lo, hi)
    ensures WfAll(s, [y, z], g) && FilledButAll(s, [y, z], g, 0, lo, hi)
  {
  }

  /** The occupancy half of PasteStep: only child i may be one short. */
  lemma {:induction false} PasteFilled<V>(s0: Store<V>, s1: Store<V>, s2: Store<V>, x: int, h: nat, g: nat, i: int,
                                          y: int, z: int, m: KeyVal<V>, lo: int, hi: int)
    requires Tree(s0, x, h) && h == g + 1 && 0 <= i < s0[x].n
    requires y == Children(s0[x])[i] && z == Children(s0[x])[i + 1] && Wf(s0, y, g)
    requires Tree(s1, y, g) && Rewrites(s0, s1, Reach(s0, y, g), Reach(s1, y, g))
    requires Pasted(s0, s1, s2, x, i, m)
    requires Tree(s2, x, h)
    requires Filled(s0, x, h, lo, hi) && lo - 1 <= s1[y].n <= hi && Filled(s1, y, g, lo, hi)
    ensures FilledBut(s2, x, h, i, lo, hi)
  {
    PasteFacts(s0, x, h, g, i, y, z);
    PasteKids(s0, s1, s2, x, g, y, z);
    PastePrep(s0, s1, s2, x, h, g, i, y, z, m);
    ChildOf(s0, x, h, g, i + 1, lo, hi);
    Frame(s0, s2, z, g);
    TwoList(s2, y, z, g);
    assert Filled(s2, y, g, lo, hi) && Filled(s2, z, g, lo, hi);
    ButPair(s2, y, z, g, lo, hi);
    WindowSiblings(s0, s2, x, h, g, i, i + 2);
    FilledButIff(s0, x, h, g, -1, lo, hi);
    ButOutside(s0, x, h, g, -1, i, i + 2, lo, hi);
    ButSplice(s0, s2, x, h, g, i, i + 2, [y, z], i, lo, hi);
  }
}
