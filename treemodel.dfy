/**
 * The abstract view of a B-tree stored node by node in a store that maps
 * node references to nodes.  Both engines keep their nodes in such a store:
 * the in-memory tree under allocation ids, the persistent tree under page
 * indices.
 *
 * A subtree is described by its root reference x and its height h (leaves
 * have height 0, so all leaves sit at the same depth by construction).
 * Content is the in-order sequence of key/value entries, Reach the set of
 * node references the subtree occupies, Tree adds that sibling subtrees
 * share no node, and Filled bounds the entry count of every node strictly
 * below the subtree root.
 */
module TreeModel {
  import opened Nodes

  type Store<V> = map<int, Node<V>>

  /** Well-formed subtree of height h: every node is present and sized, and leaf iff at height 0. */
  ghost predicate Wf<V>(s: Store<V>, x: int, h: nat)
    decreases h, 1
  {
    x in s && 0 <= s[x].n < |s[x].items| && s[x].leaf == (h == 0) &&
    (h > 0 ==> WfAll(s, Children(s[x]), h - 1))
  }

  ghost predicate WfAll<V>(s: Store<V>, cs: seq<int>, g: nat)
    decreases g + 1, 0
  {
    forall j :: 0 <= j < |cs| ==> cs[j] in s && Wf(s, cs[j], g)
  }

  /** The in-order sequence of entries of the subtree. */
  ghost function Content<V>(s: Store<V>, x: int, h: nat): seq<KeyVal<V>>
    requires Wf(s, x, h)
    decreases h, 1
  {
    if h == 0 then Entries(s[x])
    else Interleave(Contents(s, Children(s[x]), h - 1), Entries(s[x]))
  }

  ghost function Contents<V>(s: Store<V>, cs: seq<int>, g: nat): (r: seq<seq<KeyVal<V>>>)
    requires WfAll(s, cs, g)
    ensures |r| == |cs|
    decreases g + 1, 0
  {
    seq(|cs|, j requires 0 <= j < |cs| => Content(s, cs[j], g))
  }

  /** The node references occupied by the subtree. */
  ghost function Reach<V>(s: Store<V>, x: int, h: nat): set<int>
    requires Wf(s, x, h)
    decreases h, 1
  {
    {x} + (if h == 0 then {} else Reaches(s, Children(s[x]), h - 1))
  }

  ghost function Reaches<V>(s: Store<V>, cs: seq<int>, g: nat): set<int>
    requires WfAll(s, cs, g)
    decreases g + 1, 0
  {
    set j, y | 0 <= j < |cs| && y in Reach(s, cs[j], g) :: y
  }

  /** Sibling subtrees occupy pairwise disjoint sets of nodes. */
  ghost predicate Disjoint<V>(s: Store<V>, cs: seq<int>, g: nat)
    requires WfAll(s, cs, g)
  {
    forall j1, j2 {:trigger Reach(s, cs[j1], g), Reach(s, cs[j2], g)} :: 0 <= j1 < j2 < |cs| ==> Reach(s, cs[j1], g) !! Reach(s, cs[j2], g)
  }

  /** A well-formed subtree in which no node is shared. */
  ghost predicate Tree<V>(s: Store<V>, x: int, h: nat)
    decreases h, 1
  {
    Wf(s, x, h) && (h > 0 ==> TreeAll(s, Children(s[x]), h - 1) && Disjoint(s, Children(s[x]), h - 1))
  }

  ghost predicate TreeAll<V>(s: Store<V>, cs: seq<int>, g: nat)
    decreases g + 1, 0
  {
    forall j :: 0 <= j < |cs| ==> Tree(s, cs[j], g)
  }

  /** Every node strictly below x holds between lo and hi entries. */
  ghost predicate Filled<V>(s: Store<V>, x: int, h: nat, lo: int, hi: int)
    requires Wf(s, x, h)
    decreases h, 1
  {
    h > 0 ==> FilledAll(s, Children(s[x]), h - 1, lo, hi)
  }

  ghost predicate FilledAll<V>(s: Store<V>, cs: seq<int>, g: nat, lo: int, hi: int)
    requires WfAll(s, cs, g)
    decreases g + 1, 0
  {
    forall j :: 0 <= j < |cs| ==> lo <= s[cs[j]].n <= hi && Filled(s, cs[j], g, lo, hi)
  }

  /** s2 holds the same node as s1 under every reference of S that s1 holds. */
  ghost predicate Agree<V>(s1: Store<V>, s2: Store<V>, S: set<int>)
  {
    forall y :: y in S && y in s1 ==> y in s2 && s2[y] == s1[y]
  }

  // ---------------------------------------------------------------------
  // Basic facts
  // ---------------------------------------------------------------------

  lemma ReachesMember<V>(s: Store<V>, cs: seq<int>, g: nat, y: int) returns (j: int)
    requires WfAll(s, cs, g) && y in Reaches(s, cs, g)
    ensures 0 <= j < |cs| && y in Reach(s, cs[j], g)
  {
    j :| 0 <= j < |cs| && y in Reach(s, cs[j], g);
  }

  /** A subtree occupies only stored nodes. */
  lemma {:induction false} ReachInStore<V>(s: Store<V>, x: int, h: nat)
    requires Wf(s, x, h)
    ensures Reach(s, x, h) <= s.Keys
    decreases h
  {
    if h > 0 {
      var cs := Children(s[x]);
      forall y | y in Reaches(s, cs, h - 1) ensures y in s {
        var j := ReachesMember(s, cs, h - 1, y);
        ReachInStore(s, cs[j], h - 1);
      }
    }
  }

  /** A node has one height. */
  lemma {:induction false} HeightUnique<V>(s: Store<V>, x: int, h1: nat, h2: nat)
    requires Wf(s, x, h1) && Wf(s, x, h2)
    ensures h1 == h2
    decreases h1
  {
    if h1 > 0 && h2 > 0 {
      HeightUnique(s, Children(s[x])[0], h1 - 1, h2 - 1);
    }
  }

  /** Every node of a subtree is itself the root of a subtree, lower unless it is the root. */
  lemma {:induction false} ReachHeight<V>(s: Store<V>, x: int, h: nat, y: int) returns (g: nat)
    requires Wf(s, x, h) && y in Reach(s, x, h)
    ensures g <= h && Wf(s, y, g) && (y != x ==> g < h)
    decreases h
  {
    if y == x {
      g := h;
    } else {
      var j := ReachesMember(s, Children(s[x]), h - 1, y);
      g := ReachHeight(s, Children(s[x])[j], h - 1, y);
    }
  }

  /** A node of height hy is not inside a subtree of smaller height. */
  lemma NotBelow<V>(s: Store<V>, y: int, hy: nat, w: int, hw: nat)
    requires Wf(s, y, hy) && Wf(s, w, hw) && hw < hy
    ensures y !in Reach(s, w, hw)
  {
    if y in Reach(s, w, hw) {
      var g := ReachHeight(s, w, hw, y);
      HeightUnique(s, y, g, hy);
    }
  }

  /** Subtrees whose nodes did not change keep their shape and content. */
  lemma {:induction false} Frame<V>(s1: Store<V>, s2: Store<V>, x: int, h: nat)
    requires Wf(s1, x, h) && Agree(s1, s2, Reach(s1, x, h))
    ensures Wf(s2, x, h)
    ensures Reach(s2, x, h) == Reach(s1, x, h)
    ensures Content(s2, x, h) == Content(s1, x, h)
    ensures Tree(s2, x, h) == Tree(s1, x, h)
    ensures forall lo, hi :: Filled(s2, x, h, lo, hi) == Filled(s1, x, h, lo, hi)
    decreases h, 2
  {
    assert x in Reach(s1, x, h);
    if h == 0 {
      Leaf(s1, x);
      Leaf(s2, x);
    } else {
      FrameNode(s1, s2, x, h, h - 1);
    }
  }

  lemma {:induction false} FrameNode<V>(s1: Store<V>, s2: Store<V>, x: int, h: nat, g: nat)
    requires Wf(s1, x, h) && h == g + 1 && Agree(s1, s2, Reach(s1, x, h))
    ensures Wf(s2, x, h)
    ensures Reach(s2, x, h) == Reach(s1, x, h)
    ensures Content(s2, x, h) == Content(s1, x, h)
    ensures Tree(s2, x, h) == Tree(s1, x, h)
    ensures forall lo, hi :: Filled(s2, x, h, lo, hi) == Filled(s1, x, h, lo, hi)
    decreases h, 1
  {
    var cs := Children(s1[x]);
    assert x in Reach(s1, x, h) && s2[x] == s1[x];
    Internal(s1, x, h, g);
    FrameAll(s1, s2, cs, g);
    Internal(s2, x, h, g);
  }

  lemma {:induction false} FrameAll<V>(s1: Store<V>, s2: Store<V>, cs: seq<int>, g: nat)
    requires WfAll(s1, cs, g) && Agree(s1, s2, Reaches(s1, cs, g))
    ensures WfAll(s2, cs, g)
    ensures Reaches(s2, cs, g) == Reaches(s1, cs, g)
    ensures Contents(s2, cs, g) == Contents(s1, cs, g)
    ensures TreeAll(s2, cs, g) == TreeAll(s1, cs, g)
    ensures Disjoint(s2, cs, g) == Disjoint(s1, cs, g)
    ensures forall lo, hi :: FilledAll(s2, cs, g, lo, hi) == FilledAll(s1, cs, g, lo, hi)
    decreases g + 1, 0
  {
    forall j | 0 <= j < |cs| ensures Agree(s1, s2, Reach(s1, cs[j], g)) {
      assert Reach(s1, cs[j], g) <= Reaches(s1, cs, g);
    }
    forall j | 0 <= j < |cs|
      ensures Wf(s2, cs[j], g) && Reach(s2, cs[j], g) == Reach(s1, cs[j], g)
      ensures Content(s2, cs[j], g) == Content(s1, cs[j], g)
      ensures Tree(s2, cs[j], g) == Tree(s1, cs[j], g)
      ensures forall lo, hi :: Filled(s2, cs[j], g, lo, hi) == Filled(s1, cs[j], g, lo, hi)
      ensures s2[cs[j]] == s1[cs[j]]
    {
      Frame(s1, s2, cs[j], g);
    }
  }

  // ---------------------------------------------------------------------
  // Lists of sibling subtrees
  // ---------------------------------------------------------------------

  lemma ReachSubset<V>(s: Store<V>, cs: seq<int>, g: nat, j: int)
    requires WfAll(s, cs, g) && 0 <= j < |cs|
    ensures Reach(s, cs[j], g) <= Reaches(s, cs, g)
  {
    forall y | y in Reach(s, cs[j], g) ensures y in Reaches(s, cs, g) {
      assert 0 <= j < |cs| && y in Reach(s, cs[j], g);
    }
  }

  lemma {:induction false} ReachesInStore<V>(s: Store<V>, cs: seq<int>, g: nat)
    requires WfAll(s, cs, g)
    ensures Reaches(s, cs, g) <= s.Keys
  {
    forall y | y in Reaches(s, cs, g) ensures y in s {
      var j := ReachesMember(s, cs, g, y);
      ReachInStore(s, cs[j], g);
    }
  }

  /** A node is not inside the subtrees of its own children. */
  lemma RootNotBelow<V>(s: Store<V>, x: int, h: nat)
    requires Wf(s, x, h) && h > 0
    ensures x !in Reaches(s, Children(s[x]), h - 1)
  {
    var cs := Children(s[x]);
    if x in Reaches(s, cs, h - 1) {
      var j := ReachesMember(s, cs, h - 1, x);
      NotBelow(s, x, h, cs[j], h - 1);
    }
  }

  lemma {:induction false} ListSingle<V>(s: Store<V>, y: int, g: nat)
    requires Wf(s, y, g)
    ensures WfAll(s, [y], g) && Contents(s, [y], g) == [Content(s, y, g)]
    ensures Reaches(s, [y], g) == Reach(s, y, g) && Disjoint(s, [y], g)
    ensures TreeAll(s, [y], g) <==> Tree(s, y, g)
    ensures forall lo, hi :: FilledAll(s, [y], g, lo, hi) <==> lo <= s[y].n <= hi && Filled(s, y, g, lo, hi)
  {
    assert WfAll(s, [y], g);
    ReachSubset(s, [y], g, 0);
    forall z | z in Reaches(s, [y], g) ensures z in Reach(s, y, g) {
      var j := ReachesMember(s, [y], g, z);
    }
  }

  lemma {:induction false} ListSlice<V>(s: Store<V>, cs: seq<int>, g: nat, i: int, j: int)
    requires WfAll(s, cs, g) && 0 <= i <= j <= |cs|
    ensures WfAll(s, cs[i..j], g)
    ensures Contents(s, cs[i..j], g) == Contents(s, cs, g)[i..j]
    ensures Reaches(s, cs[i..j], g) <= Reaches(s, cs, g)
    ensures TreeAll(s, cs, g) ==> TreeAll(s, cs[i..j], g)
    ensures Disjoint(s, cs, g) ==> Disjoint(s, cs[i..j], g)
    ensures forall lo, hi :: FilledAll(s, cs, g, lo, hi) ==> FilledAll(s, cs[i..j], g, lo, hi)
  {
    var w := cs[i..j];
    assert forall q :: 0 <= q < |w| ==> w[q] == cs[i + q];
    assert WfAll(s, w, g);
    forall y | y in Reaches(s, w, g) ensures y in Reaches(s, cs, g) {
      var q := ReachesMember(s, w, g, y);
      ReachSubset(s, cs, g, i + q);
    }
    if Disjoint(s, cs, g) {
      forall q1, q2 | 0 <= q1 < q2 < |w| ensures Reach(s, w[q1], g) !! Reach(s, w[q2], g) {
        assert w[q1] == cs[i + q1] && w[q2] == cs[i + q2];
      }
    }
  }

  lemma {:induction false} ConcatContents<V>(s: Store<V>, a: seq<int>, b: seq<int>, g: nat)
    requires WfAll(s, a, g) && WfAll(s, b, g)
    ensures WfAll(s, a + b, g)
    ensures Contents(s, a + b, g) == Contents(s, a, g) + Contents(s, b, g)
  {
    var c := a + b;
    assert forall j :: 0 <= j < |b| ==> c[|a| + j] == b[j];
    assert WfAll(s, c, g);
  }

  lemma {:induction false} ConcatReaches<V>(s: Store<V>, a: seq<int>, b: seq<int>, g: nat)
    requires WfAll(s, a, g) && WfAll(s, b, g) && WfAll(s, a + b, g)
    ensures Reaches(s, a + b, g) == Reaches(s, a, g) + Reaches(s, b, g)
  {
    var c := a + b;
    forall y | y in Reaches(s, c, g) ensures y in Reaches(s, a, g) + Reaches(s, b, g) {
      var j := ReachesMember(s, c, g, y);
      if j < |a| {
        ReachSubset(s, a, g, j);
      } else {
        assert c[j] == b[j - |a|];
        ReachSubset(s, b, g, j - |a|);
      }
    }
    forall y | y in Reaches(s, a, g) + Reaches(s, b, g) ensures y in Reaches(s, c, g) {
      if y in Reaches(s, a, g) {
        var j := ReachesMember(s, a, g, y);
        ReachSubset(s, c, g, j);
      } else {
        var j := ReachesMember(s, b, g, y);
        assert c[|a| + j] == b[j];
        ReachSubset(s, c, g, |a| + j);
      }
    }
  }

  lemma {:induction false} ConcatDisjoint<V>(s: Store<V>, a: seq<int>, b: seq<int>, g: nat)
    requires WfAll(s, a, g) && WfAll(s, b, g) && WfAll(s, a + b, g)
    requires Disjoint(s, a, g) && Disjoint(s, b, g) && Reaches(s, a, g) !! Reaches(s, b, g)
    ensures Disjoint(s, a + b, g)
  {
    var c := a + b;
    forall j1, j2 | 0 <= j1 < j2 < |c| ensures Reach(s, c[j1], g) !! Reach(s, c[j2], g) {
      if j2 < |a| {
        assert c[j1] == a[j1] && c[j2] == a[j2];
      } else if j1 >= |a| {
        assert c[j1] == b[j1 - |a|] && c[j2] == b[j2 - |a|];
      } else {
        assert c[j1] == a[j1] && c[j2] == b[j2 - |a|];
        ReachSubset(s, a, g, j1);
        ReachSubset(s, b, g, j2 - |a|);
      }
    }
  }

  lemma {:induction false} DisjointParts<V>(s: Store<V>, a: seq<int>, b: seq<int>, g: nat)
    requires WfAll(s, a, g) && WfAll(s, b, g) && WfAll(s, a + b, g)
    requires Disjoint(s, a + b, g)
    ensures Reaches(s, a, g) !! Reaches(s, b, g)
  {
    var c := a + b;
    forall y | y in Reaches(s, a, g) ensures y !in Reaches(s, b, g) {
      var j1 := ReachesMember(s, a, g, y);
      forall j2 | 0 <= j2 < |b| ensures y !in Reach(s, b[j2], g) {
        assert c[j1] == a[j1] && c[|a| + j2] == b[j2];
      }
    }
  }

  lemma {:induction false} ConcatTree<V>(s: Store<V>, a: seq<int>, b: seq<int>, g: nat)
    ensures TreeAll(s, a + b, g) <==> TreeAll(s, a, g) && TreeAll(s, b, g)
  {
    var c := a + b;
    assert forall j :: 0 <= j < |a| ==> c[j] == a[j];
    assert forall j :: 0 <= j < |b| ==> c[|a| + j] == b[j];
    if TreeAll(s, a, g) && TreeAll(s, b, g) {
      forall j | 0 <= j < |c| ensures Tree(s, c[j], g) {
        if j >= |a| { assert c[j] == b[j - |a|]; }
      }
    }
  }

  lemma {:induction false} ConcatFilled<V>(s: Store<V>, a: seq<int>, b: seq<int>, g: nat)
    requires WfAll(s, a, g) && WfAll(s, b, g) && WfAll(s, a + b, g)
    ensures forall lo, hi :: FilledAll(s, a + b, g, lo, hi) <==> FilledAll(s, a, g, lo, hi) && FilledAll(s, b, g, lo, hi)
  {
    var c := a + b;
    assert forall j :: 0 <= j < |a| ==> c[j] == a[j];
    assert forall j :: 0 <= j < |b| ==> c[|a| + j] == b[j];
    forall lo, hi | FilledAll(s, a, g, lo, hi) && FilledAll(s, b, g, lo, hi) ensures FilledAll(s, c, g, lo, hi) {
      forall j | 0 <= j < |c| ensures lo <= s[c[j]].n <= hi && Filled(s, c[j], g, lo, hi) {
        if j >= |a| { assert c[j] == b[j - |a|]; }
      }
    }
  }

  /** Sibling lists compose by concatenation. */
  lemma ListConcat<V>(s: Store<V>, a: seq<int>, b: seq<int>, g: nat)
    requires WfAll(s, a, g) && WfAll(s, b, g)
    ensures WfAll(s, a + b, g)
    ensures Contents(s, a + b, g) == Contents(s, a, g) + Contents(s, b, g)
    ensures Reaches(s, a + b, g) == Reaches(s, a, g) + Reaches(s, b, g)
    ensures TreeAll(s, a + b, g) <==> TreeAll(s, a, g) && TreeAll(s, b, g)
    ensures Disjoint(s, a + b, g) <==>
            Disjoint(s, a, g) && Disjoint(s, b, g) && Reaches(s, a, g) !! Reaches(s, b, g)
    ensures forall lo, hi :: FilledAll(s, a + b, g, lo, hi) <==> FilledAll(s, a, g, lo, hi) && FilledAll(s, b, g, lo, hi)
  {
    ConcatContents(s, a, b, g);
    ConcatReaches(s, a, b, g);
    ConcatTree(s, a, b, g);
    ConcatFilled(s, a, b, g);
    var c := a + b;
    assert c[..|a|] == a && c[|a|..] == b;
    if Disjoint(s, c, g) {
      ListSlice(s, c, g, 0, |a|);
      ListSlice(s, c, g, |a|, |c|);
      DisjointParts(s, a, b, g);
    }
    if Disjoint(s, a, g) && Disjoint(s, b, g) && Reaches(s, a, g) !! Reaches(s, b, g) {
      ConcatDisjoint(s, a, b, g);
    }
  }

  /** Three sibling lists compose by concatenation. */
  lemma {:induction false} ListConcat3<V>(s: Store<V>, a: seq<int>, b: seq<int>, c: seq<int>, g: nat)
    requires WfAll(s, a, g) && WfAll(s, b, g) && WfAll(s, c, g)
    ensures WfAll(s, a + b + c, g)
    ensures Contents(s, a + b + c, g) == Contents(s, a, g) + Contents(s, b, g) + Contents(s, c, g)
    ensures Reaches(s, a + b + c, g) == Reaches(s, a, g) + Reaches(s, b, g) + Reaches(s, c, g)
    ensures TreeAll(s, a + b + c, g) <==> TreeAll(s, a, g) && TreeAll(s, b, g) && TreeAll(s, c, g)
    ensures Disjoint(s, a + b + c, g) <==>
            Disjoint(s, a, g) && Disjoint(s, b, g) && Disjoint(s, c, g) &&
            Reaches(s, a, g) !! Reaches(s, b, g) && Reaches(s, a, g) !! Reaches(s, c, g) &&
            Reaches(s, b, g) !! Reaches(s, c, g)
    ensures forall lo, hi :: FilledAll(s, a + b + c, g, lo, hi) <==>
              FilledAll(s, a, g, lo, hi) && FilledAll(s, b, g, lo, hi) && FilledAll(s, c, g, lo, hi)
  {
    ListConcat(s, a, b, g);
    ListConcat(s, a + b, c, g);
  }

  // ---------------------------------------------------------------------
  // Rewriting a node's children
  // ---------------------------------------------------------------------

  /** Builds an internal node's facts from the facts about its children. */
  lemma {:induction false} Internal<V>(s: Store<V>, x: int, h: nat, g: nat)
    requires h == g + 1 && x in s && 0 <= s[x].n < |s[x].items| && !s[x].leaf
    requires WfAll(s, Children(s[x]), g)
    ensures Wf(s, x, h)
    ensures Tree(s, x, h) <==> TreeAll(s, Children(s[x]), g) && Disjoint(s, Children(s[x]), g)
    ensures Reach(s, x, h) == {x} + Reaches(s, Children(s[x]), g)
    ensures Content(s, x, h) == Interleave(Contents(s, Children(s[x]), g), Entries(s[x]))
    ensures forall lo, hi :: Filled(s, x, h, lo, hi) <==> FilledAll(s, Children(s[x]), g, lo, hi)
  {
  }

  /** The in-order contents of the children of x. */
  ghost function Kids<V>(s: Store<V>, x: int, h: nat): seq<seq<KeyVal<V>>>
    requires Wf(s, x, h) && h > 0
  {
    Contents(s, Children(s[x]), h - 1)
  }

  lemma KidsAt<V>(s: Store<V>, x: int, h: nat, g: nat, i: int)
    requires Wf(s, x, h) && h == g + 1 && 0 <= i <= s[x].n
    ensures WfAll(s, Children(s[x]), g) && Wf(s, Children(s[x])[i], g)
    ensures Kids(s, x, h)[i] == Content(s, Children(s[x])[i], g)
  {
  }

  /** The in-order sequence of an internal node around its child i. */
  lemma {:induction false} ContentAt<V>(s: Store<V>, x: int, h: nat, g: nat, i: int)
    requires Wf(s, x, h) && h == g + 1 && 0 <= i <= s[x].n
    ensures WfAll(s, Children(s[x]), g) && Wf(s, Children(s[x])[i], g)
    ensures Content(s, x, h) ==
            Pre(Kids(s, x, h), Entries(s[x]), i) + Content(s, Children(s[x])[i], g) + Post(Kids(s, x, h), Entries(s[x]), i)
  {
    KidsAt(s, x, h, g, i);
    InterleaveAt(Kids(s, x, h), Entries(s[x]), i);
  }

  /** The in-order sequence of an internal node around its children i and i+1. */
  lemma {:induction false} ContentPair<V>(s: Store<V>, x: int, h: nat, g: nat, i: int)
    requires Wf(s, x, h) && h == g + 1 && 0 <= i < s[x].n
    ensures WfAll(s, Children(s[x]), g) && Wf(s, Children(s[x])[i], g) && Wf(s, Children(s[x])[i + 1], g)
    ensures Content(s, x, h) ==
            Pre(Kids(s, x, h), Entries(s[x]), i)
            + (Content(s, Children(s[x])[i], g) + [Entries(s[x])[i]] + Content(s, Children(s[x])[i + 1], g))
            + Post(Kids(s, x, h), Entries(s[x]), i + 1)
  {
    var K, E := Kids(s, x, h), Entries(s[x]);
    KidsAt(s, x, h, g, i);
    KidsAt(s, x, h, g, i + 1);
    assert K[i..i + 2] == [K[i], K[i + 1]] && E[i..i + 1] == [E[i]];
    InterleaveWindow(K, E, i, i + 2);
    InterleaveTwo(K[i], E[i], K[i + 1]);
  }

  /** The children of x cut into the block a..b-1 and the siblings before and after it. */
  lemma {:induction false} WindowParts<V>(s: Store<V>, x: int, h: nat, g: nat, a: int, b: int)
    requires Tree(s, x, h) && h == g + 1 && 0 <= a < b <= s[x].n + 1
    ensures WfAll(s, Children(s[x]), g)
    ensures WfAll(s, Children(s[x])[..a], g) && WfAll(s, Children(s[x])[a..b], g) && WfAll(s, Children(s[x])[b..], g)
    ensures TreeAll(s, Children(s[x])[..a], g) && TreeAll(s, Children(s[x])[b..], g)
    ensures Disjoint(s, Children(s[x])[..a], g) && Disjoint(s, Children(s[x])[b..], g)
    ensures Reaches(s, Children(s[x])[..a], g) !! Reaches(s, Children(s[x])[a..b], g)
    ensures Reaches(s, Children(s[x])[b..], g) !! Reaches(s, Children(s[x])[a..b], g)
    ensures Reaches(s, Children(s[x])[..a], g) !! Reaches(s, Children(s[x])[b..], g)
    ensures Reaches(s, Children(s[x]), g) == Reaches(s, Children(s[x])[..a], g)
            + Reaches(s, Children(s[x])[a..b], g) + Reaches(s, Children(s[x])[b..], g)
    ensures Reach(s, x, h) == {x} + Reaches(s, Children(s[x]), g)
    ensures x !in Reaches(s, Children(s[x]), g) && Reaches(s, Children(s[x]), g) <= s.Keys
    ensures Kids(s, x, h)[..a] == Contents(s, Children(s[x])[..a], g)
    ensures Kids(s, x, h)[b..] == Contents(s, Children(s[x])[b..], g)
  {
    var cs := Children(s[x]);
    var pre, win, post := cs[..a], cs[a..b], cs[b..];
    assert cs == pre + win + post;
    assert cs[0..a] == pre && cs[b..|cs|] == post;
    Internal(s, x, h, g);
    ListSlice(s, cs, g, 0, a);
    ListSlice(s, cs, g, a, b);
    ListSlice(s, cs, g, b, |cs|);
    ListConcat3(s, pre, win, post, g);
    ReachesInStore(s, cs, g);
    RootNotBelow(s, x, h);
    var K := Contents(s, cs, g);
    assert K[..a] == K[0..a] && K[b..] == K[b..|cs|];
  }

  /** In a filled node, every block of children is filled. */
  lemma {:induction false} WindowFilled<V>(s: Store<V>, x: int, h: nat, g: nat, a: int, b: int, lo: int, hi: int)
    requires Tree(s, x, h) && h == g + 1 && 0 <= a < b <= s[x].n + 1 && Filled(s, x, h, lo, hi)
    ensures WfAll(s, Children(s[x])[..a], g) && WfAll(s, Children(s[x])[a..b], g) && WfAll(s, Children(s[x])[b..], g)
    ensures FilledAll(s, Children(s[x])[..a], g, lo, hi) && FilledAll(s, Children(s[x])[b..], g, lo, hi)
    ensures FilledAll(s, Children(s[x])[a..b], g, lo, hi)
  {
    var cs := Children(s[x]);
    assert cs[0..a] == cs[..a] && cs[b..|cs|] == cs[b..];
    Internal(s, x, h, g);
    ListSlice(s, cs, g, 0, a);
    ListSlice(s, cs, g, a, b);
    ListSlice(s, cs, g, b, |cs|);
  }

  /** The siblings outside the block a..b-1 are untouched when nothing outside the block changed. */
  lemma {:induction false} WindowSiblings<V>(s1: Store<V>, s2: Store<V>, x: int, h: nat, g: nat, a: int, b: int)
    requires Tree(s1, x, h) && h == g + 1 && 0 <= a < b <= s1[x].n + 1
    requires WfAll(s1, Children(s1[x])[a..b], g)
    requires Agree(s1, s2, s1.Keys - Reaches(s1, Children(s1[x])[a..b], g) - {x})
    ensures WfAll(s1, Children(s1[x])[..a], g) && WfAll(s1, Children(s1[x])[b..], g)
    ensures Agree(s1, s2, Reaches(s1, Children(s1[x])[..a], g))
    ensures Agree(s1, s2, Reaches(s1, Children(s1[x])[b..], g))
  {
    WindowParts(s1, x, h, g, a, b);
  }

  /** The child list of x with the block a..b-1 replaced by ws, in the new store. */
  lemma {:induction false} WindowNewList<V>(s1: Store<V>, s2: Store<V>, x: int, h: nat, g: nat, a: int, b: int,
                                            ws: seq<int>)
    requires Tree(s1, x, h) && h == g + 1 && 0 <= a < b <= s1[x].n + 1
    requires WfAll(s2, ws, g) && TreeAll(s2, ws, g) && Disjoint(s2, ws, g)
    requires WfAll(s1, Children(s1[x])[a..b], g)
    requires Reaches(s2, ws, g) * s1.Keys <= Reaches(s1, Children(s1[x])[a..b], g)
    requires Agree(s1, s2, s1.Keys - Reaches(s1, Children(s1[x])[a..b], g) - {x})
    ensures WfAll(s2, Children(s1[x])[..a] + ws + Children(s1[x])[b..], g)
    ensures TreeAll(s2, Children(s1[x])[..a] + ws + Children(s1[x])[b..], g)
    ensures Disjoint(s2, Children(s1[x])[..a] + ws + Children(s1[x])[b..], g)
    ensures x !in Reaches(s2, Children(s1[x])[..a] + ws + Children(s1[x])[b..], g)
    ensures Reaches(s2, Children(s1[x])[..a] + ws + Children(s1[x])[b..], g) ==
            Reaches(s1, Children(s1[x]), g) - Reaches(s1, Children(s1[x])[a..b], g) + Reaches(s2, ws, g)
    ensures Contents(s2, Children(s1[x])[..a] + ws + Children(s1[x])[b..], g) ==
            Kids(s1, x, h)[..a] + Contents(s2, ws, g) + Kids(s1, x, h)[b..]
    ensures forall lo, hi :: FilledAll(s2, Children(s1[x])[..a] + ws + Children(s1[x])[b..], g, lo, hi) <==>
            FilledAll(s1, Children(s1[x])[..a], g, lo, hi) &&
            FilledAll(s2, ws, g, lo, hi) &&
            FilledAll(s1, Children(s1[x])[b..], g, lo, hi)
  {
    var cs := Children(s1[x]);
    var pre, post := cs[..a], cs[b..];
    WindowParts(s1, x, h, g, a, b);
    WindowSiblings(s1, s2, x, h, g, a, b);
    FrameAll(s1, s2, pre, g);
    FrameAll(s1, s2, post, g);
    ListConcat3(s2, pre, ws, post, g);
  }

  /**
   * The children a..b-1 of x (and the entries between them) are replaced by
   * the subtrees ws (with the entries wes between them); every other stored
   * node outside the replaced subtrees is unchanged, and the new subtrees
   * use only nodes of the replaced ones or nodes that were not stored.
   * Then x is still a tree, its in-order sequence changes only in the
   * replaced block, and it occupies the replaced block's nodes swapped for
   * the new ones.
   */
  lemma {:induction false} RewriteWindow<V>(s1: Store<V>, s2: Store<V>, x: int, h: nat, g: nat, a: int, b: int,
                                            ws: seq<int>, wes: seq<KeyVal<V>>)
    requires Tree(s1, x, h) && h == g + 1 && 0 <= a < b <= s1[x].n + 1
    requires x in s2 && s2[x].leaf == s1[x].leaf && 0 <= s2[x].n < |s2[x].items|
    requires Children(s2[x]) == Children(s1[x])[..a] + ws + Children(s1[x])[b..]
    requires Entries(s2[x]) == Entries(s1[x])[..a] + wes + Entries(s1[x])[b - 1..]
    requires |ws| == |wes| + 1
    requires WfAll(s2, ws, g) && TreeAll(s2, ws, g) && Disjoint(s2, ws, g)
    requires WfAll(s1, Children(s1[x])[a..b], g)
    requires Reaches(s2, ws, g) * s1.Keys <= Reaches(s1, Children(s1[x])[a..b], g)
    requires Agree(s1, s2, s1.Keys - Reaches(s1, Children(s1[x])[a..b], g) - {x})
    ensures Tree(s2, x, h)
    ensures Reach(s2, x, h) ==
            Reach(s1, x, h) - Reaches(s1, Children(s1[x])[a..b], g) + Reaches(s2, ws, g)
    ensures Content(s2, x, h) ==
            Pre(Kids(s1, x, h), Entries(s1[x]), a)
            + Interleave(Contents(s2, ws, g), wes)
            + Post(Kids(s1, x, h), Entries(s1[x]), b - 1)
    ensures WfAll(s1, Children(s1[x])[..a], g) && WfAll(s1, Children(s1[x])[b..], g)
    ensures WfAll(s2, Children(s2[x]), g)
    ensures forall lo, hi :: FilledAll(s2, Children(s2[x]), g, lo, hi) <==>
            FilledAll(s1, Children(s1[x])[..a], g, lo, hi) &&
            FilledAll(s2, ws, g, lo, hi) &&
            FilledAll(s1, Children(s1[x])[b..], g, lo, hi)
  {
    var cs := Children(s1[x]);
    var cs2 := cs[..a] + ws + cs[b..];
    WindowParts(s1, x, h, g, a, b);
    WindowNewList(s1, s2, x, h, g, a, b, ws);
    assert Children(s2[x]) == cs2;
    Internal(s2, x, h, g);
    Internal(s1, x, h, g);
    InterleaveSplice(Kids(s1, x, h), Entries(s1[x]), a, b, Contents(s2, ws, g), wes);
  }

  /** A leaf's facts. */
  lemma {:induction false} Leaf<V>(s: Store<V>, x: int)
    requires x in s && 0 <= s[x].n < |s[x].items| && s[x].leaf
    ensures Wf(s, x, 0) && Tree(s, x, 0)
    ensures Reach(s, x, 0) == {x} && Content(s, x, 0) == Entries(s[x])
    ensures forall lo, hi :: Filled(s, x, 0, lo, hi)
  {
  }

  // ---------------------------------------------------------------------
  // Regrouping sibling nodes
  // ---------------------------------------------------------------------

  /**
   * Two internal nodes y and z whose children are the list C cut at k:
   * together they hold C's subtrees with y's entries, m and z's entries
   * interleaved.
   */
  lemma {:induction false} TwoNodes<V>(s: Store<V>, y: int, z: int, g: nat, gg: nat, C: seq<int>, k: int,
                                       m: KeyVal<V>)
    requires g == gg + 1 && WfAll(s, C, gg) && TreeAll(s, C, gg) && Disjoint(s, C, gg) && 0 < k < |C|
    requires y in s && z in s && y != z && y !in Reaches(s, C, gg) && z !in Reaches(s, C, gg)
    requires !s[y].leaf && 0 <= s[y].n < |s[y].items| && Children(s[y]) == C[..k]
    requires !s[z].leaf && 0 <= s[z].n < |s[z].items| && Children(s[z]) == C[k..]
    ensures Tree(s, y, g) && Tree(s, z, g) && Reach(s, y, g) !! Reach(s, z, g)
    ensures Reach(s, y, g) + Reach(s, z, g) == {y, z} + Reaches(s, C, gg)
    ensures Content(s, y, g) + [m] + Content(s, z, g) ==
            Interleave(Contents(s, C, gg), Entries(s[y]) + [m] + Entries(s[z]))
    ensures forall lo, hi :: FilledAll(s, C, gg, lo, hi) ==> Filled(s, y, g, lo, hi) && Filled(s, z, g, lo, hi)
  {
    assert C == C[..k] + C[k..];
    ListSlice(s, C, gg, 0, k);
    ListSlice(s, C, gg, k, |C|);
    ListConcat(s, C[..k], C[k..], gg);
    Internal(s, y, g, gg);
    Internal(s, z, g, gg);
    InterleaveConcat(Contents(s, C[..k], gg), Entries(s[y]), m, Contents(s, C[k..], gg), Entries(s[z]));
  }

  /**
   * A node y is cut at entry k-1: y keeps the entries before it and the
   * children up to k-1, a node z that was not part of y's subtree receives
   * the entries after it and the remaining children.  The two halves with
   * the cut entry between them hold y's old in-order sequence.
   */
  lemma {:induction false} SplitNode<V>(s1: Store<V>, s2: Store<V>, y: int, z: int, g: nat, k: int)
    requires Tree(s1, y, g) && 0 < k <= s1[y].n && z !in Reach(s1, y, g)
    requires y in s2 && z in s2
    requires s2[y].leaf == s1[y].leaf && 0 <= s2[y].n < |s2[y].items|
    requires s2[z].leaf == s1[y].leaf && 0 <= s2[z].n < |s2[z].items|
    requires Entries(s2[y]) == Entries(s1[y])[..k - 1] && Entries(s2[z]) == Entries(s1[y])[k..]
    requires g > 0 ==> Children(s2[y]) == Children(s1[y])[..k] && Children(s2[z]) == Children(s1[y])[k..]
    requires Agree(s1, s2, Reach(s1, y, g) - {y})
    ensures Tree(s2, y, g) && Tree(s2, z, g) && Reach(s2, y, g) !! Reach(s2, z, g)
    ensures Content(s2, y, g) + [Entries(s1[y])[k - 1]] + Content(s2, z, g) == Content(s1, y, g)
    ensures Reach(s2, y, g) + Reach(s2, z, g) == Reach(s1, y, g) + {z}
    ensures forall lo, hi :: Filled(s1, y, g, lo, hi) ==> Filled(s2, y, g, lo, hi) && Filled(s2, z, g, lo, hi)
  {
    var E := Entries(s1[y]);
    if g == 0 {
      Leaf(s1, y);
      Leaf(s2, y);
      Leaf(s2, z);
      assert E[..k - 1] + [E[k - 1]] + E[k..] == E;
    } else {
      var gg := g - 1;
      var cs := Children(s1[y]);
      Internal(s1, y, g, gg);
      RootNotBelow(s1, y, g);
      FrameAll(s1, s2, cs, gg);
      assert E == E[..k - 1] + [E[k - 1]] + E[k..];
      TwoNodes(s2, y, z, g, gg, cs, k, E[k - 1]);
    }
  }

  /**
   * Two sibling nodes y and z with the entry m between them become one node
   * y holding y's entries, m and z's entries, and y's then z's children.
   */
  lemma {:induction false} MergeNodes<V>(s1: Store<V>, s2: Store<V>, y: int, z: int, g: nat, m: KeyVal<V>)
    requires Tree(s1, y, g) && Tree(s1, z, g) && Reach(s1, y, g) !! Reach(s1, z, g)
    requires y in s2 && s2[y].leaf == s1[y].leaf && 0 <= s2[y].n < |s2[y].items|
    requires Entries(s2[y]) == Entries(s1[y]) + [m] + Entries(s1[z])
    requires g > 0 ==> Children(s2[y]) == Children(s1[y]) + Children(s1[z])
    requires Agree(s1, s2, Reach(s1, y, g) - {y})
    requires Agree(s1, s2, Reach(s1, z, g) - {z})
    ensures Tree(s2, y, g)
    ensures Content(s2, y, g) == Content(s1, y, g) + [m] + Content(s1, z, g)
    ensures Reach(s2, y, g) == Reach(s1, y, g) + Reach(s1, z, g) - {z}
    ensures forall lo, hi :: Filled(s1, y, g, lo, hi) && Filled(s1, z, g, lo, hi) ==> Filled(s2, y, g, lo, hi)
  {
    if g == 0 {
      Leaf(s1, y);
      Leaf(s1, z);
      Leaf(s2, y);
    } else {
      MergeInternal(s1, s2, y, z, g, g - 1, m);
    }
  }

  lemma {:induction false} MergeInternal<V>(s1: Store<V>, s2: Store<V>, y: int, z: int, g: nat, gg: nat,
                                            m: KeyVal<V>)
    requires Tree(s1, y, g) && Tree(s1, z, g) && Reach(s1, y, g) !! Reach(s1, z, g) && g == gg + 1
    requires y in s2 && !s2[y].leaf && 0 <= s2[y].n < |s2[y].items|
    requires Entries(s2[y]) == Entries(s1[y]) + [m] + Entries(s1[z])
    requires Children(s2[y]) == Children(s1[y]) + Children(s1[z])
    requires Agree(s1, s2, Reach(s1, y, g) - {y})
    requires Agree(s1, s2, Reach(s1, z, g) - {z})
    ensures Tree(s2, y, g)
    ensures Content(s2, y, g) == Content(s1, y, g) + [m] + Content(s1, z, g)
    ensures Reach(s2, y, g) == Reach(s1, y, g) + Reach(s1, z, g) - {z}
    ensures forall lo, hi :: Filled(s1, y, g, lo, hi) && Filled(s1, z, g, lo, hi) ==> Filled(s2, y, g, lo, hi)
  {
    var cy, cz := Children(s1[y]), Children(s1[z]);
    Internal(s1, y, g, gg);
    Internal(s1, z, g, gg);
    RootNotBelow(s1, y, g);
    RootNotBelow(s1, z, g);
    FrameAll(s1, s2, cy, gg);
    FrameAll(s1, s2, cz, gg);
    ListConcat(s2, cy, cz, gg);
    assert Reaches(s2, cy, gg) !! Reaches(s2, cz, gg);
    Internal(s2, y, g, gg);
    InterleaveConcat(Contents(s1, cy, gg), Entries(s1[y]), m, Contents(s1, cz, gg), Entries(s1[z]));
  }

  /**
   * Two sibling nodes y and z with the entry m between them are regrouped
   * into y and z with the entry m2 between them, keeping the combined
   * sequence of entries (with the separator) and of children.
   */
  lemma {:induction false} RebalanceNodes<V>(s1: Store<V>, s2: Store<V>, y: int, z: int, g: nat,
                                             m: KeyVal<V>, m2: KeyVal<V>)
    requires Tree(s1, y, g) && Tree(s1, z, g) && Reach(s1, y, g) !! Reach(s1, z, g)
    requires y in s2 && s2[y].leaf == s1[y].leaf && 0 <= s2[y].n < |s2[y].items|
    requires z in s2 && s2[z].leaf == s1[z].leaf && 0 <= s2[z].n < |s2[z].items|
    requires Entries(s2[y]) + [m2] + Entries(s2[z]) == Entries(s1[y]) + [m] + Entries(s1[z])
    requires g > 0 ==> Children(s2[y]) + Children(s2[z]) == Children(s1[y]) + Children(s1[z])
    requires Agree(s1, s2, Reach(s1, y, g) - {y})
    requires Agree(s1, s2, Reach(s1, z, g) - {z})
    ensures Tree(s2, y, g) && Tree(s2, z, g) && Reach(s2, y, g) !! Reach(s2, z, g)
    ensures Content(s2, y, g) + [m2] + Content(s2, z, g) == Content(s1, y, g) + [m] + Content(s1, z, g)
    ensures Reach(s2, y, g) + Reach(s2, z, g) == Reach(s1, y, g) + Reach(s1, z, g)
    ensures forall lo, hi :: Filled(s1, y, g, lo, hi) && Filled(s1, z, g, lo, hi) ==>
                             Filled(s2, y, g, lo, hi) && Filled(s2, z, g, lo, hi)
  {
    if g == 0 {
      Leaf(s1, y);
      Leaf(s1, z);
      Leaf(s2, y);
      Leaf(s2, z);
    } else {
      RebalanceInternal(s1, s2, y, z, g, g - 1, m, m2);
    }
  }

  lemma {:induction false} RebalanceInternal<V>(s1: Store<V>, s2: Store<V>, y: int, z: int, g: nat, gg: nat,
                                                m: KeyVal<V>, m2: KeyVal<V>)
    requires Tree(s1, y, g) && Tree(s1, z, g) && Reach(s1, y, g) !! Reach(s1, z, g) && g == gg + 1
    requires y in s2 && !s2[y].leaf && 0 <= s2[y].n < |s2[y].items|
    requires z in s2 && !s2[z].leaf && 0 <= s2[z].n < |s2[z].items|
    requires Entries(s2[y]) + [m2] + Entries(s2[z]) == Entries(s1[y]) + [m] + Entries(s1[z])
    requires Children(s2[y]) + Children(s2[z]) == Children(s1[y]) + Children(s1[z])
    requires Agree(s1, s2, Reach(s1, y, g) - {y})
    requires Agree(s1, s2, Reach(s1, z, g) - {z})
    ensures Tree(s2, y, g) && Tree(s2, z, g) && Reach(s2, y, g) !! Reach(s2, z, g)
    ensures Content(s2, y, g) + [m2] + Content(s2, z, g) == Content(s1, y, g) + [m] + Content(s1, z, g)
    ensures Reach(s2, y, g) + Reach(s2, z, g) == Reach(s1, y, g) + Reach(s1, z, g)
    ensures forall lo, hi :: Filled(s1, y, g, lo, hi) && Filled(s1, z, g, lo, hi) ==>
                             Filled(s2, y, g, lo, hi) && Filled(s2, z, g, lo, hi)
  {
    var cy, cz := Children(s1[y]), Children(s1[z]);
    var cy2 := Children(s2[y]);
    var C := cy + cz;
    Internal(s1, y, g, gg);
    Internal(s1, z, g, gg);
    RootNotBelow(s1, y, g);
    RootNotBelow(s1, z, g);
    ListConcat(s1, cy, cz, gg);
    assert Reaches(s1, cy, gg) !! Reaches(s1, cz, gg);
    FrameAll(s1, s2, C, gg);
    assert C[..|cy2|] == cy2 && C[|cy2|..] == Children(s2[z]);
    TwoNodes(s2, y, z, g, gg, C, |cy2|, m2);
    InterleaveConcat(Contents(s1, cy, gg), Entries(s1[y]), m, Contents(s1, cz, gg), Entries(s1[z]));
  }
}
