/**
 * What the slot loops of split_child, concate, rebalance and the leaf
 * erase leave in a node, read through Entries and Children.  Each lemma
 * takes the slot array a loop (ShiftRight, ShiftLeft, CopySlots) produced
 * and states the entries and children the resulting node holds.
 */
module Slots {
  import opened Nodes

  // ---------------------------------------------------------------------
  // split_child
  // ---------------------------------------------------------------------

  /**
   * split_child's copy of slots t..2t-1 of the full node y into the fresh
   * node z, and the shrinking of y to t-1 entries: y keeps entries 0..t-2
   * and children 0..t-1, z receives entries t..2t-2 and children t..2t-1.
   */
  lemma SplitHalf<V>(y: Node<V>, dst: seq<Item<V>>, zi: seq<Item<V>>, t: int)
    requires t >= 1 && y.n == 2 * t - 1 && 2 * t <= |y.items| && t <= |dst|
    requires zi == dst[..0] + y.items[t..t + t] + dst[0 + t..]
    ensures Entries(y.(n := t - 1)) == Entries(y)[..t - 1]
    ensures Entries(Node(y.leaf, t - 1, zi)) == Entries(y)[t..]
    ensures Children(y.(n := t - 1)) == Children(y)[..t]
    ensures Children(Node(y.leaf, t - 1, zi)) == Children(y)[t..]
  {
    assert forall j :: 0 <= j < t ==> zi[j] == y.items[t + j];
  }

  /**
   * split_child's change to the parent x: slots i..n move up by one, slot i
   * takes y and the median m, and slot i+1 keeps entry i but points to z.
   */
  lemma SplitParent<V>(x: Node<V>, a2: seq<Item<V>>, i: int, y: int, z: int, m: KeyVal<V>)
    requires 0 <= i <= x.n && x.n + 1 < |x.items|
    requires a2 == x.items[..i + 1] + x.items[i..x.n + 1] + x.items[x.n + 2..]
    ensures Entries(Node(x.leaf, x.n + 1, a2[i := Item(y, m)][i + 1 := a2[i + 1].(c := z)])) ==
            Entries(x)[..i] + [m] + Entries(x)[i..]
    ensures Children(Node(x.leaf, x.n + 1, a2[i := Item(y, m)][i + 1 := a2[i + 1].(c := z)])) ==
            Children(x)[..i] + [y, z] + Children(x)[i + 1..]
  {
    var a4 := a2[i := Item(y, m)][i + 1 := a2[i + 1].(c := z)];
    var x2 := Node(x.leaf, x.n + 1, a4);
    assert forall j :: 0 <= j < i ==> a4[j] == x.items[j];
    assert forall j :: i < j <= x.n + 1 ==> a2[j] == x.items[j - 1];
    SplitParentEntries(x, x2, i, m);
    SplitParentChildren(x, x2, i, y, z);
  }

  lemma SplitParentEntries<V>(x: Node<V>, x2: Node<V>, i: int, m: KeyVal<V>)
    requires 0 <= i <= x.n && x2.n == x.n + 1 && x2.n < |x2.items| && x.n < |x.items|
    requires forall j :: 0 <= j < i ==> x2.items[j].kv == x.items[j].kv
    requires x2.items[i].kv == m
    requires forall j :: i < j <= x.n ==> x2.items[j].kv == x.items[j - 1].kv
    ensures Entries(x2) == Entries(x)[..i] + [m] + Entries(x)[i..]
  {
  }

  lemma SplitParentChildren<V>(x: Node<V>, x2: Node<V>, i: int, y: int, z: int)
    requires 0 <= i <= x.n && x2.n == x.n + 1 && x2.n < |x2.items| && x.n < |x.items|
    requires forall j :: 0 <= j < i ==> x2.items[j].c == x.items[j].c
    requires x2.items[i].c == y && x2.items[i + 1].c == z
    requires forall j :: i + 1 < j <= x.n + 1 ==> x2.items[j].c == x.items[j - 1].c
    ensures Children(x2) == Children(x)[..i] + [y, z] + Children(x)[i + 1..]
  {
  }

  // ---------------------------------------------------------------------
  // Removing one slot: leaf erase and concate's parent
  // ---------------------------------------------------------------------

  /**
   * Moving slots i+1..n down by one (the trailing child included) and
   * dropping one entry removes entry i and child i.
   */
  lemma RemoveSlot<V>(x: Node<V>, a2: seq<Item<V>>, i: int)
    requires 0 <= i < x.n < |x.items|
    requires a2 == x.items[..i] + x.items[i + 1..x.n + 1] + x.items[x.n..]
    ensures Entries(Node(x.leaf, x.n - 1, a2)) == Entries(x)[..i] + Entries(x)[i + 1..]
    ensures Children(Node(x.leaf, x.n - 1, a2)) == Children(x)[..i] + Children(x)[i + 1..]
  {
    var x2 := Node(x.leaf, x.n - 1, a2);
    assert forall j :: 0 <= j < i ==> a2[j] == x.items[j];
    forall j | i <= j < x.n ensures a2[j] == x.items[j + 1] {
      assert a2[j] == x.items[i + 1..x.n + 1][j - i];
    }
    RemoveEntries(x, x2, i);
    RemoveChildren(x, x2, i);
  }

  lemma RemoveEntries<V>(x: Node<V>, x2: Node<V>, i: int)
    requires 0 <= i < x.n < |x.items| && x2.n == x.n - 1 && x2.n < |x2.items|
    requires forall j :: 0 <= j < i ==> x2.items[j] == x.items[j]
    requires forall j :: i <= j < x.n ==> x2.items[j] == x.items[j + 1]
    ensures Entries(x2) == Entries(x)[..i] + Entries(x)[i + 1..]
  {
  }

  lemma RemoveChildren<V>(x: Node<V>, x2: Node<V>, i: int)
    requires 0 <= i < x.n < |x.items| && x2.n == x.n - 1 && x2.n < |x2.items|
    requires forall j :: 0 <= j < i ==> x2.items[j] == x.items[j]
    requires forall j :: i <= j < x.n ==> x2.items[j] == x.items[j + 1]
    ensures Children(x2) == Children(x)[..i] + Children(x)[i + 1..]
  {
  }

  /** concate's parent: entry i and child i+1 go, and slot i points to the merged child y. */
  lemma MergeParent<V>(x: Node<V>, a2: seq<Item<V>>, i: int, y: int)
    requires 0 <= i < x.n < |x.items| && Children(x)[i] == y
    requires a2 == x.items[..i] + x.items[i + 1..x.n + 1] + x.items[x.n..]
    ensures Entries(Node(x.leaf, x.n - 1, a2[i := a2[i].(c := y)])) == Entries(x)[..i] + Entries(x)[i + 1..]
    ensures Children(Node(x.leaf, x.n - 1, a2[i := a2[i].(c := y)])) ==
            Children(x)[..i] + [y] + Children(x)[i + 2..]
  {
    var cs := Children(x);
    RemoveSlot(x, a2, i);
    var x2 := Node(x.leaf, x.n - 1, a2);
    var x3 := Node(x.leaf, x.n - 1, a2[i := a2[i].(c := y)]);
    assert Entries(x3) == Entries(x2);
    assert Children(x3) == Children(x2)[i := y];
    assert cs[..i] + cs[i + 1..] == cs[..i] + [cs[i + 1]] + cs[i + 2..];
  }

  // ---------------------------------------------------------------------
  // concate's merged child
  // ---------------------------------------------------------------------

  /**
   * concate's change to y: the separator m goes into slot y.n and slots
   * 0..z.n of z are copied behind it, so y holds its entries, m and z's
   * entries, and its children followed by z's.
   */
  lemma MergeChild<V>(y: Node<V>, z: Node<V>, m: KeyVal<V>, a2: seq<Item<V>>)
    requires 0 <= y.n < |y.items| && 0 <= z.n < |z.items| && y.n + z.n + 2 <= |y.items|
    requires a2 == y.items[y.n := y.items[y.n].(kv := m)][..y.n + 1] + z.items[0..0 + (z.n + 1)] +
                   y.items[y.n := y.items[y.n].(kv := m)][y.n + 1 + (z.n + 1)..]
    ensures Entries(Node(y.leaf, y.n + 1 + z.n, a2)) == Entries(y) + [m] + Entries(z)
    ensures Children(Node(y.leaf, y.n + 1 + z.n, a2)) == Children(y) + Children(z)
  {
    var y2 := Node(y.leaf, y.n + 1 + z.n, a2);
    assert forall j :: 0 <= j < y.n ==> a2[j] == y.items[j];
    assert a2[y.n] == Item(y.items[y.n].c, m);
    assert forall j :: 0 <= j <= z.n ==> a2[y.n + 1 + j] == z.items[j];
    MergeEntries(y, z, m, y2);
    MergeChildren(y, z, y2);
  }

  lemma MergeEntries<V>(y: Node<V>, z: Node<V>, m: KeyVal<V>, y2: Node<V>)
    requires 0 <= y.n < |y.items| && 0 <= z.n < |z.items|
    requires y2.n == y.n + 1 + z.n && y2.n < |y2.items|
    requires forall j :: 0 <= j < y.n ==> y2.items[j] == y.items[j]
    requires y2.items[y.n].kv == m
    requires forall j :: 0 <= j <= z.n ==> y2.items[y.n + 1 + j] == z.items[j]
    ensures Entries(y2) == Entries(y) + [m] + Entries(z)
  {
    var e := Entries(y) + [m] + Entries(z);
    forall j | 0 <= j < y2.n ensures Entries(y2)[j] == e[j] {
      if j > y.n {
        assert y2.items[y.n + 1 + (j - y.n - 1)] == z.items[j - y.n - 1];
      }
    }
  }

  lemma MergeChildren<V>(y: Node<V>, z: Node<V>, y2: Node<V>)
    requires 0 <= y.n < |y.items| && 0 <= z.n < |z.items|
    requires y2.n == y.n + 1 + z.n && y2.n < |y2.items|
    requires forall j :: 0 <= j < y.n ==> y2.items[j] == y.items[j]
    requires y2.items[y.n].c == y.items[y.n].c
    requires forall j :: 0 <= j <= z.n ==> y2.items[y.n + 1 + j] == z.items[j]
    ensures Children(y2) == Children(y) + Children(z)
  {
    var e := Children(y) + Children(z);
    forall j | 0 <= j <= y2.n ensures Children(y2)[j] == e[j] {
      if j > y.n {
        assert y2.items[y.n + 1 + (j - y.n - 1)] == z.items[j - y.n - 1];
      }
    }
  }

  // ---------------------------------------------------------------------
  // rebalance
  // ---------------------------------------------------------------------

  /**
   * rebalance when y is short (y << z): the separator m goes to slot y.n
   * of y, slots 0..d-1 of z follow it, entry d-1 of z becomes the new
   * separator, and z's slots d..z.n move down by d.
   */
  lemma ShiftToLeft<V>(y: Node<V>, z: Node<V>, m: KeyVal<V>, d: int, ya: seq<Item<V>>, za: seq<Item<V>>)
    requires 0 <= y.n < |y.items| && 0 < d <= z.n < |z.items| && y.n + d < |y.items|
    requires ya == y.items[y.n := y.items[y.n].(kv := m)][..y.n + 1] + z.items[0..0 + d] +
                   y.items[y.n := y.items[y.n].(kv := m)][y.n + 1 + d..]
    requires za == z.items[..d - d] + z.items[d..z.n + 1] + z.items[z.n + 1 - d..]
    ensures Entries(Node(y.leaf, y.n + d, ya)) + [z.items[d - 1].kv] + Entries(Node(z.leaf, z.n - d, za)) ==
            Entries(y) + [m] + Entries(z)
    ensures Children(Node(y.leaf, y.n + d, ya)) + Children(Node(z.leaf, z.n - d, za)) ==
            Children(y) + Children(z)
  {
    var y2 := Node(y.leaf, y.n + d, ya);
    var z2 := Node(z.leaf, z.n - d, za);
    assert forall j :: 0 <= j < y.n ==> ya[j] == y.items[j];
    assert ya[y.n] == Item(y.items[y.n].c, m);
    assert forall j :: 0 <= j < d ==> ya[y.n + 1 + j] == z.items[j];
    assert forall j :: 0 <= j <= z.n - d ==> za[j] == z.items[d + j];
    LeftEntries(y, z, m, d, y2, z2);
    LeftChildren(y, z, d, y2, z2);
  }

  lemma LeftEntries<V>(y: Node<V>, z: Node<V>, m: KeyVal<V>, d: int, y2: Node<V>, z2: Node<V>)
    requires 0 <= y.n < |y.items| && 0 < d <= z.n < |z.items|
    requires y2.n == y.n + d && y2.n < |y2.items| && z2.n == z.n - d && z2.n < |z2.items|
    requires forall j :: 0 <= j < y.n ==> y2.items[j] == y.items[j]
    requires y2.items[y.n].kv == m
    requires forall j :: 0 <= j < d ==> y2.items[y.n + 1 + j] == z.items[j]
    requires forall j :: 0 <= j <= z.n - d ==> z2.items[j] == z.items[d + j]
    ensures Entries(y2) + [z.items[d - 1].kv] + Entries(z2) == Entries(y) + [m] + Entries(z)
  {
    LeftGrown(y, z, m, d, y2);
    DroppedFront(z, d, z2);
    RejoinMid(Entries(y) + [m], Entries(z), d - 1);
  }

  lemma LeftGrown<V>(y: Node<V>, z: Node<V>, m: KeyVal<V>, d: int, y2: Node<V>)
    requires 0 <= y.n < |y.items| && 0 < d <= z.n < |z.items|
    requires y2.n == y.n + d && y2.n < |y2.items|
    requires forall j :: 0 <= j < y.n ==> y2.items[j] == y.items[j]
    requires y2.items[y.n].kv == m
    requires forall j :: 0 <= j < d ==> y2.items[y.n + 1 + j] == z.items[j]
    ensures Entries(y2) == Entries(y) + [m] + Entries(z)[..d - 1]
  {
    var w := Entries(y) + [m] + Entries(z)[..d - 1];
    forall j | 0 <= j < y2.n ensures Entries(y2)[j] == w[j] {
      if j > y.n {
        assert y2.items[y.n + 1 + (j - y.n - 1)] == z.items[j - y.n - 1];
      }
    }
  }

  lemma DroppedFront<V>(z: Node<V>, d: int, z2: Node<V>)
    requires 0 < d <= z.n < |z.items| && z2.n == z.n - d && z2.n < |z2.items|
    requires forall j :: 0 <= j <= z.n - d ==> z2.items[j] == z.items[d + j]
    ensures Entries(z2) == Entries(z)[d..] && Children(z2) == Children(z)[d..]
  {
  }

  lemma LeftChildren<V>(y: Node<V>, z: Node<V>, d: int, y2: Node<V>, z2: Node<V>)
    requires 0 <= y.n < |y.items| && 0 < d <= z.n < |z.items|
    requires y2.n == y.n + d && y2.n < |y2.items| && z2.n == z.n - d && z2.n < |z2.items|
    requires forall j :: 0 <= j < y.n ==> y2.items[j] == y.items[j]
    requires y2.items[y.n].c == y.items[y.n].c
    requires forall j :: 0 <= j < d ==> y2.items[y.n + 1 + j] == z.items[j]
    requires forall j :: 0 <= j <= z.n - d ==> z2.items[j] == z.items[d + j]
    ensures Children(y2) + Children(z2) == Children(y) + Children(z)
  {
    LeftHead(y, z, d, y2);
    DroppedFront(z, d, z2);
    Rejoin(Children(y), Children(z), d);
  }

  lemma LeftHead<V>(y: Node<V>, z: Node<V>, d: int, y2: Node<V>)
    requires 0 <= y.n < |y.items| && 0 < d <= z.n < |z.items|
    requires y2.n == y.n + d && y2.n < |y2.items|
    requires forall j :: 0 <= j < y.n ==> y2.items[j] == y.items[j]
    requires y2.items[y.n].c == y.items[y.n].c
    requires forall j :: 0 <= j < d ==> y2.items[y.n + 1 + j] == z.items[j]
    ensures Children(y2) == Children(y) + Children(z)[..d]
  {
    var w := Children(y) + Children(z)[..d];
    forall j | 0 <= j <= y2.n ensures Children(y2)[j] == w[j] {
      if j > y.n {
        assert y2.items[y.n + 1 + (j - y.n - 1)] == z.items[j - y.n - 1];
      }
    }
  }

  /**
   * rebalance when y is long (y >> z): z's slots 0..z.n move up by d,
   * slots ny+1..ny+d of y fill z's slots 0..d-1, the separator m goes into
   * slot d-1 of z, and entry ny of y becomes the new separator.
   */
  lemma ShiftToRight<V>(y: Node<V>, z: Node<V>, m: KeyVal<V>, d: int, ny: int,
                         a1: seq<Item<V>>, a2: seq<Item<V>>)
    requires 0 <= ny && ny + d == y.n && y.n < |y.items| && 0 < d && 0 <= z.n && z.n + d < |z.items|
    requires a1 == z.items[..d] + z.items[d - d..z.n + d + 1 - d] + z.items[z.n + d + 1..]
    requires a2 == a1[..0] + y.items[ny + 1..ny + 1 + d] + a1[0 + d..]
    ensures Entries(y.(n := ny)) + [y.items[ny].kv] + Entries(Node(z.leaf, z.n + d, a2[d - 1 := a2[d - 1].(kv := m)])) ==
            Entries(y) + [m] + Entries(z)
    ensures Children(y.(n := ny)) + Children(Node(z.leaf, z.n + d, a2[d - 1 := a2[d - 1].(kv := m)])) ==
            Children(y) + Children(z)
  {
    var za := a2[d - 1 := a2[d - 1].(kv := m)];
    var z2 := Node(z.leaf, z.n + d, za);
    assert forall j :: 0 <= j < d ==> a2[j] == y.items[ny + 1 + j];
    assert forall j :: 0 <= j <= z.n ==> a1[d + j] == z.items[j];
    assert forall j :: 0 <= j <= z.n ==> za[d + j] == z.items[j];
    assert za[d - 1] == Item(y.items[y.n].c, m);
    RightEntries(y, z, m, d, ny, z2);
    RightChildren(y, z, d, ny, z2);
  }

  lemma RightEntries<V>(y: Node<V>, z: Node<V>, m: KeyVal<V>, d: int, ny: int, z2: Node<V>)
    requires 0 <= ny && ny + d == y.n && y.n < |y.items| && 0 < d && 0 <= z.n < |z.items|
    requires z2.n == z.n + d && z2.n < |z2.items|
    requires forall j :: 0 <= j < d - 1 ==> z2.items[j] == y.items[ny + 1 + j]
    requires z2.items[d - 1].kv == m
    requires forall j :: 0 <= j <= z.n ==> z2.items[d + j] == z.items[j]
    ensures Entries(y.(n := ny)) + [y.items[ny].kv] + Entries(z2) == Entries(y) + [m] + Entries(z)
  {
    Truncated(y, ny);
    RightGrown(y, z, m, d, ny, z2);
    RejoinAround(Entries(y), ny, [m] + Entries(z));
  }

  lemma Truncated<V>(y: Node<V>, ny: int)
    requires 0 <= ny <= y.n < |y.items|
    ensures Entries(y.(n := ny)) == Entries(y)[..ny] && Children(y.(n := ny)) == Children(y)[..ny + 1]
  {
  }

  lemma RightGrown<V>(y: Node<V>, z: Node<V>, m: KeyVal<V>, d: int, ny: int, z2: Node<V>)
    requires 0 <= ny && ny + d == y.n && y.n < |y.items| && 0 < d && 0 <= z.n < |z.items|
    requires z2.n == z.n + d && z2.n < |z2.items|
    requires forall j :: 0 <= j < d - 1 ==> z2.items[j] == y.items[ny + 1 + j]
    requires z2.items[d - 1].kv == m
    requires forall j :: 0 <= j <= z.n ==> z2.items[d + j] == z.items[j]
    ensures Entries(z2) == Entries(y)[ny + 1..] + ([m] + Entries(z))
  {
    var w := Entries(y)[ny + 1..] + ([m] + Entries(z));
    forall j | 0 <= j < z2.n ensures Entries(z2)[j] == w[j] {
      if j >= d {
        assert z2.items[d + (j - d)] == z.items[j - d];
      }
    }
  }

  lemma RightChildren<V>(y: Node<V>, z: Node<V>, d: int, ny: int, z2: Node<V>)
    requires 0 <= ny && ny + d == y.n && y.n < |y.items| && 0 < d && 0 <= z.n < |z.items|
    requires z2.n == z.n + d && z2.n < |z2.items|
    requires forall j :: 0 <= j < d - 1 ==> z2.items[j] == y.items[ny + 1 + j]
    requires z2.items[d - 1].c == y.items[y.n].c
    requires forall j :: 0 <= j <= z.n ==> z2.items[d + j] == z.items[j]
    ensures Children(y.(n := ny)) + Children(z2) == Children(y) + Children(z)
  {
    Truncated(y, ny);
    RightTail(y, z, d, ny, z2);
    RejoinTail(Children(y), ny + 1, Children(z));
  }

  lemma RightTail<V>(y: Node<V>, z: Node<V>, d: int, ny: int, z2: Node<V>)
    requires 0 <= ny && ny + d == y.n && y.n < |y.items| && 0 < d && 0 <= z.n < |z.items|
    requires z2.n == z.n + d && z2.n < |z2.items|
    requires forall j :: 0 <= j < d - 1 ==> z2.items[j] == y.items[ny + 1 + j]
    requires z2.items[d - 1].c == y.items[y.n].c
    requires forall j :: 0 <= j <= z.n ==> z2.items[d + j] == z.items[j]
    ensures Children(z2) == Children(y)[ny + 1..] + Children(z)
  {
    var w := Children(y)[ny + 1..] + Children(z);
    forall j | 0 <= j <= z2.n ensures Children(z2)[j] == w[j] {
      if j < d {
        assert w[j] == y.items[ny + 1 + j].c;
      } else {
        assert z2.items[d + (j - d)] == z.items[j - d];
      }
    }
  }

  // ---------------------------------------------------------------------
  // One entry overwritten, the last entry dropped
  // ---------------------------------------------------------------------

  /** Overwriting the key/value of slot i replaces entry i and keeps the children. */
  lemma EntrySet<V>(x: Node<V>, i: int, m: KeyVal<V>)
    requires 0 <= i < x.n < |x.items|
    ensures Entries(x.(items := x.items[i := x.items[i].(kv := m)])) == Entries(x)[..i] + [m] + Entries(x)[i + 1..]
    ensures Children(x.(items := x.items[i := x.items[i].(kv := m)])) == Children(x)
  {
    var x2 := x.(items := x.items[i := x.items[i].(kv := m)]);
    var w := Entries(x)[..i] + [m] + Entries(x)[i + 1..];
    forall j | 0 <= j < x.n ensures Entries(x2)[j] == w[j] {
    }
  }

  /** Decrementing the count drops the last entry, which stays in slot n-1. */
  lemma DropLast<V>(x: Node<V>)
    requires 0 < x.n < |x.items|
    ensures Entries(x) == Entries(x.(n := x.n - 1)) + [x.items[x.n - 1].kv]
  {
  }

  // ---------------------------------------------------------------------
  // Regrouping a sequence cut at one position
  // ---------------------------------------------------------------------

  lemma Rejoin<E>(P: seq<E>, s: seq<E>, k: int)
    requires 0 <= k <= |s|
    ensures (P + s[..k]) + s[k..] == P + s
  {
    assert s == s[..k] + s[k..];
  }

  lemma RejoinMid<E>(P: seq<E>, s: seq<E>, k: int)
    requires 0 <= k < |s|
    ensures (P + s[..k]) + [s[k]] + s[k + 1..] == P + s
  {
    assert s == s[..k] + [s[k]] + s[k + 1..];
  }

  lemma RejoinTail<E>(s: seq<E>, k: int, Q: seq<E>)
    requires 0 <= k <= |s|
    ensures s[..k] + (s[k..] + Q) == s + Q
  {
    assert s == s[..k] + s[k..];
  }

  lemma RejoinAround<E>(s: seq<E>, k: int, Q: seq<E>)
    requires 0 <= k < |s|
    ensures s[..k] + [s[k]] + (s[k + 1..] + Q) == s + Q
  {
    assert s == s[..k] + [s[k]] + s[k + 1..];
  }
}
