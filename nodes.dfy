/**
 * Node representation shared by the in-memory and the persistent B-tree.
 *
 * A node stores `n` key/value entries and, in front of each entry, the
 * child that precedes it in order; one more slot after the last entry holds
 * the last child:
 *
 *     | c[0] k[0] v[0] | c[1] k[1] v[1] | ... | c[n] - - | spare ... |
 *
 * The slot array has a fixed capacity (2t + 2 in the in-memory tree, the page
 * fan-out plus one in the persistent tree).  Entries(nd) and Children(nd)
 * are the abstract views the tree algorithms are specified against, and the
 * methods below are the index loops that shift slots in place.
 */
module Nodes {

  /** key_val: one key/value pair. */
  datatype KeyVal<V> = KeyVal(key: int, val: V)

  /** item: a child reference followed by a key/value pair. */
  datatype Item<V> = Item(c: int, kv: KeyVal<V>)

  /** node: leaf flag, entry count and the slot array. */
  datatype Node<V> = Node(leaf: bool, n: int, items: seq<Item<V>>)

  /** The reference value of zero-filled memory; no node is ever stored under it. */
  const NULL: int := 0

  /** A node as zero-filled memory leaves it: not a leaf, no entries, null children. */
  function ZeroNode<V>(cap: nat, zero: V): (nd: Node<V>)
    ensures !nd.leaf && nd.n == 0 && |nd.items| == cap
    ensures forall j :: 0 <= j < cap ==> nd.items[j].c == NULL
  {
    Node(false, 0, seq(cap, _ => Item(NULL, KeyVal(0, zero))))
  }

  /** The entry count fits the slot array, leaving room for the trailing child. */
  predicate Sized<V>(nd: Node<V>, cap: int)
  {
    0 <= nd.n < |nd.items| == cap
  }

  /** The n entries of a node, in slot order. */
  function Entries<V>(nd: Node<V>): (es: seq<KeyVal<V>>)
    requires 0 <= nd.n <= |nd.items|
    ensures |es| == nd.n
    ensures forall j :: 0 <= j < nd.n ==> es[j] == nd.items[j].kv
  {
    seq(nd.n, j requires 0 <= j < nd.n => nd.items[j].kv)
  }

  /** The n + 1 child references of a node, in slot order. */
  function Children<V>(nd: Node<V>): (cs: seq<int>)
    requires 0 <= nd.n < |nd.items|
    ensures |cs| == nd.n + 1
    ensures forall j :: 0 <= j <= nd.n ==> cs[j] == nd.items[j].c
  {
    seq(nd.n + 1, j requires 0 <= j <= nd.n => nd.items[j].c)
  }

  // ---------------------------------------------------------------------
  // Key order
  // ---------------------------------------------------------------------

  /** Keys never decrease along the sequence (duplicates are allowed). */
  ghost predicate Sorted<V>(c: seq<KeyVal<V>>)
  {
    forall p, q :: 0 <= p < q < |c| ==> c[p].key <= c[q].key
  }

  /** Some entry of the sequence has key k. */
  ghost predicate HasKey<V>(c: seq<KeyVal<V>>, k: int)
  {
    exists q :: 0 <= q < |c| && c[q].key == k
  }

  datatype Option<T> = None | Some(value: T)

  // ---------------------------------------------------------------------
  // In-order sequence of a node: child 0, entry 0, child 1, ..., child n
  // ---------------------------------------------------------------------

  /** Interleaves n + 1 child sequences with n separating entries. */
  function Interleave<E>(cs: seq<seq<E>>, es: seq<E>): seq<E>
    requires |cs| == |es| + 1
    decreases |es|
  {
    if |es| == 0 then cs[0] else cs[0] + [es[0]] + Interleave(cs[1..], es[1..])
  }

  /** Everything before child i: children 0..i-1 with their entries. */
  function Pre<E>(cs: seq<seq<E>>, es: seq<E>, i: int): seq<E>
    requires |cs| == |es| + 1 && 0 <= i <= |es|
  {
    if i == 0 then [] else Interleave(cs[..i], es[..i - 1]) + [es[i - 1]]
  }

  /** Everything after child i: entry i, then children i+1..n with their entries. */
  function Post<E>(cs: seq<seq<E>>, es: seq<E>, i: int): seq<E>
    requires |cs| == |es| + 1 && 0 <= i <= |es|
  {
    if i == |es| then [] else [es[i]] + Interleave(cs[i + 1..], es[i + 1..])
  }

  lemma {:induction false} InterleaveConcat<E>(a: seq<seq<E>>, e1: seq<E>, m: E, b: seq<seq<E>>, e2: seq<E>)
    requires |a| == |e1| + 1 && |b| == |e2| + 1
    ensures Interleave(a + b, e1 + [m] + e2) == Interleave(a, e1) + [m] + Interleave(b, e2)
    decreases |e1|
  {
    var cs, es := a + b, e1 + [m] + e2;
    if |e1| == 0 {
      assert cs[1..] == b && es[1..] == e2;
    } else {
      assert cs[1..] == a[1..] + b;
      assert es[1..] == e1[1..] + [m] + e2;
      InterleaveConcat(a[1..], e1[1..], m, b, e2);
    }
  }

  /** The in-order sequence splits around any child. */
  lemma {:induction false} InterleaveAt<E>(cs: seq<seq<E>>, es: seq<E>, i: int)
    requires |cs| == |es| + 1 && 0 <= i <= |es|
    ensures Interleave(cs, es) == Pre(cs, es, i) + cs[i] + Post(cs, es, i)
  {
    if i > 0 {
      assert cs == cs[..i] + cs[i..];
      assert es == es[..i - 1] + [es[i - 1]] + es[i..];
      InterleaveConcat(cs[..i], es[..i - 1], es[i - 1], cs[i..], es[i..]);
      var tail := Interleave(cs[i..], es[i..]);
      if i < |es| {
        assert cs[i..][1..] == cs[i + 1..] && es[i..][1..] == es[i + 1..];
      }
    }
  }

  /** Everything from child a on: the in-order sequence of the tail lists. */
  lemma {:induction false} InterleaveFrom<E>(cs: seq<seq<E>>, es: seq<E>, a: int)
    requires |cs| == |es| + 1 && 0 <= a <= |es|
    ensures Interleave(cs, es) == Pre(cs, es, a) + Interleave(cs[a..], es[a..])
  {
    if a > 0 {
      var c1, c2, e1, e2 := cs[..a], cs[a..], es[..a - 1], es[a..];
      assert cs == c1 + c2;
      assert es == e1 + [es[a - 1]] + e2;
      InterleaveConcat(c1, e1, es[a - 1], c2, e2);
    } else {
      assert cs[a..] == cs && es[a..] == es;
    }
  }

  /** Up to child b-1: the in-order sequence of the head lists. */
  lemma {:induction false} InterleaveUpTo<E>(cs: seq<seq<E>>, es: seq<E>, b: int)
    requires |cs| == |es| + 1 && 0 < b <= |cs|
    ensures Interleave(cs, es) == Interleave(cs[..b], es[..b - 1]) + Post(cs, es, b - 1)
  {
    if b < |cs| {
      var c1, c2, e1, e2 := cs[..b], cs[b..], es[..b - 1], es[b..];
      assert cs == c1 + c2;
      assert es == e1 + [es[b - 1]] + e2;
      InterleaveConcat(c1, e1, es[b - 1], c2, e2);
      assert Post(cs, es, b - 1) == [es[b - 1]] + Interleave(c2, e2);
    } else {
      assert cs[..b] == cs && es[..b - 1] == es;
      assert Post(cs, es, b - 1) == [];
    }
  }

  /** The children a..b-1 and the entries between them form a contiguous block. */
  lemma {:induction false} InterleaveWindow<E>(cs: seq<seq<E>>, es: seq<E>, a: int, b: int)
    requires |cs| == |es| + 1 && 0 <= a < b <= |cs|
    ensures Interleave(cs, es) == Pre(cs, es, a) + Interleave(cs[a..b], es[a..b - 1]) + Post(cs, es, b - 1)
  {
    var tc, te := cs[a..], es[a..];
    assert tc[..b - a] == cs[a..b] && te[..b - a - 1] == es[a..b - 1];
    if b < |cs| {
      assert te[b - a - 1] == es[b - 1];
      assert tc[b - a..] == cs[b..] && te[b - a..] == es[b..];
    }
    assert Post(tc, te, b - a - 1) == Post(cs, es, b - 1);
    InterleaveFrom(cs, es, a);
    InterleaveUpTo(tc, te, b - a);
  }

  /**
   * Replacing the children a..b-1 (and the entries between them) by ws (with
   * the entries wes between them) replaces exactly that block of the
   * in-order sequence.
   */
  lemma {:induction false} InterleaveSplice<E>(cs: seq<seq<E>>, es: seq<E>, a: int, b: int, ws: seq<seq<E>>, wes: seq<E>)
    requires |cs| == |es| + 1 && 0 <= a < b <= |cs| && |ws| == |wes| + 1
    ensures |cs[..a] + ws + cs[b..]| == |es[..a] + wes + es[b - 1..]| + 1
    ensures Interleave(cs[..a] + ws + cs[b..], es[..a] + wes + es[b - 1..])
         == Pre(cs, es, a) + Interleave(ws, wes) + Post(cs, es, b - 1)
  {
    var cs2, es2 := cs[..a] + ws + cs[b..], es[..a] + wes + es[b - 1..];
    var b2 := a + |ws|;
    InterleaveWindow(cs2, es2, a, b2);
    assert cs2[a..b2] == ws && es2[a..b2 - 1] == wes;
    if a > 0 {
      assert cs2[..a] == cs[..a] && es2[..a - 1] == es[..a - 1] && es2[a - 1] == es[a - 1];
    }
    if b < |cs| {
      assert es2[b2 - 1] == es[b - 1];
      assert cs2[b2..] == cs[b..] && es2[b2..] == es[b..];
    }
  }

  /** One child and no entry: the child's sequence. */
  lemma InterleaveOne<E>(a: seq<E>)
    ensures Interleave([a], []) == a
  {
  }

  /** Two children around one entry. */
  lemma InterleaveTwo<E>(a: seq<E>, m: E, b: seq<E>)
    ensures Interleave([a, b], [m]) == a + [m] + b
  {
    assert [a, b][1..] == [b];
    assert [m][1..] == [];
  }

  /** Leaves have empty children, so their in-order sequence is their entries. */
  lemma {:induction false} InterleaveEmpty<E>(cs: seq<seq<E>>, es: seq<E>)
    requires |cs| == |es| + 1
    requires forall j :: 0 <= j < |cs| ==> cs[j] == []
    ensures Interleave(cs, es) == es
    decreases |es|
  {
    if |es| > 0 {
      InterleaveEmpty(cs[1..], es[1..]);
    }
  }

  /** Sum of the lengths of a sequence of sequences. */
  function TotalLength<E>(cs: seq<seq<E>>): nat
  {
    if cs == [] then 0 else |cs[0]| + TotalLength(cs[1..])
  }

  lemma {:induction false} InterleaveLength<E>(cs: seq<seq<E>>, es: seq<E>)
    requires |cs| == |es| + 1
    ensures |Interleave(cs, es)| == |es| + TotalLength(cs)
    decreases |es|
  {
    if |es| > 0 {
      InterleaveLength(cs[1..], es[1..]);
    } else {
      assert cs[1..] == [];
    }
  }

  lemma {:induction false} TotalLengthAppend<E>(cs: seq<seq<E>>, c: seq<E>)
    ensures TotalLength(cs + [c]) == TotalLength(cs) + |c|
    decreases |cs|
  {
    if cs == [] {
      assert [c][1..] == [];
    } else {
      assert (cs + [c])[1..] == cs[1..] + [c];
      TotalLengthAppend(cs[1..], c);
    }
  }

  // ---------------------------------------------------------------------
  // Order facts about concatenations
  // ---------------------------------------------------------------------

  /** In a sorted a + b, no key of a exceeds a key of b. */
  lemma SortedParts<V>(a: seq<KeyVal<V>>, b: seq<KeyVal<V>>)
    requires Sorted(a + b)
    ensures Sorted(a) && Sorted(b)
    ensures forall p, q :: 0 <= p < |a| && 0 <= q < |b| ==> a[p].key <= b[q].key
  {
    var c := a + b;
    forall p, q | 0 <= p < |a| && 0 <= q < |b| ensures a[p].key <= b[q].key {
      assert c[p] == a[p] && c[|a| + q] == b[q];
    }
    forall p, q | 0 <= p < q < |b| ensures b[p].key <= b[q].key {
      assert c[|a| + p] == b[p] && c[|a| + q] == b[q];
    }
    forall p, q | 0 <= p < q < |a| ensures a[p].key <= a[q].key {
      assert c[p] == a[p] && c[q] == a[q];
    }
  }

  /** Gluing two sorted sequences whose keys are ordered gives a sorted one. */
  lemma SortedConcat<V>(a: seq<KeyVal<V>>, b: seq<KeyVal<V>>)
    requires Sorted(a) && Sorted(b)
    requires forall p, q :: 0 <= p < |a| && 0 <= q < |b| ==> a[p].key <= b[q].key
    ensures Sorted(a + b)
  {
    var c := a + b;
    forall p, q | 0 <= p < q < |c| ensures c[p].key <= c[q].key {
      if q < |a| {
        assert c[p] == a[p] && c[q] == a[q];
      } else if p < |a| {
        assert c[p] == a[p] && c[q] == b[q - |a|];
      } else {
        assert c[p] == b[p - |a|] && c[q] == b[q - |a|];
      }
    }
  }

  lemma HasKeyConcat<V>(a: seq<KeyVal<V>>, b: seq<KeyVal<V>>, k: int)
    ensures HasKey(a + b, k) <==> HasKey(a, k) || HasKey(b, k)
  {
    var c := a + b;
    if HasKey(c, k) {
      var q :| 0 <= q < |c| && c[q].key == k;
      if q < |a| { assert a[q] == c[q]; } else { assert b[q - |a|] == c[q]; }
    }
    if HasKey(a, k) {
      var q :| 0 <= q < |a| && a[q].key == k;
      assert c[q] == a[q];
    }
    if HasKey(b, k) {
      var q :| 0 <= q < |b| && b[q].key == k;
      assert c[|a| + q] == b[q];
    }
  }

  // ---------------------------------------------------------------------
  // In-place slot loops
  // ---------------------------------------------------------------------

  /**
   * for (j = hi; j >= lo; j--) a[j] = a[j - d];
   * Moves slots lo-d..hi-d up by d, walking downwards so no source is
   * overwritten before it is read.
   */
  method ShiftRight<T>(a: seq<T>, d: nat, lo: int, hi: int) returns (r: seq<T>)
    requires d <= lo <= hi + 1 && hi < |a|
    ensures r == a[..lo] + a[lo - d..hi + 1 - d] + a[hi + 1..]
  {
    r := a;
    var j := hi;
    while j >= lo
      invariant lo - 1 <= j <= hi
      invariant |r| == |a|
      invariant forall q :: 0 <= q <= j ==> r[q] == a[q]
      invariant forall q :: j < q <= hi ==> r[q] == a[q - d]
      invariant forall q :: hi < q < |a| ==> r[q] == a[q]
    {
      r := r[j := r[j - d]];
      j := j - 1;
    }
    assert r == a[..lo] + a[lo - d..hi + 1 - d] + a[hi + 1..];
  }

  /**
   * for (j = lo; j <= hi; j++) a[j - d] = a[j];
   * Moves slots lo..hi down by d, walking upwards.
   */
  method ShiftLeft<T>(a: seq<T>, d: nat, lo: int, hi: int) returns (r: seq<T>)
    requires d <= lo <= hi + 1 <= |a|
    ensures r == a[..lo - d] + a[lo..hi + 1] + a[hi + 1 - d..]
  {
    r := a;
    var j := lo;
    while j <= hi
      invariant lo <= j <= hi + 1
      invariant |r| == |a|
      invariant forall q :: 0 <= q < lo - d ==> r[q] == a[q]
      invariant forall q :: lo - d <= q < j - d ==> r[q] == a[q + d]
      invariant forall q :: j - d <= q < |a| ==> r[q] == a[q]
    {
      r := r[j - d := r[j]];
      j := j + 1;
    }
    assert r == a[..lo - d] + a[lo..hi + 1] + a[hi + 1 - d..];
  }

  /** for (j = 0; j < count; j++) dst[at + j] = src[from + j]; */
  method CopySlots<T>(dst: seq<T>, at: nat, src: seq<T>, from: nat, count: nat) returns (r: seq<T>)
    requires at + count <= |dst| && from + count <= |src|
    ensures r == dst[..at] + src[from..from + count] + dst[at + count..]
  {
    r := dst;
    var j := 0;
    while j < count
      invariant 0 <= j <= count
      invariant |r| == |dst|
      invariant forall q :: 0 <= q < at ==> r[q] == dst[q]
      invariant forall q :: at <= q < at + j ==> r[q] == src[q - at + from]
      invariant forall q :: at + j <= q < |dst| ==> r[q] == dst[q]
    {
      r := r[at + j := src[from + j]];
      j := j + 1;
    }
    assert r == dst[..at] + src[from..from + count] + dst[at + count..];
  }

  /**
   * The leaf branch of insert_nonfull: walking down from the last entry,
   * every entry whose key exceeds kv.key moves up one slot; kv lands in the
   * freed slot p, and the trailing child slot, which the shift overwrote, is
   * restored after the count grows.
   */
  method LeafInsert<V>(nd: Node<V>, kv: KeyVal<V>) returns (r: Node<V>, p: int)
    requires 0 <= nd.n && nd.n + 1 < |nd.items|
    ensures r.leaf == nd.leaf && r.n == nd.n + 1 && |r.items| == |nd.items|
    ensures 0 <= p <= nd.n
    ensures Entries(r) == Entries(nd)[..p] + [kv] + Entries(nd)[p..]
    ensures p > 0 ==> Entries(nd)[p - 1].key <= kv.key
    ensures forall q :: p <= q < nd.n ==> kv.key < Entries(nd)[q].key
    ensures r.items[r.n].c == nd.items[nd.n].c
  {
    var lp := nd.items[nd.n].c;
    var items;
    items, p := OpenSlot(nd, kv);
    items := items[p := items[p].(kv := kv)];
    items := items[nd.n + 1 := items[nd.n + 1].(c := lp)];
    r := Node(nd.leaf, nd.n + 1, items);
    LeafInserted(nd, r, p, kv);
  }

  /**
   * The shifting loop of a leaf insertion: walks down from the last entry,
   * moving every slot whose key exceeds kv's one place up, and stops at
   * the slot p where kv belongs.
   */
  method OpenSlot<V>(nd: Node<V>, kv: KeyVal<V>) returns (items: seq<Item<V>>, p: int)
    requires 0 <= nd.n && nd.n + 1 < |nd.items|
    ensures 0 <= p <= nd.n && |items| == |nd.items|
    ensures forall q :: 0 <= q <= p ==> items[q] == nd.items[q]
    ensures forall q :: p < q <= nd.n ==> items[q] == nd.items[q - 1]
    ensures forall q :: p <= q < nd.n ==> kv.key < nd.items[q].kv.key
    ensures p > 0 ==> nd.items[p - 1].kv.key <= kv.key
  {
    items := nd.items;
    var i := nd.n - 1;
    while i >= 0 && kv.key < items[i].kv.key
      invariant -1 <= i < nd.n
      invariant |items| == |nd.items|
      invariant forall q :: 0 <= q <= i + 1 ==> items[q] == nd.items[q]
      invariant forall q :: i + 1 < q <= nd.n ==> items[q] == nd.items[q - 1]
      invariant forall q :: i < q < nd.n ==> kv.key < nd.items[q].kv.key
    {
      items := items[i + 1 := items[i]];
      i := i - 1;
    }
    p := i + 1;
  }

  /** The slot-level outcome of LeafInsert, read as entries. */
  lemma LeafInserted<V>(nd: Node<V>, r: Node<V>, p: int, kv: KeyVal<V>)
    requires 0 <= nd.n && nd.n + 1 < |nd.items| && r.n == nd.n + 1 && |r.items| == |nd.items|
    requires 0 <= p <= nd.n && r.items[p].kv == kv
    requires forall q :: 0 <= q < p ==> r.items[q] == nd.items[q]
    requires forall q :: p < q <= nd.n ==> r.items[q] == nd.items[q - 1]
    requires forall q :: p <= q < nd.n ==> kv.key < nd.items[q].kv.key
    ensures Entries(r) == Entries(nd)[..p] + [kv] + Entries(nd)[p..]
    ensures forall q :: p <= q < nd.n ==> kv.key < Entries(nd)[q].key
  {
    OpenedAt(Entries(nd), Entries(r), p, kv);
  }

  /** A sequence that agrees with e before p, holds x at p and e shifted by one after p. */
  lemma OpenedAt<E>(e: seq<E>, r: seq<E>, p: int, x: E)
    requires 0 <= p <= |e| && |r| == |e| + 1 && r[p] == x
    requires forall q :: 0 <= q < p ==> r[q] == e[q]
    requires forall q :: p < q < |r| ==> r[q] == e[q - 1]
    ensures r == e[..p] + [x] + e[p..]
  {
  }
}
