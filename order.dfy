/**
 * Key order of the in-order sequence.  Every operation of the tree is
 * specified by what it does to that sequence: insertion puts the new entry
 * between a key not above it and a key not below it, erasure removes one
 * entry with the key, and a search narrows the sequence down to one
 * child's block.  These lemmas carry such a fact from a child's block to
 * its parent's whole sequence.
 */
module Order {
  import opened Nodes

  /** c2 is c with kv placed at position p, after a key not above kv's and before a key not below it. */
  ghost predicate InsertedAt<V>(c: seq<KeyVal<V>>, c2: seq<KeyVal<V>>, kv: KeyVal<V>, p: int)
  {
    0 <= p <= |c| && c2 == c[..p] + [kv] + c[p..] &&
    (p > 0 ==> c[p - 1].key <= kv.key) && (p < |c| ==> kv.key <= c[p].key)
  }

  /** c2 is c without the entry at position p, whose key is k. */
  ghost predicate RemovedAt<V>(c: seq<KeyVal<V>>, c2: seq<KeyVal<V>>, k: int, p: int)
  {
    0 <= p < |c| && c[p].key == k && c2 == c[..p] + c[p + 1..]
  }

  /** Every entry of a before every entry of b by key. */
  ghost predicate Below<V>(a: seq<KeyVal<V>>, b: seq<KeyVal<V>>)
  {
    forall p, q :: 0 <= p < |a| && 0 <= q < |b| ==> a[p].key <= b[q].key
  }

  /** Position i of es is where key k belongs: after every neighbour below it, before every one above. */
  ghost predicate Between<V>(es: seq<KeyVal<V>>, i: int, k: int)
  {
    0 <= i <= |es| && (i > 0 ==> es[i - 1].key <= k) && (i < |es| ==> k <= es[i].key)
  }

  /** Key k lies strictly between entry i-1 and entry i of es: the gap where a search for k descends. */
  ghost predicate Gap<V>(es: seq<KeyVal<V>>, i: int, k: int)
  {
    0 <= i <= |es| && (i > 0 ==> es[i - 1].key < k) && (i < |es| ==> k < es[i].key)
  }

  /** c ends with e. */
  ghost predicate EndsWith<V>(c: seq<KeyVal<V>>, e: seq<KeyVal<V>>)
  {
    |e| <= |c| && c[|c| - |e|..] == e
  }

  /** c starts with e. */
  ghost predicate StartsWith<V>(c: seq<KeyVal<V>>, e: seq<KeyVal<V>>)
  {
    |e| <= |c| && c[..|e|] == e
  }

  /** A tail of c is a tail of P + c, and a head of c is a head of c + Q. */
  lemma EndsWithAfter<V>(P: seq<KeyVal<V>>, c: seq<KeyVal<V>>, e: seq<KeyVal<V>>)
    requires EndsWith(c, e)
    ensures EndsWith(P + c, e)
  {
    assert (P + c)[|P + c| - |e|..] == c[|c| - |e|..];
  }

  lemma StartsWithBefore<V>(c: seq<KeyVal<V>>, Q: seq<KeyVal<V>>, e: seq<KeyVal<V>>)
    requires StartsWith(c, e)
    ensures StartsWith(c + Q, e)
  {
    assert (c + Q)[..|e|] == c[..|e|];
  }

  /** The last entry of a non-empty sorted sequence has its largest key. */
  lemma LastIsMax<V>(c: seq<KeyVal<V>>)
    requires Sorted(c) && c != []
    ensures forall q :: 0 <= q < |c| ==> c[q].key <= c[|c| - 1].key
  {
  }

  /** The first entry of a non-empty sorted sequence has its smallest key. */
  lemma FirstIsMin<V>(c: seq<KeyVal<V>>)
    requires Sorted(c) && c != []
    ensures forall q :: 0 <= q < |c| ==> c[0].key <= c[q].key
  {
  }

  /**
   * When m moves into es at the position i0 where k belongs, k belongs
   * right after m if its key is above m's, and right before m otherwise.
   */
  lemma BetweenSplit<V>(es: seq<KeyVal<V>>, i0: int, m: KeyVal<V>, k: int, i: int)
    requires Between(es, i0, k) && i == (if k > m.key then i0 + 1 else i0)
    ensures Between(es[..i0] + [m] + es[i0..], i, k)
  {
  }

  /** Inserting at a position that respects the order keeps a sorted sequence sorted. */
  lemma InsertSorted<V>(c: seq<KeyVal<V>>, c2: seq<KeyVal<V>>, kv: KeyVal<V>, p: int)
    requires Sorted(c) && InsertedAt(c, c2, kv, p)
    ensures Sorted(c2) && |c2| == |c| + 1 && c2[p] == kv
  {
    forall a, b | 0 <= a < b < |c2| ensures c2[a].key <= c2[b].key {
      if b < p {
        assert c2[a] == c[a] && c2[b] == c[b];
      } else if b == p {
        assert c2[a] == c[a] && c[a].key <= c[p - 1].key;
      } else if a < p {
        assert c2[a] == c[a] && c2[b] == c[b - 1] && c[a].key <= c[p - 1].key;
      } else if a == p {
        assert c2[b] == c[b - 1] && c[p].key <= c[b - 1].key;
      } else {
        assert c2[a] == c[a - 1] && c2[b] == c[b - 1];
      }
    }
  }

  /** Removing an entry keeps a sorted sequence sorted. */
  lemma RemoveSorted<V>(c: seq<KeyVal<V>>, c2: seq<KeyVal<V>>, k: int, p: int)
    requires Sorted(c) && RemovedAt(c, c2, k, p)
    ensures Sorted(c2) && |c2| == |c| - 1
  {
    forall a, b | 0 <= a < b < |c2| ensures c2[a].key <= c2[b].key {
      if b < p {
        assert c2[a] == c[a] && c2[b] == c[b];
      } else if a < p {
        assert c2[a] == c[a] && c2[b] == c[b + 1];
      } else {
        assert c2[a] == c[a + 1] && c2[b] == c[b + 1];
      }
    }
  }

  /** An insertion into the middle block of P + C + Q, read on the whole sequence. */
  lemma InsertWithin<V>(P: seq<KeyVal<V>>, C: seq<KeyVal<V>>, Q: seq<KeyVal<V>>, C2: seq<KeyVal<V>>,
                        kv: KeyVal<V>, q: int) returns (p: int)
    requires InsertedAt(C, C2, kv, q)
    requires |P| > 0 ==> P[|P| - 1].key <= kv.key
    requires |Q| > 0 ==> kv.key <= Q[0].key
    ensures p == |P| + q && InsertedAt(P + C + Q, P + C2 + Q, kv, p)
  {
    p := |P| + q;
    SpliceAt(P, C, Q, q);
    NeighboursAt(P, C, Q, q);
    Regroup(P, C[..q], kv, C[q..], Q);
  }

  lemma Regroup<E>(P: seq<E>, A: seq<E>, x: E, B: seq<E>, Q: seq<E>)
    ensures P + (A + [x] + B) + Q == (P + A) + [x] + (B + Q)
  {
  }

  lemma SpliceAt<E>(P: seq<E>, C: seq<E>, Q: seq<E>, q: int)
    requires 0 <= q <= |C|
    ensures (P + C + Q)[..|P| + q] == P + C[..q] && (P + C + Q)[|P| + q..] == C[q..] + Q
  {
    var c := P + C + Q;
    assert c[..|P| + q] == P + C[..q];
    assert c[|P| + q..] == C[q..] + Q;
  }

  lemma NeighboursAt<E>(P: seq<E>, C: seq<E>, Q: seq<E>, q: int)
    requires 0 <= q <= |C|
    ensures |P| + q > 0 ==> (P + C + Q)[|P| + q - 1] == if q > 0 then C[q - 1] else P[|P| - 1]
    ensures |P| + q < |P + C + Q| ==> (P + C + Q)[|P| + q] == if q < |C| then C[q] else Q[0]
  {
  }

  /** A removal from the middle block of P + C + Q, read on the whole sequence. */
  lemma RemoveWithin<V>(P: seq<KeyVal<V>>, C: seq<KeyVal<V>>, Q: seq<KeyVal<V>>, C2: seq<KeyVal<V>>,
                        k: int, q: int) returns (p: int)
    requires RemovedAt(C, C2, k, q)
    ensures p == |P| + q && RemovedAt(P + C + Q, P + C2 + Q, k, p)
  {
    p := |P| + q;
    var c := P + C + Q;
    assert c[p] == C[q];
    assert c[..p] == P + C[..q];
    assert c[p + 1..] == C[q + 1..] + Q;
  }

  /**
   * In a sorted P + C + Q whose block P ends below k and whose block Q
   * starts above k, every entry with key k lies in C.
   */
  lemma Narrow<V>(P: seq<KeyVal<V>>, C: seq<KeyVal<V>>, Q: seq<KeyVal<V>>, k: int)
    requires Sorted(P + C + Q)
    requires |P| > 0 ==> P[|P| - 1].key < k
    requires |Q| > 0 ==> k < Q[0].key
    ensures HasKey(P + C + Q, k) <==> HasKey(C, k)
    ensures forall v :: KeyVal(k, v) in C ==> KeyVal(k, v) in P + C + Q
  {
    var c := P + C + Q;
    assert |P| > 0 ==> c[|P| - 1] == P[|P| - 1];
    assert |Q| > 0 ==> c[|P| + |C|] == Q[0];
    if HasKey(c, k) {
      var j :| 0 <= j < |c| && c[j].key == k;
      assert |P| <= j < |P| + |C|;
      assert C[j - |P|] == c[j];
    }
    if HasKey(C, k) {
      var j :| 0 <= j < |C| && C[j].key == k;
      assert c[|P| + j] == C[j];
    }
  }

  /**
   * The scan of a sorted node stopped at i: every key before i is below k
   * and the key at i (if any) is not below k.  Unless it holds k, no entry
   * of the node holds k.
   */
  lemma ScanMiss<V>(E: seq<KeyVal<V>>, i: int, k: int)
    requires Sorted(E) && 0 <= i <= |E|
    requires forall j :: 0 <= j < i ==> E[j].key < k
    requires i < |E| ==> k < E[i].key
    ensures !HasKey(E, k)
  {
    forall j | 0 <= j < |E| ensures E[j].key != k {
      if j >= i {
        assert E[i].key <= E[j].key;
      }
    }
  }

  /** The block before child i ends with entry i-1. */
  lemma PreLast<E>(cs: seq<seq<E>>, es: seq<E>, i: int)
    requires |cs| == |es| + 1 && 0 < i <= |es|
    ensures |Pre(cs, es, i)| > 0 && Pre(cs, es, i)[|Pre(cs, es, i)| - 1] == es[i - 1]
  {
  }

  /** The block after child i starts with entry i. */
  lemma PostFirst<E>(cs: seq<seq<E>>, es: seq<E>, i: int)
    requires |cs| == |es| + 1 && 0 <= i < |es|
    ensures |Post(cs, es, i)| > 0 && Post(cs, es, i)[0] == es[i]
  {
  }

  /** An inserted entry is present afterwards. */
  lemma InsertedFound<V>(c: seq<KeyVal<V>>, c2: seq<KeyVal<V>>, kv: KeyVal<V>, p: int)
    requires InsertedAt(c, c2, kv, p)
    ensures HasKey(c2, kv.key) && kv in c2
    ensures forall k :: HasKey(c, k) ==> HasKey(c2, k)
  {
    assert c2[p] == kv;
    forall k | HasKey(c, k) ensures HasKey(c2, k) {
      var j :| 0 <= j < |c| && c[j].key == k;
      if j < p { assert c2[j] == c[j]; } else { assert c2[j + 1] == c[j]; }
    }
  }

  /**
   * erase on an internal hit: the separator e goes, and the largest entry m
   * of the block before it takes its place.
   */
  lemma RemoveSeparator<V>(P: seq<KeyVal<V>>, A: seq<KeyVal<V>>, m: KeyVal<V>, e: KeyVal<V>,
                           B: seq<KeyVal<V>>, Q: seq<KeyVal<V>>)
    ensures RemovedAt(P + ((A + [m]) + [e] + B) + Q, P + (A + [m] + B) + Q, e.key, |P| + |A| + 1)
  {
    var c := P + ((A + [m]) + [e] + B) + Q;
    var p := |P| + |A| + 1;
    assert c[p] == e;
    assert c[..p] == P + (A + [m]);
    assert c[p + 1..] == B + Q;
  }
}
