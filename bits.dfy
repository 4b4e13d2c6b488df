/**
 * The 32-bit words of the page store's node bitmap: bit q % 32 of word
 * q / 32 is page q's bit, set while the page is in use.
 *
 * A word is an unsigned 32-bit integer; bit j of w is (w / 2^j) % 2.  The
 * two word updates the allocator performs, w |= 1 << j and w &= ~(1 << j),
 * are written by what they do to that one bit: add 2^j when the bit is
 * clear, subtract it when the bit is set, and otherwise leave w alone.
 */
module Bits {

  newtype u32 = x: int | 0 <= x < 0x1_0000_0000

  /** The word with every bit set, 0xFFFFFFFF. */
  const ALL_ONES: u32 := 0xFFFF_FFFF

  function Pow2(j: nat): (p: nat)
    ensures 1 <= p
  {
    if j == 0 then 1 else 2 * Pow2(j - 1)
  }

  /** Bit j of w, counted from the least significant. */
  predicate Bit(w: int, j: nat)
    requires 0 <= w
  {
    if j == 0 then w % 2 == 1 else Bit(w / 2, j - 1)
  }

  /** A set bit j stands for at least 2^j. */
  lemma {:induction false} BitBound(w: int, j: nat)
    requires 0 <= w && Bit(w, j)
    ensures Pow2(j) <= w
  {
    if j > 0 {
      BitBound(w / 2, j - 1);
    }
  }

  /** Adding 2^a to a word whose bit a is clear sets bit a and no other. */
  lemma {:induction false} BitAdd(w: int, a: nat, b: nat)
    requires 0 <= w && !Bit(w, a)
    ensures Bit(w + Pow2(a), b) <==> a == b || Bit(w, b)
  {
    if a == 0 {
      if b > 0 {
        assert (w + 1) / 2 == w / 2;
      }
    } else if b > 0 {
      assert (w + Pow2(a)) / 2 == w / 2 + Pow2(a - 1);
      BitAdd(w / 2, a - 1, b - 1);
    }
  }

  /** Subtracting 2^a from a word whose bit a is set clears bit a and no other. */
  lemma {:induction false} BitSub(w: int, a: nat, b: nat)
    requires 0 <= w && Bit(w, a)
    ensures 0 <= w - Pow2(a) && !Bit(w - Pow2(a), a)
    ensures Bit(w - Pow2(a), b) <==> a != b && Bit(w, b)
  {
    BitBound(w, a);
    ClearedBit(w, a);
    BitAdd(w - Pow2(a), a, b);
  }

  lemma {:induction false} ClearedBit(w: int, a: nat)
    requires 0 <= w && Bit(w, a)
    ensures 0 <= w - Pow2(a) && !Bit(w - Pow2(a), a)
  {
    BitBound(w, a);
    if a > 0 {
      assert (w - Pow2(a)) / 2 == w / 2 - Pow2(a - 1);
      ClearedBit(w / 2, a - 1);
    }
  }

  /** A word below 2^n with bit a clear, a < n, stays below 2^n when 2^a is added. */
  lemma {:induction false} AddFits(w: int, a: nat, n: nat)
    requires 0 <= w < Pow2(n) && a < n && !Bit(w, a)
    ensures w + Pow2(a) < Pow2(n)
  {
    var m := w / 2;
    assert w == 2 * m + w % 2;
    assert Pow2(n) == 2 * Pow2(n - 1);
    if a > 0 {
      assert m < Pow2(n - 1);
      AddFits(m, a - 1, n - 1);
      assert Pow2(a) == 2 * Pow2(a - 1);
    } else {
      assert w % 2 == 0;
    }
  }

  /** 2^n - 1 has exactly the bits below n. */
  lemma {:induction false} LowOnes(n: nat, j: nat)
    ensures Bit(Pow2(n) - 1, j) <==> j < n
  {
    if n == 0 {
      assert Pow2(n) - 1 == 0;
      if j > 0 {
        Zero(j - 1);
      }
    } else {
      var P := Pow2(n - 1);
      assert Pow2(n) - 1 == 2 * (P - 1) + 1;
      if j > 0 {
        assert (Pow2(n) - 1) / 2 == P - 1;
        LowOnes(n - 1, j - 1);
      }
    }
  }

  lemma {:induction false} Zero(j: nat)
    ensures !Bit(0, j)
  {
    if j > 0 {
      Zero(j - 1);
    }
  }

  /** A word below 2^n whose bits below n are all set is 2^n - 1. */
  lemma {:induction false} AllBitsSet(w: int, n: nat)
    requires 0 <= w < Pow2(n)
    requires forall j: nat :: j < n ==> Bit(w, j)
    ensures w == Pow2(n) - 1
  {
    if n > 0 {
      assert Bit(w, 0);
      forall j: nat | j < n - 1
        ensures Bit(w / 2, j)
      {
        assert Bit(w, j + 1);
      }
      AllBitsSet(w / 2, n - 1);
    }
  }

  lemma {:induction false} Pow2Add(a: nat, b: nat)
    ensures Pow2(a + b) == Pow2(a) * Pow2(b)
  {
    if a > 0 {
      Pow2Add(a - 1, b);
    }
  }

  lemma Pow32()
    ensures Pow2(32) == 0x1_0000_0000
  {
    assert Pow2(8) == 0x100;
    Pow2Add(8, 8);
    Pow2Add(16, 16);
  }

  /** Bit j of a 32-bit word, 0 <= j < 32: the source's test w & (1 << j). */
  predicate Has(w: u32, j: int)
    requires 0 <= j < 32
  {
    Bit(w as int, j)
  }

  /** Every bit of 0xFFFFFFFF is set, and a word with all 32 bits set is 0xFFFFFFFF. */
  lemma FullWord(w: u32)
    ensures (forall j :: 0 <= j < 32 ==> Has(w, j)) <==> w == ALL_ONES
  {
    Pow32();
    if forall j :: 0 <= j < 32 ==> Has(w, j) {
      var v := w as int;
      forall j: nat | j < 32
        ensures Bit(v, j)
      {
        assert Has(w, j);
      }
      AllBitsSet(v, 32);
    }
    if w == ALL_ONES {
      forall j | 0 <= j < 32
        ensures Has(w, j)
      {
        LowOnes(32, j);
      }
    }
  }

  /** w | (1 << j): bit j becomes set and no other bit changes. */
  function Or(w: u32, j: int): (r: u32)
    requires 0 <= j < 32
    ensures forall b :: 0 <= b < 32 ==> (Has(r, b) <==> b == j || Has(w, b))
  {
    if Has(w, j) then w
    else
      Pow32();
      AddFits(w as int, j, 32);
      forall b | 0 <= b < 32
        ensures Bit(w as int + Pow2(j), b) <==> b == j || Has(w, b)
      {
        BitAdd(w as int, j, b);
      }
      (w as int + Pow2(j)) as u32
  }

  /** w & ~(1 << j): bit j becomes clear and no other bit changes. */
  function AndNot(w: u32, j: int): (r: u32)
    requires 0 <= j < 32
    ensures forall b :: 0 <= b < 32 ==> (Has(r, b) <==> b != j && Has(w, b))
  {
    if !Has(w, j) then w
    else
      BitBound(w as int, j);
      forall b | 0 <= b < 32
        ensures Bit(w as int - Pow2(j), b) <==> b != j && Has(w, b)
      {
        BitSub(w as int, j, b);
      }
      BitSub(w as int, j, j);
      (w as int - Pow2(j)) as u32
  }

  /** The bit of page q is set: the page is in use (or, for page 0, reserved). */
  predicate Used(bits: seq<u32>, q: int)
    requires 0 <= q < 32 * |bits|
  {
    Has(bits[q / 32], q % 32)
  }

  /** Every page's bit is set. */
  ghost predicate Full(bits: seq<u32>)
  {
    forall q :: 0 <= q < 32 * |bits| ==> Used(bits, q)
  }

  /** q is the first free page: its bit is clear and every bit before it is set. */
  ghost predicate FirstFree(bits: seq<u32>, q: int)
  {
    0 <= q < 32 * |bits| && !Used(bits, q) && forall q' :: 0 <= q' < q ==> Used(bits, q')
  }

  /** A bitmap has one first free page. */
  lemma FirstFreeOnce(bits: seq<u32>, p: int, q: int)
    requires FirstFree(bits, p) && FirstFree(bits, q)
    ensures p == q
  {
  }

  /** bitmap[idx / 32] |= 1 << idx % 32: exactly page idx becomes used. */
  function SetBit(bits: seq<u32>, idx: int): (r: seq<u32>)
    requires 0 <= idx < 32 * |bits|
    ensures |r| == |bits|
    ensures forall q :: 0 <= q < 32 * |bits| ==> (Used(r, q) <==> q == idx || Used(bits, q))
  {
    bits[idx / 32 := Or(bits[idx / 32], idx % 32)]
  }

  /** bitmap[idx / 32] &= ~(1 << idx % 32): exactly page idx becomes free. */
  function ClearBit(bits: seq<u32>, idx: int): (r: seq<u32>)
    requires 0 <= idx < 32 * |bits|
    ensures |r| == |bits|
    ensures forall q :: 0 <= q < 32 * |bits| ==> (Used(r, q) <==> q != idx && Used(bits, q))
  {
    bits[idx / 32 := AndNot(bits[idx / 32], idx % 32)]
  }

  /** Freeing a page just taken gives back the very bitmap it was taken from. */
  lemma ClearAfterSet(bits: seq<u32>, idx: int)
    requires 0 <= idx < 32 * |bits| && !Used(bits, idx)
    ensures ClearBit(SetBit(bits, idx), idx) == bits
  {
    var w := bits[idx / 32];
    var j := idx % 32;
    Pow32();
    AddFits(w as int, j, 32);
    BitAdd(w as int, j, j);
    assert Or(w, j) as int == w as int + Pow2(j);
  }

  /** node_count-- on an unsigned 32-bit counter. */
  function Dec32(n: int): (r: int)
    requires 0 <= n < 0x1_0000_0000
    ensures 0 <= r < 0x1_0000_0000 && (r + 1) % 0x1_0000_0000 == n
  {
    if n == 0 then 0xFFFF_FFFF else n - 1
  }
}
