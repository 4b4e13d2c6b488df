/**
 * The page store disk_map (disk.cpp): a first-fit bitmap allocator over
 * 2^20 pages of 4K, the translation of a page index into the page's
 * place in the two half mappings of the page file, and the checks on the
 * inode header that opens every page.
 *
 * The mapped memory is modelled by its parts: the superblock as a Header
 * value, the bitmap as an array of 32-bit words, and the page headers as
 * an array indexed by page slot (half * 2^19 + page within the half).
 * A pointer into the page file is a Loc; one that is not on a page
 * boundary is Misaligned.  Page payloads are not part of this model.
 */
module PageStore {
  import opened Layout
  import opened Nodes
  import opened Bits

  // ---------------------------------------------------------------------
  // page locations
  // ---------------------------------------------------------------------

  /** A page of the page file: page ofs of half mapping seg. */
  datatype Loc = Loc(seg: int, ofs: int)

  /** An inode pointer as dealloc_inode receives it. */
  datatype Addr = At(loc: Loc) | Misaligned

  /** The location lies inside one of the two half mappings. */
  predicate InMap(l: Loc)
  {
    0 <= l.seg < 2 && 0 <= l.ofs < HALF
  }

  /** The slot of a location in the page-header array. */
  function Slot(l: Loc): int
  {
    l.seg * HALF + l.ofs
  }

  /**
   * get_inode as written: index 0 and indices with a bit above bit 19
   * have no page; otherwise bit 19 picks the half and the mask 0xFFFFF
   * gives the page within it.
   */
  function GetInodeAsWritten(idx: int): (r: Option<Loc>)
    ensures r.Some? <==> 0 < idx < PAGES
  {
    RegionsFit();
    if idx == 0 || idx / PAGES != 0 then None
    else Some(Loc(idx / HALF % 2, idx % PAGES))
  }

  /**
   * The mask 0xFFFFF keeps bit 19, so an index in the second half is
   * placed at its full value into that half, 2^19 pages beyond the page
   * it names and outside the 2G the half maps.
   */
  lemma StrayPage(idx: int)
    requires HALF <= idx < PAGES
    ensures GetInodeAsWritten(idx) == Some(Loc(1, idx))
    ensures !InMap(Loc(1, idx)) && Slot(Loc(1, idx)) == idx + HALF
  {
    RegionsFit();
  }

  /**
   * get_inode with the mask the comment intends, ~(1 << 19) on the
   * 20-bit index: every index 1 .. 2^20 - 1 has a page inside the
   * mappings, the page's slot is the index itself, and index 0 and the
   * indices beyond 2^20 have none.
   */
  function GetInode(idx: int): (r: Option<Loc>)
    ensures r.Some? <==> 0 < idx < PAGES
    ensures r.Some? ==> InMap(r.value) && Slot(r.value) == idx
  {
    RegionsFit();
    if idx == 0 || idx / PAGES != 0 then None
    else Some(Loc(idx / HALF % 2, idx % HALF))
  }

  /** read: the payload of page idx, none for an index get_inode refuses. */
  function Read(idx: int): (r: Option<Loc>)
    ensures r.Some? <==> 0 < idx < PAGES
    ensures r.Some? ==> InMap(r.value) && Slot(r.value) == idx
  {
    GetInode(idx)
  }

  /** A page of the mappings is found again from its slot. */
  lemma LocOfSlot(l: Loc)
    requires InMap(l) && Slot(l) != 0
    ensures GetInode(Slot(l)) == Some(l)
  {
  }

  // ---------------------------------------------------------------------
  // disk_map
  // ---------------------------------------------------------------------

  class DiskMap {
    /** The superblock of the header file. */
    var hdr: Header
    /** The node bitmap behind the superblock, one bit per page. */
    const bitmap: array<u32>
    /** The inode header of every page, by slot. */
    const pages: array<Inode>
    /** allocate_inode's static last_idx: the index it last handed out. */
    var lastIdx: int

    /**
     * A loaded index: the regions have their sizes, the superblock its
     * magic and unsigned counters, and page 0's bit is set, so that page 0
     * is never handed out.
     */
    ghost predicate Valid()
      reads this, bitmap
    {
      bitmap.Length == WORDS && pages.Length == PAGES && hdr.header == MAGIC &&
      0 <= hdr.nodeCount < 0x1_0000_0000 && 0 <= hdr.maxNodeCount < 0x1_0000_0000 && Used(bitmap[..], 0)
    }

    /**
     * The magic-number branch of disk_map(): over the mapped contents of
     * the two files, a header without the magic is replaced by a fresh
     * one and bitmap word 0 becomes 1, reserving page 0; a header with
     * the magic is taken as it is.
     */
    constructor (mem: Header, words: seq<u32>, inodes: seq<Inode>)
      requires |words| == WORDS && |inodes| == PAGES
      requires mem.header == MAGIC ==> 0 <= mem.nodeCount < 0x1_0000_0000 && 0 <= mem.maxNodeCount < 0x1_0000_0000
      requires mem.header == MAGIC ==> Used(words, 0)
      ensures Valid() && pages[..] == inodes && lastIdx == 0xdeadbeef
      ensures mem.header != MAGIC ==> hdr == FreshHeader() && bitmap[..] == words[0 := 1]
      ensures mem.header == MAGIC ==> hdr == mem && bitmap[..] == words
    {
      var blank := mem.header != MAGIC;
      hdr := if blank then FreshHeader() else mem;
      bitmap := new u32[WORDS](i => if i == 0 && blank then 1 else if 0 <= i < |words| then words[i] else 0);
      pages := new Inode[PAGES](i => if 0 <= i < |inodes| then inodes[i] else Inode(0, 0));
      lastIdx := 0xdeadbeef;
      new;
      if blank {
        assert bitmap[..] == words[0 := 1];
      } else {
        assert bitmap[..] == words;
      }
    }

    /**
     * The effect of a call of allocate_inode that found page idx free,
     * or, for idx == -1, of one that found no page: see AllocateInode.
     */
    twostate predicate Allocated(new p: Option<Loc>, idx: int)
      reads this, bitmap, pages
      requires old(Valid())
    {
      if idx == -1 then
        p.None? && unchanged(this, bitmap, pages)
      else
        0 < idx < PAGES && FirstFree(old(bitmap[..]), idx) && bitmap[..] == SetBit(old(bitmap[..]), idx) &&
        hdr == old(hdr).(nodeCount := old(hdr.nodeCount) + 1) &&
        pages[..] == old(pages[..])[idx := Inode(SZ_4K, idx)] &&
        (p.Some? <==> idx != old(lastIdx)) && (p.Some? ==> p == GetInode(idx)) &&
        lastIdx == idx
    }

    /**
     * allocate_inode: nothing when node_count has reached max_node_count
     * or every page is in use; otherwise the lowest free page idx is
     * marked, counted and given the header {4K, idx}, and is returned
     * unless it is the index handed out last time.
     */
    method AllocateInode() returns (p: Option<Loc>, ghost idx: int)
      requires Valid()
      modifies this, bitmap, pages
      ensures Valid() && Allocated(p, idx)
      ensures idx == -1 <==> old(hdr.nodeCount) >= old(hdr.maxNodeCount) || Full(old(bitmap[..]))
      ensures p.Some? ==> Slot(p.value) == idx && Payload2Index(p.value) == idx
    {
      if hdr.nodeCount >= hdr.maxNodeCount {
        return None, -1;
      }
      var found, at := FindFree();
      if !found {
        return None, -1;
      }
      idx := at;
      var ino := GetInode(at);
      hdr := hdr.(nodeCount := hdr.nodeCount + 1);
      pages[Slot(ino.value)] := Inode(SZ_4K, at);
      if lastIdx == at {
        p := None;
      } else {
        lastIdx := at;
        p := ino;
      }
    }

    /**
     * The scan of allocate_inode: words that are 0xFFFFFFFF are skipped,
     * in the first other word the lowest clear bit is set, and its page
     * 32 * i + j is the one found; with every bit set nothing is found.
     */
    method FindFree() returns (found: bool, at: int)
      requires bitmap.Length == WORDS
      modifies bitmap
      ensures found ==> FirstFree(old(bitmap[..]), at) && bitmap[..] == SetBit(old(bitmap[..]), at)
      ensures !found ==> Full(old(bitmap[..])) && unchanged(bitmap)
    {
      ghost var B := bitmap[..];
      var i := 0;
      found, at := false, 0;
      while i < WORDS && !found
        invariant 0 <= i <= WORDS
        invariant !found ==> unchanged(bitmap) && bitmap[..] == B && forall q :: 0 <= q < 32 * i ==> Used(B, q)
        invariant found ==> FirstFree(B, at) && bitmap[..] == SetBit(B, at)
      {
        if bitmap[i] != ALL_ONES {
          var j := 0;
          while j < 32
            invariant 0 <= j <= 32 && unchanged(bitmap) && bitmap[..] == B
            invariant forall q :: 0 <= q < 32 * i + j ==> Used(B, q)
          {
            if !Has(bitmap[i], j) {
              at := i * 32 + j;
              assert at / 32 == i && at % 32 == j;
              bitmap[i] := Or(bitmap[i], j);
              found := true;
              break;
            }
            assert (32 * i + j) / 32 == i && (32 * i + j) % 32 == j;
            j := j + 1;
          }
        } else {
          FullWord(bitmap[i]);
          forall q | 32 * i <= q < 32 * i + 32
            ensures Used(B, q)
          {
            assert q / 32 == i;
          }
        }
        i := i + 1;
      }
    }

    /** allocate: the payload of a fresh page, or nothing; the payload shares the page's location. */
    method Allocate() returns (p: Option<Loc>, ghost idx: int)
      requires Valid()
      modifies this, bitmap, pages
      ensures Valid() && Allocated(p, idx)
      ensures idx == -1 <==> old(hdr.nodeCount) >= old(hdr.maxNodeCount) || Full(old(bitmap[..]))
      ensures p.Some? ==> Slot(p.value) == idx && Payload2Index(p.value) == idx
    {
      p, idx := AllocateInode();
    }

    /**
     * The effect of a call of dealloc_inode on the page at loc that
     * returned r: for r == 0 the page's bit is cleared, node_count
     * decremented and the page header zeroed; for an error nothing changes.
     */
    twostate predicate Freed(loc: Loc, r: int)
      reads this, bitmap, pages
      requires old(Valid()) && InMap(loc)
    {
      if r != 0 then unchanged(this, bitmap, pages)
      else
        var idx := old(pages[Slot(loc)].index);
        0 < idx < PAGES && bitmap[..] == ClearBit(old(bitmap[..]), idx) &&
        hdr == old(hdr).(nodeCount := Dec32(old(hdr.nodeCount))) &&
        pages[..] == old(pages[..])[Slot(loc) := Inode(0, 0)] && lastIdx == old(lastIdx)
    }

    /**
     * dealloc_inode: -1 for a pointer off a page boundary, -2 for a page
     * whose header names an index beyond 2^20, -3 when that index does
     * not lead back to this page; otherwise the page is freed and 0
     * returned.
     */
    method DeallocInode(ino: Addr) returns (r: int)
      requires Valid() && (ino.At? ==> InMap(ino.loc))
      modifies this, bitmap, pages
      ensures Valid()
      ensures r == -1 <==> ino.Misaligned?
      ensures ino.At? ==> (r == -2 <==> old(pages[Slot(ino.loc)].index) > PAGES)
      ensures ino.At? ==> (r == -3 <==> old(pages[Slot(ino.loc)].index) <= PAGES &&
                                        GetInode(old(pages[Slot(ino.loc)].index)) != Some(ino.loc))
      ensures ino.At? ==> (r == 0 || r == -2 || r == -3) && Freed(ino.loc, r)
      ensures ino.Misaligned? ==> unchanged(this, bitmap, pages)
    {
      if ino.Misaligned? {
        return -1;
      }
      var s := Slot(ino.loc);
      if pages[s].index > PAGES {
        return -2;
      }
      if GetInode(pages[s].index) != Some(ino.loc) {
        return -3;
      }
      var idx := pages[s].index;
      ghost var B := bitmap[..];
      bitmap[idx / 32] := AndNot(bitmap[idx / 32], idx % 32);
      assert bitmap[..] == ClearBit(B, idx);
      hdr := hdr.(nodeCount := Dec32(hdr.nodeCount));
      pages[s] := Inode(0, 0);
      r := 0;
    }

    /** payload2inode: the page of a payload, refused unless its header length is 4K. */
    function Payload2Inode(pay: Loc): (r: Option<Loc>)
      reads pages
      requires pages.Length == PAGES && InMap(pay)
      ensures r.Some? <==> pages[Slot(pay)].length == SZ_4K
      ensures r.Some? ==> r.value == pay
    {
      if pages[Slot(pay)].length != SZ_4K then None else Some(pay)
    }

    /** payload2index: the index a valid page's header records, 0 for an invalid page. */
    function Payload2Index(pay: Loc): (r: int)
      reads pages
      requires pages.Length == PAGES && InMap(pay)
      ensures pages[Slot(pay)].length != SZ_4K ==> r == 0
      ensures pages[Slot(pay)].length == SZ_4K ==> r == pages[Slot(pay)].index
    {
      if Payload2Inode(pay).Some? then pages[Slot(pay)].index else 0
    }

    /** dealloc: a payload whose page header length is not 4K is refused with -1; otherwise dealloc_inode. */
    method Dealloc(x: Loc) returns (r: int)
      requires Valid() && InMap(x)
      modifies this, bitmap, pages
      ensures Valid() && Freed(x, r)
      ensures r == -1 <==> old(pages[Slot(x)].length) != SZ_4K
      ensures r == 0 <==> old(pages[Slot(x)].length) == SZ_4K && old(pages[Slot(x)].index) <= PAGES &&
                          GetInode(old(pages[Slot(x)].index)) == Some(x)
    {
      if pages[Slot(x)].length != SZ_4K {
        return -1;
      }
      r := DeallocInode(At(x));
    }

    /** read_root_node: the page of the root the superblock records, none while it records 0. */
    function ReadRootNode(): (r: Option<Loc>)
      reads this
      ensures r.Some? <==> 0 < hdr.rootNodeIndex < PAGES
      ensures r.Some? ==> InMap(r.value) && Slot(r.value) == hdr.rootNodeIndex
    {
      if hdr.rootNodeIndex == 0 then None else GetInode(hdr.rootNodeIndex)
    }

    /** save: -1 for a page whose header length is not 4K, else save_inode's 0 for an aligned page. */
    function Save(x: Loc): (r: int)
      reads pages
      requires pages.Length == PAGES && InMap(x)
      ensures r == 0 <==> pages[Slot(x)].length == SZ_4K
      ensures r == 0 || r == -1
    {
      if pages[Slot(x)].length != SZ_4K then -1 else SaveInode(At(x))
    }
  }

  /** save_inode: -1 for a pointer off a page boundary; otherwise nothing to do. */
  function SaveInode(a: Addr): (r: int)
    ensures r == 0 <==> a.At?
    ensures r == 0 || r == -1
  {
    if a.Misaligned? then -1 else 0
  }

  /**
   * Taking the first free page and handing it back restores the bitmap
   * and the page count: the bit set by allocate_inode is the one
   * dealloc_inode clears, and node_count goes up and down by one.
   */
  lemma AllocThenFree(bits: seq<u32>, count: int, idx: int)
    requires FirstFree(bits, idx) && 0 <= count < 0x1_0000_0000 - 1
    ensures ClearBit(SetBit(bits, idx), idx) == bits
    ensures Dec32(count + 1) == count
  {
    ClearAfterSet(bits, idx);
  }
}
