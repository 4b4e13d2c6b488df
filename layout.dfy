/**
 * The on-disk layout of the index (disk.hpp and the region constants of
 * disk.cpp): the superblock record index_header, the page header inode
 * that opens every 4K page, and the sizes of the mapped regions.
 *
 * The header file hdr.bin holds the superblock in its first 4K and the
 * node bitmap (one bit per page, 2^20 bits) in the next 128K.  The page
 * file idx.bin holds 2^20 pages of 4K, mapped as two halves of 2G each.
 */
module Layout {

  const SZ_1K: int := 0x400
  const SZ_4K: int := 0x1000
  const SZ_8K: int := 0x2000
  const SZ_4G: int := 0x1_0000_0000

  /** The magic number that marks an initialised header file. */
  const MAGIC: int := 0xd0d0baba

  /** Offset of the bitmap in the header file, and of the page array behind it. */
  const BITMAP_OFFSET: int := SZ_4K
  const INODE_ARRAY_OFFSET: int := SZ_4K + 128 * SZ_1K
  /** Lengths of the header mapping and of the page mapping. */
  const MAP_LEN_HDR: int := SZ_4K + 128 * SZ_1K
  const MAP_LEN_INO: int := SZ_4G

  /** Pages addressed by the bitmap (one bit each), and bitmap words of 32 bits. */
  const PAGES: int := SZ_1K * SZ_1K
  const WORDS: int := SZ_1K * SZ_1K / 32
  /** Pages in each of the two halves the page file is mapped as. */
  const HALF: int := MAP_LEN_INO / 2 / SZ_4K

  /** Bytes of the inode page header (two u32 fields) in front of the payload. */
  const INODE_SIZE: int := 8

  /** index_header: the superblock, every field an unsigned machine word. */
  datatype Header = Header(
    header: int,            // magic
    version: int,
    length: int,            // length of the index file
    checkSum: int,
    nodeCount: int,         // pages handed out
    maxNodeCount: int,
    fileCount: int,
    maxFileCount: int,
    totalFileSize: int,
    maxTotalFileSize: int,
    rootNodeIndex: int)     // page of the persistent tree's root; 0 while there is none

  /** inode: the header of a page, its length (4K when in use) and its own page index. */
  datatype Inode = Inode(length: int, index: int)

  /**
   * The default index_header: a magic-marked, empty index with no root,
   * whose length covers the header mapping and the page mapping, and
   * whose page budget fits the bitmap with slot 0 held back.
   */
  function FreshHeader(): (h: Header)
    ensures h.header == MAGIC && h.version == 1
    ensures h.nodeCount == 0 && h.rootNodeIndex == 0 && h.fileCount == 0 && h.totalFileSize == 0
    ensures h.length == MAP_LEN_HDR + MAP_LEN_INO
    ensures 0 < h.maxNodeCount < PAGES
    ensures h.maxTotalFileSize == SZ_4G * SZ_1K
  {
    Header(MAGIC, 1, SZ_4K + 128 * SZ_1K + SZ_4G, 0, 0, 1000 * 1000, 0, 10000 * 10000, 0, SZ_4G * SZ_1K, 0)
  }

  /**
   * The regions fit one another: the bitmap words fill the header
   * mapping behind the superblock exactly, the bitmap has a bit for every
   * page of the page mapping, and each half mapping holds half the pages.
   */
  lemma RegionsFit()
    ensures WORDS * 4 == MAP_LEN_HDR - BITMAP_OFFSET
    ensures WORDS * 32 == PAGES && PAGES * SZ_4K == MAP_LEN_INO
    ensures 2 * HALF == PAGES && HALF == 0x8_0000
  {
  }
}
