/** The layout of a new volume and its allocation bitmap
    (src/newfs_hfs/makehfs.c:434-542, 649-877; Apple Technical Note TN1150,
    "Volume Header" and "Allocation File"). */
module Layout {
  import opened Bytes
  import opened Blocks

  /** The part of hfsparams_t that decides the layout of a build without debugging. */
  datatype Params = Params(
    blockSize: uint32, allocationClumpSize: uint32, journaledHFS: bool, journalSize: uint32,
    extentsInitialSize: uint32, attributesInitialSize: uint32, attributesClumpSize: uint32,
    attributesStartBlock: uint32, catalogInitialSize: uint32)

  /** The only extent of a file. */
  datatype Fork = Fork(start: uint32, count: uint32)

  datatype Header = Header(
    blockSize: uint32, totalBlocks: uint32, freeBlocks: uint32, journalInfoBlock: uint32,
    allocationFile: Fork, journal: Fork, extentsFile: Fork, attributesFile: Fork, catalogFile: Fork)

  /** Whole blocks of `bs` bytes in `x` bytes. */
  function InBlocks(x: uint32, bs: nat): (n: uint32)
    requires bs > 0
  {
    QuotientBound(x, bs);
    x / bs
  }

  function VolSize(blocks: nat, bs: nat): nat {
    blocks * bs
  }

  /** Blocks up to and including the one with the volume header (sector 2 of the volume),
      and blocks from the one with the alternate volume header (second to last sector) on. */
  function HeadBlocks(bs: nat): (n: nat)
    ensures 1 <= n <= 3
  {
    if bs == 512 then 3 else if bs == 1024 then 2 else 1
  }

  function TailBlocks(bs: nat): (n: nat)
    ensures 1 <= n <= 2
  {
    if bs == 512 then 2 else 1
  }

  function JournalBlocks(p: Params): uint32
    requires p.blockSize > 0
  {
    InBlocks(U32(p.journalSize + p.blockSize - 1), p.blockSize)
  }

  /** Short of 2^32, the journal is rounded up to whole blocks. */
  lemma JournalRounded(p: Params)
    requires p.blockSize > 0 && p.journalSize + p.blockSize - 1 < 0x1_0000_0000
    ensures p.journalSize <= JournalBlocks(p) * p.blockSize < p.journalSize + p.blockSize
  {
    DivSplit(p.journalSize + p.blockSize - 1, p.blockSize);
  }

  function JournalTotal(p: Params): nat
    requires p.blockSize > 0
  {
    if p.journaledHFS then 1 + JournalBlocks(p) else 0
  }

  /** The room that is left for the attributes file to grow. */
  function Gap(p: Params, total: nat): nat
    requires p.blockSize > 0
  {
    if p.attributesInitialSize != 0 && VolSize(total, p.blockSize) >= 2097152 && p.attributesStartBlock == 0
    then 10 * (InBlocks(p.attributesClumpSize, p.blockSize)) else 0
  }

  /** The first block after everything but the tail, in unbounded arithmetic. */
  function LayoutEnd(p: Params, total: nat): nat
    requires p.blockSize > 0
  {
    HeadBlocks(p.blockSize) + InBlocks(p.allocationClumpSize, p.blockSize)
    + JournalTotal(p) + InBlocks(p.extentsInitialSize, p.blockSize) + InBlocks(p.attributesInitialSize, p.blockSize) + Gap(p, total)
    + InBlocks(p.catalogInitialSize, p.blockSize)
  }

  function TotalBlocks(p: Params, sectors: nat): nat
    requires p.blockSize >= 512
  {
    var n := p.blockSize / 512;
    DivMono(0, sectors, n);
    sectors / n
  }

  /** Block sizes are multiples of the sector size, the number of blocks fits its field,
      and the layout ends before the tail blocks. */
  ghost predicate Fits(p: Params, sectors: nat) {
    && p.blockSize >= 512 && p.blockSize % 512 == 0
    && TotalBlocks(p, sectors) < 0x1_0000_0000
    && LayoutEnd(p, TotalBlocks(p, sectors)) + TailBlocks(p.blockSize) <= TotalBlocks(p, sectors)
  }

  // ---- What a layout must be ----

  datatype Region = Region(start: nat, count: nat)

  function Reg(f: Fork): Region {
    Region(f.start, f.count)
  }

  /** Everything that is laid out, in order of address; the attributes file and the
      journal may be missing. */
  function Regions(hp: Header): seq<Region> {
    [Region(0, HeadBlocks(hp.blockSize)), Reg(hp.allocationFile)]
    + (if hp.journalInfoBlock != 0 then [Region(hp.journalInfoBlock, 1), Reg(hp.journal)] else [])
    + [Reg(hp.extentsFile)]
    + (if hp.attributesFile.start != 0 then [Reg(hp.attributesFile)] else [])
    + [Reg(hp.catalogFile)]
    + (if hp.totalBlocks >= TailBlocks(hp.blockSize)
       then [Region(hp.totalBlocks - TailBlocks(hp.blockSize), TailBlocks(hp.blockSize))] else [])
  }

  ghost predicate Disjoint(rs: seq<Region>) {
    forall i, j :: 0 <= i < j < |rs| ==> rs[i].start + rs[i].count <= rs[j].start
  }

  function Sum(rs: seq<Region>): nat {
    if rs == [] then 0 else rs[0].count + Sum(rs[1..])
  }

  /** The regions do not overlap and lie within the volume; the free blocks are those in
      no region. */
  ghost predicate WellLaid(hp: Header) {
    && Disjoint(Regions(hp)) && Ordered(Regions(hp), 0, hp.totalBlocks) && TailBlocks(hp.blockSize) <= hp.totalBlocks
    && (forall i :: 0 <= i < |Regions(hp)| ==> Regions(hp)[i].start + Regions(hp)[i].count <= hp.totalBlocks)
    && hp.freeBlocks == hp.totalBlocks - Sum(Regions(hp))
  }

  /** InitVH: the regions have the sizes asked for, do not overlap and lie within the
      volume; the files from the bitmap to the attributes file are contiguous; and the
      free blocks are those in no region.  No sum wraps around. */
  method InitVH(p: Params, sectors: nat) returns (hp: Header)
    requires Fits(p, sectors)
    ensures hp.blockSize == p.blockSize && hp.totalBlocks == TotalBlocks(p, sectors)
    ensures WellLaid(hp)
    ensures hp.allocationFile == Fork(HeadBlocks(p.blockSize), InBlocks(p.allocationClumpSize, p.blockSize))
    ensures hp.journalInfoBlock != 0 <==> p.journaledHFS
    ensures p.journaledHFS ==> hp.journal.count == JournalBlocks(p)
    ensures hp.extentsFile.count == InBlocks(p.extentsInitialSize, p.blockSize)
    ensures hp.catalogFile.count == InBlocks(p.catalogInitialSize, p.blockSize)
    ensures hp.attributesFile.count == InBlocks(p.attributesInitialSize, p.blockSize)
    ensures p.journaledHFS ==>
              hp.journalInfoBlock == hp.allocationFile.start + hp.allocationFile.count && hp.journal.start == hp.journalInfoBlock + 1
    ensures hp.extentsFile.start == hp.allocationFile.start + hp.allocationFile.count + JournalTotal(p)
    ensures p.attributesInitialSize != 0 ==> hp.attributesFile.start == hp.extentsFile.start + hp.extentsFile.count
    ensures hp.catalogFile.start == hp.extentsFile.start + hp.extentsFile.count + hp.attributesFile.count + Gap(p, hp.totalBlocks)
    ensures hp.catalogFile.start + hp.catalogFile.count == LayoutEnd(p, hp.totalBlocks)
  {
    hide InBlocks, VolSize, TotalBlocks, WellLaid, U32, HeadBlocks, TailBlocks, Gap, JournalBlocks;
    var blockSize := p.blockSize;
    var blockCount := U32(TotalBlocks(p, sectors));
    var before, after := Burned(blockSize);
    var nextBlock: uint32 := U32(before + 1);
    var bitmapBlocks: uint32 := InBlocks(p.allocationClumpSize, blockSize);
    var blocksUsed: uint32 := U32(2 + before + after + bitmapBlocks);
    var volsize := VolSize(blockCount, blockSize);
    var allocationFile := Fork(nextBlock, bitmapBlocks);
    nextBlock := U32(nextBlock + bitmapBlocks);
    var journalInfoBlock, journal, jb := PlaceJournal(p, nextBlock);
    nextBlock := U32(nextBlock + jb);
    blocksUsed := U32(blocksUsed + jb);
    var extentsFile := Fork(nextBlock, InBlocks(p.extentsInitialSize, blockSize));
    nextBlock := U32(nextBlock + extentsFile.count);
    blocksUsed := U32(blocksUsed + extentsFile.count);
    var attributesFile, next := PlaceAttributes(p, nextBlock, volsize, blockCount);
    nextBlock := next;
    blocksUsed := U32(blocksUsed + attributesFile.count);
    var catalogFile := Fork(nextBlock, InBlocks(p.catalogInitialSize, blockSize));
    blocksUsed := U32(blocksUsed + catalogFile.count);
    hp := Header(blockSize, blockCount, U32(blockCount - blocksUsed), journalInfoBlock,
                 allocationFile, journal, extentsFile, attributesFile, catalogFile);
    InBlocksZero(blockSize);
    LaidInOrder(hp);
  }

  /** Blocks lost before the volume header and after the alternate volume header. */
  method Burned(blockSize: uint32) returns (before: nat, after: nat)
    ensures before + 1 == HeadBlocks(blockSize) && after + 1 == TailBlocks(blockSize)
  {
    before, after := 0, 0;
    if blockSize == 512 {
      before, after := 2, 1;
    } else if blockSize == 1024 {
      before := 1;
    }
  }

  /** One block for the journal info and then the journal. */
  method PlaceJournal(p: Params, nextBlock: uint32) returns (infoBlock: uint32, journal: Fork, blocks: nat)
    requires p.blockSize > 0 && 0 < nextBlock && nextBlock + JournalTotal(p) < 0x1_0000_0000
    ensures blocks == JournalTotal(p) && (infoBlock != 0 <==> p.journaledHFS)
    ensures p.journaledHFS ==> infoBlock == nextBlock && journal == Fork(nextBlock + 1, JournalBlocks(p))
  {
    if p.journaledHFS {
      infoBlock := nextBlock;
      journal := Fork(U32(infoBlock + 1), JournalBlocks(p));
      blocks := 1 + JournalBlocks(p);
    } else {
      infoBlock, journal, blocks := 0, Fork(0, 0), 0;
    }
  }

  method PlaceAttributes(p: Params, nextBlock: uint32, volsize: nat, total: nat) returns (file: Fork, next: uint32)
    requires p.blockSize > 0 && 0 < nextBlock && volsize == VolSize(total, p.blockSize)
    requires nextBlock + InBlocks(p.attributesInitialSize, p.blockSize) + Gap(p, total) < 0x1_0000_0000
    ensures file.count == InBlocks(p.attributesInitialSize, p.blockSize)
    ensures file.start == if p.attributesInitialSize != 0 then nextBlock else 0
    ensures next == nextBlock + file.count + Gap(p, total)
  {
    hide InBlocks, VolSize, U32;
    InBlocksZero(p.blockSize);
    file, next := Fork(0, 0), nextBlock;
    if p.attributesInitialSize != 0 {
      file := Fork(next, InBlocks(p.attributesInitialSize, p.blockSize));
      next := U32(next + file.count);
      // room behind the file
      if volsize >= 2097152 && p.attributesStartBlock == 0 {
        next := U32(next + 10 * InBlocks(p.attributesClumpSize, p.blockSize));
      }
    }
  }

  lemma InBlocksZero(bs: nat)
    requires bs > 0
    ensures InBlocks(0, bs) == 0
  {
  }

  /** In order of address between the blocks `lo` and `hi`. */
  ghost predicate Ordered(rs: seq<Region>, lo: nat, hi: nat) {
    if rs == [] then lo <= hi else lo <= rs[0].start && Ordered(rs[1..], rs[0].start + rs[0].count, hi)
  }

  lemma {:induction false} OrderedAppend(a: seq<Region>, b: seq<Region>, lo: nat, mid: nat, hi: nat)
    requires Ordered(a, lo, mid) && Ordered(b, mid, hi)
    ensures Ordered(a + b, lo, hi) && Sum(a + b) == Sum(a) + Sum(b)
    decreases |a|
  {
    if a == [] {
      assert a + b == b;
      OrderedFrom(b, mid, lo, hi);
    } else {
      assert (a + b)[1..] == a[1..] + b;
      OrderedAppend(a[1..], b, a[0].start + a[0].count, mid, hi);
    }
  }

  lemma OrderedFrom(rs: seq<Region>, lo: nat, lo': nat, hi: nat)
    requires Ordered(rs, lo, hi) && lo' <= lo
    ensures Ordered(rs, lo', hi)
  {
  }

  lemma {:induction false} OrderedDisjoint(rs: seq<Region>, lo: nat, hi: nat)
    requires Ordered(rs, lo, hi)
    ensures Disjoint(rs) && forall i :: 0 <= i < |rs| ==> lo <= rs[i].start && rs[i].start + rs[i].count <= hi
    decreases |rs|
  {
    if rs != [] {
      var t := rs[1..];
      OrderedDisjoint(t, rs[0].start + rs[0].count, hi);
      OrderedBounds(t, rs[0].start + rs[0].count, hi);
      forall i | 0 <= i < |rs| ensures lo <= rs[i].start && rs[i].start + rs[i].count <= hi {
        assert i > 0 ==> rs[i] == t[i - 1];
      }
      forall i, j | 0 <= i < j < |rs| ensures rs[i].start + rs[i].count <= rs[j].start {
        assert rs[j] == t[j - 1];
        assert i > 0 ==> rs[i] == t[i - 1];
      }
    }
  }

  lemma {:induction false} OrderedBounds(rs: seq<Region>, lo: nat, hi: nat)
    requires Ordered(rs, lo, hi)
    ensures lo <= hi
    decreases |rs|
  {
    if rs != [] { OrderedBounds(rs[1..], rs[0].start + rs[0].count, hi); }
  }

  lemma OrderedOne(r: Region, lo: nat, hi: nat)
    requires lo <= r.start && r.start + r.count <= hi
    ensures Ordered([r], lo, hi) && Sum([r]) == r.count
  {
    assert [r][1..] == [];
  }

  lemma OrderedTwo(r: Region, q: Region, lo: nat, hi: nat)
    requires lo <= r.start && r.start + r.count <= q.start && q.start + q.count <= hi
    ensures Ordered([r, q], lo, hi) && Sum([r, q]) == r.count + q.count
  {
    assert [r, q][1..] == [q];
    OrderedOne(q, r.start + r.count, hi);
  }

  function UsedBlocks(hp: Header): nat {
    HeadBlocks(hp.blockSize) + hp.allocationFile.count
    + (if hp.journalInfoBlock != 0 then 1 + hp.journal.count else 0)
    + hp.extentsFile.count + hp.attributesFile.count + hp.catalogFile.count
    + TailBlocks(hp.blockSize)
  }

  /** Regions in order of address, with the blocks in use counted. */
  lemma LaidInOrder(hp: Header)
    requires HeadBlocks(hp.blockSize) <= hp.allocationFile.start
    requires if hp.journalInfoBlock != 0 then
               && hp.allocationFile.start + hp.allocationFile.count <= hp.journalInfoBlock
               && hp.journalInfoBlock + 1 <= hp.journal.start
               && hp.journal.start + hp.journal.count <= hp.extentsFile.start
             else hp.allocationFile.start + hp.allocationFile.count <= hp.extentsFile.start
    requires if hp.attributesFile.start != 0 then
               && hp.extentsFile.start + hp.extentsFile.count <= hp.attributesFile.start
               && hp.attributesFile.start + hp.attributesFile.count <= hp.catalogFile.start
             else hp.attributesFile.count == 0 && hp.extentsFile.start + hp.extentsFile.count <= hp.catalogFile.start
    requires hp.catalogFile.start + hp.catalogFile.count + TailBlocks(hp.blockSize) <= hp.totalBlocks
    requires hp.freeBlocks == hp.totalBlocks - UsedBlocks(hp)
    ensures WellLaid(hp)
  {
    hide Ordered, Sum, Disjoint;
    var a := [Region(0, HeadBlocks(hp.blockSize)), Reg(hp.allocationFile)];
    var b := if hp.journalInfoBlock != 0 then [Region(hp.journalInfoBlock, 1), Reg(hp.journal)] else [];
    var d := if hp.attributesFile.start != 0 then [Reg(hp.attributesFile)] else [];
    var tail := Region(hp.totalBlocks - TailBlocks(hp.blockSize), TailBlocks(hp.blockSize));
    var x := hp.allocationFile.start + hp.allocationFile.count;
    var y, z := hp.extentsFile.start + hp.extentsFile.count, hp.catalogFile.start + hp.catalogFile.count;
    OrderedNone(x, hp.extentsFile.start);
    OrderedNone(y, hp.catalogFile.start);
    OrderedTwo(a[0], a[1], 0, x);
    if hp.journalInfoBlock != 0 { OrderedTwo(b[0], b[1], x, hp.extentsFile.start); }
    OrderedAppend(a, b, 0, x, hp.extentsFile.start);
    OrderedOne(Reg(hp.extentsFile), hp.extentsFile.start, y);
    OrderedAppend(a + b, [Reg(hp.extentsFile)], 0, hp.extentsFile.start, y);
    if hp.attributesFile.start != 0 { OrderedOne(Reg(hp.attributesFile), y, hp.catalogFile.start); }
    OrderedAppend(a + b + [Reg(hp.extentsFile)], d, 0, y, hp.catalogFile.start);
    OrderedOne(Reg(hp.catalogFile), hp.catalogFile.start, z);
    OrderedAppend(a + b + [Reg(hp.extentsFile)] + d, [Reg(hp.catalogFile)], 0, hp.catalogFile.start, z);
    OrderedOne(tail, z, hp.totalBlocks);
    OrderedAppend(a + b + [Reg(hp.extentsFile)] + d + [Reg(hp.catalogFile)], [tail], 0, z, hp.totalBlocks);
    OrderedDisjoint(Regions(hp), 0, hp.totalBlocks);
  }

  lemma OrderedNone(lo: nat, hi: nat)
    ensures lo <= hi ==> Ordered([], lo, hi)
    ensures Sum([]) == 0
  {
  }
}
