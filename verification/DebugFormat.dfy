/** The marking calls of a debug build, which refuse blocks that are marked already
    (src/newfs_hfs/makehfs.c:398-542). */
module DebugFormat {
  import opened Bytes
  import opened Blocks
  import opened Drives
  import opened Bitmaps
  import opened Layout
  import opened FormatBitmap

  /** Zeroes one file. */
  method ZeroFile(d: Drive, hp: Header, f: Fork)
    requires d.Valid() && d.sectorSize == 512 && d.sectorOffset == 0 && Placed(hp, |d.bytes|) && FileOf(hp, f)
    modifies d`bytes
    ensures d.Valid() && |d.bytes| == old(|d.bytes|)
    ensures 0 <= f.start * hp.blockSize && 0 <= f.count * hp.blockSize && f.start * hp.blockSize + f.count * hp.blockSize <= |d.bytes|
    ensures d.bytes == Splice(old(d.bytes), f.start * hp.blockSize, Zeros(f.count * hp.blockSize))
  {
    hide Aligned, Zeros;
    FileBytes(hp, |d.bytes|, f);
    var sector := U32(f.start * (hp.blockSize / 512));
    var byteCount := U32(f.count * hp.blockSize);
    WriteZeros(d, sector, byteCount);
  }

  /** Zeroes and marks a file behind the bitmap. */
  method ZeroAndMark(d: Drive, hp: Header, f: Fork, ghost rs: seq<Region>) returns (ok: bool)
    requires d.Valid() && d.sectorSize == 512 && d.sectorOffset == 0 && Placed(hp, |d.bytes|) && FileOf(hp, f)
    requires f.start >= hp.allocationFile.start + hp.allocationFile.count
    requires BitsAre(d.bytes, 8 * (hp.allocationFile.start * hp.blockSize), hp.totalBlocks, rs)
    modifies d`bytes
    ensures d.Valid() && |d.bytes| == old(|d.bytes|)
    ensures ok <==> Apart(rs, f.start, f.count)
    ensures ok ==> BitsAre(d.bytes, 8 * (hp.allocationFile.start * hp.blockSize), hp.totalBlocks, rs + [Reg(f)])
  {
    hide Aligned, BitsAre, Apart, Zeros, Placed;
    FileBytes(hp, |d.bytes|, f);
    ghost var s := d.bytes;
    ZeroFile(d, hp, f);
    BitsFrame(s, d.bytes, MapAt(hp), MapLength(hp), hp.totalBlocks, rs);
    ok := Mark(d, hp, f.start, f.count, true, rs);
  }

  /** The calls of a debug build, in order. */
  function DebugMarks(hp: Header): seq<Region>
    requires hp.totalBlocks >= 2
  {
    [Reg(hp.allocationFile), Reg(hp.attributesFile), Reg(hp.extentsFile),
     Region(0, if hp.blockSize == 512 then 4 else if hp.blockSize == 1024 then 2 else 1),
     Reg(hp.catalogFile), Region(hp.totalBlocks - 1, 1)]
  }

  /** Ranges that do not overlap have no block in common. */
  lemma DisjointApart(rs: seq<Region>, start: nat, count: nat)
    requires forall k :: 0 <= k < |rs| ==> rs[k].start + rs[k].count <= start || start + count <= rs[k].start
    ensures Apart(rs, start, count)
  {
  }

  /** The marking of a debug build: with 512-byte blocks it always fails, because the four
      blocks of the volume header include the first block of the bitmap, which has been
      marked by then; with any other block size it succeeds and marks the same blocks. */
  method MarkVolumeDebug(d: Drive, hp: Header) returns (ok: bool)
    requires d.Valid() && d.sectorSize == 512 && d.sectorOffset == 0 && Placed(hp, |d.bytes|) && Contiguous(hp) && SmallFiles(hp)
    modifies d`bytes
    ensures d.Valid() && |d.bytes| == old(|d.bytes|) && hp.totalBlocks >= 2
    ensures ok <==> hp.blockSize != 512
    ensures ok ==> BitsAre(d.bytes, 8 * (hp.allocationFile.start * hp.blockSize), hp.totalBlocks, DebugMarks(hp))
  {
    hide Aligned, BitsAre, Apart, Placed, Zeros;
    FilesInOrder(hp, |d.bytes|);
    ghost var m := DebugMarks(hp);
    ZeroBitmap(d, hp);
    MarkSteps(m, hp);
    ok := Mark(d, hp, hp.allocationFile.start, hp.allocationFile.count, true, []);
    assert [] + [m[0]] == m[..1];
    ok := ZeroAndMark(d, hp, hp.attributesFile, m[..1]);
    assert m[..1] + [m[1]] == m[..2];
    ok := ZeroAndMark(d, hp, hp.extentsFile, m[..2]);
    assert m[..2] + [m[2]] == m[..3];
    ok := Mark(d, hp, 0, if hp.blockSize == 512 then 4 else if hp.blockSize == 1024 then 2 else 1, true, m[..3]);
    if !ok {
      return;
    }
    assert m[..3] + [m[3]] == m[..4];
    ok := ZeroAndMark(d, hp, hp.catalogFile, m[..4]);
    assert m[..4] + [m[4]] == m[..5];
    ok := Mark(d, hp, hp.totalBlocks - 1, 1, true, m[..5]);
    assert m[..5] + [m[5]] == m;
  }

  /** Zeroes the bitmap file. */
  method ZeroBitmap(d: Drive, hp: Header)
    requires d.Valid() && d.sectorSize == 512 && d.sectorOffset == 0 && Placed(hp, |d.bytes|) && FileOf(hp, hp.allocationFile)
    modifies d`bytes
    ensures d.Valid() && |d.bytes| == old(|d.bytes|)
    ensures BitsAre(d.bytes, 8 * (hp.allocationFile.start * hp.blockSize), hp.totalBlocks, [])
  {
    hide Aligned, BitsAre, Placed, ClearBits;
    FileBytes(hp, |d.bytes|, hp.allocationFile);
    ZeroFile(d, hp, hp.allocationFile);
    ghost var at, len := MapAt(hp), MapLength(hp);
    ZeroBytesClear(d.bytes, at, len);
    ClearFewer(d.bytes, 8 * at, 8 * at + hp.totalBlocks, 8 * (at + len));
    NoneSet(d.bytes, 8 * at, hp.totalBlocks);
  }

  lemma FilesInOrder(hp: Header, size: nat)
    requires Placed(hp, size) && Contiguous(hp) && SmallFiles(hp)
    ensures FileOf(hp, hp.allocationFile) && FileOf(hp, hp.attributesFile) && FileOf(hp, hp.extentsFile) && FileOf(hp, hp.catalogFile)
    ensures HeadBlocks(hp.blockSize) == hp.allocationFile.start && 0 < hp.allocationFile.count
    ensures hp.allocationFile.start + hp.allocationFile.count <= hp.extentsFile.start
    ensures hp.extentsFile.start + hp.extentsFile.count == hp.attributesFile.start
    ensures hp.attributesFile.start + hp.attributesFile.count <= hp.catalogFile.start
    ensures hp.catalogFile.start + hp.catalogFile.count + TailBlocks(hp.blockSize) <= hp.totalBlocks
  {
    var files := [hp.allocationFile, hp.extentsFile, hp.attributesFile, hp.catalogFile];
    assert files[0] in files && files[1] in files && files[2] in files && files[3] in files;
  }

  /** Which of the calls overlap earlier ones. */
  lemma MarkSteps(m: seq<Region>, hp: Header)
    requires hp.totalBlocks >= 2 && m == DebugMarks(hp)
    requires HeadBlocks(hp.blockSize) == hp.allocationFile.start && 0 < hp.allocationFile.count
    requires hp.allocationFile.start + hp.allocationFile.count <= hp.extentsFile.start
    requires hp.extentsFile.start + hp.extentsFile.count == hp.attributesFile.start
    requires hp.attributesFile.start + hp.attributesFile.count <= hp.catalogFile.start
    requires hp.catalogFile.start + hp.catalogFile.count + TailBlocks(hp.blockSize) <= hp.totalBlocks
    ensures Apart([], m[0].start, m[0].count)
    ensures Apart(m[..1], m[1].start, m[1].count) && Apart(m[..2], m[2].start, m[2].count)
    ensures Apart(m[..3], m[3].start, m[3].count) <==> hp.blockSize != 512
    ensures hp.blockSize != 512 ==> Apart(m[..4], m[4].start, m[4].count) && Apart(m[..5], m[5].start, m[5].count)
  {
    hide Apart;
    DisjointApart([], m[0].start, m[0].count);
    DisjointApart(m[..1], m[1].start, m[1].count);
    DisjointApart(m[..2], m[2].start, m[2].count);
    if hp.blockSize == 512 {
      Overlap(m[..3], 0, m[3].start, m[3].count, 3);
    } else {
      DisjointApart(m[..3], m[3].start, m[3].count);
      DisjointApart(m[..4], m[4].start, m[4].count);
      DisjointApart(m[..5], m[5].start, m[5].count);
    }
  }

  lemma Overlap(rs: seq<Region>, k: nat, start: nat, count: nat, i: nat)
    requires k < |rs| && rs[k].start <= i < rs[k].start + rs[k].count && start <= i < start + count
    ensures !Apart(rs, start, count)
  {
    assert InRegions(rs, i);
  }

  /** Laying out and marking in a debug build: it succeeds exactly when the drive has the
      megabyte that is cleared first and the blocks are not of 512 bytes. */
  method MakeBitmapDebug(d: Drive, p: Params, sectors: nat) returns (ok: bool, hp: Header)
    requires d.Valid() && d.sectorSize == 512 && d.sectorOffset == 0 && |d.bytes| == 512 * sectors
    requires Fits(p, sectors) && p.attributesInitialSize != 0
    requires TotalBlocks(p, sectors) <= 8 * (InBlocks(p.allocationClumpSize, p.blockSize) * p.blockSize)
    modifies d`bytes
    ensures d.Valid() && |d.bytes| == old(|d.bytes|)
    ensures ok <==> sectors >= 2048 && p.blockSize != 512
    ensures WellLaid(hp) && hp.blockSize == p.blockSize && hp.totalBlocks == TotalBlocks(p, sectors) >= 2
    ensures ok ==> BitsAre(d.bytes, 8 * (hp.allocationFile.start * hp.blockSize), hp.totalBlocks, DebugMarks(hp))
  {
    hide Aligned, WellLaid, InBlocks, LayoutEnd, BitsAre, TotalBlocks, VolSize, Written, Zeros;
    hp := InitVH(p, sectors);
    PlacedOk(p, sectors, hp);
    SmallOnes(p, hp);
    PlacedBlocks(hp, |d.bytes|);
    var out; ghost var w;
    out, w := d.WriteBuffer(0, FirstZeros, [], true, true);
    ok := out == Done;
    assert |d.bytes| == old(|d.bytes|) by { SameLength(old(d.bytes), d.bytes, 0, Zeros(FirstZeros), w); }
    if ok {
      ok := MarkVolumeDebug(d, hp);
    }
  }
}
