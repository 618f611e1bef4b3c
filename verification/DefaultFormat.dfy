/** The sizes chosen by newfs_hfs and the layout made from them: by default, and without
    a journal, every drive of 512-byte sectors gets a layout that fits
    (src/newfs_hfs/newfs_hfs.c:1197-1328, src/newfs_hfs/makehfs.c:398-640, 649-877). */
module DefaultFormat {
  import opened Bytes
  import opened Blocks
  import opened Drives
  import opened Layout
  import opened FormatBitmap
  import opened BTreeMaps
  import opened VolumeFormat
  import opened FormatParams

  /** The parameters of a default format without a journal. */
  function ParamsOf(r: Sizes): Params
    requires r.blockSize < 0x1_0000_0000 && r.bitmap < 0x1_0000_0000 && r.catalog < 0x1_0000_0000
    requires r.extents < 0x1_0000_0000 && r.attributes < 0x1_0000_0000
  {
    Params(r.blockSize, r.bitmap, false, 0, r.extents, r.attributes, r.attributes, 0, r.catalog)
  }

  /** A size that is small against the volume, or against any volume. */
  ghost predicate Modest(size: nat, sectors: nat, bs: nat) {
    size <= 8 * sectors || size <= 65536 || size <= bs
  }

  /** The budget, in bytes: `end` bytes of layout out of `vol` bytes of whole blocks. */
  lemma Budget(sectors: nat, bs: nat, total: nat, vol: nat, bitmap: nat, ext: nat, attr: nat, gap: nat, cat: nat)
    requires 524288 <= sectors * 512 && 4096 <= bs && (bs == 4096 || 0x1000_0000 * bs <= sectors * 512)
    requires vol <= sectors * 512 < vol + bs && 4096 * total <= vol
    requires 8 * (bitmap - bs) < total
    requires Modest(ext, sectors, bs) && Modest(attr, sectors, bs) && Modest(cat, sectors, bs)
    requires gap == if vol >= 2097152 then 10 * attr else 0
    ensures bs + bitmap + ext + attr + gap + cat + bs <= vol
  {
  }

  /** The total of whole blocks, in bytes. */
  lemma WholeBlocks(sectors: nat, bs: nat)
    requires bs >= 512 && bs % 512 == 0
    ensures var t := sectors / (bs / 512); 0 <= t * bs <= sectors * 512 < t * bs + bs
  {
    var n := bs / 512;
    var t := sectors / n;
    DivSplit(sectors, n);
    assert bs == 512 * n;
    Associate(t, 512, n);
    assert t * bs == 512 * (t * n) by { Commute(t, 512); Associate(512, t, n); }
    MulMono(0, t, bs);
  }

  lemma WholeSize(x: uint32, bs: nat)
    requires bs > 0 && Multiple(x, bs)
    ensures InBlocks(x, bs) * bs == x
  {
    DivSplit(x, bs);
  }

  lemma LayoutFits(r: Sizes, sectors: nat)
    requires 524288 <= sectors * 512 && 4096 <= r.blockSize < 0x1_0000_0000 && r.blockSize % 512 == 0
    requires r.blockSize == 4096 || 0x1000_0000 * r.blockSize <= sectors * 512
    requires r.bitmap < 0x1_0000_0000 && r.catalog < 0x1_0000_0000 && r.extents < 0x1_0000_0000 && r.attributes < 0x1_0000_0000
    requires Multiple(r.bitmap, r.blockSize) && Multiple(r.catalog, r.blockSize) && Multiple(r.extents, r.blockSize)
    requires Multiple(r.attributes, r.blockSize) && r.attributes > 0
    requires r.totalBlocks == sectors / (r.blockSize / 512) < 0x1_0000_0000 && 8 * (r.bitmap - r.blockSize) < r.totalBlocks
    requires Modest(r.extents, sectors, r.blockSize) && Modest(r.attributes, sectors, r.blockSize) && Modest(r.catalog, sectors, r.blockSize)
    ensures Fits(ParamsOf(r), sectors)
  {
    var p, bs, t := ParamsOf(r), r.blockSize, r.totalBlocks;
    WholeBlocks(sectors, bs);
    WholeSize(r.bitmap, bs);
    WholeSize(r.catalog, bs);
    WholeSize(r.extents, bs);
    WholeSize(r.attributes, bs);
    hide InBlocks, Multiple, Modest, VolSize;
    var a, e, n, g, c := InBlocks(r.bitmap, bs), InBlocks(r.extents, bs), InBlocks(r.attributes, bs), Gap(p, t), InBlocks(r.catalog, bs);
    GapInBytes(p, t);
    BlocksAreLarge(t, bs);
    Budget(sectors, bs, t, t * bs, r.bitmap, r.extents, r.attributes, g * bs, r.catalog);
    EndInBlocks(a, e, n, g, c, bs, t);
  }

  lemma GapInBytes(p: Params, t: nat)
    requires p.blockSize > 0 && p.attributesInitialSize == p.attributesClumpSize > 0 && p.attributesStartBlock == 0
    requires InBlocks(p.attributesClumpSize, p.blockSize) * p.blockSize == p.attributesClumpSize
    ensures Gap(p, t) * p.blockSize == if t * p.blockSize >= 2097152 then 10 * p.attributesClumpSize else 0
  {
    hide InBlocks;
    Associate(10, InBlocks(p.attributesClumpSize, p.blockSize), p.blockSize);
  }

  lemma BlocksAreLarge(t: nat, bs: nat)
    requires bs >= 4096
    ensures 4096 * t <= t * bs
  {
    MulMono(4096, bs, t);
    Commute(bs, t);
  }

  /** Back from bytes to blocks. */
  lemma EndInBlocks(a: nat, e: nat, n: nat, g: nat, c: nat, bs: nat, t: nat)
    requires bs > 0 && bs + a * bs + e * bs + n * bs + g * bs + c * bs + bs <= t * bs
    ensures 1 + a + e + n + g + c + 1 <= t
  {
    Six(1, a, e, n, g, c, bs);
    var end := 1 + a + e + n + g + c;
    Distribute(end, 1, bs);
    MulMono(t, end + 1, bs);
  }

  /** The files have their default sizes: the bitmap the least number of blocks with a bit
      for each, the trees what table or percentage gives. */
  ghost predicate DefaultLayout(hp: Header, sectors: nat) {
    var bs := hp.blockSize;
    && 0 <= hp.allocationFile.count * bs && 0 <= hp.extentsFile.count * bs && 0 <= hp.attributesFile.count * bs && 0 <= hp.catalogFile.count * bs
    && 8 * (hp.allocationFile.count * bs - bs) < hp.totalBlocks <= 8 * (hp.allocationFile.count * bs)
    && RoundedFrom(hp.extentsFile.count * bs, bs, 4096, ClumpFor(4096, sectors, Extents))
    && RoundedFrom(hp.attributesFile.count * bs, bs, 8192, ClumpFor(8192, sectors, Attributes))
    && RoundedFrom(hp.catalogFile.count * bs, bs, CatalogNode(sectors), ClumpFor(CatalogNode(sectors), sectors, Catalog))
  }

  function DefaultNodes(rest: Contents, sectors: nat): Contents {
    rest.(extentsNode := 4096, attributesNode := 8192, catalogNode := CatalogNode(sectors))
  }

  /** Formatting by default, any drive of 512-byte sectors of at least 512 KB and below
      2^61 bytes: the files always fit without overlapping.  The format succeeds exactly
      from 1 MB on, and then leaves a whole volume: exactly the files' blocks are marked,
      the trees are in their files, and both volume headers say where they are.  `rest` is
      what the headers say besides. */
  method FormatDefault(d: Drive, sectors: nat, rest: Contents)
    returns (ok: bool, hp: Header, extents: Tree, attributes: Tree, catalog: Tree)
    requires d.Valid() && d.sectorSize == 512 && d.sectorOffset == 0 && |d.bytes| == 512 * sectors && |rest.header| == 512
    requires 524288 <= sectors * 512 < Pow2(61)
    modifies d`bytes
    ensures d.Valid() && |d.bytes| == old(|d.bytes|)
    ensures ok <==> sectors >= 2048
    ensures WellLaid(hp) && hp.totalBlocks < 0x4000_0000
    ensures 4096 <= hp.blockSize && hp.totalBlocks == sectors / (hp.blockSize / 512)
    ensures BlockSizeIs(sectors * 512, hp.blockSize)
    ensures hp.catalogFile.count > 0 && hp.extentsFile.count > 0 && hp.attributesFile.count > 0
    ensures DefaultLayout(hp, sectors)
    ensures ok ==> Formatted(d.bytes, hp, extents, attributes, catalog)
    ensures ok ==> Contained(DefaultNodes(rest, sectors), extents, attributes, catalog)
  {
    hide Aligned, WellLaid, Formatted, Fits, Multiple, Pow2, InBlocks, TotalBlocks, Regions, Written;
    hide Zeros, BufferSize, RoomFor, Placed, BlockSizeIs, DefaultLayout, Contained, Defaults;
    var r; ghost var kb;
    r, kb := DefaultSizes(sectors);
    Chosen(r, sectors, kb);
    var p := ParamsOf(r);
    var o := DefaultNodes(rest, sectors);
    var out;
    out, hp, extents, attributes, catalog := MakeVolume(d, p, sectors, o);
    BufferHolds(hp, o);
    SizesAreDefault(r, hp, sectors, kb);
    ok := out == Done;
  }

  /** Formats the smallest drive that newfs_hfs accepts: it is not rejected, and its 128
      blocks are laid out without overlap, but it cannot be formatted. */
  method SmallestDrive() returns (bad: bool, ok: bool, hp: Header)
    ensures !bad && !ok && WellLaid(hp) && hp.blockSize == 4096 && hp.totalBlocks == 128
  {
    hide WellLaid, Formatted, Pow2, Bits, Zeros;
    Accepted(1024);
    Pow2Values();
    bad := BadDiskSize(1024, 512);
    SectorsAligned(1024);
    var d := new Drive(512, 0, 1, Zeros(524288));
    var none := TreeParams(0, 0, 0, 0, 0);
    var e, a, c;
    ok, hp, e, a, c := FormatDefault(d, 1024, Contents(4096, 4096, 4096, none, none, none, Zeros(512)));
  }

  lemma SizesAreDefault(r: Sizes, hp: Header, sectors: nat, kb: nat)
    requires Defaults(r, sectors, kb) && r.blockSize == hp.blockSize && hp.totalBlocks == r.totalBlocks
    requires hp.allocationFile.count == InBlocks(r.bitmap, r.blockSize) && hp.extentsFile.count == InBlocks(r.extents, r.blockSize)
    requires hp.attributesFile.count == InBlocks(r.attributes, r.blockSize) && hp.catalogFile.count == InBlocks(r.catalog, r.blockSize)
    ensures DefaultLayout(hp, sectors)
  {
    hide RoundedFrom, ClumpFor, Multiple, InBlocks;
    WholeSize(r.bitmap, r.blockSize);
    WholeSize(r.catalog, r.blockSize);
    WholeSize(r.extents, r.blockSize);
    WholeSize(r.attributes, r.blockSize);
  }

  lemma Chosen(r: Sizes, sectors: nat, kb: nat)
    requires 524288 <= sectors * 512 && Defaults(r, sectors, kb)
    ensures r.bitmap < 0x1_0000_0000 && 4096 <= r.blockSize && BlockSizeIs(sectors * 512, r.blockSize)
    ensures r.totalBlocks == sectors / (r.blockSize / 512) < 0x4000_0000 && r.catalogNodeSize == CatalogNode(sectors)
    ensures r.blockSize < 0x1_0000_0000 && r.catalog < 0x1_0000_0000 && r.extents < 0x1_0000_0000 && r.attributes < 0x1_0000_0000
    ensures Fits(ParamsOf(r), sectors) && r.attributes != 0
    ensures InBlocks(r.catalog, r.blockSize) > 0 && InBlocks(r.extents, r.blockSize) > 0 && InBlocks(r.attributes, r.blockSize) > 0
    ensures TotalBlocks(ParamsOf(r), sectors) == r.totalBlocks
    ensures TotalBlocks(ParamsOf(r), sectors) <= 8 * (InBlocks(r.bitmap, r.blockSize) * r.blockSize)
    ensures RoomFor(1, r.extents, 4096, r.blockSize) && RoomFor(1, r.attributes, 8192, r.blockSize)
    ensures RoomFor(2, r.catalog, r.catalogNodeSize, r.blockSize) && r.blockSize % 512 == 0
  {
    hide Multiple, Fits, InBlocks;
    BlockSizeBounds(r.blockSize, kb);
    LayoutFits(r, sectors);
    BitmapSuffices(ParamsOf(r), sectors, r.bitmap);
    WholeSize(r.catalog, r.blockSize);
    WholeSize(r.extents, r.blockSize);
    WholeSize(r.attributes, r.blockSize);
  }
}
