/** All that is written to a new volume: bitmap, B-trees and both volume headers
    (src/newfs_hfs/makehfs.c:398-640; Apple Technical Note TN1150, "Volume Header"). */
module VolumeFormat {
  import opened Bytes
  import opened Blocks
  import opened Drives
  import opened BigEndian
  import opened Layout
  import opened FormatBitmap
  import opened BTreeMaps

  // ---- The volume header ----

  /** A 32-bit field: its offset in the volume header, and its value. */
  datatype Field = Field(at: nat, value: uint32)

  /** The fields of a fork whose data starts at offset `at`. */
  function ForkFields(at: nat, f: Fork): seq<Field> {
    [Field(at + 12, f.count), Field(at + 16, f.start), Field(at + 20, f.count)]
  }

  /** The fields that say where everything is, in order of offset. */
  function Fields(hp: Header): seq<Field> {
    [Field(12, hp.journalInfoBlock), Field(40, hp.blockSize), Field(44, hp.totalBlocks), Field(48, hp.freeBlocks)]
    + ForkFields(112, hp.allocationFile) + ForkFields(192, hp.extentsFile)
    + ForkFields(272, hp.catalogFile) + ForkFields(352, hp.attributesFile)
  }

  /** Fields that do not overlap, within a sector. */
  ghost predicate Spaced(fs: seq<Field>) {
    && (forall i :: 0 <= i < |fs| ==> fs[i].at + 4 <= 512)
    && (forall i, j :: 0 <= i < j < |fs| ==> fs[i].at + 4 <= fs[j].at)
  }

  /** A sector with the fields stored in it. */
  function Store(sector: seq<bv8>, fs: seq<Field>): (s: seq<bv8>)
    requires |sector| == 512 && forall i :: 0 <= i < |fs| ==> fs[i].at + 4 <= 512
    ensures |s| == 512
  {
    if fs == [] then sector else
      var last := fs[|fs| - 1];
      Splice(Store(sector, fs[..|fs| - 1]), last.at, ToBE32(last.value))
  }

  /** Every field stored can be read back. */
  lemma {:induction false} StoreReads(sector: seq<bv8>, fs: seq<Field>, i: nat)
    requires |sector| == 512 && Spaced(fs) && i < |fs|
    ensures FromBE32(Store(sector, fs)[fs[i].at..fs[i].at + 4]) == fs[i].value
    decreases |fs|
  {
    hide ToBE32, FromBE32;
    var n := |fs| - 1;
    var before, s, at := Store(sector, fs[..n]), Store(sector, fs), fs[i].at;
    if i == n {
      assert s[at..at + 4] == ToBE32(fs[n].value);
      RoundTrip32(fs[n].value);
    } else {
      StoreReads(sector, fs[..n], i);
      assert s[at..at + 4] == before[at..at + 4];
    }
  }

  /** Every field of `fs` can be read from the sector at byte `at`. */
  ghost predicate HasFields(bytes: seq<bv8>, at: nat, fs: seq<Field>) {
    && at + 512 <= |bytes| && Spaced(fs)
    && forall i :: 0 <= i < |fs| ==> NumberAt(bytes, at + fs[i].at) == fs[i].value
  }

  /** At byte `at` of the drive is the HFSPlusForkData of `f`: totalBlocks at offset 12, and
      at 16 and 20 startBlock and blockCount of its first extent. */
  ghost predicate ForkAt(bytes: seq<bv8>, at: nat, f: Fork) {
    && at + 24 <= |bytes|
    && NumberAt(bytes, at + 12) == f.count && NumberAt(bytes, at + 16) == f.start && NumberAt(bytes, at + 20) == f.count
  }

  /** At byte `at` of the drive is a volume header that describes `hp`. */
  ghost predicate HeaderAt(bytes: seq<bv8>, at: nat, hp: Header) {
    && at + 512 <= |bytes|
    && NumberAt(bytes, at + 12) == hp.journalInfoBlock && NumberAt(bytes, at + 40) == hp.blockSize
    && NumberAt(bytes, at + 44) == hp.totalBlocks && NumberAt(bytes, at + 48) == hp.freeBlocks
    && ForkAt(bytes, at + 112, hp.allocationFile) && ForkAt(bytes, at + 192, hp.extentsFile)
    && ForkAt(bytes, at + 272, hp.catalogFile) && ForkAt(bytes, at + 352, hp.attributesFile)
  }

  /** The fields stored are those of the header. */
  lemma FieldsAreHeader(bytes: seq<bv8>, at: nat, hp: Header)
    requires HasFields(bytes, at, Fields(hp))
    ensures HeaderAt(bytes, at, hp)
  {
    hide NumberAt, Spaced;
    var fs := Fields(hp);
    assert |fs| == 16;
    assert fs[0] == Field(12, hp.journalInfoBlock) && fs[1] == Field(40, hp.blockSize);
    assert fs[2] == Field(44, hp.totalBlocks) && fs[3] == Field(48, hp.freeBlocks);
    ForkFieldsAt(bytes, at, fs, 4, 112, hp.allocationFile);
    ForkFieldsAt(bytes, at, fs, 7, 192, hp.extentsFile);
    ForkFieldsAt(bytes, at, fs, 10, 272, hp.catalogFile);
    ForkFieldsAt(bytes, at, fs, 13, 352, hp.attributesFile);
  }

  lemma ForkFieldsAt(bytes: seq<bv8>, at: nat, fs: seq<Field>, i: nat, p: nat, f: Fork)
    requires HasFields(bytes, at, fs) && i + 3 <= |fs| && fs[i..i + 3] == ForkFields(p, f) && p + 24 <= 512
    ensures ForkAt(bytes, at + p, f)
  {
    hide NumberAt, Spaced;
    var g := fs[i..i + 3];
    assert g[0] == fs[i] && g[1] == fs[i + 1] && g[2] == fs[i + 2];
  }

  lemma FieldsSpaced(hp: Header)
    ensures Spaced(Fields(hp))
  {
  }

  lemma HeaderStored(bytes: seq<bv8>, at: nat, hp: Header, sector: seq<bv8>)
    requires |sector| == 512 && at + 512 <= |bytes|
    requires Spaced(Fields(hp)) && bytes[at..at + 512] == Store(sector, Fields(hp))
    ensures HeaderAt(bytes, at, hp)
  {
    hide FromBE32, Fields, Store;
    var fs := Fields(hp);
    forall i | 0 <= i < |fs| ensures NumberAt(bytes, at + fs[i].at) == fs[i].value {
      StoreReads(sector, fs, i);
      var p := fs[i].at;
      SliceOfSlice(bytes, at, 512, p, 4);
    }
    FieldsAreHeader(bytes, at, hp);
  }

  lemma SliceOfSlice(s: seq<bv8>, at: nat, n: nat, p: nat, k: nat)
    requires at + n <= |s| && p + k <= n
    ensures s[at..at + n][p..p + k] == s[at + p..at + p + k]
  {
    var t := s[at..at + n];
    var u, v := t[p..p + k], s[at + p..at + p + k];
    forall i | 0 <= i < k ensures u[i] == v[i] {
      assert t[p + i] == s[at + p + i];
    }
  }

  lemma HeaderFrame(s: seq<bv8>, t: seq<bv8>, at: nat, hp: Header)
    requires HeaderAt(s, at, hp) && Agree(s, t, at, 512)
    ensures HeaderAt(t, at, hp)
  {
    hide FromBE32;
    forall p: nat | at <= p <= at + 508 ensures NumberAt(t, p) == NumberAt(s, p) {
      assert t[p..p + 4] == s[p..p + 4];
    }
  }

  // ---- What one write leaves of another ----

  lemma AgreeSame(s: seq<bv8>, at: nat, n: nat)
    ensures Agree(s, s, at, n)
  {
  }

  lemma AgreeAfter(s: seq<bv8>, t: seq<bv8>, u: seq<bv8>, at: nat, n: nat, p: nat, len: nat)
    requires Agree(s, t, at, n) && Outside(t, u, p, len) && (at + n <= p || p + len <= at)
    ensures Agree(s, u, at, n)
  {
  }

  lemma SpliceOutside(s: seq<bv8>, at: nat, data: seq<bv8>)
    requires at + |data| <= |s|
    ensures Outside(s, Splice(s, at, data), at, |data|)
  {
  }

  lemma AccountedFrame(s: seq<bv8>, t: seq<bv8>, hp: Header)
    requires Placed(hp, |s|) && 0 <= MapAt(hp) && 0 <= MapLength(hp) && MapAt(hp) + MapLength(hp) <= |s|
    requires Accounted(s, hp) && Agree(s, t, MapAt(hp), MapLength(hp))
    ensures Accounted(t, hp)
  {
    hide BitsAre, CountClear, Regions;
    BitsFrame(s, t, MapAt(hp), MapLength(hp), hp.totalBlocks, Regions(hp));
    BitsLong(s, 8 * MapAt(hp), hp.totalBlocks, Regions(hp));
    BitsLong(t, 8 * MapAt(hp), hp.totalBlocks, Regions(hp));
    CountFrame(s, t, MapAt(hp), MapLength(hp), 8 * MapAt(hp), 8 * MapAt(hp) + hp.totalBlocks);
  }

  lemma BitsLong(s: seq<bv8>, b: nat, n: nat, rs: seq<Region>)
    requires BitsAre(s, b, n, rs)
    ensures b + n <= 8 * |s|
  {
  }

  // ---- The trees ----

  /** A B-tree of the volume: its file, what its header says, and node `lastLeaf` as root
      and only leaf, if not 0. */
  datatype Tree = Tree(file: Fork, nodeSize: nat, lastLeaf: nat, params: TreeParams, header: TreeHeader)

  /** The file holds the tree: every node of the file is counted and has a bit in the least
      number of map nodes, and all used nodes are within the file. */
  ghost predicate TreeFile(bytes: seq<bv8>, bs: nat, t: Tree) {
    && NodeSize(t.nodeSize) && 0 <= t.file.start * bs
    && TreeAt(bytes, t.file.start * bs, t.header, t.params, t.nodeSize, t.lastLeaf)
    && LeastMapNodes(t.nodeSize, t.header.totalNodes, t.header.mapNodes)
    && t.header.totalNodes == t.lastLeaf + 1 + t.header.mapNodes + t.header.freeNodes
    && t.header.totalNodes * t.nodeSize <= t.file.count * bs < (t.header.totalNodes + 1) * t.nodeSize
  }

  /** The bytes of its used nodes. */
  ghost function UsedBytes(t: Tree): int {
    (t.lastLeaf + 1 + t.header.mapNodes) * t.nodeSize
  }

  lemma TreeFileFrame(s: seq<bv8>, u: seq<bv8>, bs: nat, t: Tree)
    requires TreeFile(s, bs, t) && 0 <= t.file.count * bs && Agree(s, u, t.file.start * bs, t.file.count * bs)
    ensures TreeFile(u, bs, t)
  {
    hide TreeAt, LeastMapNodes;
    var n := t.lastLeaf + 1 + t.header.mapNodes;
    MulMono(n, t.header.totalNodes, t.nodeSize);
    MulMono(0, n, t.nodeSize);
    assert Agree(s, u, t.file.start * bs, n * t.nodeSize);
    TreeFrame(s, u, t.file.start * bs, t.header, t.params, t.nodeSize, t.lastLeaf, n * t.nodeSize);
  }

  /** Writes a new tree to its file, and nothing outside of it. */
  method WriteFile(d: Drive, buffer: array<bv8>, hp: Header, file: Fork, nodeSize: nat, fileSize: uint32, lastLeaf: nat, p: TreeParams)
    returns (t: Tree, ok: bool)
    requires d.Valid() && d.sectorSize == 512 && d.sectorOffset == 0 && Placed(hp, |d.bytes|) && FileOf(hp, file)
    requires NodeSize(nodeSize) && lastLeaf <= 1 && (lastLeaf + 1) * nodeSize <= fileSize == file.count * hp.blockSize
    requires buffer.Length >= (lastLeaf + 1) * nodeSize
    modifies buffer, d`bytes
    ensures d.Valid() && |d.bytes| == old(|d.bytes|) && ok
    ensures t.file == file && t.nodeSize == nodeSize && t.lastLeaf == lastLeaf && t.params == p && TreeFile(d.bytes, hp.blockSize, t)
    ensures 0 <= file.start * hp.blockSize && Outside(old(d.bytes), d.bytes, file.start * hp.blockSize, file.count * hp.blockSize)
    ensures 0 <= UsedBytes(t) && Outside(old(d.bytes), d.bytes, file.start * hp.blockSize, UsedBytes(t))
  {
    hide Aligned, LeastMapNodes, TreeAt, Outside;
    FileBytes(hp, |d.bytes|, file);
    hide Placed;
    var sector := U32(file.start * (hp.blockSize / 512));
    var header;
    header, ok := WriteTree(d, buffer, sector, nodeSize, fileSize, lastLeaf, p, true);
    t := Tree(file, nodeSize, lastLeaf, p, header);
    UsedFit(fileSize, nodeSize, lastLeaf + 1 + header.mapNodes, header.totalNodes);
    OutsideMore(old(d.bytes), d.bytes, file.start * hp.blockSize, (lastLeaf + 1 + header.mapNodes) * nodeSize, file.count * hp.blockSize);
  }

  lemma UsedFit(fileSize: nat, nodeSize: nat, used: nat, total: nat)
    requires nodeSize > 0 && used <= total == fileSize / nodeSize
    ensures used * nodeSize <= total * nodeSize <= fileSize < (total + 1) * nodeSize
  {
    MulMono(used, total, nodeSize);
    DivSplit(fileSize, nodeSize);
    Distribute(total, 1, nodeSize);
  }

  lemma OutsideMore(s: seq<bv8>, t: seq<bv8>, at: nat, n: nat, m: nat)
    requires Outside(s, t, at, n) && n <= m
    ensures Outside(s, t, at, m)
  {
  }

  // ---- The whole volume ----

  /** A used node of the tree has byte `j` of the drive. */
  ghost predicate InNodes(t: Tree, bs: nat, j: int) {
    t.file.start * bs <= j < t.file.start * bs + UsedBytes(t)
  }

  /** Byte `j` is in the bitmap, in a used node, or in a volume header. */
  ghost predicate Occupied(hp: Header, extents: Tree, attributes: Tree, catalog: Tree, size: nat, j: int) {
    || MapAt(hp) <= j < MapAt(hp) + MapLength(hp)
    || InNodes(extents, hp.blockSize, j) || InNodes(attributes, hp.blockSize, j) || InNodes(catalog, hp.blockSize, j)
    || 1024 <= j < 1536 || size - 1024 <= j < size - 512
  }

  /** The first megabyte and the files are zero but for that. */
  ghost predicate RestBlank(bytes: seq<bv8>, hp: Header, extents: Tree, attributes: Tree, catalog: Tree) {
    forall j :: 0 <= j < |bytes| && (j < FirstZeros || InFiles(hp, j)) && !Occupied(hp, extents, attributes, catalog, |bytes|, j) ==>
                  bytes[j] == 0
  }

  lemma StillBlank(s0: seq<bv8>, s1: seq<bv8>, s2: seq<bv8>, s3: seq<bv8>, s4: seq<bv8>, s5: seq<bv8>, hp: Header,
                   extents: Tree, attributes: Tree, catalog: Tree)
    requires Blank(s0, hp) && |s0| >= 1024 && 0 <= UsedBytes(extents) && 0 <= UsedBytes(attributes) && 0 <= UsedBytes(catalog)
    requires 0 <= extents.file.start * hp.blockSize && Outside(s0, s1, extents.file.start * hp.blockSize, UsedBytes(extents))
    requires 0 <= attributes.file.start * hp.blockSize && Outside(s1, s2, attributes.file.start * hp.blockSize, UsedBytes(attributes))
    requires 0 <= catalog.file.start * hp.blockSize && Outside(s2, s3, catalog.file.start * hp.blockSize, UsedBytes(catalog))
    requires Outside(s3, s4, 1024, 512) && Outside(s4, s5, |s0| - 1024, 512)
    ensures RestBlank(s5, hp, extents, attributes, catalog)
  {
    hide UsedBytes, InFiles, MapAt, MapLength;
    forall j | 0 <= j < |s5| && (j < FirstZeros || InFiles(hp, j)) && !Occupied(hp, extents, attributes, catalog, |s5|, j) ensures s5[j] == 0 {
      assert s0[j] == 0 && s1[j] == s0[j] && s2[j] == s1[j] && s3[j] == s2[j] && s4[j] == s3[j];
    }
  }

  /** A new volume: the bitmap and the count of free blocks agree with the layout; all three
      trees are in their files; both volume headers say where everything is; and everything
      else in the files is zero. */
  ghost predicate Formatted(bytes: seq<bv8>, hp: Header, extents: Tree, attributes: Tree, catalog: Tree) {
    && |bytes| >= 1024 && HeaderAt(bytes, 1024, hp) && HeaderAt(bytes, |bytes| - 1024, hp)
    && Accounted(bytes, hp) && RestBlank(bytes, hp, extents, attributes, catalog)
    && extents.file == hp.extentsFile && TreeFile(bytes, hp.blockSize, extents)
    && attributes.file == hp.attributesFile && TreeFile(bytes, hp.blockSize, attributes)
    && catalog.file == hp.catalogFile && TreeFile(bytes, hp.blockSize, catalog)
  }

  /** The node sizes of the three trees, and what else their headers and the volume header
      say. */
  datatype Contents = Contents(extentsNode: nat, attributesNode: nat, catalogNode: nat,
                               extents: TreeParams, attributes: TreeParams, catalog: TreeParams, header: seq<bv8>)

  /** The trees are those asked for; only the catalog has a leaf. */
  ghost predicate Contained(o: Contents, extents: Tree, attributes: Tree, catalog: Tree) {
    && extents.nodeSize == o.extentsNode && extents.lastLeaf == 0 && extents.params == o.extents
    && attributes.nodeSize == o.attributesNode && attributes.lastLeaf == 0 && attributes.params == o.attributes
    && catalog.nodeSize == o.catalogNode && catalog.lastLeaf == 1 && catalog.params == o.catalog
  }

  /** A file of whole blocks that has room for `n` nodes. */
  ghost predicate RoomFor(n: nat, size: uint32, nodeSize: nat, bs: nat) {
    NodeSize(nodeSize) && bs > 0 && n * nodeSize <= size == InBlocks(size, bs) * bs
  }

  function Largest(a: nat, b: nat): nat {
    if a < b then b else a
  }

  /** The size of the buffer that nodes are made in: the size of an extents node does not
      come into it. */
  function BufferSize(hp: Header, o: Contents): nat {
    var n := Largest(Largest(o.catalogNode * 2, o.attributesNode * 2),
                     Largest(hp.blockSize, U32(hp.catalogFile.start + hp.catalogFile.count + 7) / 8));
    if n % 512 != 0 then U32(n + 512) / 512 * 512 else n
  }

  /** It is the largest of four sizes, rounded up to whole sectors. */
  lemma BufferIs(hp: Header, o: Contents)
    requires NodeSize(o.catalogNode) && NodeSize(o.attributesNode) && hp.blockSize % 512 == 0
    ensures var n, bits := BufferSize(hp, o), (hp.catalogFile.start + hp.catalogFile.count + 7) % 0x1_0000_0000 / 8;
            && n % 512 == 0 && n >= 2 * o.catalogNode && n >= 2 * o.attributesNode && n >= hp.blockSize && n >= bits
            && (n == 2 * o.catalogNode || n == 2 * o.attributesNode || n == hp.blockSize || n < bits + 512)
  {
  }

  lemma BufferHolds(hp: Header, o: Contents)
    requires NodeSize(o.catalogNode) && NodeSize(o.attributesNode) && hp.blockSize % 512 == 0
    ensures BufferSize(hp, o) >= 2 * o.catalogNode && BufferSize(hp, o) >= 2 * o.attributesNode
  {
    hide BufferSize;
    BufferIs(hp, o);
  }

  /** The files in bytes, one after the other, and between the two volume headers. */
  lemma InOrder(hp: Header, size: nat)
    requires Placed(hp, size) && Contiguous(hp) && SmallFiles(hp)
    ensures FileOf(hp, hp.extentsFile) && FileOf(hp, hp.attributesFile) && FileOf(hp, hp.catalogFile)
    ensures var bs, e, a, c := hp.blockSize, hp.extentsFile, hp.attributesFile, hp.catalogFile;
            && 0 <= MapLength(hp) && 0 <= e.count * bs && 0 <= a.count * bs && 0 <= c.count * bs
            && 1536 <= MapAt(hp) && MapAt(hp) + MapLength(hp) <= e.start * bs && e.start * bs + e.count * bs <= a.start * bs
            && a.start * bs + a.count * bs <= c.start * bs && c.start * bs + c.count * bs <= size - 1024
  {
    var bs, m, e, a, c := hp.blockSize, hp.allocationFile, hp.extentsFile, hp.attributesFile, hp.catalogFile;
    RangeBytes(m.start, m.count, e.start, bs);
    RangeBytes(e.start, e.count, a.start, bs);
    RangeBytes(a.start, a.count, c.start, bs);
    RangeBytes(c.start, c.count, hp.totalBlocks - TailBlocks(bs), bs);
    Distribute(hp.totalBlocks - TailBlocks(bs), TailBlocks(bs), bs);
    HeadAndTail(bs);
  }

  /** The blocks kept for the volume headers hold them. */
  lemma HeadAndTail(bs: nat)
    requires bs >= 512 && bs % 512 == 0
    ensures 1536 <= HeadBlocks(bs) * bs && 1024 <= TailBlocks(bs) * bs
  {
  }

  /** Everything after the bitmap: the three trees and then both volume headers. */
  method WriteVolume(d: Drive, buffer: array<bv8>, hp: Header, p: Params, sectors: nat, o: Contents)
    returns (extents: Tree, attributes: Tree, catalog: Tree, ok: bool)
    requires d.Valid() && d.sectorSize == 512 && d.sectorOffset == 0 && |d.bytes| == 512 * sectors && |o.header| == 512
    requires Placed(hp, |d.bytes|) && Contiguous(hp) && SmallFiles(hp) && p.blockSize == hp.blockSize && Accounted(d.bytes, hp) && Blank(d.bytes, hp)
    requires RoomFor(1, p.extentsInitialSize, o.extentsNode, p.blockSize)
    requires hp.extentsFile.count == InBlocks(p.extentsInitialSize, p.blockSize)
    requires RoomFor(1, p.attributesInitialSize, o.attributesNode, p.blockSize)
    requires hp.attributesFile.count == InBlocks(p.attributesInitialSize, p.blockSize)
    requires RoomFor(2, p.catalogInitialSize, o.catalogNode, p.blockSize)
    requires hp.catalogFile.count == InBlocks(p.catalogInitialSize, p.blockSize)
    requires buffer.Length == BufferSize(hp, o) >= o.extentsNode
    modifies buffer, d`bytes
    ensures d.Valid() && |d.bytes| == old(|d.bytes|) && ok
    ensures Formatted(d.bytes, hp, extents, attributes, catalog)
    ensures Contained(o, extents, attributes, catalog)
  {
    hide Aligned, TreeFile, Outside, Agree, Accounted, HeaderAt, Placed, Contiguous, SmallFiles, InBlocks, Store, BufferSize, NodeSize;
    hide RestBlank, Blank, UsedBytes;
    InOrder(hp, |d.bytes|);
    ghost var bs, e, a, c := hp.blockSize, hp.extentsFile, hp.attributesFile, hp.catalogFile;
    PlacedSizes(hp, |d.bytes|);
    BufferHolds(hp, o);
    ghost var s0 := d.bytes;
    extents, ok := WriteFile(d, buffer, hp, hp.extentsFile, o.extentsNode, p.extentsInitialSize, 0, o.extents);
    ghost var s1 := d.bytes;
    attributes, ok := WriteFile(d, buffer, hp, hp.attributesFile, o.attributesNode, p.attributesInitialSize, 0, o.attributes);
    ghost var s2 := d.bytes;
    catalog, ok := WriteFile(d, buffer, hp, hp.catalogFile, o.catalogNode, p.catalogInitialSize, 1, o.catalog);
    ghost var s3 := d.bytes;
    FieldsSpaced(hp);
    var header := Store(o.header, Fields(hp));
    ok := WriteBytes(d, 2, header, true);
    ghost var s4 := d.bytes;
    var ok' := WriteBytes(d, sectors - 2, header, true);
    ok := ok && ok';
    SpliceOutside(s3, 1024, header);
    SpliceOutside(s4, |s0| - 1024, header);
    StillBlank(s0, s1, s2, s3, s4, d.bytes, hp, extents, attributes, catalog);
    // the bitmap
    AgreeSame(s0, MapAt(hp), MapLength(hp));
    Kept(s0, s0, s1, s2, e.start * bs, e.count * bs, a.start * bs, a.count * bs, MapAt(hp), MapLength(hp));
    AgreeAfter(s0, s2, s3, MapAt(hp), MapLength(hp), c.start * bs, c.count * bs);
    Kept(s0, s3, s4, d.bytes, 1024, 512, |s0| - 1024, 512, MapAt(hp), MapLength(hp));
    AccountedFrame(s0, d.bytes, hp);
    // the trees
    AgreeSame(s1, e.start * bs, e.count * bs);
    Kept(s1, s1, s2, s3, a.start * bs, a.count * bs, c.start * bs, c.count * bs, e.start * bs, e.count * bs);
    Kept(s1, s3, s4, d.bytes, 1024, 512, |s0| - 1024, 512, e.start * bs, e.count * bs);
    TreeFileFrame(s1, d.bytes, bs, extents);
    AgreeSame(s2, a.start * bs, a.count * bs);
    AgreeAfter(s2, s2, s3, a.start * bs, a.count * bs, c.start * bs, c.count * bs);
    Kept(s2, s3, s4, d.bytes, 1024, 512, |s0| - 1024, 512, a.start * bs, a.count * bs);
    TreeFileFrame(s2, d.bytes, bs, attributes);
    AgreeSame(s3, c.start * bs, c.count * bs);
    Kept(s3, s3, s4, d.bytes, 1024, 512, |s0| - 1024, 512, c.start * bs, c.count * bs);
    TreeFileFrame(s3, d.bytes, bs, catalog);
    // the headers
    assert s4[1024..1536] == header;
    HeaderStored(s4, 1024, hp, o.header);
    AgreeSame(s4, 1024, 512);
    AgreeAfter(s4, s4, d.bytes, 1024, 512, |s0| - 1024, 512);
    HeaderFrame(s4, d.bytes, 1024, hp);
    assert d.bytes[|s0| - 1024..|s0| - 1024 + 512] == header;
    HeaderStored(d.bytes, |s0| - 1024, hp, o.header);
  }

  lemma PlacedSizes(hp: Header, size: nat)
    requires Placed(hp, size)
    ensures hp.blockSize % 512 == 0
  {
  }

  /** Two writes elsewhere keep what is there. */
  lemma Kept(s: seq<bv8>, t: seq<bv8>, u: seq<bv8>, v: seq<bv8>, p: nat, n: nat, q: nat, m: nat, at: nat, len: nat)
    requires Agree(s, t, at, len) && Outside(t, u, p, n) && Outside(u, v, q, m)
    requires at + len <= p || p + n <= at
    requires at + len <= q || q + m <= at
    ensures Agree(s, v, at, len)
  {
    hide Agree, Outside;
    AgreeAfter(s, t, u, at, len, p, n);
    AgreeAfter(s, u, v, at, len, q, m);
  }

  /** Formatting a drive of 512-byte sectors without a journal, for all parameters that
      newfs_hfs passes on: it fails exactly on drives of less than a megabyte, overruns its
      buffer exactly when an extents node does not fit that, and otherwise leaves a whole
      volume. */
  method MakeVolume(d: Drive, p: Params, sectors: nat, o: Contents)
    returns (out: Outcome, hp: Header, extents: Tree, attributes: Tree, catalog: Tree)
    requires d.Valid() && d.sectorSize == 512 && d.sectorOffset == 0 && |d.bytes| == 512 * sectors && |o.header| == 512
    requires Fits(p, sectors) && !p.journaledHFS
    requires TotalBlocks(p, sectors) <= 8 * (InBlocks(p.allocationClumpSize, p.blockSize) * p.blockSize)
    requires RoomFor(1, p.extentsInitialSize, o.extentsNode, p.blockSize) && RoomFor(1, p.attributesInitialSize, o.attributesNode, p.blockSize)
    requires RoomFor(2, p.catalogInitialSize, o.catalogNode, p.blockSize)
    modifies d`bytes
    ensures d.Valid() && |d.bytes| == old(|d.bytes|)
    ensures out == if sectors < 2048 then Failed else if o.extentsNode > BufferSize(hp, o) then Overrun else Done
    ensures WellLaid(hp) && Placed(hp, |d.bytes|) && hp.blockSize == p.blockSize && hp.totalBlocks == TotalBlocks(p, sectors)
    ensures hp.allocationFile.count == InBlocks(p.allocationClumpSize, p.blockSize)
    ensures hp.extentsFile.count == InBlocks(p.extentsInitialSize, p.blockSize)
    ensures hp.attributesFile.count == InBlocks(p.attributesInitialSize, p.blockSize)
    ensures hp.catalogFile.count == InBlocks(p.catalogInitialSize, p.blockSize)
    ensures out == Done ==> Formatted(d.bytes, hp, extents, attributes, catalog)
    ensures out == Done ==> Contained(o, extents, attributes, catalog)
  {
    hide Aligned, TreeFile, Accounted, HeaderAt, Placed, Contiguous, SmallFiles, InBlocks;
    hide WellLaid, Fits, PartlyZeroed, TotalBlocks, Formatted, BufferSize, Blank;
    var ok;
    ok, hp := MakeBitmap(d, p, sectors);
    var none := TreeHeader(0, 0, 0, 0, 0);
    extents := Tree(hp.extentsFile, o.extentsNode, 0, o.extents, none);
    attributes := Tree(hp.attributesFile, o.attributesNode, 0, o.attributes, none);
    catalog := Tree(hp.catalogFile, o.catalogNode, 1, o.catalog, none);
    if !ok {
      return Failed, hp, extents, attributes, catalog;
    }
    var buffer := new bv8[BufferSize(hp, o)];
    if o.extentsNode > buffer.Length {
      return Overrun, hp, extents, attributes, catalog;
    }
    SmallOnes(p, hp);
    extents, attributes, catalog, ok := WriteVolume(d, buffer, hp, p, sectors, o);
    out := Done;
  }

  /** Formats a drive of 1 MB with catalog and attributes nodes of 4096 bytes and extents
      nodes of 32768, all of which newfs_hfs accepts. */
  method LargeExtentsNode() returns (out: Outcome)
    ensures out == Overrun
  {
    hide Formatted, WellLaid, Zeros;
    var p := Params(4096, 4096, false, 0, 65536, 8192, 8192, 0, 32768);
    assert InBlocks(4096, 4096) == 1 && InBlocks(65536, 4096) == 16 && InBlocks(8192, 4096) == 2 && InBlocks(32768, 4096) == 8;
    assert TotalBlocks(p, 2048) == 256 && Gap(p, 256) == 0;
    SectorsAligned(2048);
    var d := new Drive(512, 0, 1, Zeros(1048576));
    var none := TreeParams(0, 0, 0, 0, 0);
    var o := Contents(32768, 4096, 4096, none, none, none, Zeros(512));
    var hp, e, a, c;
    out, hp, e, a, c := MakeVolume(d, p, 2048, o);
    assert hp.catalogFile.start + hp.catalogFile.count <= 256;
  }

  lemma {:induction false} SectorsAligned(n: nat)
    ensures Aligned(512, 512) && Aligned(512, 512 * n)
  {
    assert Aligned(512, 0);
    if n > 0 { SectorsAligned(n - 1); }
  }
}
