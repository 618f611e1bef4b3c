/** The sizes that newfs_hfs chooses by default for a drive of 512-byte sectors
    (src/newfs_hfs/newfs_hfs.c:693-859, 1197-1328, 1464-1520). */
module FormatParams {
  import opened Bytes
  import opened Blocks
  import opened Layout

  const MaxVolSize := 0x7FFF_FFFF_8000_0000
  const GrowthBoundary := 41

  function Pow2(k: nat): (p: nat)
    ensures p > 0
  {
    if k == 0 then 1 else 2 * Pow2(k - 1)
  }

  predicate IsPow2(n: nat, k: nat) {
    n == Pow2(k)
  }

  lemma {:induction false} Pow2Sum(a: nat, b: nat)
    ensures Pow2(a + b) == Pow2(a) * Pow2(b)
    decreases b
  {
    if b > 0 {
      Pow2Sum(a, b - 1);
      assert Pow2(a) * (2 * Pow2(b - 1)) == 2 * (Pow2(a) * Pow2(b - 1));
    }
  }

  lemma Pow2Mono(a: nat, b: nat)
    requires a <= b
    ensures Pow2(a) <= Pow2(b)
  {
    Pow2Sum(a, b - a);
    MulMono(1, Pow2(b - a), Pow2(a));
  }

  /** A smaller power of two divides a larger one. */
  lemma Pow2Divides(a: nat, b: nat)
    requires a <= b
    ensures Pow2(b) == Pow2(b - a) * Pow2(a)
  {
    Pow2Sum(b - a, a);
  }

  lemma Pow2Values()
    ensures Pow2(9) == 512 && Pow2(12) == 4096 && Pow2(13) == 8192 && Pow2(15) == 0x8000 && Pow2(28) == 0x1000_0000 && Pow2(30) == 0x4000_0000 && Pow2(31) == 0x8000_0000
    ensures Pow2(40) == 0x100_0000_0000 && Pow2(61) == 0x2000_0000_0000_0000
    ensures Pow2(62) == 0x4000_0000_0000_0000 && Pow2(63) == 0x8000_0000_0000_0000
  {
    assert Pow2(8) == 256;
    assert Pow2(16) == 256 * 256 by { Pow2Sum(8, 8); }
    assert Pow2(9) == 512 by { Pow2Sum(8, 1); assert Pow2(1) == 2; }
    assert Pow2(4) == 16;
    assert Pow2(5) == 32;
    assert Pow2(12) == 4096 by { Pow2Sum(8, 4); }
    assert Pow2(13) == 8192 by { Pow2Sum(8, 5); }
    assert Pow2(15) == 0x8000 by { Pow2Sum(8, 7); assert Pow2(7) == 128; }
    assert Pow2(24) == 0x100_0000 by { Pow2Sum(16, 8); }
    assert Pow2(28) == 0x1000_0000 by { Pow2Sum(24, 4); }
    assert Pow2(30) == 0x4000_0000 by { Pow2Sum(24, 6); assert Pow2(6) == 64; }
    assert Pow2(31) == 0x8000_0000 by { Pow2Sum(24, 7); assert Pow2(7) == 128; }
    assert Pow2(40) == 0x100_0000_0000 by { Pow2Sum(24, 16); }
    assert Pow2(61) == 0x2000_0000_0000_0000 by { Pow2Sum(31, 30); }
    assert Pow2(62) == 0x4000_0000_0000_0000 by { Pow2Sum(31, 31); }
    assert Pow2(63) == 2 * Pow2(62);
  }

  // ---- Bits of a number ----

  function Bits(x: nat): nat {
    if x == 0 then 0 else 1 + Bits(x / 2)
  }

  lemma {:induction false} BitsBounds(x: nat)
    ensures x < Pow2(Bits(x)) && (x > 0 ==> Bits(x) > 0 && Pow2(Bits(x) - 1) <= x)
  {
    if x > 0 { BitsBounds(x / 2); }
  }

  /** A number has at most `k` bits if and only if it is below 2^k. */
  lemma BitsAtMost(x: nat, k: nat)
    ensures Bits(x) <= k <==> x < Pow2(k)
  {
    BitsBounds(x);
    if Bits(x) <= k { Pow2Mono(Bits(x), k); } else { Pow2Mono(k, Bits(x) - 1); }
  }

  /** get_high_bit: the number of bits that `x` needs. */
  method GetHighBit(x: nat) returns (counter: nat)
    ensures forall k :: 0 <= k ==> (counter <= k <==> x < Pow2(k))
    ensures counter == Bits(x)
  {
    var bits := x;
    counter := 0;
    while bits > 0
      invariant counter + Bits(bits) == Bits(x)
    {
      bits := bits / 2;
      counter := counter + 1;
    }
    forall k | 0 <= k ensures counter <= k <==> x < Pow2(k) { BitsAtMost(x, k); }
  }

  /** bad_disk_size: what passes the check of the bits has a product that fits 64 bits, so
      the second check sees the true number of bytes. */
  method BadDiskSize(numsectors: nat, sectorsize: nat) returns (bad: bool)
    ensures bad <==> Bits(numsectors) + Bits(sectorsize) > 63 || numsectors * sectorsize > MaxVolSize
    ensures !bad ==> numsectors * sectorsize < 0x8000_0000_0000_0000
  {
    var a := GetHighBit(numsectors);
    var b := GetHighBit(sectorsize);
    if a + b > 63 {
      return true;
    }
    ProductBits(numsectors, sectorsize);
    var bytes := (numsectors * sectorsize) % 0x1_0000_0000_0000_0000;
    if bytes > MaxVolSize {
      return true;
    }
    return false;
  }

  /** The product has no more bits than the two numbers together. */
  lemma ProductBits(x: nat, y: nat)
    ensures 0 <= x * y
    ensures Bits(x) + Bits(y) <= 63 ==> x * y < 0x8000_0000_0000_0000
  {
    hide Pow2, Bits;
    var p, q := Pow2(Bits(x)), Pow2(Bits(y));
    BitsBounds(x);
    BitsBounds(y);
    Pow2Sum(Bits(x), Bits(y));
    MulMono(0, x, y);
    Strictly(x, y, p, q);
    if Bits(x) + Bits(y) <= 63 {
      Pow2Mono(Bits(x) + Bits(y), 63);
      Pow2Values();
    }
  }

  lemma Commute(a: int, b: int)
    ensures a * b == b * a
  {
  }

  lemma Strictly(x: nat, y: nat, p: nat, q: nat)
    requires x < p && y < q
    ensures x * y < p * q
  {
    MulMono(x, p, y);
    MulMono(y, q, p);
    Commute(y, p);
    Commute(q, p);
  }

  /** With 512-byte sectors, exactly the drives below 2^62 bytes pass. */
  lemma Accepted(numsectors: nat)
    ensures Bits(numsectors) + Bits(512) > 63 || numsectors * 512 > MaxVolSize <==> numsectors * 512 >= Pow2(62)
  {
    Pow2Values();
    BitsAtMost(512, 9);
    BitsAtMost(512, 10);
    assert Pow2(10) == 2 * Pow2(9);
    BitsAtMost(numsectors, 53);
    Pow2Sum(53, 9);
  }

  // ---- The block size ----

  /** alloc_blocksize, for drives of 41 bits and more. */
  const BlockSizes: seq<nat> :=
    [0x1000, 0x2000, 0x2000, 0x4000, 0x8000, 0x1_0000, 0x2_0000, 0x4_0000, 0x8_0000, 0x10_0000, 0x20_0000,
     0x40_0000, 0x80_0000, 0x100_0000, 0x200_0000, 0x400_0000, 0x800_0000, 0x1000_0000, 0x2000_0000, 0x4000_0000, 0x8000_0000]

  /** The exponent of each entry. */
  function Exponent(i: nat): nat {
    if i <= 1 then 12 + i else 11 + i
  }

  lemma TableStep(i: nat)
    requires 0 < i < |BlockSizes|
    ensures BlockSizes[i] == if i == 2 then BlockSizes[i - 1] else 2 * BlockSizes[i - 1]
  {
  }

  lemma Pow2Next(k: nat)
    ensures Pow2(k + 1) == 2 * Pow2(k)
  {
  }

  lemma {:induction false} TableEntry(i: nat)
    requires i < |BlockSizes|
    ensures BlockSizes[i] == Pow2(Exponent(i))
  {
    hide Pow2;
    if i == 0 {
      Pow2Values();
    } else {
      TableEntry(i - 1);
      TableStep(i);
      Pow2Next(Exponent(i - 1));
    }
  }

  /** The block size for a drive: 4096 exactly below 2 TB, 8192 up to 4 TB, and from there on
      what makes between 2^29 and 2^30 blocks. */
  ghost predicate BlockSizeIs(bytes: nat, bs: nat) {
    && (bs == 4096 <==> bytes < 0x200_0000_0000)
    && (0x200_0000_0000 <= bytes < 0x400_0000_0000 ==> bs == 8192)
    && (bytes >= 0x400_0000_0000 ==> 0x2000_0000 * bs <= bytes < 0x4000_0000 * bs)
  }

  /** The entry that the number of bits selects. */
  lemma TableIsRight(index: nat, fsSize: nat)
    requires index < |BlockSizes| && Pow2(40 + index) <= fsSize < Pow2(41 + index)
    ensures BlockSizeIs(fsSize, BlockSizes[index])
  {
    hide Pow2;
    Pow2Values();
    Pow2Next(40);
    Pow2Next(41);
    TableEntry(index);
    if index >= 2 {
      Pow2Mono(42, 40 + index);
      Pow2Sum(29, 11 + index);
      Pow2Sum(30, 11 + index);
      Pow2Next(29);
      Pow2Mono(13, 11 + index);
    }
  }

  datatype Choice = Chosen(blockSize: nat) | PastTable | TooBig

  /** The default block size: chosen exactly below 2^61 bytes, where it is a power of two
      that gives fewer than 2^30 blocks.  From there up to 2^62 bytes the code reads
      behind the end of its table of 21 sizes, because it allows 22 places; from 2^62
      on it reports the drive as too big. */
  method ValidateBlockSize(sectorCount: nat, sectorSize: nat) returns (c: Choice)
    requires sectorCount * sectorSize < 0x1_0000_0000_0000_0000
    ensures c.Chosen? <==> sectorCount * sectorSize < Pow2(61)
    ensures c.TooBig? <==> sectorCount * sectorSize >= Pow2(62)
    ensures c.Chosen? ==> exists k :: 12 <= k <= 31 && IsPow2(c.blockSize, k)
    ensures c.Chosen? ==> BlockSizeIs(sectorCount * sectorSize, c.blockSize)
    ensures c.Chosen? ==> sectorCount * sectorSize < 0x4000_0000 * c.blockSize
    ensures c.Chosen? ==> c.blockSize == 4096 || 0x1000_0000 * c.blockSize <= sectorCount * sectorSize
  {
    var fsSize := (sectorCount * sectorSize) % 0x1_0000_0000_0000_0000;
    MulMono(0, sectorCount, sectorSize);
    assert fsSize == sectorCount * sectorSize;
    c := BlockSizeFor(fsSize);
  }

  method BlockSizeFor(fsSize: nat) returns (c: Choice)
    ensures c.Chosen? <==> fsSize < Pow2(61)
    ensures c.TooBig? <==> fsSize >= Pow2(62)
    ensures c.Chosen? ==> exists k :: 12 <= k <= 31 && IsPow2(c.blockSize, k)
    ensures c.Chosen? ==> BlockSizeIs(fsSize, c.blockSize)
    ensures c.Chosen? ==> fsSize < 0x4000_0000 * c.blockSize
    ensures c.Chosen? ==> c.blockSize == 4096 || 0x1000_0000 * c.blockSize <= fsSize
  {
    hide Pow2, Bits;
    var blockSize := 4096;
    Pow2Values();
    assert IsPow2(blockSize, 12);
    var bits := GetHighBit(fsSize);
    var index := bits - GrowthBoundary;
    assert bits <= 40 ==> fsSize < Pow2(40);
    if 0 <= index < 22 {
      if index >= |BlockSizes| {
        return PastTable;
      }
      blockSize := BlockSizes[index];
      TableEntry(index);
      assert IsPow2(blockSize, Exponent(index));
      assert fsSize < Pow2(41 + index);
      Pow2Sum(30, Exponent(index));
      Pow2Mono(41 + index, 30 + Exponent(index));
      assert !(bits <= 40 + index) && fsSize >= Pow2(40 + index);
      if index > 0 {
        Pow2Sum(28, Exponent(index));
        Pow2Mono(28 + Exponent(index), 40 + index);
      }
      TableIsRight(index, fsSize);
    }
    if index >= 22 {
      return TooBig;
    }
    return Chosen(blockSize);
  }

  // ---- B-tree sizes ----

  datatype FileID = Attributes | Catalog | Extents

  datatype Row = Row(attributes: nat, catalog: nat, extents: nat)

  /** clumptbl, in megabytes, for volumes from 1 GB on: a row for each doubling. */
  const ClumpTable: seq<Row> :=
    [Row(4, 4, 4), Row(6, 6, 4), Row(8, 8, 4), Row(11, 11, 5), Row(64, 32, 5), Row(84, 49, 6), Row(111, 74, 7), Row(147, 111, 8),
     Row(194, 169, 9), Row(256, 256, 11), Row(294, 294, 14), Row(338, 338, 16), Row(388, 388, 20), Row(446, 446, 25), Row(512, 512, 32)]

  function Column(r: Row, f: FileID): nat {
    match f
    case Attributes => r.attributes
    case Catalog => r.catalog
    case Extents => r.extents
  }

  /** Which of three sizes is for which file. */
  function Choose(f: FileID, attributes: nat, catalog: nat, extents: nat): nat {
    match f
    case Attributes => attributes
    case Catalog => catalog
    case Extents => extents
  }

  /** The size in megabytes for a volume of `gb` whole gigabytes. */
  function ClumpMB(gb: nat, f: FileID): nat {
    if gb < 2 then 4
    else if gb < 4 then Choose(f, 6, 6, 4)
    else if gb < 8 then Choose(f, 8, 8, 4)
    else if gb < 16 then Choose(f, 11, 11, 5)
    else if gb < 32 then Choose(f, 64, 32, 5)
    else if gb < 64 then Choose(f, 84, 49, 6)
    else if gb < 128 then Choose(f, 111, 74, 7)
    else if gb < 256 then Choose(f, 147, 111, 8)
    else if gb < 512 then Choose(f, 194, 169, 9)
    else if gb < 1024 then Choose(f, 256, 256, 11)
    else if gb < 2048 then Choose(f, 294, 294, 14)
    else if gb < 4096 then Choose(f, 338, 338, 16)
    else if gb < 8192 then Choose(f, 388, 388, 20)
    else if gb < 16384 then Choose(f, 446, 446, 25)
    else Choose(f, 512, 512, 32)
  }

  /** `x` is a multiple of `d`. */
  ghost predicate Multiple(x: nat, d: nat)
    requires d > 0
  {
    x % d == 0
  }

  lemma MultipleOf(q: nat, d: nat)
    requires d > 0
    ensures 0 <= q * d && Multiple(q * d, d)
  {
    MulMono(0, q, d);
    QuotientUnique(d, q * d, q, 0);
  }

  /** Multiples of the larger of two powers of two are multiples of both. */
  lemma MultipleOfBoth(q: nat, a: nat, b: nat)
    ensures var m := if a < b then Pow2(b) else Pow2(a); Multiple(q * m, Pow2(a)) && Multiple(q * m, Pow2(b)) && q * m >= 0
  {
    var lo, hi := if a < b then a else b, if a < b then b else a;
    Pow2Divides(lo, hi);
    hide Pow2, Multiple;
    var t := Pow2(hi - lo);
    Associate(q, t, Pow2(lo));
    MulMono(0, q, t);
    MultipleOf(q * t, Pow2(lo));
    MultipleOf(q, Pow2(hi));
  }

  lemma Associate(a: int, b: int, c: int)
    ensures a * (b * c) == (a * b) * c
  {
  }

  /** `size` is `clump` rounded down to the larger of block and node size, or that if there is
      nothing left. */
  ghost predicate RoundedFrom(size: nat, blockSize: nat, nodeSize: nat, clump: nat) {
    var mod := if nodeSize < blockSize then blockSize else nodeSize;
    mod > 0 && Multiple(size, mod) && if clump < mod then size == mod else clump - mod < size <= clump
  }

  /** CalcHFSPlusBTreeClumpSize: a positive multiple of both sizes, which are powers of
      two, that fits 32 bits. */
  method CalcClumpSize(blockSize: nat, nodeSize: nat, sectors: nat, file: FileID, ghost kb: nat, ghost kn: nat) returns (size: nat)
    requires IsPow2(blockSize, kb) && kb <= 31 && IsPow2(nodeSize, kn) && kn <= 15
    ensures 0 < size < 0x1_0000_0000 && Multiple(size, blockSize) && Multiple(size, nodeSize)
    ensures blockSize <= size && 2 * nodeSize <= size
    ensures size <= 8 * sectors || size <= 8 * nodeSize || size <= blockSize
    ensures RoundedFrom(size, blockSize, nodeSize, ClumpFor(nodeSize, sectors, file))
  {
    hide Multiple, Pow2;
    var mod := if nodeSize < blockSize then blockSize else nodeSize;
    ModIs(kn, kb);
    var clumpSize := InitialClump(nodeSize, sectors, file);
    ClumpBound(nodeSize, sectors, file);
    hide ClumpFor;
    RoundedDown(clumpSize, mod);
    TwoNodes(kn, kb);
    var q := clumpSize / mod;
    QuotientBound(clumpSize, mod);
    clumpSize := q * mod;
    if clumpSize == 0 {
      clumpSize := mod;
      MultipleOfBoth(1, kn, kb);
    } else {
      MultipleOfBoth(q, kn, kb);
      Positive(q, mod);
    }
    return clumpSize;
  }

  lemma RoundedDown(x: nat, m: nat)
    requires m > 0
    ensures var r := (x / m) * m; x - m < r <= x && (r == 0 <==> x < m)
  {
    QuotientBound(x, m);
    var q := x / m;
    assert x == q * m + x % m;
    if x >= m { MulMono(q, 0, m); }
  }

  /** The larger of the two sizes. */
  lemma ModIs(kn: nat, kb: nat)
    requires kn <= 15 && kb <= 31
    ensures var mod := if Pow2(kn) < Pow2(kb) then Pow2(kb) else Pow2(kn);
            mod == (if kn < kb then Pow2(kb) else Pow2(kn)) && mod <= 0x8000_0000 && Pow2(kn) <= 0x8000
  {
    hide Pow2;
    Pow2Values();
    Pow2Mono(kb, 31);
    Pow2Mono(kn, 15);
    if kn < kb { Pow2Mono(kn, kb); } else { Pow2Mono(kb, kn); }
  }

  /** A block that is larger than a node holds two. */
  lemma TwoNodes(kn: nat, kb: nat)
    ensures Pow2(kn) < Pow2(kb) ==> 2 * Pow2(kn) <= Pow2(kb)
  {
    hide Pow2;
    Pow2Next(kn);
    if kn < kb { Pow2Mono(kn + 1, kb); } else { Pow2Mono(kb, kn); }
  }

  lemma Positive(q: nat, m: nat)
    requires q * m != 0
    ensures q >= 1 && q * m >= m
  {
    MulMono(1, q, m);
  }

  /** The clump size before rounding: 0.8 % of a small volume, but eight nodes at least;
      from 1 GB on by the size in gigabytes. */
  function ClumpFor(nodeSize: nat, sectors: nat, file: FileID): nat {
    if sectors < 0x20_0000 then (if 4 * sectors < 8 * nodeSize then 8 * nodeSize else 4 * sectors)
    else ClumpMB(sectors / 0x20_0000, file) * 1024 * 1024
  }

  /** At least eight nodes, and no more than a 64th of the volume unless that is less. */
  lemma ClumpBound(nodeSize: nat, sectors: nat, file: FileID)
    requires nodeSize <= 0x8000
    ensures var size := ClumpFor(nodeSize, sectors, file); 8 * nodeSize <= size <= 0x2000_0000 && (size <= 8 * sectors || size <= 8 * nodeSize)
  {
  }

  /** The row that counting doublings leads to. */
  lemma RowIsRight(sectors: nat, i: nat, file: FileID)
    requires sectors >= 0x20_0000 && i == (if Bits(sectors / 0x40_0000) < 14 then Bits(sectors / 0x40_0000) else 14)
    ensures Column(ClumpTable[i], file) == ClumpMB(sectors / 0x20_0000, file)
  {
    var s, gb := sectors / 0x40_0000, sectors / 0x20_0000;
    assert s == 0 ==> Bits(s) == 0;
    hide Pow2, Bits;
    assert 2 * s <= gb <= 2 * s + 1;
    BitsBounds(s);
    BitsAtMost(s, 13);
    SmallPowers();
    RowOfRange(i, s, gb, file);
  }

  lemma SmallPowers()
    ensures Pow2(0) == 1 && Pow2(1) == 2 && Pow2(2) == 4 && Pow2(3) == 8 && Pow2(4) == 16 && Pow2(5) == 32 && Pow2(6) == 64 && Pow2(7) == 128
    ensures Pow2(8) == 256 && Pow2(9) == 512 && Pow2(10) == 1024 && Pow2(11) == 2048 && Pow2(12) == 4096 && Pow2(13) == 8192
  {
    assert Pow2(7) == 128;
    Pow2Sum(7, 1);
    Pow2Sum(7, 2);
    Pow2Sum(7, 3);
    Pow2Sum(7, 4);
    Pow2Sum(7, 5);
    Pow2Sum(7, 6);
  }

  lemma RowOfRange(i: nat, s: nat, gb: nat, file: FileID)
    requires i <= 14 && 2 * s <= gb <= 2 * s + 1
    requires i == 0 ==> s == 0
    requires i > 0 ==> Pow2(i - 1) <= s && (i < 14 ==> s < Pow2(i))
    requires Pow2(0) == 1 && Pow2(1) == 2 && Pow2(2) == 4 && Pow2(3) == 8 && Pow2(4) == 16 && Pow2(5) == 32 && Pow2(6) == 64 && Pow2(7) == 128
    requires Pow2(8) == 256 && Pow2(9) == 512 && Pow2(10) == 1024 && Pow2(11) == 2048 && Pow2(12) == 4096 && Pow2(13) == 8192
    ensures Column(ClumpTable[i], file) == ClumpMB(gb, file)
  {
    hide Pow2;
    if i <= 7 {
      if i == 0 {} else if i == 1 {} else if i == 2 {} else if i == 3 {} else if i == 4 {} else if i == 5 {} else if i == 6 {} else {}
    } else {
      if i == 8 {} else if i == 9 {} else if i == 10 {} else if i == 11 {} else if i == 12 {} else if i == 13 {} else {}
    }
  }

  method InitialClump(nodeSize: nat, sectors: nat, file: FileID) returns (size: nat)
    ensures size == ClumpFor(nodeSize, sectors, file)
  {
    if sectors < 0x20_0000 {
      size := 4 * sectors;
      if size < 8 * nodeSize {
        size := 8 * nodeSize;
      }
    } else {
      size := TableClump(sectors, file);
    }
  }

  method TableClump(sectors: nat, file: FileID) returns (size: nat)
    requires sectors >= 0x20_0000
    ensures size == ClumpMB(sectors / 0x20_0000, file) * 1024 * 1024
  {
    hide ClumpMB;
    // one row for each doubling
    var i := 0;
    var s := sectors / 0x40_0000;
    while s > 0 && i < 14
      invariant 0 <= i <= 14 && s >= 0 && i + Bits(s) == Bits(sectors / 0x40_0000)
      decreases 14 - i
    {
      i := i + 1;
      s := s / 2;
    }
    RowIsRight(sectors, i, file);
    size := Column(ClumpTable[i], file) * 1024 * 1024;
  }

  // ---- All sizes ----

  datatype Sizes = Sizes(blockSize: nat, totalBlocks: nat, bitmap: nat, catalogNodeSize: nat, catalog: nat, extents: nat, attributes: nat)

  /** The bytes of a bitmap of one bit per block, rounded up to whole blocks; in 32 bits. */
  method BitmapSize(totalBlocks: nat, blockSize: nat) returns (size: nat)
    requires totalBlocks < 0x4000_0000 && 0 < blockSize <= 0x8000_0000
    ensures size < 0x1_0000_0000 && Multiple(size, blockSize) && totalBlocks <= 8 * size
    ensures totalBlocks > 0 ==> 8 * (size - blockSize) < totalBlocks
  {
    hide Multiple;
    var minClumpSize := totalBlocks / 8;
    if totalBlocks % 8 != 0 {
      minClumpSize := minClumpSize + 1;
    }
    RoundedUp(minClumpSize, blockSize);
    var odd := minClumpSize % blockSize;
    size := minClumpSize;
    if odd != 0 {
      size := size - odd + blockSize;
    }
  }

  lemma RoundedUp(x: nat, m: nat)
    requires m > 0
    ensures var odd := x % m; 0 <= odd < m && Multiple(if odd != 0 then x - odd + m else x, m)
  {
    var q, odd := x / m, x % m;
    DivSplit(x, m);
    Distribute(q, 1, m);
    MultipleOf(q, m);
    MultipleOf(q + 1, m);
  }

  /** The initial size of a B-tree file: a multiple of node and block size that holds two
      nodes, fits 32 bits, and is at most a 64th of the volume, eight nodes or one block. */
  ghost predicate TreeSize(size: nat, nodeSize: nat, blockSize: nat, sectors: nat) {
    && 0 < 2 * nodeSize <= size < 0x1_0000_0000 && 0 < blockSize
    && Multiple(size, blockSize) && Multiple(size, nodeSize)
    && (size <= 8 * sectors || size <= 8 * nodeSize || size <= blockSize)
  }

  /** The default sizes for a drive: nothing wraps around; the block size, a power of two,
      is that of BlockSizeIs and gives fewer than 2^30 blocks; the bitmap is the least
      whole number of blocks with a bit for every block; and each B-tree, in whole blocks
      and nodes, has the size that table or percentage gives for its file. */
  ghost predicate Defaults(r: Sizes, sectors: nat, kb: nat) {
    && 12 <= kb <= 31 && IsPow2(r.blockSize, kb) && 4096 <= r.blockSize
    && BlockSizeIs(sectors * 512, r.blockSize) && (r.blockSize == 4096 || 0x1000_0000 * r.blockSize <= sectors * 512)
    && r.totalBlocks == sectors / (r.blockSize / 512) < 0x4000_0000
    && r.bitmap < 0x1_0000_0000 && Multiple(r.bitmap, r.blockSize)
    && 8 * (r.bitmap - r.blockSize) < r.totalBlocks <= 8 * r.bitmap
    && r.catalogNodeSize == CatalogNode(sectors)
    && TreeSize(r.catalog, r.catalogNodeSize, r.blockSize, sectors) && TreeSize(r.extents, 4096, r.blockSize, sectors)
    && TreeSize(r.attributes, 8192, r.blockSize, sectors)
    && RoundedFrom(r.catalog, r.blockSize, r.catalogNodeSize, ClumpFor(r.catalogNodeSize, sectors, Catalog))
    && RoundedFrom(r.extents, r.blockSize, 4096, ClumpFor(4096, sectors, Extents))
    && RoundedFrom(r.attributes, r.blockSize, 8192, ClumpFor(8192, sectors, Attributes))
  }

  function CatalogNode(sectors: nat): nat {
    if sectors * 512 < 0x4000_0000 then 4096 else 8192
  }

  /** The sizes for a drive that BadDiskSize accepts, of at least 512 KB and below 2^61
      bytes. */
  method DefaultSizes(sectorCount: nat) returns (r: Sizes, ghost kb: nat)
    requires 524288 <= sectorCount * 512 < Pow2(61)
    ensures Defaults(r, sectorCount, kb)
  {
    hide Pow2, Multiple, ClumpFor, BlockSizeIs, RoundedFrom;
    Pow2Values();
    var c := ValidateBlockSize(sectorCount, 512);
    var bs := c.blockSize;
    kb :| 12 <= kb <= 31 && IsPow2(bs, kb);
    BlockSizeBounds(bs, kb);
    var node := 8192;
    if bs < 4096 || (sectorCount * 512) % 0x1_0000_0000_0000_0000 < 0x4000_0000 {
      node := 4096;
    }
    ghost var kn := if node == 4096 then 12 else 13;
    var catalog := CalcClumpSize(bs, node, sectorCount, Catalog, kb, kn);
    var extents := CalcClumpSize(bs, 4096, sectorCount, Extents, kb, 12);
    var attributes := CalcClumpSize(bs, 8192, sectorCount, Attributes, kb, 13);
    FewBlocks(sectorCount, bs);
    SomeBlocks(sectorCount, bs);
    var total := U32(sectorCount / (bs / 512));
    var bitmap := BitmapSize(total, bs);
    r := Sizes(bs, total, bitmap, node, catalog, extents, attributes);
  }

  lemma BlockSizeBounds(bs: nat, kb: nat)
    requires 12 <= kb <= 31 && IsPow2(bs, kb)
    ensures 4096 <= bs <= 0x8000_0000 && bs % 512 == 0
  {
    Pow2Values();
    Pow2Mono(12, kb);
    Pow2Mono(kb, 31);
    Pow2Divides(9, kb);
  }

  lemma FewBlocks(sectors: nat, bs: nat)
    requires bs >= 512 && bs % 512 == 0 && sectors * 512 < 0x4000_0000 * bs
    ensures 0 <= sectors / (bs / 512) < 0x4000_0000
  {
    var n := bs / 512;
    assert bs == 512 * n && sectors < 0x4000_0000 * n;
    QuotientBound(sectors, n);
    var t := sectors / n;
    MulMono(0x4000_0000, t, n);
  }

  /** A drive with at least as many bytes as a block has a block. */
  lemma SomeBlocks(sectors: nat, bs: nat)
    requires bs >= 512 && bs % 512 == 0 && bs <= sectors * 512
    ensures sectors / (bs / 512) > 0
  {
    var n := bs / 512;
    assert bs == 512 * n && n <= sectors;
    var t := sectors / n;
    assert sectors == t * n + sectors % n;
    MulMono(t, 0, n);
  }

  /** With these sizes the bitmap file has a bit for every block that InitVH counts, as
      marking the blocks requires. */
  lemma BitmapSuffices(p: Params, sectors: nat, bitmap: uint32)
    requires p.blockSize >= 512 && p.allocationClumpSize == bitmap && Multiple(bitmap, p.blockSize)
    requires sectors / (p.blockSize / 512) <= 8 * bitmap
    ensures TotalBlocks(p, sectors) <= 8 * (InBlocks(p.allocationClumpSize, p.blockSize) * p.blockSize)
  {
    var q := bitmap / p.blockSize;
    assert bitmap == q * p.blockSize;
  }
}
