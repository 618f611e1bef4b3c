/** Marking the blocks of a new volume, and counting those left free
    (src/newfs_hfs/makehfs.c:434-542). */
module FormatBitmap {
  import opened Bytes
  import opened Blocks
  import opened Drives
  import opened Bitmaps
  import opened Layout

  ghost predicate InRegions(rs: seq<Region>, i: nat) {
    exists k :: 0 <= k < |rs| && rs[k].start <= i < rs[k].start + rs[k].count
  }

  /** Of the `n` bits from bit `b` on, exactly those in a region are set. */
  ghost predicate BitsAre(s: seq<bv8>, b: nat, n: nat, rs: seq<Region>) {
    b + n <= 8 * |s| && forall i {:trigger InRegions(rs, i)} :: 0 <= i < n ==> (BitAt(s, b + i) <==> InRegions(rs, i))
  }

  lemma NoneSet(s: seq<bv8>, b: nat, n: nat)
    requires b + n <= 8 * |s| && ClearBits(s, b, b + n)
    ensures BitsAre(s, b, n, [])
  {
    hide BitAt;
  }

  lemma MoreSet(s: seq<bv8>, t: seq<bv8>, b: nat, n: nat, rs: seq<Region>, r: Region)
    requires BitsAre(s, b, n, rs) && SetBits(s, t, b + r.start, b + r.start + r.count)
    ensures BitsAre(t, b, n, rs + [r])
  {
    hide BitAt;
    forall i | 0 <= i < n ensures BitAt(t, b + i) <==> InRegions(rs + [r], i) {
      InMore(rs, r, i);
      assert BitAt(s, b + i) <==> InRegions(rs, i);
    }
  }

  lemma InMore(rs: seq<Region>, r: Region, i: nat)
    ensures InRegions(rs + [r], i) <==> InRegions(rs, i) || r.start <= i < r.start + r.count
  {
    var t := rs + [r];
    if InRegions(rs, i) {
      var k :| 0 <= k < |rs| && rs[k].start <= i < rs[k].start + rs[k].count;
      assert t[k] == rs[k];
    }
    assert t[|rs|] == r;
  }

  lemma InFirst(rs: seq<Region>, i: nat)
    requires rs != []
    ensures InRegions(rs, i) <==> rs[0].start <= i < rs[0].start + rs[0].count || InRegions(rs[1..], i)
  {
    if InRegions(rs[1..], i) {
      var k :| 0 <= k < |rs[1..]| && rs[1..][k].start <= i < rs[1..][k].start + rs[1..][k].count;
      assert rs[k + 1] == rs[1..][k];
    }
  }

  // ---- Counting clear bits ----

  /** How many of the bits from `lo` up to `hi` are clear. */
  function CountClear(s: seq<bv8>, lo: nat, hi: nat): nat
    requires lo <= hi <= 8 * |s|
    decreases hi - lo
  {
    if lo == hi then 0 else (if BitAt(s, lo) then 0 else 1) + CountClear(s, lo + 1, hi)
  }

  lemma {:induction false} CountSplit(s: seq<bv8>, lo: nat, mid: nat, hi: nat)
    requires lo <= mid <= hi <= 8 * |s|
    ensures CountClear(s, lo, hi) == CountClear(s, lo, mid) + CountClear(s, mid, hi)
    decreases mid - lo
  {
    hide BitAt;
    if lo < mid { CountSplit(s, lo + 1, mid, hi); }
  }

  lemma {:induction false} CountUniform(s: seq<bv8>, lo: nat, hi: nat, isSet: bool)
    requires lo <= hi <= 8 * |s| && forall i :: lo <= i < hi ==> BitAt(s, i) == isSet
    ensures CountClear(s, lo, hi) == if isSet then 0 else hi - lo
    decreases hi - lo
  {
    hide BitAt;
    if lo < hi { CountUniform(s, lo + 1, hi, isSet); }
  }

  /** When the set bits are those of ordered regions, the clear ones are all the others. */
  lemma {:induction false} CountOrdered(s: seq<bv8>, b: nat, n: nat, rs: seq<Region>, lo: nat, all: seq<Region>)
    requires Ordered(rs, lo, n) && BitsAre(s, b, n, all)
    requires forall i :: lo <= i < n ==> (InRegions(all, i) <==> InRegions(rs, i))
    ensures lo <= n && Sum(rs) <= n - lo && CountClear(s, b + lo, b + n) == n - lo - Sum(rs)
    decreases |rs|
  {
    hide BitAt, CountClear, Ordered, InRegions;
    OrderedBounds(rs, lo, n);
    if rs == [] {
      forall i | b + lo <= i < b + n ensures !BitAt(s, i) {
        assert !InRegions([], i - b) by { InNone(i - b); }
        assert BitAt(s, b + (i - b)) <==> InRegions(all, i - b);
      }
      CountUniform(s, b + lo, b + n, false);
    } else {
      var r, t := rs[0], rs[1..];
      var mid, hi := r.start, r.start + r.count;
      OrderedFirst(rs, lo, n);
      forall i | lo <= i < n ensures InRegions(rs, i) <==> mid <= i < hi || (InRegions(t, i) && i >= hi) {
        InFirst(rs, i);
        InLater(t, hi, n, i);
      }
      forall i | b + lo <= i < b + hi ensures BitAt(s, i) <==> i >= b + mid {
        assert BitAt(s, b + (i - b)) <==> InRegions(all, i - b);
      }
      CountUniform(s, b + lo, b + mid, false);
      CountUniform(s, b + mid, b + hi, true);
      CountOrdered(s, b, n, t, hi, all);
      CountSplit(s, b + lo, b + mid, b + n);
      CountSplit(s, b + mid, b + hi, b + n);
    }
  }

  lemma InNone(i: nat)
    ensures !InRegions([], i)
  {
  }

  lemma OrderedFirst(rs: seq<Region>, lo: nat, n: nat)
    requires Ordered(rs, lo, n) && rs != []
    ensures lo <= rs[0].start && Ordered(rs[1..], rs[0].start + rs[0].count, n) && rs[0].start + rs[0].count <= n
  {
    OrderedBounds(rs[1..], rs[0].start + rs[0].count, n);
  }

  lemma InLater(rs: seq<Region>, lo: nat, n: nat, i: nat)
    requires Ordered(rs, lo, n)
    ensures InRegions(rs, i) ==> i >= lo
  {
    OrderedDisjoint(rs, lo, n);
  }

  // ---- Where the files are on the drive ----

  /** What the marking relies on: the files lie in order, within the drive; the bitmap
      has a bit for every block; sector numbers and the bitmap's offset fit 32 bits. */
  ghost predicate Placed(hp: Header, size: nat) {
    && hp.blockSize >= 512 && hp.blockSize % 512 == 0
    && hp.totalBlocks * hp.blockSize <= size
    && hp.allocationFile.start == HeadBlocks(hp.blockSize)
    && hp.allocationFile.start + hp.allocationFile.count <= EndOfAttributes(hp) <= hp.catalogFile.start
    && hp.catalogFile.start + hp.catalogFile.count + TailBlocks(hp.blockSize) <= hp.totalBlocks
    && hp.totalBlocks <= 8 * (hp.allocationFile.count * hp.blockSize)
    && hp.catalogFile.start * (hp.blockSize / 512) < 0x1_0000_0000
    && hp.allocationFile.start * hp.blockSize < 0x1_0000_0000
    && 0 < hp.allocationFile.count
  }

  function EndOfAttributes(hp: Header): nat {
    hp.attributesFile.start + hp.attributesFile.count
  }

  lemma SectorBytes(start: nat, bs: nat)
    requires bs % 512 == 0
    ensures (start * (bs / 512)) * 512 == start * bs
  {
    var n := bs / 512;
    assert bs == 512 * n;
    assert (start * n) * 512 == start * (512 * n);
  }

  lemma ZeroBytesClear(s: seq<bv8>, at: nat, n: nat)
    requires at + n <= |s| && forall j :: at <= j < at + n ==> s[j] == 0
    ensures ClearBits(s, 8 * at, 8 * (at + n))
  {
    forall i | 8 * at <= i < 8 * (at + n) ensures !BitAt(s, i) {
      assert s[i / 8] == 0;
      ZeroBits(s[i / 8]);
    }
  }

  /** WriteBuffer without a buffer, on a range of the drive. */
  method WriteZeros(d: Drive, sector: nat, byteCount: nat)
    requires d.Valid() && d.sectorSize == 512 && d.sectorOffset == 0 && 512 * sector + byteCount <= |d.bytes|
    modifies d`bytes
    ensures d.Valid() && d.bytes == Splice(old(d.bytes), 512 * sector, Zeros(byteCount))
  {
    hide Aligned, Written;
    ghost var dev, w := d.bytes, 0;
    var out;
    out, w := d.WriteBuffer(sector, byteCount, [], true, true);
    if byteCount == 0 {
      assert d.bytes == dev by { NothingWritten(dev, d.bytes, 512 * sector, Zeros(0)); }
      SpliceSame(dev, 512 * sector, Zeros(0));
    } else {
      AllWritten(dev, d.bytes, 512 * sector, Zeros(byteCount));
    }
  }

  lemma NothingWritten(dev: seq<bv8>, bytes: seq<bv8>, at: nat, data: seq<bv8>)
    requires Written(dev, bytes, at, data, 0)
    ensures bytes == dev
  {
  }

  /** The room for the volume header is cleared first: a megabyte, which the
      smallest drives do not have. */
  const FirstZeros := 1024 * 1024

  /** Some bytes at the start of the drive are zero, the others as they were. */
  ghost predicate PartlyZeroed(dev: seq<bv8>, bytes: seq<bv8>) {
    exists w: nat :: w < FirstZeros && Written(dev, bytes, 0, Zeros(FirstZeros), w)
  }

  /** A byte from the bitmap to the block behind the attributes file, or of the catalog file. */
  ghost predicate InFiles(hp: Header, j: int) {
    var bs, a := hp.blockSize, hp.allocationFile.start;
    || a * bs <= j < a * bs + (EndOfAttributes(hp) - a + 1) * bs
    || hp.catalogFile.start * bs <= j < hp.catalogFile.start * bs + hp.catalogFile.count * bs
  }

  /** Clears the bitmap and the files behind it, then the catalog file, and nothing else. */
  method ZeroFiles(d: Drive, hp: Header)
    requires d.Valid() && d.sectorSize == 512 && d.sectorOffset == 0 && Placed(hp, |d.bytes|)
    modifies d`bytes
    ensures d.Valid() && |d.bytes| == old(|d.bytes|)
    ensures var b := 8 * (hp.allocationFile.start * hp.blockSize); ClearBits(d.bytes, b, b + hp.totalBlocks)
    ensures forall j :: 0 <= j < |d.bytes| ==> d.bytes[j] == if InFiles(hp, j) then 0 else old(d.bytes)[j]
  {
    hide Aligned, ClearBits, Zeros, InFiles;
    var bs := hp.blockSize;
    var sectorsPerBlock := bs / 512;
    var startOfAllocation, endOfAttributes := hp.allocationFile.start, U32(EndOfAttributes(hp));
    ZeroBounds(hp, |d.bytes|);
    var sector := U32(startOfAllocation * sectorsPerBlock);
    var bytesToZero := U32(endOfAttributes - startOfAllocation + 1) * bs;
    ghost var at, n := startOfAllocation * bs, hp.allocationFile.count * bs;
    WriteZeros(d, sector, bytesToZero);
    ghost var s1 := d.bytes;
    bytesToZero := hp.catalogFile.count * bs;
    sector := U32(hp.catalogFile.start * sectorsPerBlock);
    WriteZeros(d, sector, bytesToZero);
    FilesZeroed(old(d.bytes), s1, d.bytes, hp);
    ZeroBytesClear(d.bytes, at, n);
    ClearFewer(d.bytes, 8 * at, 8 * at + hp.totalBlocks, 8 * (at + n));
  }

  /** The two writes of ZeroFiles. */
  lemma FilesZeroed(s0: seq<bv8>, s1: seq<bv8>, s2: seq<bv8>, hp: Header)
    requires Placed(hp, |s0|)
    requires var bs, a, n, c := hp.blockSize, hp.allocationFile.start * hp.blockSize,
                                (EndOfAttributes(hp) - hp.allocationFile.start + 1) * hp.blockSize, hp.catalogFile.start * hp.blockSize;
             && 0 <= a && 0 <= n && a + n <= |s0| && 0 <= c && 0 <= hp.catalogFile.count * bs && c + hp.catalogFile.count * bs <= |s0|
             && s1 == Splice(s0, a, Zeros(n)) && s2 == Splice(s1, c, Zeros(hp.catalogFile.count * bs))
    ensures forall j :: 0 <= j < |s2| ==> s2[j] == if InFiles(hp, j) then 0 else s0[j]
    ensures 0 <= MapAt(hp) && MapAt(hp) + MapLength(hp) <= |s2| && forall j :: MapAt(hp) <= j < MapAt(hp) + MapLength(hp) ==> s2[j] == 0
  {
    ZeroBounds(hp, |s0|);
    hide Placed;
  }

  lemma ClearFewer(s: seq<bv8>, lo: nat, mid: nat, hi: nat)
    requires ClearBits(s, lo, hi) && mid <= hi
    ensures ClearBits(s, lo, mid)
  {
    hide BitAt;
  }

  /** The offsets of ZeroFiles, in bytes. */
  lemma ZeroBounds(hp: Header, size: nat)
    requires Placed(hp, size)
    ensures var bs, spb := hp.blockSize, hp.blockSize / 512;
            var a, e, c := hp.allocationFile.start, EndOfAttributes(hp), hp.catalogFile.start;
            && e < 0x1_0000_0000 && 0 <= a * spb < 0x1_0000_0000 && 0 <= c * spb
            && a * spb * 512 == a * bs && c * spb * 512 == c * bs
            && a * bs + (e - a + 1) * bs <= size && c * bs + hp.catalogFile.count * bs <= size
            && hp.allocationFile.count * bs <= (e - a + 1) * bs
            && a * bs + hp.allocationFile.count * bs <= c * bs
            && 0 <= hp.catalogFile.count * bs && 0 <= (e - a + 1) * bs && 0 <= a * bs
  {
    var bs, spb := hp.blockSize, hp.blockSize / 512;
    var a, e, c := hp.allocationFile.start, EndOfAttributes(hp), hp.catalogFile.start;
    SectorBytes(a, bs);
    SectorBytes(c, bs);
    MulMono(a, c, spb);
    MulMono(0, a, spb);
    RangeBytes(a, e - a + 1, hp.totalBlocks, bs);
    RangeBytes(c, hp.catalogFile.count, hp.totalBlocks, bs);
    RangeBytes(a, hp.allocationFile.count, c, bs);
    MulMono(hp.allocationFile.count, e - a + 1, bs);
  }

  /** A range of blocks that ends before `end`, in bytes. */
  lemma RangeBytes(start: nat, count: nat, end: nat, bs: nat)
    requires start + count <= end
    ensures 0 <= start * bs && 0 <= count * bs && start * bs + count * bs <= end * bs
  {
    Distribute(start, count, bs);
    MulMono(start + count, end, bs);
    MulMono(0, start, bs);
    MulMono(0, count, bs);
  }

  /** Where the bitmap is, and its length, in bytes. */
  ghost function MapAt(hp: Header): int {
    hp.allocationFile.start * hp.blockSize
  }

  ghost function MapLength(hp: Header): int {
    hp.allocationFile.count * hp.blockSize
  }

  /** A file of the volume that is not before the bitmap. */
  ghost predicate FileOf(hp: Header, f: Fork) {
    && hp.allocationFile.start <= f.start <= hp.catalogFile.start && f.start + f.count <= hp.totalBlocks
    && f.count * hp.blockSize < 0x1_0000_0000
  }

  lemma FileBytes(hp: Header, size: nat, f: Fork)
    requires Placed(hp, size) && FileOf(hp, f)
    ensures var bs := hp.blockSize;
            && 0 <= f.start * (bs / 512) < 0x1_0000_0000 && f.start * (bs / 512) * 512 == f.start * bs
            && 0 <= f.start * bs && 0 <= f.count * bs && f.start * bs + f.count * bs <= size
            && 0 <= MapAt(hp) && 0 < MapLength(hp) && MapAt(hp) + MapLength(hp) <= size && hp.totalBlocks <= 8 * MapLength(hp)
            && (f.start >= hp.allocationFile.start + hp.allocationFile.count ==> MapAt(hp) + MapLength(hp) <= f.start * bs)
  {
    var bs, a := hp.blockSize, hp.allocationFile;
    SectorBytes(f.start, bs);
    MulMono(f.start, hp.catalogFile.start, bs / 512);
    MulMono(0, f.start, bs / 512);
    RangeBytes(f.start, f.count, hp.totalBlocks, bs);
    RangeBytes(a.start, a.count, hp.totalBlocks, bs);
    MulMono(1, a.count, bs);
    if f.start >= a.start + a.count { RangeBytes(a.start, a.count, f.start, bs); }
  }

  /** The byte counts of the files fit 32 bits. */
  ghost predicate SmallFiles(hp: Header) {
    forall f :: f in [hp.allocationFile, hp.extentsFile, hp.attributesFile, hp.catalogFile] ==> f.count * hp.blockSize < 0x1_0000_0000
  }

  lemma SmallOnes(p: Params, hp: Header)
    requires p.blockSize > 0 && hp.blockSize == p.blockSize
    requires hp.allocationFile.count == InBlocks(p.allocationClumpSize, p.blockSize)
    requires hp.extentsFile.count == InBlocks(p.extentsInitialSize, p.blockSize)
    requires hp.attributesFile.count == InBlocks(p.attributesInitialSize, p.blockSize)
    requires hp.catalogFile.count == InBlocks(p.catalogInitialSize, p.blockSize)
    ensures SmallFiles(hp)
  {
    InBlocksBytes(p.allocationClumpSize, p.blockSize);
    InBlocksBytes(p.extentsInitialSize, p.blockSize);
    InBlocksBytes(p.attributesInitialSize, p.blockSize);
    InBlocksBytes(p.catalogInitialSize, p.blockSize);
  }

  // ---- Marking ----

  /** The bitmap sectors for any block of the volume are within the drive. */
  lemma MarkFits(hp: Header, size: nat, lo: nat, hi: nat)
    requires Placed(hp, size) && lo <= hi <= hp.totalBlocks
    ensures InDrive(size, 512, hp.allocationFile.start * hp.blockSize, lo, hi)
    ensures 8 * (hp.allocationFile.start * hp.blockSize) + hp.totalBlocks <= 8 * size
  {
    var a, n, bs := hp.allocationFile.start, hp.allocationFile.count, hp.blockSize;
    Distribute(a, n, bs);
    MulMono(a + n, hp.totalBlocks, bs);
    assert a * bs + n * bs <= size;
    SectorBytes(n, bs);
    var m := n * (bs / 512);
    if lo < hi { assert (hi - 1) / 4096 + 1 <= m; }
  }

  /** One call of MarkExtentUsed, on blocks of the volume: in debug builds it fails exactly
      when one of them is marked already. */
  method Mark(d: Drive, hp: Header, start: nat, count: nat, debug: bool, ghost rs: seq<Region>) returns (ok: bool)
    requires d.Valid() && d.sectorSize == 512 && Placed(hp, |d.bytes|) && start + count <= hp.totalBlocks
    requires BitsAre(d.bytes, 8 * (hp.allocationFile.start * hp.blockSize), hp.totalBlocks, rs)
    modifies d`bytes
    ensures d.Valid() && |d.bytes| == old(|d.bytes|)
    ensures ok <==> debug ==> Apart(rs, start, count)
    ensures ok ==> BitsAre(d.bytes, 8 * (hp.allocationFile.start * hp.blockSize), hp.totalBlocks, rs + [Region(start, count)])
    ensures ok ==> OnlyMap(old(d.bytes), d.bytes, hp)
  {
    hide BitsAre, InDrive, SetBits, ClearBits, Aligned, OneByOne, Turn, Marked, Unmarked, Apart, OnlyMap;
    MarkFits(hp, |d.bytes|, start, start + count);
    ghost var base, s := hp.allocationFile.start * hp.blockSize, d.bytes;
    BaseSmall(hp, |d.bytes|);
    TurnDivides(512, 0x10_0000);
    var status := MarkExtentUsed(d, hp.allocationFile.start, hp.blockSize, start, count, debug);
    MarkedWithin(s, d.bytes, 8 * base, start, count, 512);
    ClearIsApart(s, 8 * base, hp.totalBlocks, rs, start, count);
    ok := status == 0;
    if ok {
      MoreSet(s, d.bytes, 8 * base, hp.totalBlocks, rs, Region(start, count));
      SetInMap(s, d.bytes, hp, start, count);
    }
  }

  /** No byte outside the bitmap file is different. */
  ghost predicate OnlyMap(s: seq<bv8>, t: seq<bv8>, hp: Header) {
    |t| == |s| && forall j :: 0 <= j < |s| && !(MapAt(hp) <= j < MapAt(hp) + MapLength(hp)) ==> t[j] == s[j]
  }

  lemma OnlyMapTwice(s: seq<bv8>, t: seq<bv8>, u: seq<bv8>, hp: Header)
    requires OnlyMap(s, t, hp) && OnlyMap(t, u, hp)
    ensures OnlyMap(s, u, hp)
  {
  }

  lemma SetInMap(s: seq<bv8>, t: seq<bv8>, hp: Header, start: nat, count: nat)
    requires 0 <= MapAt(hp) && start + count <= hp.totalBlocks <= 8 * MapLength(hp)
    requires SetBits(s, t, 8 * MapAt(hp) + start, 8 * MapAt(hp) + start + count)
    ensures OnlyMap(s, t, hp)
  {
    hide Bit;
    var at, len := MapAt(hp), MapLength(hp);
    hide MapAt, MapLength;
    forall j | 0 <= j < |s| && !(at <= j < at + len) ensures t[j] == s[j] {
      var a, b := t[j], s[j];
      forall k | 0 <= k < 8 ensures Bit(a, k) <==> Bit(b, k) {
        assert BitAt(t, 8 * j + k) <==> BitAt(s, 8 * j + k);
      }
      SameByte(a, b);
    }
  }

  /** No block of the range is in a region. */
  ghost predicate Apart(rs: seq<Region>, start: nat, count: nat) {
    forall i :: start <= i < start + count ==> !InRegions(rs, i)
  }

  lemma ClearIsApart(s: seq<bv8>, b: nat, n: nat, rs: seq<Region>, start: nat, count: nat)
    requires BitsAre(s, b, n, rs) && start + count <= n
    ensures ClearBits(s, b + start, b + start + count) <==> Apart(rs, start, count)
  {
    hide BitAt, InRegions;
    if ClearBits(s, b + start, b + start + count) {
      forall i | start <= i < start + count ensures !InRegions(rs, i) { assert !BitAt(s, b + i); }
    } else {
      var i :| b + start <= i < b + start + count && BitAt(s, i);
      assert BitAt(s, b + (i - b)) <==> InRegions(rs, i - b);
    }
  }

  /** Bytes elsewhere do not matter to the bits of the bitmap. */
  lemma BitsFrame(s: seq<bv8>, t: seq<bv8>, at: nat, len: nat, n: nat, rs: seq<Region>)
    requires BitsAre(s, 8 * at, n, rs) && n <= 8 * len && |t| == |s| && at + len <= |s|
    requires forall j :: at <= j < at + len ==> t[j] == s[j]
    ensures BitsAre(t, 8 * at, n, rs)
  {
    hide Bit, InRegions;
    forall i | 0 <= i < n ensures BitAt(t, 8 * at + i) <==> InRegions(rs, i) {
      assert BitAt(s, 8 * at + i) <==> InRegions(rs, i);
      assert (8 * at + i) / 8 == at + i / 8;
    }
  }

  lemma {:induction false} CountFrame(s: seq<bv8>, t: seq<bv8>, at: nat, len: nat, lo: nat, hi: nat)
    requires |t| == |s| && at + len <= |s| && 8 * at <= lo <= hi <= 8 * (at + len)
    requires forall j :: at <= j < at + len ==> t[j] == s[j]
    ensures CountClear(t, lo, hi) == CountClear(s, lo, hi)
    decreases hi - lo
  {
    hide Bit;
    if lo < hi {
      CountFrame(s, t, at, len, lo + 1, hi);
      assert t[lo / 8] == s[lo / 8];
    }
  }

  lemma BaseSmall(hp: Header, size: nat)
    requires Placed(hp, size)
    ensures 0 <= hp.allocationFile.start * hp.blockSize < 0x1_0000_0000
    ensures (hp.allocationFile.start * hp.blockSize) % 0x1_0000_0000 == hp.allocationFile.start * hp.blockSize
  {
    MulMono(0, hp.allocationFile.start, hp.blockSize);
  }

  /** The calls that mark the bitmap, in order. */
  function Marks(hp: Header): seq<Region>
    requires hp.totalBlocks >= 2 && EndOfAttributes(hp) >= hp.allocationFile.start
  {
    [Region(0, if hp.blockSize == 512 then 4 else if hp.blockSize == 1024 then 2 else 1),
     Region(hp.allocationFile.start, EndOfAttributes(hp) - hp.allocationFile.start),
     Reg(hp.catalogFile),
     Region(hp.totalBlocks - 1, 1)]
    + if hp.blockSize == 512 then [Region(hp.totalBlocks - 2, 1)] else []
  }

  method MarkVolume(d: Drive, hp: Header)
    requires d.Valid() && d.sectorSize == 512 && Placed(hp, |d.bytes|)
    requires var b := 8 * (hp.allocationFile.start * hp.blockSize); ClearBits(d.bytes, b, b + hp.totalBlocks)
    modifies d`bytes
    ensures d.Valid() && |d.bytes| == old(|d.bytes|)
    ensures hp.totalBlocks >= 2 && EndOfAttributes(hp) >= hp.allocationFile.start
    ensures BitsAre(d.bytes, 8 * (hp.allocationFile.start * hp.blockSize), hp.totalBlocks, Marks(hp))
    ensures OnlyMap(old(d.bytes), d.bytes, hp)
  {
    hide BitsAre, ClearBits, Aligned, Apart, OnlyMap;
    MarkFits(hp, |d.bytes|, 0, 0);
    BaseSmall(hp, |d.bytes|);
    PlacedBlocks(hp, |d.bytes|);
    NoneSet(d.bytes, 8 * (hp.allocationFile.start * hp.blockSize), hp.totalBlocks);
    hide Placed;
    var endOfAttributes := U32(EndOfAttributes(hp));
    var ok;
    ghost var s0 := d.bytes;
    // up to the block of the volume header
    if hp.blockSize == 512 {
      ok := Mark(d, hp, 0, 4, false, []);
    } else if hp.blockSize == 1024 {
      ok := Mark(d, hp, 0, 2, false, []);
    } else {
      ok := Mark(d, hp, 0, 1, false, []);
    }
    ghost var m, s1 := Marks(hp), d.bytes;
    // the contiguous files
    assert [] + [m[0]] == [m[0]];
    ok := Mark(d, hp, hp.allocationFile.start, U32(endOfAttributes - hp.allocationFile.start), false, [m[0]]);
    ghost var s2 := d.bytes;
    OnlyMapTwice(s0, s1, s2, hp);
    assert [m[0]] + [m[1]] == [m[0], m[1]];
    ok := Mark(d, hp, hp.catalogFile.start, hp.catalogFile.count, false, [m[0], m[1]]);
    ghost var s3 := d.bytes;
    OnlyMapTwice(s0, s2, s3, hp);
    assert [m[0], m[1]] + [m[2]] == [m[0], m[1], m[2]];
    ok := Mark(d, hp, hp.totalBlocks - 1, 1, false, [m[0], m[1], m[2]]);
    ghost var s4 := d.bytes;
    OnlyMapTwice(s0, s3, s4, hp);
    assert [m[0], m[1], m[2]] + [m[3]] == [m[0], m[1], m[2], m[3]];
    if hp.blockSize == 512 {
      ok := Mark(d, hp, hp.totalBlocks - 2, 1, false, [m[0], m[1], m[2], m[3]]);
      OnlyMapTwice(s0, s4, d.bytes, hp);
      assert [m[0], m[1], m[2], m[3]] + [m[4]] == m;
    } else {
      assert [m[0], m[1], m[2], m[3]] == m;
    }
  }

  lemma PlacedBlocks(hp: Header, size: nat)
    requires Placed(hp, size)
    ensures hp.totalBlocks >= (if hp.blockSize == 512 then 6 else 3)
    ensures hp.allocationFile.start < EndOfAttributes(hp) <= hp.catalogFile.start
    ensures EndOfAttributes(hp) < 0x1_0000_0000
    ensures hp.catalogFile.start + hp.catalogFile.count <= hp.totalBlocks
  {
  }

  // ---- The blocks marked are those laid out ----

  /** The files from the bitmap to the attributes file are contiguous. */
  ghost predicate Contiguous(hp: Header) {
    && hp.allocationFile.start == HeadBlocks(hp.blockSize)
    && (hp.journalInfoBlock != 0 ==>
          && hp.journalInfoBlock == hp.allocationFile.start + hp.allocationFile.count
          && hp.journal.start == hp.journalInfoBlock + 1
          && hp.extentsFile.start == hp.journal.start + hp.journal.count)
    && (hp.journalInfoBlock == 0 ==> hp.extentsFile.start == hp.allocationFile.start + hp.allocationFile.count)
    && hp.attributesFile.start == hp.extentsFile.start + hp.extentsFile.count
  }

  lemma InAppend(a: seq<Region>, b: seq<Region>, i: nat)
    ensures InRegions(a + b, i) <==> InRegions(a, i) || InRegions(b, i)
  {
    var s := a + b;
    if InRegions(a, i) {
      var k :| 0 <= k < |a| && a[k].start <= i < a[k].start + a[k].count;
      assert s[k] == a[k];
    }
    if InRegions(b, i) {
      var k :| 0 <= k < |b| && b[k].start <= i < b[k].start + b[k].count;
      assert s[|a| + k] == b[k];
    }
  }

  lemma InOne(r: Region, i: nat)
    ensures InRegions([r], i) <==> r.start <= i < r.start + r.count
  {
    assert [r][0] == r;
  }

  lemma InTwo(r: Region, q: Region, i: nat)
    ensures InRegions([r, q], i) <==> r.start <= i < r.start + r.count || q.start <= i < q.start + q.count
  {
    InOne(r, i);
    InMore([r], q, i);
    assert [r] + [q] == [r, q];
  }

  lemma RegionsCover(hp: Header, i: nat)
    requires Contiguous(hp) && TailBlocks(hp.blockSize) <= hp.totalBlocks && i < hp.totalBlocks
    ensures InRegions(Regions(hp), i) <==>
            || i < EndOfAttributes(hp)
            || hp.catalogFile.start <= i < hp.catalogFile.start + hp.catalogFile.count
            || hp.totalBlocks - TailBlocks(hp.blockSize) <= i
  {
    hide InRegions;
    var a := [Region(0, HeadBlocks(hp.blockSize)), Reg(hp.allocationFile)];
    var b := if hp.journalInfoBlock != 0 then [Region(hp.journalInfoBlock, 1), Reg(hp.journal)] else [];
    var x, e, c := Reg(hp.extentsFile), Reg(hp.attributesFile), Reg(hp.catalogFile);
    var t := Region(hp.totalBlocks - TailBlocks(hp.blockSize), TailBlocks(hp.blockSize));
    assert Regions(hp) == a + b + [x] + [e] + [c] + [t];
    InMore(a + b + [x] + [e] + [c], t, i);
    InMore(a + b + [x] + [e], c, i);
    InMore(a + b + [x], e, i);
    InMore(a + b, x, i);
    InAppend(a, b, i);
    InTwo(a[0], a[1], i);
    if hp.journalInfoBlock != 0 { InTwo(b[0], b[1], i); } else { InNone(i); }
  }

  lemma MarksCover(hp: Header, i: nat)
    requires hp.allocationFile.start == HeadBlocks(hp.blockSize) < EndOfAttributes(hp) && 2 <= hp.totalBlocks && i < hp.totalBlocks
    ensures InRegions(Marks(hp), i) <==>
            || i < EndOfAttributes(hp)
            || hp.catalogFile.start <= i < hp.catalogFile.start + hp.catalogFile.count
            || hp.totalBlocks - TailBlocks(hp.blockSize) <= i
  {
    hide InRegions;
    var m := Marks(hp);
    InTwo(m[0], m[1], i);
    InMore([m[0], m[1]], m[2], i);
    assert [m[0], m[1]] + [m[2]] == [m[0], m[1], m[2]];
    InMore([m[0], m[1], m[2]], m[3], i);
    assert [m[0], m[1], m[2]] + [m[3]] == [m[0], m[1], m[2], m[3]];
    if hp.blockSize == 512 {
      InMore([m[0], m[1], m[2], m[3]], m[4], i);
      assert [m[0], m[1], m[2], m[3]] + [m[4]] == m;
    } else {
      assert [m[0], m[1], m[2], m[3]] == m;
    }
  }

  /** Of the bitmap's bits for the volume exactly those of blocks in a region are set, and
      the header's count of free blocks is the number of clear ones. */
  ghost predicate Accounted(bytes: seq<bv8>, hp: Header) {
    var b := 8 * (hp.allocationFile.start * hp.blockSize);
    && b >= 0 && BitsAre(bytes, b, hp.totalBlocks, Regions(hp))
    && CountClear(bytes, b, b + hp.totalBlocks) == hp.freeBlocks
  }

  /** Laying out a volume and marking its blocks, on a drive of 512-byte sectors.  It
      fails, in clearing the first megabyte, exactly when the drive has less.  Otherwise
      the regions are disjoint, exactly their blocks are marked, and the header's count
      of free blocks is the number of clear bits. */
  method MakeBitmap(d: Drive, p: Params, sectors: nat) returns (ok: bool, hp: Header)
    requires d.Valid() && d.sectorSize == 512 && d.sectorOffset == 0 && |d.bytes| == 512 * sectors
    requires Fits(p, sectors) && p.attributesInitialSize != 0
    requires TotalBlocks(p, sectors) <= 8 * (InBlocks(p.allocationClumpSize, p.blockSize) * p.blockSize)
    modifies d`bytes
    ensures d.Valid() && |d.bytes| == old(|d.bytes|)
    ensures ok <==> sectors >= 2048
    ensures !ok ==> PartlyZeroed(old(d.bytes), d.bytes)
    ensures WellLaid(hp) && hp.blockSize == p.blockSize && hp.totalBlocks == TotalBlocks(p, sectors)
    ensures Placed(hp, |d.bytes|) && Contiguous(hp)
    ensures hp.allocationFile.count == InBlocks(p.allocationClumpSize, p.blockSize)
    ensures hp.extentsFile.count == InBlocks(p.extentsInitialSize, p.blockSize)
    ensures hp.attributesFile.count == InBlocks(p.attributesInitialSize, p.blockSize)
    ensures hp.catalogFile.count == InBlocks(p.catalogInitialSize, p.blockSize)
    ensures ok ==> Accounted(d.bytes, hp) && Blank(d.bytes, hp)
  {
    hide Aligned, WellLaid, InBlocks, LayoutEnd, BitsAre, ClearBits, TotalBlocks, VolSize, Written, Zeros, InFiles, OnlyMap, Blank, Placed;
    hp := InitVH(p, sectors);
    PlacedOk(p, sectors, hp);
    var out; ghost var w;
    out, w := d.WriteBuffer(0, FirstZeros, [], true, true);
    ok := out == Done;
    assert |d.bytes| == old(|d.bytes|) by { SameLength(old(d.bytes), d.bytes, 0, Zeros(FirstZeros), w); }
    if ok {
      AllWritten(old(d.bytes), d.bytes, 0, Zeros(FirstZeros));
      ghost var s1 := d.bytes;
      ZeroFiles(d, hp);
      ghost var s2 := d.bytes;
      MarkVolume(d, hp);
      IsBlank(old(d.bytes), s1, s2, d.bytes, hp);
      BaseSmall(hp, |d.bytes|);
      Result(hp, d.bytes, 8 * (hp.allocationFile.start * hp.blockSize));
    }
  }

  /** Outside the bitmap, the first megabyte and the files are zero. */
  ghost predicate Blank(bytes: seq<bv8>, hp: Header) {
    forall j :: 0 <= j < |bytes| && (j < FirstZeros || InFiles(hp, j)) && !(MapAt(hp) <= j < MapAt(hp) + MapLength(hp)) ==> bytes[j] == 0
  }

  lemma IsBlank(s0: seq<bv8>, s1: seq<bv8>, s2: seq<bv8>, s3: seq<bv8>, hp: Header)
    requires FirstZeros <= |s0| && s1 == Splice(s0, 0, Zeros(FirstZeros)) && |s2| == |s1| && OnlyMap(s2, s3, hp)
    requires forall j :: 0 <= j < |s2| ==> s2[j] == if InFiles(hp, j) then 0 else s1[j]
    ensures Blank(s3, hp)
  {
    hide InFiles, MapAt, MapLength;
  }

  lemma Result(hp: Header, s: seq<bv8>, b: nat)
    requires WellLaid(hp) && Contiguous(hp) && 2 <= hp.totalBlocks && HeadBlocks(hp.blockSize) < EndOfAttributes(hp)
    requires BitsAre(s, b, hp.totalBlocks, Marks(hp))
    ensures BitsAre(s, b, hp.totalBlocks, Regions(hp))
    ensures CountClear(s, b, b + hp.totalBlocks) == hp.freeBlocks
  {
    hide InRegions, Marks, Regions, BitAt, CountClear, Ordered, Disjoint;
    var m, rs := Marks(hp), Regions(hp);
    forall i | 0 <= i < hp.totalBlocks ensures InRegions(m, i) <==> InRegions(rs, i) {
      MarksCover(hp, i);
      RegionsCover(hp, i);
    }
    CountOrdered(s, b, hp.totalBlocks, rs, 0, m);
  }

  // ---- Why the layout is where the marking needs it ----

  /** In sectors, the catalog file starts far below 2^32. */
  lemma CatalogSectors(p: Params, hp: Header)
    requires p.blockSize >= 512 && p.blockSize % 512 == 0 && hp.blockSize == p.blockSize
    requires hp.catalogFile.start ==
             HeadBlocks(p.blockSize) + InBlocks(p.allocationClumpSize, p.blockSize) + JournalTotal(p)
             + InBlocks(p.extentsInitialSize, p.blockSize) + InBlocks(p.attributesInitialSize, p.blockSize) + Gap(p, hp.totalBlocks)
    ensures hp.catalogFile.start * (hp.blockSize / 512) < 0x1_0000_0000
  {
    var bs := p.blockSize;
    InBlocksBytes(p.allocationClumpSize, bs);
    InBlocksBytes(U32(p.journalSize + p.blockSize - 1), bs);
    InBlocksBytes(p.extentsInitialSize, bs);
    InBlocksBytes(p.attributesInitialSize, bs);
    InBlocksBytes(p.attributesClumpSize, bs);
    SectorBytes(hp.catalogFile.start, bs);
    var h, a, j, e, t, g := HeadBlocks(bs), InBlocks(p.allocationClumpSize, bs), JournalTotal(p),
                            InBlocks(p.extentsInitialSize, bs), InBlocks(p.attributesInitialSize, bs), Gap(p, hp.totalBlocks);
    HeadBytes(bs);
    JournalBytes(p);
    GapBytes(p, hp.totalBlocks);
    Six(h, a, j, e, t, g, bs);
  }

  lemma Six(a: int, b: int, c: int, d: int, e: int, f: int, x: int)
    ensures (a + b + c + d + e + f) * x == a * x + b * x + c * x + d * x + e * x + f * x
  {
    Distribute(a + b + c + d + e, f, x);
    Distribute(a + b + c + d, e, x);
    Distribute(a + b + c, d, x);
    Distribute(a + b, c, x);
    Distribute(a, b, x);
  }

  lemma InBlocksBytes(x: uint32, bs: nat)
    requires bs > 0
    ensures 0 <= InBlocks(x, bs) * bs <= x
  {
    QuotientBound(x, bs);
    MulMono(0, x / bs, bs);
  }

  lemma HeadBytes(bs: uint32)
    ensures 0 <= HeadBlocks(bs) * bs < 0x1_0000_0000
  {
  }

  lemma JournalBytes(p: Params)
    requires p.blockSize > 0
    ensures 0 <= JournalTotal(p) * p.blockSize < 0x2_0000_0000
  {
    if p.journaledHFS {
      InBlocksBytes(U32(p.journalSize + p.blockSize - 1), p.blockSize);
      Distribute(1, JournalBlocks(p), p.blockSize);
    }
  }

  lemma GapBytes(p: Params, total: nat)
    requires p.blockSize > 0
    ensures 0 <= Gap(p, total) * p.blockSize < 0xA_0000_0000
  {
    InBlocksBytes(p.attributesClumpSize, p.blockSize);
    var n := InBlocks(p.attributesClumpSize, p.blockSize);
    assert (10 * n) * p.blockSize == 10 * (n * p.blockSize);
  }

  /** The blocks fit on the drive. */
  lemma BlocksInSectors(sectors: nat, bs: nat)
    requires bs >= 512 && bs % 512 == 0
    ensures (sectors / (bs / 512)) * bs <= 512 * sectors
  {
    var n := bs / 512;
    QuotientBound(sectors, n);
    var t := sectors / n;
    assert bs == 512 * n;
    assert t * (512 * n) == 512 * (t * n);
  }

  lemma PlacedOk(p: Params, sectors: nat, hp: Header)
    requires Fits(p, sectors) && p.attributesInitialSize != 0 && hp.blockSize == p.blockSize && hp.totalBlocks == TotalBlocks(p, sectors)
    requires TotalBlocks(p, sectors) <= 8 * (InBlocks(p.allocationClumpSize, p.blockSize) * p.blockSize)
    requires hp.allocationFile == Fork(HeadBlocks(p.blockSize), InBlocks(p.allocationClumpSize, p.blockSize))
    requires hp.extentsFile.start == hp.allocationFile.start + hp.allocationFile.count + JournalTotal(p)
    requires hp.attributesFile.start == hp.extentsFile.start + hp.extentsFile.count
    requires hp.extentsFile.count == InBlocks(p.extentsInitialSize, p.blockSize)
    requires hp.attributesFile.count == InBlocks(p.attributesInitialSize, p.blockSize)
    requires hp.catalogFile.start == hp.extentsFile.start + hp.extentsFile.count + hp.attributesFile.count + Gap(p, hp.totalBlocks)
    requires hp.catalogFile.start + hp.catalogFile.count == LayoutEnd(p, hp.totalBlocks)
    ensures Placed(hp, 512 * sectors)
  {
    BlocksInSectors(sectors, p.blockSize);
    hide InBlocks, TotalBlocks, Gap, JournalTotal;
    CatalogSectors(p, hp);
    HeadBytes(p.blockSize);
    NonzeroFactor(hp.allocationFile.count, hp.blockSize);
  }

  lemma NonzeroFactor(n: nat, bs: nat)
    ensures n * bs > 0 ==> n > 0
  {
  }
}
