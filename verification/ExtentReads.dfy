/** Reading a file through its extents, by whole device blocks
    (src/hfs_util/hfsutil_main.c:2326-2482). */
module ExtentReads {
  import opened Bytes
  import opened Blocks

  datatype ExtentDescriptor = ExtentDescriptor(startBlock: nat, blockCount: nat)

  /** Byte `0` of block `n` of a volume that starts at `vol`. */
  function BlockAt(vol: nat, n: nat, bs: nat): nat {
    vol + n * bs
  }

  /** The blocks of a file, up to the first empty extent. */
  function BlockTotal(ext: seq<ExtentDescriptor>): nat {
    if ext == [] || ext[0].blockCount == 0 then 0 else ext[0].blockCount + BlockTotal(ext[1..])
  }

  /** The first end of an extent at or beyond 2^32 blocks, for a file whose remaining extents
      come after `n` blocks; 2^32 if there is none. */
  function TurnFrom(ext: seq<ExtentDescriptor>, n: nat): nat {
    if n >= 0x1_0000_0000 then n
    else if ext == [] || ext[0].blockCount == 0 then 0x1_0000_0000
    else TurnFrom(ext[1..], n + ext[0].blockCount)
  }

  /** Where in the file reading turns back: at the end of the extent with block 2^32 - 1. */
  function Turn(ext: seq<ExtentDescriptor>, bs: nat): nat {
    TurnFrom(ext, 0) * bs
  }

  /** The position whose byte is delivered when reading has gone on to position `x` without
      regard to the width of block numbers: `x` up to the turn, and from there on, again and
      again, the 2^32 blocks before the turn. */
  function Place(x: nat, turn: nat, m: nat): nat
    requires 0 < m <= turn
  {
    DivSplit(if x < turn then 0 else x - turn, m);
    if x < turn then x else turn - m + (x - turn) % m
  }

  /** The same, `i` bytes after position `x`. */
  function PlaceAfter(x: nat, i: nat, turn: nat, m: nat): nat
    requires 0 < m <= turn
  {
    Place(x + i, turn, m)
  }

  /** The bytes in 2^32 blocks. */
  function Limit(bs: nat): nat {
    0x1_0000_0000 * bs
  }

  /** Every extent lies on the device, and has block numbers below 2^32; the device is a
      whole number of device blocks. */
  ghost predicate OnDevice(dev: seq<Byte>, vol: nat, bs: nat, ext: seq<ExtentDescriptor>) {
    forall i :: 0 <= i < |ext| ==>
      ext[i].startBlock + ext[i].blockCount <= 0x1_0000_0000 && BlockAt(vol, ext[i].startBlock + ext[i].blockCount, bs) <= |dev|
  }

  /** The bytes of one extent. */
  function Piece(dev: seq<Byte>, vol: nat, bs: nat, e: ExtentDescriptor): (p: seq<Byte>)
    requires BlockAt(vol, e.startBlock + e.blockCount, bs) <= |dev|
    ensures |p| == e.blockCount * bs
  {
    MulMono(e.startBlock, e.startBlock + e.blockCount, bs);
    assert (e.startBlock + e.blockCount) * bs == e.startBlock * bs + e.blockCount * bs;
    dev[BlockAt(vol, e.startBlock, bs)..BlockAt(vol, e.startBlock + e.blockCount, bs)]
  }

  /** The bytes of the file: its extents one after the other. */
  function Content(dev: seq<Byte>, vol: nat, bs: nat, ext: seq<ExtentDescriptor>): (c: seq<Byte>)
    requires OnDevice(dev, vol, bs, ext)
    ensures |c| == BlockTotal(ext) * bs
  {
    if ext == [] || ext[0].blockCount == 0 then []
    else
      assert BlockTotal(ext) * bs == ext[0].blockCount * bs + BlockTotal(ext[1..]) * bs;
      Piece(dev, vol, bs, ext[0]) + Content(dev, vol, bs, ext[1..])
  }

  // ---- LogicalToPhysical ----

  /** The position that the code looks up for `offset`: its block number is truncated to
      32 bits. */
  function Wrapped(offset: nat, bs: nat): nat
    requires bs > 0
  {
    BlockAt(offset % bs, (offset / bs) % 0x1_0000_0000, bs)
  }

  /** Truncating the block number is taking the offset modulo 2^32 blocks. */
  lemma WrappedIsMod(offset: nat, bs: nat)
    requires bs > 0
    ensures Limit(bs) > 0 && Wrapped(offset, bs) == offset % Limit(bs)
  {
    var q, r := offset / bs, offset % bs;
    DivSplit(offset, bs);
    var a, b := q / 0x1_0000_0000, q % 0x1_0000_0000;
    assert q == a * 0x1_0000_0000 + b && 0 <= b < 0x1_0000_0000;
    Distribute(a * 0x1_0000_0000, b, bs);
    Regroup(a, bs);
    InsideLimit(b, r, bs);
    DivMono(0, q, 0x1_0000_0000);
    QuotientUnique(Limit(bs), offset, a, b * bs + r);
  }

  lemma Regroup(a: int, bs: nat)
    ensures (a * 0x1_0000_0000) * bs == a * Limit(bs)
  {
  }

  lemma InsideLimit(b: nat, r: nat, bs: nat)
    requires b < 0x1_0000_0000 && r < bs
    ensures 0 <= b * bs && b * bs + r < Limit(bs)
  {
    MulMono(b, 0x1_0000_0000, bs);
    MulMono(0, b, bs);
  }

  lemma WrappedSmall(offset: nat, bs: nat)
    requires bs > 0
    ensures offset < Limit(bs) ==> Wrapped(offset, bs) == offset
    ensures Wrapped(offset, bs) <= offset && Wrapped(offset, bs) < Limit(bs)
  {
    WrappedIsMod(offset, bs);
    var m := 0x1_0000_0000 * bs;
    if offset < m { QuotientUnique(m, offset, 0, offset); }
    DivSplit(offset, m);
    MulMono(0, offset / m, m);
  }

  /** Going on by `k` bytes, short of 2^32 blocks. */
  lemma WrappedNext(offset: nat, bs: nat, k: nat)
    requires bs > 0 && Wrapped(offset, bs) + k < Limit(bs)
    ensures Wrapped(offset + k, bs) == Wrapped(offset, bs) + k
  {
    WrappedIsMod(offset, bs);
    WrappedIsMod(offset + k, bs);
    var m := 0x1_0000_0000 * bs;
    DivSplit(offset, m);
    QuotientUnique(m, offset + k, offset / m, offset % m + k);
  }

  lemma OnDeviceRest(dev: seq<Byte>, vol: nat, bs: nat, ext: seq<ExtentDescriptor>, i: nat)
    requires OnDevice(dev, vol, bs, ext) && i <= |ext|
    ensures OnDevice(dev, vol, bs, ext[i..])
  {
  }

  /** The file is the extents before `i`, with `before` blocks, and the rest. */
  ghost predicate Before(dev: seq<Byte>, vol: nat, bs: nat, ext: seq<ExtentDescriptor>, i: nat, before: nat) {
    && OnDevice(dev, vol, bs, ext) && i <= |ext| && OnDevice(dev, vol, bs, ext[i..])
    && BlockAt(0, before, bs) <= |Content(dev, vol, bs, ext)|
    && Content(dev, vol, bs, ext)[BlockAt(0, before, bs)..] == Content(dev, vol, bs, ext[i..])
  }

  lemma BeforeNext(dev: seq<Byte>, vol: nat, bs: nat, ext: seq<ExtentDescriptor>, i: nat, before: nat)
    requires Before(dev, vol, bs, ext, i, before) && i < |ext| && ext[i].blockCount > 0
    ensures Before(dev, vol, bs, ext, i + 1, before + ext[i].blockCount)
  {
    OnDeviceRest(dev, vol, bs, ext, i + 1);
    hide BlockAt, Content, OnDevice, Piece;
    var c, rest := Content(dev, vol, bs, ext), ext[i..];
    ContentHead(dev, vol, bs, ext, i);
    var p := Piece(dev, vol, bs, ext[i]);
    var t := Content(dev, vol, bs, ext[i + 1..]);
    var x := BlockAt(0, before, bs);
    BlockSum(0, before, ext[i].blockCount, bs);
    SkipPiece(c, x, p, t);
  }

  lemma ContentHead(dev: seq<Byte>, vol: nat, bs: nat, ext: seq<ExtentDescriptor>, i: nat)
    requires i < |ext| && OnDevice(dev, vol, bs, ext[i..]) && OnDevice(dev, vol, bs, ext[i + 1..]) && ext[i].blockCount > 0
    ensures BlockAt(vol, ext[i].startBlock + ext[i].blockCount, bs) <= |dev|
    ensures Content(dev, vol, bs, ext[i..]) == Piece(dev, vol, bs, ext[i]) + Content(dev, vol, bs, ext[i + 1..])
  {
    var rest := ext[i..];
    assert rest[0] == ext[i] && rest[1..] == ext[i + 1..];
  }

  lemma BlockSum(vol: nat, a: nat, b: nat, bs: nat)
    ensures BlockAt(vol, a + b, bs) == BlockAt(vol, a, bs) + b * bs
  {
    Distribute(a, b, bs);
  }

  lemma SkipPiece(c: seq<Byte>, x: nat, p: seq<Byte>, t: seq<Byte>)
    requires x <= |c| && c[x..] == p + t
    ensures x + |p| <= |c| && c[x + |p|..] == t
  {
    assert |c| - x == |p| + |t|;
    forall k | 0 <= k < |t| ensures c[x + |p| + k] == t[k] {
      assert c[x..][|p| + k] == t[k];
    }
  }

  lemma BeforeFirst(dev: seq<Byte>, vol: nat, bs: nat, ext: seq<ExtentDescriptor>)
    requires OnDevice(dev, vol, bs, ext)
    ensures Before(dev, vol, bs, ext, 0, 0)
  {
    assert ext[0..] == ext;
    assert BlockAt(0, 0, bs) == 0;
    var c := Content(dev, vol, bs, ext);
    assert c[0..] == c;
  }

  /** Past the last nonempty extent the file ends. */
  lemma PastEnd(dev: seq<Byte>, vol: nat, bs: nat, ext: seq<ExtentDescriptor>, i: nat, before: nat)
    requires Before(dev, vol, bs, ext, i, before) && (i == |ext| || ext[i].blockCount == 0)
    ensures |Content(dev, vol, bs, ext)| == BlockAt(0, before, bs)
  {
  }

  /** The bytes of an extent from byte `off` of its block `lb` on. */
  function Available(e: ExtentDescriptor, lb: nat, off: nat, bs: nat): (n: int)
    requires lb < e.blockCount && off < bs
    ensures n > 0
  {
    MulMono(1, e.blockCount - lb, bs);
    (e.blockCount - lb) * bs - off
  }

  /** Block `lb` of extent `i`, from byte `off` on: where it is, and how far it goes. */
  lemma FoundAt(dev: seq<Byte>, vol: nat, bs: nat, ext: seq<ExtentDescriptor>, i: nat, before: nat, lb: nat, off: nat, avail: nat)
    requires Before(dev, vol, bs, ext, i, before) && i < |ext| && lb < ext[i].blockCount && off < bs
    requires avail <= Available(ext[i], lb, off, bs)
    ensures var w := BlockAt(off, before + lb, bs);
            var phys := BlockAt(off, ext[i].startBlock + lb, bs);
            && w < |Content(dev, vol, bs, ext)| && w + avail <= |Content(dev, vol, bs, ext)| && vol + phys + avail <= |dev|
            && dev[vol + phys..vol + phys + avail] == Content(dev, vol, bs, ext)[w..w + avail]
  {
    hide Content, OnDevice, BlockAt, Available, Piece;
    var e, c := ext[i], Content(dev, vol, bs, ext);
    OnDeviceRest(dev, vol, bs, ext, i + 1);
    ContentHead(dev, vol, bs, ext, i);
    var p := Piece(dev, vol, bs, e);
    var t := Content(dev, vol, bs, ext[i + 1..]);
    var x, z := BlockAt(0, before, bs), lb * bs + off;
    Positions(vol, bs, e, before, lb, off);
    assert z < |p| && z + avail <= |p|;
    assert c[x..] == p + t;
    var at := BlockAt(vol, e.startBlock, bs);
    PieceIs(dev, vol, bs, e);
    Slices(c, x, p, t, dev, at, z, avail);
  }

  lemma PieceIs(dev: seq<Byte>, vol: nat, bs: nat, e: ExtentDescriptor)
    requires BlockAt(vol, e.startBlock + e.blockCount, bs) <= |dev|
    ensures var at, p := BlockAt(vol, e.startBlock, bs), Piece(dev, vol, bs, e);
            at + |p| <= |dev| && p == dev[at..at + |p|]
  {
    BlockSum(vol, e.startBlock, e.blockCount, bs);
  }

  lemma Slices(c: seq<Byte>, x: nat, p: seq<Byte>, t: seq<Byte>, dev: seq<Byte>, at: nat, z: nat, n: nat)
    requires x <= |c| && c[x..] == p + t && at + |p| <= |dev| && p == dev[at..at + |p|] && z + n <= |p|
    ensures x + |p| <= |c| && dev[at + z..at + z + n] == c[x + z..x + z + n]
  {
    assert |c| - x == |p| + |t|;
    var u, v := dev[at + z..at + z + n], c[x + z..x + z + n];
    forall k | 0 <= k < n ensures u[k] == v[k] {
      assert c[x..][z + k] == p[z + k];
    }
  }

  lemma Positions(vol: nat, bs: nat, e: ExtentDescriptor, before: nat, lb: nat, off: nat)
    requires lb < e.blockCount && off < bs
    ensures BlockAt(off, before + lb, bs) == BlockAt(0, before, bs) + (lb * bs + off)
    ensures vol + BlockAt(off, e.startBlock + lb, bs) == BlockAt(vol, e.startBlock, bs) + (lb * bs + off)
    ensures lb * bs + off < e.blockCount * bs && Available(e, lb, off, bs) == e.blockCount * bs - (lb * bs + off)
    ensures BlockAt(vol, e.startBlock + e.blockCount, bs) == BlockAt(vol, e.startBlock, bs) + e.blockCount * bs
    ensures 0 <= lb * bs && 0 <= before * bs && 0 <= e.startBlock * bs
  {
    Blocks.MulMono(lb + 1, e.blockCount, bs);
    Blocks.MulMono(0, lb, bs);
    Blocks.MulMono(0, before, bs);
    Blocks.MulMono(0, e.startBlock, bs);
    Distribute(before, lb, bs);
    Distribute(e.startBlock, lb, bs);
    Distribute(e.startBlock, e.blockCount, bs);
    Distribute(e.blockCount - lb, lb, bs);
    Distribute(lb, 1, bs);
  }

  /** LogicalToPhysical: fails exactly when the (truncated) position is past the end of
      the file; otherwise gives the place of at least one byte, and of as many of those
      asked for as are contiguous. */
  method LogicalToPhysical(offset: nat, length: nat, bs: nat, ext: seq<ExtentDescriptor>, ghost dev: seq<Byte>, ghost vol: nat)
    returns (ok: bool, phys: nat, avail: nat)
    requires bs > 0 && length > 0 && OnDevice(dev, vol, bs, ext)
    ensures ok <==> Wrapped(offset, bs) < |Content(dev, vol, bs, ext)|
    ensures ok ==> var w := Wrapped(offset, bs);
              && 0 < avail <= length && w + avail <= |Content(dev, vol, bs, ext)| && vol + phys + avail <= |dev|
              && dev[vol + phys..vol + phys + avail] == Content(dev, vol, bs, ext)[w..w + avail]
              && w + avail <= Turn(ext, bs)
              && (avail < length ==> w + avail < Limit(bs) || w + avail == Turn(ext, bs))
  {
    hide Before, Content, BlockAt, Available, Limit, Wrapped, OnDevice, TurnFrom, BlockTotal, StartBlock, StartByte, DeviceBlock;
    var logicalBlock, off := StartBlock(offset, bs), StartByte(offset, bs);
    StartsThere(offset, bs);
    ok, phys, avail := false, 0, 0;
    var extent := 0;
    ghost var lb0 := logicalBlock;
    BeforeFirst(dev, vol, bs, ext);
    TurnInBytes(dev, vol, bs, ext);
    assert ext[0..] == ext;
    while extent < |ext|
      invariant 0 <= extent <= |ext| && 0 <= logicalBlock <= lb0 && Before(dev, vol, bs, ext, extent, lb0 - logicalBlock)
      invariant TurnFrom(ext[extent..], lb0 - logicalBlock) == TurnFrom(ext, 0)
    {
      var blockCount := ext[extent].blockCount;
      if blockCount == 0 {
        PastEnd(dev, vol, bs, ext, extent, lb0 - logicalBlock);
        Farther(lb0 - logicalBlock, lb0, off, bs);
        return;
      }
      if logicalBlock < blockCount {
        break;
      }
      BeforeNext(dev, vol, bs, ext, extent, lb0 - logicalBlock);
      TurnNext(ext, extent, lb0 - logicalBlock);
      logicalBlock := logicalBlock - blockCount;
      extent := extent + 1;
    }
    if extent >= |ext| {
      PastEnd(dev, vol, bs, ext, extent, lb0 - logicalBlock);
      Farther(lb0 - logicalBlock, lb0, off, bs);
      return;
    }
    var e := ext[extent];
    BlockNumber(dev, vol, bs, ext, extent, logicalBlock);
    phys := BlockAt(off, DeviceBlock(e.startBlock, logicalBlock), bs);
    var temp := Available(e, logicalBlock, off, bs);
    avail := if temp < length then temp else length;
    FoundAt(dev, vol, bs, ext, extent, lb0 - logicalBlock, logicalBlock, off, avail);
    StaysBelow(ext, extent, bs, lb0 - logicalBlock, logicalBlock, off, avail);
    ok := true;
  }

  /** The allocation block of `offset`, in 32 bits, and the byte in it. */
  function StartBlock(offset: nat, bs: nat): (n: nat)
    requires bs > 0
    ensures n < 0x1_0000_0000
  {
    (offset / bs) % 0x1_0000_0000
  }

  function StartByte(offset: nat, bs: nat): (n: nat)
    requires bs > 0
    ensures n < bs
  {
    offset % bs
  }

  /** A block number on the volume, in 32 bits. */
  function DeviceBlock(start: nat, lb: nat): (n: nat) {
    (start + lb) % 0x1_0000_0000
  }

  lemma StartsThere(offset: nat, bs: nat)
    requires bs > 0
    ensures Wrapped(offset, bs) == BlockAt(StartByte(offset, bs), StartBlock(offset, bs), bs)
  {
  }

  lemma TurnNext(ext: seq<ExtentDescriptor>, i: nat, n: nat)
    requires i < |ext| && ext[i].blockCount > 0 && n < 0x1_0000_0000
    ensures TurnFrom(ext[i + 1..], n + ext[i].blockCount) == TurnFrom(ext[i..], n)
  {
    assert ext[i..][1..] == ext[i + 1..];
  }

  /** The turn is less than 2^32 blocks beyond the limit, and within a file that reaches it. */
  lemma {:induction false} TurnBounds(ext: seq<ExtentDescriptor>, n: nat)
    requires n < 0x1_0000_0000 && forall i :: 0 <= i < |ext| ==> ext[i].blockCount <= 0x1_0000_0000
    ensures 0x1_0000_0000 <= TurnFrom(ext, n) < 0x2_0000_0000
    ensures n + BlockTotal(ext) >= 0x1_0000_0000 ==> TurnFrom(ext, n) <= n + BlockTotal(ext)
  {
    if ext != [] && ext[0].blockCount > 0 && n + ext[0].blockCount < 0x1_0000_0000 {
      TurnBounds(ext[1..], n + ext[0].blockCount);
    }
  }

  lemma TurnInBytes(dev: seq<Byte>, vol: nat, bs: nat, ext: seq<ExtentDescriptor>)
    requires bs > 0 && OnDevice(dev, vol, bs, ext)
    ensures TurnFrom(ext, 0) >= 0x1_0000_0000 && 0 < Limit(bs) <= Turn(ext, bs) < 2 * Limit(bs)
    ensures BlockTotal(ext) >= 0x1_0000_0000 ==> Turn(ext, bs) <= BlockTotal(ext) * bs
  {
    TurnBounds(ext, 0);
    var t := TurnFrom(ext, 0);
    MulMono(0x1_0000_0000, t, bs);
    MulMono(t, 0x2_0000_0000, bs);
    MulMono(t, BlockTotal(ext), bs);
  }

  /** Block numbers on the volume do not wrap around. */
  lemma BlockNumber(dev: seq<Byte>, vol: nat, bs: nat, ext: seq<ExtentDescriptor>, i: nat, lb: nat)
    requires OnDevice(dev, vol, bs, ext) && i < |ext| && lb < ext[i].blockCount
    ensures DeviceBlock(ext[i].startBlock, lb) == ext[i].startBlock + lb
  {
  }

  /** What is read in one go does not cross the turn, and stops short of the limit, at the
      turn, or where it was to stop. */
  lemma StaysBelow(ext: seq<ExtentDescriptor>, i: nat, bs: nat, n: nat, lb: nat, off: nat, avail: nat)
    requires i < |ext| && lb < ext[i].blockCount && off < bs && n + lb < 0x1_0000_0000
    requires avail <= Available(ext[i], lb, off, bs) && TurnFrom(ext[i..], n) == TurnFrom(ext, 0) >= 0x1_0000_0000
    ensures var w := BlockAt(off, n + lb, bs);
            && w + avail <= Turn(ext, bs)
            && (avail == Available(ext[i], lb, off, bs) ==> w + avail < Limit(bs) || w + avail == Turn(ext, bs))
  {
    var e := ext[i];
    TurnNext(ext, i, n);
    var end, t := n + e.blockCount, TurnFrom(ext, 0);
    assert end >= 0x1_0000_0000 ==> t == end;
    hide TurnFrom;
    Positions(0, bs, e, n, lb, off);
    Distribute(n, e.blockCount, bs);
    MulMono(end, 0x1_0000_0000, bs);
    MulMono(end, t, bs);
  }

  lemma Farther(a: nat, b: nat, off: nat, bs: nat)
    requires a <= b
    ensures BlockAt(0, a, bs) <= BlockAt(off, b, bs)
  {
    MulMono(a, b, bs);
  }

  // ---- readAt ----

  /** readAt: reads the device blocks around the range and copies it out; it fails
      exactly when the range runs past the end of the device. */
  method ReadAt(dev: seq<Byte>, deviceBlock: nat, offset: nat, length: nat) returns (ok: bool, data: seq<Byte>)
    requires deviceBlock > 0 && Aligned(deviceBlock, |dev|) && length > 0
    ensures ok <==> offset + length <= |dev|
    ensures ok ==> data == dev[offset..offset + length]
  {
    hide Aligned, RawOffset, RawLength;
    var rawOffset := RawOffset(deviceBlock, offset);
    var dataOffset := offset - rawOffset;
    var rawLength := RawLength(deviceBlock, length + dataOffset);
    RawInDevice(deviceBlock, |dev|, offset, length);
    if rawOffset + rawLength > |dev| {
      return false, [];
    }
    var rawData := dev[rawOffset..rawOffset + rawLength];
    data := rawData[dataOffset..dataOffset + length];
    SliceSlice(dev, rawOffset, rawLength, dataOffset, length);
    ok := true;
  }

  lemma SliceSlice(s: seq<Byte>, a: nat, n: nat, b: nat, k: nat)
    requires a + n <= |s| && b + k <= n
    ensures s[a..a + n][b..b + k] == s[a + b..a + b + k]
  {
    var u, v := s[a..a + n][b..b + k], s[a + b..a + b + k];
    forall i | 0 <= i < k ensures u[i] == v[i] {
      assert u[i] == s[a..a + n][b + i];
    }
  }

  function RawOffset(db: nat, offset: nat): (r: nat)
    requires db > 0
    ensures r <= offset < r + db
  {
    DivSplit(offset, db);
    MulMono(0, offset / db, db);
    offset / db * db
  }

  function RawLength(db: nat, n: nat): (r: nat)
    requires db > 0
    ensures n <= r < n + db
  {
    DivSplit(n + db - 1, db);
    ((n + db - 1) / db) * db
  }

  lemma RawInDevice(db: nat, size: nat, offset: nat, length: nat)
    requires db > 0 && Aligned(db, size) && length > 0
    ensures var raw := RawOffset(db, offset);
            raw + RawLength(db, length + (offset - raw)) <= size <==> offset + length <= size
  {
    var raw := RawOffset(db, offset);
    var a, x := offset / db, length + (offset - raw);
    DivSplit(offset, db);
    var n := (x + db - 1) / db;
    DivSplit(x + db - 1, db);
    var q := AlignedMultiple(db, size);
    Distribute(a, n - 1, db);
    Distribute(a, n, db);
    Distribute(n - 1, 1, db);
    MulMono(q, a + n - 1, db);
    MulMono(a + n, q, db);
  }

  // ---- ReadFile ----

  /** `data` holds the bytes delivered from position `x` on. */
  ghost predicate Delivered(c: seq<Byte>, turn: nat, m: nat, x: nat, data: seq<Byte>)
    requires 0 < m <= turn
  {
    forall i :: 0 <= i < |data| ==> PlaceAfter(x, i, turn, m) < |c| && data[i] == c[PlaceAfter(x, i, turn, m)]
  }

  /** The result of ReadFile: it succeeds exactly when the range, taken from the truncated
      offset on, lies within the file, and always when the file has 2^32 blocks or more.
      From the truncated offset on, the bytes up to the turn are delivered, and then again
      and again the 2^32 blocks before it. */
  ghost predicate ReadResult(c: seq<Byte>, ext: seq<ExtentDescriptor>, bs: nat, offset: nat, length: nat, ok: bool, buffer: seq<Byte>)
    requires bs > 0 && 0 < Limit(bs) <= Turn(ext, bs)
  {
    && (ok <==> length == 0 || BlockTotal(ext) >= 0x1_0000_0000 || Wrapped(offset, bs) + length <= |c|)
    && (ok ==> |buffer| == length && Delivered(c, Turn(ext, bs), Limit(bs), Wrapped(offset, bs), buffer))
  }

  /** ReadFile, for any extent list on a device whose reads succeed. */
  method ReadFile(dev: seq<Byte>, deviceBlock: nat, offset: nat, length: nat, vol: nat, bs: nat, ext: seq<ExtentDescriptor>)
    returns (ok: bool, buffer: seq<Byte>)
    requires bs > 0 && deviceBlock > 0 && Aligned(deviceBlock, |dev|) && OnDevice(dev, vol, bs, ext)
    ensures 0 < Limit(bs) <= Turn(ext, bs) && ReadResult(Content(dev, vol, bs, ext), ext, bs, offset, length, ok, buffer)
  {
    hide Content, OnDevice, Wrapped, Aligned, Delivered, Place, Turn, Limit, BlockTotal;
    ok, buffer := true, [];
    var left, cur := length, offset;
    ghost var c, w, turn, m := Content(dev, vol, bs, ext), Wrapped(offset, bs), Turn(ext, bs), Limit(bs);
    ghost var small := BlockTotal(ext) < 0x1_0000_0000;
    ContentBound(ext, bs);
    TurnInBytes(dev, vol, bs, ext);
    WrappedSmall(offset, bs);
    NoneDelivered(c, turn, m, w);
    while left > 0
      invariant ok && 0 <= left <= length && cur == offset + (length - left) && |buffer| == length - left
      invariant Delivered(c, turn, m, w, buffer)
      invariant small && left < length ==> w + (length - left) <= |c|
      invariant left > 0 ==> Place(w + (length - left), turn, m) == Wrapped(cur, bs)
    {
      WrappedSmall(cur, bs);
      var physOffset, physLength;
      ok, physOffset, physLength := LogicalToPhysical(cur, left, bs, ext, dev, vol);
      if small { PlaceSmall(w + (length - left), turn, m); }
      if !ok {
        return;
      }
      var data;
      ok, data := ReadAt(dev, deviceBlock, vol + physOffset, physLength);
      MoreDelivered(c, turn, m, w, buffer, data);
      buffer := buffer + data;
      if physLength < left { PlaceAndWrap(w + (length - left), turn, cur, physLength, bs); }
      left := left - physLength;
      cur := cur + physLength;
    }
  }

  lemma NoneDelivered(c: seq<Byte>, turn: nat, m: nat, w: nat)
    requires 0 < m <= turn && w < m
    ensures Delivered(c, turn, m, w, []) && Place(w + 0, turn, m) == w
  {
  }

  lemma PlaceSmall(x: nat, turn: nat, m: nat)
    requires 0 < m <= turn
    ensures x < turn ==> Place(x, turn, m) == x
  {
  }

  /** Going on short of the turn, and up to it. */
  lemma PlaceNext(x: nat, turn: nat, m: nat, j: nat)
    requires 0 < m <= turn && Place(x, turn, m) + j <= turn
    ensures Place(x, turn, m) + j < turn ==> Place(x + j, turn, m) == Place(x, turn, m) + j
    ensures Place(x, turn, m) + j == turn ==> Place(x + j, turn, m) == turn - m
  {
    if x + j < turn {
      assert x < turn;
    } else if x < turn {
      QuotientUnique(m, 0, 0, 0);
    } else {
      var d := x - turn;
      DivSplit(d, m);
      if d % m + j < m {
        QuotientUnique(m, d + j, d / m, d % m + j);
      } else {
        Distribute(d / m, 1, m);
        QuotientUnique(m, d + j, d / m + 1, 0);
      }
    }
  }

  lemma MoreDelivered(c: seq<Byte>, turn: nat, m: nat, x: nat, buffer: seq<Byte>, data: seq<Byte>)
    requires 0 < m <= turn && Delivered(c, turn, m, x, buffer)
    requires var p := Place(x + |buffer|, turn, m); p + |data| <= |c| && p + |data| <= turn && data == c[p..p + |data|]
    ensures Delivered(c, turn, m, x, buffer + data)
  {
    hide Place;
    var s, p := buffer + data, Place(x + |buffer|, turn, m);
    forall i | 0 <= i < |s| ensures PlaceAfter(x, i, turn, m) < |c| && s[i] == c[PlaceAfter(x, i, turn, m)] {
      if i < |buffer| {
        assert s[i] == buffer[i];
      } else {
        var j := i - |buffer|;
        PlaceNext(x + |buffer|, turn, m, j);
        assert s[i] == data[j] == c[p + j];
      }
    }
  }

  /** Where a read stops, the truncated position is where it goes on. */
  lemma PlaceAndWrap(x: nat, turn: nat, cur: nat, k: nat, bs: nat)
    requires bs > 0 && 0 < Limit(bs) <= turn < 2 * Limit(bs) && Place(x, turn, Limit(bs)) == Wrapped(cur, bs)
    requires Wrapped(cur, bs) + k < Limit(bs) || Wrapped(cur, bs) + k == turn
    ensures Place(x + k, turn, Limit(bs)) == Wrapped(cur + k, bs)
  {
    hide Wrapped, Place, Limit;
    PlaceNext(x, turn, Limit(bs), k);
    if Wrapped(cur, bs) + k < Limit(bs) {
      WrappedNext(cur, bs, k);
    } else {
      WrappedShift(cur, bs, k);
      WrappedIsMod(turn, bs);
      QuotientUnique(Limit(bs), turn, 1, turn - Limit(bs));
    }
  }

  /** Positions that look the same in 32 bits stay so. */
  lemma WrappedShift(cur: nat, bs: nat, j: nat)
    requires bs > 0
    ensures Wrapped(Wrapped(cur, bs) + j, bs) == Wrapped(cur + j, bs)
  {
    hide Wrapped, Limit;
    var m := Limit(bs);
    WrappedIsMod(cur, bs);
    var w := Wrapped(cur, bs);
    WrappedIsMod(w + j, bs);
    WrappedIsMod(cur + j, bs);
    DivSplit(cur, m);
    DivSplit(w + j, m);
    var q, r := (w + j) / m, (w + j) % m;
    Distribute(cur / m, q, m);
    QuotientUnique(m, cur + j, cur / m + q, r);
  }

  lemma ContentBound(ext: seq<ExtentDescriptor>, bs: nat)
    requires bs > 0
    ensures BlockTotal(ext) < 0x1_0000_0000 <==> BlockTotal(ext) * bs < Limit(bs)
  {
    MulMono(BlockTotal(ext), 0x1_0000_0000, bs);
    MulMono(0x1_0000_0000, BlockTotal(ext), bs);
  }

  /** What a reader expects: success exactly within the file, and its bytes. */
  ghost predicate ReadsRight(c: seq<Byte>, offset: nat, length: nat, ok: bool, buffer: seq<Byte>) {
    && (ok <==> offset + length <= |c|)
    && (ok ==> buffer == c[offset..offset + length])
  }

  /** Reading delivers, byte by byte, the positions asked for. */
  ghost predicate InPlace(turn: nat, bs: nat, offset: nat, length: nat)
    requires bs > 0 && 0 < Limit(bs) <= turn
  {
    forall i :: 0 <= i < length ==> PlaceAfter(Wrapped(offset, bs), i, turn, Limit(bs)) == offset + i
  }

  /** It does exactly for an offset within 2^32 blocks and a range that ends by the turn. */
  lemma InPlaceIff(turn: nat, bs: nat, offset: nat, length: nat)
    requires bs > 0 && 0 < Limit(bs) <= turn && length > 0
    ensures InPlace(turn, bs, offset, length) <==> offset < Limit(bs) && offset + length <= turn
  {
    hide Wrapped, Place, Limit;
    var w, m := Wrapped(offset, bs), Limit(bs);
    WrappedSmall(offset, bs);
    PlaceSmall(w, turn, m);
    if offset < m {
      if offset + length <= turn {
        forall i | 0 <= i < length ensures PlaceAfter(w, i, turn, m) == offset + i { PlaceSmall(w + i, turn, m); }
      } else {
        PlaceNext(w, turn, m, turn - w);
        assert PlaceAfter(w, turn - w, turn, m) != offset + (turn - w);
      }
    } else {
      assert PlaceAfter(w, 0, turn, m) != offset + 0;
    }
  }

  /** For a file of fewer than 2^32 blocks, ReadFile meets this if and only if the offset is
      within 2^32 blocks, or the truncated range is past the end of the file too.  For
      a longer one it does if and only if the range lies in the file and the positions
      delivered have the bytes of those asked for; they are the same positions exactly for
      an offset within 2^32 blocks and a range that ends by the turn. */
  lemma ReadsRightIff(dev: seq<Byte>, vol: nat, bs: nat, ext: seq<ExtentDescriptor>, offset: nat, length: nat, ok: bool, buffer: seq<Byte>)
    requires bs > 0 && length > 0 && OnDevice(dev, vol, bs, ext) && 0 < Limit(bs) <= Turn(ext, bs)
    requires ReadResult(Content(dev, vol, bs, ext), ext, bs, offset, length, ok, buffer)
    ensures BlockTotal(ext) < 0x1_0000_0000 ==>
              (ReadsRight(Content(dev, vol, bs, ext), offset, length, ok, buffer) <==>
               offset < Limit(bs) || Wrapped(offset, bs) + length > BlockTotal(ext) * bs)
    ensures BlockTotal(ext) >= 0x1_0000_0000 ==>
              (ReadsRight(Content(dev, vol, bs, ext), offset, length, ok, buffer) <==>
               && offset + length <= BlockTotal(ext) * bs
               && Delivered(Content(dev, vol, bs, ext), Turn(ext, bs), Limit(bs), Wrapped(offset, bs),
                            Content(dev, vol, bs, ext)[offset..offset + length]))
    ensures BlockTotal(ext) >= 0x1_0000_0000 && InPlace(Turn(ext, bs), bs, offset, length) ==>
              ReadsRight(Content(dev, vol, bs, ext), offset, length, ok, buffer)
    ensures InPlace(Turn(ext, bs), bs, offset, length) <==> offset < Limit(bs) && offset + length <= Turn(ext, bs)
  {
    hide Content, Wrapped, Limit, Turn, Place, InPlace, Delivered, BlockTotal;
    var c, turn, m, w := Content(dev, vol, bs, ext), Turn(ext, bs), Limit(bs), Wrapped(offset, bs);
    WrappedSmall(offset, bs);
    ContentBound(ext, bs);
    TurnInBytes(dev, vol, bs, ext);
    InPlaceIff(turn, bs, offset, length);
    if ok && offset + length <= |c| {
      Determined(c, turn, m, w, buffer, c[offset..offset + length]);
      if offset < m && offset + length <= turn { StraightOn(c, turn, m, offset, length); }
    }
  }

  /** What is delivered is determined. */
  lemma Determined(c: seq<Byte>, turn: nat, m: nat, x: nat, a: seq<Byte>, b: seq<Byte>)
    requires 0 < m <= turn && Delivered(c, turn, m, x, a) && |a| == |b|
    ensures Delivered(c, turn, m, x, b) <==> a == b
  {
    hide PlaceAfter;
    if Delivered(c, turn, m, x, b) {
      forall i | 0 <= i < |a| ensures a[i] == b[i] { assert PlaceAfter(x, i, turn, m) < |c| && a[i] == c[PlaceAfter(x, i, turn, m)]; }
    }
  }

  lemma StraightOn(c: seq<Byte>, turn: nat, m: nat, x: nat, n: nat)
    requires 0 < m <= turn && x + n <= turn && x + n <= |c|
    ensures Delivered(c, turn, m, x, c[x..x + n])
  {
  }

  lemma TruncatedToStart(dev: seq<Byte>, bs: nat, length: nat, ok: bool, buffer: seq<Byte>)
    requires 0 < length <= bs && |dev| >= 2 * bs && 0 < Limit(bs) <= Turn([ExtentDescriptor(1, 1)], bs)
    requires var ext := [ExtentDescriptor(1, 1)];
             OnDevice(dev, 0, bs, ext) && ReadResult(Content(dev, 0, bs, ext), ext, bs, Limit(bs), length, ok, buffer)
    ensures var c := Content(dev, 0, bs, [ExtentDescriptor(1, 1)]);
            ok && |c| == bs && buffer == c[..length] && !ReadsRight(c, Limit(bs), length, ok, buffer)
  {
    hide Content, Wrapped, Turn, Place, Delivered;
    var ext := [ExtentDescriptor(1, 1)];
    assert BlockTotal(ext) == 1 + BlockTotal(ext[1..]);
    var c := Content(dev, 0, bs, ext);
    WrappedIsMod(Limit(bs), bs);
    QuotientUnique(Limit(bs), Limit(bs), 1, 0);
    StraightOn(c, Turn(ext, bs), Limit(bs), 0, length);
    assert c[0..0 + length] == c[..length];
    Determined(c, Turn(ext, bs), Limit(bs), 0, buffer, c[..length]);
  }

  /** At an offset of 2^32 blocks, whatever the block size, ReadFile does not find the end
      of a file of one block but delivers its beginning. */
  method TruncationReads(dev: seq<Byte>, deviceBlock: nat, bs: nat, length: nat) returns (ok: bool, buffer: seq<Byte>)
    requires 0 < length <= bs && |dev| >= 2 * bs && deviceBlock > 0 && Aligned(deviceBlock, |dev|)
    ensures OnDevice(dev, 0, bs, [ExtentDescriptor(1, 1)])
    ensures var c := Content(dev, 0, bs, [ExtentDescriptor(1, 1)]);
            ok && |c| == bs && buffer == c[..length] && !ReadsRight(c, Limit(bs), length, ok, buffer)
  {
    hide Content, ReadResult, ReadsRight, Aligned;
    OneBlock(dev, bs);
    ok, buffer := ReadFile(dev, deviceBlock, Limit(bs), length, 0, bs, [ExtentDescriptor(1, 1)]);
    TruncatedToStart(dev, bs, length, ok, buffer);
  }

  /** The device that reading one block needs is there. */
  lemma OneBlock(dev: seq<Byte>, bs: nat)
    requires bs > 0 && |dev| >= 2 * bs
    ensures OnDevice(dev, 0, bs, [ExtentDescriptor(1, 1)])
  {
  }
}
