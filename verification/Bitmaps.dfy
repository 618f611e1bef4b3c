/** The allocation bitmap: block 0 is the most significant bit of the first byte
    (src/newfs_hfs/makehfs.c:884-1057; Apple Technical Note TN1150, "Allocation File"). */
module Bitmaps {
  import opened Bytes
  import opened Blocks
  import opened Drives

  /** Bit `k` of a byte, counted from the most significant one. */
  predicate Bit(b: bv8, k: nat)
    requires k < 8
  {
    if k == 0 then b & 0x80 != 0
    else if k == 1 then b & 0x40 != 0
    else if k == 2 then b & 0x20 != 0
    else if k == 3 then b & 0x10 != 0
    else if k == 4 then b & 0x08 != 0
    else if k == 5 then b & 0x04 != 0
    else if k == 6 then b & 0x02 != 0
    else b & 0x01 != 0
  }

  /** Bit `i` of a sequence of bytes. */
  predicate BitAt(s: seq<bv8>, i: nat)
    requires i < 8 * |s|
  {
    Bit(s[i / 8], i % 8)
  }

  // ---- Bytes and masks ----

  function ShiftRight(k: nat): bv8
    requires k < 8
  {
    0xff >> k
  }

  function ShiftLeft(k: nat): bv8
    requires k <= 8
  {
    0xff << k
  }

  lemma RightBits(s: nat, k: nat)
    requires s < 8 && k < 8
    ensures Bit(ShiftRight(s), k) <==> s <= k
  {
    assert s == 0 || s == 1 || s == 2 || s == 3 || s == 4 || s == 5 || s == 6 || s == 7;
  }

  lemma LeftBits(l: nat, k: nat)
    requires l <= 8 && k < 8
    ensures Bit(ShiftLeft(l), k) <==> k < 8 - l
  {
    assert l == 0 || l == 1 || l == 2 || l == 3 || l == 4 || l == 5 || l == 6 || l == 7 || l == 8;
  }

  lemma AndBits(a: bv8, b: bv8, k: nat)
    requires k < 8
    ensures Bit(a & b, k) <==> Bit(a, k) && Bit(b, k)
  {
  }

  lemma OrBits(a: bv8, b: bv8, k: nat)
    requires k < 8
    ensures Bit(a | b, k) <==> Bit(a, k) || Bit(b, k)
  {
  }

  lemma ZeroBits(b: bv8)
    ensures b == 0 <==> forall k :: 0 <= k < 8 ==> !Bit(b, k)
  {
    if forall k :: 0 <= k < 8 ==> !Bit(b, k) {
      assert !Bit(b, 0) && !Bit(b, 1) && !Bit(b, 2) && !Bit(b, 3) && !Bit(b, 4) && !Bit(b, 5) && !Bit(b, 6) && !Bit(b, 7);
    }
  }

  lemma FullBits(k: nat)
    requires k < 8
    ensures Bit(0xff, k)
  {
  }

  // ---- Ranges of bits ----

  /** `t` is `s` with the bits from `lo` up to `hi` set, and no other bit changed. */
  ghost predicate SetBits(s: seq<bv8>, t: seq<bv8>, lo: nat, hi: nat) {
    |t| == |s| && forall i :: 0 <= i < 8 * |s| ==> (BitAt(t, i) <==> BitAt(s, i) || lo <= i < hi)
  }

  ghost predicate ClearBits(s: seq<bv8>, lo: nat, hi: nat) {
    forall i :: lo <= i < hi && i < 8 * |s| ==> !BitAt(s, i)
  }

  /** No bit outside the range has changed. */
  ghost predicate OnlyBits(s: seq<bv8>, t: seq<bv8>, lo: nat, hi: nat) {
    |t| == |s| && forall i :: 0 <= i < 8 * |s| && !(lo <= i < hi) ==> BitAt(t, i) == BitAt(s, i)
  }

  /** A mask with the bits from `lo` up to `hi`. */
  ghost predicate IsMask(mask: bv8, lo: nat, hi: nat) {
    forall k :: 0 <= k < 8 ==> (Bit(mask, k) <==> lo <= k < hi)
  }

  lemma OrMask(s: seq<bv8>, p: nat, mask: bv8, lo: nat, hi: nat)
    requires p < |s| && lo <= hi <= 8 && IsMask(mask, lo, hi)
    ensures SetBits(s, s[p := s[p] | mask], 8 * p + lo, 8 * p + hi)
  {
    hide Bit;
    var t := s[p := s[p] | mask];
    forall i | 0 <= i < 8 * |s| ensures BitAt(t, i) <==> BitAt(s, i) || 8 * p + lo <= i < 8 * p + hi {
      OrBits(s[p], mask, i % 8);
      assert i == 8 * (i / 8) + i % 8;
    }
  }

  lemma TestMask(s: seq<bv8>, p: nat, mask: bv8, lo: nat, hi: nat)
    requires p < |s| && lo <= hi <= 8 && IsMask(mask, lo, hi)
    ensures s[p] & mask == 0 <==> ClearBits(s, 8 * p + lo, 8 * p + hi)
  {
    hide Bit;
    ZeroBits(s[p] & mask);
    var m := s[p] & mask;
    forall k | 0 <= k < 8 ensures Bit(m, k) <==> BitAt(s, 8 * p + k) && lo <= k < hi {
      AndBits(s[p], mask, k);
    }
    if m == 0 {
      forall i | 8 * p + lo <= i < 8 * p + hi ensures !BitAt(s, i) {
        assert !Bit(m, i - 8 * p);
      }
    } else {
      var k :| 0 <= k < 8 && Bit(m, k);
      assert BitAt(s, 8 * p + k);
    }
  }

  lemma SetBitsMore(s: seq<bv8>, t: seq<bv8>, u: seq<bv8>, lo: nat, mid: nat, hi: nat)
    requires SetBits(s, t, lo, mid) && SetBits(t, u, mid, hi) && lo <= mid <= hi
    ensures SetBits(s, u, lo, hi)
  {
    hide BitAt;
  }

  /** What is ahead of the bits set so far looks as it did. */
  lemma ClearAhead(s: seq<bv8>, t: seq<bv8>, lo: nat, mid: nat, hi: nat)
    requires SetBits(s, t, lo, mid) && lo <= mid <= hi <= 8 * |s|
    ensures ClearBits(t, mid, hi) <==> ClearBits(s, mid, hi)
  {
    hide BitAt;
    if ClearBits(s, mid, hi) {
      forall i | mid <= i < hi ensures !BitAt(t, i) {
        assert !BitAt(s, i);
      }
    } else {
      var i :| mid <= i < hi && BitAt(s, i);
      assert BitAt(t, i);
    }
  }

  lemma ClearSplit(s: seq<bv8>, lo: nat, mid: nat, hi: nat)
    requires lo <= mid <= hi <= 8 * |s|
    ensures ClearBits(s, lo, hi) <==> ClearBits(s, lo, mid) && ClearBits(s, mid, hi)
  {
    hide BitAt;
  }

  lemma SetNone(s: seq<bv8>, lo: nat)
    ensures SetBits(s, s, lo, lo) && ClearBits(s, lo, lo)
  {
    hide BitAt;
  }

  lemma SetIsOnly(s: seq<bv8>, t: seq<bv8>, lo: nat, mid: nat, hi: nat)
    requires SetBits(s, t, lo, mid) && mid <= hi
    ensures OnlyBits(s, t, lo, hi)
  {
    hide BitAt;
  }

  // ---- AllocateExtent ----

  /** Sets the bits of one byte that `mask` selects; in debug builds, unless one of them
      is set already.  `s` is the bitmap as it was, with the bits up to 8 * p + lo set since. */
  method MarkByte(buffer: array<bv8>, p: nat, mask: bv8, debug: bool, ghost lo: nat, ghost hi: nat, ghost s: seq<bv8>, ghost start: nat)
    returns (ok: bool)
    requires p < buffer.Length && lo <= hi <= 8 && IsMask(mask, lo, hi)
    requires start <= 8 * p + lo && SetBits(s, buffer[..], start, 8 * p + lo)
    requires debug ==> ClearBits(s, start, 8 * p + lo)
    modifies buffer
    ensures !ok ==> debug && !ClearBits(s, start, 8 * p + hi) && buffer[..] == old(buffer[..])
    ensures ok ==> SetBits(s, buffer[..], start, 8 * p + hi) && (debug ==> ClearBits(s, start, 8 * p + hi))
  {
    hide SetBits, ClearBits, Bit, IsMask;
    ghost var t := buffer[..];
    assert |s| == |t| by { SameSize(s, t, start, 8 * p + lo); }
    TestMask(t, p, mask, lo, hi);
    ClearAhead(s, t, start, 8 * p + lo, 8 * p + hi);
    ClearSplit(s, start, 8 * p + lo, 8 * p + hi);
    if debug && buffer[p] & mask != 0 {
      return false;
    }
    OrMask(t, p, mask, lo, hi);
    buffer[p] := buffer[p] | mask;
    assert buffer[..] == t[p := t[p] | mask];
    SetBitsMore(s, t, buffer[..], start, 8 * p + lo, 8 * p + hi);
    return true;
  }

  lemma SameSize(s: seq<bv8>, t: seq<bv8>, lo: nat, hi: nat)
    requires SetBits(s, t, lo, hi)
    ensures |s| == |t|
  {
  }

  lemma StartMask(startBit: nat, lShift: nat)
    requires startBit + lShift <= 8 && startBit < 8
    ensures IsMask(ShiftRight(startBit) & ShiftLeft(lShift), startBit, 8 - lShift)
  {
    hide Bit, ShiftLeft, ShiftRight;
    var m := ShiftRight(startBit) & ShiftLeft(lShift);
    forall k | 0 <= k < 8 ensures Bit(m, k) <==> startBit <= k < 8 - lShift {
      AndBits(ShiftRight(startBit), ShiftLeft(lShift), k);
      RightBits(startBit, k);
      LeftBits(lShift, k);
    }
  }

  lemma EndMask(n: nat)
    requires n <= 8
    ensures IsMask(ShiftLeft(8 - n), 0, n)
  {
    hide Bit, ShiftLeft;
    var m := ShiftLeft(8 - n);
    forall k | 0 <= k < 8 ensures Bit(m, k) <==> 0 <= k < n {
      LeftBits(8 - n, k);
    }
  }

  lemma FullMask()
    ensures IsMask(0xff, 0, 8)
  {
    hide Bit;
    forall k | 0 <= k < 8 ensures Bit(0xff, k) { FullBits(k); }
  }

  lemma OrFull(b: bv8)
    ensures b | 0xff == 0xff && b & 0xff == b
  {
  }

  /** AllocateExtent: sets exactly the bits of the extent; the debug build fails exactly
      when one of them was set already. */
  method AllocateExtent(buffer: array<bv8>, startBlock: nat, blockCount: nat, debug: bool) returns (status: int)
    requires startBlock + blockCount <= 8 * buffer.Length
    modifies buffer
    ensures status == 0 || status == -1
    ensures status == -1 <==> debug && !ClearBits(old(buffer[..]), startBlock, startBlock + blockCount)
    ensures status == 0 ==> SetBits(old(buffer[..]), buffer[..], startBlock, startBlock + blockCount)
    ensures status == -1 ==> OnlyBits(old(buffer[..]), buffer[..], startBlock, startBlock + blockCount)
  {
    hide SetBits, ClearBits, OnlyBits, IsMask, ShiftLeft, ShiftRight;
    ghost var s := buffer[..];
    ghost var end := startBlock + blockCount;
    var p := startBlock / 8;
    var left := blockCount;
    SetNone(s, startBlock);
    // the first byte, if the extent starts inside it
    var startBit := startBlock % 8;
    if startBit != 0 {
      var lShift := 0;
      if left < 8 - startBit {
        lShift := 8 - (startBit + left);
      }
      var mask := ShiftRight(startBit) & ShiftLeft(lShift);
      StartMask(startBit, lShift);
      var ok := MarkByte(buffer, p, mask, debug, startBit, 8 - lShift, s, startBlock);
      if !ok {
        Stopped(s, s, startBlock, 8 * p + 8 - lShift, startBlock, end);
        return -1;
      }
      left := left - (8 - (lShift + startBit));
      p := p + 1;
      assert left == 0 || 8 * p == end - left;
    }
    if left == 0 {
      return 0;
    }
    // the bytes that belong to it altogether
    var whole := left / 8;
    var indx := 0;
    while indx < whole
      invariant 0 <= indx <= whole && 8 * (p + indx) <= end && startBlock <= 8 * (p + indx)
      invariant SetBits(s, buffer[..], startBlock, 8 * (p + indx)) && (debug ==> ClearBits(s, startBlock, 8 * (p + indx)))
    {
      FullMask();
      OrFull(buffer[p + indx]);
      ghost var t := buffer[..];
      var ok := MarkByte(buffer, p + indx, 0xff, debug, 0, 8, s, startBlock);
      if !ok {
        Stopped(s, t, startBlock, 8 * (p + indx) + 8, 8 * (p + indx), end);
        return -1;
      }
      indx := indx + 1;
    }
    p := p + whole;
    left := left % 8;
    // the last byte, if it ends inside it
    if left != 0 {
      EndMask(left);
      ghost var t := buffer[..];
      var ok := MarkByte(buffer, p, ShiftLeft(8 - left), debug, 0, left, s, startBlock);
      if !ok {
        Stopped(s, t, startBlock, end, 8 * p, end);
        return -1;
      }
    }
    return 0;
  }

  /** Stopping before `hi`, with a bit below it found set. */
  lemma Stopped(s: seq<bv8>, t: seq<bv8>, lo: nat, hi: nat, mid: nat, end: nat)
    requires SetBits(s, t, lo, mid) && lo <= mid <= end && hi <= end <= 8 * |s| && lo <= hi && !ClearBits(s, lo, hi)
    ensures !ClearBits(s, lo, end) && OnlyBits(s, t, lo, end)
  {
    ClearSplit(s, lo, hi, end);
    SetIsOnly(s, t, lo, mid, end);
  }

  // ---- One bit at a time ----

  function SetOne(s: seq<bv8>, i: nat): seq<bv8>
    requires i < 8 * |s|
  {
    s[i / 8 := s[i / 8] | (0x80 >> (i % 8))]
  }

  function OneByOne(s: seq<bv8>, lo: nat, hi: nat): (t: seq<bv8>)
    requires lo <= hi <= 8 * |s|
    ensures |t| == |s|
    decreases hi - lo
  {
    if lo == hi then s else SetOne(OneByOne(s, lo, hi - 1), hi - 1)
  }

  lemma OneMask(k: nat)
    requires k < 8
    ensures IsMask(0x80 >> k, k, k + 1)
  {
    assert k == 0 || k == 1 || k == 2 || k == 3 || k == 4 || k == 5 || k == 6 || k == 7;
  }

  lemma {:induction false} OneByOneSets(s: seq<bv8>, lo: nat, hi: nat)
    requires lo <= hi <= 8 * |s|
    ensures SetBits(s, OneByOne(s, lo, hi), lo, hi)
    decreases hi - lo
  {
    hide SetBits, IsMask;
    if lo == hi {
      SetNone(s, lo);
    } else {
      OneByOneSets(s, lo, hi - 1);
      var t := OneByOne(s, lo, hi - 1);
      var p, k := (hi - 1) / 8, (hi - 1) % 8;
      OneMask(k);
      OrMask(t, p, 0x80 >> k, k, k + 1);
      SetBitsMore(s, t, SetOne(t, hi - 1), lo, hi - 1, hi);
    }
  }

  lemma SameByte(a: bv8, b: bv8)
    requires forall k :: 0 <= k < 8 ==> (Bit(a, k) <==> Bit(b, k))
    ensures a == b
  {
    assert Bit(a, 0) <==> Bit(b, 0);
    assert Bit(a, 1) <==> Bit(b, 1);
    assert Bit(a, 2) <==> Bit(b, 2);
    assert Bit(a, 3) <==> Bit(b, 3);
    assert Bit(a, 4) <==> Bit(b, 4);
    assert Bit(a, 5) <==> Bit(b, 5);
    assert Bit(a, 6) <==> Bit(b, 6);
    assert Bit(a, 7) <==> Bit(b, 7);
  }

  /** The bits determine the bytes. */
  lemma BitsDetermine(s: seq<bv8>, t: seq<bv8>, u: seq<bv8>, lo: nat, hi: nat)
    requires SetBits(s, t, lo, hi) && SetBits(s, u, lo, hi)
    ensures t == u
  {
    hide Bit;
    forall p | 0 <= p < |s| ensures t[p] == u[p] {
      var a, b := t[p], u[p];
      forall k | 0 <= k < 8 ensures Bit(a, k) <==> Bit(b, k) {
        assert BitAt(t, 8 * p + k) <==> BitAt(u, 8 * p + k);
      }
      SameByte(a, b);
    }
  }

  // ---- MarkExtentUsed ----

  /** The bitmap sectors that hold the range end within the drive. */
  predicate InDrive(size: nat, ss: nat, base: nat, lo: nat, hi: nat)
    requires ss > 0
  {
    lo < hi ==> base + ((hi - 1) / (8 * ss) + 1) * ss <= size
  }

  lemma SectorOf(cur: nat, ss: nat)
    requires ss > 0
    ensures var n, off := cur / (8 * ss), cur % (8 * ss);
            0 <= n && 0 <= n * ss && 8 * (n * ss) + off == cur && off < 8 * ss
  {
    var n, off := cur / (8 * ss), cur % (8 * ss);
    assert cur == n * (8 * ss) + off;
    Reassociate(n, ss);
    DivMono(0, cur, 8 * ss);
    MulMono(0, n, ss);
  }

  lemma Reassociate(n: int, ss: int)
    ensures n * (8 * ss) == 8 * (n * ss)
  {
  }

  /** The sectors of a range are within the drive if the last one is. */
  lemma SectorsMono(size: nat, ss: nat, base: nat, cur: nat, hi: nat)
    requires ss > 0 && cur < hi
    ensures InDrive(size, ss, base, cur, hi) ==> base + (cur / (8 * ss)) * ss + ss <= size
    ensures base + (cur / (8 * ss)) * ss + ss > size ==> !InDrive(size, ss, base, cur, hi)
  {
    var a, b := cur / (8 * ss), (hi - 1) / (8 * ss);
    DivMono(cur, hi - 1, 8 * ss);
    MulMono(a, b, ss);
    assert (b + 1) * ss == b * ss + ss;
  }

  lemma InDriveNone(size: nat, ss: nat, base: nat, lo: nat)
    requires ss > 0
    ensures InDrive(size, ss, base, lo, lo)
  {
  }

  lemma InDriveTail(size: nat, ss: nat, base: nat, lo: nat, cur: nat, hi: nat)
    requires ss > 0 && lo <= cur < hi
    ensures InDrive(size, ss, base, lo, hi) <==> InDrive(size, ss, base, cur, hi)
  {
  }

  /** The blocks marked in one pass end in the sector they start in. */
  lemma SectorEnd(size: nat, ss: nat, base: nat, lo: nat, cur: nat, n: nat)
    requires ss > 0 && lo <= cur && 0 < n && cur % (8 * ss) + n <= 8 * ss && base + (cur / (8 * ss)) * ss + ss <= size
    ensures InDrive(size, ss, base, lo, cur + n)
  {
    var q, r := cur / (8 * ss), cur % (8 * ss);
    DivMono(0, cur, 8 * ss);
    QuotientUnique(8 * ss, cur + n - 1, q, r + n - 1);
    Distribute(q, 1, ss);
  }

  lemma InDriveBits(size: nat, ss: nat, base: nat, lo: nat, hi: nat)
    requires ss > 0 && lo < hi && InDrive(size, ss, base, lo, hi)
    ensures 8 * base + hi <= 8 * size
  {
    var q := (hi - 1) / (8 * ss);
    SectorOf(hi - 1, ss);
    Distribute(q, 1, ss);
  }

  lemma ClearMono(s: seq<bv8>, lo: nat, mid: nat, hi: nat)
    requires !ClearBits(s, lo, mid) && mid <= hi
    ensures !ClearBits(s, lo, hi)
  {
    hide BitAt;
  }

  /** Bits set in a piece of the drive are bits set in the drive. */
  lemma PieceBits(dev: seq<bv8>, at: nat, piece: seq<bv8>, lo: nat, hi: nat)
    requires at + |piece| <= |dev| && lo <= hi <= 8 * |piece| && SetBits(dev[at..at + |piece|], piece, lo, hi)
    ensures SetBits(dev, Splice(dev, at, piece), 8 * at + lo, 8 * at + hi)
  {
    var s, t := dev[at..at + |piece|], Splice(dev, at, piece);
    hide Bit;
    forall i | 0 <= i < 8 * |dev| ensures BitAt(t, i) <==> BitAt(dev, i) || 8 * at + lo <= i < 8 * at + hi {
      if 8 * at <= i < 8 * (at + |piece|) {
        var j := i - 8 * at;
        assert BitAt(s, j) <==> BitAt(dev, i);
        assert BitAt(piece, j) <==> BitAt(t, i);
      }
    }
  }

  lemma PieceClear(dev: seq<bv8>, at: nat, n: nat, lo: nat, hi: nat)
    requires at + n <= |dev| && lo <= hi <= 8 * n
    ensures ClearBits(dev[at..at + n], lo, hi) <==> ClearBits(dev, 8 * at + lo, 8 * at + hi)
  {
    var s := dev[at..at + n];
    hide Bit;
    forall j | 0 <= j < 8 * n ensures BitAt(s, j) <==> BitAt(dev, 8 * at + j) {}
    if ClearBits(s, lo, hi) {
      forall i | 8 * at + lo <= i < 8 * at + hi ensures !BitAt(dev, i) {
        assert !BitAt(s, i - 8 * at);
      }
    }
  }

  /** Reads the sector at byte `at`, marks `n` blocks from bit `off` on, writes it back. */
  method MarkSector(d: Drive, at: nat, off: nat, n: nat, debug: bool, ghost dev: seq<bv8>, ghost lo: nat) returns (ok: bool)
    requires d.sectorSize > 0 && at + d.sectorSize <= |d.bytes| && off + n <= 8 * d.sectorSize
    requires lo <= 8 * at + off && SetBits(dev, d.bytes, lo, 8 * at + off) && (debug ==> ClearBits(dev, lo, 8 * at + off))
    modifies d`bytes
    ensures |d.bytes| == |dev|
    ensures !ok ==> debug && !ClearBits(dev, lo, 8 * at + off + n) && d.bytes == old(d.bytes)
    ensures ok ==> SetBits(dev, d.bytes, lo, 8 * at + off + n) && (debug ==> ClearBits(dev, lo, 8 * at + off + n))
  {
    hide SetBits, ClearBits, OnlyBits;
    ghost var s, t := d.bytes[at..at + d.sectorSize], d.bytes;
    SameSize(dev, t, lo, 8 * at + off);
    var buf := new bv8[d.sectorSize](i requires 0 <= i < d.sectorSize && at + d.sectorSize <= |d.bytes| reads d => d.bytes[at + i]);
    assert buf[..] == s;
    PieceClear(t, at, d.sectorSize, off, off + n);
    ClearAhead(dev, t, lo, 8 * at + off, 8 * at + off + n);
    ClearSplit(dev, lo, 8 * at + off, 8 * at + off + n);
    var status := AllocateExtent(buf, off, n, debug);
    if status == -1 {
      return false;
    }
    PieceBits(t, at, buf[..], off, off + n);
    d.bytes := Splice(d.bytes, at, buf[..]);
    SetBitsMore(dev, t, d.bytes, lo, 8 * at + off, 8 * at + off + n);
    return true;
  }

  // ---- Block numbers of 32 bits ----

  /** The end of the bitmap sector with the bit of block 2^32 - 1: where a range that goes
      on is continued 2^32 blocks lower. */
  function Turn(ss: nat): (n: nat)
    requires ss > 0
    ensures n >= 0x1_0000_0000
  {
    SectorSpan(0xffff_ffff, ss);
    (0xffff_ffff / (8 * ss) + 1) * (8 * ss)
  }

  lemma SectorSpan(x: nat, ss: nat)
    requires ss > 0
    ensures var k := x / (8 * ss); k >= 0 && k * (8 * ss) <= x < (k + 1) * (8 * ss) && (k + 1) * (8 * ss) == k * (8 * ss) + 8 * ss
    ensures x - x % (8 * ss) == (x / (8 * ss)) * (8 * ss)
  {
    DivSplit(x, 8 * ss);
    Distribute(x / (8 * ss), 1, 8 * ss);
  }

  /** A pass does not go beyond the turn, and reaches 2^32 with more to do only there. */
  lemma PassEnds(cur: nat, n: nat, ss: nat)
    requires ss > 0 && cur < 0x1_0000_0000 && cur % (8 * ss) + n <= 8 * ss
    ensures cur + n <= Turn(ss)
    ensures cur % (8 * ss) + n == 8 * ss && cur + n >= 0x1_0000_0000 ==> cur + n == Turn(ss)
  {
    hide Turn;
    var m, k, q := 8 * ss, cur / (8 * ss), 0xffff_ffff / (8 * ss);
    assert Turn(ss) == (q + 1) * m by { TurnIs(ss); }
    SectorSpan(cur, ss);
    DivMono(cur, 0xffff_ffff, m);
    MulMono(k + 1, q + 1, m);
    if cur % m + n == m && cur + n >= 0x1_0000_0000 {
      QuotientUnique(m, 0xffff_ffff, k, 0xffff_ffff - k * m);
    }
  }

  lemma TurnIs(ss: nat)
    requires ss > 0
    ensures Turn(ss) == (0xffff_ffff / (8 * ss) + 1) * (8 * ss)
  {
  }

  /** For sectors whose bits divide 2^32, such as those of 512 or 4096 bytes, the turn is at
      2^32. */
  lemma TurnDivides(ss: nat, k: nat)
    requires ss > 0 && k * (8 * ss) == 0x1_0000_0000
    ensures Turn(ss) == 0x1_0000_0000
  {
    hide Turn;
    TurnIs(ss);
    Distribute(k, -1, 8 * ss);
    if k < 1 { MulMono(k, 0, 8 * ss); }
    QuotientUnique(8 * ss, 0xffff_ffff, k - 1, 8 * ss - 1);
  }

  /** The last block before the turn, or before the end. */
  function Cut(start: nat, count: nat, ss: nat): nat
    requires ss > 0
  {
    Min(start + count, Turn(ss))
  }

  /** The bits of a range of blocks, with the block numbers cut to 32 bits as the code cuts
      them: up to the turn, and from there on 2^32 lower. */
  ghost predicate Marked(s: seq<bv8>, t: seq<bv8>, b: nat, start: nat, count: nat, ss: nat)
    requires ss > 0
  {
    var end, cut := start + count, Cut(start, count, ss);
    && |t| == |s|
    && forall i :: 0 <= i < 8 * |s| ==>
         (BitAt(t, i) <==> BitAt(s, i) || b + start <= i < b + cut
                           || (cut < end && b + cut - 0x1_0000_0000 <= i < b + end - 0x1_0000_0000))
  }

  ghost predicate Unmarked(s: seq<bv8>, b: nat, start: nat, count: nat, ss: nat)
    requires ss > 0
  {
    var end, cut := start + count, Cut(start, count, ss);
    ClearBits(s, b + start, b + cut)
    && (cut < end ==> ClearBits(s, b + cut - 0x1_0000_0000, b + end - 0x1_0000_0000))
  }

  /** Within the turn these are the bits of the range. */
  lemma MarkedWithin(s: seq<bv8>, t: seq<bv8>, b: nat, start: nat, count: nat, ss: nat)
    requires ss > 0 && start + count <= Turn(ss)
    ensures Marked(s, t, b, start, count, ss) <==> SetBits(s, t, b + start, b + start + count)
    ensures Unmarked(s, b, start, count, ss) <==> ClearBits(s, b + start, b + start + count)
  {
    hide BitAt, Turn;
  }

  /** Beyond it they are not, whatever the range, on a bitmap with none of them set. */
  lemma MarkedExactlyIff(s: seq<bv8>, t: seq<bv8>, b: nat, start: nat, count: nat, ss: nat)
    requires ss > 0 && start < 0x1_0000_0000 && count < 0x1_0000_0000
    requires Unmarked(s, b, start, count, ss) && Marked(s, t, b, start, count, ss) && b + Cut(start, count, ss) <= 8 * |s|
    ensures SetBits(s, t, b + start, b + start + count) <==> start + count <= Turn(ss)
  {
    hide BitAt, Turn;
    if start + count <= Turn(ss) {
      MarkedWithin(s, t, b, start, count, ss);
    } else {
      var i := b + Turn(ss) - 0x1_0000_0000;
      assert i < b + start;
      assert BitAt(t, i) && !BitAt(s, i);
    }
  }

  // ---- The passes ----

  /** Where the marking is: in its first leg, up to block `pos`, or in its second, after the
      turn; `leg` is the drive at the start of the leg, and `from` its first block. */
  ghost predicate Underway(dev: seq<bv8>, leg: seq<bv8>, bytes: seq<bv8>, ss: nat, base: nat, start: nat, count: nat, debug: bool,
                           turned: bool, from: nat, pos: nat, left: nat)
    requires ss > 0
  {
    && |bytes| == |leg| == |dev| && from <= pos
    && SetBits(leg, bytes, 8 * base + from, 8 * base + pos) && (debug ==> ClearBits(leg, 8 * base + from, 8 * base + pos))
    && (!turned ==> leg == dev && from == start && pos + left == start + count && pos <= Turn(ss) && InDrive(|dev|, ss, base, start, pos))
    && (turned ==>
          && from == Turn(ss) - 0x1_0000_0000 && pos + left == start + count - 0x1_0000_0000 && start + count > Turn(ss)
          && SetBits(dev, leg, 8 * base + start, 8 * base + Turn(ss))
          && (debug ==> ClearBits(dev, 8 * base + start, 8 * base + Turn(ss))) && InDrive(|dev|, ss, base, start, Turn(ss)))
  }

  lemma UnderwayStart(dev: seq<bv8>, ss: nat, base: nat, start: nat, count: nat, debug: bool)
    requires ss > 0 && start < 0x1_0000_0000
    ensures Underway(dev, dev, dev, ss, base, start, count, debug, false, start, start, count)
  {
    hide Turn, BitAt;
    SetNone(dev, 8 * base + start);
    InDriveNone(|dev|, ss, base, start);
  }

  /** A sector past the end of the drive: only on the first leg. */
  lemma PastDrive(dev: seq<bv8>, leg: seq<bv8>, bytes: seq<bv8>, ss: nat, base: nat, start: nat, count: nat, debug: bool,
                  turned: bool, from: nat, pos: nat, left: nat)
    requires ss > 0 && start < 0x1_0000_0000 && count < 0x1_0000_0000 && 0 < left && pos < 0x1_0000_0000
    requires Underway(dev, leg, bytes, ss, base, start, count, debug, turned, from, pos, left)
    ensures base + (pos / (8 * ss)) * ss + ss > |bytes| ==> !turned && !InDrive(|dev|, ss, base, start, Cut(start, count, ss))
  {
    hide SetBits, ClearBits, Turn, InDrive;
    if turned {
      SectorsMono(|dev|, ss, base, start, Turn(ss));
      DivMono(pos, start, 8 * ss);
      MulMono(pos / (8 * ss), start / (8 * ss), ss);
    } else {
      var cut := Cut(start, count, ss);
      SectorsMono(|dev|, ss, base, pos, cut);
      InDriveTail(|dev|, ss, base, start, pos, cut);
    }
  }

  /** A block of the pass is in use. */
  lemma InUse(dev: seq<bv8>, leg: seq<bv8>, bytes: seq<bv8>, ss: nat, base: nat, start: nat, count: nat, debug: bool,
              turned: bool, from: nat, pos: nat, left: nat, n: nat)
    requires ss > 0 && start < 0x1_0000_0000 && count < 0x1_0000_0000 && n <= left && pos < 0x1_0000_0000
    requires Underway(dev, leg, bytes, ss, base, start, count, debug, turned, from, pos, left)
    requires pos % (8 * ss) + n <= 8 * ss && !ClearBits(leg, 8 * base + from, 8 * base + pos + n)
    ensures !Unmarked(dev, 8 * base, start, count, ss)
  {
    hide SetBits, ClearBits, Turn, InDrive;
    PassEnds(pos, n, ss);
    if turned {
      var hi := 8 * base + start + count - 0x1_0000_0000;
      ClearMono(leg, 8 * base + from, 8 * base + pos + n, hi);
      ClearBelow(dev, leg, 8 * base + start, 8 * base + Turn(ss), 8 * base + from, hi);
    } else {
      ClearMono(dev, 8 * base + start, 8 * base + pos + n, 8 * base + Cut(start, count, ss));
    }
  }

  /** Bits below those set look as they did. */
  lemma ClearBelow(s: seq<bv8>, t: seq<bv8>, lo: nat, hi: nat, x: nat, y: nat)
    requires SetBits(s, t, lo, hi) && y <= lo
    ensures ClearBits(t, x, y) <==> ClearBits(s, x, y)
  {
    hide BitAt;
    if ClearBits(s, x, y) {
      forall i | x <= i < y && i < 8 * |t| ensures !BitAt(t, i) { assert !BitAt(s, i); }
    } else {
      var i :| x <= i < y && i < 8 * |s| && BitAt(s, i);
      assert BitAt(t, i);
    }
  }

  /** One pass done, without or with the turn. */
  lemma PassDone(dev: seq<bv8>, leg: seq<bv8>, bytes: seq<bv8>, bytes': seq<bv8>, ss: nat, base: nat, start: nat, count: nat, debug: bool,
                 turned: bool, from: nat, pos: nat, left: nat, n: nat)
    requires ss > 0 && start < 0x1_0000_0000 && count < 0x1_0000_0000 && 0 < n <= left && pos < 0x1_0000_0000
    requires Underway(dev, leg, bytes, ss, base, start, count, debug, turned, from, pos, left)
    requires pos % (8 * ss) + n <= 8 * ss && (n < left ==> pos % (8 * ss) + n == 8 * ss)
    requires |bytes'| == |leg| && base + (pos / (8 * ss)) * ss + ss <= |dev|
    requires SetBits(leg, bytes', 8 * base + from, 8 * base + pos + n) && (debug ==> ClearBits(leg, 8 * base + from, 8 * base + pos + n))
    ensures var turns := n < left && pos + n >= 0x1_0000_0000;
            if turns
            then !turned && Underway(dev, bytes', bytes', ss, base, start, count, debug, true, pos + n - 0x1_0000_0000, pos + n - 0x1_0000_0000, left - n)
            else Underway(dev, leg, bytes', ss, base, start, count, debug, turned, from, pos + n, left - n)
  {
    hide SetBits, ClearBits, Turn, InDrive;
    PassEnds(pos, n, ss);
    if !turned { SectorEnd(|dev|, ss, base, start, pos, n); }
    assert turned ==> pos + left < 0x1_0000_0000;
    SetNone(bytes', 8 * base + pos + n);
    if pos + n >= 0x1_0000_0000 { SetNone(bytes', 8 * base + pos + n - 0x1_0000_0000); }
  }

  /** All done: the bits of both legs are set. */
  lemma MarkingDone(dev: seq<bv8>, leg: seq<bv8>, bytes: seq<bv8>, ss: nat, base: nat, start: nat, count: nat, debug: bool,
                    turned: bool, from: nat, pos: nat)
    requires ss > 0 && start < 0x1_0000_0000 && count < 0x1_0000_0000
    requires Underway(dev, leg, bytes, ss, base, start, count, debug, turned, from, pos, 0)
    ensures Marked(dev, bytes, 8 * base, start, count, ss) && InDrive(|dev|, ss, base, start, Cut(start, count, ss))
    ensures debug ==> Unmarked(dev, 8 * base, start, count, ss)
  {
    hide ClearBits, Turn, InDrive, BitAt;
    if turned {
      ClearBelow(dev, leg, 8 * base + start, 8 * base + Turn(ss), 8 * base + from, 8 * base + pos);
    }
  }

  /** MarkExtentUsed: marks the blocks in the bitmap file, a sector at a time.  It fails
      exactly when the bitmap runs past the end of the drive, or, in debug builds, when
      one of the blocks is in use.  Otherwise exactly the bits of the blocks, as numbers of
      32 bits, have been set on the whole drive; up to the turn that is as if the blocks
      of the range had been marked one at a time. */
  method MarkExtentUsed(d: Drive, allocStart: nat, blockSize: nat, startBlock: uint32, blockCount: uint32, debug: bool) returns (status: int)
    requires d.Valid()
    modifies d`bytes
    ensures d.Valid() && |d.bytes| == old(|d.bytes|) && (status == 0 || status == -1)
    ensures var base := (allocStart * blockSize) % 0x1_0000_0000;
            var lo, hi := 8 * base + startBlock, 8 * base + startBlock + blockCount;
            && (status == 0 <==> InDrive(old(|d.bytes|), d.sectorSize, base, startBlock, Cut(startBlock, blockCount, d.sectorSize))
                                 && (debug ==> Unmarked(old(d.bytes), 8 * base, startBlock, blockCount, d.sectorSize)))
            && (status == 0 ==> Marked(old(d.bytes), d.bytes, 8 * base, startBlock, blockCount, d.sectorSize))
            && (status == 0 && blockCount > 0 && startBlock + blockCount <= Turn(d.sectorSize) ==>
                  hi <= 8 * |d.bytes| && d.bytes == OneByOne(old(d.bytes), lo, hi))
  {
    hide SetBits, ClearBits, InDrive, Aligned, OneByOne, Underway, Marked, Unmarked, Turn, Cut, U32;
    var ss := d.sectorSize;
    var left: nat, cur: uint32 := blockCount, startBlock;
    var base := (allocStart * blockSize) % 0x1_0000_0000;
    ghost var dev := d.bytes;
    ghost var leg, turned, from: nat, pos: nat := dev, false, cur, cur;
    UnderwayStart(dev, ss, base, startBlock, blockCount, debug);
    while left > 0
      invariant 0 <= left <= blockCount && (left > 0 ==> cur == pos)
      invariant d.Valid() && Underway(dev, leg, d.bytes, ss, base, startBlock, blockCount, debug, turned, from, pos, left)
    {
      var secNum, off := cur / (8 * ss), cur % (8 * ss);
      SectorOf(cur, ss);
      var numBlocks: nat := Min(8 * ss - off, left);
      var offset := base + secNum * ss;
      PastDrive(dev, leg, d.bytes, ss, base, startBlock, blockCount, debug, turned, from, pos, left);
      if offset + ss > |d.bytes| {
        assert |d.bytes| == |dev| by { SameDrive(dev, leg, d.bytes, ss, base, startBlock, blockCount, debug, turned, from, pos, left); }
        return -1;
      }
      SameDrive(dev, leg, d.bytes, ss, base, startBlock, blockCount, debug, turned, from, pos, left);
      ghost var before := d.bytes;
      var ok := MarkSector(d, offset, off, numBlocks, debug, leg, 8 * base + from);
      if !ok {
        InUse(dev, leg, before, ss, base, startBlock, blockCount, debug, turned, from, pos, left, numBlocks);
        return -1;
      }
      PassDone(dev, leg, before, d.bytes, ss, base, startBlock, blockCount, debug, turned, from, pos, left, numBlocks);
      WrapNext(pos, numBlocks);
      if numBlocks < left && pos + numBlocks >= 0x1_0000_0000 {
        leg, turned, from, pos := d.bytes, true, pos + numBlocks - 0x1_0000_0000, pos + numBlocks - 0x1_0000_0000;
      } else {
        pos := pos + numBlocks;
      }
      left := left - numBlocks;
      cur := U32(cur + numBlocks);
    }
    SameDrive(dev, leg, d.bytes, ss, base, startBlock, blockCount, debug, turned, from, pos, left);
    MarkingDone(dev, leg, d.bytes, ss, base, startBlock, blockCount, debug, turned, from, pos);
    if blockCount > 0 && startBlock + blockCount <= Turn(ss) {
      MarkedOneByOne(dev, d.bytes, ss, base, startBlock, blockCount);
    }
    return 0;
  }

  lemma WrapNext(cur: uint32, n: nat)
    ensures cur + n < 0x1_0000_0000 ==> U32(cur + n) == cur + n
    ensures 0x1_0000_0000 <= cur + n < 0x2_0000_0000 ==> U32(cur + n) == cur + n - 0x1_0000_0000
  {
  }

  lemma SameDrive(dev: seq<bv8>, leg: seq<bv8>, bytes: seq<bv8>, ss: nat, base: nat, start: nat, count: nat, debug: bool,
                  turned: bool, from: nat, pos: nat, left: nat)
    requires ss > 0 && Underway(dev, leg, bytes, ss, base, start, count, debug, turned, from, pos, left)
    ensures |bytes| == |leg| == |dev| && from <= pos
    ensures SetBits(leg, bytes, 8 * base + from, 8 * base + pos) && (debug ==> ClearBits(leg, 8 * base + from, 8 * base + pos))
  {
    hide SetBits, ClearBits;
  }

  lemma MarkedOneByOne(dev: seq<bv8>, bytes: seq<bv8>, ss: nat, base: nat, start: nat, count: nat)
    requires ss > 0 && count > 0 && start + count <= Turn(ss) && Marked(dev, bytes, 8 * base, start, count, ss)
    requires InDrive(|dev|, ss, base, start, Cut(start, count, ss))
    ensures var lo, hi := 8 * base + start, 8 * base + start + count;
            hi <= 8 * |dev| && bytes == OneByOne(dev, lo, hi)
  {
    hide Turn, Marked, SetBits, InDrive, OneByOne;
    var lo, hi := 8 * base + start, 8 * base + start + count;
    MarkedWithin(dev, bytes, 8 * base, start, count, ss);
    InDriveBits(|dev|, ss, base, start, start + count);
    OneByOneSets(dev, lo, hi);
    BitsDetermine(dev, bytes, OneByOne(dev, lo, hi), lo, hi);
  }

  /** Two blocks from block 2^32 - 1 on, on a drive of 512-byte sectors: the second one
      marked is block 0, and bit 2^32 of the bitmap is left alone. */
  method MarkPastTop(d: Drive, allocStart: nat, blockSize: nat) returns (status: int)
    requires d.Valid() && d.sectorSize == 512 && allocStart * blockSize < 0x1_0000_0000
    requires allocStart * blockSize + 0x2000_0001 <= |d.bytes|
    modifies d`bytes
    ensures |d.bytes| == old(|d.bytes|) && status == 0
    ensures var b := 8 * (allocStart * blockSize);
            && BitAt(d.bytes, b + 0xffff_ffff) && BitAt(d.bytes, b)
            && BitAt(d.bytes, b + 0x1_0000_0000) == old(BitAt(d.bytes, b + 0x1_0000_0000))
            && (!old(BitAt(d.bytes, b)) ==> !SetBits(old(d.bytes), d.bytes, b + 0xffff_ffff, b + 0x1_0000_0001))
  {
    hide OneByOne, Aligned, BitAt, Turn;
    TurnDivides(512, 0x10_0000);
    MulMono(0, allocStart, blockSize);
    status := MarkExtentUsed(d, allocStart, blockSize, 0xffff_ffff, 2, false);
  }
}
