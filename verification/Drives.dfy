/** The drive that a volume is written to, and WriteBuffer, which turns a write of
    512-byte sectors into reads and writes of whole physical sectors
    (src/newfs_hfs/makehfs.c:1886-1988). */
module Drives {
  import opened Bytes
  import opened Blocks

  const kBytesPerSector := 512
  const MaxBuffer := 4 * 1024 * 1024

  function Min(a: int, b: int): int {
    if a < b then a else b
  }

  function Zeros(n: nat): (z: seq<bv8>)
    ensures |z| == n && forall i :: 0 <= i < n ==> z[i] == 0
  {
    seq(n, _ => 0)
  }

  /** The number of physical sectors that WriteBuffer transfers next, when `left` bytes
      are left and its buffer holds `room` sectors of `ss` bytes. */
  function ChunkSectors(left: nat, ss: nat, room: nat): int
    requires ss > 0 && left > 0
  {
    Min((left - 1 + ss) / ss, room)
  }

  /** How many bytes of them it changes, from byte `off` of the first sector on: the
      difference is taken modulo 2^32. */
  function ChunkBytes(left: nat, ss: nat, room: nat, off: nat): int
    requires ss > 0 && left > 0
  {
    Min(left, (ChunkSectors(left, ss, room) * ss - off) % 0x1_0000_0000)
  }

  lemma CeilBounds(x: nat, ss: nat)
    requires ss > 0 && x > 0
    ensures var n := (x - 1 + ss) / ss; n >= 1 && (n - 1) * ss < x <= n * ss
  {
    var n, r := (x - 1 + ss) / ss, (x - 1 + ss) % ss;
    assert x - 1 + ss == n * ss + r;
    MulMono(n, 0, ss);
    assert (n - 1) * ss == n * ss - ss;
  }

  /** What a chunk is when there is room for at least one sector: never empty, inside its
      sectors, reaching their end unless it is the last; and if it starts and ends on
      sector boundaries it is all of them, so that no stale byte of the buffer is written. */
  lemma ChunkOk(left: nat, ss: nat, room: nat, off: nat)
    requires 0 < ss && left > 0 && room > 0 && off < ss && room * ss < 0x1_0000_0000
    ensures var n, k := ChunkSectors(left, ss, room), ChunkBytes(left, ss, room, off);
            && 1 <= n <= room && 0 < k <= left && 0 < off + k <= n * ss <= room * ss
            && (k < left ==> off + k == n * ss)
            && (off == 0 && k % ss == 0 ==> k == n * ss)
            && (n - 1) * ss < left
  {
    var n, k := ChunkSectors(left, ss, room), ChunkBytes(left, ss, room, off);
    CeilBounds(left, ss);
    var c := (left - 1 + ss) / ss;
    MulMono(n, room, ss);
    MulMono(1, n, ss);
    MulMono(n, c, ss);
    assert (n - 1) * ss == n * ss - ss && (c - 1) * ss == c * ss - ss;
    assert 0 < n * ss - off < 0x1_0000_0000;
    if off == 0 && k % ss == 0 && k < n * ss {
      LastMultiple(k, c, ss);
    }
  }

  /** No multiple of `ss` lies strictly between neighbours. */
  lemma LastMultiple(k: nat, c: nat, ss: nat)
    requires ss > 0 && k % ss == 0 && k <= c * ss && c * ss - ss < k
    ensures k == c * ss
  {
    var q := k / ss;
    assert k == q * ss;
    MulMono(q, c, ss);
    MulMono(c, q, ss);
  }

  /** With no room, from a sector boundary on, a pass transfers nothing and leaves
      everything as it was: there will be another one just like it. */
  lemma ChunkStuck(left: nat, ss: nat)
    requires ss > 0 && left > 0
    ensures ChunkSectors(left, ss, 0) == 0 && ChunkBytes(left, ss, 0, 0) == 0
  {
    CeilBounds(left, ss);
  }

  /** With no room, from inside a sector on, the difference wraps around: a pass copies
      up to almost 4 GB to a buffer of no bytes, of which it writes none. */
  lemma ChunkOverruns(left: nat, ss: nat, off: nat)
    requires 0 < off < ss < 0x1_0000_0000 && left > 0
    ensures ChunkSectors(left, ss, 0) == 0 && ChunkBytes(left, ss, 0, off) == Min(left, 0x1_0000_0000 - off) > 0
  {
    CeilBounds(left, ss);
    assert 0 * ss == 0;
  }

  /** The sectors that WriteBuffer's own buffer holds; `big` says whether the first
      allocation succeeds (the second, of one sector, does). */
  function Room(byteCount: nat, ss: nat, sectorsPerIO: nat, big: bool): nat
    requires ss > 0 && byteCount > 0
  {
    if big then Min(Min((byteCount - 1 + ss) / ss, sectorsPerIO), MaxBuffer / ss) else 1
  }

  lemma RoomOk(byteCount: nat, ss: nat, sectorsPerIO: nat, big: bool)
    requires 0 < ss < 0x1_0000_0000 && byteCount > 0 && sectorsPerIO > 0
    ensures var room := Room(byteCount, ss, sectorsPerIO, big);
            (room > 0 <==> !big || ss <= MaxBuffer) && room * ss < 0x1_0000_0000
  {
    var room := Room(byteCount, ss, sectorsPerIO, big);
    CeilBounds(byteCount, ss);
    var q := MaxBuffer / ss;
    assert MaxBuffer == q * ss + MaxBuffer % ss;
    if big {
      MulMono(room, q, ss);
      if ss <= MaxBuffer {
        if q < 1 { MulMono(q, 0, ss); }
      } else {
        MulMono(1, q, ss);
      }
    }
  }

  /** How a write ends: everything written; a transfer past the end of the drive; never;
      or with the buffer overrun, after which nothing can be said. */
  datatype Outcome = Done | Failed | Stuck | Overrun

  class Drive {
    const sectorSize: nat
    const sectorOffset: nat
    const sectorsPerIO: nat
    var bytes: seq<bv8>

    /** A whole number of physical sectors, which are multiples of 512 bytes. */
    ghost predicate Valid()
      reads this
    {
      && 0 < sectorSize < 0x1_0000_0000 && Aligned(kBytesPerSector, sectorSize) && sectorsPerIO > 0
      && Aligned(sectorSize, |bytes|)
    }

    constructor (sectorSize: nat, sectorOffset: nat, sectorsPerIO: nat, bytes: seq<bv8>)
      requires 0 < sectorSize < 0x1_0000_0000 && Aligned(kBytesPerSector, sectorSize) && sectorsPerIO > 0
      requires Aligned(sectorSize, |bytes|)
      ensures Valid() && this.sectorSize == sectorSize && this.sectorOffset == sectorOffset
      ensures this.sectorsPerIO == sectorsPerIO && this.bytes == bytes
    {
      this.sectorSize, this.sectorOffset, this.sectorsPerIO, this.bytes := sectorSize, sectorOffset, sectorsPerIO, bytes;
    }

    /** Writes the buffer (or zeros) at a 512-byte sector: exactly those bytes of the drive
        change, although whole physical sectors are read and written, in chunks, through
        one reused buffer.  It fails exactly when the range runs past the end of the
        drive, the `w` bytes before the failing chunk having been written.  When the
        first allocation succeeds but has room for no physical sector, which is when
        sectors are larger than 4 MB, it neither ends nor fails on a sector boundary, and
        elsewhere it overruns its buffer. */
    method WriteBuffer(startingSector: nat, byteCount: nat, buffer: seq<bv8>, zeros: bool, big: bool)
      returns (out: Outcome, ghost w: nat)
      requires Valid() && (!zeros ==> |buffer| >= byteCount)
      modifies this`bytes
      ensures Valid()
      ensures var at := (sectorOffset + startingSector) * kBytesPerSector;
              var noRoom := byteCount > 0 && big && sectorSize > MaxBuffer;
              && (out == Stuck <==> noRoom && at % sectorSize == 0)
              && (out == Overrun <==> noRoom && at % sectorSize != 0)
              && (out == Failed <==> byteCount > 0 && !noRoom && at + byteCount > |old(bytes)|)
              && Written(old(bytes), bytes, at, if zeros then Zeros(byteCount) else buffer[..byteCount], w)
      ensures out == Done ==> w == byteCount
      ensures out == Failed ==> w < byteCount
      ensures out == Stuck || out == Overrun ==> w == 0
    {
      ghost var data := if zeros then Zeros(byteCount) else buffer[..byteCount];
      ghost var at := (sectorOffset + startingSector) * kBytesPerSector;
      if byteCount == 0 {
        return Done, 0;
      }
      var ss := sectorSize;
      var room := Room(byteCount, ss, sectorsPerIO, big);
      RoomOk(byteCount, ss, sectorsPerIO, big);
      var tempbuf := Zeros(room * ss);
      var sector := sectorOffset + startingSector;
      var ratio := ss / kBytesPerSector;
      StartOk(ss, sector);
      var physSector := sector / ratio;
      var off := (sector % ratio) * kBytesPerSector;
      QuotientUnique(ss, at, physSector, off);
      out, w := WriteChunks(tempbuf, buffer, zeros, byteCount, room, physSector, off, at, data);
    }

    /** The loop of WriteBuffer, with a buffer for `room` physical sectors. */
    method WriteChunks(buf: seq<bv8>, buffer: seq<bv8>, zeros: bool, byteCount: nat, room: nat, firstSector: nat, firstOff: nat,
                       ghost at: nat, ghost data: seq<bv8>)
      returns (out: Outcome, ghost w: nat)
      requires Valid() && room * sectorSize < 0x1_0000_0000 && |buf| == room * sectorSize
      requires 0 < byteCount == |data| && (!zeros ==> byteCount <= |buffer|)
      requires data == if zeros then Zeros(byteCount) else (if byteCount <= |buffer| then buffer[..byteCount] else data)
      requires firstOff < sectorSize && firstSector * sectorSize + firstOff == at
      modifies this`bytes
      ensures Valid() && Written(old(bytes), bytes, at, data, w)
      ensures out == Stuck <==> room == 0 && firstOff == 0
      ensures out == Overrun <==> room == 0 && firstOff != 0
      ensures out == Failed <==> room > 0 && at + byteCount > |old(bytes)|
      ensures out == Done ==> w == byteCount
      ensures out == Failed ==> w < byteCount
      ensures out == Stuck || out == Overrun ==> w == 0
    {
      hide Aligned, ChunkSectors, ChunkBytes, Written, Zeros;
      var ss := sectorSize;
      ghost var dev := bytes;
      var tempbuf, physSector, off := buf, firstSector, firstOff;
      w := 0;
      NoneWritten(dev, at, data);
      var done: nat := 0; // the code counts byteCount down and moves buffer along
      while done < byteCount
        invariant 0 <= done <= byteCount && w == done && Valid() && |bytes| == |dev| && |tempbuf| == room * ss
        invariant Written(dev, bytes, at, data, done) && (room == 0 ==> done == 0 && off == firstOff)
        invariant done < byteCount ==> off < ss && physSector * ss + off == at + done
      {
        out, tempbuf, off, physSector, done := WriteChunk(tempbuf, buffer, zeros, byteCount, room, physSector, off, done, at, dev, data);
        if out != Done {
          return;
        }
        w := done;
      }
      AllWritten(dev, bytes, at, data);
      out := Done;
    }

    /** Patches `chunk` into the `len` bytes at `at`, through a buffer that is read first
        if need be. */
    method Transfer(tempbuf: seq<bv8>, at: nat, len: nat, off: nat, chunk: seq<bv8>, read: bool) returns (tempbuf': seq<bv8>)
      requires at + len <= |bytes| && off + |chunk| <= len <= |tempbuf|
      requires !read ==> off == 0 && |chunk| == len
      modifies this`bytes
      ensures |tempbuf'| == |tempbuf| && bytes == Splice(old(bytes), at + off, chunk)
    {
      tempbuf' := tempbuf;
      if read {
        tempbuf' := Splice(tempbuf', 0, bytes[at..at + len]);
      }
      tempbuf' := Splice(tempbuf', off, chunk);
      ChunkSplice(bytes, at, off, len, tempbuf', chunk);
      bytes := Splice(bytes, at, tempbuf'[..len]);
    }

    /** One pass of the loop of WriteBuffer, `w` bytes having been written. */
    method WriteChunk(tempbuf: seq<bv8>, buffer: seq<bv8>, zeros: bool, byteCount: nat, room: nat, physSector: nat, off: nat,
                      w: nat, ghost at: nat, ghost dev: seq<bv8>, ghost data: seq<bv8>)
      returns (out: Outcome, tempbuf': seq<bv8>, off': nat, physSector': nat, w': nat)
      requires Valid() && room * sectorSize < 0x1_0000_0000 && |tempbuf| == room * sectorSize
      requires w < byteCount == |data| && |dev| == |bytes|
      requires data == if zeros then Zeros(byteCount) else (if byteCount <= |buffer| then buffer[..byteCount] else data)
      requires !zeros ==> byteCount <= |buffer|
      requires Written(dev, bytes, at, data, w)
      requires off < sectorSize && physSector * sectorSize + off == at + w
      modifies this`bytes
      ensures Valid() && |bytes| == |dev| && |tempbuf'| == |tempbuf|
      ensures out == Stuck <==> room == 0 && off == 0
      ensures out == Overrun <==> room == 0 && off != 0
      ensures out == Failed ==> at + byteCount > |dev|
      ensures out != Done ==> bytes == old(bytes) && w' == w
      ensures out == Done ==> w < w' <= byteCount && Written(dev, bytes, at, data, w') && off' == 0
      ensures out == Done && w' < byteCount ==> physSector' * sectorSize == at + w'
    {
      hide Aligned, ChunkSectors, ChunkBytes, Written;
      tempbuf', off', physSector', w' := tempbuf, off, physSector, w;
      var ss := sectorSize;
      var left := byteCount - w;
      var n, k := ChunkSectors(left, ss, room), ChunkBytes(left, ss, room, off);
      if room == 0 {
        NoRoom(left, ss, off);
      } else {
        ChunkOk(left, ss, room, off);
      }
      // nothing to transfer: the next pass would find everything as this one did
      if k == 0 {
        return Stuck, tempbuf', off', physSector', w';
      }
      if off + k > |tempbuf| {
        return Overrun, tempbuf', off', physSector', w';
      }
      InDevice(physSector, n, ss, off, left, |bytes|);
      MulMono(0, physSector, ss);
      var at', len := physSector * ss, n * ss;
      if at' + len > |bytes| {
        return Failed, tempbuf', off', physSector', w';
      }
      var chunk := if zeros then Zeros(k) else buffer[w..w + k];
      assert chunk == data[w..w + k];
      MoreWritten(dev, bytes, at, data, w, k);
      tempbuf' := Transfer(tempbuf, at', len, off, chunk, off != 0 || k % ss != 0);
      Distribute(physSector, n, ss);
      out, off', w', physSector' := Done, 0, w + k, physSector + n;
    }
  }

  lemma NoRoom(left: nat, ss: nat, off: nat)
    requires off < ss < 0x1_0000_0000 && left > 0
    ensures ChunkBytes(left, ss, 0, off) >= 0 && (ChunkBytes(left, ss, 0, off) == 0 <==> off == 0)
  {
    if off == 0 { ChunkStuck(left, ss); } else { ChunkOverruns(left, ss, off); }
  }

  /** Of the bytes `data` for position `at` of the drive the first `w` have been written,
      and nothing else has changed. */
  ghost predicate Written(dev: seq<bv8>, bytes: seq<bv8>, at: nat, data: seq<bv8>, w: nat) {
    && |bytes| == |dev| && w <= |data|
    && (w == 0 ==> bytes == dev)
    && (w > 0 ==> at + w <= |dev| && bytes == Splice(dev, at, data[..w]))
  }

  lemma SameLength(dev: seq<bv8>, bytes: seq<bv8>, at: nat, data: seq<bv8>, w: nat)
    requires Written(dev, bytes, at, data, w)
    ensures |bytes| == |dev|
  {
  }

  lemma NoneWritten(dev: seq<bv8>, at: nat, data: seq<bv8>)
    ensures Written(dev, dev, at, data, 0)
  {
  }

  lemma AllWritten(dev: seq<bv8>, bytes: seq<bv8>, at: nat, data: seq<bv8>)
    requires data != [] && Written(dev, bytes, at, data, |data|)
    ensures at + |data| <= |dev| && bytes == Splice(dev, at, data)
  {
    assert data[..|data|] == data;
  }

  lemma MoreWritten(dev: seq<bv8>, bytes: seq<bv8>, at: nat, data: seq<bv8>, w: nat, k: nat)
    requires Written(dev, bytes, at, data, w) && 0 < k && w + k <= |data| && at + w + k <= |dev|
    ensures |bytes| == |dev| && Written(dev, Splice(bytes, at + w, data[w..w + k]), at, data, w + k)
  {
    if w == 0 {
      assert data[0..k] == data[..k];
    } else {
      SpliceMore(dev, at, data, w, k);
    }
  }

  lemma SpliceMore(dev: seq<bv8>, at: nat, data: seq<bv8>, w: nat, k: nat)
    requires w + k <= |data| && at + w + k <= |dev|
    ensures Splice(Splice(dev, at, data[..w]), at + w, data[w..w + k]) == Splice(dev, at, data[..w + k])
  {
    SpliceAdjacent(dev, at, data[..w], data[w..w + k]);
    assert data[..w] + data[w..w + k] == data[..w + k];
  }

  /** Writing back the sectors with the chunk in place is writing the chunk. */
  lemma ChunkSplice(dev: seq<bv8>, at: nat, off: nat, len: nat, temp: seq<bv8>, chunk: seq<bv8>)
    requires at + len <= |dev| && off + |chunk| <= len <= |temp|
    requires forall i :: 0 <= i < len ==> temp[i] == if off <= i < off + |chunk| then chunk[i - off] else dev[at + i]
    ensures Splice(dev, at, temp[..len]) == Splice(dev, at + off, chunk)
  {
  }

  /** The sectors of a chunk are on the drive if the bytes that are left are. */
  lemma InDevice(p: nat, n: int, ss: nat, off: nat, left: nat, size: nat)
    requires ss > 0 && Aligned(ss, size)
    ensures n >= 1 && (n - 1) * ss < left && p * ss + off + left <= size ==> p * ss + n * ss <= size
  {
    if n >= 1 && (n - 1) * ss < left && p * ss + off + left <= size {
      hide Aligned;
      var q := AlignedMultiple(ss, size);
      Distribute(p, n - 1, ss);
      Distribute(p, n, ss);
      MulMono(q, p + n - 1, ss);
      MulMono(p + n, q, ss);
    }
  }

  lemma StartOk(ss: nat, sector: nat)
    requires ss > 0 && Aligned(kBytesPerSector, ss)
    ensures var ratio := ss / kBytesPerSector;
            && ratio > 0 && 0 <= sector / ratio && 0 <= (sector % ratio) * kBytesPerSector < ss
            && (sector / ratio) * ss + (sector % ratio) * kBytesPerSector == sector * kBytesPerSector
  {
    var ratio := ss / kBytesPerSector;
    var q := AlignedMultiple(kBytesPerSector, ss);
    hide Aligned;
    var a, b := sector / ratio, sector % ratio;
    DivSplit(sector, ratio);
    BySector(a, ratio);
  }

  lemma BySector(a: int, ratio: int)
    ensures a * (ratio * 512) == (a * ratio) * 512
  {
  }
}
