/** What the block cache stores, the flat byte array it stands for, and the
    invariant that ties the two together (src/fsck_hfs/cache.c, cache.h). */
module CacheCore {
  import opened Bytes
  import opened Lists
  import opened Blocks

  /** Tag_t without its list links; `buffer` is a block of cache memory, or -1. */
  datatype Tag = Tag(offset: nat, refs: nat, lazy: bool, lock: bool, buffer: int)

  /** A block of cache memory.  The free list runs through the free blocks
      themselves, so threading a block onto it destroys the bytes it held. */
  datatype Block = Free(link: int) | Data(bytes: seq<Byte>)

  /** Buf_t: a direct buffer is a window into cache memory `block`; a spanning
      buffer owns its `bytes`. */
  datatype Buf = Buf(offset: nat, length: nat, span: bool, block: nat, bytes: seq<Byte>)

  type Tags = map<Ptr, Tag>
  type Index = map<nat, Ptr>
  type Bufs = map<nat, Buf>
  type Holds = set<(nat, nat)>

  ghost predicate Covers(bs: nat, f: Buf, o: nat)
    requires bs > 0
  {
    Aligned(bs, o) && o < f.offset + f.length && f.offset < o + bs
  }

  ghost predicate Within(f: Buf, x: int) {
    f.offset <= x < f.offset + f.length
  }

  ghost predicate Apart(f: Buf, g: Buf) {
    f.offset + f.length <= g.offset || g.offset + g.length <= f.offset
  }

  /** The client has stored into byte `x` of cache memory and not yet written it. */
  ghost predicate Dirty(bufs: Bufs, touched: set<nat>, x: int) {
    exists b :: b in touched && b in bufs && !bufs[b].span && Within(bufs[b], x)
  }

  ghost predicate Buffered(tags: Tags, index: Index, o: nat) {
    o in index && index[o] in tags && tags[index[o]].buffer >= 0
  }

  /** Each offset has at most one tag. */
  ghost predicate IndexOk(tags: Tags, index: Index) {
    && (forall t :: t in tags ==> tags[t].offset in index && index[tags[t].offset] == t)
    && (forall o :: o in index ==> index[o] in tags && tags[index[o]].offset == o)
  }

  /** Each tag's buffer is a block of its own, full of data. */
  ghost predicate MemOk(bs: nat, tags: Tags, mem: seq<Block>, owner: map<int, Ptr>, size: nat)
    requires bs > 0
  {
    && (forall t :: t in tags && tags[t].buffer >= 0 ==>
          && tags[t].buffer < |mem| && mem[tags[t].buffer].Data? && |mem[tags[t].buffer].bytes| == bs
          && tags[t].offset + bs <= size)
    && (forall t :: t in tags ==> Aligned(bs, tags[t].offset))
    && (forall t :: t in tags && tags[t].buffer >= 0 ==> tags[t].buffer in owner && owner[tags[t].buffer] == t)
  }

  /** Where the client is not at work, `bytes` are the logical bytes at `o`. */
  ghost predicate Agrees(bytes: seq<Byte>, o: nat, logical: seq<Byte>, bufs: Bufs, touched: set<nat>)
    requires o + |bytes| <= |logical|
  {
    forall x :: o <= x < o + |bytes| && !Dirty(bufs, touched, x) ==> bytes[x - o] == logical[x]
  }

  /** The references held on block `o`. */
  ghost function HeldAt(holds: Holds, o: nat): set<(nat, nat)> {
    set p | p in holds && p.1 == o
  }

  /** A never-locked tag counts its holders; a locked tag counts at least one more. */
  ghost predicate RefsOk(g: Tag, holds: Holds) {
    if g.lock then g.refs > |HeldAt(holds, g.offset)| else g.refs == |HeldAt(holds, g.offset)|
  }

  ghost predicate HoldsOk(tags: Tags, index: Index, holds: Holds) {
    && (forall p :: p in holds ==> Buffered(tags, index, p.1))
    && (forall t :: t in tags ==> RefsOk(tags[t], holds))
  }

  /** The cache without its linked lists.  `index` finds the tag of an offset and
      `owner` the tag of a memory block; `logical` is the flat byte array the
      client sees, `touched` the buffers the client has stored into, and `holds`
      the pairs (buffer, block offset) whose reference is counted in some tag. */
  datatype Core = Core(
    bs: nat,
    tags: Tags,
    index: Index,
    mem: seq<Block>,
    owner: map<int, Ptr>,
    device: seq<Byte>,
    logical: seq<Byte>,
    bufs: Bufs,
    touched: set<nat>,
    holds: Holds)
  {
    ghost predicate Shape() {
      bs > 0 && |logical| == |device| && IndexOk(tags, index) && MemOk(bs, tags, mem, owner, |device|)
    }

    ghost predicate DeviceAgrees(o: nat)
      requires |logical| == |device| && o + bs <= |device|
    {
      Agrees(device[o..o + bs], o, logical, bufs, touched)
    }

    /** Cached bytes are the logical bytes; a block that is not cached, or that is
        cached and clean, is on the device too. */
    ghost predicate BlockOk(o: nat)
      requires Shape() && o + bs <= |device|
    {
      if Buffered(tags, index, o) then
        var g := tags[index[o]];
        && Agrees(mem[g.buffer].bytes, o, logical, bufs, touched)
        && (!g.lazy && !g.lock ==> DeviceAgrees(o))
      else
        DeviceAgrees(o)
    }

    ghost predicate ContentOk()
      requires Shape()
    {
      forall o: nat :: Aligned(bs, o) && o + bs <= |device| ==> BlockOk(o)
    }

    ghost predicate BufOk(b: nat)
      requires bs > 0 && b in bufs
    {
      var f := bufs[b];
      && 0 < f.length && f.offset + f.length <= |logical|
      && (forall o: nat :: Covers(bs, f, o) ==> (b, o) in holds)
      && (!f.span ==> forall o: nat :: Covers(bs, f, o) ==>
            o <= f.offset && f.offset + f.length <= o + bs && Buffered(tags, index, o) && tags[index[o]].buffer == f.block)
      && (f.span ==> |f.bytes| == f.length && Base(bs, f.offset) + bs < f.offset + f.length)
      && (f.span && b !in touched ==> f.bytes == logical[f.offset..f.offset + f.length])
    }

    ghost predicate BufsOk()
      requires bs > 0
    {
      && (forall b :: b in bufs ==> BufOk(b))
      && (forall b, d :: b in bufs && d in bufs && b != d ==> Apart(bufs[b], bufs[d]))
    }

    ghost predicate Inv() {
      Shape() && ContentOk() && BufsOk() && HoldsOk(tags, index, holds)
    }

  }

  ghost predicate WindowOk(bs: nat, mem: seq<Block>, f: Buf)
    requires bs > 0
  {
    f.block < |mem| && mem[f.block].Data? && f.offset - Base(bs, f.offset) + f.length <= |mem[f.block].bytes|
  }

  /** The bytes a client sees in an outstanding buffer. */
  ghost function View(bs: nat, mem: seq<Block>, f: Buf): seq<Byte>
    requires bs > 0
  {
    if f.span then f.bytes
    else if WindowOk(bs, mem, f) then mem[f.block].bytes[f.offset - Base(bs, f.offset)..f.offset - Base(bs, f.offset) + f.length]
    else []
  }

  // ---- The specification: a flat byte array with checked-out ranges ----

  /** A buffer the client holds: where it lies, what the client sees in it, and
      whether the client has stored into it. */
  datatype OpenBuf = OpenBuf(offset: nat, bytes: seq<Byte>, touched: bool)

  datatype Flat = Flat(bytes: seq<Byte>, open: map<nat, OpenBuf>) {
    /** Check out `[off, off + len)` under the handle `b`. */
    ghost function Read(b: nat, off: nat, len: nat): Flat {
      if off + len <= |bytes| then Flat(bytes, open[b := OpenBuf(off, bytes[off..off + len], false)]) else this
    }

    /** The client stores `data` into its buffer; the array is not affected. */
    ghost function Store(b: nat, data: seq<Byte>): Flat {
      if b in open then Flat(bytes, open[b := OpenBuf(open[b].offset, data, true)]) else this
    }

    /** Write the buffer back over exactly its own range. */
    ghost function Write(b: nat): Flat {
      if b in open && open[b].offset + |open[b].bytes| <= |bytes| then
        Flat(Splice(bytes, open[b].offset, open[b].bytes), open - {b})
      else this
    }

    ghost function Release(b: nat): Flat {
      Flat(bytes, open - {b})
    }
  }

  ghost function Abs(c: Core): Flat
    requires c.bs > 0
  {
    Flat(c.logical, map b | b in c.bufs :: OpenBuf(c.bufs[b].offset, View(c.bs, c.mem, c.bufs[b]), b in c.touched))
  }

  // ---- Simple consequences of the invariant ----

  /** A direct buffer lies inside one cached block, and is a window into its memory. */
  lemma DirectBuf(c: Core, b: nat)
    requires c.Inv() && b in c.bufs && !c.bufs[b].span
    ensures WindowOk(c.bs, c.mem, c.bufs[b])
    ensures var f, o := c.bufs[b], Base(c.bs, c.bufs[b].offset);
            && Covers(c.bs, f, o) && Buffered(c.tags, c.index, o) && c.tags[c.index[o]].buffer == f.block
            && f.offset + f.length <= o + c.bs && o + c.bs <= |c.device|
            && |c.mem[f.block].bytes| == c.bs && c.tags[c.index[o]].offset == o
            && (forall p: nat :: Covers(c.bs, f, p) ==> p == o)
  {
    var f, o := c.bufs[b], Base(c.bs, c.bufs[b].offset);
    assert c.BufOk(b) && Covers(c.bs, f, o);
    forall p: nat | Covers(c.bs, f, p) ensures p == o {
      if p < o { BlocksApart(c.bs, p, o); } else if o < p { BlocksApart(c.bs, o, p); }
    }
  }

  /** Bytes of a block that nobody holds are not being changed by the client. */
  lemma UnheldIsNotDirty(c: Core, o: nat, x: nat)
    requires c.Inv() && Aligned(c.bs, o) && o <= x < o + c.bs
    requires forall b: nat :: (b, o) !in c.holds
    ensures !Dirty(c.bufs, c.touched, x)
  {
    forall b | b in c.touched && b in c.bufs ensures !Within(c.bufs[b], x) {
      assert c.BufOk(b);
      assert !Covers(c.bs, c.bufs[b], o);
    }
  }

  /** Nobody else stores into the range of an outstanding buffer. */
  lemma OwnRangeIsNotDirty(c: Core, b: nat, x: nat)
    requires c.Inv() && b in c.bufs && Within(c.bufs[b], x) && (b !in c.touched || c.bufs[b].span)
    ensures !Dirty(c.bufs, c.touched, x)
  {
    forall d | d in c.touched && d in c.bufs && d != b ensures !Within(c.bufs[d], x) {
      assert Apart(c.bufs[b], c.bufs[d]);
    }
  }

  /** One byte of a direct buffer that only its client could have changed. */
  lemma DirectByte(c: Core, b: nat, o: nat, x: nat)
    requires c.Inv() && b in c.bufs && !c.bufs[b].span && b !in c.touched
    requires Buffered(c.tags, c.index, o) && c.tags[c.index[o]].buffer == c.bufs[b].block
    requires o <= x < o + c.bs && Within(c.bufs[b], x)
    ensures c.mem[c.bufs[b].block].bytes[x - o] == c.logical[x]
  {
    OwnRangeIsNotDirty(c, b, x);
    assert c.BlockOk(o);
  }

  /** A client sees in an untouched buffer exactly the logical bytes of its range. */
  lemma UntouchedView(c: Core, b: nat)
    requires c.Inv() && b in c.bufs && b !in c.touched
    ensures c.bufs[b].offset + c.bufs[b].length <= |c.logical|
    ensures View(c.bs, c.mem, c.bufs[b]) == c.logical[c.bufs[b].offset..c.bufs[b].offset + c.bufs[b].length]
  {
    hide Core.ContentOk, HoldsOk, Agrees, MemOk, IndexOk, Aligned, Dirty;
    var f := c.bufs[b];
    assert c.BufOk(b);
    if !f.span {
      DirectBuf(c, b);
      var o := Base(c.bs, f.offset);
      var v := View(c.bs, c.mem, f);
      forall i | 0 <= i < f.length ensures v[i] == c.logical[f.offset + i] {
        DirectByte(c, b, o, f.offset + i);
      }
    }
  }
}
