/** The steps of the block cache, and what each keeps of the invariant. */
module CacheSteps {
  import opened Bytes
  import opened Lists
  import opened Blocks
  import opened CacheCore

  // ---- What a step must leave alone to keep each part of the invariant ----

  /** Every block somebody holds is still cached, in the same memory. */
  ghost predicate HeldKept(c: Core, d: Core) {
    forall p :: p in c.holds && Buffered(c.tags, c.index, p.1) ==>
                  && p in d.holds && Buffered(d.tags, d.index, p.1)
                  && d.tags[d.index[p.1]].buffer == c.tags[c.index[p.1]].buffer
  }

  lemma BufsKept(c: Core, d: Core)
    requires c.bs > 0 && c.BufsOk() && HoldsOk(c.tags, c.index, c.holds)
    requires d.bs == c.bs && d.bufs == c.bufs && d.touched == c.touched && d.logical == c.logical
    requires HeldKept(c, d)
    ensures d.BufsOk()
  {
    forall b | b in d.bufs ensures d.BufOk(b) {
      assert c.BufOk(b);
      forall o: nat | Covers(c.bs, c.bufs[b], o)
        ensures (b, o) in d.holds && (!c.bufs[b].span ==> Buffered(d.tags, d.index, o) && d.tags[d.index[o]].buffer == c.bufs[b].block)
      {
        assert (b, o) in c.holds && Buffered(c.tags, c.index, (b, o).1);
      }
    }
  }

  /** The memory behind every held block is the same. */
  ghost predicate HeldSame(c: Core, d: Core) {
    forall p :: p in c.holds && Buffered(c.tags, c.index, p.1) ==>
                  var k := c.tags[c.index[p.1]].buffer;
                  k < |c.mem| && k < |d.mem| ==> d.mem[k] == c.mem[k]
  }

  lemma AbsKept(c: Core, d: Core)
    requires c.Inv() && d.bs == c.bs && d.bufs == c.bufs && d.touched == c.touched && d.logical == c.logical
    requires |d.mem| == |c.mem| && HeldSame(c, d)
    ensures Abs(d) == Abs(c)
  {
    forall b | b in c.bufs ensures View(d.bs, d.mem, d.bufs[b]) == View(c.bs, c.mem, c.bufs[b]) {
      assert c.BufOk(b);
      if !c.bufs[b].span {
        DirectBuf(c, b);
        assert (b, Base(c.bs, c.bufs[b].offset)) in c.holds;
      }
    }
  }

  /** Nothing that concerns block `o` is different. */
  ghost predicate BlockSame(c: Core, d: Core, o: nat)
    requires c.Shape() && d.Shape() && d.bs == c.bs && |d.device| == |c.device| && o + c.bs <= |c.device|
  {
    && (Buffered(d.tags, d.index, o) <==> Buffered(c.tags, c.index, o))
    && (Buffered(c.tags, c.index, o) ==>
          var g, g' := c.tags[c.index[o]], d.tags[d.index[o]];
          d.mem[g'.buffer] == c.mem[g.buffer] && g'.lazy == g.lazy && g'.lock == g.lock)
    && d.device[o..o + c.bs] == c.device[o..o + c.bs]
    && (forall x :: o <= x < o + c.bs ==> d.logical[x] == c.logical[x])
    && (forall x :: o <= x < o + c.bs && Dirty(c.bufs, c.touched, x) ==> Dirty(d.bufs, d.touched, x))
  }

  lemma BlockKept(c: Core, d: Core, o: nat)
    requires c.Shape() && d.Shape() && d.bs == c.bs && |d.device| == |c.device| && o + c.bs <= |c.device|
    requires BlockSame(c, d, o) && c.BlockOk(o)
    ensures d.BlockOk(o)
  {
    if Buffered(c.tags, c.index, o) {
      var bytes := c.mem[c.tags[c.index[o]].buffer].bytes;
      assert Agrees(bytes, o, c.logical, c.bufs, c.touched);
    }
  }

  /** A step that is local to block `o` keeps the contents of the others. */
  lemma ContentKept(c: Core, d: Core, o: nat)
    requires c.Shape() && c.ContentOk() && d.Shape() && d.bs == c.bs && |d.device| == |c.device|
    requires forall p: nat :: Aligned(c.bs, p) && p + c.bs <= |c.device| && p != o ==> BlockSame(c, d, p)
    requires Aligned(c.bs, o) && o + c.bs <= |c.device| ==> d.BlockOk(o)
    ensures d.ContentOk()
  {
    forall p: nat | Aligned(d.bs, p) && p + d.bs <= |d.device| && p != o ensures d.BlockOk(p) {
      assert c.BlockOk(p);
      BlockKept(c, d, p);
    }
  }

  // ---- A miss: a new tag, then a memory block loaded from the device ----

  ghost predicate NewTag(c: Core, d: Core, t: Ptr, o: nat) {
    && c.bs > 0 && t !in c.tags && o !in c.index && Aligned(c.bs, o)
    && d == c.(tags := c.tags[t := Tag(o, 0, false, false, -1)], index := c.index[o := t])
  }

  lemma NewTagShape(c: Core, d: Core, t: Ptr, o: nat)
    requires c.Shape() && NewTag(c, d, t, o)
    ensures d.Shape()
    ensures forall p: nat :: Buffered(c.tags, c.index, p) <==> Buffered(d.tags, d.index, p)
  {
  }

  lemma NewTagContent(c: Core, d: Core, t: Ptr, o: nat)
    requires c.Shape() && c.ContentOk() && NewTag(c, d, t, o) && d.Shape()
    requires forall p: nat :: Buffered(c.tags, c.index, p) <==> Buffered(d.tags, d.index, p)
    ensures d.ContentOk()
  {
    forall p: nat | Aligned(d.bs, p) && p + d.bs <= |d.device| ensures BlockSame(c, d, p) {}
    if o + d.bs <= |d.device| {
      assert c.BlockOk(o);
      BlockKept(c, d, o);
    }
    ContentKept(c, d, o);
  }

  lemma NewTagOk(c: Core, d: Core, t: Ptr, o: nat)
    requires c.Inv() && NewTag(c, d, t, o)
    ensures d.Inv() && Abs(d) == Abs(c)
  {
    NewTagShape(c, d, t, o);
    NewTagContent(c, d, t, o);
    BufsKept(c, d);
    AbsKept(c, d);
    assert HeldAt(c.holds, o) == {};
  }

  ghost predicate Load(c: Core, d: Core, t: Ptr, k: nat) {
    && c.Shape() && t in c.tags && c.tags[t].buffer < 0
    && k < |c.mem| && (forall u :: u in c.tags ==> c.tags[u].buffer != k)
    && c.tags[t].offset + c.bs <= |c.device|
    && d == c.(tags := c.tags[t := c.tags[t].(buffer := k)],
               mem := c.mem[k := Data(c.device[c.tags[t].offset..c.tags[t].offset + c.bs])],
               owner := c.owner[k := t])
  }

  lemma LoadShape(c: Core, d: Core, t: Ptr, k: nat)
    requires Load(c, d, t, k)
    ensures d.Shape()
    ensures forall p: nat :: Buffered(d.tags, d.index, p) <==> Buffered(c.tags, c.index, p) || p == c.tags[t].offset
    ensures forall u :: u in c.tags && u != t ==> d.tags[u] == c.tags[u] && (c.tags[u].buffer >= 0 ==> d.mem[c.tags[u].buffer] == c.mem[c.tags[u].buffer])
  {
    LoadMem(c, d, t, k);
    hide MemOk;
  }

  lemma LoadMem(c: Core, d: Core, t: Ptr, k: nat)
    requires Load(c, d, t, k)
    ensures MemOk(d.bs, d.tags, d.mem, d.owner, |d.device|)
  {
    hide IndexOk, Aligned;
  }

  lemma LoadContent(c: Core, d: Core, t: Ptr, k: nat)
    requires Load(c, d, t, k) && c.ContentOk() && d.Shape()
    requires forall p: nat :: Buffered(d.tags, d.index, p) <==> Buffered(c.tags, c.index, p) || p == c.tags[t].offset
    requires forall u :: u in c.tags && u != t ==> d.tags[u] == c.tags[u] && (c.tags[u].buffer >= 0 ==> d.mem[c.tags[u].buffer] == c.mem[c.tags[u].buffer])
    ensures d.ContentOk()
  {
    hide MemOk, Agrees, Dirty;
    var o := c.tags[t].offset;
    forall p: nat | Aligned(d.bs, p) && p + d.bs <= |d.device| && p != o ensures BlockSame(c, d, p) {}
    assert Aligned(c.bs, o) by { LoadAligned(c, d, t, k); }
    assert c.BlockOk(o);
    ContentKept(c, d, o);
  }

  lemma LoadAligned(c: Core, d: Core, t: Ptr, k: nat)
    requires Load(c, d, t, k)
    ensures Aligned(c.bs, c.tags[t].offset)
  {
  }

  lemma LoadOk(c: Core, d: Core, t: Ptr, k: nat)
    requires c.Inv() && Load(c, d, t, k)
    ensures d.Inv() && Abs(d) == Abs(c)
  {
    hide Core.ContentOk, Core.BufsOk, Abs;
    LoadShape(c, d, t, k);
    LoadContent(c, d, t, k);
    BufsKept(c, d);
    AbsKept(c, d);
  }

  // ---- Writing a cached block to the device (CacheFlush, CacheFreeBlock) ----

  ghost predicate FlushTag(c: Core, d: Core, t: Ptr) {
    && c.Shape() && t in c.tags && c.tags[t].buffer >= 0
    && d == c.(tags := c.tags[t := c.tags[t].(lazy := false)],
               device := Splice(c.device, c.tags[t].offset, c.mem[c.tags[t].buffer].bytes))
  }

  lemma FlushTagShape(c: Core, d: Core, t: Ptr)
    requires FlushTag(c, d, t)
    ensures d.Shape()
    ensures forall p: nat :: Buffered(d.tags, d.index, p) <==> Buffered(c.tags, c.index, p)
  {
  }

  /** Writing one block of the device leaves the other blocks alone. */
  lemma OtherBlock(bs: nat, dev: seq<Byte>, o: nat, data: seq<Byte>, p: nat)
    requires bs > 0 && |data| == bs && Aligned(bs, o) && Aligned(bs, p) && p != o
    requires o + bs <= |dev| && p + bs <= |dev|
    ensures Splice(dev, o, data)[p..p + bs] == dev[p..p + bs]
    ensures Splice(dev, o, data)[o..o + bs] == data
  {
    if p < o { BlocksApart(bs, p, o); } else { BlocksApart(bs, o, p); }
  }

  lemma FlushTagContent(c: Core, d: Core, t: Ptr)
    requires FlushTag(c, d, t) && c.ContentOk() && d.Shape()
    requires forall p: nat :: Buffered(d.tags, d.index, p) <==> Buffered(c.tags, c.index, p)
    ensures d.ContentOk()
  {
    hide BlockSame, Core.BlockOk;
    var o := c.tags[t].offset;
    forall p: nat | Aligned(d.bs, p) && p + d.bs <= |d.device| && p != o ensures BlockSame(c, d, p) {
      FlushTagOther(c, d, t, p);
    }
    FlushTagBlock(c, d, t);
    ContentKept(c, d, o);
  }

  lemma FlushTagOther(c: Core, d: Core, t: Ptr, p: nat)
    requires FlushTag(c, d, t) && d.Shape() && Aligned(d.bs, p) && p + d.bs <= |d.device| && p != c.tags[t].offset
    requires Buffered(d.tags, d.index, p) <==> Buffered(c.tags, c.index, p)
    ensures BlockSame(c, d, p)
  {
    OtherBlock(c.bs, c.device, c.tags[t].offset, c.mem[c.tags[t].buffer].bytes, p);
  }

  lemma FlushTagBlock(c: Core, d: Core, t: Ptr)
    requires FlushTag(c, d, t) && c.ContentOk() && d.Shape()
    ensures d.BlockOk(c.tags[t].offset)
  {
    var o := c.tags[t].offset;
    assert c.BlockOk(o);
    assert d.device[o..o + c.bs] == c.mem[c.tags[t].buffer].bytes;
  }

  /** The logical contents do not change when a cached block is written out. */
  lemma FlushTagOk(c: Core, d: Core, t: Ptr)
    requires c.Inv() && FlushTag(c, d, t)
    ensures d.Inv() && Abs(d) == Abs(c)
  {
    hide Core.ContentOk, Core.BufsOk, Abs;
    FlushTagShape(c, d, t);
    FlushTagContent(c, d, t);
    BufsKept(c, d);
    AbsKept(c, d);
  }

  // ---- Evicting a clean tag that nobody holds (LRUEvict, CacheRemove) ----

  ghost predicate Drop(c: Core, d: Core, t: Ptr, link: int) {
    && c.Shape() && t in c.tags && c.tags[t].buffer >= 0
    && c.tags[t].refs == 0 && !c.tags[t].lazy
    && d == c.(tags := c.tags - {t}, index := c.index - {c.tags[t].offset}, mem := c.mem[c.tags[t].buffer := Free(link)])
  }

  lemma DropShape(c: Core, d: Core, t: Ptr, link: int)
    requires Drop(c, d, t, link)
    ensures d.Shape()
    ensures forall p: nat :: Buffered(d.tags, d.index, p) <==> Buffered(c.tags, c.index, p) && p != c.tags[t].offset
    ensures forall u :: u in d.tags && d.tags[u].buffer >= 0 ==> d.mem[d.tags[u].buffer] == c.mem[c.tags[u].buffer]
  {
  }

  lemma DropContent(c: Core, d: Core, t: Ptr, link: int)
    requires Drop(c, d, t, link) && c.ContentOk() && d.Shape() && !c.tags[t].lock
    requires forall p: nat :: Buffered(d.tags, d.index, p) <==> Buffered(c.tags, c.index, p) && p != c.tags[t].offset
    requires forall u :: u in d.tags && d.tags[u].buffer >= 0 ==> d.mem[d.tags[u].buffer] == c.mem[c.tags[u].buffer]
    ensures d.ContentOk()
  {
    var o := c.tags[t].offset;
    forall p: nat | Aligned(d.bs, p) && p + d.bs <= |d.device| && p != o ensures BlockSame(c, d, p) {}
    assert c.BlockOk(o);
    ContentKept(c, d, o);
  }

  /** A tag without references is neither locked nor under an outstanding buffer. */
  lemma UnreferencedIsUnheld(tags: Tags, index: Index, holds: Holds, t: Ptr)
    requires HoldsOk(tags, index, holds) && t in tags && tags[t].refs == 0
    ensures !tags[t].lock
    ensures forall p :: p in holds ==> p.1 != tags[t].offset
  {
    assert RefsOk(tags[t], holds);
    assert HeldAt(holds, tags[t].offset) == {};
    forall p | p in holds ensures p.1 != tags[t].offset {
      assert p !in HeldAt(holds, tags[t].offset);
    }
  }

  lemma DropOk(c: Core, d: Core, t: Ptr, link: int)
    requires c.Inv() && Drop(c, d, t, link)
    ensures d.Inv() && Abs(d) == Abs(c)
  {
    UnreferencedIsUnheld(c.tags, c.index, c.holds, t);
    DropShape(c, d, t, link);
    DropContent(c, d, t, link);
    BufsKept(c, d);
    AbsKept(c, d);
  }

  // ---- Taking and dropping a reference ----

  lemma HeldPlus(holds: Holds, b: nat, o: nat)
    requires (b, o) !in holds
    ensures |HeldAt(holds + {(b, o)}, o)| == |HeldAt(holds, o)| + 1
    ensures forall p: nat :: p != o ==> HeldAt(holds + {(b, o)}, p) == HeldAt(holds, p)
  {
    assert HeldAt(holds + {(b, o)}, o) == HeldAt(holds, o) + {(b, o)};
  }

  lemma HeldMinus(holds: Holds, b: nat, o: nat)
    requires (b, o) in holds
    ensures |HeldAt(holds - {(b, o)}, o)| == |HeldAt(holds, o)| - 1
    ensures forall p: nat :: p != o ==> HeldAt(holds - {(b, o)}, p) == HeldAt(holds, p)
  {
    assert HeldAt(holds, o) == HeldAt(holds - {(b, o)}, o) + {(b, o)};
  }

  ghost predicate AddRef(c: Core, d: Core, b: nat, t: Ptr) {
    && c.Shape() && t in c.tags && c.tags[t].buffer >= 0 && (b, c.tags[t].offset) !in c.holds
    && d == c.(tags := c.tags[t := c.tags[t].(refs := c.tags[t].refs + 1)], holds := c.holds + {(b, c.tags[t].offset)})
  }

  lemma AddRefShape(c: Core, d: Core, b: nat, t: Ptr)
    requires AddRef(c, d, b, t)
    ensures d.Shape()
    ensures forall p: nat :: Buffered(d.tags, d.index, p) <==> Buffered(c.tags, c.index, p)
  {
  }

  lemma RefsContent(c: Core, d: Core, t: Ptr, refs: nat, holds: Holds)
    requires c.Shape() && c.ContentOk() && t in c.tags
    requires d == c.(tags := c.tags[t := c.tags[t].(refs := refs)], holds := holds) && d.Shape()
    requires forall p: nat :: Buffered(d.tags, d.index, p) <==> Buffered(c.tags, c.index, p)
    ensures d.ContentOk()
  {
    var o := c.tags[t].offset;
    forall p: nat | Aligned(d.bs, p) && p + d.bs <= |d.device| ensures BlockSame(c, d, p) {}
    if o + c.bs <= |c.device| {
      assert c.BlockOk(o);
      BlockKept(c, d, o);
    }
    ContentKept(c, d, o);
  }

  lemma AddRefHolds(c: Core, d: Core, b: nat, t: Ptr)
    requires AddRef(c, d, b, t) && HoldsOk(c.tags, c.index, c.holds)
    requires forall p: nat :: Buffered(c.tags, c.index, p) ==> Buffered(d.tags, d.index, p)
    ensures HoldsOk(d.tags, d.index, d.holds)
  {
    hide MemOk;
    HeldPlus(c.holds, b, c.tags[t].offset);
    forall u | u in d.tags ensures RefsOk(d.tags[u], d.holds) {
      assert RefsOk(c.tags[u], c.holds);
      assert u != t ==> c.tags[u].offset != c.tags[t].offset;
    }
    assert Buffered(c.tags, c.index, c.tags[t].offset);
  }

  lemma AddRefOk(c: Core, d: Core, b: nat, t: Ptr)
    requires c.Inv() && AddRef(c, d, b, t)
    ensures d.Inv() && Abs(d) == Abs(c)
  {
    hide Core.ContentOk, Core.BufsOk, Abs, HoldsOk;
    AddRefShape(c, d, b, t);
    RefsContent(c, d, t, c.tags[t].refs + 1, d.holds);
    BufsKept(c, d);
    AbsKept(c, d);
    AddRefHolds(c, d, b, t);
  }

  /** CacheRelease drops a reference, unless the tag is locked. */
  ghost predicate SubRef(c: Core, d: Core, b: nat, t: Ptr) {
    && c.Shape() && t in c.tags && c.tags[t].buffer >= 0 && (b, c.tags[t].offset) in c.holds && b !in c.bufs
    && (c.tags[t].lock || c.tags[t].refs > 0)
    && d == c.(tags := c.tags[t := c.tags[t].(refs := if c.tags[t].lock then c.tags[t].refs else c.tags[t].refs - 1)],
               holds := c.holds - {(b, c.tags[t].offset)})
  }

  lemma SubRefShape(c: Core, d: Core, b: nat, t: Ptr)
    requires SubRef(c, d, b, t)
    ensures d.Shape()
    ensures forall p: nat :: Buffered(d.tags, d.index, p) <==> Buffered(c.tags, c.index, p)
  {
  }

  /** The holds of the buffers still outstanding are the same. */
  lemma BufsKeptWithout(c: Core, d: Core, b: nat, o: nat)
    requires c.bs > 0 && c.BufsOk() && HoldsOk(c.tags, c.index, c.holds) && b !in c.bufs
    requires d.bs == c.bs && d.bufs == c.bufs && d.touched == c.touched && d.logical == c.logical
    requires d.holds == c.holds - {(b, o)}
    requires forall p: nat :: Buffered(c.tags, c.index, p) ==>
               Buffered(d.tags, d.index, p) && d.tags[d.index[p]].buffer == c.tags[c.index[p]].buffer
    ensures d.BufsOk()
  {
    forall e | e in d.bufs ensures d.BufOk(e) {
      assert c.BufOk(e);
      forall p: nat | Covers(c.bs, c.bufs[e], p) ensures (e, p) in d.holds {
        assert (e, p) in c.holds;
      }
    }
  }

  lemma SubRefOk(c: Core, d: Core, b: nat, t: Ptr)
    requires c.Inv() && SubRef(c, d, b, t)
    ensures d.Inv() && Abs(d) == Abs(c)
  {
    hide Core.ContentOk, Core.BufsOk, Abs;
    SubRefShape(c, d, b, t);
    RefsContent(c, d, t, d.tags[t].refs, d.holds);
    BufsKeptWithout(c, d, b, c.tags[t].offset);
    AbsKept(c, d);
    HeldMinus(c.holds, b, c.tags[t].offset);
    assert RefsOk(c.tags[t], c.holds);
  }

  // ---- Handing out a buffer, and taking back one that was not stored into ----

  ghost predicate AddBuf(c: Core, d: Core, b: nat, f: Buf) {
    && c.Shape() && b !in c.bufs && b !in c.touched
    && d == c.(bufs := c.bufs[b := f])
    && d.BufOk(b)
    && (forall e :: e in c.bufs ==> Apart(c.bufs[e], f))
  }

  lemma DirtySubset(bufs: Bufs, touched: set<nat>, bufs': Bufs, touched': set<nat>, x: nat)
    requires Dirty(bufs, touched, x)
    requires forall b :: b in touched && b in bufs && !bufs[b].span ==> b in touched' && b in bufs' && bufs'[b] == bufs[b]
    ensures Dirty(bufs', touched', x)
  {
    var b :| b in touched && b in bufs && !bufs[b].span && Within(bufs[b], x);
    assert b in touched' && b in bufs' && !bufs'[b].span && Within(bufs'[b], x);
  }

  lemma BufsContent(c: Core, d: Core)
    requires c.Shape() && c.ContentOk()
    requires d == c.(bufs := d.bufs, touched := d.touched)
    requires forall b :: b in c.touched && b in c.bufs && !c.bufs[b].span ==> b in d.touched && b in d.bufs && d.bufs[b] == c.bufs[b]
    ensures d.Shape() && d.ContentOk()
  {
    forall p: nat | Aligned(d.bs, p) && p + d.bs <= |d.device| ensures d.BlockOk(p) {
      assert c.BlockOk(p);
      forall x | p <= x < p + c.bs && Dirty(c.bufs, c.touched, x) ensures Dirty(d.bufs, d.touched, x) {
        DirtySubset(c.bufs, c.touched, d.bufs, d.touched, x);
      }
      BlockKept(c, d, p);
    }
  }

  lemma AddBufInv(c: Core, d: Core, b: nat, f: Buf)
    requires c.Inv() && AddBuf(c, d, b, f)
    ensures d.Inv()
  {
    hide Core.ContentOk, HoldsOk, Core.BufsOk, Core.BufOk;
    BufsContent(c, d);
    AddBufBufs(c, d, b, f);
  }

  lemma AddBufBufs(c: Core, d: Core, b: nat, f: Buf)
    requires c.bs > 0 && c.BufsOk() && b !in c.bufs && d == c.(bufs := c.bufs[b := f]) && d.BufOk(b)
    requires forall e :: e in c.bufs ==> Apart(c.bufs[e], f)
    ensures d.BufsOk()
  {
    hide Core.BufOk, Apart;
    forall e | e in d.bufs ensures d.BufOk(e) {
      if e != b { BufUnmoved(c, d, e); }
    }
    forall e, e' | e in d.bufs && e' in d.bufs && e != e' ensures Apart(d.bufs[e], d.bufs[e']) {
      if e' == b { assert Apart(c.bufs[e], f); } else if e == b { assert Apart(c.bufs[e'], f); ApartSymmetric(c.bufs[e'], f); }
    }
  }

  lemma ApartSymmetric(f: Buf, g: Buf)
    requires Apart(f, g)
    ensures Apart(g, f)
  {
  }

  lemma BufUnmoved(c: Core, d: Core, e: nat)
    requires c.bs > 0 && e in c.bufs && e in d.bufs && d.bufs[e] == c.bufs[e] && d == c.(bufs := d.bufs) && c.BufOk(e)
    ensures d.BufOk(e)
  {
  }

  lemma AbsPlus(c: Core, d: Core, b: nat)
    requires c.bs > 0 && b !in c.bufs && b !in c.touched && b in d.bufs && d == c.(bufs := c.bufs[b := d.bufs[b]])
    ensures Abs(d) == Flat(c.logical, Abs(c).open[b := OpenBuf(d.bufs[b].offset, View(d.bs, d.mem, d.bufs[b]), false)])
  {
    var m, m' := Abs(c).open[b := OpenBuf(d.bufs[b].offset, View(d.bs, d.mem, d.bufs[b]), false)], Abs(d).open;
    assert forall e :: e in c.bufs ==> d.bufs[e] == c.bufs[e];
    assert m.Keys == m'.Keys;
  }

  lemma AddBufOk(c: Core, d: Core, b: nat, f: Buf)
    requires c.Inv() && AddBuf(c, d, b, f)
    ensures d.Inv() && f.offset + f.length <= |c.logical| && Abs(d) == Abs(c).Read(b, f.offset, f.length)
  {
    hide Core.ContentOk, Core.BufsOk, HoldsOk, MemOk, IndexOk, View;
    AddBufInv(c, d, b, f);
    UntouchedView(d, b);
    AbsPlus(c, d, b);
  }

  /** CacheRelease of an untouched buffer, or the start of a spanning CacheWrite. */
  ghost predicate RemoveBuf(c: Core, d: Core, b: nat) {
    && c.Shape() && b in c.bufs && (b !in c.touched || c.bufs[b].span)
    && d == c.(bufs := c.bufs - {b}, touched := c.touched - {b})
  }

  lemma RemoveBufBufs(c: Core, d: Core, b: nat)
    requires c.bs > 0 && c.BufsOk() && d == c.(bufs := c.bufs - {b}, touched := c.touched - {b})
    ensures d.BufsOk()
  {
    forall e | e in d.bufs ensures d.BufOk(e) {
      assert c.BufOk(e);
    }
  }

  lemma RemoveBufOk(c: Core, d: Core, b: nat)
    requires c.Inv() && RemoveBuf(c, d, b)
    ensures d.Inv() && Abs(d) == Abs(c).Release(b)
  {
    hide View, Core.BufsOk, HoldsOk;
    BufsContent(c, d);
    RemoveBufBufs(c, d, b);
    AbsMinus(c, d, b);
  }

  // ---- CacheWrite: one block's share of a buffer is committed ----

  /** The step for the block of tag `t`: `chunk` goes to `[at, at + |chunk|)`, the
      block is flagged (or written out), and the reference of `b` is dropped
      (or, for a locking write, left behind). */
  ghost predicate Commit(c: Core, d: Core, b: nat, t: Ptr, at: nat, chunk: seq<Byte>, lazy: bool, lock: bool) {
    && c.Shape() && t in c.tags && c.tags[t].buffer >= 0 && c.tags[t].refs > 0
    && var g := c.tags[t];
    && g.offset <= at && at + |chunk| <= g.offset + c.bs
    && (b, g.offset) in c.holds
    && var bytes := Splice(c.mem[g.buffer].bytes, at - g.offset, chunk);
    && d == c.(tags := c.tags[t := Tag(g.offset, if lock then g.refs else g.refs - 1, g.lazy || lazy, g.lock || lock, g.buffer)],
               mem := c.mem[g.buffer := Data(bytes)],
               device := if lazy || lock then c.device else Splice(c.device, g.offset, bytes),
               logical := Splice(c.logical, at, chunk),
               bufs := c.bufs - {b}, touched := c.touched - {b}, holds := c.holds - {(b, g.offset)})
  }

  /** The chunk is the whole of the direct buffer `b`, or `b` is no longer
      outstanding; no other buffer overlaps it. */
  ghost predicate OwnChunk(c: Core, b: nat, at: nat, len: nat) {
    && (b in c.bufs ==> !c.bufs[b].span && c.bufs[b].offset == at && c.bufs[b].length == len)
    && (forall e :: e in c.bufs && e != b ==> c.bufs[e].offset + c.bufs[e].length <= at || at + len <= c.bufs[e].offset)
  }

  lemma CommitShape(c: Core, d: Core, b: nat, t: Ptr, at: nat, chunk: seq<Byte>, lazy: bool, lock: bool)
    requires Commit(c, d, b, t, at, chunk, lazy, lock)
    ensures d.Shape()
    ensures forall p: nat :: Buffered(c.tags, c.index, p) ==>
              Buffered(d.tags, d.index, p) && d.tags[d.index[p]].buffer == c.tags[c.index[p]].buffer
    ensures forall p: nat :: Buffered(d.tags, d.index, p) ==> Buffered(c.tags, c.index, p)
  {
  }

  /** Outside the chunk the client is still at work wherever it was. */
  lemma CommitDirty(c: Core, d: Core, b: nat, t: Ptr, at: nat, chunk: seq<Byte>, lazy: bool, lock: bool, x: nat)
    requires Commit(c, d, b, t, at, chunk, lazy, lock) && OwnChunk(c, b, at, |chunk|)
    requires Dirty(c.bufs, c.touched, x) && !(at <= x < at + |chunk|)
    ensures Dirty(d.bufs, d.touched, x)
  {
    var e :| e in c.touched && e in c.bufs && !c.bufs[e].span && Within(c.bufs[e], x);
    assert e != b;
    assert e in d.touched && e in d.bufs && !d.bufs[e].span && Within(d.bufs[e], x);
  }

  lemma CommitBlock(c: Core, d: Core, b: nat, t: Ptr, at: nat, chunk: seq<Byte>, lazy: bool, lock: bool)
    requires Commit(c, d, b, t, at, chunk, lazy, lock) && OwnChunk(c, b, at, |chunk|)
    requires d.Shape() && c.BlockOk(c.tags[t].offset)
    ensures d.BlockOk(c.tags[t].offset)
  {
    var o := c.tags[t].offset;
    var old_, bytes := c.mem[c.tags[t].buffer].bytes, d.mem[c.tags[t].buffer].bytes;
    assert Buffered(c.tags, c.index, o) && Agrees(old_, o, c.logical, c.bufs, c.touched);
    forall x | o <= x < o + c.bs && !Dirty(d.bufs, d.touched, x) ensures bytes[x - o] == d.logical[x] {
      if !(at <= x < at + |chunk|) {
        if Dirty(c.bufs, c.touched, x) { CommitDirty(c, d, b, t, at, chunk, lazy, lock, x); }
        assert old_[x - o] == c.logical[x];
      }
    }
    assert Agrees(bytes, o, d.logical, d.bufs, d.touched);
    assert !lazy && !lock ==> d.device[o..o + c.bs] == bytes;
  }

  lemma CommitOther(c: Core, d: Core, b: nat, t: Ptr, at: nat, chunk: seq<Byte>, lazy: bool, lock: bool, p: nat)
    requires Commit(c, d, b, t, at, chunk, lazy, lock) && OwnChunk(c, b, at, |chunk|) && d.Shape()
    requires Aligned(c.bs, p) && p + c.bs <= |c.device| && p != c.tags[t].offset
    ensures BlockSame(c, d, p)
  {
    var o := c.tags[t].offset;
    CommitOtherBytes(c, d, b, t, at, chunk, lazy, lock, p);
    forall x | p <= x < p + c.bs && Dirty(c.bufs, c.touched, x) ensures Dirty(d.bufs, d.touched, x) {
      CommitDirty(c, d, b, t, at, chunk, lazy, lock, x);
    }
    CommitOtherTag(c, d, b, t, at, chunk, lazy, lock, p);
  }

  lemma CommitOtherTag(c: Core, d: Core, b: nat, t: Ptr, at: nat, chunk: seq<Byte>, lazy: bool, lock: bool, p: nat)
    requires Commit(c, d, b, t, at, chunk, lazy, lock) && p != c.tags[t].offset
    ensures Buffered(d.tags, d.index, p) <==> Buffered(c.tags, c.index, p)
    ensures Buffered(c.tags, c.index, p) ==>
              d.tags[d.index[p]] == c.tags[c.index[p]] && d.mem[c.tags[c.index[p]].buffer] == c.mem[c.tags[c.index[p]].buffer]
  {
    if p in c.index {
      assert c.index[p] in c.tags && c.index[p] != t;
    }
  }

  lemma CommitOtherBytes(c: Core, d: Core, b: nat, t: Ptr, at: nat, chunk: seq<Byte>, lazy: bool, lock: bool, p: nat)
    requires Commit(c, d, b, t, at, chunk, lazy, lock)
    requires Aligned(c.bs, p) && p + c.bs <= |c.device| && p != c.tags[t].offset
    ensures |d.device| == |c.device| && d.device[p..p + c.bs] == c.device[p..p + c.bs]
    ensures p + c.bs <= at || at + |chunk| <= p
    ensures forall x :: p <= x < p + c.bs ==> d.logical[x] == c.logical[x]
  {
    var o := c.tags[t].offset;
    OtherBlock(c.bs, c.device, o, d.mem[c.tags[t].buffer].bytes, p);
    if p < o { BlocksApart(c.bs, p, o); } else { BlocksApart(c.bs, o, p); }
  }

  lemma CommitContent(c: Core, d: Core, b: nat, t: Ptr, at: nat, chunk: seq<Byte>, lazy: bool, lock: bool)
    requires Commit(c, d, b, t, at, chunk, lazy, lock) && OwnChunk(c, b, at, |chunk|)
    requires d.Shape() && c.ContentOk()
    ensures d.ContentOk()
  {
    var o := c.tags[t].offset;
    assert c.BlockOk(o);
    CommitBlock(c, d, b, t, at, chunk, lazy, lock);
    forall p: nat | Aligned(c.bs, p) && p + c.bs <= |c.device| && p != o ensures BlockSame(c, d, p) {
      CommitOther(c, d, b, t, at, chunk, lazy, lock, p);
    }
    ContentKept(c, d, o);
  }

  lemma CommitBuf(c: Core, d: Core, b: nat, o: nat, at: nat, chunk: seq<Byte>, e: nat)
    requires c.bs > 0 && e in c.bufs && e != b && c.BufOk(e) && OwnChunk(c, b, at, |chunk|) && at + |chunk| <= |c.logical|
    requires d.bs == c.bs && d.bufs == c.bufs - {b} && d.touched == c.touched - {b} && d.holds == c.holds - {(b, o)}
    requires d.logical == Splice(c.logical, at, chunk)
    requires forall p: nat :: Buffered(c.tags, c.index, p) ==>
               Buffered(d.tags, d.index, p) && d.tags[d.index[p]].buffer == c.tags[c.index[p]].buffer
    ensures d.BufOk(e)
  {
    var f := c.bufs[e];
    forall p: nat | Covers(c.bs, f, p) ensures (e, p) in d.holds {
      assert (e, p) in c.holds;
    }
    assert d.logical[f.offset..f.offset + f.length] == c.logical[f.offset..f.offset + f.length];
  }

  lemma CommitBufs(c: Core, d: Core, b: nat, t: Ptr, at: nat, chunk: seq<Byte>, lazy: bool, lock: bool)
    requires Commit(c, d, b, t, at, chunk, lazy, lock) && OwnChunk(c, b, at, |chunk|)
    requires c.BufsOk()
    requires forall p: nat :: Buffered(c.tags, c.index, p) ==>
               Buffered(d.tags, d.index, p) && d.tags[d.index[p]].buffer == c.tags[c.index[p]].buffer
    ensures d.BufsOk()
  {
    forall e | e in d.bufs ensures d.BufOk(e) {
      CommitBuf(c, d, b, c.tags[t].offset, at, chunk, e);
    }
  }

  lemma CommitHolds(c: Core, d: Core, b: nat, t: Ptr, at: nat, chunk: seq<Byte>, lazy: bool, lock: bool)
    requires Commit(c, d, b, t, at, chunk, lazy, lock) && HoldsOk(c.tags, c.index, c.holds)
    requires forall p: nat :: Buffered(c.tags, c.index, p) ==> Buffered(d.tags, d.index, p)
    ensures HoldsOk(d.tags, d.index, d.holds)
  {
    HeldMinus(c.holds, b, c.tags[t].offset);
    assert RefsOk(c.tags[t], c.holds);
    forall u | u in d.tags ensures RefsOk(d.tags[u], d.holds) {
      if u != t {
        assert RefsOk(c.tags[u], c.holds);
        assert c.tags[u].offset != c.tags[t].offset;
      }
    }
  }

  /** Splicing into one block changes no window that lies elsewhere. */
  lemma WindowKept(bs: nat, mem: seq<Block>, f: Buf, k: nat, o: nat, at: nat, chunk: seq<Byte>)
    requires bs > 0 && !f.span && WindowOk(bs, mem, f)
    requires k < |mem| && mem[k].Data? && |mem[k].bytes| == bs && o <= at && at + |chunk| <= o + bs
    requires f.block == k ==> Base(bs, f.offset) == o
    requires f.offset + f.length <= at || at + |chunk| <= f.offset
    ensures View(bs, mem[k := Data(Splice(mem[k].bytes, at - o, chunk))], f) == View(bs, mem, f)
  {
    var mem' := mem[k := Data(Splice(mem[k].bytes, at - o, chunk))];
    if f.block == k {
      var v, v' := View(bs, mem, f), View(bs, mem', f);
      assert |v'| == |v|;
      forall i | 0 <= i < |v| ensures v'[i] == v[i] {}
    }
  }

  /** Another buffer still shows its client the same bytes. */
  lemma OtherView(c: Core, t: Ptr, at: nat, chunk: seq<Byte>, e: nat)
    requires c.Inv() && t in c.tags && c.tags[t].buffer >= 0
    requires c.tags[t].offset <= at && at + |chunk| <= c.tags[t].offset + c.bs
    requires e in c.bufs && (c.bufs[e].offset + c.bufs[e].length <= at || at + |chunk| <= c.bufs[e].offset)
    ensures var k, o := c.tags[t].buffer, c.tags[t].offset;
            View(c.bs, c.mem[k := Data(Splice(c.mem[k].bytes, at - o, chunk))], c.bufs[e]) == View(c.bs, c.mem, c.bufs[e])
  {
    var f := c.bufs[e];
    if !f.span {
      DirectBuf(c, e);
      WindowKept(c.bs, c.mem, f, c.tags[t].buffer, c.tags[t].offset, at, chunk);
    }
  }

  lemma AbsMinus(c: Core, d: Core, b: nat)
    requires c.bs > 0 && d.bs == c.bs && d.bufs == c.bufs - {b} && d.touched == c.touched - {b}
    requires forall e :: e in d.bufs ==> View(d.bs, d.mem, d.bufs[e]) == View(c.bs, c.mem, c.bufs[e])
    ensures Abs(d) == Flat(d.logical, Abs(c).open - {b})
  {
    var m, m' := Abs(c).open - {b}, Abs(d).open;
    assert m.Keys == m'.Keys;
  }

  /** A committed chunk changes exactly its own bytes of the flat array. */
  lemma CommitOk(c: Core, d: Core, b: nat, t: Ptr, at: nat, chunk: seq<Byte>, lazy: bool, lock: bool)
    requires c.Inv() && Commit(c, d, b, t, at, chunk, lazy, lock) && OwnChunk(c, b, at, |chunk|)
    ensures d.Inv() && at + |chunk| <= |c.logical|
    ensures Abs(d) == Flat(Splice(c.logical, at, chunk), Abs(c).open - {b})
  {
    CommitShape(c, d, b, t, at, chunk, lazy, lock);
    CommitContent(c, d, b, t, at, chunk, lazy, lock);
    CommitBufs(c, d, b, t, at, chunk, lazy, lock);
    CommitHolds(c, d, b, t, at, chunk, lazy, lock);
    CommitAbs(c, d, b, t, at, chunk, lazy, lock);
  }

  lemma CommitAbs(c: Core, d: Core, b: nat, t: Ptr, at: nat, chunk: seq<Byte>, lazy: bool, lock: bool)
    requires c.Inv() && Commit(c, d, b, t, at, chunk, lazy, lock) && OwnChunk(c, b, at, |chunk|)
    ensures at + |chunk| <= |c.logical| && Abs(d) == Flat(Splice(c.logical, at, chunk), Abs(c).open - {b})
  {
    forall e | e in d.bufs ensures View(d.bs, d.mem, d.bufs[e]) == View(c.bs, c.mem, c.bufs[e]) {
      OtherView(c, t, at, chunk, e);
    }
    AbsMinus(c, d, b);
  }

  // ---- The client stores into a buffer it holds ----

  ghost predicate StoreDirect(c: Core, d: Core, b: nat, o: nat, data: seq<Byte>) {
    && c.Shape() && b in c.bufs && !c.bufs[b].span && |data| == c.bufs[b].length
    && Buffered(c.tags, c.index, o)
    && var f, g := c.bufs[b], c.tags[c.index[o]];
    && g.buffer == f.block && o <= f.offset && f.offset + f.length <= o + c.bs
    && d == c.(mem := c.mem[f.block := Data(Splice(c.mem[f.block].bytes, f.offset - o, data))], touched := c.touched + {b})
  }

  lemma StoreDirectContent(c: Core, d: Core, b: nat, o: nat, data: seq<Byte>)
    requires StoreDirect(c, d, b, o, data) && c.ContentOk()
    ensures d.Shape() && d.ContentOk()
  {
    var f := c.bufs[b];
    forall x | Dirty(c.bufs, c.touched, x) ensures Dirty(d.bufs, d.touched, x) {
      DirtySubset(c.bufs, c.touched, d.bufs, d.touched, x);
    }
    forall p: nat | Aligned(d.bs, p) && p + d.bs <= |d.device| && p != o ensures BlockSame(c, d, p) {
      assert Buffered(c.tags, c.index, p) ==> c.index[p] != c.index[o];
    }
    assert c.BlockOk(o);
    StoreDirectBlock(c, d, b, o, data);
    ContentKept(c, d, o);
  }

  lemma StoreDirectBlock(c: Core, d: Core, b: nat, o: nat, data: seq<Byte>)
    requires StoreDirect(c, d, b, o, data) && c.BlockOk(o) && d.Shape()
    requires forall x :: Dirty(c.bufs, c.touched, x) ==> Dirty(d.bufs, d.touched, x)
    ensures d.BlockOk(o)
  {
    var f := c.bufs[b];
    var v, v' := c.mem[f.block].bytes, d.mem[f.block].bytes;
    assert Agrees(v, o, c.logical, c.bufs, c.touched);
    forall x | o <= x < o + c.bs && !Dirty(d.bufs, d.touched, x) ensures v'[x - o] == d.logical[x] {
      assert !Within(d.bufs[b], x);
      assert v[x - o] == c.logical[x];
    }
  }

  lemma StoreDirectAbs(c: Core, d: Core, b: nat, o: nat, data: seq<Byte>)
    requires c.Inv() && StoreDirect(c, d, b, o, data)
    ensures Abs(d) == Abs(c).Store(b, data)
  {
    hide Core.ContentOk, HoldsOk, Abs, View, WindowOk;
    var f := c.bufs[b];
    forall e | e in c.bufs && e != b ensures View(d.bs, d.mem, d.bufs[e]) == View(c.bs, c.mem, c.bufs[e]) {
      assert Apart(f, c.bufs[e]);
      OtherView(c, c.index[o], f.offset, data, e);
    }
    StoreView(c, d, b, o, data);
    AbsStore(c, d, b, data);
  }

  lemma StoreView(c: Core, d: Core, b: nat, o: nat, data: seq<Byte>)
    requires c.Inv() && StoreDirect(c, d, b, o, data)
    ensures View(d.bs, d.mem, c.bufs[b]) == data
  {
    hide Core.ContentOk, HoldsOk;
    DirectBuf(c, b);
    assert c.BufOk(b);
    var f := c.bufs[b];
    assert Covers(c.bs, f, o) by { hide Core.Inv; StoreCovers(c, f, o); }
  }

  lemma StoreCovers(c: Core, f: Buf, o: nat)
    requires c.bs > 0 && Aligned(c.bs, o) && o <= f.offset && f.offset + f.length <= o + c.bs && 0 < f.length
    ensures Covers(c.bs, f, o)
  {
  }

  lemma AbsStore(c: Core, d: Core, b: nat, data: seq<Byte>)
    requires c.bs > 0 && d.bs == c.bs && b in c.bufs && d.logical == c.logical
    requires d.bufs.Keys == c.bufs.Keys && d.touched == c.touched + {b}
    requires forall e :: e in c.bufs ==> d.bufs[e].offset == c.bufs[e].offset
    requires forall e :: e in c.bufs && e != b ==> View(d.bs, d.mem, d.bufs[e]) == View(c.bs, c.mem, c.bufs[e])
    requires View(d.bs, d.mem, d.bufs[b]) == data
    ensures Abs(d) == Abs(c).Store(b, data)
  {
    var m, m' := Abs(c).Store(b, data).open, Abs(d).open;
    assert m.Keys == m'.Keys;
  }

  lemma StoreDirectOk(c: Core, d: Core, b: nat, o: nat, data: seq<Byte>)
    requires c.Inv() && StoreDirect(c, d, b, o, data)
    ensures d.Inv() && Abs(d) == Abs(c).Store(b, data)
  {
    StoreDirectContent(c, d, b, o, data);
    StoreDirectAbs(c, d, b, o, data);
    StoreDirectBufs(c, d, b, o, data);
  }

  lemma StoreDirectBufs(c: Core, d: Core, b: nat, o: nat, data: seq<Byte>)
    requires StoreDirect(c, d, b, o, data) && c.BufsOk()
    ensures d.BufsOk()
  {
    forall e | e in d.bufs ensures d.BufOk(e) {
      assert c.BufOk(e);
    }
  }

  ghost predicate StoreSpan(c: Core, d: Core, b: nat, data: seq<Byte>) {
    && c.Shape() && b in c.bufs && c.bufs[b].span && |data| == c.bufs[b].length
    && d == c.(bufs := c.bufs[b := c.bufs[b].(bytes := data)], touched := c.touched + {b})
  }

  lemma StoreSpanOk(c: Core, d: Core, b: nat, data: seq<Byte>)
    requires c.Inv() && StoreSpan(c, d, b, data)
    ensures d.Inv() && Abs(d) == Abs(c).Store(b, data)
  {
    BufsContent(c, d);
    StoreSpanBufs(c, d, b, data);
    AbsStore(c, d, b, data);
  }

  lemma StoreSpanBufs(c: Core, d: Core, b: nat, data: seq<Byte>)
    requires c.Shape() && c.BufsOk() && StoreSpan(c, d, b, data)
    ensures d.BufsOk()
  {
    hide IndexOk, MemOk, Core.BufOk, Covers;
    forall e | e in d.bufs ensures d.BufOk(e) {
      StoreSpanBuf(c, d, b, data, e);
    }
  }

  lemma StoreSpanBuf(c: Core, d: Core, b: nat, data: seq<Byte>, e: nat)
    requires c.Shape() && StoreSpan(c, d, b, data) && e in c.bufs && c.BufOk(e)
    ensures e in d.bufs && d.BufOk(e)
  {
    hide IndexOk, MemOk, Buffered;
    assert forall o: nat :: Covers(c.bs, d.bufs[e], o) ==> Covers(c.bs, c.bufs[e], o);
  }
}
