/** The whole state of the block cache, its invariant, and the lemmas behind each
    of its operations.  `CacheT` is Cache_t with the tags it owns, each struct field
    kept as a map from addresses to values; `Shadow` is what the proof knows about it. */
module CacheState {
  import opened Bytes
  import opened Lists
  import opened Blocks
  import opened LruQueues
  import opened HashChains
  import opened CacheCore
  import opened CacheSteps
  import opened CacheLists

  datatype Err = EOK | ENOMEM | ENOBUFS | EBUSY | EINVAL | ENXIO | EIO

  const MAXBUFS: nat := 48

  datatype CacheT = CacheT(
    lru: Links,
    chains: Chains,
    tags: Tags,
    nextTag: Ptr,
    mem: seq<Block>,
    freeHead: int,
    freeSize: nat,
    bufs: Bufs,
    freeBufs: seq<nat>,
    device: seq<Byte>,
    reqRead: nat,
    reqWrite: nat,
    diskRead: nat,
    diskWrite: nat,
    spans: nat,
    io: nat)

  datatype Shadow = Shadow(
    hq: seq<Ptr>,
    bq: seq<Ptr>,
    lists: seq<seq<Ptr>>,
    free: seq<nat>,
    owner: map<int, Ptr>,
    index: Index,
    logical: seq<Byte>,
    touched: set<nat>,
    holds: Holds)

  ghost function CoreOf(bs: nat, c: CacheT, g: Shadow): Core {
    Core(bs, c.tags, g.index, c.mem, g.owner, c.device, g.logical, c.bufs, g.touched, g.holds)
  }

  /** The invariant in the middle of an operation on the tag `limbo`. */
  ghost predicate Ok(bs: nat, c: CacheT, g: Shadow, limbo: Ptr) {
    && CoreOf(bs, c, g).Inv()
    && PoolOk(c.mem, c.freeHead, c.freeSize, g.free, g.owner, c.tags)
    && QueuesOk(c.tags, c.lru, g.hq, g.bq, limbo) && LimboOk(c.lru, g.hq, g.bq, limbo)
    && BucketsOk(c.tags, c.chains, g.lists)
    && TagsOk(c.tags, c.nextTag, limbo)
  }

  /** Every reference belongs to an outstanding buffer, and to a block it covers. */
  ghost predicate HoldsExact(bs: nat, bufs: Bufs, holds: Holds)
    requires bs > 0
  {
    forall p :: p in holds ==> p.0 in bufs && Covers(bs, bufs[p.0], p.1)
  }

  ghost predicate HandlesOk(bufs: Bufs, freeBufs: seq<nat>, touched: set<nat>) {
    && NoDup(freeBufs) && (forall b :: b in freeBufs ==> b !in bufs)
    && touched <= bufs.Keys
  }

  /** Activity on `t` has put it at the front of Busy if it is busy, and otherwise at the
      front of Head, or, aged, at its back, which is where victims are taken. */
  ghost predicate HitBy(g0: Shadow, g: Shadow, t: Ptr, busy: bool, age: bool) {
    if busy then g.bq == [t] + Without(g0.bq, t) && g.hq == Without(g0.hq, t)
    else g.bq == Without(g0.bq, t) && g.hq == if age then Without(g0.hq, t) + [t] else [t] + Without(g0.hq, t)
  }

  lemma HitFrame(g0: Shadow, g0': Shadow, g: Shadow, g': Shadow, t: Ptr, busy: bool, age: bool)
    requires HitBy(g0, g, t, busy, age) && g0'.hq == g0.hq && g0'.bq == g0.bq && g'.hq == g.hq && g'.bq == g.bq
    ensures HitBy(g0', g', t, busy, age)
  {
  }

  /** The invariant between operations: every Buf_t is free or outstanding. */
  ghost predicate Good(bs: nat, c: CacheT, g: Shadow) {
    && bs > 0
    && Ok(bs, c, g, NULL) && |c.freeBufs| + |c.bufs| == MAXBUFS
    && HoldsExact(bs, c.bufs, g.holds)
    && HandlesOk(c.bufs, c.freeBufs, g.touched)
  }

  ghost function AbsOf(bs: nat, c: CacheT, g: Shadow): Flat
    requires bs > 0
  {
    Abs(CoreOf(bs, c, g))
  }

  ghost predicate Initial(bs: nat, c: CacheT, g: Shadow) {
    && bs > 0 && |c.mem| > 0 && |c.chains.hash| > 0
    && c.lru == Links(map[HEAD := HEAD, BUSY := BUSY], map[HEAD := HEAD, BUSY := BUSY])
    && c.chains == Chains(seq(|c.chains.hash|, _ => NULL), map[], map[])
    && c.tags == map[] && c.nextTag == BUSY + 1 && c.bufs == map[] && c.freeBufs == seq(MAXBUFS, i => i)
    && (forall i :: 0 <= i < |c.mem| ==> c.mem[i] == Free(if i + 1 < |c.mem| then i + 1 else NONE))
    && c.freeHead == 0 && c.freeSize == |c.mem|
    && g == Shadow([], [], seq(|c.chains.hash|, _ => []), seq(|c.mem|, i => i), map[], map[], c.device, {}, {})
  }

  lemma InitOk(bs: nat, c: CacheT, g: Shadow)
    requires Initial(bs, c, g)
    ensures Good(bs, c, g) && AbsOf(bs, c, g) == Flat(c.device, map[])
  {
    hide PoolOk, Core.Inv, Abs, QueuesOk;
    InitCore(bs, c, g);
    InitPool(c.mem);
    InitQueues(c.lru);
    assert |g.lists| == |c.chains.hash|;
  }

  lemma InitPool(mem: seq<Block>)
    requires |mem| > 0 && forall i :: 0 <= i < |mem| ==> mem[i] == Free(if i + 1 < |mem| then i + 1 else NONE)
    ensures PoolOk(mem, 0, |mem|, seq(|mem|, i => i), map[], map[])
  {
    var free: seq<nat> := seq(|mem|, i => i);
    forall k | 0 <= k < |mem| ensures k in free {
      assert free[k] == k;
    }
  }

  lemma InitQueues(l: Links)
    requires l == Links(map[HEAD := HEAD, BUSY := BUSY], map[HEAD := HEAD, BUSY := BUSY])
    ensures QueuesOk(map[], l, [], [], NULL)
  {
    assert [HEAD] + [] + [HEAD] == [HEAD, HEAD];
    assert [BUSY] + [] + [BUSY] == [BUSY, BUSY];
  }

  lemma InitCore(bs: nat, c: CacheT, g: Shadow)
    requires Initial(bs, c, g)
    ensures CoreOf(bs, c, g).Inv() && AbsOf(bs, c, g) == Flat(c.device, map[])
  {
    var d := CoreOf(bs, c, g);
    forall o: nat | Aligned(bs, o) && o + bs <= |d.device| ensures d.BlockOk(o) {
    }
  }

  /** The tags of `tags'` are those of `tags`, with `done` no longer marked lazy. */
  ghost predicate Washed(tags: Tags, tags': Tags, done: set<Ptr>) {
    && tags'.Keys == tags.Keys
    && (forall t :: t in tags ==> tags'[t] == (if t in done then tags[t].(lazy := false) else tags[t]))
  }

  ghost function Upto(lists: seq<seq<Ptr>>, n: nat): set<Ptr>
    requires n <= |lists|
  {
    set h, x | 0 <= h < n && x in lists[h] :: x
  }

  lemma WashedNone(tags: Tags)
    ensures Washed(tags, tags, {}) && Members([]) == {}
    ensures forall lists: seq<seq<Ptr>> :: Upto(lists, 0) == {}
    ensures forall s: seq<Ptr> :: Members(s[..0]) == {}
  {
  }

  lemma WashedMore(tags: Tags, tags1: Tags, tags2: Tags, a: set<Ptr>, b: set<Ptr>)
    requires Washed(tags, tags1, a) && Washed(tags1, tags2, b)
    ensures Washed(tags, tags2, a + b)
  {
  }

  lemma WashedOne(tags: Tags, tags1: Tags, tags2: Tags, list: seq<Ptr>, k: nat)
    requires k < |list| && list[k] in tags1 && Washed(tags, tags1, Members(list[..k]))
    requires tags2 == tags1[list[k] := tags1[list[k]].(lazy := false)]
    ensures Washed(tags, tags2, Members(list[..k + 1]))
  {
    assert Members(list[..k + 1]) == Members(list[..k]) + {list[k]} by {
      assert list[..k + 1] == list[..k] + [list[k]];
    }
  }

  lemma UptoNext(lists: seq<seq<Ptr>>, n: nat)
    requires n < |lists|
    ensures Upto(lists, n + 1) == Upto(lists, n) + Members(lists[n])
  {
  }

  lemma WashedAll(bs: nat, c: CacheT, g: Shadow, tags: Tags)
    requires Ok(bs, c, g, NULL) && Washed(c.tags, tags, Upto(g.lists, |g.lists|))
    ensures tags.Keys == c.tags.Keys && forall t :: t in tags ==> tags[t] == c.tags[t].(lazy := false)
  {
    hide Core.Inv, QueuesOk, PoolOk, LimboOk, TagsOk;
    forall t | t in c.tags ensures t in Upto(g.lists, |g.lists|) {
      BucketHas(c.tags, c.chains, g.lists, t);
    }
  }

  lemma ListsSize(bs: nat, c: CacheT, g: Shadow)
    requires Ok(bs, c, g, NULL)
    ensures |c.chains.hash| == |g.lists|
  {
    hide Core.Inv, QueuesOk, PoolOk, LimboOk, TagsOk;
  }

  lemma BucketStart(bs: nat, c: CacheT, g: Shadow, i: nat)
    requires Ok(bs, c, g, NULL) && i < |g.lists|
    ensures i < |c.chains.hash|
    ensures if g.lists[i] == [] then c.chains.hash[i] == NULL
            else c.chains.hash[i] == g.lists[i][0] != NULL && g.lists[i][0] in c.tags && g.lists[i][0] in c.chains.next
  {
    hide Core.Inv, QueuesOk, PoolOk, LimboOk, TagsOk;
    BucketHead(c.tags, c.chains, g.lists, i);
    if g.lists[i] != [] { BucketStep(c.tags, c.chains, g.lists, i, 0); }
  }

  lemma BucketWalk(bs: nat, c: CacheT, g: Shadow, i: nat, k: nat)
    requires Ok(bs, c, g, NULL) && i < |g.lists| && k < |g.lists[i]|
    ensures g.lists[i][k] in c.chains.next
    ensures var n := c.chains.next[g.lists[i][k]];
            if k + 1 < |g.lists[i]| then n == g.lists[i][k + 1] != NULL && n in c.tags && n in c.chains.next else n == NULL
  {
    hide Core.Inv, QueuesOk, PoolOk, LimboOk, TagsOk;
    BucketStep(c.tags, c.chains, g.lists, i, k);
    if k + 1 < |g.lists[i]| { BucketStep(c.tags, c.chains, g.lists, i, k + 1); }
  }

  /** The queues do not look at the lazy flag. */
  lemma QueuesClean(tags: Tags, l: Links, hq: seq<Ptr>, bq: seq<Ptr>, t: Ptr)
    requires QueuesOk(tags, l, hq, bq, NULL) && t in tags
    ensures QueuesOk(tags[t := tags[t].(lazy := false)], l, hq, bq, NULL)
  {
  }

  lemma SpanStored(bs: nat, c: CacheT, g: Shadow, b: nat, data: seq<Byte>)
    requires bs > 0 && Ok(bs, c, g, NULL) && b in c.bufs && c.bufs[b].span && |data| == c.bufs[b].length
    ensures var c', g' := c.(bufs := c.bufs[b := c.bufs[b].(bytes := data)]), g.(touched := g.touched + {b});
            Ok(bs, c', g', NULL) && AbsOf(bs, c', g') == AbsOf(bs, c, g).Store(b, data)
  {
    hide QueuesOk, BucketsOk, PoolOk, TagsOk, LimboOk, Abs, Core.ContentOk, Core.BufsOk, HoldsOk;
    var c', g' := c.(bufs := c.bufs[b := c.bufs[b].(bytes := data)]), g.(touched := g.touched + {b});
    StoreSpanOk(CoreOf(bs, c, g), CoreOf(bs, c', g'), b, data);
  }

  lemma DirectStored(bs: nat, c: CacheT, g: Shadow, b: nat, data: seq<Byte>)
    requires bs > 0 && Ok(bs, c, g, NULL) && b in c.bufs && !c.bufs[b].span && |data| == c.bufs[b].length
    ensures var f := c.bufs[b];
            && f.block < |c.mem| && c.mem[f.block].Data? && f.offset - Base(bs, f.offset) + |data| <= |c.mem[f.block].bytes|
            && var c' := c.(mem := c.mem[f.block := Data(Splice(c.mem[f.block].bytes, f.offset - Base(bs, f.offset), data))]);
               var g' := g.(touched := g.touched + {b});
               Ok(bs, c', g', NULL) && AbsOf(bs, c', g') == AbsOf(bs, c, g).Store(b, data)
  {
    hide QueuesOk, BucketsOk, PoolOk, TagsOk, LimboOk, Abs, Core.ContentOk, Core.BufsOk, HoldsOk;
    var f, o := c.bufs[b], Base(bs, c.bufs[b].offset);
    DirectBuf(CoreOf(bs, c, g), b);
    var c' := c.(mem := c.mem[f.block := Data(Splice(c.mem[f.block].bytes, f.offset - o, data))]);
    PoolData(c.mem, c.freeHead, c.freeSize, g.free, g.owner, c.tags, g.index[o], c'.mem);
    StoreDirectOk(CoreOf(bs, c, g), CoreOf(bs, c', g.(touched := g.touched + {b})), b, o, data);
  }

  lemma StoreHolds(bs: nat, bufs: Bufs, bufs': Bufs, holds: Holds, b: nat)
    requires bs > 0 && HoldsExact(bs, bufs, holds) && b in bufs && b in bufs' && bufs' == bufs[b := bufs'[b]]
    requires bufs'[b].offset == bufs[b].offset && bufs'[b].length == bufs[b].length
    ensures HoldsExact(bs, bufs', holds)
  {
  }

  lemma DirectEnd(bs: nat, c: CacheT, g: Shadow, b: nat)
    requires bs > 0 && Ok(bs, c, g, NULL) && b in c.bufs && !c.bufs[b].span
    ensures 0 < c.bufs[b].length && c.bufs[b].offset + c.bufs[b].length <= Base(bs, c.bufs[b].offset) + bs
  {
    hide QueuesOk, BucketsOk, PoolOk, TagsOk, LimboOk;
    DirectBuf(CoreOf(bs, c, g), b);
    assert CoreOf(bs, c, g).BufOk(b);
  }

  /** `b` is no longer outstanding, and nothing else about the handles changed. */
  ghost predicate Detached(c: CacheT, g: Shadow, c0: CacheT, g0: Shadow, b: nat) {
    && c.bufs == c0.bufs - {b} && g.touched == g0.touched - {b} && c.freeBufs == c0.freeBufs
    && (forall p :: p in g.holds <==> p in g0.holds && p.0 != b)
  }

  /** Giving the handle back completes CacheWrite and CacheRelease. */
  lemma HandleBack(bs: nat, c: CacheT, g: Shadow, c0: CacheT, g0: Shadow, b: nat)
    requires bs > 0 && Ok(bs, c, g, NULL) && Detached(c, g, c0, g0, b) && b in c0.bufs
    requires HoldsExact(bs, c0.bufs, g0.holds) && HandlesOk(c0.bufs, c0.freeBufs, g0.touched) && |c0.freeBufs| + |c0.bufs| == MAXBUFS
    ensures forall n: nat {:trigger c.(freeBufs := [b] + c.freeBufs, reqWrite := n)} ::
              Good(bs, c.(freeBufs := [b] + c.freeBufs, reqWrite := n), g) &&
              AbsOf(bs, c.(freeBufs := [b] + c.freeBufs, reqWrite := n), g) == AbsOf(bs, c, g)
  {
    hide QueuesOk, BucketsOk, PoolOk, LimboOk, TagsOk, Core.Inv, Abs;
    assert c0.bufs.Keys == c.bufs.Keys + {b};
  }

  /** A block somebody holds is cached, and its tag has references. */
  lemma HeldTag(bs: nat, c: CacheT, g: Shadow, b: nat, o: nat)
    requires bs > 0 && Ok(bs, c, g, NULL) && (b, o) in g.holds
    ensures o in g.index && g.index[o] in c.tags && c.tags[g.index[o]].refs > 0 && c.tags[g.index[o]].buffer >= 0
    ensures Aligned(bs, o) && c.tags[g.index[o]].offset == o
  {
    hide QueuesOk, BucketsOk, PoolOk, LimboOk, TagsOk, Core.ContentOk, Core.BufsOk;
    assert Buffered(c.tags, g.index, (b, o).1);
    assert RefsOk(c.tags[g.index[o]], g.holds);
    assert (b, o) in HeldAt(g.holds, o);
  }

  /** A direct buffer is a chunk of the one block it covers. */
  lemma DirectChunk(bs: nat, c: CacheT, g: Shadow, b: nat)
    requires bs > 0 && Ok(bs, c, g, NULL) && b in c.bufs && !c.bufs[b].span
    ensures var f, o := c.bufs[b], Base(bs, c.bufs[b].offset);
            && o in g.index && Aligned(bs, o)
            && Chunked(bs, c, g, b, g.index[o], f.offset, View(bs, c.mem, f))
            && c.mem == c.mem[c.tags[g.index[o]].buffer := Data(Splice(c.mem[c.tags[g.index[o]].buffer].bytes, f.offset - o, View(bs, c.mem, f)))]
  {
    hide QueuesOk, BucketsOk, PoolOk, LimboOk, TagsOk, Core.ContentOk, Core.BufsOk, HoldsOk, IndexOk;
    var f, o := c.bufs[b], Base(bs, c.bufs[b].offset);
    var d := CoreOf(bs, c, g);
    DirectBuf(d, b);
    DirectHeld(d, b);
    HeldTag(bs, c, g, b, o);
    SpliceSame(c.mem[f.block].bytes, f.offset - o, View(bs, c.mem, f));
  }

  /** An outstanding buffer holds its blocks, and no other buffer overlaps it. */
  lemma DirectHeld(d: Core, b: nat)
    requires d.Inv() && b in d.bufs
    ensures (b, Base(d.bs, d.bufs[b].offset)) in d.holds && d.bufs[b].length > 0
    ensures forall e :: e in d.bufs && e != b ==> Apart(d.bufs[b], d.bufs[e])
  {
    hide Core.ContentOk, IndexOk, MemOk, HoldsOk;
    assert d.BufOk(b);
    assert Covers(d.bs, d.bufs[b], Base(d.bs, d.bufs[b].offset));
  }

  /** What CacheWrite of a direct buffer amounts to, on the flat array. */
  lemma WriteView(bs: nat, c: CacheT, g: Shadow, b: nat)
    requires bs > 0 && Ok(bs, c, g, NULL) && HoldsExact(bs, c.bufs, g.holds) && b in c.bufs && !c.bufs[b].span
    ensures var f, v := c.bufs[b], View(bs, c.mem, c.bufs[b]);
            && f.offset + |v| <= |g.logical|
            && AbsOf(bs, c, g).Write(b) == CacheCore.Flat(Splice(g.logical, f.offset, v), AbsOf(bs, c, g).open - {b})
    ensures forall p :: p in g.holds - {(b, Base(bs, c.bufs[b].offset))} <==> p in g.holds && p.0 != b
  {
    hide QueuesOk, BucketsOk, PoolOk, LimboOk, TagsOk;
    DirectBuf(CoreOf(bs, c, g), b);
  }

  /** The blocks still held by `b` are those from `hi` on. */
  ghost predicate SpanLeft(holds0: Holds, holds: Holds, b: nat, hi: nat) {
    forall p :: p in holds <==> p in holds0 && !(p.0 == b && p.1 < hi)
  }

  lemma SpanStart(bs: nat, c: CacheT, g: Shadow, b: nat)
    requires bs > 0 && Ok(bs, c, g, NULL) && b in c.bufs && (c.bufs[b].span || b !in g.touched)
    ensures var c', g', f := c.(bufs := c.bufs - {b}), g.(touched := g.touched - {b}), c.bufs[b];
            && Ok(bs, c', g', NULL) && AbsOf(bs, c', g') == AbsOf(bs, c, g).Release(b)
            && Vacant(c'.bufs, f.offset, f.length)
            && (f.span ==> |f.bytes| == f.length && Base(bs, f.offset) + bs < f.offset + f.length)
            && 0 < f.length && f.offset + f.length <= |g.logical|
  {
    hide QueuesOk, BucketsOk, PoolOk, LimboOk, TagsOk, Abs;
    var d := CoreOf(bs, c, g);
    assert d.BufOk(b);
    RemoveBufOk(d, CoreOf(bs, c.(bufs := c.bufs - {b}), g.(touched := g.touched - {b})), b);
    forall e | e in c.bufs && e != b ensures Apart(c.bufs[b], c.bufs[e]) {}
  }

  lemma SpanFirst(bs: nat, bufs: Bufs, holds: Holds, b: nat, lo: nat)
    requires bs > 0 && HoldsExact(bs, bufs, holds) && b in bufs && lo == Base(bs, bufs[b].offset)
    ensures SpanLeft(holds, holds, b, lo)
  {
    forall p | p in holds && p.0 == b ensures p.1 >= lo {
      if p.1 < lo { BlocksApart(bs, p.1, lo); }
    }
  }

  /** The next block of the buffer is still held. */
  lemma SpanHit(bs: nat, c0: CacheT, g0: Shadow, holds: Holds, b: nat, o: nat)
    requires bs > 0 && Ok(bs, c0, g0, NULL) && b in c0.bufs && Covers(bs, c0.bufs[b], o)
    requires SpanLeft(g0.holds, holds, b, o)
    ensures (b, o) in holds
  {
    hide QueuesOk, BucketsOk, PoolOk, LimboOk, TagsOk, Core.ContentOk, Core.Shape, HoldsOk;
    assert CoreOf(bs, c0, g0).BufOk(b);
    assert (b, o) in g0.holds;
  }

  lemma SpanDropped(bs: nat, c0: CacheT, g0: Shadow, holds: Holds, holds': Holds, b: nat, o: nat)
    requires bs > 0 && HoldsExact(bs, c0.bufs, g0.holds) && Aligned(bs, o)
    requires SpanLeft(g0.holds, holds, b, o) && holds' == holds - {(b, o)}
    ensures SpanLeft(g0.holds, holds', b, o + bs) && Aligned(bs, o + bs)
  {
    forall p | p in g0.holds && p.0 == b && o <= p.1 < o + bs ensures p == (b, o) {
      if o < p.1 { BlocksApart(bs, o, p.1); }
    }
  }

  lemma SpanDone(bs: nat, c0: CacheT, g0: Shadow, holds: Holds, b: nat, hi: nat)
    requires bs > 0 && HoldsExact(bs, c0.bufs, g0.holds) && b in c0.bufs
    requires c0.bufs[b].offset + c0.bufs[b].length <= hi && SpanLeft(g0.holds, holds, b, hi)
    ensures forall p :: p in holds <==> p in g0.holds && p.0 != b
  {
    forall p | p in g0.holds && p.0 == b ensures p.1 < hi {
      assert Covers(bs, c0.bufs[b], p.1);
    }
  }

  lemma SpanWritten(bs: nat, c: CacheT, g: Shadow, b: nat)
    requires bs > 0 && b in c.bufs && c.bufs[b].span && c.bufs[b].offset + |c.bufs[b].bytes| <= |g.logical|
    ensures var f := c.bufs[b];
            AbsOf(bs, c, g).Write(b) == CacheCore.Flat(Splice(g.logical, f.offset, f.bytes), AbsOf(bs, c, g).open - {b})
  {
  }

  /** `s` after the first `n` bytes of the buffer `f` have been written over it. */
  ghost function Partly(s: seq<Byte>, f: Buf, n: nat): seq<Byte>
    requires n <= |f.bytes| && f.offset + |f.bytes| <= |s|
  {
    Splice(s, f.offset, f.bytes[..n])
  }

  lemma PartlyNext(s: seq<Byte>, f: Buf, n: nat, m: nat)
    requires n + m <= |f.bytes| && f.offset + |f.bytes| <= |s|
    ensures |Partly(s, f, n)| == |s| && Splice(Partly(s, f, n), f.offset + n, f.bytes[n..n + m]) == Partly(s, f, n + m)
    ensures Partly(s, f, |f.bytes|) == Splice(s, f.offset, f.bytes)
  {
    SpliceAdjacent(s, f.offset, f.bytes[..n], f.bytes[n..n + m]);
    assert f.bytes[..n] + f.bytes[n..n + m] == f.bytes[..n + m];
    assert f.bytes[..|f.bytes|] == f.bytes;
  }

  /** Part of a spanning buffer, inside the block of `t`. */
  lemma SpanChunk(bs: nat, c: CacheT, g: Shadow, b: nat, t: Ptr, at: nat, chunk: seq<Byte>, f: Buf)
    requires bs > 0 && Ok(bs, c, g, t) && t in c.tags && c.tags[t].buffer >= 0 && c.tags[t].refs > 0
    requires c.tags[t].offset <= at && at + |chunk| <= c.tags[t].offset + bs
    requires (b, c.tags[t].offset) in g.holds && b !in c.bufs
    requires Vacant(c.bufs, f.offset, f.length) && f.offset <= at && at + |chunk| <= f.offset + f.length
    ensures Chunked(bs, c, g, b, t, at, chunk)
    ensures c.tags[t].buffer < |c.mem| && c.mem[c.tags[t].buffer].Data? && |c.mem[c.tags[t].buffer].bytes| == bs
  {
    hide QueuesOk, BucketsOk, PoolOk, LimboOk, TagsOk, Core.ContentOk, Core.BufsOk, HoldsOk;
  }

  lemma NotOpen(bs: nat, c: CacheT, g: Shadow, b: nat)
    requires bs > 0 && b !in c.bufs && b !in g.touched
    ensures AbsOf(bs, c, g).open - {b} == AbsOf(bs, c, g).open && c.bufs - {b} == c.bufs && g.touched - {b} == g.touched
  {
    hide View;
  }

  /** `chunk` is to replace `[at, at + |chunk|)`, inside the block of `t`, which `b` holds. */
  ghost predicate Chunked(bs: nat, c: CacheT, g: Shadow, b: nat, t: Ptr, at: nat, chunk: seq<Byte>) {
    && CoreOf(bs, c, g).Shape() && t in c.tags && c.tags[t].buffer >= 0 && c.tags[t].refs > 0
    && c.tags[t].offset <= at && at + |chunk| <= c.tags[t].offset + bs
    && (b, c.tags[t].offset) in g.holds && OwnChunk(CoreOf(bs, c, g), b, at, |chunk|)
  }

  lemma ChunkedMem(bs: nat, c: CacheT, g: Shadow, b: nat, t: Ptr, at: nat, chunk: seq<Byte>)
    requires Chunked(bs, c, g, b, t, at, chunk)
    ensures c.tags[t].buffer < |c.mem| && c.mem[c.tags[t].buffer].Data? && |c.mem[c.tags[t].buffer].bytes| == bs
    ensures c.tags[t].offset + bs <= |c.device| && Aligned(bs, c.tags[t].offset)
  {
  }

  lemma AbsBytes(bs: nat, c: CacheT, g: Shadow)
    requires bs > 0
    ensures AbsOf(bs, c, g) == Flat(g.logical, AbsOf(bs, c, g).open)
  {
  }

  lemma PoolData(mem: seq<Block>, head: int, size: nat, free: seq<nat>, owner: map<int, Ptr>, tags: Tags, t: Ptr, mem': seq<Block>)
    requires PoolOk(mem, head, size, free, owner, tags) && t in tags && 0 <= tags[t].buffer < |mem| && mem[tags[t].buffer].Data?
    requires |mem'| == |mem| && mem' == mem[tags[t].buffer := mem'[tags[t].buffer]]
    ensures PoolOk(mem', head, size, free, owner, tags)
  {
  }

  /** `holds` is `holds0` with the references of `b` on the blocks of `[lo, hi)`. */
  ghost predicate SpanHolds(bs: nat, holds0: Holds, holds: Holds, b: nat, lo: nat, hi: nat)
    requires bs > 0
  {
    forall p :: p in holds <==> p in holds0 || (p.0 == b && lo <= p.1 < hi && Aligned(bs, p.1))
  }

  lemma NoHoldYet(bs: nat, holds: Holds, b: nat, o: nat)
    requires Unheld(holds, b)
    ensures (b, o) !in holds
  {
  }

  lemma FirstSpan(bs: nat, holds: Holds, b: nat, o: nat)
    requires bs > 0 && Aligned(bs, o)
    ensures SpanHolds(bs, holds, holds + {(b, o)}, b, o, o + bs) && Aligned(bs, o + bs)
  {
    forall p: nat | o <= p < o + bs && Aligned(bs, p) ensures p == o {
      if o < p { BlocksApart(bs, o, p); }
    }
  }

  lemma SpanNext(bs: nat, holds0: Holds, holds: Holds, b: nat, lo: nat, hi: nat)
    requires bs > 0 && SpanHolds(bs, holds0, holds, b, lo, hi) && Aligned(bs, hi) && lo < hi
    requires Unheld(holds0, b)
    ensures (b, hi) !in holds && Aligned(bs, hi + bs)
    ensures SpanHolds(bs, holds0, holds + {(b, hi)}, b, lo, hi + bs)
  {
    forall p: nat | hi <= p < hi + bs && Aligned(bs, p) ensures p == hi {
      if hi < p { BlocksApart(bs, hi, p); }
    }
  }

  /** The bytes `[off, off + n)`. */
  ghost function Part(s: seq<Byte>, off: nat, n: nat): seq<Byte>
    requires off + n <= |s|
  {
    s[off..off + n]
  }

  lemma PartJoin(s: seq<Byte>, off: nat, n: nat, m: nat)
    requires off + n + m <= |s|
    ensures Part(s, off, n) + s[off + n..off + n + m] == Part(s, off, n + m)
  {
  }

  lemma PartIs(s: seq<Byte>, off: nat, n: nat)
    requires off + n <= |s|
    ensures Part(s, off, n) == s[off..off + n]
  {
  }

  lemma ChunkIsLogical(d: Core, t: Ptr, at: nat, n: nat, off: nat, len: nat)
    requires d.Inv() && t in d.tags && d.tags[t].buffer >= 0
    requires d.tags[t].offset <= at && at + n <= d.tags[t].offset + d.bs
    requires Vacant(d.bufs, off, len) && off <= at && at + n <= off + len
    ensures at + n <= |d.logical|
    ensures d.mem[d.tags[t].buffer].bytes[at - d.tags[t].offset..at - d.tags[t].offset + n] == d.logical[at..at + n]
  {
    hide Core.BufsOk, HoldsOk;
    var o := d.tags[t].offset;
    var bytes := d.mem[d.tags[t].buffer].bytes;
    assert d.BlockOk(o) && Buffered(d.tags, d.index, o);
    var v, w := bytes[at - o..at - o + n], d.logical[at..at + n];
    forall i | 0 <= i < n ensures v[i] == w[i] {
      VacantIsNotDirty(d.bufs, d.touched, off, len, at + i);
      assert bytes[(at + i) - o] == d.logical[at + i];
    }
  }

  lemma VacantIsNotDirty(bufs: Bufs, touched: set<nat>, off: nat, len: nat, x: nat)
    requires Vacant(bufs, off, len) && off <= x < off + len
    ensures !Dirty(bufs, touched, x)
  {
    forall b | b in touched && b in bufs ensures !Within(bufs[b], x) {}
  }

  /** The copied buffer is well formed. */
  lemma SpanAdd(d: Core, b: nat, f: Buf, holds0: Holds, lo: nat, hi: nat)
    requires d.bs > 0 && d.Shape() && b !in d.bufs && b !in d.touched && Vacant(d.bufs, f.offset, f.length)
    requires f.span && Base(d.bs, f.offset) + d.bs < f.offset + f.length <= |d.logical|
    requires f.bytes == d.logical[f.offset..f.offset + f.length] && |f.bytes| == f.length
    requires lo == Base(d.bs, f.offset) && f.offset + f.length <= hi && SpanHolds(d.bs, holds0, d.holds, b, lo, hi)
    ensures AddBuf(d, d.(bufs := d.bufs[b := f]), b, f)
  {
    forall o: nat | Covers(d.bs, f, o) ensures (b, o) in d.holds {
      if o < lo { BlocksApart(d.bs, o, lo); }
      assert lo <= (b, o).1 < hi;
    }
  }

  lemma SpanCovers(bs: nat, f: Buf, lo: nat, hi: nat, o: nat)
    requires bs > 0 && lo == Base(bs, f.offset) && Aligned(bs, hi) && hi < f.offset + f.length + bs
    requires lo <= o < hi && Aligned(bs, o)
    ensures Covers(bs, f, o)
  {
    BlocksApart(bs, o, hi);
  }

  /** Handing out a spanning buffer. */
  lemma AddSpan(bs: nat, c: CacheT, g: Shadow, holds0: Holds, b: nat, f: Buf, lo: nat, hi: nat)
    requires bs > 0 && Ok(bs, c, g, NULL) && Vacant(c.bufs, f.offset, f.length)
    requires f.span && f.length == |f.bytes| && Base(bs, f.offset) + bs < f.offset + f.length <= |g.logical|
    requires f.bytes == g.logical[f.offset..f.offset + f.length]
    requires HoldsExact(bs, c.bufs, holds0) && SpanHolds(bs, holds0, g.holds, b, lo, hi)
    requires lo == Base(bs, f.offset) && Aligned(bs, hi) && f.offset + f.length <= hi < f.offset + f.length + bs
    requires HandlesOk(c.bufs, c.freeBufs, g.touched) && NewHandle(c.bufs, c.freeBufs, g.touched, holds0, b)
    requires |c.freeBufs| + |c.bufs| + 1 == MAXBUFS
    ensures var c' := c.(bufs := c.bufs[b := f], spans := c.spans + 1);
            Good(bs, c', g) && AbsOf(bs, c', g) == AbsOf(bs, c, g).Read(b, f.offset, f.length)
  {
    hide QueuesOk, BucketsOk, PoolOk, LimboOk, TagsOk, Abs, HandlesOk, MemOk, IndexOk, Core.ContentOk, HoldsOk, Core.BufsOk, Vacant;
    SpanAdd(CoreOf(bs, c, g), b, f, holds0, lo, hi);
    AddBufOk(CoreOf(bs, c, g), CoreOf(bs, c.(bufs := c.bufs[b := f]), g), b, f);
    HandlesAdd(c.bufs, c.freeBufs, g.touched, holds0, b, f);
    forall p | p in g.holds ensures p.0 in c.bufs[b := f] && Covers(bs, c.bufs[b := f][p.0], p.1) {
      if p !in holds0 { SpanCovers(bs, f, lo, hi, p.1); }
    }
  }

  /** Every block of the range is in the cache. */
  ghost predicate Cached(index: Index, bs: nat, off: nat, len: nat)
    requires bs > 0
  {
    forall o: nat :: Aligned(bs, o) && o < off + len && off < o + bs ==> o in index
  }

  lemma CachedHas(index: Index, bs: nat, off: nat, len: nat, o: nat)
    requires bs > 0 && Cached(index, bs, off, len) && Aligned(bs, o) && o < off + len && off < o + bs
    ensures o in index
  {
  }

  ghost predicate NoLazy(tags: Tags) {
    forall t :: t in tags ==> !tags[t].lazy
  }

  /** No outstanding buffer overlaps the range. */
  ghost predicate Vacant(bufs: Bufs, off: nat, len: nat) {
    forall e :: e in bufs ==> bufs[e].offset + bufs[e].length <= off || off + len <= bufs[e].offset
  }

  /** A handle taken off the free list names no outstanding buffer. */
  ghost predicate NewHandle(bufs: Bufs, freeBufs: seq<nat>, touched: set<nat>, holds: Holds, b: nat) {
    b !in bufs && b !in freeBufs && b !in touched && Unheld(holds, b)
  }

  ghost predicate Unheld(holds: Holds, b: nat) {
    forall p :: p in holds ==> p.0 != b
  }

  lemma FreshHandle(bs: nat, bufs: Bufs, freeBufs: seq<nat>, touched: set<nat>, holds: Holds)
    requires bs > 0 && HandlesOk(bufs, freeBufs, touched) && HoldsExact(bs, bufs, holds) && freeBufs != []
    ensures NewHandle(bufs, freeBufs[1..], touched, holds, freeBufs[0]) && HandlesOk(bufs, freeBufs[1..], touched)
  {
  }

  lemma GoodParts(bs: nat, c: CacheT, g: Shadow)
    requires Good(bs, c, g)
    ensures bs > 0 && Ok(bs, c, g, NULL) && HoldsExact(bs, c.bufs, g.holds) && HandlesOk(c.bufs, c.freeBufs, g.touched)
    ensures |c.freeBufs| + |c.bufs| == MAXBUFS
  {
    hide Ok;
  }

  lemma OkHandles(bs: nat, c: CacheT, g: Shadow, freeBufs: seq<nat>)
    requires bs > 0 && Ok(bs, c, g, NULL)
    ensures Ok(bs, c.(freeBufs := freeBufs), g, NULL) && AbsOf(bs, c.(freeBufs := freeBufs), g) == AbsOf(bs, c, g)
  {
    hide QueuesOk, BucketsOk, PoolOk, LimboOk, TagsOk, Core.Inv, Abs;
  }

  lemma OkRequests(bs: nat, c: CacheT, g: Shadow, n: nat)
    requires Good(bs, c, g)
    ensures Good(bs, c.(reqRead := n), g) && AbsOf(bs, c.(reqRead := n), g) == AbsOf(bs, c, g)
    ensures Good(bs, c.(reqWrite := n), g) && AbsOf(bs, c.(reqWrite := n), g) == AbsOf(bs, c, g)
    ensures Good(bs, c.(spans := n), g) && AbsOf(bs, c.(spans := n), g) == AbsOf(bs, c, g)
  {
    hide QueuesOk, BucketsOk, PoolOk, LimboOk, TagsOk, Core.Inv, Abs, HoldsExact, HandlesOk;
  }

  /** The buffer that points into the block of `t` is well formed. */
  lemma DirectAdd(d: Core, b: nat, f: Buf, t: Ptr)
    requires d.Inv() && t in d.tags && d.tags[t].buffer >= 0 && b !in d.bufs && b !in d.touched && Vacant(d.bufs, f.offset, f.length)
    requires !f.span && f.block == d.tags[t].buffer && 0 < f.length
    requires d.tags[t].offset == Base(d.bs, f.offset) && f.offset + f.length <= Base(d.bs, f.offset) + d.bs
    requires (b, d.tags[t].offset) in d.holds
    ensures AddBuf(d, d.(bufs := d.bufs[b := f]), b, f)
  {
    hide Core.ContentOk, Core.BufsOk, HoldsOk;
    var o := Base(d.bs, f.offset);
    forall p: nat | Covers(d.bs, f, p) ensures p == o {
      if p < o { BlocksApart(d.bs, p, o); } else if o < p { BlocksApart(d.bs, o, p); }
    }
    assert Buffered(d.tags, d.index, o) && d.index[o] == t;
  }

  lemma DirectHolds(bs: nat, bufs: Bufs, holds: Holds, b: nat, f: Buf)
    requires bs > 0 && HoldsExact(bs, bufs, holds) && b !in bufs
    requires 0 < f.length && f.offset + f.length <= Base(bs, f.offset) + bs
    ensures HoldsExact(bs, bufs[b := f], holds + {(b, Base(bs, f.offset))})
  {
  }

  lemma HandlesAdd(bufs: Bufs, freeBufs: seq<nat>, touched: set<nat>, holds: Holds, b: nat, f: Buf)
    requires HandlesOk(bufs, freeBufs, touched) && NewHandle(bufs, freeBufs, touched, holds, b)
    ensures HandlesOk(bufs[b := f], freeBufs, touched) && |bufs[b := f]| == |bufs| + 1
  {
    assert bufs[b := f].Keys == bufs.Keys + {b};
  }

  lemma TagsKeptNew(tags: Tags, t: Ptr, x: Tag)
    ensures TagsKeptBut(tags, tags[t := x], t)
  {
  }

  lemma TagsKeptTwice(tags: Tags, tags1: Tags, tags2: Tags, t: Ptr)
    requires TagsKeptBut(tags, tags1, t) && TagsKeptBut(tags1, tags2, t)
    ensures TagsKeptBut(tags, tags2, t)
  {
  }

  lemma OkWeaken(bs: nat, c: CacheT, g: Shadow, t: Ptr)
    requires Ok(bs, c, g, NULL) && t in c.tags
    ensures Ok(bs, c, g, t) && t > BUSY && c.tags[t].buffer >= 0 && Queued(g.hq, g.bq, t) && TagsKeptBut(c.tags, c.tags, t)
  {
    hide BucketsOk, PoolOk, Core.Inv;
  }

  /** Storing a tag's counts and flags concerns only the queues, and those only for `t`. */
  lemma TagStored(bs: nat, c: CacheT, g: Shadow, t: Ptr, x: Tag)
    requires Ok(bs, c, g, t) && t in c.tags && x.offset == c.tags[t].offset && x.buffer == c.tags[t].buffer >= 0
    ensures var tags := c.tags[t := x];
            && PoolOk(c.mem, c.freeHead, c.freeSize, g.free, g.owner, tags)
            && QueuesOk(tags, c.lru, g.hq, g.bq, t)
            && BucketsOk(tags, c.chains, g.lists)
            && TagsOk(tags, c.nextTag, NULL)
  {
    hide QueuesOk, BucketsOk, PoolOk, LimboOk, TagsOk, Core.Inv;
    PoolSame(c.mem, c.freeHead, c.freeSize, g.free, g.owner, c.tags, t, x);
    QueuesSame(c.tags, c.lru, g.hq, g.bq, t, c.tags[t := x]);
    BucketsSame(c.tags, c.chains, g.lists, t, c.tags[t := x]);
    TagsStore(c.tags, c.nextTag, t, x);
  }

  lemma PoolSame(mem: seq<Block>, head: int, size: nat, free: seq<nat>, owner: map<int, Ptr>, tags: Tags, t: Ptr, x: Tag)
    requires PoolOk(mem, head, size, free, owner, tags) && t in tags && x.buffer == tags[t].buffer
    ensures PoolOk(mem, head, size, free, owner, tags[t := x])
  {
  }

  lemma SearchMissed(tags: Tags, index: Index, ch: Chains, lists: seq<seq<Ptr>>, off: nat)
    requires IndexOk(tags, index) && BucketsOk(tags, ch, lists)
    requires forall j :: 0 <= j < |lists[Home(|lists|, off)]| ==>
               lists[Home(|lists|, off)][j] in tags && tags[lists[Home(|lists|, off)][j]].offset != off
    ensures off !in index
  {
    forall t | t in tags ensures tags[t].offset != off {
      BucketHas(tags, ch, lists, t);
    }
  }

  lemma FreshTag(tags: Tags, l: Links, hq: seq<Ptr>, bq: seq<Ptr>, nextTag: Ptr, tags': Tags, t: Ptr)
    requires QueuesOk(tags, l, hq, bq, NULL) && TagsOk(tags, nextTag, NULL) && t == nextTag
    requires t in tags' && tags' == tags[t := tags'[t]]
    ensures var l' := Links(l.next[t := NULL], l.prev[t := NULL]);
            QueuesOk(tags', l', hq, bq, t) && LimboOk(l', hq, bq, t) && !Queued(hq, bq, t) && t !in tags
    ensures TagsOk(tags', nextTag + 1, t)
  {
    var l' := Links(l.next[t := NULL], l.prev[t := NULL]);
    assert t !in hq && t !in bq;
    RingFrame(l, l', HEAD, hq);
    RingFrame(l, l', BUSY, bq);
    forall u | u in tags ensures Queued(hq, bq, u) {}
  }

  lemma BucketsFresh(tags: Tags, ch: Chains, lists: seq<seq<Ptr>>, tags': Tags, t: Ptr)
    requires BucketsOk(tags, ch, lists) && t !in tags && t != NULL && t in tags' && tags' == tags[t := tags'[t]]
    ensures var h := Home(|lists|, tags'[t].offset);
            h < |ch.hash| && BucketsOk(tags', ch.Push(h, t), lists[h := [t] + lists[h]])
  {
    assert tags' - {t} == tags;
    BucketsPush(tags', ch, lists, t);
  }

  lemma BucketCount(bs: nat, c: CacheT, g: Shadow, off: nat)
    requires Ok(bs, c, g, NULL)
    ensures bs > 0 && 0 < |c.chains.hash| == |g.lists| && Home(|g.lists|, off) == off % |c.chains.hash| < |g.lists|
  {
    hide Core.ContentOk, Core.BufsOk, HoldsOk, QueuesOk, PoolOk, LimboOk, TagsOk;
    BaseIsMod(|g.lists|, off);
  }

  /** A new tag for an offset without one. */
  lemma TagAdded(bs: nat, c: CacheT, g: Shadow, off: nat)
    requires Ok(bs, c, g, NULL) && off !in g.index && bs > 0 && Aligned(bs, off)
    requires 0 < |c.chains.hash| == |g.lists| && Home(|g.lists|, off) == off % |c.chains.hash| < |g.lists|
    ensures var t, h := c.nextTag, off % |c.chains.hash|;
            var c' := c.(nextTag := t + 1, tags := c.tags[t := Tag(off, 0, false, false, NONE)], chains := c.chains.Push(h, t),
                         lru := Links(c.lru.next[t := NULL], c.lru.prev[t := NULL]));
            var g' := g.(index := g.index[off := t], lists := g.lists[h := [t] + g.lists[h]]);
            Ok(bs, c', g', t) && AbsOf(bs, c', g') == AbsOf(bs, c, g) && t !in c.tags && !Queued(g.hq, g.bq, t)
  {
    hide QueuesOk, BucketsOk, PoolOk, LimboOk, Abs, Core.Inv, Home, Chains.Push;
    var t, h := c.nextTag, off % |c.chains.hash|;
    var tags := c.tags[t := Tag(off, 0, false, false, NONE)];
    FreshTag(c.tags, c.lru, g.hq, g.bq, t, tags, t);
    BucketsFresh(c.tags, c.chains, g.lists, tags, t);
    PoolFresh(c.mem, c.freeHead, c.freeSize, g.free, g.owner, c.tags, tags, t);
    var d := CoreOf(bs, c, g);
    NewTagOk(d, d.(tags := tags, index := g.index[off := t]), t, off);
  }

  lemma PoolFresh(mem: seq<Block>, head: int, size: nat, free: seq<nat>, owner: map<int, Ptr>, tags: Tags, tags': Tags, t: Ptr)
    requires PoolOk(mem, head, size, free, owner, tags) && t !in tags && t in tags' && tags' == tags[t := tags'[t]]
    ensures PoolOk(mem, head, size, free, owner, tags')
  {
  }

  lemma AllocReady(mem: seq<Block>, head: int, size: nat, free: seq<nat>, owner: map<int, Ptr>, tags: Tags)
    requires PoolOk(mem, head, size, free, owner, tags)
    ensures size == |free| && head == LinkOf(free, 0)
    ensures free != [] ==> free[0] < |mem| && mem[free[0]] == Free(LinkOf(free, 1))
  {
  }

  /** A block has been popped off the free list, loaded and given to the tag `t`. */
  ghost predicate Filled(bs: nat, c: CacheT, g: Shadow, t: Ptr, data: seq<Byte>, c': CacheT, g': Shadow) {
    && t in c.tags && c.tags[t].buffer < 0 && g.free != [] && 0 <= c.freeHead < |c.mem| && c.freeSize > 0
    && c.tags[t].offset + bs <= |c.device| && data == c.device[c.tags[t].offset..c.tags[t].offset + bs]
    && c' == c.(tags := c.tags[t := c.tags[t].(buffer := c.freeHead)], mem := c.mem[c.freeHead := Data(data)],
                freeHead := LinkOf(g.free, 1), freeSize := c.freeSize - 1, diskRead := c'.diskRead, io := c'.io)
    && g' == g.(owner := g.owner[c.freeHead := t], free := g.free[1..])
  }

  lemma FillPool(bs: nat, c: CacheT, g: Shadow, t: Ptr, data: seq<Byte>, c': CacheT, g': Shadow)
    requires CoreOf(bs, c, g).Shape() && PoolOk(c.mem, c.freeHead, c.freeSize, g.free, g.owner, c.tags)
    requires Filled(bs, c, g, t, data, c', g')
    ensures PoolOk(c'.mem, c'.freeHead, c'.freeSize, g'.free, g'.owner, c'.tags)
    ensures Load(CoreOf(bs, c, g), CoreOf(bs, c', g'), t, c.freeHead)
  {
    hide PoolOk, IndexOk;
    PoolPop(c.mem, c.freeHead, c.freeSize, g.free, g.owner, c.tags, t, data);
  }

  lemma FillLists(bs: nat, c: CacheT, g: Shadow, t: Ptr, data: seq<Byte>, c': CacheT, g': Shadow)
    requires QueuesOk(c.tags, c.lru, g.hq, g.bq, t) && Filled(bs, c, g, t, data, c', g')
    ensures QueuesOk(c'.tags, c'.lru, g'.hq, g'.bq, t)
  {
    QueuesSame(c.tags, c.lru, g.hq, g.bq, t, c'.tags);
  }

  lemma FillBuckets(bs: nat, c: CacheT, g: Shadow, t: Ptr, data: seq<Byte>, c': CacheT, g': Shadow)
    requires BucketsOk(c.tags, c.chains, g.lists) && Filled(bs, c, g, t, data, c', g')
    ensures BucketsOk(c'.tags, c'.chains, g'.lists)
  {
    BucketsSame(c.tags, c.chains, g.lists, t, c'.tags);
  }

  lemma FillOk(bs: nat, c: CacheT, g: Shadow, t: Ptr, data: seq<Byte>, c': CacheT, g': Shadow)
    requires Ok(bs, c, g, t) && Filled(bs, c, g, t, data, c', g')
    ensures Ok(bs, c', g', t) && AbsOf(bs, c', g') == AbsOf(bs, c, g)
  {
    FillPool(bs, c, g, t, data, c', g');
    LoadOk(CoreOf(bs, c, g), CoreOf(bs, c', g'), t, c.freeHead);
    FillLists(bs, c, g, t, data, c', g');
    FillBuckets(bs, c, g, t, data, c', g');
    TagsStore(c.tags, c.nextTag, t, c'.tags[t]);
  }

  /** The queues do not look at a tag's memory. */
  lemma QueuesSame(tags: Tags, l: Links, hq: seq<Ptr>, bq: seq<Ptr>, t: Ptr, tags': Tags)
    requires QueuesOk(tags, l, hq, bq, t) && t in tags && t in tags' && tags' == tags[t := tags'[t]]
    ensures QueuesOk(tags', l, hq, bq, t)
  {
  }

  /** The buckets look only at a tag's offset. */
  lemma BucketsSame(tags: Tags, ch: Chains, lists: seq<seq<Ptr>>, t: Ptr, tags': Tags)
    requires BucketsOk(tags, ch, lists) && t in tags && t in tags' && tags' == tags[t := tags'[t]]
    requires tags'[t].offset == tags[t].offset
    ensures BucketsOk(tags', ch, lists)
  {
    assert Homes(|lists|, tags') == Homes(|lists|, tags);
  }

  // ---- What holds in every state a run can reach ----

  /** The outstanding buffers that cover the block at `o`. */
  ghost function Covering(bs: nat, bufs: Bufs, o: nat): set<nat>
    requires bs > 0
  {
    set b | b in bufs && Covers(bs, bufs[b], o)
  }

  lemma {:induction false} PairsOf(s: set<nat>, o: nat) returns (r: set<(nat, nat)>)
    ensures |r| == |s| && forall p :: p in r <==> p.1 == o && p.0 in s
    decreases |s|
  {
    if s == {} {
      r := {};
    } else {
      var b :| b in s;
      var q := PairsOf(s - {b}, o);
      r := q + {(b, o)};
    }
  }

  lemma CoveringIsHeld(bs: nat, c: CacheT, g: Shadow, o: nat)
    requires Good(bs, c, g)
    ensures |Covering(bs, c.bufs, o)| == |HeldAt(g.holds, o)|
  {
    hide QueuesOk, BucketsOk, PoolOk, LimboOk, TagsOk, Core.ContentOk, Core.Shape, HoldsOk;
    var pairs := PairsOf(Covering(bs, c.bufs, o), o);
    forall p | p in pairs ensures p in HeldAt(g.holds, o) {
      assert CoreOf(bs, c, g).BufOk(p.0);
      assert (p.0, o) in g.holds;
    }
    assert pairs == HeldAt(g.holds, o);
  }

  /** Reference counts and queues, in every reachable state. */
  lemma RefsCountBuffers(bs: nat, c: CacheT, g: Shadow, t: Ptr)
    requires Good(bs, c, g) && t in c.tags
    ensures !c.tags[t].lock ==> c.tags[t].refs == |Covering(bs, c.bufs, c.tags[t].offset)|
    ensures c.tags[t].lock ==> c.tags[t].refs > |Covering(bs, c.bufs, c.tags[t].offset)|
    ensures t in g.hq <==> c.tags[t].refs == 0
    ensures t in g.bq <==> c.tags[t].refs > 0
  {
    CoveringIsHeld(bs, c, g, c.tags[t].offset);
    RefsAndQueues(bs, c, g, t);
  }

  lemma RefsAndQueues(bs: nat, c: CacheT, g: Shadow, t: Ptr)
    requires Ok(bs, c, g, NULL) && t in c.tags
    ensures RefsOk(c.tags[t], g.holds)
    ensures t in g.hq <==> c.tags[t].refs == 0
    ensures t in g.bq <==> c.tags[t].refs > 0
  {
    hide BucketsOk, PoolOk, LimboOk, TagsOk, Core.ContentOk, Core.Shape, Core.BufsOk;
    assert Queued(g.hq, g.bq, t);
  }

  /** No block under an outstanding buffer can be evicted: it is cached, and Busy. */
  lemma CoveredIsBusy(bs: nat, c: CacheT, g: Shadow, b: nat, o: nat)
    requires Good(bs, c, g) && b in c.bufs && Covers(bs, c.bufs[b], o)
    ensures o in g.index && g.index[o] in c.tags && c.tags[g.index[o]].offset == o && g.index[o] in g.bq
  {
    CoverHeld(bs, c, g, b, o);
    HeldTag(bs, c, g, b, o);
    RefsAndQueues(bs, c, g, g.index[o]);
  }

  lemma CoverHeld(bs: nat, c: CacheT, g: Shadow, b: nat, o: nat)
    requires bs > 0 && Ok(bs, c, g, NULL) && b in c.bufs && Covers(bs, c.bufs[b], o)
    ensures (b, o) in g.holds
  {
    hide QueuesOk, BucketsOk, PoolOk, LimboOk, TagsOk, Core.ContentOk, Core.Shape, HoldsOk;
    assert CoreOf(bs, c, g).BufOk(b);
  }

  /** Memory is conserved: every block is on the free list or under exactly one tag. */
  lemma MemoryConserved(bs: nat, c: CacheT, g: Shadow)
    requires Good(bs, c, g)
    ensures c.freeSize == |g.free| && c.freeSize + |c.tags| == |c.mem|
    ensures forall k :: 0 <= k < |c.mem| ==> (k in g.free <==> !exists t :: t in c.tags && c.tags[t].buffer == k)
    ensures forall t, u :: t in c.tags && u in c.tags && c.tags[t].buffer == c.tags[u].buffer ==> t == u
  {
    hide QueuesOk, BucketsOk, LimboOk, Core.ContentOk, Core.BufsOk, HoldsOk, HoldsExact, HandlesOk, IndexOk, PoolOk;
    forall t | t in c.tags ensures c.tags[t].buffer >= 0 {
      OkWeaken(bs, c, g, t);
    }
    PoolConserved(c.mem, c.freeHead, c.freeSize, g.free, g.owner, c.tags);
  }

  lemma PoolConserved(mem: seq<Block>, head: int, size: nat, free: seq<nat>, owner: map<int, Ptr>, tags: Tags)
    requires PoolOk(mem, head, size, free, owner, tags)
    requires forall t :: t in tags ==> 0 <= tags[t].buffer < |mem| && mem[tags[t].buffer].Data?
    requires forall t :: t in tags ==> tags[t].buffer in owner && owner[tags[t].buffer] == t
    ensures size == |free| && |free| + |tags| == |mem|
    ensures forall k :: 0 <= k < |mem| ==> (k in free <==> !exists t :: t in tags && tags[t].buffer == k)
  {
    var used := set t | t in tags :: tags[t].buffer;
    BuffersCount(tags, owner, used);
    DistinctCount(free);
    var freeSet: set<int> := Members(free);
    PoolSplit(mem, head, size, free, owner, tags, used);
    PartitionCount(|mem|, freeSet, used);
  }

  lemma PartitionCount(n: nat, a: set<int>, b: set<int>)
    requires forall k :: k in a ==> 0 <= k < n && k !in b
    requires forall k :: k in b ==> 0 <= k < n
    requires forall k :: 0 <= k < n && k !in a ==> k in b
    ensures |a| + |b| == n
  {
    assert Range(n) == a + b;
    assert a !! b;
  }

  lemma PoolSplit(mem: seq<Block>, head: int, size: nat, free: seq<nat>, owner: map<int, Ptr>, tags: Tags, used: set<int>)
    requires PoolOk(mem, head, size, free, owner, tags)
    requires forall t :: t in tags ==> 0 <= tags[t].buffer < |mem| && mem[tags[t].buffer].Data?
    requires used == set t | t in tags :: tags[t].buffer
    ensures forall k :: k in used ==> 0 <= k < |mem| && k !in free
    ensures forall k :: k in free ==> k < |mem|
    ensures forall k :: 0 <= k < |mem| && k !in free ==> k in used
  {
    forall k | k in free ensures k < |mem| && mem[k].Free? {
      var i :| 0 <= i < |free| && free[i] == k;
    }
    forall k | 0 <= k < |mem| && k !in free ensures k in used {
      assert owner[k] in tags && tags[owner[k]].buffer == k;
    }
  }

  lemma {:induction false} BuffersCount(tags: Tags, owner: map<int, Ptr>, used: set<int>)
    requires forall t :: t in tags ==> tags[t].buffer in owner && owner[tags[t].buffer] == t
    requires used == set t | t in tags :: tags[t].buffer
    ensures |used| == |tags|
    decreases |tags|
  {
    if tags != map[] {
      var t :| t in tags;
      var rest := tags - {t};
      assert |rest| == |tags| - 1 by { assert tags.Keys == rest.Keys + {t}; }
      BuffersCount(rest, owner, used - {tags[t].buffer});
    } else {
      assert used == {};
    }
  }

  /** Each offset has at most one tag, and it lies in bucket `offset % HashSize`. */
  lemma TagsHashed(bs: nat, c: CacheT, g: Shadow)
    requires Good(bs, c, g)
    ensures |g.lists| == |c.chains.hash| > 0
    ensures forall t, u :: t in c.tags && u in c.tags && c.tags[t].offset == c.tags[u].offset ==> t == u
    ensures forall t :: t in c.tags ==> t in g.lists[c.tags[t].offset % |g.lists|]
    ensures forall h :: 0 <= h < |g.lists| ==> Chain(c.chains.next, c.chains.prev, c.chains.hash[h], g.lists[h])
  {
    hide QueuesOk, PoolOk, LimboOk, Core.ContentOk, Core.BufsOk, HoldsOk, HoldsExact, HandlesOk, MemOk, Chain;
    forall t | t in c.tags ensures t in g.lists[c.tags[t].offset % |g.lists|] {
      BucketHas(c.tags, c.chains, g.lists, t);
      BaseIsMod(|g.lists|, c.tags[t].offset);
    }
  }

  /** A block that is neither held, nor marked lazy, nor locked is on the device. */
  lemma CleanOnDevice(bs: nat, c: CacheT, g: Shadow, o: nat)
    requires Good(bs, c, g) && Aligned(bs, o) && o + bs <= |c.device|
    requires Covering(bs, c.bufs, o) == {}
    requires o in g.index ==> g.index[o] in c.tags && !c.tags[g.index[o]].lazy && !c.tags[g.index[o]].lock
    ensures |g.logical| == |c.device| && c.device[o..o + bs] == g.logical[o..o + bs]
  {
    hide Good, Core.Inv, Covering;
    NobodyHolds(bs, c, g, o);
    CleanBlock(CoreOf(bs, c, g), o);
  }

  lemma NobodyHolds(bs: nat, c: CacheT, g: Shadow, o: nat)
    requires Good(bs, c, g) && Covering(bs, c.bufs, o) == {}
    ensures forall b: nat :: (b, o) !in g.holds
    ensures CoreOf(bs, c, g).Inv()
  {
    hide QueuesOk, PoolOk, LimboOk, BucketsOk, TagsOk, Core.Inv;
    CoveringIsHeld(bs, c, g, o);
    forall b: nat ensures (b, o) !in g.holds {
      assert (b, o) !in HeldAt(g.holds, o);
    }
  }

  lemma CleanBlock(d: Core, o: nat)
    requires d.Inv() && Aligned(d.bs, o) && o + d.bs <= |d.device| && forall b: nat :: (b, o) !in d.holds
    requires o in d.index ==> d.index[o] in d.tags && !d.tags[d.index[o]].lazy && !d.tags[d.index[o]].lock
    ensures |d.logical| == |d.device| && d.device[o..o + d.bs] == d.logical[o..o + d.bs]
  {
    hide Core.BufsOk, HoldsOk, MemOk;
    assert d.BlockOk(o) && d.DeviceAgrees(o);
    var v, w := d.device[o..o + d.bs], d.logical[o..o + d.bs];
    forall i | 0 <= i < d.bs ensures v[i] == w[i] {
      UnheldIsNotDirty(d, o, o + i);
      assert v[(o + i) - o] == d.logical[o + i];
    }
  }

  /** No outstanding buffer covers the block at `o`, and no write has locked it. */
  ghost predicate Idle(bs: nat, c: CacheT, g: Shadow, o: nat)
    requires bs > 0
  {
    Covering(bs, c.bufs, o) == {} && (o in g.index && g.index[o] in c.tags ==> !c.tags[g.index[o]].lock)
  }

  /** With nothing marked lazy, the device is up to date except where clients are at work. */
  lemma FlushedOnDevice(bs: nat, c: CacheT, g: Shadow)
    requires Good(bs, c, g) && forall t :: t in c.tags ==> !c.tags[t].lazy
    ensures |g.logical| == |c.device|
    ensures forall o: nat :: Aligned(bs, o) && o + bs <= |c.device| && Idle(bs, c, g, o) ==>
              c.device[o..o + bs] == g.logical[o..o + bs]
  {
    hide QueuesOk, PoolOk, LimboOk, BucketsOk, TagsOk, Core.ContentOk, Core.BufsOk, HoldsOk, MemOk;
    forall o: nat | Aligned(bs, o) && o + bs <= |c.device| && Idle(bs, c, g, o)
      ensures c.device[o..o + bs] == g.logical[o..o + bs]
    {
      CleanOnDevice(bs, c, g, o);
    }
  }

  /** What a client sees has the length it asked for. */
  lemma ViewLength(bs: nat, c: CacheT, g: Shadow, b: nat)
    requires bs > 0 && Ok(bs, c, g, NULL) && b in c.bufs
    ensures |View(bs, c.mem, c.bufs[b])| == c.bufs[b].length > 0 && c.bufs[b].offset + c.bufs[b].length <= |g.logical|
    ensures !c.bufs[b].span ==> WindowOk(bs, c.mem, c.bufs[b])
  {
    hide QueuesOk, BucketsOk, PoolOk, TagsOk, LimboOk, Core.ContentOk, HoldsOk;
    assert CoreOf(bs, c, g).BufOk(b);
    if !c.bufs[b].span { DirectBuf(CoreOf(bs, c, g), b); }
  }
}
