/** Which blocks a cache cannot give up, and when there is room for others. */
module CacheRoom {
  import opened Lists
  import opened Blocks
  import opened LruQueues
  import opened CacheCore
  import opened CacheLists
  import opened CacheState

  /** The blocks that a range touches. */
  ghost function Touched(bs: nat, off: nat, len: nat): set<nat>
    requires bs > 0
  {
    set o: nat | 0 <= o < off + len && Aligned(bs, o) && off < o + bs
  }

  /** The blocks from `lo` up to `hi`. */
  ghost function Between(bs: nat, lo: nat, hi: nat): set<nat>
    requires bs > 0
  {
    set o: nat | lo <= o < hi && Aligned(bs, o)
  }

  lemma BetweenNext(bs: nat, lo: nat, hi: nat)
    requires bs > 0 && Aligned(bs, hi) && lo <= hi
    ensures Between(bs, lo, hi + bs) == Between(bs, lo, hi) + {hi} && Between(bs, lo, lo) == {}
  {
    forall o: nat | hi < o < hi + bs ensures !Aligned(bs, o) {
      if Aligned(bs, o) { BlocksApart(bs, hi, o); }
    }
  }

  /** A range touches the blocks from that of its first byte on. */
  lemma TouchedIs(bs: nat, off: nat, len: nat, lo: nat, end: nat)
    requires bs > 0 && lo == Base(bs, off) && 0 < len && Aligned(bs, end) && off + len <= end < off + len + bs
    ensures Touched(bs, off, len) == Between(bs, lo, end) == {lo} + Between(bs, lo + bs, end)
  {
    forall o: nat | Aligned(bs, o) ensures o in Touched(bs, off, len) <==> lo <= o < end {
      if o < lo { BlocksApart(bs, o, lo); }
      if o < end { BlocksApart(bs, o, end); }
    }
    forall o: nat | lo < o < lo + bs ensures !Aligned(bs, o) {
      if Aligned(bs, o) { BlocksApart(bs, lo, o); }
    }
  }

  lemma TouchedOne(bs: nat, off: nat, len: nat)
    requires bs > 0 && 0 < len && off + len <= Base(bs, off) + bs
    ensures Touched(bs, off, len) == {Base(bs, off)}
  {
    var lo := Base(bs, off);
    forall o: nat | o in Touched(bs, off, len) ensures o == lo {
      if o < lo { BlocksApart(bs, o, lo); } else if lo < o { BlocksApart(bs, lo, o); }
    }
  }

  /** The blocks whose tags have references: none of them can be evicted. */
  ghost function Pinned(tags: Tags): set<nat> {
    set t | t in tags && tags[t].refs > 0 :: tags[t].offset
  }

  /** The blocks that a write has locked. */
  ghost function Locked(tags: Tags): set<nat> {
    set t | t in tags && tags[t].lock :: tags[t].offset
  }

  /** A locked tag always has a reference. */
  lemma LockedIsPinned(bs: nat, c: CacheT, g: Shadow, limbo: Ptr)
    requires Ok(bs, c, g, limbo)
    ensures forall t :: t in c.tags && c.tags[t].lock ==> c.tags[t].refs > 0
  {
    hide QueuesOk, BucketsOk, PoolOk, LimboOk, TagsOk, Core.ContentOk, Core.BufsOk, MemOk, IndexOk;
    forall t | t in c.tags && c.tags[t].lock ensures c.tags[t].refs > 0 {
      assert RefsOk(c.tags[t], g.holds);
    }
  }

  /** Evicting unreferenced tags and adding a new one pins and locks nothing else. */
  lemma PinnedKept(tags: Tags, tags': Tags, t: Ptr)
    requires TagsKeptBut(tags, tags', t) && t !in tags && t in tags' && tags'[t].refs == 0 && !tags'[t].lock
    requires forall u :: u in tags && tags[u].lock ==> tags[u].refs > 0
    ensures Pinned(tags') == Pinned(tags) && Locked(tags') == Locked(tags)
  {
    forall u | u in tags && tags[u].refs > 0 ensures u in tags' && tags'[u] == tags[u] {}
  }

  /** Storing counts and flags of one tag. */
  lemma PinnedStored(tags: Tags, t: Ptr, x: Tag)
    requires t in tags && x.offset == tags[t].offset
    ensures x.refs > 0 ==> Pinned(tags[t := x]) == Pinned(tags) + {x.offset}
    ensures x.lock ==> Locked(tags[t := x]) == Locked(tags) + {x.offset}
    ensures x.lock == tags[t].lock ==> Locked(tags[t := x]) == Locked(tags)
  {
    var tags' := tags[t := x];
    forall u | u in tags && u != t ensures u in tags' && tags'[u] == tags[u] {}
    assert t in tags' && tags'[t] == x;
  }

  // ---- Room ----

  /** The tags of a cache, one for each block of memory that is not free. */
  lemma TagsFit(bs: nat, c: CacheT, g: Shadow)
    requires Ok(bs, c, g, NULL)
    ensures |g.free| + |c.tags| == |c.mem|
  {
    hide QueuesOk, BucketsOk, LimboOk, Core.ContentOk, Core.BufsOk, HoldsOk, IndexOk, PoolOk;
    forall t | t in c.tags ensures c.tags[t].buffer >= 0 {
      OkWeaken(bs, c, g, t);
    }
    PoolConserved(c.mem, c.freeHead, c.freeSize, g.free, g.owner, c.tags);
  }

  ghost function Offsets(tags: Tags): set<nat> {
    set t | t in tags :: tags[t].offset
  }

  lemma {:induction false} OffsetsCount(tags: Tags, index: Index)
    requires forall t :: t in tags ==> tags[t].offset in index && index[tags[t].offset] == t
    ensures |Offsets(tags)| == |tags|
    decreases |tags|
  {
    if tags != map[] {
      var t :| t in tags;
      var rest := tags - {t};
      assert |rest| == |tags| - 1 by { assert tags.Keys == rest.Keys + {t}; }
      OffsetsCount(rest, index);
      OffsetsSplit(tags, index, t);
    } else {
      assert Offsets(tags) == {};
    }
  }

  lemma OffsetsSplit(tags: Tags, index: Index, t: Ptr)
    requires t in tags && forall u :: u in tags ==> tags[u].offset in index && index[tags[u].offset] == u
    ensures |Offsets(tags)| == |Offsets(tags - {t})| + 1
  {
    var rest := tags - {t};
    forall o | o in Offsets(tags) && o != tags[t].offset ensures o in Offsets(rest) {
      var u :| u in tags && tags[u].offset == o;
      assert u in rest && rest[u] == tags[u];
    }
    assert Offsets(tags) == Offsets(rest) + {tags[t].offset};
    assert tags[t].offset !in Offsets(rest);
  }

  lemma OffsetsFit(bs: nat, c: CacheT, g: Shadow)
    requires Ok(bs, c, g, NULL)
    ensures |Offsets(c.tags)| == |c.tags| && |g.free| + |c.tags| == |c.mem|
    ensures forall o :: o in Offsets(c.tags) <==> o in g.index
    ensures forall t :: t in c.tags ==> t in g.hq || c.tags[t].refs > 0
  {
    TagsFit(bs, c, g);
    hide BucketsOk, PoolOk, LimboOk, TagsOk, Core.ContentOk, Core.BufsOk, MemOk, HoldsOk;
    OffsetsCount(c.tags, g.index);
    forall t | t in c.tags ensures t in g.hq || c.tags[t].refs > 0 {
      assert Queued(g.hq, g.bq, t);
    }
  }

  /** With no free block and nothing to evict, every block of memory is pinned: the blocks
      that would have to be there together are more than fit. */
  lemma RoomEnough(bs: nat, c: CacheT, g: Shadow, off: nat, needed: set<nat>)
    requires Ok(bs, c, g, NULL) && off !in g.index && off in needed && Pinned(c.tags) <= needed && |needed| <= |c.mem|
    ensures g.free != [] || g.hq != []
  {
    hide Ok;
    OffsetsFit(bs, c, g);
    if g.free == [] && g.hq == [] {
      assert Offsets(c.tags) <= needed - {off};
      SubsetCount(Offsets(c.tags), needed - {off});
    }
  }

  /** Pinned blocks have memory, and are on the device. */
  lemma PinnedFits(bs: nat, c: CacheT, g: Shadow)
    requires Ok(bs, c, g, NULL)
    ensures |Pinned(c.tags)| <= |c.mem| && forall o :: o in Pinned(c.tags) ==> o + bs <= |c.device|
  {
    OffsetsFit(bs, c, g);
    assert Pinned(c.tags) <= Offsets(c.tags);
    SubsetCount(Pinned(c.tags), Offsets(c.tags));
    hide QueuesOk, BucketsOk, PoolOk, LimboOk, Core.ContentOk, Core.BufsOk, HoldsOk, IndexOk;
    forall t | t in c.tags ensures c.tags[t].offset + bs <= |c.device| {
      OkWeaken(bs, c, g, t);
    }
  }

  /** A read of `[off, off + len)` finds its blocks on the device, and memory for those that
      are in use and its own together. */
  ghost predicate Readable(bs: nat, c: CacheT, off: nat, len: nat)
    requires bs > 0
  {
    && (forall o :: o in Touched(bs, off, len) ==> o + bs <= |c.device|)
    && |Pinned(c.tags) + Touched(bs, off, len)| <= |c.mem|
  }

  /** `needed` blocks fit memory, and include those in use and those of the range, which are
      on the device. */
  ghost predicate Enough(needed: set<nat>, bs: nat, c: CacheT, off: nat, len: nat)
    requires bs > 0
  {
    && |needed| <= |c.mem| && Touched(bs, off, len) <= needed && Pinned(c.tags) <= needed
    && forall o :: o in Touched(bs, off, len) ==> o + bs <= |c.device|
  }

  lemma EnoughFor(bs: nat, c: CacheT, off: nat, len: nat)
    requires bs > 0 && Readable(bs, c, off, len)
    ensures Enough(Pinned(c.tags) + Touched(bs, off, len), bs, c, off, len)
  {
  }

  lemma EnoughHas(needed: set<nat>, bs: nat, c: CacheT, off: nat, len: nat, o: nat)
    requires bs > 0 && Enough(needed, bs, c, off, len) && Aligned(bs, o) && o < off + len && off < o + bs
    ensures o in needed && o + bs <= |c.device| && |needed| <= |c.mem| && Pinned(c.tags) <= needed
  {
    assert o in Touched(bs, off, len);
  }

  /** From `c0` to `c` the blocks of `s`, and no others, were pinned, and none locked. */
  ghost predicate Took(c0: CacheT, c: CacheT, s: set<nat>) {
    && Pinned(c.tags) == Pinned(c0.tags) + s && Locked(c.tags) == Locked(c0.tags)
    && |c.mem| == |c0.mem| && |c.device| == |c0.device|
  }

  lemma TookNone(c: CacheT)
    ensures Took(c, c, {})
  {
  }

  lemma TookIs(c0: CacheT, c: CacheT, s: set<nat>)
    requires Pinned(c.tags) == Pinned(c0.tags) + s && Locked(c.tags) == Locked(c0.tags) && c.mem == c0.mem && c.device == c0.device
    ensures Took(c0, c, s)
  {
  }

  /** A spanning read takes its first block and the others. */
  lemma SpanTook(bs: nat, c0: CacheT, c1: CacheT, c: CacheT, off: nat, len: nat, lo: nat, end: nat)
    requires bs > 0 && lo == Base(bs, off) && 0 < len && Aligned(bs, end) && off + len <= end < off + len + bs
    requires Took(c0, c1, Between(bs, lo, lo + bs)) && Took(c1, c, Between(bs, lo + bs, end))
    ensures Took(c0, c, Touched(bs, off, len))
  {
    hide Took, Touched, Aligned;
    TouchedIs(bs, off, len, lo, end);
    BetweenNext(bs, lo, lo);
    assert {} + {lo} == {lo};
    TookMore(c0, c1, c, {lo}, Between(bs, lo + bs, end));
  }

  lemma TookFrame(c0: CacheT, c: CacheT, c': CacheT, s: set<nat>)
    requires Took(c0, c, s) && c'.tags == c.tags && c'.mem == c.mem && c'.device == c.device
    ensures Took(c0, c', s)
  {
  }

  lemma TookMore(c0: CacheT, c1: CacheT, c2: CacheT, s: set<nat>, t: set<nat>)
    requires Took(c0, c1, s) && Took(c1, c2, t)
    ensures Took(c0, c2, s + t)
  {
    hide Pinned, Locked;
  }

  /** There is still enough after blocks of the range were pinned. */
  lemma EnoughStill(needed: set<nat>, bs: nat, c0: CacheT, c: CacheT, off: nat, len: nat, lo: nat, hi: nat)
    requires bs > 0 && Enough(needed, bs, c0, off, len) && Took(c0, c, Between(bs, lo, hi)) && off < lo + bs && hi < off + len + bs
    requires Aligned(bs, hi)
    ensures Enough(needed, bs, c, off, len)
  {
    hide Pinned, Locked;
    forall o | o in Between(bs, lo, hi) ensures o in Touched(bs, off, len) {
      BlocksApart(bs, o, hi);
    }
  }

  /** What a read has pinned was readable. */
  lemma PinnedReadable(bs: nat, c: CacheT, c': CacheT, g': Shadow, off: nat, len: nat)
    requires bs > 0 && Good(bs, c', g') && Took(c, c', Touched(bs, off, len))
    ensures Readable(bs, c, off, len)
  {
    GoodParts(bs, c', g');
    hide Ok, Good, Pinned, Touched;
    PinnedFits(bs, c', g');
  }

  lemma VictimIsTag(bs: nat, c: CacheT, g: Shadow)
    requires Ok(bs, c, g, NULL)
    ensures g.hq != [] ==> g.hq[|g.hq| - 1] in c.tags
  {
    if g.hq != [] { VictimOnDevice(bs, c, g); }
  }

  /** The tag at the back of Head has a block on the device. */
  lemma VictimOnDevice(bs: nat, c: CacheT, g: Shadow)
    requires Ok(bs, c, g, NULL) && g.hq != []
    ensures var v := g.hq[|g.hq| - 1]; v in c.tags && Aligned(bs, c.tags[v].offset) && c.tags[v].offset + bs <= |c.device|
  {
    hide BucketsOk, PoolOk, LimboOk, Core.ContentOk, Core.BufsOk, HoldsOk, IndexOk;
    var v := g.hq[|g.hq| - 1];
    assert v in g.hq;
    OkWeaken(bs, c, g, v);
  }

  /** The blocks under outstanding buffers. */
  ghost function Covered(bs: nat, bufs: Bufs): set<nat>
    requires bs > 0
  {
    set b, o | b in bufs && o in Touched(bs, bufs[b].offset, bufs[b].length) :: o
  }

  /** Between operations exactly the covered and the locked blocks are pinned. */
  lemma PinnedIs(bs: nat, c: CacheT, g: Shadow)
    requires bs > 0 && Good(bs, c, g)
    ensures Pinned(c.tags) == Covered(bs, c.bufs) + Locked(c.tags)
  {
    hide Good, Covered, Pinned, Locked;
    forall o | o in Pinned(c.tags) ensures o in Covered(bs, c.bufs) + Locked(c.tags) {
      PinnedWhy(bs, c, g, o);
    }
    forall o | o in Covered(bs, c.bufs) + Locked(c.tags) ensures o in Pinned(c.tags) {
      if o in Covered(bs, c.bufs) { CoveredIsPinned(bs, c, g, o); } else { LockPins(bs, c, g, o); }
    }
  }

  lemma PinnedWhy(bs: nat, c: CacheT, g: Shadow, o: nat)
    requires bs > 0 && Good(bs, c, g) && o in Pinned(c.tags)
    ensures o in Covered(bs, c.bufs) || o in Locked(c.tags)
  {
    hide Good;
    var t :| t in c.tags && c.tags[t].refs > 0 && c.tags[t].offset == o;
    RefsCountBuffers(bs, c, g, t);
    if !c.tags[t].lock {
      var b :| b in Covering(bs, c.bufs, o);
      assert o in Touched(bs, c.bufs[b].offset, c.bufs[b].length);
    }
  }

  lemma LockPins(bs: nat, c: CacheT, g: Shadow, o: nat)
    requires bs > 0 && Good(bs, c, g) && o in Locked(c.tags)
    ensures o in Pinned(c.tags)
  {
    GoodParts(bs, c, g);
    hide Good, Ok;
    LockedIsPinned(bs, c, g, NULL);
  }

  lemma CoveredIsPinned(bs: nat, c: CacheT, g: Shadow, o: nat)
    requires bs > 0 && Good(bs, c, g) && o in Covered(bs, c.bufs)
    ensures o in Pinned(c.tags)
  {
    hide Good;
    var b :| b in c.bufs && o in Touched(bs, c.bufs[b].offset, c.bufs[b].length);
    CoveredIsBusy(bs, c, g, b, o);
    RefsCountBuffers(bs, c, g, g.index[o]);
  }

  lemma DeviceSize(bs: nat, c: CacheT, g: Shadow)
    requires Good(bs, c, g)
    ensures |g.logical| == |c.device|
  {
    hide QueuesOk, BucketsOk, PoolOk, LimboOk, TagsOk, Core.ContentOk, Core.BufsOk, HoldsOk, MemOk, IndexOk, HoldsExact, HandlesOk;
  }

  // ---- Locks ----

  /** From `c0` to `c` the blocks of `s` were locked, if `lock`, and no others. */
  ghost predicate Locks(c0: CacheT, c: CacheT, lock: bool, s: set<nat>) {
    && Locked(c.tags) == Locked(c0.tags) + (if lock then s else {})
    && |c.mem| == |c0.mem| && |c.device| == |c0.device|
  }

  lemma LocksNone(c: CacheT, lock: bool)
    ensures Locks(c, c, lock, {})
  {
  }

  lemma LocksMore(c0: CacheT, c1: CacheT, c2: CacheT, lock: bool, s: set<nat>, t: set<nat>)
    requires Locks(c0, c1, lock, s) && Locks(c1, c2, lock, t)
    ensures Locks(c0, c2, lock, s + t)
  {
    hide Locked;
  }

  lemma LocksFrame(c0: CacheT, c0': CacheT, c: CacheT, c': CacheT, lock: bool, s: set<nat>)
    requires Locks(c0, c, lock, s) && c'.tags == c.tags && c'.mem == c.mem && c'.device == c.device
    requires c0'.tags == c0.tags && |c0'.mem| == |c0.mem| && c0'.device == c0.device
    ensures Locks(c0', c', lock, s)
  {
  }

  /** A spanning write locks its first block and the others. */
  lemma SpanLocks(bs: nat, c0: CacheT, c1: CacheT, c: CacheT, lock: bool, off: nat, len: nat, lo: nat, end: nat)
    requires bs > 0 && lo == Base(bs, off) && 0 < len && Aligned(bs, end) && off + len <= end < off + len + bs
    requires Locks(c0, c1, lock, {lo}) && Locks(c1, c, lock, Between(bs, lo + bs, end))
    ensures Locks(c0, c, lock, Touched(bs, off, len))
  {
    hide Locks, Touched, Aligned;
    TouchedIs(bs, off, len, lo, end);
    LocksMore(c0, c1, c, lock, {lo}, Between(bs, lo + bs, end));
  }

  // ---- What a write or release leaves to be evicted ----

  /** `part`, at the front of the queue or, aged, at its back, lists exactly the tags of the
      blocks in `s` that have no references. */
  ghost predicate AtEnd(hq: seq<Ptr>, tags: Tags, s: set<nat>, age: bool, part: seq<Ptr>) {
    && |part| <= |hq| && part == (if age then hq[|hq| - |part|..] else hq[..|part|])
    && forall t :: t in part <==> t in tags && tags[t].refs == 0 && tags[t].offset in s
  }

  /** Of the blocks in `s`, those without references are the last to be evicted, or, aged,
      the first. */
  ghost predicate Parked(hq: seq<Ptr>, tags: Tags, s: set<nat>, age: bool) {
    exists part :: AtEnd(hq, tags, s, age, part)
  }

  lemma ParkedNone(hq: seq<Ptr>, tags: Tags, bs: nat, lo: nat, age: bool)
    requires bs > 0
    ensures Between(bs, lo, lo) == {} && Parked(hq, tags, Between(bs, lo, lo), age)
  {
    assert AtEnd(hq, tags, {}, age, []);
  }

  /** One more block. */
  lemma ParkedNext(g0: Shadow, g: Shadow, tags: Tags, t: Ptr, x: Tag, s: set<nat>, age: bool)
    requires Parked(g0.hq, tags, s, age) && t in tags && t !in g0.hq && x.offset == tags[t].offset && x.offset !in s
    requires forall u :: u in tags && tags[u].offset == x.offset ==> u == t
    requires HitBy(g0, g, t, x.refs > 0, age)
    ensures Parked(g.hq, tags[t := x], s + {x.offset}, age)
  {
    hide HitBy;
    HitQueue(g0, g, t, x.refs > 0, age);
    var part :| AtEnd(g0.hq, tags, s, age, part);
    AtEndNext(g0.hq, g.hq, tags, t, x, s, age, part);
  }

  lemma HitQueue(g0: Shadow, g: Shadow, t: Ptr, busy: bool, age: bool)
    requires HitBy(g0, g, t, busy, age) && t !in g0.hq
    ensures g.hq == if busy then g0.hq else if age then g0.hq + [t] else [t] + g0.hq
  {
    WithoutNone(g0.hq, t);
  }

  lemma AtEndNext(hq: seq<Ptr>, hq': seq<Ptr>, tags: Tags, t: Ptr, x: Tag, s: set<nat>, age: bool, part: seq<Ptr>)
    requires AtEnd(hq, tags, s, age, part) && t in tags && x.offset == tags[t].offset && x.offset !in s
    requires forall u :: u in tags && tags[u].offset == x.offset ==> u == t
    requires hq' == if x.refs > 0 then hq else if age then hq + [t] else [t] + hq
    ensures Parked(hq', tags[t := x], s + {x.offset}, age)
  {
    var part' := if x.refs > 0 then part else if age then part + [t] else [t] + part;
    EndGrows(hq, hq', part, part', t, age, x.refs > 0);
    MembersGrow(part, part', t, age, x.refs > 0);
    PartGrows(tags, t, x, s, part, part');
    Parking(hq', tags[t := x], s + {x.offset}, age, part');
  }

  lemma Parking(hq: seq<Ptr>, tags: Tags, s: set<nat>, age: bool, part: seq<Ptr>)
    requires |part| <= |hq| && part == (if age then hq[|hq| - |part|..] else hq[..|part|])
    requires forall t :: t in part <==> t in tags && tags[t].refs == 0 && tags[t].offset in s
    ensures Parked(hq, tags, s, age)
  {
    assert AtEnd(hq, tags, s, age, part);
  }

  lemma MembersGrow(part: seq<Ptr>, part': seq<Ptr>, t: Ptr, age: bool, busy: bool)
    requires part' == if busy then part else if age then part + [t] else [t] + part
    ensures forall u :: u in part' <==> u in part || (u == t && !busy)
  {
  }

  lemma PartGrows(tags: Tags, t: Ptr, x: Tag, s: set<nat>, part: seq<Ptr>, part': seq<Ptr>)
    requires t in tags && x.offset == tags[t].offset && x.offset !in s
    requires forall u :: u in tags && tags[u].offset == x.offset ==> u == t
    requires forall u :: u in part <==> u in tags && tags[u].refs == 0 && tags[u].offset in s
    requires forall u :: u in part' <==> u in part || (u == t && x.refs == 0)
    ensures forall u :: u in part' <==> u in tags[t := x] && tags[t := x][u].refs == 0 && tags[t := x][u].offset in s + {x.offset}
  {
  }

  lemma EndGrows(hq: seq<Ptr>, hq': seq<Ptr>, part: seq<Ptr>, part': seq<Ptr>, t: Ptr, age: bool, busy: bool)
    requires |part| <= |hq| && part == (if age then hq[|hq| - |part|..] else hq[..|part|])
    requires hq' == if busy then hq else if age then hq + [t] else [t] + hq
    requires part' == if busy then part else if age then part + [t] else [t] + part
    ensures |part'| <= |hq'| && part' == (if age then hq'[|hq'| - |part'|..] else hq'[..|part'|])
  {
  }

  lemma WithoutNone(q: seq<Ptr>, t: Ptr)
    requires t !in q
    ensures Without(q, t) == q
  {
  }

  /** The tag of a held block is on Busy, and the only one of its offset. */
  lemma HeldIsBusy(bs: nat, c: CacheT, g: Shadow, t: Ptr)
    requires Ok(bs, c, g, NULL) && t in c.tags && c.tags[t].refs > 0
    ensures t !in g.hq && forall u :: u in c.tags && c.tags[u].offset == c.tags[t].offset ==> u == t
  {
    hide BucketsOk, PoolOk, LimboOk, TagsOk, Core.ContentOk, Core.BufsOk, MemOk, HoldsOk;
  }

  /** The block at `cblk` was dropped from the references of a buffer. */
  lemma ParkedBlock(bs: nat, c0: CacheT, g0: Shadow, c: CacheT, g: Shadow, t: Ptr, lo: nat, cblk: nat, age: bool)
    requires bs > 0 && Ok(bs, c0, g0, NULL) && t in c0.tags && c0.tags[t].refs > 0 && c0.tags[t].offset == cblk
    requires t in c.tags && c.tags == c0.tags[t := c.tags[t]] && c.tags[t].offset == cblk
    requires HitBy(g0, g, t, c.tags[t].refs > 0, age) && Aligned(bs, cblk) && lo <= cblk
    requires Parked(g0.hq, c0.tags, Between(bs, lo, cblk), age)
    ensures Parked(g.hq, c.tags, Between(bs, lo, cblk + bs), age)
  {
    hide Ok, HitBy, Parked;
    HeldIsBusy(bs, c0, g0, t);
    BetweenNext(bs, lo, cblk);
    ParkedNext(g0, g, c0.tags, t, c.tags[t], Between(bs, lo, cblk), age);
  }
}
