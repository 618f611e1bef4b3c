/** The write-back block cache of fsck (src/fsck_hfs/cache.c) refines a flat array
    of bytes. */
module BlockCache {
  import opened Bytes
  import opened Lists
  import opened Blocks
  import opened LruQueues
  import opened HashChains
  import opened CacheCore
  import opened CacheSteps
  import opened CacheLists
  import opened CacheState
  import opened CacheRoom

  class Cache {
    const blockSize: nat
    const devBlockSize: nat

    /** Says of each transfer to or from the device, in order, whether it fails. */
    const fault: nat -> bool

    var c: CacheT
    ghost var g: Shadow

    ghost predicate Valid()
      reads this
    {
      devBlockSize > 0 && blockSize > 0 && Good(blockSize, c, g)
    }

    /** The flat byte array, with its checked-out ranges, that the cache stands for. */
    ghost function Flat(): Flat
      requires blockSize > 0
      reads this
    {
      AbsOf(blockSize, c, g)
    }

    /** CacheInit: every block of memory is on the free list, nothing is cached, and
        the flat array is what is on the device. */
    constructor (dev: seq<Byte>, devBlock: nat, cacheBlock: nat, totalBlocks: nat, hashSize: nat, fault: nat -> bool)
      requires devBlock > 0 && cacheBlock > 0 && totalBlocks > 0 && hashSize > 0
      ensures Valid() && Flat() == CacheCore.Flat(dev, map[])
      ensures devBlockSize == devBlock && blockSize == cacheBlock && this.fault == fault && c.device == dev && c.tags == map[]
      ensures |c.mem| == totalBlocks && |c.chains.hash| == hashSize && c.freeBufs == seq(MAXBUFS, i => i)
    {
      devBlockSize, blockSize, this.fault := devBlock, cacheBlock, fault;
      var mem := FreeMemory(totalBlocks);
      var dummies: map<Ptr, Ptr> := map[HEAD := HEAD, BUSY := BUSY];
      c := CacheT(Links(dummies, dummies), Chains(seq(hashSize, _ => NULL), map[], map[]), map[], BUSY + 1,
                  mem, 0, totalBlocks, map[], seq(MAXBUFS, i => i), dev, 0, 0, 0, 0, 0, 0);
      g := Shadow([], [], seq(hashSize, _ => []), seq(totalBlocks, i => i), map[], map[], dev, {}, {});
      new;
      InitOk(blockSize, c, g);
    }

    /** Threads the free list through fresh cache memory. */
    static method FreeMemory(n: nat) returns (mem: seq<Block>)
      requires n > 0
      ensures |mem| == n && forall i :: 0 <= i < n ==> mem[i] == Free(if i + 1 < n then i + 1 else NONE)
    {
      mem := [];
      var i := 0;
      while i < n - 1
        invariant 0 <= i <= n - 1 && |mem| == i
        invariant forall j :: 0 <= j < i ==> mem[j] == Free(j + 1)
      {
        mem := mem + [Free(i + 1)];
        i := i + 1;
      }
      mem := mem + [Free(NONE)];
    }

    // ---- The device ----

    /** The block at `off` of a device of `size` bytes can be transferred after `n` others. */
    ghost predicate Transfers(off: nat, size: nat, n: nat) {
      && devBlockSize > 0 && off % devBlockSize == 0 && blockSize % devBlockSize == 0
      && off + blockSize <= size && !fault(n)
    }

    /** Every transfer of whole blocks succeeds. */
    ghost predicate Reliable() {
      devBlockSize > 0 && blockSize % devBlockSize == 0 && forall n: nat :: !fault(n)
    }

    lemma ReliableTransfers(off: nat, size: nat, n: nat)
      requires Reliable() && blockSize > 0 && Aligned(blockSize, off) && off + blockSize <= size
      ensures Transfers(off, size, n)
    {
      var q := AlignedMultiple(blockSize, off);
      MultipleOfMultiple(q, blockSize, devBlockSize);
    }

    method CacheRawRead(off: nat) returns (err: Err, data: seq<Byte>)
      requires devBlockSize > 0
      modifies this`c
      ensures c == old(c).(diskRead := c.diskRead, io := c.io) && err != ENOMEM && err != ENOBUFS
      ensures err == EOK <==> Transfers(off, |c.device|, old(c.io))
      ensures err == EOK ==> data == c.device[off..off + blockSize] && c.io == old(c.io) + 1
    {
      data := [];
      if off % devBlockSize != 0 || blockSize % devBlockSize != 0 {
        return EINVAL, data;
      }
      if off + blockSize > |c.device| {
        return ENXIO, data;
      }
      c := c.(io := c.io + 1);
      if fault(c.io - 1) {
        return EIO, data;
      }
      data := c.device[off..off + blockSize];
      c := c.(diskRead := c.diskRead + 1);
      err := EOK;
    }

    method CacheRawWrite(off: nat, data: seq<Byte>) returns (err: Err)
      requires devBlockSize > 0 && |data| == blockSize
      modifies this`c
      ensures c == old(c).(device := c.device, diskWrite := c.diskWrite, io := c.io)
      ensures err == EOK <==> Transfers(off, |old(c.device)|, old(c.io))
      ensures err == EOK ==> c.device == Splice(old(c.device), off, data) && c.io == old(c.io) + 1
      ensures err != EOK ==> c == old(c).(io := c.io)
    {
      if off % devBlockSize != 0 || blockSize % devBlockSize != 0 {
        return EINVAL;
      }
      if off + blockSize > |c.device| {
        return ENXIO;
      }
      c := c.(io := c.io + 1);
      if fault(c.io - 1) {
        return EIO;
      }
      c := c.(diskWrite := c.diskWrite + 1, device := Splice(c.device, off, data));
      err := EOK;
    }

    // ---- Queues and memory ----

    /** Registers activity on `t`: with references it moves to the front of Busy, without
        to the front of Head, or, aged, to its back, where victims are taken. */
    method LRUHit(t: Ptr, age: bool)
      requires t in c.tags && QueuesOk(c.tags, c.lru, g.hq, g.bq, t) && LimboOk(c.lru, g.hq, g.bq, t)
      modifies this
      ensures c == old(c).(lru := c.lru) && g == old(g).(hq := g.hq, bq := g.bq)
      ensures QueuesOk(c.tags, c.lru, g.hq, g.bq, NULL)
      ensures HitBy(old(g), g, t, c.tags[t].refs > 0, age)
    {
      HitOk(c.tags, c.lru, g.hq, g.bq, t, age);
      var busy := c.tags[t].refs > 0;
      c := c.(lru := Hit(c.lru, t, busy, age));
      g := g.(hq := HeadHit(g.hq, t, busy, age), bq := BusyHit(g.bq, t, busy));
    }

    /** Pops the free list, whose links are stored in the free blocks themselves. */
    method CacheAllocBlock() returns (k: int)
      requires c.freeSize == |g.free| && c.freeHead == LinkOf(g.free, 0)
      requires g.free != [] ==> g.free[0] < |c.mem| && c.mem[g.free[0]] == Free(LinkOf(g.free, 1))
      modifies this
      ensures k == NONE ==> c == old(c) && g == old(g) && g.free == []
      ensures k != NONE ==>
                && old(g.free) != [] && k == old(c.freeHead)
                && c == old(c).(freeHead := LinkOf(old(g.free), 1), freeSize := old(c.freeSize) - 1)
                && g == old(g).(free := old(g.free)[1..])
    {
      if c.freeHead == NONE || c.freeSize == 0 {
        return NONE;
      }
      k := c.freeHead;
      c := c.(freeHead := c.mem[k].link, freeSize := c.freeSize - 1);
      g := g.(free := g.free[1..]);
    }

    // ---- Removing a tag ----

    /** If the tag is marked for lazy write, its block can be written out. */
    ghost predicate Removable(c: CacheT, t: Ptr) {
      t in c.tags && (c.tags[t].lazy ==> Transfers(c.tags[t].offset, |c.device|, c.io))
    }

    /** A block of memory can be had: one is free, or the tag at the back of Head can go. */
    ghost predicate HasRoom(c: CacheT, g: Shadow) {
      g.free != [] || (g.hq != [] && Removable(c, g.hq[|g.hq| - 1]))
    }

    /** The transfers that making room takes. */
    ghost function Writes(c: CacheT, g: Shadow): nat {
      if g.free == [] && g.hq != [] && g.hq[|g.hq| - 1] in c.tags && c.tags[g.hq[|g.hq| - 1]].lazy then 1 else 0
    }

    /** The block at `off` can be loaded. */
    ghost predicate Loads(c: CacheT, g: Shadow, off: nat) {
      HasRoom(c, g) && Transfers(off, |c.device|, c.io + Writes(c, g))
    }

    method CacheFreeBlock(t: Ptr) returns (err: Err)
      requires devBlockSize > 0 && t in c.tags && 0 <= c.tags[t].buffer < |c.mem|
      requires c.mem[c.tags[t].buffer].Data? && |c.mem[c.tags[t].buffer].bytes| == blockSize
      modifies this
      ensures c == old(c).(device := c.device, diskWrite := c.diskWrite, io := c.io, tags := c.tags, mem := c.mem,
                           freeHead := c.freeHead, freeSize := c.freeSize)
      ensures g == old(g).(free := g.free)
      ensures err == EOK <==> old(c.tags[t].lazy) ==> Transfers(old(c.tags[t].offset), |old(c.device)|, old(c.io))
      ensures err == EOK ==> c.io == old(c.io) + if old(c.tags[t].lazy) then 1 else 0
      ensures err == EOK ==> c.device == (if old(c.tags[t].lazy) && old(c.tags[t].offset) + blockSize <= |old(c.device)|
                                          then Splice(old(c.device), old(c.tags[t].offset), old(c.mem[c.tags[t].buffer].bytes))
                                          else old(c.device))
      ensures err == EOK ==> c.tags == old(c.tags)[t := old(c.tags[t]).(lazy := false)]
      ensures err == EOK && !old(c.tags[t].lock) ==>
                && c.mem == old(c.mem)[old(c.tags[t].buffer) := Free(old(c.freeHead))]
                && c.freeHead == old(c.tags[t].buffer) && c.freeSize == old(c.freeSize) + 1 && g.free == [c.freeHead] + old(g.free)
      ensures err != EOK || old(c.tags[t].lock) ==>
                c.mem == old(c.mem) && c.freeHead == old(c.freeHead) && c.freeSize == old(c.freeSize) && g.free == old(g.free)
    {
      if c.tags[t].lazy {
        err := CacheRawWrite(c.tags[t].offset, c.mem[c.tags[t].buffer].bytes);
        if err != EOK {
          return;
        }
      }
      c := c.(tags := c.tags[t := c.tags[t].(lazy := false)]);
      if !c.tags[t].lock {
        var k: nat := c.tags[t].buffer;
        c := c.(mem := c.mem[k := Free(c.freeHead)], freeHead := k, freeSize := c.freeSize + 1);
        g := g.(free := [k] + g.free);
      }
      err := EOK;
    }

    /** Disposes of a tag that is on no queue: out of its bucket, out of memory. */
    method CacheRemove(t: Ptr) returns (err: Err)
      requires devBlockSize > 0 && CoreOf(blockSize, c, g).Inv() && t in c.tags && c.tags[t].buffer >= 0
      requires PoolOk(c.mem, c.freeHead, c.freeSize, g.free, g.owner, c.tags)
      requires BucketsOk(c.tags, c.chains, g.lists)
      modifies this
      ensures old(c.tags[t].refs) > 0 ==> err == EBUSY && c == old(c) && g == old(g)
      ensures g == old(g).(free := g.free, lists := g.lists, index := g.index)
      ensures c == old(c).(device := c.device, diskWrite := c.diskWrite, io := c.io, tags := c.tags, mem := c.mem,
                           freeHead := c.freeHead, freeSize := c.freeSize, chains := c.chains)
      ensures err != EOK ==> g.free == old(g.free) && c.freeHead == old(c.freeHead) && c.freeSize == old(c.freeSize)
      ensures err == EOK <==> old(c.tags[t].refs) == 0 && old(Removable(c, t))
      ensures err == EOK ==>
                && CoreOf(blockSize, c, g).Inv() && AbsOf(blockSize, c, g) == old(AbsOf(blockSize, c, g))
                && c.tags == old(c.tags - {t})
                && PoolOk(c.mem, c.freeHead, c.freeSize, g.free, g.owner, c.tags) && |g.free| == |old(g.free)| + 1
                && BucketsOk(c.tags, c.chains, g.lists) && |c.device| == |old(c.device)| && |c.mem| == |old(c.mem)|
                && c.io == old(c.io) + if old(c.tags[t].lazy) then 1 else 0
    {
      if c.tags[t].refs > 0 {
        return EBUSY;
      }
      CacheUnhash(t);
      err := CacheDispose(t);
    }

    /** The first half of CacheRemove: detach the tag from its bucket. */
    method CacheUnhash(t: Ptr)
      requires t in c.tags && BucketsOk(c.tags, c.chains, g.lists)
      modifies this
      ensures c == old(c).(chains := c.chains) && g == old(g).(lists := g.lists)
      ensures BucketsOk(c.tags - {t}, c.chains, g.lists)
    {
      var h := c.tags[t].offset % |c.chains.hash|;
      BaseIsMod(|g.lists|, c.tags[t].offset);
      ghost var lists := BucketsUnlinkOf(c.tags, c.chains, g.lists, t);
      c := c.(chains := c.chains.Unlink(h, t));
      g := g.(lists := lists);
    }

    /** The second half of CacheRemove: give the memory back and free the tag. */
    method CacheDispose(t: Ptr) returns (err: Err)
      requires devBlockSize > 0 && CoreOf(blockSize, c, g).Inv() && t in c.tags && c.tags[t].buffer >= 0 && c.tags[t].refs == 0
      requires PoolOk(c.mem, c.freeHead, c.freeSize, g.free, g.owner, c.tags)
      modifies this
      ensures g == old(g).(free := g.free, index := g.index)
      ensures c == old(c).(device := c.device, diskWrite := c.diskWrite, io := c.io, tags := c.tags, mem := c.mem,
                           freeHead := c.freeHead, freeSize := c.freeSize)
      ensures err != EOK ==> g.free == old(g.free) && c.freeHead == old(c.freeHead) && c.freeSize == old(c.freeSize)
      ensures err == EOK <==> old(Removable(c, t))
      ensures err == EOK ==>
                && CoreOf(blockSize, c, g).Inv() && AbsOf(blockSize, c, g) == old(AbsOf(blockSize, c, g))
                && c.tags == old(c.tags - {t})
                && PoolOk(c.mem, c.freeHead, c.freeSize, g.free, g.owner, c.tags) && |g.free| == |old(g.free)| + 1
                && |c.device| == |old(c.device)| && |c.mem| == |old(c.mem)| && c.io == old(c.io) + if old(c.tags[t].lazy) then 1 else 0
    {
      ghost var d, link := CoreOf(blockSize, c, g), c.freeHead;
      PoolPush(c.mem, c.freeHead, c.freeSize, g.free, g.owner, c.tags, t);
      UnreferencedIsUnheld(c.tags, g.index, g.holds, t);
      err := CacheFreeBlock(t);
      if err != EOK {
        return;
      }
      g := g.(index := g.index - {c.tags[t].offset});
      assert c.tags - {t} == d.tags - {t};
      c := c.(tags := c.tags - {t});
      RemoveOk(d, CoreOf(blockSize, c, g), t, link);
    }

    // ---- Finding a victim ----

    /** Takes the tail off Head.  It is never busy: see QueuesOk. */
    method TailOfHead(ghost limbo: Ptr) returns (t: Ptr)
      requires QueuesOk(c.tags, c.lru, g.hq, g.bq, limbo) && limbo in c.tags
      requires !Queued(g.hq, g.bq, limbo) && LimboOk(c.lru, g.hq, g.bq, limbo)
      modifies this
      ensures c == old(c).(lru := c.lru) && g == old(g).(hq := g.hq, bq := g.bq)
      ensures t == HEAD <==> old(g.hq) == []
      ensures t == HEAD ==> c == old(c) && g == old(g)
      ensures t != HEAD ==>
                && t == old(g.hq[|g.hq| - 1]) && g.hq == old(g.hq[..|g.hq| - 1]) && g.bq == old(g.bq)
                && t in c.tags && t != limbo && c.tags[t].refs == 0
                && QueuesOk(c.tags - {t}, c.lru, g.hq, g.bq, limbo)
                && !Queued(g.hq, g.bq, limbo) && LimboOk(c.lru, g.hq, g.bq, limbo)
    {
      TailDrop(c.tags, c.lru, g.hq, g.bq, limbo);
      hide QueuesOk, LimboOk, Queued;
      t := c.lru.prev[HEAD];
      if t != HEAD {
        c := c.(lru := c.lru.Detach(t));
        g := g.(hq := Without(g.hq, t), bq := Without(g.bq, t));
      }
    }

    /** Evicts the tag at the tail of Head.  The result of CacheRemove is ignored:
        when writing out the victim failed, the free list is still empty. */
    method LRUEvict(ghost limbo: Ptr) returns (err: Err)
      requires devBlockSize > 0 && Ok(blockSize, c, g, limbo) && g.free == []
      requires limbo in c.tags && c.tags[limbo].buffer < 0 && !Queued(g.hq, g.bq, limbo)
      modifies this
      ensures g == old(g).(hq := g.hq, bq := g.bq, free := g.free, lists := g.lists, index := g.index)
      ensures c == old(c).(lru := c.lru, device := c.device, diskWrite := c.diskWrite, io := c.io, tags := c.tags, mem := c.mem,
                           freeHead := c.freeHead, freeSize := c.freeSize, chains := c.chains)
      ensures err == if old(g.hq) == [] then ENOMEM else EOK
      ensures c.freeSize == |g.free| && c.freeHead == LinkOf(g.free, 0)
      ensures g.free != [] <==> old(HasRoom(c, g))
      ensures g.free != [] ==>
                && c.tags == old(c.tags - {g.hq[|g.hq| - 1]}) && g.hq == old(g.hq[..|g.hq| - 1]) && g.bq == old(g.bq)
                && c.io == old(c.io + Writes(c, g)) && |c.mem| == |old(c.mem)|
                && Ok(blockSize, c, g, limbo) && AbsOf(blockSize, c, g) == old(AbsOf(blockSize, c, g))
                && TagsKept(old(c.tags), c.tags) && limbo in c.tags && c.tags[limbo] == old(c.tags[limbo])
                && !Queued(g.hq, g.bq, limbo) && |c.device| == |old(c.device)|
    {
      var t := TailOfHead(limbo);
      if t == HEAD {
        return ENOMEM;
      }
      TagsDrop(c.tags, c.nextTag, limbo, t);
      var e := CacheRemove(t);
      return EOK;
    }

    // ---- Looking up a block ----

    /** Searches the bucket of `off`. */
    method FindTag(off: nat) returns (t: Ptr)
      requires IndexOk(c.tags, g.index) && BucketsOk(c.tags, c.chains, g.lists)
      ensures t == NULL ==> off !in g.index
      ensures t != NULL ==> off in g.index && g.index[off] == t
    {
      var h := off % |c.chains.hash|;
      BaseIsMod(|g.lists|, off);
      ghost var list := g.lists[h];
      ghost var i := 0;
      BucketHead(c.tags, c.chains, g.lists, h);
      t := c.chains.hash[h];
      if list != [] { BucketStep(c.tags, c.chains, g.lists, h, 0); }
      while t != NULL && c.tags[t].offset != off
        invariant 0 <= i <= |list| && t == if i < |list| then list[i] else NULL
        invariant t != NULL ==> t in c.tags
        invariant i < |list| ==> t != NULL
        invariant forall j :: 0 <= j < i ==> list[j] in c.tags && c.tags[list[j]].offset != off
        decreases |list| - i
      {
        BucketStep(c.tags, c.chains, g.lists, h, i);
        t := c.chains.next[t];
        i := i + 1;
        if i < |list| { BucketStep(c.tags, c.chains, g.lists, h, i); }
      }
      if t == NULL {
        SearchMissed(c.tags, g.index, c.chains, g.lists, off);
      }
    }

    /** Moves `t` to the front of its bucket, unless it is there already. */
    method MoveToFront(t: Ptr)
      requires t in c.tags && t != NULL && BucketsOk(c.tags, c.chains, g.lists)
      modifies this
      ensures c == old(c).(chains := c.chains) && g == old(g).(lists := g.lists)
      ensures BucketsOk(c.tags, c.chains, g.lists)
      ensures |c.chains.hash| > 0 && InFront(old(g.lists), g.lists, c.tags[t].offset % |c.chains.hash|, t)
    {
      BucketSizes(c.tags, c.chains, g.lists);
      hide BucketsOk, InFront, Home;
      var h := c.tags[t].offset % |c.chains.hash|;
      HomeIsMod(|g.lists|, c.tags[t].offset);
      ghost var lists := BucketsFront(c.tags, c.chains, g.lists, t);
      if c.chains.hash[h] != t {
        c := c.(chains := c.chains.Unlink(h, t).Push(h, t));
        g := g.(lists := lists);
      }
    }

    /** A new tag for `off`, at the front of its bucket, on no queue, without memory. */
    method NewTag(off: nat) returns (t: Ptr)
      requires Ok(blockSize, c, g, NULL) && off !in g.index && Aligned(blockSize, off)
      modifies this
      ensures Ok(blockSize, c, g, t) && AbsOf(blockSize, c, g) == old(AbsOf(blockSize, c, g))
      ensures t !in old(c.tags) && c.tags == old(c.tags)[t := Tag(off, 0, false, false, NONE)] && !Queued(g.hq, g.bq, t)
      ensures c == old(c).(nextTag := c.nextTag, tags := c.tags, lru := c.lru, chains := c.chains)
      ensures g == old(g).(index := old(g.index)[off := t], lists := g.lists)
      ensures |c.chains.hash| > 0 && var h := off % |c.chains.hash|; h < |old(g.lists)| && g.lists == old(g.lists)[h := [t] + old(g.lists)[h]]
    {
      hide Ok, Abs;
      BucketCount(blockSize, c, g, off);
      TagAdded(blockSize, c, g, off);
      t := c.nextTag;
      var h := off % |c.chains.hash|;
      var tags := c.tags[t := Tag(off, 0, false, false, NONE)];
      c := c.(nextTag := c.nextTag + 1, tags := tags, chains := c.chains.Push(h, t),
              lru := Links(c.lru.next[t := NULL], c.lru.prev[t := NULL]));
      g := g.(index := g.index[off := t], lists := g.lists[h := [t] + g.lists[h]]);
    }

    /** Gives the new tag `t` a block of memory, evicting if need be, and loads it. */
    method FillTag(t: Ptr) returns (err: Err)
      requires devBlockSize > 0 && Ok(blockSize, c, g, t) && t in c.tags && c.tags[t].buffer < 0 && !Queued(g.hq, g.bq, t)
      modifies this
      ensures g == old(g).(hq := g.hq, bq := g.bq, free := g.free, lists := g.lists, index := g.index, owner := g.owner)
      ensures c == old(c).(lru := c.lru, device := c.device, diskRead := c.diskRead, diskWrite := c.diskWrite, io := c.io, tags := c.tags,
                           mem := c.mem, freeHead := c.freeHead, freeSize := c.freeSize, chains := c.chains)
      ensures err == ENOMEM <==> !old(HasRoom(c, g))
      ensures err == EOK <==> old(Loads(c, g, c.tags[t].offset))
      ensures err != ENOBUFS
      ensures err == EOK ==>
                && Ok(blockSize, c, g, t) && AbsOf(blockSize, c, g) == old(AbsOf(blockSize, c, g))
                && t in c.tags && c.tags[t].buffer >= 0 && c.tags[t] == old(c.tags[t]).(buffer := c.tags[t].buffer)
                && TagsKeptBut(old(c.tags), c.tags, t) && |c.device| == |old(c.device)| && |c.mem| == |old(c.mem)|
    {
      hide Core.Inv, QueuesOk, BucketsOk, PoolOk, LimboOk, TagsOk, TagsKept, TagsKeptBut, Abs;
      err := MakeRoom(t);
      if err != EOK {
        return;
      }
      ghost var c1, g1 := c, g;
      AllocReady(c.mem, c.freeHead, c.freeSize, g.free, g.owner, c.tags);
      var k := CacheAllocBlock();
      var data;
      err, data := CacheRawRead(c.tags[t].offset);
      if err != EOK {
        return;
      }
      c := c.(tags := c.tags[t := c.tags[t].(buffer := k)], mem := c.mem[k := Data(data)]);
      g := g.(owner := g.owner[k := t]);
      FillOk(blockSize, c1, g1, t, data, c, g);
      TagsKeptStore(old(c.tags), c1.tags, t, c.tags[t]);
    }

    /** The retry around CacheAllocBlock: when the free list is empty, evict once;
        when it is still empty, give up. */
    method MakeRoom(t: Ptr) returns (err: Err)
      requires devBlockSize > 0 && Ok(blockSize, c, g, t) && t in c.tags && c.tags[t].buffer < 0 && !Queued(g.hq, g.bq, t)
      modifies this
      ensures g == old(g).(hq := g.hq, bq := g.bq, free := g.free, lists := g.lists, index := g.index)
      ensures c == old(c).(lru := c.lru, device := c.device, diskWrite := c.diskWrite, io := c.io, tags := c.tags, mem := c.mem,
                           freeHead := c.freeHead, freeSize := c.freeSize, chains := c.chains)
      ensures err == if old(HasRoom(c, g)) then EOK else ENOMEM
      ensures err == EOK ==>
                && g.free != [] && Ok(blockSize, c, g, t) && AbsOf(blockSize, c, g) == old(AbsOf(blockSize, c, g))
                && t in c.tags && c.tags[t] == old(c.tags[t]) && TagsKept(old(c.tags), c.tags) && |c.device| == |old(c.device)|
                && c.io == old(c.io + Writes(c, g)) && |c.mem| == |old(c.mem)|
    {
      AllocReady(c.mem, c.freeHead, c.freeSize, g.free, g.owner, c.tags);
      if c.freeHead == NONE || c.freeSize == 0 {
        err := LRUEvict(t);
        if err != EOK {
          return;
        }
        if c.freeHead == NONE || c.freeSize == 0 {
          return ENOMEM;
        }
      }
      err := EOK;
    }

    /** Obtains the block at `off`: the tag found there, moved to the front of its
        bucket, or a new one.  A hit changes nothing but the order of the bucket. */
    method CacheLookup(off: nat) returns (err: Err, t: Ptr)
      requires devBlockSize > 0 && Ok(blockSize, c, g, NULL) && Aligned(blockSize, off)
      modifies this
      ensures g == old(g).(hq := g.hq, bq := g.bq, free := g.free, lists := g.lists, index := g.index, owner := g.owner)
      ensures c == old(c).(nextTag := c.nextTag, lru := c.lru, device := c.device, diskRead := c.diskRead, diskWrite := c.diskWrite, io := c.io,
                           tags := c.tags, mem := c.mem, freeHead := c.freeHead, freeSize := c.freeSize, chains := c.chains)
      ensures off in old(g.index) ==>
                && err == EOK && t == old(g.index[off])
                && c == old(c).(chains := c.chains) && g == old(g).(lists := g.lists)
                && |c.chains.hash| > 0 && InFront(old(g.lists), g.lists, off % |c.chains.hash|, t)
      ensures err == EOK ==>
                && Ok(blockSize, c, g, t) && AbsOf(blockSize, c, g) == old(AbsOf(blockSize, c, g))
                && t in c.tags && c.tags[t].offset == off && c.tags[t].buffer >= 0
                && TagsKeptBut(old(c.tags), c.tags, t) && |c.device| == |old(c.device)| && |c.mem| == |old(c.mem)|
                && Pinned(c.tags) == old(Pinned(c.tags)) && Locked(c.tags) == old(Locked(c.tags))
      ensures err == EOK && off !in old(g.index) ==> t !in old(c.tags)
      ensures err == ENOMEM <==> off !in old(g.index) && !old(HasRoom(c, g))
      ensures err == EOK <==> off in old(g.index) || old(Loads(c, g, off))
      ensures err != ENOBUFS
    {
      hide QueuesOk, BucketsOk, PoolOk, LimboOk, TagsOk, TagsKept, TagsKeptBut, Abs, MemOk, Core.ContentOk, Core.BufsOk, HoldsOk, InFront;
      hide Pinned, Locked, HasRoom, Loads;
      t := FindTag(off);
      if t != NULL {
        OkWeaken(blockSize, c, g, t);
        MoveToFront(t);
        err := EOK;
      } else {
        err, t := Miss(off);
      }
    }

    /** The block at `off` is not there: a new tag gets memory and is loaded. */
    method Miss(off: nat) returns (err: Err, t: Ptr)
      requires devBlockSize > 0 && Ok(blockSize, c, g, NULL) && Aligned(blockSize, off) && off !in g.index
      modifies this
      ensures g == old(g).(hq := g.hq, bq := g.bq, free := g.free, lists := g.lists, index := g.index, owner := g.owner)
      ensures c == old(c).(nextTag := c.nextTag, lru := c.lru, device := c.device, diskRead := c.diskRead, diskWrite := c.diskWrite, io := c.io,
                           tags := c.tags, mem := c.mem, freeHead := c.freeHead, freeSize := c.freeSize, chains := c.chains)
      ensures err == EOK ==>
                && Ok(blockSize, c, g, t) && AbsOf(blockSize, c, g) == old(AbsOf(blockSize, c, g)) && t !in old(c.tags)
                && t in c.tags && c.tags[t].offset == off && c.tags[t].buffer >= 0
                && TagsKeptBut(old(c.tags), c.tags, t) && |c.device| == |old(c.device)| && |c.mem| == |old(c.mem)|
                && Pinned(c.tags) == old(Pinned(c.tags)) && Locked(c.tags) == old(Locked(c.tags))
      ensures err == ENOMEM <==> !old(HasRoom(c, g))
      ensures err == EOK <==> old(Loads(c, g, off))
      ensures err != ENOBUFS
    {
      hide Ok, TagsKeptBut, Abs, AbsOf, Pinned, Locked;
      LockedIsPinned(blockSize, c, g, NULL);
      VictimIsTag(blockSize, c, g);
      t := NewTag(off);
      TagsKeptNew(old(c.tags), t, c.tags[t]);
      ghost var tags := c.tags;
      err := FillTag(t);
      if err == EOK {
        TagsKeptTwice(old(c.tags), tags, c.tags, t);
        PinnedKept(old(c.tags), c.tags, t);
      }
    }

    /** On a reliable device a block can be loaded when it fits memory along with those in
        use. */
    lemma Loadable(off: nat, needed: set<nat>)
      requires Reliable() && blockSize > 0 && Ok(blockSize, c, g, NULL) && Aligned(blockSize, off) && off + blockSize <= |c.device|
      requires off in needed && Pinned(c.tags) <= needed && |needed| <= |c.mem|
      ensures off in g.index || Loads(c, g, off)
    {
      hide Ok, Pinned, Reliable, Transfers;
      if off !in g.index {
        RoomEnough(blockSize, c, g, off, needed);
        ReliableTransfers(off, |c.device|, c.io + Writes(c, g));
        if g.free == [] {
          var v := g.hq[|g.hq| - 1];
          VictimOnDevice(blockSize, c, g);
          ReliableTransfers(c.tags[v].offset, |c.device|, c.io);
        }
      }
    }

    /** Counts a reference of the buffer `b` on the block of `t`. */
    method TakeRef(ghost b: nat, t: Ptr)
      requires Ok(blockSize, c, g, t) && t in c.tags && c.tags[t].buffer >= 0 && (b, c.tags[t].offset) !in g.holds
      modifies this
      ensures c == old(c).(lru := c.lru, tags := old(c.tags)[t := old(c.tags[t]).(refs := old(c.tags[t].refs) + 1)])
      ensures g == old(g).(hq := g.hq, bq := g.bq, holds := old(g.holds) + {(b, old(c.tags[t].offset))})
      ensures Ok(blockSize, c, g, NULL) && AbsOf(blockSize, c, g) == old(AbsOf(blockSize, c, g))
      ensures Pinned(c.tags) == old(Pinned(c.tags) + {c.tags[t].offset}) && Locked(c.tags) == old(Locked(c.tags))
    {
      hide QueuesOk, BucketsOk, PoolOk, TagsOk, Abs, Core.ContentOk, Core.BufsOk, HoldsOk, Pinned, Locked;
      ghost var d := CoreOf(blockSize, c, g);
      PinnedStored(c.tags, t, c.tags[t].(refs := c.tags[t].refs + 1));
      TagStored(blockSize, c, g, t, c.tags[t].(refs := c.tags[t].refs + 1));
      c := c.(tags := c.tags[t := c.tags[t].(refs := c.tags[t].refs + 1)]);
      LRUHit(t, false);
      g := g.(holds := g.holds + {(b, c.tags[t].offset)});
      AddRefOk(d, CoreOf(blockSize, c, g), b, t);
    }

    // ---- Reading ----

    /** Checks out `[off, off + len)`: the buffer shows the current bytes of that range, and
        pins the blocks it touches.  On a reliable device it fails exactly when no Buf_t is
        free, the blocks are not on the device, or they do not fit memory along with
        those in use. */
    method CacheRead(off: nat, len: nat) returns (err: Err, b: nat)
      requires Valid() && len > 0 && Vacant(c.bufs, off, len)
      modifies this
      ensures old(c.freeBufs) == [] <==> err == ENOBUFS
      ensures old(c.freeBufs) != [] && Cached(old(g.index), blockSize, off, len) ==> err == EOK
      ensures Reliable() ==> (err == EOK <==> old(c.freeBufs) != [] && old(Readable(blockSize, c, off, len)))
      ensures err == EOK ==>
                && Valid() && off + len <= |old(g.logical)| && b !in old(c.bufs)
                && Flat() == old(Flat()).Read(b, off, len)
                && Took(old(c), c, Touched(blockSize, off, len))
    {
      hide Ok, HoldsExact, Abs, Cached, Pinned, Locked, Touched, Reliable;
      if c.freeBufs == [] {
        return ENOBUFS, 0;
      }
      b := c.freeBufs[0];
      FreshHandle(blockSize, c.bufs, c.freeBufs, g.touched, g.holds);
      GoodParts(blockSize, c, g);
      c := c.(freeBufs := c.freeBufs[1..]);
      assert Ok(blockSize, c, g, NULL) by { OkHandles(blockSize, old(c), g, c.freeBufs); }
      err := Fetch(b, off, len);
      if err != EOK {
        return;
      }
      OkRequests(blockSize, c, g, c.reqRead + 1);
      c := c.(reqRead := c.reqRead + 1);
      PinnedReadable(blockSize, old(c), c, g, off, len);
    }

    /** Fills the buffer `b`. */
    method Fetch(b: nat, off: nat, len: nat) returns (err: Err)
      requires devBlockSize > 0 && blockSize > 0 && Ok(blockSize, c, g, NULL) && len > 0 && Vacant(c.bufs, off, len)
      requires HoldsExact(blockSize, c.bufs, g.holds) && HandlesOk(c.bufs, c.freeBufs, g.touched)
      requires NewHandle(c.bufs, c.freeBufs, g.touched, g.holds, b) && |c.freeBufs| + |c.bufs| + 1 == MAXBUFS
      modifies this
      ensures err != ENOBUFS
      ensures Cached(old(g.index), blockSize, off, len) ==> err == EOK
      ensures Reliable() && old(Readable(blockSize, c, off, len)) ==> err == EOK
      ensures err == EOK ==>
                && Good(blockSize, c, g) && off + len <= |old(g.logical)|
                && AbsOf(blockSize, c, g) == old(AbsOf(blockSize, c, g)).Read(b, off, len)
                && Took(old(c), c, Touched(blockSize, off, len))
    {
      hide Ok, HoldsExact, Abs, AbsOf, Cached, Pinned, Locked, Touched, Reliable, Loads, HasRoom, Vacant, HandlesOk, TagsKeptBut, Good;
      var coff := off % blockSize;
      BaseIsMod(blockSize, off);
      SameBlock(blockSize, off, off + len - 1);
      var cblk := off - coff;
      var t;
      if Cached(g.index, blockSize, off, len) { CachedHas(g.index, blockSize, off, len, cblk); }
      ghost var needed := Pinned(c.tags) + Touched(blockSize, off, len);
      if Reliable() && Readable(blockSize, c, off, len) {
        EnoughFor(blockSize, c, off, len);
        EnoughHas(needed, blockSize, c, off, len, cblk);
        Loadable(cblk, needed);
      }
      err, t := CacheLookup(cblk);
      if err != EOK {
        return;
      }
      if cblk / blockSize == (off + len - 1) / blockSize {
        ReadDirect(b, off, len, t);
      } else {
        err := ReadSpan(b, off, len, cblk, t, needed);
      }
    }

    /** The range lies in the block of `t`: the buffer points into it. */
    method ReadDirect(b: nat, off: nat, len: nat, t: Ptr)
      requires Ok(blockSize, c, g, t) && t in c.tags && c.tags[t].buffer >= 0 && blockSize > 0
      requires c.tags[t].offset == Base(blockSize, off) && 0 < len && off + len <= Base(blockSize, off) + blockSize
      requires Vacant(c.bufs, off, len) && HoldsExact(blockSize, c.bufs, g.holds)
      requires HandlesOk(c.bufs, c.freeBufs, g.touched) && NewHandle(c.bufs, c.freeBufs, g.touched, g.holds, b)
      requires |c.freeBufs| + |c.bufs| + 1 == MAXBUFS
      modifies this
      ensures Good(blockSize, c, g) && off + len <= |old(g.logical)|
      ensures AbsOf(blockSize, c, g) == old(AbsOf(blockSize, c, g)).Read(b, off, len)
      ensures g.logical == old(g.logical) && Took(old(c), c, Touched(blockSize, off, len))
    {
      hide QueuesOk, BucketsOk, PoolOk, LimboOk, TagsOk, Abs, Core.ContentOk, Core.BufsOk, HoldsOk, HoldsExact, HandlesOk, Vacant;
      hide Pinned, Locked, Touched;
      TouchedOne(blockSize, off, len);
      var f := Buf(off, len, false, c.tags[t].buffer, []);
      ghost var holds := g.holds;
      TakeRef(b, t);
      DirectAdd(CoreOf(blockSize, c, g), b, f, t);
      ghost var d := CoreOf(blockSize, c, g);
      c := c.(bufs := c.bufs[b := f]);
      AddBufOk(d, CoreOf(blockSize, c, g), b, f);
      DirectHolds(blockSize, d.bufs, holds, b, f);
      HandlesAdd(d.bufs, c.freeBufs, g.touched, holds, b, f);
    }

    /** The range spans several blocks: their bytes are copied, one block at a time. */
    method ReadSpan(b: nat, off: nat, len: nat, cblk0: nat, t0: Ptr, ghost needed: set<nat>) returns (err: Err)
      requires devBlockSize > 0 && Ok(blockSize, c, g, t0) && t0 in c.tags && c.tags[t0].buffer >= 0 && blockSize > 0
      requires c.tags[t0].offset == cblk0 == Base(blockSize, off) && off + len > cblk0 + blockSize
      requires Vacant(c.bufs, off, len) && HoldsExact(blockSize, c.bufs, g.holds)
      requires HandlesOk(c.bufs, c.freeBufs, g.touched) && NewHandle(c.bufs, c.freeBufs, g.touched, g.holds, b)
      requires |c.freeBufs| + |c.bufs| + 1 == MAXBUFS
      modifies this
      ensures g.logical == old(g.logical)
      ensures Cached(old(g.index), blockSize, off, len) ==> err == EOK
      ensures err != ENOBUFS
      ensures Reliable() && old(Enough(needed, blockSize, c, off, len)) ==> err == EOK
      ensures err == EOK ==>
                && Good(blockSize, c, g) && off + len <= |old(g.logical)|
                && AbsOf(blockSize, c, g) == old(AbsOf(blockSize, c, g)).Read(b, off, len)
                && Took(old(c), c, Touched(blockSize, off, len))
    {
      hide Ok, Abs, AbsOf, HoldsExact, HandlesOk, Vacant, SpanHolds, Unheld, Cached, Took, Touched, Between, Enough, Reliable, Aligned;
      var data := ReadFirst(b, off, len, cblk0, t0);
      if old(Enough(needed, blockSize, c, off, len)) {
        EnoughStill(needed, blockSize, old(c), c, off, len, cblk0, cblk0 + blockSize);
      }
      ghost var c1, cblk := c, 0;
      err, data, cblk := ReadRest(b, off, len, cblk0 + blockSize, data, cblk0, old(g.holds), needed);
      if err != EOK {
        return;
      }
      var f := Buf(off, len, true, 0, data);
      AddSpan(blockSize, c, g, old(g.holds), b, f, cblk0, cblk);
      SpanTook(blockSize, old(c), c1, c, off, len, cblk0, cblk);
      TookFrame(old(c), c, c.(bufs := c.bufs[b := f], spans := c.spans + 1), Touched(blockSize, off, len));
      c := c.(bufs := c.bufs[b := f], spans := c.spans + 1);
    }

    /** The first block of a spanning read: copies its bytes and keeps a reference. */
    method ReadFirst(b: nat, off: nat, len: nat, cblk0: nat, t0: Ptr) returns (data: seq<Byte>)
      requires Ok(blockSize, c, g, t0) && t0 in c.tags && c.tags[t0].buffer >= 0 && blockSize > 0 && Unheld(g.holds, b)
      requires c.tags[t0].offset == cblk0 == Base(blockSize, off) && off + len > cblk0 + blockSize && Vacant(c.bufs, off, len)
      modifies this
      ensures c == old(c).(lru := c.lru, tags := c.tags) && g == old(g).(hq := g.hq, bq := g.bq, holds := g.holds)
      ensures Ok(blockSize, c, g, NULL) && AbsOf(blockSize, c, g) == old(AbsOf(blockSize, c, g))
      ensures cblk0 + blockSize == off + |data| <= |g.logical| && data == g.logical[off..off + |data|]
      ensures SpanHolds(blockSize, old(g.holds), g.holds, b, cblk0, cblk0 + blockSize) && Aligned(blockSize, cblk0 + blockSize)
      ensures Took(old(c), c, Between(blockSize, cblk0, cblk0 + blockSize))
    {
      hide Ok, Abs, AbsOf, Vacant, SpanHolds, Unheld, Took, Between, Pinned, Locked;
      var boff: nat := blockSize - (off - cblk0);
      data := CopyOut(t0, off, boff, off, len);
      NoHoldYet(blockSize, g.holds, b, cblk0);
      TakeRef(b, t0);
      FirstSpan(blockSize, old(g.holds), b, cblk0);
      BetweenNext(blockSize, cblk0, cblk0);
      assert {} + {cblk0} == {cblk0};
      TookIs(old(c), c, {cblk0});
    }

    /** The blocks of a spanning read after the first. */
    method ReadRest(b: nat, off: nat, len: nat, cblk1: nat, data0: seq<Byte>, ghost lo: nat, ghost holds0: Holds,
                    ghost needed: set<nat>)
      returns (err: Err, data: seq<Byte>, ghost end: nat)
      requires devBlockSize > 0 && blockSize > 0 && Ok(blockSize, c, g, NULL) && Vacant(c.bufs, off, len) && Unheld(holds0, b)
      requires cblk1 == off + |data0| <= |g.logical| && |data0| <= len && data0 == g.logical[off..off + |data0|]
      requires Aligned(blockSize, cblk1) && lo < cblk1 < off + len + blockSize && SpanHolds(blockSize, holds0, g.holds, b, lo, cblk1)
      modifies this
      ensures c.bufs == old(c.bufs) && c.freeBufs == old(c.freeBufs) && g.touched == old(g.touched) && g.logical == old(g.logical)
      ensures Cached(old(g.index), blockSize, off, len) ==> err == EOK
      ensures err != ENOBUFS
      ensures Reliable() && old(Enough(needed, blockSize, c, off, len)) ==> err == EOK
      ensures err == EOK ==>
                && Took(old(c), c, Between(blockSize, cblk1, end))
                && Ok(blockSize, c, g, NULL) && AbsOf(blockSize, c, g) == old(AbsOf(blockSize, c, g))
                && off + len <= |g.logical| && data == g.logical[off..off + len]
                && Aligned(blockSize, end) && off + len <= end < off + len + blockSize
                && SpanHolds(blockSize, holds0, g.holds, b, lo, end)
    {
      hide Ok, Abs, AbsOf, Vacant, SpanHolds, Unheld, Cached, Aligned, Took, Between, Enough, Reliable, Part;
      data := data0;
      TookNone(c);
      PartIs(g.logical, off, |data0|);
      BetweenNext(blockSize, cblk1, cblk1);
      var cblk, boff: nat := cblk1, |data0|;
      var blen: nat := len - boff;
      end := cblk;
      while blen > 0
        invariant Ok(blockSize, c, g, NULL) && AbsOf(blockSize, c, g) == old(AbsOf(blockSize, c, g))
        invariant c.bufs == old(c.bufs) && c.freeBufs == old(c.freeBufs) && g.touched == old(g.touched) && g.logical == old(g.logical)
        invariant boff + blen == len && off + boff <= |g.logical| && data == Part(g.logical, off, boff) && end == cblk
        invariant Aligned(blockSize, cblk) && lo < cblk < off + len + blockSize
        invariant if blen > 0 then cblk == off + boff else off + len <= cblk
        invariant Cached(old(g.index), blockSize, off, len) ==> g.index == old(g.index)
        invariant Took(old(c), c, Between(blockSize, cblk1, cblk)) && cblk1 <= cblk
        invariant SpanHolds(blockSize, holds0, g.holds, b, lo, cblk)
        decreases blen
      {
        var temp := if blen > blockSize then blockSize else blen;
        var chunk;
        SpanNext(blockSize, holds0, g.holds, b, lo, cblk);
        if Cached(old(g.index), blockSize, off, len) { CachedHas(g.index, blockSize, off, len, cblk); }
        if old(Enough(needed, blockSize, c, off, len)) {
          EnoughStill(needed, blockSize, old(c), c, off, len, cblk1, cblk);
        }
        BetweenNext(blockSize, cblk1, cblk);
        ghost var before := c;
        err, chunk := ReadBlock(b, cblk, temp, off, len, needed);
        if err != EOK {
          return;
        }
        TookMore(old(c), before, c, Between(blockSize, cblk1, cblk), {cblk});
        PartJoin(g.logical, off, boff, temp);
        data := data + chunk;
        boff := boff + temp;
        blen := blen - temp;
        cblk := cblk + blockSize;
        end := cblk;
      }
      PartIs(g.logical, off, len);
      err := EOK;
    }

    /** Fetches the block at `cblk`, copies its first `n` bytes and keeps a reference. */
    method ReadBlock(b: nat, cblk: nat, n: nat, ghost off: nat, ghost len: nat, ghost needed: set<nat>) returns (err: Err, chunk: seq<Byte>)
      requires devBlockSize > 0 && blockSize > 0 && Ok(blockSize, c, g, NULL) && Aligned(blockSize, cblk) && n <= blockSize
      requires Vacant(c.bufs, off, len) && off <= cblk && cblk + n <= off + len && (b, cblk) !in g.holds
      modifies this
      ensures g.logical == old(g.logical) && g.touched == old(g.touched) && c.bufs == old(c.bufs) && c.freeBufs == old(c.freeBufs)
      ensures cblk in old(g.index) ==> err == EOK && g.index == old(g.index)
      ensures err != ENOBUFS
      ensures Reliable() && old(Enough(needed, blockSize, c, off, len)) && n > 0 ==> err == EOK
      ensures err == EOK ==>
                && Took(old(c), c, {cblk})
                && Ok(blockSize, c, g, NULL) && AbsOf(blockSize, c, g) == old(AbsOf(blockSize, c, g))
                && g.holds == old(g.holds) + {(b, cblk)}
                && cblk + n <= |g.logical| && chunk == g.logical[cblk..cblk + n]
    {
      hide Ok, Abs, Vacant, Pinned, Locked, Enough, Reliable, Loads, HasRoom;
      chunk := [];
      var t;
      if Reliable() && Enough(needed, blockSize, c, off, len) && n > 0 {
        EnoughHas(needed, blockSize, c, off, len, cblk);
        Loadable(cblk, needed);
      }
      err, t := CacheLookup(cblk);
      if err != EOK {
        return;
      }
      chunk := CopyOut(t, cblk, n, off, len);
      TakeRef(b, t);
    }

    /** Copies `n` bytes at the offset `at` out of the block of `t`.  They are the
        logical bytes there, since nobody else is at work on `[off, off + len)`. */
    method CopyOut(t: Ptr, at: nat, n: nat, ghost off: nat, ghost len: nat) returns (chunk: seq<Byte>)
      requires Ok(blockSize, c, g, t) && t in c.tags && c.tags[t].buffer >= 0
      requires c.tags[t].offset <= at && at + n <= c.tags[t].offset + blockSize
      requires Vacant(c.bufs, off, len) && off <= at && at + n <= off + len
      ensures at + n <= |g.logical| && chunk == g.logical[at..at + n]
    {
      hide QueuesOk, BucketsOk, PoolOk, LimboOk, TagsOk, HoldsOk;
      var coff := at - c.tags[t].offset;
      chunk := c.mem[c.tags[t].buffer].bytes[coff..coff + n];
      ChunkIsLogical(CoreOf(blockSize, c, g), t, at, n, off, len);
    }

    // ---- Writing ----

    /** Writes an outstanding buffer back: exactly its own range changes, to what the
        client sees in the buffer.  Every block it needs is still cached. */
    method CacheWrite(b: nat, age: bool, lazy: bool, lock: bool) returns (err: Err)
      requires Valid() && b in c.bufs
      modifies this
      ensures c.diskRead == old(c.diskRead)
      ensures lazy || lock ==> err == EOK && c.device == old(c.device)
      ensures Reliable() ==> err == EOK
      ensures err == EOK ==> Valid() && Flat() == old(Flat()).Write(b)
      ensures err == EOK ==>
                && Locks(old(c), c, lock, Touched(blockSize, old(c.bufs[b].offset), old(c.bufs[b].length)))
                && Parked(g.hq, c.tags, Touched(blockSize, old(c.bufs[b].offset), old(c.bufs[b].length)), age)
    {
      hide Ok, HoldsExact, Abs, HandlesOk, Locks, Touched, Reliable, Parked;
      var f := c.bufs[b];
      var coff := f.offset % blockSize;
      BaseIsMod(blockSize, f.offset);
      var cblk := f.offset - coff;
      GoodParts(blockSize, c, g);
      if !f.span {
        err := WriteDirect(b, cblk, age, lazy, lock);
      } else {
        err := WriteSpan(b, cblk, age, lazy, lock);
      }
      if err == EOK {
        HandleBack(blockSize, c, g, old(c), old(g), b);
        LocksFrame(old(c), old(c), c, c.(freeBufs := [b] + c.freeBufs, reqWrite := c.reqWrite + 1), lock,
                   Touched(blockSize, f.offset, f.length));
        c := c.(freeBufs := [b] + c.freeBufs, reqWrite := c.reqWrite + 1);
      }
    }

    /** A direct buffer: its bytes are in the block already. */
    method WriteDirect(b: nat, cblk: nat, age: bool, lazy: bool, lock: bool) returns (err: Err)
      requires devBlockSize > 0 && blockSize > 0 && Ok(blockSize, c, g, NULL) && HoldsExact(blockSize, c.bufs, g.holds)
      requires b in c.bufs && !c.bufs[b].span && cblk == Base(blockSize, c.bufs[b].offset)
      modifies this
      ensures c.diskRead == old(c.diskRead)
      ensures lazy || lock ==> err == EOK && c.device == old(c.device)
      ensures Reliable() ==> err == EOK
      ensures err == EOK ==>
                && Locks(old(c), c, lock, Touched(blockSize, old(c.bufs[b].offset), old(c.bufs[b].length)))
                && Parked(g.hq, c.tags, Touched(blockSize, old(c.bufs[b].offset), old(c.bufs[b].length)), age)
                && Ok(blockSize, c, g, NULL) && AbsOf(blockSize, c, g) == old(AbsOf(blockSize, c, g)).Write(b)
                && Detached(c, g, old(c), old(g), b)
    {
      hide Ok, HoldsExact, Abs, OwnChunk, Locks, Touched, Reliable, Pinned, Locked, Loads, HasRoom, Parked, HitBy, Between;
      var f := c.bufs[b];
      ghost var view := View(blockSize, c.mem, f);
      DirectChunk(blockSize, c, g, b);
      DirectEnd(blockSize, c, g, b);
      TouchedOne(blockSize, f.offset, f.length);
      var t;
      err, t := CacheLookup(cblk);
      ghost var c1, g1 := c, g;
      err := CommitTag(c, b, t, age, lazy, lock, f.offset, view);
      if err == EOK {
        WriteView(blockSize, old(c), old(g), b);
        LocksFrame(c1, old(c), c, c, lock, {cblk});
        ParkedNone(old(g).hq, old(c).tags, blockSize, cblk, age);
        HitFrame(g1, old(g), g, g, t, c.tags[t].refs > 0, age);
        ParkedBlock(blockSize, old(c), old(g), c, g, t, cblk, cblk, age);
        BetweenNext(blockSize, cblk, cblk);
        assert {} + {cblk} == {cblk};
      }
    }

    /** A spanning buffer: its bytes are copied back, one block at a time. */
    method WriteSpan(b: nat, cblk0: nat, age: bool, lazy: bool, lock: bool) returns (err: Err)
      requires devBlockSize > 0 && blockSize > 0 && Ok(blockSize, c, g, NULL) && HoldsExact(blockSize, c.bufs, g.holds)
      requires b in c.bufs && c.bufs[b].span && cblk0 == Base(blockSize, c.bufs[b].offset)
      modifies this
      ensures c.diskRead == old(c.diskRead)
      ensures lazy || lock ==> err == EOK && c.device == old(c.device)
      ensures Reliable() ==> err == EOK
      ensures err == EOK ==>
                && Locks(old(c), c, lock, Touched(blockSize, old(c.bufs[b].offset), old(c.bufs[b].length)))
                && Parked(g.hq, c.tags, Touched(blockSize, old(c.bufs[b].offset), old(c.bufs[b].length)), age)
                && Ok(blockSize, c, g, NULL) && AbsOf(blockSize, c, g) == old(AbsOf(blockSize, c, g)).Write(b)
                && Detached(c, g, old(c), old(g), b)
    {
      hide Ok, HoldsExact, Abs, Vacant, SpanLeft, Locks, Touched, Between, Reliable, Parked;
      var f := c.bufs[b];
      SpanStart(blockSize, c, g, b);
      SpanFirst(blockSize, c.bufs, g.holds, b, cblk0);
      c := c.(bufs := c.bufs - {b});
      g := g.(touched := g.touched - {b});
      // the bytes of the first block
      var boff: nat := blockSize - (f.offset - cblk0);
      SpanHit(blockSize, old(c), old(g), g.holds, b, cblk0);
      ghost var c0 := c;
      ParkedNone(g.hq, c.tags, blockSize, cblk0, age);
      err := WriteBlock(b, cblk0, f.offset, f.bytes[..boff], age, lazy, lock, f, cblk0);
      if err != EOK {
        return;
      }
      ghost var c1 := c;
      LocksFrame(c0, old(c), c, c, lock, {cblk0});
      SpanDropped(blockSize, old(c), old(g), old(g).holds, g.holds, b, cblk0);
      ghost var cblk;
      err, cblk := WriteRest(b, cblk0 + blockSize, boff, age, lazy, lock, f, old(c), old(g), old(g.logical), cblk0);
      if err == EOK {
        SpanDone(blockSize, old(c), old(g), g.holds, b, cblk);
        SpanWritten(blockSize, old(c), old(g), b);
        TouchedIs(blockSize, f.offset, f.length, cblk0, cblk);
        SpanLocks(blockSize, old(c), c1, c, lock, f.offset, f.length, cblk0, cblk);
      }
    }

    /** The blocks of a spanning buffer after the first. */
    method WriteRest(b: nat, cblk0: nat, boff0: nat, age: bool, lazy: bool, lock: bool, f: Buf,
                     ghost c0: CacheT, ghost g0: Shadow, ghost bytes: seq<Byte>, ghost lo: nat)
      returns (err: Err, ghost end: nat)
      requires devBlockSize > 0 && blockSize > 0 && Ok(blockSize, c, g, NULL) && b !in c.bufs && b !in g.touched
      requires Ok(blockSize, c0, g0, NULL) && HoldsExact(blockSize, c0.bufs, g0.holds) && b in c0.bufs && c0.bufs[b] == f
      requires Vacant(c.bufs, f.offset, f.length) && Aligned(blockSize, cblk0)
      requires f.offset < cblk0 == f.offset + boff0 && boff0 <= f.length == |f.bytes| && f.offset + f.length <= |bytes|
      requires g.logical == Partly(bytes, f, boff0) && SpanLeft(g0.holds, g.holds, b, cblk0)
      modifies this
      ensures c.diskRead == old(c.diskRead)
      ensures lazy || lock ==> err == EOK && c.device == old(c.device)
      ensures Reliable() ==> err == EOK
      ensures err == EOK ==>
                && Locks(old(c), c, lock, Between(blockSize, cblk0, end))
                && (lo <= cblk0 && old(Parked(g.hq, c.tags, Between(blockSize, lo, cblk0), age)) ==>
                      Parked(g.hq, c.tags, Between(blockSize, lo, end), age))
                && Ok(blockSize, c, g, NULL) && g.logical == Splice(bytes, f.offset, f.bytes)
                && AbsOf(blockSize, c, g) == CacheCore.Flat(g.logical, old(AbsOf(blockSize, c, g)).open)
                && c.bufs == old(c.bufs) && g.touched == old(g.touched) && c.freeBufs == old(c.freeBufs)
                && f.offset + f.length <= end < f.offset + f.length + blockSize && Aligned(blockSize, end) && SpanLeft(g0.holds, g.holds, b, end)
    {
      hide Ok, HoldsExact, Abs, AbsOf, Vacant, SpanLeft, Partly, Aligned, Locks, Between, Reliable, Parked;
      var cblk, boff: nat := cblk0, boff0;
      var blen: nat := f.length - boff;
      end := cblk;
      AbsBytes(blockSize, c, g);
      LocksNone(c, lock);
      BetweenNext(blockSize, cblk0, cblk0);
      while blen > 0
        invariant Ok(blockSize, c, g, NULL) && boff + blen == f.length && end == cblk && f.offset < cblk
        invariant g.logical == Partly(bytes, f, boff)
        invariant AbsOf(blockSize, c, g) == CacheCore.Flat(g.logical, old(AbsOf(blockSize, c, g)).open)
        invariant c.bufs == old(c.bufs) && g.touched == old(g.touched) && c.freeBufs == old(c.freeBufs)
        invariant c.diskRead == old(c.diskRead) && Aligned(blockSize, cblk) && (lazy || lock ==> c.device == old(c.device))
        invariant if blen > 0 then cblk == f.offset + boff else f.offset + f.length <= cblk
        invariant lo <= cblk0 && old(Parked(g.hq, c.tags, Between(blockSize, lo, cblk0), age)) ==>
                    Parked(g.hq, c.tags, Between(blockSize, lo, cblk), age)
        invariant cblk < f.offset + f.length + blockSize && cblk0 <= cblk && Locks(old(c), c, lock, Between(blockSize, cblk0, cblk))
        invariant SpanLeft(g0.holds, g.holds, b, cblk)
        decreases blen
      {
        var temp := if blen > blockSize then blockSize else blen;
        SpanHit(blockSize, c0, g0, g.holds, b, cblk);
        ghost var holds, before := g.holds, c;
        BetweenNext(blockSize, cblk0, cblk);
        err := WriteBlock(b, cblk, cblk, f.bytes[boff..boff + temp], age, lazy, lock, f, lo);
        if err != EOK {
          return;
        }
        LocksMore(old(c), before, c, lock, Between(blockSize, cblk0, cblk), {cblk});
        PartlyNext(bytes, f, boff, temp);
        SpanDropped(blockSize, c0, g0, holds, g.holds, b, cblk);
        boff := boff + temp;
        blen := blen - temp;
        cblk := cblk + blockSize;
        end := cblk;
      }
      PartlyNext(bytes, f, 0, 0);
      err := EOK;
    }

    /** Copies `chunk` into the block at `cblk` and commits it. */
    method WriteBlock(b: nat, cblk: nat, at: nat, chunk: seq<Byte>, age: bool, lazy: bool, lock: bool, ghost f: Buf, ghost lo: nat)
      returns (err: Err)
      requires devBlockSize > 0 && blockSize > 0 && Ok(blockSize, c, g, NULL) && (b, cblk) in g.holds && b !in c.bufs && b !in g.touched
      requires cblk <= at && at + |chunk| <= cblk + blockSize
      requires Vacant(c.bufs, f.offset, f.length) && f.offset <= at && at + |chunk| <= f.offset + f.length
      modifies this
      ensures c.diskRead == old(c.diskRead)
      ensures lazy || lock ==> err == EOK && c.device == old(c.device)
      ensures Reliable() ==> err == EOK
      ensures err == EOK ==>
                && Locks(old(c), c, lock, {cblk})
                && (lo <= cblk && old(Parked(g.hq, c.tags, Between(blockSize, lo, cblk), age)) ==>
                      Parked(g.hq, c.tags, Between(blockSize, lo, cblk + blockSize), age))
                && Ok(blockSize, c, g, NULL)
                && at + |chunk| <= |old(g.logical)| && g.logical == Splice(old(g.logical), at, chunk)
                && AbsOf(blockSize, c, g) == CacheCore.Flat(g.logical, old(AbsOf(blockSize, c, g)).open)
                && c.bufs == old(c.bufs) && c.freeBufs == old(c.freeBufs) && g.touched == old(g.touched)
                && g.holds == old(g.holds) - {(b, cblk)}
    {
      hide Ok, Abs, OwnChunk, Locks, Reliable, Pinned, Locked, Loads, HasRoom, Parked, HitBy, Between;
      HeldTag(blockSize, c, g, b, cblk);
      var t;
      err, t := CacheLookup(cblk);
      SpanChunk(blockSize, c, g, b, t, at, chunk, f);
      ghost var c0, g1 := c, g;
      var k := c.tags[t].buffer;
      c := c.(mem := c.mem[k := Data(Splice(c.mem[k].bytes, at - cblk, chunk))]);
      err := CommitTag(c0, b, t, age, lazy, lock, at, chunk);
      if err == EOK {
        NotOpen(blockSize, c0, old(g), b);
        assert c.bufs == c0.bufs && g.touched == old(g.touched);
        LocksFrame(c0, old(c), c, c, lock, {cblk});
        if lo <= cblk && Parked(old(g).hq, old(c).tags, Between(blockSize, lo, cblk), age) {
          HitFrame(g1, old(g), g, g, t, c.tags[t].refs > 0, age);
          ParkedBlock(blockSize, old(c), old(g), c, g, t, lo, cblk, age);
        }
      }
    }

    /** Marks the block of `t` for later, or writes it out now. */
    method FlagOrWrite(t: Ptr, lazy: bool, lock: bool) returns (err: Err)
      requires devBlockSize > 0 && t in c.tags && 0 <= c.tags[t].buffer < |c.mem|
      requires c.mem[c.tags[t].buffer].Data? && |c.mem[c.tags[t].buffer].bytes| == blockSize && c.tags[t].offset + blockSize <= |c.device|
      modifies this`c
      ensures c == old(c).(tags := c.tags, device := c.device, diskWrite := c.diskWrite, io := c.io)
      ensures err == EOK <==> lazy || lock || Transfers(old(c.tags[t].offset), |old(c.device)|, old(c.io))
      ensures err == EOK ==>
                var x := old(c.tags[t]);
                && c.tags == old(c.tags)[t := x.(lazy := x.lazy || lazy, lock := x.lock || lock)]
                && c.device == if lazy || lock then old(c.device) else Splice(old(c.device), x.offset, old(c.mem)[x.buffer].bytes)
    {
      if lazy || lock {
        c := c.(tags := c.tags[t := c.tags[t].(lazy := c.tags[t].lazy || lazy, lock := c.tags[t].lock || lock)]);
        err := EOK;
      } else {
        err := CacheRawWrite(c.tags[t].offset, c.mem[c.tags[t].buffer].bytes);
      }
    }

    /** Does that, and drops a reference, unless the write locks the block. */
    method FlagAndDrop(t: Ptr, lazy: bool, lock: bool) returns (err: Err)
      requires devBlockSize > 0 && blockSize > 0 && t in c.tags && 0 <= c.tags[t].buffer < |c.mem| && c.tags[t].refs > 0
      requires c.mem[c.tags[t].buffer].Data? && |c.mem[c.tags[t].buffer].bytes| == blockSize
      requires c.tags[t].offset + blockSize <= |c.device| && Aligned(blockSize, c.tags[t].offset)
      modifies this`c
      ensures c == old(c).(tags := c.tags, device := c.device, diskWrite := c.diskWrite, io := c.io)
      ensures lazy || lock || Reliable() ==> err == EOK
      ensures err == EOK ==>
                var x := old(c.tags[t]);
                && c.tags == old(c.tags)[t := Tag(x.offset, if lock then x.refs else x.refs - 1, x.lazy || lazy, x.lock || lock, x.buffer)]
                && c.device == (if lazy || lock then old(c.device) else Splice(old(c.device), x.offset, old(c.mem)[x.buffer].bytes))
                && Locks(old(c), c, lock, {x.offset})
    {
      hide Locked, Reliable, Transfers, Aligned;
      if Reliable() { ReliableTransfers(c.tags[t].offset, |c.device|, c.io); }
      err := FlagOrWrite(t, lazy, lock);
      if err != EOK {
        return;
      }
      if !lock {
        c := c.(tags := c.tags[t := c.tags[t].(refs := c.tags[t].refs - 1)]);
      }
      PinnedStored(old(c.tags), t, c.tags[t]);
    }

    /** Flags or writes out the block of `t`, whose memory holds the chunk, and drops
        the reference of `b`, unless the write locks the block. */
    method CommitTag(ghost c0: CacheT, b: nat, t: Ptr, age: bool, lazy: bool, lock: bool, ghost at: nat, ghost chunk: seq<Byte>)
      returns (err: Err)
      requires devBlockSize > 0 && Ok(blockSize, c0, g, t) && Chunked(blockSize, c0, g, b, t, at, chunk)
      requires c == c0.(mem := c0.mem[c0.tags[t].buffer :=
                                      Data(Splice(c0.mem[c0.tags[t].buffer].bytes, at - c0.tags[t].offset, chunk))])
      modifies this
      ensures c == c0.(mem := c.mem, tags := c.tags, device := c.device, diskWrite := c.diskWrite, io := c.io, lru := c.lru, bufs := c.bufs)
      ensures g == old(g).(hq := g.hq, bq := g.bq, logical := g.logical, touched := g.touched, holds := g.holds)
      ensures lazy || lock ==> err == EOK && c.device == c0.device
      ensures Reliable() ==> err == EOK
      ensures err == EOK ==>
                && t in c.tags && c.tags == c0.tags[t := c.tags[t]] && c.tags[t].offset == c0.tags[t].offset
                && Locks(c0, c, lock, {c0.tags[t].offset}) && HitBy(old(g), g, t, c.tags[t].refs > 0, age)
                && Ok(blockSize, c, g, NULL)
                && at + |chunk| <= |old(g.logical)| && g.logical == Splice(old(g.logical), at, chunk)
                && AbsOf(blockSize, c, g) == CacheCore.Flat(g.logical, AbsOf(blockSize, c0, old(g)).open - {b})
                && c.bufs == c0.bufs - {b} && g.touched == old(g.touched) - {b}
                && g.holds == old(g.holds) - {(b, c0.tags[t].offset)}
    {
      hide QueuesOk, BucketsOk, PoolOk, TagsOk, Abs, Core.ContentOk, Core.BufsOk, HoldsOk, MemOk, IndexOk, OwnChunk;
      hide Locks, Reliable, Aligned, HitBy, Splice;
      ghost var x := c.tags[t];
      ChunkedMem(blockSize, c0, g, b, t, at, chunk);
      ghost var c1 := c;
      err := FlagAndDrop(t, lazy, lock);
      if err != EOK {
        return;
      }
      TagStored(blockSize, c0, g, t, c.tags[t]);
      PoolData(c0.mem, c.freeHead, c.freeSize, g.free, g.owner, c.tags, t, c.mem);
      LocksFrame(c1, c0, c, c, lock, {x.offset});
      ghost var c2 := c;
      LRUHit(t, age);
      ghost var g2 := g;
      c := c.(bufs := c.bufs - {b});
      LocksFrame(c0, c0, c2, c, lock, {x.offset});
      g := g.(logical := Splice(g.logical, at, chunk), touched := g.touched - {b}, holds := g.holds - {(b, x.offset)});
      HitFrame(old(g), old(g), g2, g, t, c.tags[t].refs > 0, age);
      CommitOk(CoreOf(blockSize, c0, old(g)), CoreOf(blockSize, c, g), b, t, at, chunk, lazy, lock);
      err := EOK;
    }

    // ---- Releasing a clean buffer ----

    /** Gives back a buffer the client has not stored into: no byte changes, nothing
        is read from or written to the device. */
    method CacheRelease(b: nat, age: bool) returns (err: Err)
      requires Valid() && b in c.bufs && b !in g.touched
      modifies this
      ensures err == EOK && Valid() && Flat() == old(Flat()).Release(b)
      ensures c.diskRead == old(c.diskRead) && c.device == old(c.device)
      ensures Locked(c.tags) == old(Locked(c.tags)) && c.mem == old(c.mem)
      ensures Parked(g.hq, c.tags, Touched(blockSize, old(c.bufs[b].offset), old(c.bufs[b].length)), age)
    {
      hide Ok, HoldsExact, Abs, AbsOf, HandlesOk, Vacant, SpanLeft, Locked, Parked, Touched;
      var f := c.bufs[b];
      GoodParts(blockSize, c, g);
      SpanStart(blockSize, c, g, b);
      c := c.(bufs := c.bufs - {b});
      g := g.(touched := g.touched - {b});
      ReleaseBlocks(b, f, age, old(c), old(g));
      HandleBack(blockSize, c, g, old(c), old(g), b);
      c := c.(freeBufs := [b] + c.freeBufs);
      err := EOK;
    }

    /** Drops the references on all blocks of the buffer `f`. */
    method ReleaseBlocks(b: nat, f: Buf, age: bool, ghost c0: CacheT, ghost g0: Shadow)
      requires devBlockSize > 0 && blockSize > 0 && Ok(blockSize, c, g, NULL) && b !in c.bufs && g.holds == g0.holds
      requires Ok(blockSize, c0, g0, NULL) && HoldsExact(blockSize, c0.bufs, g0.holds) && b in c0.bufs && c0.bufs[b] == f && 0 < f.length
      requires f.span ==> Base(blockSize, f.offset) + blockSize < f.offset + f.length
      modifies this
      ensures c == old(c).(lru := c.lru, tags := c.tags, chains := c.chains)
      ensures g == old(g).(hq := g.hq, bq := g.bq, lists := g.lists, holds := g.holds)
      ensures Ok(blockSize, c, g, NULL) && AbsOf(blockSize, c, g) == old(AbsOf(blockSize, c, g))
      ensures forall p :: p in g.holds <==> p in g0.holds && p.0 != b
      ensures Locked(c.tags) == old(Locked(c.tags)) && Parked(g.hq, c.tags, Touched(blockSize, f.offset, f.length), age)
    {
      hide Ok, HoldsExact, Abs, AbsOf, SpanLeft, Locked, Parked, Aligned, Between, Touched;
      var coff := f.offset % blockSize;
      BaseIsMod(blockSize, f.offset);
      var cblk: nat := f.offset - coff;
      SpanFirst(blockSize, c0.bufs, g.holds, b, cblk);
      SpanHit(blockSize, c0, g0, g.holds, b, cblk);
      ParkedNone(g.hq, c.tags, blockSize, cblk, age);
      ghost var lo := cblk;
      DropRef(b, cblk, age, lo);
      SpanDropped(blockSize, c0, g0, g0.holds, g.holds, b, cblk);
      cblk := cblk + blockSize;
      if f.span {
        cblk := ReleaseRest(b, cblk, f.length - blockSize + coff, age, f, c0, g0, lo);
      } else {
        DirectEnd(blockSize, c0, g0, b);
      }
      TouchedIs(blockSize, f.offset, f.length, lo, cblk);
      SpanDone(blockSize, c0, g0, g.holds, b, cblk);
    }

    /** Drops the references on the blocks after the first one. */
    method ReleaseRest(b: nat, cblk0: nat, blen0: nat, age: bool, f: Buf, ghost c0: CacheT, ghost g0: Shadow, ghost lo: nat)
      returns (cblk: nat)
      requires devBlockSize > 0 && blockSize > 0 && Ok(blockSize, c, g, NULL) && b !in c.bufs
      requires Ok(blockSize, c0, g0, NULL) && HoldsExact(blockSize, c0.bufs, g0.holds) && b in c0.bufs && c0.bufs[b] == f
      requires Aligned(blockSize, cblk0) && cblk0 + blen0 == f.offset + f.length && f.offset < cblk0
      requires SpanLeft(g0.holds, g.holds, b, cblk0)
      modifies this
      ensures c == old(c).(lru := c.lru, tags := c.tags, chains := c.chains)
      ensures g == old(g).(hq := g.hq, bq := g.bq, lists := g.lists, holds := g.holds)
      ensures Ok(blockSize, c, g, NULL) && AbsOf(blockSize, c, g) == old(AbsOf(blockSize, c, g))
      ensures cblk < f.offset + f.length + blockSize && Aligned(blockSize, cblk)
      ensures lo <= cblk0 && old(Parked(g.hq, c.tags, Between(blockSize, lo, cblk0), age)) ==>
                Parked(g.hq, c.tags, Between(blockSize, lo, cblk), age)
      ensures f.offset + f.length <= cblk && SpanLeft(g0.holds, g.holds, b, cblk) && Locked(c.tags) == old(Locked(c.tags))
    {
      hide Ok, HoldsExact, Abs, SpanLeft, Locked, Parked, Between;
      cblk := cblk0;
      var blen: nat := blen0;
      while blen > 0
        invariant c == old(c).(lru := c.lru, tags := c.tags, chains := c.chains)
        invariant g == old(g).(hq := g.hq, bq := g.bq, lists := g.lists, holds := g.holds)
        invariant Ok(blockSize, c, g, NULL) && AbsOf(blockSize, c, g) == old(AbsOf(blockSize, c, g))
        invariant Aligned(blockSize, cblk) && f.offset < cblk
        invariant if blen > 0 then cblk + blen == f.offset + f.length else f.offset + f.length <= cblk
        invariant cblk0 <= cblk < f.offset + f.length + blockSize
        invariant lo <= cblk0 && old(Parked(g.hq, c.tags, Between(blockSize, lo, cblk0), age)) ==>
                    Parked(g.hq, c.tags, Between(blockSize, lo, cblk), age)
        invariant SpanLeft(g0.holds, g.holds, b, cblk) && Locked(c.tags) == old(Locked(c.tags))
        decreases blen
      {
        SpanHit(blockSize, c0, g0, g.holds, b, cblk);
        ghost var holds := g.holds;
        DropRef(b, cblk, age, lo);
        SpanDropped(blockSize, c0, g0, holds, g.holds, b, cblk);
        blen := blen - (if blen > blockSize then blockSize else blen);
        cblk := cblk + blockSize;
      }
    }

    /** Drops the reference of `b` on the block at `cblk`, unless the block is locked. */
    method DropRef(b: nat, cblk: nat, age: bool, ghost lo: nat)
      requires devBlockSize > 0 && blockSize > 0 && Ok(blockSize, c, g, NULL) && b !in c.bufs && (b, cblk) in g.holds
      modifies this
      ensures c == old(c).(lru := c.lru, tags := c.tags, chains := c.chains)
      ensures g == old(g).(hq := g.hq, bq := g.bq, lists := g.lists, holds := old(g.holds) - {(b, cblk)})
      ensures Ok(blockSize, c, g, NULL) && AbsOf(blockSize, c, g) == old(AbsOf(blockSize, c, g))
      ensures Locked(c.tags) == old(Locked(c.tags))
      ensures lo <= cblk && old(Parked(g.hq, c.tags, Between(blockSize, lo, cblk), age)) ==>
                Parked(g.hq, c.tags, Between(blockSize, lo, cblk + blockSize), age)
    {
      hide Ok, Abs, AbsOf, Locked, Pinned, Loads, HasRoom, Parked, Between, HitBy;
      HeldTag(blockSize, c, g, b, cblk);
      var err, t := CacheLookup(cblk);
      ghost var g1 := g;
      DropTag(b, t, age);
      if lo <= cblk && Parked(old(g).hq, old(c).tags, Between(blockSize, lo, cblk), age) {
        HitFrame(g1, old(g), g, g, t, c.tags[t].refs > 0, age);
        ParkedBlock(blockSize, old(c), old(g), c, g, t, lo, cblk, age);
      }
    }

    /** The same, of the block of `t`. */
    method DropTag(b: nat, t: Ptr, age: bool)
      requires blockSize > 0 && Ok(blockSize, c, g, t) && t in c.tags && c.tags[t].buffer >= 0 && c.tags[t].refs > 0
      requires b !in c.bufs && (b, c.tags[t].offset) in g.holds
      modifies this
      ensures c == old(c).(lru := c.lru, tags := c.tags) && t in c.tags
      ensures c.tags == old(c.tags)[t := c.tags[t]] && c.tags[t].offset == old(c.tags[t].offset)
      ensures g == old(g).(hq := g.hq, bq := g.bq, holds := old(g.holds) - {(b, old(c.tags[t].offset))})
      ensures Ok(blockSize, c, g, NULL) && AbsOf(blockSize, c, g) == old(AbsOf(blockSize, c, g))
      ensures Locked(c.tags) == old(Locked(c.tags)) && HitBy(old(g), g, t, c.tags[t].refs > 0, age)
    {
      hide QueuesOk, BucketsOk, PoolOk, TagsOk, Abs, Core.ContentOk, Core.BufsOk, HoldsOk, Locked, HitBy;
      ghost var d := CoreOf(blockSize, c, g);
      var x := c.tags[t].(refs := if c.tags[t].lock then c.tags[t].refs else c.tags[t].refs - 1);
      TagStored(blockSize, c, g, t, x);
      PinnedStored(c.tags, t, x);
      c := c.(tags := c.tags[t := x]);
      LRUHit(t, age);
      ghost var g1 := g;
      g := g.(holds := g.holds - {(b, x.offset)});
      HitFrame(old(g), old(g), g1, g, t, x.refs > 0, age);
      SubRefOk(d, CoreOf(blockSize, c, g), b, t);
    }

    // ---- The client ----

    /** The client stores `data` into a buffer it holds.  In a direct buffer that
        changes cache memory at once; the flat array does not change yet. */
    method ClientStore(b: nat, data: seq<Byte>)
      requires Valid() && b in c.bufs && |data| == c.bufs[b].length
      modifies this
      ensures Valid() && Flat() == old(Flat()).Store(b, data)
      ensures c.device == old(c.device) && g.logical == old(g.logical) && c.tags == old(c.tags) && |c.mem| == |old(c.mem)|
    {
      hide Ok, HoldsExact, Abs;
      var f := c.bufs[b];
      if f.span {
        SpanStored(blockSize, c, g, b, data);
        c := c.(bufs := c.bufs[b := f.(bytes := data)]);
      } else {
        BaseIsMod(blockSize, f.offset);
        DirectStored(blockSize, c, g, b, data);
        c := c.(mem := c.mem[f.block := Data(Splice(c.mem[f.block].bytes, f.offset % blockSize, data))]);
      }
      g := g.(touched := g.touched + {b});
      StoreHolds(blockSize, old(c).bufs, c.bufs, g.holds, b);
    }

    /** What the client reads in a buffer it holds. */
    method ClientLoad(b: nat) returns (data: seq<Byte>)
      requires Valid() && b in c.bufs
      ensures b in Flat().open && data == Flat().open[b].bytes
    {
      hide Ok, HoldsExact, HandlesOk;
      var f := c.bufs[b];
      ViewLength(blockSize, c, g, b);
      BaseIsMod(blockSize, f.offset);
      if f.span {
        data := f.bytes;
      } else {
        data := c.mem[f.block].bytes[f.offset % blockSize..f.offset % blockSize + f.length];
      }
    }

    // ---- Flushing ----

    /** Writes out every block marked for lazy write. */
    method CacheFlush() returns (err: Err)
      requires Valid()
      modifies this
      ensures c == old(c).(tags := c.tags, device := c.device, diskWrite := c.diskWrite, io := c.io) && g == old(g)
      ensures NoLazy(old(c.tags)) ==> err == EOK && c == old(c)
      ensures Reliable() ==> err == EOK
      ensures err == EOK ==>
                && Valid() && Flat() == old(Flat())
                && c.tags.Keys == old(c.tags.Keys)
                && (forall t :: t in c.tags ==> c.tags[t] == old(c.tags[t]).(lazy := false))
                && |g.logical| == |c.device|
                && (forall o: nat :: Aligned(blockSize, o) && o + blockSize <= |c.device| && Idle(blockSize, c, g, o) ==>
                      c.device[o..o + blockSize] == g.logical[o..o + blockSize])
    {
      hide Ok, HoldsExact, Abs, HandlesOk, Washed, Idle, NoLazy, Reliable;
      GoodParts(blockSize, c, g);
      ListsSize(blockSize, c, g);
      WashedNone(c.tags);
      var i := 0;
      while i < |c.chains.hash|
        invariant 0 <= i <= |c.chains.hash| == |g.lists| && g == old(g)
        invariant c == old(c).(tags := c.tags, device := c.device, diskWrite := c.diskWrite, io := c.io)
        invariant Ok(blockSize, c, g, NULL) && AbsOf(blockSize, c, g) == old(AbsOf(blockSize, c, g))
        invariant NoLazy(old(c.tags)) ==> c == old(c)
        invariant Washed(old(c.tags), c.tags, Upto(g.lists, i))
      {
        ghost var tags := c.tags;
        err := FlushBucket(i);
        if err != EOK {
          return;
        }
        WashedMore(old(c.tags), tags, c.tags, Upto(g.lists, i), Members(g.lists[i]));
        UptoNext(g.lists, i);
        i := i + 1;
      }
      WashedAll(blockSize, old(c), old(g), c.tags);
      FlushedOnDevice(blockSize, c, g);
      err := EOK;
    }

    /** The inner loop of CacheFlush, over one bucket. */
    method FlushBucket(i: nat) returns (err: Err)
      requires devBlockSize > 0 && blockSize > 0 && Ok(blockSize, c, g, NULL) && i < |c.chains.hash| == |g.lists|
      modifies this
      ensures c == old(c).(tags := c.tags, device := c.device, diskWrite := c.diskWrite, io := c.io) && g == old(g)
      ensures NoLazy(old(c.tags)) ==> err == EOK && c == old(c)
      ensures Reliable() ==> err == EOK
      ensures err == EOK ==>
                && Ok(blockSize, c, g, NULL) && AbsOf(blockSize, c, g) == old(AbsOf(blockSize, c, g))
                && Washed(old(c.tags), c.tags, Members(g.lists[i]))
    {
      hide Ok, Abs, Washed, Reliable, Transfers;
      ghost var list := g.lists[i];
      ghost var k := 0;
      WashedNone(c.tags);
      BucketStart(blockSize, c, g, i);
      var t := c.chains.hash[i];
      while t != NULL
        invariant 0 <= k <= |list| && (t != NULL <==> k < |list|) && (k < |list| ==> t == list[k] && t in c.tags && t in c.chains.next)
        invariant c == old(c).(tags := c.tags, device := c.device, diskWrite := c.diskWrite, io := c.io) && g == old(g)
        invariant Ok(blockSize, c, g, NULL) && AbsOf(blockSize, c, g) == old(AbsOf(blockSize, c, g))
        invariant NoLazy(old(c.tags)) ==> c == old(c)
        invariant Washed(old(c.tags), c.tags, Members(list[..k]))
        decreases |list| - k
      {
        ghost var tags := c.tags;
        if c.tags[t].lazy {
          err := FlushOne(t);
          if err != EOK {
            return;
          }
        } else {
          assert c.tags == tags[t := tags[t].(lazy := false)];
        }
        WashedOne(old(c.tags), tags, c.tags, list, k);
        BucketWalk(blockSize, c, g, i, k);
        t := c.chains.next[t];
        k := k + 1;
      }
      assert list[..k] == list;
      err := EOK;
    }

    method FlushOne(t: Ptr) returns (err: Err)
      requires devBlockSize > 0 && blockSize > 0 && Ok(blockSize, c, g, NULL) && t in c.tags
      modifies this
      ensures c == old(c).(tags := c.tags, device := c.device, diskWrite := c.diskWrite, io := c.io) && g == old(g)
      ensures err == EOK <==> Transfers(old(c.tags[t].offset), |old(c.device)|, old(c.io))
      ensures Reliable() ==> err == EOK
      ensures |c.device| == |old(c.device)|
      ensures err == EOK ==>
                && Ok(blockSize, c, g, NULL) && AbsOf(blockSize, c, g) == old(AbsOf(blockSize, c, g))
                && c.tags == old(c.tags)[t := old(c.tags[t]).(lazy := false)]
    {
      hide QueuesOk, BucketsOk, PoolOk, TagsOk, Abs, Core.ContentOk, Core.BufsOk, HoldsOk, Reliable, Transfers;
      OkWeaken(blockSize, c, g, t);
      if Reliable() { ReliableTransfers(c.tags[t].offset, |c.device|, c.io); }
      ghost var d := CoreOf(blockSize, c, g);
      err := CacheRawWrite(c.tags[t].offset, c.mem[c.tags[t].buffer].bytes);
      if err != EOK {
        return;
      }
      TagStored(blockSize, old(c), g, t, c.tags[t].(lazy := false));
      QueuesClean(c.tags, c.lru, g.hq, g.bq, t);
      c := c.(tags := c.tags[t := c.tags[t].(lazy := false)]);
      FlushTagOk(d, CoreOf(blockSize, c, g), t);
    }
  }
}
