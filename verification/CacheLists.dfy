/** The lists and tables around the cached blocks, and what each operation on
    them keeps. */
module CacheLists {
  import opened Bytes
  import opened Lists
  import opened Blocks
  import opened LruQueues
  import opened HashChains
  import opened CacheCore
  import opened CacheSteps

  const NONE: int := -1

  /** The free list threads exactly the blocks of memory that no tag owns. */
  ghost predicate PoolOk(mem: seq<Block>, head: int, size: nat, free: seq<nat>, owner: map<int, Ptr>, tags: Tags) {
    && |free| == size && head == LinkOf(free, 0)
    && NoDup(free)
    && (forall i :: 0 <= i < |free| ==> free[i] < |mem| && mem[free[i]] == Free(LinkOf(free, i + 1)))
    && (forall k :: 0 <= k < |mem| && k !in free ==> k in owner && owner[k] in tags && tags[owner[k]].buffer == k)
  }

  ghost function LinkOf(free: seq<nat>, i: nat): int {
    if i < |free| then free[i] else NONE
  }

  /** Head holds the tags without references and Busy the others; only the tag
      `limbo`, if any, may be out of place, or on no queue at all. */
  ghost predicate QueuesOk(tags: Tags, l: Links, hq: seq<Ptr>, bq: seq<Ptr>, limbo: Ptr) {
    && LruOk(l, hq, bq)
    && (forall t :: t in hq ==> t in tags && (t != limbo ==> tags[t].refs == 0))
    && (forall t :: t in bq ==> t in tags && (t != limbo ==> tags[t].refs > 0))
    && (forall t :: t in tags && t != limbo ==> Queued(hq, bq, t))
    && (forall t :: t in tags ==> t > BUSY)
  }

  /** A tag that was never put on a queue has null links. */
  ghost predicate LimboOk(l: Links, hq: seq<Ptr>, bq: seq<Ptr>, limbo: Ptr) {
    limbo != NULL && !Queued(hq, bq, limbo) ==> l.Has(limbo) && l.next[limbo] == NULL && l.prev[limbo] == NULL
  }

  /** Every tag but a new one has memory, and new addresses are above the old ones. */
  ghost predicate TagsOk(tags: Tags, nextTag: Ptr, limbo: Ptr) {
    && nextTag > BUSY
    && (forall t :: t in tags ==> t < nextTag && (t != limbo ==> tags[t].buffer >= 0))
  }

  /** No busy tag is lost or changed, and no tag appears. */
  ghost predicate TagsKept(tags: Tags, tags': Tags) {
    && (forall t :: t in tags' ==> t in tags && tags'[t] == tags[t])
    && (forall t :: t in tags && tags[t].refs > 0 ==> t in tags')
  }

  /** The same, except for the tag `t`. */
  ghost predicate TagsKeptBut(tags: Tags, tags': Tags, t: Ptr) {
    && (forall u :: u in tags' && u != t ==> u in tags && tags'[u] == tags[u])
    && (forall u :: u in tags && u != t && tags[u].refs > 0 ==> u in tags')
  }

  lemma TagsKeptStore(tags: Tags, tags': Tags, t: Ptr, x: Tag)
    requires TagsKept(tags, tags')
    ensures TagsKeptBut(tags, tags'[t := x], t)
  {
  }

  lemma TagsStore(tags: Tags, nextTag: Ptr, t: Ptr, x: Tag)
    requires TagsOk(tags, nextTag, t) && t in tags
    ensures TagsOk(tags[t := x], nextTag, t)
    ensures x.buffer >= 0 ==> TagsOk(tags[t := x], nextTag, NULL)
  {
  }

  lemma TagsDrop(tags: Tags, nextTag: Ptr, limbo: Ptr, t: Ptr)
    requires TagsOk(tags, nextTag, limbo) && t in tags && tags[t].refs == 0 && t != limbo
    ensures TagsOk(tags - {t}, nextTag, limbo) && TagsKept(tags, tags - {t})
    ensures limbo in tags ==> limbo in tags - {t} && (tags - {t})[limbo] == tags[limbo]
  {
  }

  lemma QueuesDetach(tags: Tags, l: Links, hq: seq<Ptr>, bq: seq<Ptr>, t: Ptr)
    requires QueuesOk(tags, l, hq, bq, t) && t in tags && Queued(hq, bq, t)
    ensures l.Has(t) && l.next[t] != NULL && l.prev[t] != NULL
    ensures QueuesOk(tags, l.Detach(t), Without(hq, t), Without(bq, t), t)
    ensures !Queued(Without(hq, t), Without(bq, t), t)
  {
    DetachOk(l, hq, bq, t);
    forall u | u in tags && u != t ensures Queued(Without(hq, t), Without(bq, t), u) {
      assert Queued(hq, bq, u);
    }
  }

  lemma QueuesAttach(tags: Tags, l: Links, hq: seq<Ptr>, bq: seq<Ptr>, t: Ptr, l': Links, hq': seq<Ptr>, bq': seq<Ptr>)
    requires QueuesOk(tags, l, hq, bq, t) && t in tags && LruOk(l', hq', bq')
    requires forall u :: u in hq' <==> u in hq || (u == t && tags[t].refs == 0)
    requires forall u :: u in bq' <==> u in bq || (u == t && tags[t].refs > 0)
    requires !Queued(hq, bq, t)
    ensures QueuesOk(tags, l', hq', bq', NULL)
  {
    forall u | u in tags ensures Queued(hq', bq', u) {
      assert u != t ==> Queued(hq, bq, u);
    }
  }

  ghost function Homes(n: nat, tags: Tags): map<Ptr, nat>
    requires n > 0
  {
    map t | t in tags :: Home(n, tags[t].offset)
  }

  /** Each tag is in the bucket its offset hashes to, and the buckets hold nothing else. */
  ghost predicate BucketsOk(tags: Tags, c: Chains, lists: seq<seq<Ptr>>) {
    && |lists| > 0
    && ChainsOk(c, lists, Homes(|lists|, tags))
    && (forall t :: t in tags ==> t in lists[Home(|lists|, tags[t].offset)])
  }

  lemma BucketsUnlink(tags: Tags, c: Chains, lists: seq<seq<Ptr>>, t: Ptr, i: nat)
    requires BucketsOk(tags, c, lists) && t in tags
    requires i < |lists[Home(|lists|, tags[t].offset)]| && lists[Home(|lists|, tags[t].offset)][i] == t
    ensures var h := Home(|lists|, tags[t].offset);
            && t in c.next && t in c.prev
            && BucketsOk(tags - {t}, c.Unlink(h, t), lists[h := lists[h][..i] + lists[h][i + 1..]])
  {
    var n := |lists|;
    var h := Home(n, tags[t].offset);
    UnlinkOk(c, lists, Homes(n, tags), h, i);
    NoDupWithout(lists[h], i);
    var lists' := lists[h := lists[h][..i] + lists[h][i + 1..]];
    UnlinkMembers(n, tags, lists, lists', t, h);
    ChainsHome(c.Unlink(h, t), lists', Homes(n, tags), Homes(n, tags - {t}));
  }

  lemma UnlinkMembers(n: nat, tags: Tags, lists: seq<seq<Ptr>>, lists': seq<seq<Ptr>>, t: Ptr, h: nat)
    requires |lists| == |lists'| == n && h < n && lists' == lists[h := lists'[h]] && t !in lists'[h]
    requires forall y :: y in lists[h] <==> y == t || y in lists'[h]
    requires forall g, x {:trigger x in lists[g]} :: 0 <= g < n && x in lists[g] ==> x in tags && Home(n, tags[x].offset) == g
    requires forall u :: u in tags ==> u in lists[Home(n, tags[u].offset)]
    ensures forall g, x {:trigger x in lists'[g]} :: 0 <= g < n && x in lists'[g] ==> x in tags - {t} && Home(n, tags[x].offset) == g
    ensures forall u :: u in tags - {t} ==> u in lists'[Home(n, tags[u].offset)]
  {
    forall g, x | 0 <= g < n && x in lists'[g] ensures x in tags - {t} && Home(n, tags[x].offset) == g {
      assert x in lists[g];
      assert t in lists[h];
    }
    forall u | u in tags - {t} ensures u in lists'[Home(n, tags[u].offset)] {
      assert u in lists[Home(n, tags[u].offset)];
    }
  }

  /** The block of a removed tag goes to the front of the free list. */
  lemma PoolPush(mem: seq<Block>, head: int, size: nat, free: seq<nat>, owner: map<int, Ptr>, tags: Tags, t: Ptr)
    requires PoolOk(mem, head, size, free, owner, tags)
    requires t in tags && 0 <= tags[t].buffer < |mem| && mem[tags[t].buffer].Data?
    requires forall u :: u in tags && u != t ==> tags[u].buffer != tags[t].buffer
    ensures var k := tags[t].buffer;
            PoolOk(mem[k := Free(head)], k, size + 1, [k] + free, owner, tags - {t})
  {
    var k: nat := tags[t].buffer;
    var mem', free' := mem[k := Free(head)], [k] + free;
    assert k !in free;
    NoDupAround(free, k);
    forall i | 0 <= i < |free'| ensures free'[i] < |mem'| && mem'[free'[i]] == Free(LinkOf(free', i + 1)) {
      if i > 0 {
        assert free[i - 1] in free;
        assert LinkOf(free', i + 1) == LinkOf(free, i);
      }
    }
    forall j | 0 <= j < |mem'| && j !in free' ensures j in owner && owner[j] in tags - {t} && (tags - {t})[owner[j]].buffer == j {
      assert free'[0] == k;
      assert j !in free;
    }
  }

  lemma TailDrop(tags: Tags, l: Links, hq: seq<Ptr>, bq: seq<Ptr>, limbo: Ptr)
    requires QueuesOk(tags, l, hq, bq, limbo) && limbo in tags && !Queued(hq, bq, limbo) && LimboOk(l, hq, bq, limbo)
    ensures l.Has(HEAD)
    ensures var t := l.prev[HEAD];
            if t == HEAD then hq == [] else
              && hq != [] && t == hq[|hq| - 1] && Without(hq, t) == hq[..|hq| - 1] && Without(bq, t) == bq
              && l.Has(t) && t in tags && t != limbo && tags[t].refs == 0
              && QueuesOk(tags - {t}, l.Detach(t), Without(hq, t), Without(bq, t), limbo)
              && !Queued(Without(hq, t), Without(bq, t), limbo)
              && LimboOk(l.Detach(t), Without(hq, t), Without(bq, t), limbo)
  {
    HeadTail(l, hq, bq);
    var t := l.prev[HEAD];
    hide LruOk, LimboOk;
    if t != HEAD {
      QueuesDrop(tags, l, hq, bq, t, limbo);
    }
  }

  lemma HeadTail(l: Links, hq: seq<Ptr>, bq: seq<Ptr>)
    requires LruOk(l, hq, bq)
    ensures l.Has(HEAD)
    ensures var t := l.prev[HEAD];
            if t == HEAD then hq == [] else
              hq != [] && t == hq[|hq| - 1] && t in hq && Without(hq, t) == hq[..|hq| - 1] && Without(bq, t) == bq
  {
    RingEnds(l, HEAD, hq);
    hide Ring;
    if hq != [] {
      assert hq[|hq| - 1] in hq;
      WithoutLast(hq);
    }
  }

  lemma WithoutLast(q: seq<Ptr>)
    requires q != [] && NoDup(q)
    ensures Without(q, q[|q| - 1]) == q[..|q| - 1]
  {
    var a, t := q[..|q| - 1], q[|q| - 1];
    assert q == a + [t] + [];
    NoDupSplit(a, t, []);
    WithoutSplits(a, t, []);
    assert a + [] == a;
  }

  lemma QueuesDrop(tags: Tags, l: Links, hq: seq<Ptr>, bq: seq<Ptr>, t: Ptr, limbo: Ptr)
    requires QueuesOk(tags, l, hq, bq, limbo) && limbo in tags && !Queued(hq, bq, limbo) && LimboOk(l, hq, bq, limbo)
    requires t in hq
    ensures l.Has(t) && t in tags && t != limbo
    ensures QueuesOk(tags - {t}, l.Detach(t), Without(hq, t), Without(bq, t), limbo)
    ensures !Queued(Without(hq, t), Without(bq, t), limbo)
    ensures LimboOk(l.Detach(t), Without(hq, t), Without(bq, t), limbo)
  {
    RingEnds(l, HEAD, hq);
    RingEnds(l, BUSY, bq);
    DetachOk(l, hq, bq, t);
    forall u | u in tags && u != t && u != limbo ensures Queued(Without(hq, t), Without(bq, t), u) {
      assert Queued(hq, bq, u);
    }
  }

  lemma RemoveOk(c: Core, d: Core, t: Ptr, link: int)
    requires c.Inv() && t in c.tags && c.tags[t].buffer >= 0 && c.tags[t].refs == 0
    requires d == c.(tags := d.tags, index := d.index, mem := d.mem, device := d.device)
    requires d.tags == c.tags - {t} && d.index == c.index - {c.tags[t].offset}
    requires c.tags[t].buffer < |c.mem| && d.mem == c.mem[c.tags[t].buffer := Free(link)]
    requires d.device == if c.tags[t].lazy then Splice(c.device, c.tags[t].offset, c.mem[c.tags[t].buffer].bytes) else c.device
    ensures d.Inv() && Abs(d) == Abs(c)
  {
    hide Core.ContentOk, Core.BufsOk, HoldsOk, Abs;
    if c.tags[t].lazy {
      var e := c.(tags := c.tags[t := c.tags[t].(lazy := false)],
                  device := Splice(c.device, c.tags[t].offset, c.mem[c.tags[t].buffer].bytes));
      FlushTagOk(c, e, t);
      assert e.tags - {t} == d.tags;
      DropOk(e, d, t, link);
    } else {
      DropOk(c, d, t, link);
    }
  }

  /** LRUHit: take the node off its queue, if it is on one, and put it at the
      front of Busy, or at the front (aged: the back) of Head. */
  function Hit(l: Links, t: Ptr, busy: bool, age: bool): Links
    requires {HEAD, BUSY, t} <= l.next.Keys && {HEAD, BUSY, t} <= l.prev.Keys
  {
    var d := if l.next[t] != NULL && l.prev[t] != NULL then l.Detach(t) else l;
    if busy then d.Attach(t, BUSY, d.next[BUSY])
    else if age then d.Attach(t, d.prev[HEAD], HEAD)
    else d.Attach(t, HEAD, d.next[HEAD])
  }

  ghost function HeadHit(hq: seq<Ptr>, t: Ptr, busy: bool, age: bool): seq<Ptr> {
    var q := Without(hq, t);
    if busy then q else if age then q + [t] else [t] + q
  }

  ghost function BusyHit(bq: seq<Ptr>, t: Ptr, busy: bool): seq<Ptr> {
    var q := Without(bq, t);
    if busy then [t] + q else q
  }

  lemma HitReady(tags: Tags, l: Links, hq: seq<Ptr>, bq: seq<Ptr>, t: Ptr)
    requires QueuesOk(tags, l, hq, bq, t) && LimboOk(l, hq, bq, t) && t in tags
    ensures {HEAD, BUSY, t} <= l.next.Keys && {HEAD, BUSY, t} <= l.prev.Keys
    ensures l.next[t] != NULL && l.prev[t] != NULL <==> Queued(hq, bq, t)
  {
    DummiesLinked(l, hq, bq);
    if Queued(hq, bq, t) {
      QueuesDetach(tags, l, hq, bq, t);
    }
  }

  lemma DummiesLinked(l: Links, hq: seq<Ptr>, bq: seq<Ptr>)
    requires LruOk(l, hq, bq)
    ensures l.Has(HEAD) && l.Has(BUSY)
  {
    RingEnds(l, HEAD, hq);
    RingEnds(l, BUSY, bq);
  }

  /** LRUHit leaves every tag on the queue its reference count calls for. */
  lemma HitOk(tags: Tags, l: Links, hq: seq<Ptr>, bq: seq<Ptr>, t: Ptr, age: bool)
    requires QueuesOk(tags, l, hq, bq, t) && LimboOk(l, hq, bq, t) && t in tags
    ensures {HEAD, BUSY, t} <= l.next.Keys && {HEAD, BUSY, t} <= l.prev.Keys
    ensures var busy := tags[t].refs > 0;
            QueuesOk(tags, Hit(l, t, busy, age), HeadHit(hq, t, busy, age), BusyHit(bq, t, busy), NULL)
  {
    HitReady(tags, l, hq, bq, t);
    if Queued(hq, bq, t) {
      QueuesDetach(tags, l, hq, bq, t);
      InsertOk(tags, l.Detach(t), Without(hq, t), Without(bq, t), t, age);
    } else {
      InsertOk(tags, l, hq, bq, t, age);
    }
  }

  lemma InsertOk(tags: Tags, l: Links, hq: seq<Ptr>, bq: seq<Ptr>, t: Ptr, age: bool)
    requires QueuesOk(tags, l, hq, bq, t) && t in tags && !Queued(hq, bq, t)
    ensures l.Has(HEAD) && l.Has(BUSY)
    ensures tags[t].refs > 0 ==> QueuesOk(tags, l.Attach(t, BUSY, l.next[BUSY]), hq, [t] + bq, NULL)
    ensures tags[t].refs == 0 && age ==> QueuesOk(tags, l.Attach(t, l.prev[HEAD], HEAD), hq + [t], bq, NULL)
    ensures tags[t].refs == 0 && !age ==> QueuesOk(tags, l.Attach(t, HEAD, l.next[HEAD]), [t] + hq, bq, NULL)
  {
    RingEnds(l, HEAD, hq);
    RingEnds(l, BUSY, bq);
    if tags[t].refs > 0 {
      AttachBusyOk(l, hq, bq, t);
      QueuesAttach(tags, l, hq, bq, t, l.Attach(t, BUSY, l.next[BUSY]), hq, [t] + bq);
    } else if age {
      AttachTailOk(l, hq, bq, t);
      QueuesAttach(tags, l, hq, bq, t, l.Attach(t, l.prev[HEAD], HEAD), hq + [t], bq);
    } else {
      AttachHeadOk(l, hq, bq, t);
      QueuesAttach(tags, l, hq, bq, t, l.Attach(t, HEAD, l.next[HEAD]), [t] + hq, bq);
    }
  }

  // ---- Buckets: search, move to front, insert ----

  lemma BucketHead(tags: Tags, c: Chains, lists: seq<seq<Ptr>>, h: nat)
    requires BucketsOk(tags, c, lists) && h < |lists|
    ensures h < |c.hash| && c.hash[h] == if lists[h] == [] then NULL else lists[h][0]
  {
    assert Chain(c.next, c.prev, c.hash[h], lists[h]);
  }

  /** Walking one step along a bucket. */
  lemma BucketStep(tags: Tags, c: Chains, lists: seq<seq<Ptr>>, h: nat, i: nat)
    requires BucketsOk(tags, c, lists) && h < |lists| && i < |lists[h]|
    ensures lists[h][i] != NULL && lists[h][i] in tags && lists[h][i] in c.next
    ensures c.next[lists[h][i]] == if i + 1 < |lists[h]| then lists[h][i + 1] else NULL
  {
    assert Chain(c.next, c.prev, c.hash[h], lists[h]);
    ChainAt(c.next, c.prev, c.hash[h], lists[h], i);
    assert lists[h][i] in lists[h];
  }

  /** A tag of some offset is in the bucket where that offset is searched for. */
  lemma BucketHas(tags: Tags, c: Chains, lists: seq<seq<Ptr>>, t: Ptr)
    requires BucketsOk(tags, c, lists) && t in tags
    ensures t in lists[Home(|lists|, tags[t].offset)]
  {
  }

  lemma BucketsPush(tags: Tags, c: Chains, lists: seq<seq<Ptr>>, t: Ptr)
    requires t in tags && t != NULL && BucketsOk(tags - {t}, c, lists)
    ensures var h := Home(|lists|, tags[t].offset);
            h < |c.hash| && BucketsOk(tags, c.Push(h, t), lists[h := [t] + lists[h]])
  {
    var n := |lists|;
    var h := Home(n, tags[t].offset);
    var tags0 := tags - {t};
    forall g, x | 0 <= g < n && x in lists[g] ensures x in Homes(n, tags) && Homes(n, tags)[x] == g {
      assert x in Homes(n, tags0);
    }
    ChainsHome(c, lists, Homes(n, tags0), Homes(n, tags));
    assert t !in lists[h];
    PushOk(c, lists, Homes(n, tags), h, t);
    var lists' := lists[h := [t] + lists[h]];
    forall u | u in tags ensures u in lists'[Home(n, tags[u].offset)] {
      if u != t {
        assert u in tags0 && u in lists[Home(n, tags0[u].offset)];
      } else {
        assert lists'[h][0] == t;
      }
    }
  }

  lemma BucketsUnlinkOf(tags: Tags, c: Chains, lists: seq<seq<Ptr>>, t: Ptr) returns (lists': seq<seq<Ptr>>)
    requires BucketsOk(tags, c, lists) && t in tags
    ensures var h := Home(|lists|, tags[t].offset);
            && h < |c.hash| && t in c.next && t in c.prev && lists' == lists[h := Without(lists[h], t)]
            && BucketsOk(tags - {t}, c.Unlink(h, t), lists')
  {
    var h := Home(|lists|, tags[t].offset);
    BucketHas(tags, c, lists, t);
    var i :| 0 <= i < |lists[h]| && lists[h][i] == t;
    BucketsUnlink(tags, c, lists, t, i);
    lists' := lists[h := lists[h][..i] + lists[h][i + 1..]];
    assert Chain(c.next, c.prev, c.hash[h], lists[h]);
    WithoutAt(lists[h], i);
  }

  lemma WithoutAt(q: seq<Ptr>, i: nat)
    requires i < |q| && NoDup(q)
    ensures Without(q, q[i]) == q[..i] + q[i + 1..]
  {
    var a, b := q[..i], q[i + 1..];
    assert q == a + [q[i]] + b;
    NoDupSplit(a, q[i], b);
    WithoutSplits(a, q[i], b);
  }

  /** In bucket `h`, `t` has been moved to the front. */
  ghost predicate InFront(lists: seq<seq<Ptr>>, lists': seq<seq<Ptr>>, h: nat, t: Ptr) {
    h < |lists| && lists' == lists[h := [t] + Without(lists[h], t)]
  }

  /** Moving a tag to the front of its bucket keeps the buckets. */
  lemma BucketsFront(tags: Tags, c: Chains, lists: seq<seq<Ptr>>, t: Ptr) returns (lists': seq<seq<Ptr>>)
    requires BucketsOk(tags, c, lists) && t in tags && t != NULL
    ensures var h := Home(|lists|, tags[t].offset);
            && h < |c.hash| && t in c.next && t in c.prev
            && BucketsOk(tags, c.Unlink(h, t).Push(h, t), lists') && InFront(lists, lists', h, t)
            && (c.hash[h] == t ==> lists' == lists)
  {
    BucketSizes(tags, c, lists);
    hide BucketsOk, Home, Without, Chains.Unlink, Chains.Push;
    var h := Home(|lists|, tags[t].offset);
    AlreadyInFront(tags, c, lists, h, t);
    var unlinked := BucketsUnlinkOf(tags, c, lists, t);
    BucketsPush(tags, c.Unlink(h, t), unlinked, t);
    lists' := lists[h := [t] + Without(lists[h], t)];
    UpdateTwice(lists, h, Without(lists[h], t), [t] + Without(lists[h], t));
  }

  lemma UpdateTwice(lists: seq<seq<Ptr>>, h: nat, a: seq<Ptr>, b: seq<Ptr>)
    requires h < |lists|
    ensures lists[h := a][h := b] == lists[h := b] && lists[h := a][h] == a && (b == lists[h] ==> lists[h := b] == lists)
  {
  }

  lemma BucketSizes(tags: Tags, c: Chains, lists: seq<seq<Ptr>>)
    requires BucketsOk(tags, c, lists)
    ensures |lists| == |c.hash| > 0
  {
  }

  lemma AlreadyInFront(tags: Tags, c: Chains, lists: seq<seq<Ptr>>, h: nat, t: Ptr)
    requires BucketsOk(tags, c, lists) && h < |lists| && t != NULL
    ensures h < |c.hash| && (c.hash[h] == t ==> lists[h] == [t] + Without(lists[h], t))
  {
    BucketHead(tags, c, lists, h);
    if c.hash[h] == t {
      assert Chain(c.next, c.prev, c.hash[h], lists[h]);
      WithoutAt(lists[h], 0);
    }
  }

  // ---- Memory: taking a block off the free list for a tag ----

  lemma PoolPop(mem: seq<Block>, head: int, size: nat, free: seq<nat>, owner: map<int, Ptr>, tags: Tags, t: Ptr, data: seq<Byte>)
    requires PoolOk(mem, head, size, free, owner, tags) && free != []
    requires t in tags && tags[t].buffer < 0
    requires forall u :: u in tags && tags[u].buffer >= 0 ==> tags[u].buffer < |mem| && mem[tags[u].buffer].Data?
    ensures head == free[0] && 0 <= head < |mem| && mem[head] == Free(LinkOf(free, 1))
    ensures forall u :: u in tags ==> tags[u].buffer != head
    ensures PoolOk(mem[head := Data(data)], LinkOf(free, 1), size - 1, free[1..], owner[head := t], tags[t := tags[t].(buffer := head)])
  {
    var k := free[0];
    var mem', free' := mem[k := Data(data)], free[1..];
    var owner', tags' := owner[k := t], tags[t := tags[t].(buffer := k)];
    assert free == [k] + free';
    forall i | 0 <= i < |free'| ensures free'[i] < |mem'| && mem'[free'[i]] == Free(LinkOf(free', i + 1)) {
      assert free'[i] == free[i + 1];
    }
    forall j | 0 <= j < |mem'| && j !in free' ensures j in owner' && owner'[j] in tags' && tags'[owner'[j]].buffer == j {
      if j != k {
        assert j !in free;
      }
    }
  }
}
