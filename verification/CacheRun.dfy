/** Every run of a client against the cache, as seen from outside: the bytes its reads
    return and the bytes it leaves behind are those of a plain array. */
module CacheRun {
  import opened Bytes
  import opened CacheCore
  import opened Lists
  import opened CacheState
  import opened CacheRoom
  import opened BlockCache

  /** One call of a client.  Buffers are named by the number of the read that made them. */
  datatype Op =
    | OpRead(off: nat, len: nat)
    | OpStore(k: nat, data: seq<Byte>)
    | OpWrite(k: nat, age: bool, lazy: bool, lock: bool)
    | OpRelease(k: nat, age: bool)
    | OpFlush

  datatype Slot = Open(off: nat, bytes: seq<Byte>, touched: bool) | Closed

  /** The reference: an array of bytes, and what the client has copied out of it. */
  datatype Machine = Machine(bytes: seq<Byte>, slots: seq<Slot>) {
    predicate IsOpen(k: nat) {
      k < |slots| && slots[k].Open?
    }

    /** What the interface asks of the client: disjoint outstanding ranges, and no
        release of a buffer it has stored into. */
    predicate Legal(op: Op) {
      match op
      case OpRead(off, len) =>
        len > 0 && forall k :: 0 <= k < |slots| && slots[k].Open? ==>
                     slots[k].off + |slots[k].bytes| <= off || off + len <= slots[k].off
      case OpStore(k, data) => IsOpen(k) && |data| == |slots[k].bytes|
      case OpWrite(k, _, _, _) => IsOpen(k)
      case OpRelease(k, _) => IsOpen(k) && !slots[k].touched
      case OpFlush => true
    }

    function Step(op: Op): Machine
      requires Legal(op)
    {
      match op
      case OpRead(off, len) =>
        if off + len <= |bytes| then Machine(bytes, slots + [Open(off, bytes[off..off + len], false)]) else this
      case OpStore(k, data) => Machine(bytes, slots[k := Open(slots[k].off, data, true)])
      case OpWrite(k, _, _, _) =>
        if slots[k].off + |slots[k].bytes| <= |bytes|
        then Machine(Splice(bytes, slots[k].off, slots[k].bytes), slots[k := Closed])
        else this
      case OpRelease(k, _) => Machine(bytes, slots[k := Closed])
      case OpFlush => this
    }
  }

  /** A client that keeps to the interface. */
  predicate LegalRun(m: Machine, ops: seq<Op>)
    decreases |ops|
  {
    ops == [] || (m.Legal(ops[0]) && LegalRun(m.Step(ops[0]), ops[1..]))
  }

  function RunOf(m: Machine, ops: seq<Op>): Machine
    requires LegalRun(m, ops)
    decreases |ops|
  {
    if ops == [] then m else RunOf(m.Step(ops[0]), ops[1..])
  }

  /** What the reads of a run return, in order. */
  function Outputs(m: Machine, ops: seq<Op>): seq<seq<Byte>>
    requires LegalRun(m, ops)
    decreases |ops|
  {
    if ops == [] then []
    else
      var m' := m.Step(ops[0]);
      var rest := Outputs(m', ops[1..]);
      if ops[0].OpRead? && |m'.slots| > |m.slots| && m'.slots[|m.slots|].Open?
      then [m'.slots[|m.slots|].bytes] + rest else rest
  }

  /** The cache's handles stand for the machine's slots, one for one. */
  ghost predicate Simulates(m: Machine, f: Flat, handles: seq<nat>) {
    && m.bytes == f.bytes && |handles| == |m.slots|
    && (forall k :: 0 <= k < |m.slots| && m.slots[k].Open? ==>
          handles[k] in f.open && f.open[handles[k]] == OpenBuf(m.slots[k].off, m.slots[k].bytes, m.slots[k].touched))
    && (forall b :: b in f.open ==> exists k :: 0 <= k < |m.slots| && m.slots[k].Open? && handles[k] == b)
    && (forall j, k :: 0 <= j < k < |m.slots| && m.slots[j].Open? && m.slots[k].Open? ==> handles[j] != handles[k])
  }

  lemma SimRead(m: Machine, f: Flat, handles: seq<nat>, off: nat, len: nat, b: nat)
    requires Simulates(m, f, handles) && b !in f.open && m.Legal(OpRead(off, len)) && off + len <= |m.bytes|
    ensures Simulates(m.Step(OpRead(off, len)), f.Read(b, off, len), handles + [b])
  {
    SimOpen(m, f, handles, b, Open(off, m.bytes[off..off + len], false));
  }

  lemma SimOpen(m: Machine, f: Flat, handles: seq<nat>, b: nat, s: Slot)
    requires Simulates(m, f, handles) && b !in f.open && s.Open?
    ensures Simulates(Machine(m.bytes, m.slots + [s]), Flat(f.bytes, f.open[b := OpenBuf(s.off, s.bytes, s.touched)]), handles + [b])
  {
    var slots, open, h' := m.slots + [s], f.open[b := OpenBuf(s.off, s.bytes, s.touched)], handles + [b];
    var n := |m.slots|;
    assert slots[n] == s && h'[n] == b && forall k :: 0 <= k < n ==> slots[k] == m.slots[k] && h'[k] == handles[k];
    forall e | e in open ensures exists k :: 0 <= k < |slots| && slots[k].Open? && h'[k] == e {
      if e != b {
        var k :| 0 <= k < n && m.slots[k].Open? && handles[k] == e;
        assert slots[k].Open? && h'[k] == e;
      }
    }
  }

  lemma SimStore(m: Machine, f: Flat, handles: seq<nat>, k: nat, data: seq<Byte>)
    requires Simulates(m, f, handles) && m.Legal(OpStore(k, data))
    ensures Simulates(m.Step(OpStore(k, data)), f.Store(handles[k], data), handles)
  {
    SimSet(m, f, handles, k, data);
  }

  lemma SimSet(m: Machine, f: Flat, handles: seq<nat>, k: nat, data: seq<Byte>)
    requires Simulates(m, f, handles) && m.IsOpen(k)
    ensures handles[k] in f.open && f.open[handles[k]].offset == m.slots[k].off
    ensures Simulates(Machine(m.bytes, m.slots[k := Open(m.slots[k].off, data, true)]),
                      Flat(f.bytes, f.open[handles[k] := OpenBuf(m.slots[k].off, data, true)]), handles)
  {
    var slots, open := m.slots[k := Open(m.slots[k].off, data, true)], f.open[handles[k] := OpenBuf(m.slots[k].off, data, true)];
    forall e | e in open ensures exists j :: 0 <= j < |slots| && slots[j].Open? && handles[j] == e {
      var j :| 0 <= j < |m.slots| && m.slots[j].Open? && handles[j] == e;
      assert slots[j].Open?;
    }
  }

  /** Writing or releasing slot `k` closes it. */
  lemma SimClose(m: Machine, f: Flat, handles: seq<nat>, k: nat, bytes: seq<Byte>)
    requires Simulates(m, f, handles) && m.IsOpen(k)
    ensures Simulates(Machine(bytes, m.slots[k := Closed]), Flat(bytes, f.open - {handles[k]}), handles)
  {
    var m', f' := Machine(bytes, m.slots[k := Closed]), Flat(bytes, f.open - {handles[k]});
    forall e | e in f'.open ensures exists j :: 0 <= j < |m'.slots| && m'.slots[j].Open? && handles[j] == e {
      var j :| 0 <= j < |m.slots| && m.slots[j].Open? && handles[j] == e;
      assert m'.slots[j].Open?;
    }
  }

  /** A legal read does not overlap any outstanding buffer of the cache. */
  lemma SimVacant(m: Machine, cache: Cache, handles: seq<nat>, off: nat, len: nat)
    requires cache.Valid() && Simulates(m, cache.Flat(), handles) && m.Legal(OpRead(off, len))
    ensures Vacant(cache.c.bufs, off, len)
  {
    hide Ok, HoldsExact, HandlesOk;
    forall e | e in cache.c.bufs
      ensures cache.c.bufs[e].offset + cache.c.bufs[e].length <= off || off + len <= cache.c.bufs[e].offset
    {
      ViewLength(cache.blockSize, cache.c, cache.g, e);
      assert e in cache.Flat().open;
      var k :| 0 <= k < |m.slots| && m.slots[k].Open? && handles[k] == e;
    }
  }

  // ---- When there is room ----

  /** The blocks under open slots. */
  ghost function InUse(m: Machine, bs: nat): set<nat>
    requires bs > 0
  {
    set k, o | 0 <= k < |m.slots| && m.slots[k].Open? && o in Touched(bs, m.slots[k].off, |m.slots[k].bytes|) :: o
  }

  ghost function OpenSlots(m: Machine): set<nat> {
    set k | 0 <= k < |m.slots| && m.slots[k].Open?
  }

  /** A cache of `n` blocks of `bs` bytes has what the call needs: for a read, a free Buf_t,
      its blocks on the device, and memory for the blocks in use, the locked ones and its
      own together. */
  ghost predicate Ready(m: Machine, locked: set<nat>, op: Op, bs: nat, n: nat)
    requires bs > 0
  {
    op.OpRead? ==>
      && |OpenSlots(m)| < MAXBUFS
      && (forall o :: o in Touched(bs, op.off, op.len) ==> o + bs <= |m.bytes|)
      && |InUse(m, bs) + locked + Touched(bs, op.off, op.len)| <= n
  }

  /** The locked blocks after a call. */
  ghost function LockedAfter(m: Machine, locked: set<nat>, op: Op, bs: nat): set<nat>
    requires bs > 0 && m.Legal(op)
  {
    if op.OpWrite? && op.lock then locked + Touched(bs, m.slots[op.k].off, |m.slots[op.k].bytes|) else locked
  }

  /** The same of every call of a run. */
  ghost predicate ReadyRun(m: Machine, locked: set<nat>, ops: seq<Op>, bs: nat, n: nat)
    requires bs > 0 && LegalRun(m, ops)
    decreases |ops|
  {
    ops == [] || (Ready(m, locked, ops[0], bs, n) && ReadyRun(m.Step(ops[0]), LockedAfter(m, locked, ops[0], bs), ops[1..], bs, n))
  }

  lemma {:induction false} ImageCount(s: set<nat>, h: seq<nat>)
    requires forall k :: k in s ==> k < |h|
    requires forall j, k :: j in s && k in s && j != k ==> h[j] != h[k]
    ensures |set k | k in s :: h[k]| == |s|
    decreases |s|
  {
    var image := set k | k in s :: h[k];
    if s == {} {
      assert image == {};
    } else {
      var x :| x in s;
      ImageCount(s - {x}, h);
      var rest := set k | k in s - {x} :: h[k];
      assert image == rest + {h[x]} && h[x] !in rest;
    }
  }

  /** As many slots are open as buffers are outstanding. */
  lemma OpenCount(m: Machine, f: Flat, handles: seq<nat>)
    requires Simulates(m, f, handles)
    ensures |OpenSlots(m)| == |f.open|
  {
    var s := OpenSlots(m);
    forall j, k | j in s && k in s && j != k ensures handles[j] != handles[k] {
      assert j < k || k < j;
    }
    ImageCount(s, handles);
    assert f.open.Keys == set k | k in s :: handles[k];
  }

  /** The blocks in use are those under outstanding buffers. */
  lemma SimInUse(m: Machine, cache: Cache, handles: seq<nat>)
    requires cache.Valid() && Simulates(m, cache.Flat(), handles)
    ensures InUse(m, cache.blockSize) == Covered(cache.blockSize, cache.c.bufs)
  {
    hide Ok, HoldsExact, HandlesOk, Touched, View;
    var bs, bufs := cache.blockSize, cache.c.bufs;
    forall k | 0 <= k < |m.slots| && m.slots[k].Open?
      ensures handles[k] in bufs && bufs[handles[k]].offset == m.slots[k].off && bufs[handles[k]].length == |m.slots[k].bytes|
    {
      ViewLength(bs, cache.c, cache.g, handles[k]);
    }
    forall b, o | b in bufs && o in Touched(bs, bufs[b].offset, bufs[b].length) ensures o in InUse(m, bs) {
      assert b in cache.Flat().open;
      var k :| 0 <= k < |m.slots| && m.slots[k].Open? && handles[k] == b;
      assert o in Touched(bs, m.slots[k].off, |m.slots[k].bytes|);
    }
  }

  lemma SimSizes(m: Machine, cache: Cache, handles: seq<nat>)
    requires cache.Valid() && Simulates(m, cache.Flat(), handles)
    ensures |cache.c.device| == |m.bytes| && cache.Flat().open.Keys == cache.c.bufs.Keys
    ensures |cache.c.freeBufs| + |cache.c.bufs| == MAXBUFS
  {
    hide Ok, HoldsExact, HandlesOk, View;
    DeviceSize(cache.blockSize, cache.c, cache.g);
  }

  /** What a read needs of the cache is what the machine says. */
  lemma SimReady(m: Machine, cache: Cache, handles: seq<nat>, off: nat, len: nat)
    requires cache.Valid() && Simulates(m, cache.Flat(), handles)
    ensures cache.c.freeBufs != [] && Readable(cache.blockSize, cache.c, off, len) <==>
            Ready(m, Locked(cache.c.tags), OpRead(off, len), cache.blockSize, |cache.c.mem|)
  {
    hide Simulates, InUse, Touched, Covered, Locked, Pinned, OpenSlots, Good, Abs;
    SimNumbers(m, cache, handles);
  }

  lemma SimNumbers(m: Machine, cache: Cache, handles: seq<nat>)
    requires cache.Valid() && Simulates(m, cache.Flat(), handles)
    ensures |cache.c.device| == |m.bytes| && |cache.c.freeBufs| + |OpenSlots(m)| == MAXBUFS
    ensures Pinned(cache.c.tags) == InUse(m, cache.blockSize) + Locked(cache.c.tags)
  {
    hide Simulates, InUse, Covered, Locked, Pinned, OpenSlots, Good, Touched, Abs;
    OpenCount(m, cache.Flat(), handles);
    SimInUse(m, cache, handles);
    SimSizes(m, cache, handles);
    PinnedIs(cache.blockSize, cache.c, cache.g);
    assert |cache.Flat().open.Keys| == |cache.c.bufs.Keys|;
  }

  /** One call of the client, on the cache. */
  method Call(cache: Cache, op: Op, handles: seq<nat>, ghost m: Machine)
    returns (err: Err, handles': seq<nat>, outs: seq<seq<Byte>>)
    requires cache.Valid() && m.Legal(op) && Simulates(m, cache.Flat(), handles)
    modifies cache
    ensures err == EOK ==> cache.Valid() && Simulates(m.Step(op), cache.Flat(), handles')
    ensures err == EOK && op.OpRead? ==>
              var m' := m.Step(op);
              |m'.slots| == |m.slots| + 1 && m'.slots[|m.slots|].Open? && outs == [m'.slots[|m.slots|].bytes]
    ensures err == EOK && !op.OpRead? ==> outs == []
    ensures err == EOK ==>
              && Locked(cache.c.tags) == LockedAfter(m, old(Locked(cache.c.tags)), op, cache.blockSize)
              && |cache.c.mem| == |old(cache.c.mem)|
    ensures cache.Reliable() ==> (err == EOK <==> Ready(m, old(Locked(cache.c.tags)), op, cache.blockSize, |old(cache.c.mem)|))
  {
    hide Good, Locked, Pinned, Touched, InUse, OpenSlots, Simulates, Abs;
    handles', outs := handles, [];
    match op {
      case OpRead(off, len) =>
        var b, data;
        err, b, data := CallRead(cache, off, len, handles, m);
        handles', outs := handles + [b], [data];
      case OpStore(k, data) =>
        SimStore(m, cache.Flat(), handles, k, data);
        SimLength(m, cache, handles, k);
        cache.ClientStore(handles[k], data);
        err := EOK;
      case OpWrite(k, age, lazy, lock) =>
        SimLength(m, cache, handles, k);
        err := cache.CacheWrite(handles[k], age, lazy, lock);
        if err == EOK {
          SimWrite(m, old(cache.Flat()), handles, k, op);
        }
      case OpRelease(k, age) =>
        SimLength(m, cache, handles, k);
        err := cache.CacheRelease(handles[k], age);
        SimClose(m, old(cache.Flat()), handles, k, cache.Flat().bytes);
        SimBytes(m, old(cache.Flat()), handles);
      case OpFlush =>
        err := cache.CacheFlush();
        if err == EOK { LockedFlushed(old(cache.c.tags), cache.c.tags); }
    }
  }

  /** A read, and what the client finds in the buffer. */
  method CallRead(cache: Cache, off: nat, len: nat, handles: seq<nat>, ghost m: Machine)
    returns (err: Err, b: nat, data: seq<Byte>)
    requires cache.Valid() && m.Legal(OpRead(off, len)) && Simulates(m, cache.Flat(), handles)
    modifies cache
    ensures err == EOK ==>
              && off + len <= |m.bytes| && data == m.bytes[off..off + len]
              && cache.Valid() && Simulates(m.Step(OpRead(off, len)), cache.Flat(), handles + [b])
              && Locked(cache.c.tags) == old(Locked(cache.c.tags)) && |cache.c.mem| == |old(cache.c.mem)|
    ensures cache.Reliable() ==>
              (err == EOK <==> Ready(m, old(Locked(cache.c.tags)), OpRead(off, len), cache.blockSize, |old(cache.c.mem)|))
  {
    hide Good, Locked, Pinned, Touched, Readable, Simulates, Abs, Ready;
    data := [];
    SimVacant(m, cache, handles, off, len);
    SimReady(m, cache, handles, off, len);
    SimBytes(m, cache.Flat(), handles);
    err, b := cache.CacheRead(off, len);
    if err == EOK {
      OpenKeys(cache.blockSize, old(cache.c), old(cache.g));
      SimRead(m, old(cache.Flat()), handles, off, len, b);
      OpenKeys(cache.blockSize, cache.c, cache.g);
      data := cache.ClientLoad(b);
    }
  }

  lemma OpenKeys(bs: nat, c: CacheT, g: Shadow)
    requires bs > 0
    ensures AbsOf(bs, c, g).open.Keys == c.bufs.Keys && AbsOf(bs, c, g).bytes == g.logical
  {
    hide View;
  }

  /** A write changes the array as it closes the slot. */
  lemma SimWrite(m: Machine, f: Flat, handles: seq<nat>, k: nat, op: Op)
    requires Simulates(m, f, handles) && op.OpWrite? && op.k == k && m.Legal(op) && m.slots[k].off + |m.slots[k].bytes| <= |m.bytes|
    ensures Simulates(m.Step(op), f.Write(handles[k]), handles)
  {
    SimClose(m, f, handles, k, Splice(m.bytes, m.slots[k].off, m.slots[k].bytes));
  }

  lemma SimLength(m: Machine, cache: Cache, handles: seq<nat>, k: nat)
    requires cache.Valid() && Simulates(m, cache.Flat(), handles) && m.IsOpen(k)
    ensures k < |handles| && handles[k] in cache.c.bufs && cache.c.bufs[handles[k]].length == |m.slots[k].bytes|
    ensures cache.c.bufs[handles[k]].offset == m.slots[k].off
    ensures m.slots[k].off + |m.slots[k].bytes| <= |m.bytes|
    ensures m.slots[k].touched <==> handles[k] in cache.g.touched
  {
    hide Ok, HoldsExact, HandlesOk;
    ViewLength(cache.blockSize, cache.c, cache.g, handles[k]);
  }

  lemma SimStart(f: Flat)
    requires f.open == map[]
    ensures Simulates(Machine(f.bytes, []), f, [])
  {
  }

  lemma SimBytes(m: Machine, f: Flat, handles: seq<nat>)
    requires Simulates(m, f, handles)
    ensures f.bytes == m.bytes
  {
  }

  lemma LockedFlushed(tags: Tags, tags': Tags)
    requires tags'.Keys == tags.Keys && forall t :: t in tags ==> tags'[t] == tags[t].(lazy := false)
    ensures Locked(tags') == Locked(tags)
  {
  }

  lemma RunEnd(m: Machine, ops: seq<Op>)
    ensures LegalRun(m, ops[|ops|..]) && RunOf(m, ops[|ops|..]) == m && Outputs(m, ops[|ops|..]) == []
    ensures forall locked: set<nat>, bs: nat, n: nat :: bs > 0 ==> ReadyRun(m, locked, ops[|ops|..], bs, n)
  {
  }

  lemma Regroup<T>(a: seq<T>, b: seq<T>, r: seq<T>)
    ensures (a + b) + r == a + (b + r)
  {
  }

  /** The first call of a run, and the rest. */
  lemma Unroll(m: Machine, ops: seq<Op>, i: nat)
    requires i < |ops| && LegalRun(m, ops[i..])
    ensures m.Legal(ops[i]) && LegalRun(m.Step(ops[i]), ops[i + 1..])
    ensures RunOf(m, ops[i..]) == RunOf(m.Step(ops[i]), ops[i + 1..])
    ensures var m' := m.Step(ops[i]);
            Outputs(m, ops[i..]) ==
            (if ops[i].OpRead? && |m'.slots| > |m.slots| && m'.slots[|m.slots|].Open? then [m'.slots[|m.slots|].bytes] else []) +
            Outputs(m', ops[i + 1..])
    ensures forall locked: set<nat>, bs: nat, n: nat {:trigger ReadyRun(m, locked, ops[i..], bs, n)} :: bs > 0 ==>
              (ReadyRun(m, locked, ops[i..], bs, n) <==>
               Ready(m, locked, ops[i], bs, n) && ReadyRun(m.Step(ops[i]), LockedAfter(m, locked, ops[i], bs), ops[i + 1..], bs, n))
  {
    assert ops[i..][0] == ops[i] && ops[i..][1..] == ops[i + 1..];
  }

  /** Over every legal run in which no call fails, the cache is indistinguishable from
      the array: the same bytes come out of every read, and the same bytes remain.  On
      a reliable device no call fails, exactly if there is room for every read. */
  method Run(cache: Cache, ops: seq<Op>) returns (err: Err, outs: seq<seq<Byte>>)
    requires cache.Valid() && cache.Flat().open == map[] && LegalRun(Machine(cache.Flat().bytes, []), ops)
    modifies cache
    ensures err == EOK ==>
              var m := Machine(old(cache.Flat()).bytes, []);
              && cache.Valid() && outs == Outputs(m, ops)
              && cache.Flat().bytes == RunOf(m, ops).bytes
    ensures cache.Reliable() ==>
              (err == EOK <==> ReadyRun(Machine(old(cache.Flat()).bytes, []), old(Locked(cache.c.tags)), ops, cache.blockSize, |old(cache.c.mem)|))
  {
    hide Good, Simulates, Machine.Step, Machine.Legal, Abs, LegalRun, RunOf, Outputs, ReadyRun, Ready, Locked, LockedAfter;
    SimStart(cache.Flat());
    ghost var m0 := Machine(cache.Flat().bytes, []);
    ghost var m, bs, n := m0, cache.blockSize, |cache.c.mem|;
    ghost var ready := ReadyRun(m0, Locked(cache.c.tags), ops, bs, n);
    assert ops[0..] == ops;
    var handles: seq<nat> := [];
    outs := [];
    var i := 0;
    while i < |ops|
      invariant 0 <= i <= |ops| && cache.Valid() && Simulates(m, cache.Flat(), handles)
      invariant LegalRun(m, ops[i..]) && RunOf(m, ops[i..]) == RunOf(m0, ops)
      invariant outs + Outputs(m, ops[i..]) == Outputs(m0, ops)
      invariant |cache.c.mem| == n && (cache.Reliable() ==> (ready <==> ReadyRun(m, Locked(cache.c.tags), ops[i..], bs, n)))
    {
      Unroll(m, ops, i);
      ghost var locked := Locked(cache.c.tags);
      assert ReadyRun(m, locked, ops[i..], bs, n) <==>
             Ready(m, locked, ops[i], bs, n) && ReadyRun(m.Step(ops[i]), LockedAfter(m, locked, ops[i], bs), ops[i + 1..], bs, n);
      var out;
      err, handles, out := Call(cache, ops[i], handles, m);
      if err != EOK {
        return;
      }
      Regroup(outs, out, Outputs(m.Step(ops[i]), ops[i + 1..]));
      outs := outs + out;
      m := m.Step(ops[i]);
      i := i + 1;
    }
    SimBytes(m, cache.Flat(), handles);
    RunEnd(m, ops);
    err := EOK;
  }

  /** A run on a new cache.  Without I/O errors it fails exactly when, at some read, all Buf_t
      are out, a block is not on the device, or the blocks in use at once are more than
      the cache has. */
  method RunNew(dev: seq<Byte>, devBlock: nat, cacheBlock: nat, totalBlocks: nat, hashSize: nat, fault: nat -> bool, ops: seq<Op>)
    returns (err: Err, outs: seq<seq<Byte>>, cache: Cache)
    requires devBlock > 0 && cacheBlock > 0 && totalBlocks > 0 && hashSize > 0 && LegalRun(Machine(dev, []), ops)
    ensures err == EOK ==>
              && cache.Valid() && outs == Outputs(Machine(dev, []), ops)
              && cache.Flat().bytes == RunOf(Machine(dev, []), ops).bytes
    ensures cacheBlock % devBlock == 0 && (forall n: nat :: !fault(n)) ==>
              (err == EOK <==> ReadyRun(Machine(dev, []), {}, ops, cacheBlock, totalBlocks))
  {
    hide Good, LegalRun, RunOf, Outputs, ReadyRun, Abs;
    cache := new Cache(dev, devBlock, cacheBlock, totalBlocks, hashSize, fault);
    assert Locked(cache.c.tags) == {};
    err, outs := Run(cache, ops);
  }
}
