/** The two LRU queues of the block cache (src/fsck_hfs/cache.c:1353-1490).
    Head and Busy are circular lists through dummy nodes at fixed addresses. */
module LruQueues {
  import opened Lists

  const HEAD: Ptr := 1
  const BUSY: Ptr := 2

  /** The LRU.Next and LRU.Prev fields of the dummy nodes and of every tag. */
  datatype Links = Links(next: map<Ptr, Ptr>, prev: map<Ptr, Ptr>) {
    ghost predicate Has(x: Ptr) {
      x in next && x in prev
    }

    /** Next->Prev = Prev; Prev->Next = Next. */
    function Detach(x: Ptr): Links
      requires x in next && x in prev
    {
      Links(next[prev[x] := next[x]], prev[next[x] := prev[x]])
    }

    /** Store the neighbours of `x`, then point them back at `x`. */
    function Attach(x: Ptr, p: Ptr, n: Ptr): Links {
      Links(next[x := n][p := x], prev[x := p][n := x])
    }
  }

  ghost predicate Ring(l: Links, dummy: Ptr, q: seq<Ptr>) {
    Linked(l.next, l.prev, [dummy] + q + [dummy])
  }

  /** `hq` and `bq` list, front to back, the tags on the Head and Busy queues. */
  ghost predicate LruOk(l: Links, hq: seq<Ptr>, bq: seq<Ptr>) {
    && Ring(l, HEAD, hq) && Ring(l, BUSY, bq)
    && NoDup(hq) && NoDup(bq)
    && (forall x :: x in hq ==> x > BUSY && x !in bq)
    && (forall x :: x in bq ==> x > BUSY)
  }

  ghost predicate Queued(hq: seq<Ptr>, bq: seq<Ptr>, x: Ptr) {
    x in hq || x in bq
  }

  lemma RingEnds(l: Links, d: Ptr, q: seq<Ptr>)
    requires Ring(l, d, q)
    ensures l.Has(d)
    ensures l.next[d] == if q == [] then d else q[0]
    ensures l.prev[d] == if q == [] then d else q[|q| - 1]
    ensures forall x :: x in q ==> l.Has(x) && (l.next[x] == d || l.next[x] in q) && (l.prev[x] == d || l.prev[x] in q)
  {
    var r := [d] + q + [d];
    assert r[0] in l.next && r[|r| - 1] in l.prev;
    assert r[1] == (if q == [] then d else q[0]);
    assert r[|r| - 2] == (if q == [] then d else q[|q| - 1]);
    forall x | x in q
      ensures l.Has(x) && (l.next[x] == d || l.next[x] in q) && (l.prev[x] == d || l.prev[x] in q)
    {
      var i :| 0 <= i < |q| && q[i] == x;
      assert r[i + 1] == x && r[i + 1] in l.next && r[i + 1] in l.prev;
      assert r[i + 2] == (if i + 1 < |q| then q[i + 1] else d);
      assert r[i] == (if i > 0 then q[i - 1] else d);
    }
  }

  lemma NoDupAround<T>(q: seq<T>, d: T)
    requires NoDup(q) && d !in q
    ensures NoDup([d] + q) && NoDup(q + [d])
  {
  }

  lemma NoDupSplit<T>(a: seq<T>, x: T, b: seq<T>)
    requires NoDup(a + [x] + b)
    ensures NoDup(a + b) && x !in a && x !in b
  {
    var q := a + [x] + b;
    assert q[|a|] == x;
    forall i | 0 <= i < |a| ensures a[i] != x { assert q[i] == a[i]; }
    forall i | 0 <= i < |b| ensures b[i] != x { assert q[|a| + 1 + i] == b[i]; }
    forall i, j | 0 <= i < j < |a + b| ensures (a + b)[i] != (a + b)[j] {
      assert (a + b)[i] == q[if i < |a| then i else i + 1];
      assert (a + b)[j] == q[if j < |a| then j else j + 1];
    }
  }

  /** Unlinking the member `x` of the ring over `a + [x] + b`. */
  lemma RingDetachAt(l: Links, d: Ptr, a: seq<Ptr>, x: Ptr, b: seq<Ptr>)
    requires Ring(l, d, a + [x] + b) && NoDup(a + [x] + b) && d !in a + [x] + b
    ensures l.Has(x) && Ring(l.Detach(x), d, a + b)
  {
    var q := a + [x] + b;
    var a', b' := [d] + a, b + [d];
    var r := a' + [x] + b';
    assert [d] + q + [d] == r;
    assert r[1..] == q + [d] && r[..|a'| + |b'|] == [d] + q;
    NoDupAround(q, d);
    UnlinkInner(l.next, l.prev, a', x, b');
    assert a' + b' == [d] + (a + b) + [d];
  }

  /** Unlinking a member of a ring leaves the ring without it. */
  lemma RingDetach(l: Links, d: Ptr, q: seq<Ptr>, x: Ptr)
    requires Ring(l, d, q) && NoDup(q) && d !in q && x in q
    ensures l.Has(x) && Ring(l.Detach(x), d, Without(q, x)) && NoDup(Without(q, x))
    ensures forall y :: y in q && y != x ==> y in Without(q, x)
    ensures x !in Without(q, x)
  {
    var i :| 0 <= i < |q| && q[i] == x;
    var a, b := q[..i], q[i + 1..];
    assert q == a + [x] + b;
    NoDupSplit(a, x, b);
    RingDetachAt(l, d, a, x, b);
    WithoutSplits(a, x, b);
  }

  /** Linking a new node right after, or right before, the dummy. */
  lemma RingAttach(l: Links, d: Ptr, q: seq<Ptr>, x: Ptr, front: bool)
    requires Ring(l, d, q) && NoDup(q) && d !in q && x !in q && x != d
    ensures l.Has(d)
    ensures var l' := if front then l.Attach(x, d, l.next[d]) else l.Attach(x, l.prev[d], d);
            Ring(l', d, if front then [x] + q else q + [x])
  {
    RingEnds(l, d, q);
    NoDupAround(q, d);
    if front {
      var a, b := [d], q + [d];
      assert [d] + q + [d] == a + b;
      assert (a + b)[1..] == q + [d] && (a + b)[..|a| + |b| - 1] == [d] + q;
      LinkBetween(l.next, l.prev, a, x, b);
      assert a + [x] + b == [d] + ([x] + q) + [d];
    } else {
      var a, b := [d] + q, [d];
      assert [d] + q + [d] == a + b;
      assert (a + b)[1..] == q + [d] && (a + b)[..|a| + |b| - 1] == [d] + q;
      LinkBetween(l.next, l.prev, a, x, b);
      assert a + [x] + b == [d] + (q + [x]) + [d];
    }
  }

  lemma RingFrame(l: Links, l': Links, d: Ptr, q: seq<Ptr>)
    requires Ring(l, d, q)
    requires forall y :: y in q + [d] && l.Has(y) ==> l'.Has(y) && l'.next[y] == l.next[y] && l'.prev[y] == l.prev[y]
    ensures Ring(l', d, q)
  {
    RingEnds(l, d, q);
    forall y | y in [d] + q + [d] ensures l.Has(y) && y in q + [d] {
      if y != d { assert y in q; }
    }
    LinkedFrame(l.next, l.prev, l'.next, l'.prev, [d] + q + [d]);
  }

  /** Detaching a queued tag takes it off whichever queue holds it. */
  lemma DetachOk(l: Links, hq: seq<Ptr>, bq: seq<Ptr>, x: Ptr)
    requires LruOk(l, hq, bq) && Queued(hq, bq, x)
    ensures l.Has(x) && l.next[x] != NULL && l.prev[x] != NULL
    ensures LruOk(l.Detach(x), Without(hq, x), Without(bq, x))
    ensures !Queued(Without(hq, x), Without(bq, x), x)
    ensures forall y :: y != x ==> (y in hq <==> y in Without(hq, x)) && (y in bq <==> y in Without(bq, x))
  {
    RingEnds(l, HEAD, hq);
    RingEnds(l, BUSY, bq);
    if x in hq {
      RingDetach(l, HEAD, hq, x);
      RingFrame(l, l.Detach(x), BUSY, bq);
    } else {
      RingDetach(l, BUSY, bq, x);
      RingFrame(l, l.Detach(x), HEAD, hq);
    }
  }

  /** Inserting a node between neighbours of another ring leaves a ring alone. */
  lemma AttachElsewhere(l: Links, x: Ptr, p: Ptr, n: Ptr, d: Ptr, q: seq<Ptr>)
    requires Ring(l, d, q) && x !in q + [d] && p !in q + [d] && n !in q + [d]
    ensures Ring(l.Attach(x, p, n), d, q)
  {
    hide Ring;
    RingFrame(l, l.Attach(x, p, n), d, q);
  }

  /** The ends of one queue are not on the other. */
  lemma EndsApart(l: Links, d: Ptr, q: seq<Ptr>, e: Ptr, r: seq<Ptr>)
    requires Ring(l, d, q) && d != e && d !in r && e !in q && forall x :: x in q ==> x !in r
    ensures l.Has(d) && l.next[d] !in r + [e] && l.prev[d] !in r + [e]
  {
    RingEnds(l, d, q);
    if q != [] { assert q[0] in q && q[|q| - 1] in q; }
  }

  lemma AttachBusyOk(l: Links, hq: seq<Ptr>, bq: seq<Ptr>, x: Ptr)
    requires LruOk(l, hq, bq) && !Queued(hq, bq, x) && x > BUSY
    ensures l.Has(BUSY) && LruOk(l.Attach(x, BUSY, l.next[BUSY]), hq, [x] + bq)
  {
    hide Ring;
    EndsApart(l, BUSY, bq, HEAD, hq);
    NoDupAround(bq, x);
    RingAttach(l, BUSY, bq, x, true);
    AttachElsewhere(l, x, BUSY, l.next[BUSY], HEAD, hq);
  }

  lemma AttachHeadOk(l: Links, hq: seq<Ptr>, bq: seq<Ptr>, x: Ptr)
    requires LruOk(l, hq, bq) && !Queued(hq, bq, x) && x > BUSY
    ensures l.Has(HEAD) && LruOk(l.Attach(x, HEAD, l.next[HEAD]), [x] + hq, bq)
  {
    hide Ring;
    EndsApart(l, HEAD, hq, BUSY, bq);
    NoDupAround(hq, x);
    RingAttach(l, HEAD, hq, x, true);
    AttachElsewhere(l, x, HEAD, l.next[HEAD], BUSY, bq);
  }

  lemma AttachTailOk(l: Links, hq: seq<Ptr>, bq: seq<Ptr>, x: Ptr)
    requires LruOk(l, hq, bq) && !Queued(hq, bq, x) && x > BUSY
    ensures l.Has(HEAD) && LruOk(l.Attach(x, l.prev[HEAD], HEAD), hq + [x], bq)
  {
    hide Ring;
    EndsApart(l, HEAD, hq, BUSY, bq);
    NoDupAround(hq, x);
    RingAttach(l, HEAD, hq, x, false);
    AttachElsewhere(l, x, l.prev[HEAD], HEAD, BUSY, bq);
  }
}
