/** The sorted list of separated extents that stands for a set of blocks
    (src/libutil/ExtentManager.cpp:29-173). */
module Extents {
  datatype Extent = Extent(addr: int, count: int)

  function End(e: Extent): int {
    e.addr + e.count
  }

  predicate Before(a: Extent, b: Extent) {
    End(a) < b.addr
  }

  function Merge(a: Extent, b: Extent): (c: Extent)
    ensures c.addr <= a.addr && c.addr <= b.addr && End(a) <= End(c) && End(b) <= End(c)
    ensures c.addr in {a.addr, b.addr} && End(c) in {End(a), End(b)}
  {
    var lo := if b.addr < a.addr then b.addr else a.addr;
    Extent(lo, (if End(a) < End(b) then End(b) else End(a)) - lo)
  }

  predicate Has(e: Extent, b: int) {
    e.addr <= b < End(e)
  }

  ghost predicate Covers(l: seq<Extent>, b: int) {
    exists i :: 0 <= i < |l| && Has(l[i], b)
  }

  /** Extents inside [0, total]. */
  ghost predicate Within(l: seq<Extent>, total: int) {
    forall i :: 0 <= i < |l| ==> l[i].count >= 0 && 0 <= l[i].addr && End(l[i]) <= total
  }

  /** Sorted, and with at least one block between neighbours. */
  ghost predicate Separated(l: seq<Extent>) {
    forall i, j :: 0 <= i < j < |l| ==> Before(l[i], l[j])
  }

  lemma MergeCovers(a: Extent, b: Extent, x: int)
    requires !Before(a, b) && !Before(b, a)
    ensures Has(Merge(a, b), x) <==> Has(a, x) || Has(b, x)
  {
  }

  // ---- Removal ----

  /** The extent `r` lies strictly inside the extent `e`. */
  predicate Inside(r: Extent, e: Extent) {
    e.addr < r.addr && End(e) > End(r)
  }

  /** What the removal of `r` makes of a list. */
  function Remaining(l: seq<Extent>, r: Extent): seq<Extent>
    decreases |l|
  {
    if l == [] then []
    else if Before(l[0], r) then [l[0]] + Remaining(l[1..], r)
    else if Before(r, l[0]) then l
    else if l[0].addr >= r.addr && End(l[0]) <= End(r) then Remaining(l[1..], r)
    else if Inside(r, l[0]) then
      [Extent(l[0].addr, r.addr - l[0].addr), Extent(End(r), End(l[0]) - End(r))]
      + if |l| == 1 then [] else [l[1]] + Remaining(l[2..], r)
    else if l[0].addr >= r.addr then [Extent(End(r), End(l[0]) - End(r))] + Remaining(l[1..], r)
    else [Extent(l[0].addr, r.addr - l[0].addr)] + Remaining(l[1..], r)
  }

  /** Some extent is split. */
  ghost predicate Splits(l: seq<Extent>, r: Extent) {
    exists i :: 0 <= i < |l| && Inside(r, l[i])
  }

  ghost predicate SplitsLast(l: seq<Extent>, r: Extent) {
    l != [] && Inside(r, l[|l| - 1])
  }

  lemma CoversCons(e: Extent, l: seq<Extent>, b: int)
    ensures Covers([e] + l, b) <==> Has(e, b) || Covers(l, b)
  {
    var s := [e] + l;
    if Has(e, b) { assert Has(s[0], b); }
    if Covers(l, b) {
      var i :| 0 <= i < |l| && Has(l[i], b);
      assert s[i + 1] == l[i];
    }
  }

  lemma Tail(l: seq<Extent>, total: int)
    requires l != [] && Within(l, total) && Separated(l)
    ensures Within(l[1..], total) && Separated(l[1..])
    ensures forall i :: 0 <= i < |l[1..]| ==> Before(l[0], l[1..][i])
  {
    forall i, j | 0 <= i < j < |l[1..]| ensures Before(l[1..][i], l[1..][j]) {
      assert Before(l[i + 1], l[j + 1]);
    }
  }

  /** Later extents hold no block of `r` when it lies before the first. */
  lemma AllAfter(l: seq<Extent>, r: Extent, total: int, b: int)
    requires Within(l, total) && Separated(l) && l != [] && End(r) <= l[0].addr && Has(r, b)
    ensures !Covers(l, b)
  {
    forall i | 0 <= i < |l| ensures !Has(l[i], b) {
      if i > 0 { assert Before(l[0], l[i]); }
    }
  }

  /** An extent after `r` makes what follows it untouched. */
  lemma UntouchedAfter(l: seq<Extent>, r: Extent, total: int)
    requires Within(l, total) && Separated(l) && r.count >= 0
    requires forall i :: 0 <= i < |l| ==> End(r) < l[i].addr
    ensures Remaining(l, r) == l
  {
  }

  lemma RemainingNil(r: Extent)
    ensures Remaining([], r) == []
  {
  }

  /** One step of the removal. */
  lemma RemainingCases(e: Extent, t: seq<Extent>, r: Extent)
    ensures var left, right := Extent(e.addr, r.addr - e.addr), Extent(End(r), End(e) - End(r));
            Remaining([e] + t, r) ==
              if Before(e, r) then [e] + Remaining(t, r)
              else if Before(r, e) then [e] + t
              else if e.addr >= r.addr && End(e) <= End(r) then Remaining(t, r)
              else if Inside(r, e) then [left, right] + if t == [] then [] else [t[0]] + Remaining(t[1..], r)
              else if e.addr >= r.addr then [right] + Remaining(t, r)
              else [left] + Remaining(t, r)
  {
    var l := [e] + t;
    assert l[1..] == t;
    if t != [] { assert l[2..] == t[1..] && l[1] == t[0]; }
  }

  /** A split leaves what follows untouched. */
  lemma RemainingInside(e: Extent, t: seq<Extent>, r: Extent, total: int)
    requires Inside(r, e) && r.count >= 0 && Within(t, total) && Separated(t)
    requires forall i :: 0 <= i < |t| ==> Before(e, t[i])
    ensures Remaining([e] + t, r) == [Extent(e.addr, r.addr - e.addr)] + ([Extent(End(r), End(e) - End(r))] + t)
  {
    hide Remaining, Separated, Within;
    RemainingCases(e, t, r);
    var x, y := Extent(e.addr, r.addr - e.addr), Extent(End(r), End(e) - End(r));
    if t == [] {
      assert [x, y] + [] == [x] + ([y] + t);
    } else {
      assert Before(e, t[0]);
      Tail(t, total);
      UntouchedAfter(t[1..], r, total);
      assert [x, y] + ([t[0]] + t[1..]) == [x] + ([y] + t);
    }
  }

  /** After removing `r` exactly its blocks are gone. */
  lemma {:induction false} RemainingCovers(l: seq<Extent>, r: Extent, total: int, b: int)
    requires Within(l, total) && Separated(l) && r.count >= 0
    ensures Covers(Remaining(l, r), b) <==> Covers(l, b) && !Has(r, b)
    decreases |l|
  {
    if l != [] {
      var e, t := l[0], l[1..];
      assert e.count >= 0 && l == [e] + t;
      Tail(l, total);
      hide Covers, Remaining, Within, Separated;
      CoversCons(e, t, b);
      RemainingCases(e, t, r);
      if Before(r, e) && !Before(e, r) {
        if Has(r, b) { AllAfter(l, r, total, b); }
      } else if Inside(r, e) {
        RemainingInside(e, t, r, total);
        var x, y := Extent(e.addr, r.addr - e.addr), Extent(End(r), End(e) - End(r));
        if t != [] && Has(r, b) { AllAfter(t, r, total, b) by { assert Before(e, t[0]); } }
        if t == [] { assert !Covers([], b) by { CoversNil(b); } }
        CoversCons(x, [y] + t, b);
        CoversCons(y, t, b);
      } else {
        RemainingCovers(t, r, total, b);
        var rest := Remaining(t, r);
        CoversCons(e, rest, b);
        CoversCons(Extent(End(r), End(e) - End(r)), rest, b);
        CoversCons(Extent(e.addr, r.addr - e.addr), rest, b);
      }
    }
  }

  lemma CoversNil(b: int)
    ensures !Covers([], b)
  {
  }

  /** Everything in `l` is at or after `lo`. */
  ghost predicate NotBelow(l: seq<Extent>, lo: int) {
    forall i :: 0 <= i < |l| ==> lo <= l[i].addr
  }

  lemma ConsSeparated(e: Extent, l: seq<Extent>, total: int)
    requires Within(l, total) && 0 <= e.addr && 0 <= e.count && End(e) <= total
    ensures Within([e] + l, total)
    ensures Separated([e] + l) <==> Separated(l) && NotBelow(l, End(e) + 1)
  {
    var s := [e] + l;
    if Separated(s) {
      forall i, j | 0 <= i < j < |l| ensures Before(l[i], l[j]) { assert Before(s[i + 1], s[j + 1]); }
      forall i | 0 <= i < |l| ensures End(e) + 1 <= l[i].addr { assert Before(s[0], s[i + 1]); }
    }
  }

  lemma NotBelowTail(l: seq<Extent>, lo: int)
    requires NotBelow(l, lo) && l != []
    ensures NotBelow(l[1..], lo)
  {
  }

  lemma {:induction false} RemainingOk(l: seq<Extent>, r: Extent, total: int, lo: int)
    requires Within(l, total) && Separated(l) && r.count >= 0 && NotBelow(l, lo)
    ensures Within(Remaining(l, r), total) && NotBelow(Remaining(l, r), lo)
    ensures Separated(Remaining(l, r)) <==> r.count > 0 || !Splits(l, r)
    decreases |l|
  {
    if l == [] {
      RemainingNil(r);
    } else {
      var e, t := l[0], l[1..];
      assert e.count >= 0 && 0 <= e.addr && End(e) <= total && lo <= e.addr && l == [e] + t;
      Tail(l, total);
      hide Within, Separated, Splits, Remaining;
      NotBelowTail(l, lo);
      SplitsSplit(l, r);
      if Before(r, e) && !Before(e, r) {
        RemainingCases(e, t, r);
        NoSplitAfter(l, r);
      } else if Inside(r, e) {
        RemainingInside(e, t, r, total);
        var x, y := Extent(e.addr, r.addr - e.addr), Extent(End(r), End(e) - End(r));
        ConsSeparated(y, t, total);
        ConsSeparated(x, [y] + t, total);
        assert ([y] + t)[0] == y;
      } else {
        RemainingOk(t, r, total, End(e) + 1);
        RemainingHead(e, t, r, total, lo);
      }
    }
  }

  /** A first extent that `r` neither splits nor precedes: it stays, goes or is trimmed. */
  lemma RemainingHead(e: Extent, t: seq<Extent>, r: Extent, total: int, lo: int)
    requires r.count >= 0 && 0 <= e.addr && 0 <= e.count && End(e) <= total && lo <= e.addr
    requires !Inside(r, e) && (Before(e, r) || !Before(r, e))
    requires var rest := Remaining(t, r); Within(rest, total) && NotBelow(rest, End(e) + 1)
    ensures var rest, s := Remaining(t, r), Remaining([e] + t, r);
            Within(s, total) && NotBelow(s, lo) && (Separated(s) <==> Separated(rest))
  {
    var rest, s := Remaining(t, r), Remaining([e] + t, r);
    hide Within, Separated;
    assert ([e] + t)[1..] == t;
    NotBelowMore(rest, End(e) + 1, lo);
    if Before(e, r) {
      ConsSeparated(e, rest, total);
    } else if e.addr >= r.addr && End(e) > End(r) {
      NotBelowMore(rest, End(e) + 1, End(e));
      ConsSeparated(Extent(End(r), End(e) - End(r)), rest, total);
    } else if e.addr < r.addr {
      NotBelowMore(rest, End(e) + 1, r.addr + 1);
      ConsSeparated(Extent(e.addr, r.addr - e.addr), rest, total);
    }
  }

  lemma NotBelowMore(l: seq<Extent>, hi: int, lo: int)
    requires NotBelow(l, hi) && lo <= hi
    ensures NotBelow(l, lo)
  {
  }

  lemma SplitsSplit(l: seq<Extent>, r: Extent)
    requires l != []
    ensures Splits(l, r) <==> Inside(r, l[0]) || Splits(l[1..], r)
  {
    if Splits(l[1..], r) {
      var i :| 0 <= i < |l[1..]| && Inside(r, l[1..][i]);
      assert l[i + 1] == l[1..][i];
    }
  }

  lemma NoSplitAfter(l: seq<Extent>, r: Extent)
    requires l != [] && Separated(l) && End(r) < l[0].addr && r.count >= 0 && l[0].count >= 0
    ensures !Splits(l, r)
  {
    forall i | 0 <= i < |l| ensures !Inside(r, l[i]) {
      if i > 0 { assert Before(l[0], l[i]); }
    }
  }

  // ---- The list while an extent is being added ----

  /** The list with the extent at `nw` not yet merged with those behind it. */
  ghost predicate Merging(l: seq<Extent>, nw: nat, total: int) {
    && nw < |l| && Within(l, total)
    && (forall i, j :: 0 <= i < j < |l| && (j <= nw || i > nw) ==> Before(l[i], l[j]))
    && (forall k :: nw < k < |l| ==> l[nw].addr <= l[k].addr)
  }

  /** `l'` covers what `l` does, and the extent `e`. */
  ghost predicate Gained(l: seq<Extent>, e: Extent, l': seq<Extent>) {
    forall b :: Covers(l', b) <==> Covers(l, b) || Has(e, b)
  }

  lemma CoversAppend(x: seq<Extent>, y: seq<Extent>, b: int)
    ensures Covers(x + y, b) <==> Covers(x, b) || Covers(y, b)
  {
    var s := x + y;
    if Covers(x, b) {
      var i :| 0 <= i < |x| && Has(x[i], b);
      assert s[i] == x[i];
    }
    if Covers(y, b) {
      var i :| 0 <= i < |y| && Has(y[i], b);
      assert s[|x| + i] == y[i];
    }
  }

  lemma CoversAround(x: seq<Extent>, e: Extent, y: seq<Extent>, b: int)
    ensures Covers(x + [e] + y, b) <==> Covers(x, b) || Has(e, b) || Covers(y, b)
  {
    CoversAppend(x + [e], y, b);
    CoversAppend(x, [e], b);
    CoversCons(e, [], b);
  }

  lemma InsertGains(l: seq<Extent>, e: Extent, i: nat, total: int)
    requires Within(l, total) && Separated(l) && i <= |l| && 0 <= e.addr && 0 <= e.count && End(e) <= total
    requires forall k :: 0 <= k < i ==> Before(l[k], e)
    requires i < |l| ==> Before(e, l[i])
    ensures var l' := l[..i] + [e] + l[i..]; Merging(l', i, total) && Gained(l, e, l')
  {
    var l' := l[..i] + [e] + l[i..];
    forall b ensures Covers(l', b) <==> Covers(l, b) || Has(e, b) {
      CoversAround(l[..i], e, l[i..], b);
      assert l == l[..i] + l[i..];
      CoversAppend(l[..i], l[i..], b);
    }
    forall k | i < k < |l'| ensures l'[i].addr <= l'[k].addr {
      assert l'[k] == l[k - 1];
      if k - 1 > i { assert Before(l[i], l[k - 1]); }
    }
  }

  lemma MergeGains(l: seq<Extent>, e: Extent, i: nat, total: int)
    requires Within(l, total) && Separated(l) && i < |l| && 0 <= e.addr && 0 <= e.count && End(e) <= total
    requires forall k :: 0 <= k < i ==> Before(l[k], e)
    requires !Before(e, l[i]) && !Before(l[i], e)
    ensures var l' := l[i := Merge(e, l[i])]; Merging(l', i, total) && Gained(l, e, l')
  {
    var m := Merge(e, l[i]);
    var l' := l[i := m];
    forall b ensures Covers(l', b) <==> Covers(l, b) || Has(e, b) {
      assert l' == l[..i] + [m] + l[i + 1..];
      assert l == l[..i] + [l[i]] + l[i + 1..];
      CoversAround(l[..i], m, l[i + 1..], b);
      CoversAround(l[..i], l[i], l[i + 1..], b);
      MergeCovers(e, l[i], b);
    }
    forall k | i < k < |l'| ensures l'[i].addr <= l'[k].addr {
      assert Before(l[i], l[k]);
    }
  }

  /** Merging the extent at `nw` with the one behind it. */
  lemma AbsorbKeeps(l: seq<Extent>, nw: nat, total: int)
    requires Merging(l, nw, total) && nw + 1 < |l| && !Before(l[nw], l[nw + 1])
    ensures var m := l[nw := Merge(l[nw + 1], l[nw])]; var l' := m[..nw + 1] + m[nw + 2..];
            Merging(l', nw, total) && forall b :: Covers(l', b) <==> Covers(l, b)
  {
    var x, y, e := l[..nw], l[nw + 2..], Merge(l[nw + 1], l[nw]);
    var m := l[nw := e];
    var l' := m[..nw + 1] + m[nw + 2..];
    assert l' == x + [e] + y;
    forall b ensures Covers(l', b) <==> Covers(l, b) {
      CoversAround(x, e, y, b);
      assert l == x + [l[nw]] + ([l[nw + 1]] + y);
      CoversAround(x, l[nw], [l[nw + 1]] + y, b);
      CoversCons(l[nw + 1], y, b);
      MergeCovers(l[nw + 1], l[nw], b);
    }
    AbsorbSorted(l, nw, total, l');
  }

  lemma AbsorbSorted(l: seq<Extent>, nw: nat, total: int, l': seq<Extent>)
    requires Merging(l, nw, total) && nw + 1 < |l| && |l'| == |l| - 1
    requires forall k {:trigger l'[k]} :: 0 <= k < |l'| ==> l'[k] == if k < nw then l[k] else if k == nw then Merge(l[nw + 1], l[nw]) else l[k + 1]
    ensures Merging(l', nw, total)
  {
    assert l'[nw] == Merge(l[nw + 1], l[nw]);
    forall k | 0 <= k < |l'| ensures l'[k].count >= 0 && 0 <= l'[k].addr && End(l'[k]) <= total {
      assert k > nw ==> l'[k] == l[k + 1];
    }
    forall k | nw < k < |l'| ensures l'[nw].addr <= l'[k].addr {
      assert l'[k] == l[k + 1];
    }
    forall i, j | 0 <= i < j < |l'| && (j <= nw || i > nw) ensures Before(l'[i], l'[j]) {
      if j <= nw {
        assert l'[i] == l[i] && Before(l[i], l[j]);
      } else {
        assert l'[i] == l[i + 1] && l'[j] == l[j + 1];
        assert Before(l[i + 1], l[j + 1]);
      }
    }
  }

  /** Some extent of the list includes `e`, which may be empty. */
  ghost predicate Includes(l: seq<Extent>, e: Extent) {
    exists i :: 0 <= i < |l| && l[i].addr <= e.addr && End(e) <= End(l[i])
  }

  /** What a list includes, another one does as well. */
  ghost predicate Keeps(l: seq<Extent>, l': seq<Extent>) {
    forall e :: Includes(l, e) ==> Includes(l', e)
  }

  lemma KeepsTwice(l: seq<Extent>, l': seq<Extent>, l'': seq<Extent>)
    requires Keeps(l, l') && Keeps(l', l'')
    ensures Keeps(l, l'')
  {
    hide Includes;
  }

  lemma KeepsAll(l: seq<Extent>)
    ensures Keeps(l, l)
  {
  }

  lemma KeepsThis(l: seq<Extent>, l': seq<Extent>, e: Extent)
    requires Keeps(l, l') && Includes(l, e)
    ensures Includes(l', e)
  {
  }

  lemma InsertIncludes(l: seq<Extent>, e: Extent, i: nat)
    requires i <= |l|
    ensures var l' := l[..i] + [e] + l[i..]; Includes(l', e) && Keeps(l, l')
  {
    var l' := l[..i] + [e] + l[i..];
    assert l'[i] == e;
    forall x | Includes(l, x) ensures Includes(l', x) {
      var k :| 0 <= k < |l| && l[k].addr <= x.addr && End(x) <= End(l[k]);
      assert l'[if k < i then k else k + 1] == l[k];
    }
  }

  lemma MergeIncludes(l: seq<Extent>, e: Extent, i: nat)
    requires i < |l|
    ensures var l' := l[i := Merge(e, l[i])]; Includes(l', e) && Keeps(l, l')
  {
    var l' := l[i := Merge(e, l[i])];
    assert l'[i] == Merge(e, l[i]);
    forall x | Includes(l, x) ensures Includes(l', x) {
      var k :| 0 <= k < |l| && l[k].addr <= x.addr && End(x) <= End(l[k]);
      assert l'[k].addr <= x.addr && End(x) <= End(l'[k]);
    }
  }

  lemma AbsorbIncludes(l: seq<Extent>, nw: nat)
    requires nw + 1 < |l|
    ensures var m := l[nw := Merge(l[nw + 1], l[nw])]; Keeps(l, m[..nw + 1] + m[nw + 2..])
  {
    var m := l[nw := Merge(l[nw + 1], l[nw])];
    var l' := m[..nw + 1] + m[nw + 2..];
    assert l'[nw] == Merge(l[nw + 1], l[nw]);
    forall x | Includes(l, x) ensures Includes(l', x) {
      var k :| 0 <= k < |l| && l[k].addr <= x.addr && End(x) <= End(l[k]);
      var j := if k <= nw then k else k - 1;
      assert l'[j].addr <= x.addr && End(x) <= End(l'[j]);
    }
  }

  /** Nothing left to merge. */
  lemma MergingDone(l: seq<Extent>, nw: nat, total: int)
    requires Merging(l, nw, total) && (nw + 1 < |l| ==> Before(l[nw], l[nw + 1]))
    ensures Separated(l)
  {
    forall i, j | 0 <= i < j < |l| ensures Before(l[i], l[j]) {
      if i <= nw < j {
        assert i < nw ==> Before(l[i], l[nw]);
        assert nw + 1 < j ==> Before(l[nw + 1], l[j]);
      }
    }
  }

  // ---- The manager ----

  ghost function Interval(lo: int, hi: int): (r: set<int>)
    ensures forall b :: b in r <==> lo <= b < hi
    decreases hi - lo
  {
    if hi <= lo then {} else {lo} + Interval(lo + 1, hi)
  }

  lemma RoundUp(bytes: nat, bs: nat)
    requires bs > 0
    ensures var n := (bytes + (bs - 1)) / bs; n >= 0 && n * bs - bs < bytes <= n * bs
  {
    var n := (bytes + (bs - 1)) / bs;
    assert bytes + (bs - 1) == n * bs + (bytes + (bs - 1)) % bs;
  }

  lemma NoneCovered()
    ensures forall b :: !Covers([], b)
  {
  }

  class ExtentManager {
    var blockSize: nat
    var nativeBlockSize: nat
    var totalBytes: int
    var totalBlocks: int
    var extentList: seq<Extent>

    ghost predicate Valid()
      reads this
    {
      totalBlocks >= 0 && Within(extentList, totalBlocks) && Separated(extentList)
    }

    /** The blocks that the list stands for. */
    ghost function Covered(): set<int>
      reads this
    {
      set b: int | 0 <= b < totalBlocks && Covers(extentList, b)
    }

    constructor ()
      ensures Valid() && extentList == [] && totalBlocks == 0
    {
      blockSize, nativeBlockSize, totalBytes, totalBlocks, extentList := 0, 0, 0, 0, [];
    }

    /** Init, on a new manager: an empty set over as many blocks as hold the bytes, with an
        empty extent at either end. */
    method Init(theBlockSize: nat, theNativeBlockSize: nat, theTotalBytes: nat)
      requires extentList == [] && theBlockSize > 0
      modifies this
      ensures Valid() && Covered() == {}
      ensures blockSize == theBlockSize && nativeBlockSize == theNativeBlockSize && totalBytes == theTotalBytes
      ensures totalBlocks * blockSize - blockSize < totalBytes <= totalBlocks * blockSize
      ensures Includes(extentList, Extent(0, 0)) && Includes(extentList, Extent(totalBlocks, 0))
    {
      hide Includes, Keeps, Covers;
      blockSize, nativeBlockSize, totalBytes := theBlockSize, theNativeBlockSize, theTotalBytes;
      totalBlocks := (totalBytes + (blockSize - 1)) / blockSize;
      RoundUp(totalBytes, blockSize);
      NoneCovered();
      AddBlockRangeExtent(0, 0);
      ghost var l := extentList;
      AddBlockRangeExtent(totalBlocks, 0);
      KeepsThis(l, extentList, Extent(0, 0));
    }

    /** Adds the part of the range that lies within the volume, as part of one extent even
        if it is empty. */
    method AddBlockRangeExtent(addr: int, count: int)
      requires Valid() && count >= 0
      modifies this`extentList
      ensures Valid() && Covered() == old(Covered()) + Interval(addr, addr + count) * Interval(0, totalBlocks)
      ensures Keeps(old(extentList), extentList)
      ensures 0 <= addr && addr + count <= totalBlocks ==> Includes(extentList, Extent(addr, count))
    {
      hide Within, Separated, Merging, Gained, Covers, Includes, Keeps;
      KeepsAll(extentList);
      var blockAddr, numBlocks := addr, count;
      if blockAddr > totalBlocks || blockAddr + numBlocks < 0 {
        return;
      }
      if blockAddr < 0 {
        numBlocks := blockAddr + numBlocks;
        blockAddr := 0;
      }
      if blockAddr + numBlocks > totalBlocks {
        numBlocks := totalBlocks - blockAddr;
      }
      var ext := Extent(blockAddr, numBlocks);
      var cur := 0;
      var merged := false;
      ghost var l := extentList;
      while cur < |extentList| && !Before(ext, extentList[cur]) && !merged
        invariant 0 <= cur <= |l| && (merged ==> cur < |l|)
        invariant !merged ==> extentList == l && forall k :: 0 <= k < cur ==> Before(l[k], ext)
        invariant merged ==> Merging(extentList, cur, totalBlocks) && Gained(l, ext, extentList) && |extentList| == |l|
        invariant merged ==> Includes(extentList, ext) && Keeps(l, extentList)
        decreases !merged, |l| - cur
      {
        if !Before(extentList[cur], ext) {
          MergeGains(l, ext, cur, totalBlocks);
          MergeIncludes(l, ext, cur);
          extentList := extentList[cur := Merge(ext, extentList[cur])];
          merged := true;
        } else {
          cur := cur + 1;
        }
      }
      if !merged {
        InsertGains(l, ext, cur, totalBlocks);
        InsertIncludes(l, ext, cur);
        extentList := extentList[..cur] + [ext] + extentList[cur..];
      }
      ghost var m := extentList;
      MergeAround(cur);
      GainedThrough(l, ext, m, extentList);
      KeepsTwice(l, m, extentList);
      KeepsThis(m, extentList, ext);
      GainedSet(l, ext, extentList, totalBlocks);
    }

    /** Merges the extent at `nw` with all that it touches. */
    method MergeAround(nw: nat)
      requires Merging(extentList, nw, totalBlocks) && totalBlocks >= 0
      modifies this`extentList
      ensures Valid() && forall b :: Covers(extentList, b) <==> old(Covers(extentList, b))
      ensures Keeps(old(extentList), extentList)
    {
      hide Covers, Keeps;
      KeepsAll(extentList);
      var cur := 0;
      while cur < |extentList|
        invariant Merging(extentList, nw, totalBlocks) && 0 <= cur <= nw + 1
        invariant forall b :: Covers(extentList, b) <==> old(Covers(extentList, b))
        invariant Keeps(old(extentList), extentList)
        decreases |extentList| - cur
      {
        if cur == nw || Before(extentList[cur], extentList[nw]) {
          cur := cur + 1;
          continue;
        }
        if Before(extentList[nw], extentList[cur]) {
          break;
        }
        AbsorbKeeps(extentList, nw, totalBlocks);
        AbsorbIncludes(extentList, nw);
        ghost var before := extentList;
        extentList := extentList[nw := Merge(extentList[cur], extentList[nw])];
        extentList := extentList[..cur] + extentList[cur + 1..];
        KeepsTwice(old(extentList), before, extentList);
      }
      MergingDone(extentList, nw, totalBlocks);
    }

    /** Removes the range.  When it splits the last extent of the list the iterator is
        moved past the end; the list is complete by then, and is what the postcondition
        describes, but the behaviour of the program from there on is undefined.
        Removing an empty range from the inside of an extent leaves two extents that
        touch; nothing else breaks the separation. */
    method RemoveBlockRangeExtent(addr: int, count: int) returns (pastEnd: bool)
      requires Valid() && count >= 0
      modifies this`extentList
      ensures Within(extentList, totalBlocks)
      ensures Valid() <==> count > 0 || !Splits(old(extentList), Extent(addr, count))
      ensures Covered() == old(Covered()) - Interval(addr, addr + count)
      ensures pastEnd <==> SplitsLast(old(extentList), Extent(addr, count))
    {
      hide Within, Separated, Covers, Splits, SplitsLast, Remaining, Removing;
      var ext := Extent(addr, count);
      ghost var l := extentList;
      RemainingOk(l, ext, totalBlocks, 0) by { WithinNotBelow(l, totalBlocks); }
      RemainingSet(l, ext, totalBlocks);
      pastEnd := false;
      var cur := 0;
      ghost var k := 0;
      StartRemoving(l, ext);
      while cur < |extentList| && !pastEnd
        invariant 0 <= cur <= |extentList| && Removing(extentList, l, ext, cur, k, pastEnd) && (pastEnd ==> cur == |extentList|)
        decreases !pastEnd, |extentList| - cur
      {
        var e := extentList[cur];
        if Before(e, ext) {
          KeepOne(extentList, l, ext, cur, k, e);
          assert extentList[cur := e] == extentList;
          cur, k := cur + 1, k + 1;
          continue;
        }
        if Before(ext, e) {
          break;
        }
        if e.addr >= ext.addr && End(e) <= End(ext) {
          DropOne(extentList, l, ext, cur, k);
          extentList := extentList[..cur] + extentList[cur + 1..];
          k := k + 1;
        } else if e.addr < ext.addr && End(e) > End(ext) {
          SplitOne(extentList, l, ext, cur, k, totalBlocks);
          var newExt := Extent(End(ext), End(e) - End(ext));
          extentList := extentList[cur := Extent(e.addr, ext.addr - e.addr)];
          cur := cur + 1;
          extentList := extentList[..cur] + [newExt] + extentList[cur..];
          cur := cur + 1;
          if cur == |extentList| {
            pastEnd := true;
          } else {
            cur, k := cur + 1, k + 2;
          }
        } else if e.addr >= ext.addr {
          KeepOne(extentList, l, ext, cur, k, Extent(End(ext), End(e) - End(ext)));
          extentList := extentList[cur := Extent(End(ext), End(e) - End(ext))];
          cur, k := cur + 1, k + 1;
        } else {
          KeepOne(extentList, l, ext, cur, k, Extent(e.addr, ext.addr - e.addr));
          extentList := extentList[cur := Extent(e.addr, ext.addr - e.addr)];
          cur, k := cur + 1, k + 1;
        }
      }
      StopRemoving(extentList, l, ext, cur, k, totalBlocks, pastEnd);
    }
  }

  // ---- The list while a range is being removed ----

  /** The elements from `cur` on are those of the original list from `k` on; what
      precedes them, followed by what the removal makes of them, is the result. */
  ghost predicate Removing(list: seq<Extent>, l: seq<Extent>, r: Extent, cur: nat, k: nat, pastEnd: bool) {
    && cur <= |list| && k <= |l|
    && list[..cur] + Remaining(list[cur..], r) == Remaining(l, r)
    && (pastEnd ==> cur == |list| && SplitsLast(l, r))
    && (!pastEnd ==> list[cur..] == l[k..] && (k == |l| ==> !SplitsLast(l, r)))
  }

  lemma StartRemoving(l: seq<Extent>, r: Extent)
    ensures Removing(l, l, r, 0, 0, false)
  {
    hide Remaining;
    assert l[0..] == l;
  }

  /** The element at `cur` becomes `x`. */
  lemma KeepOne(list: seq<Extent>, l: seq<Extent>, r: Extent, cur: nat, k: nat, x: Extent)
    requires Removing(list, l, r, cur, k, false) && cur < |list|
    requires var e := list[cur];
             !Inside(r, e)
             && (if Before(e, r) then x == e
                 else !Before(r, e) && !(e.addr >= r.addr && End(e) <= End(r))
                      && x == if e.addr >= r.addr then Extent(End(r), End(e) - End(r)) else Extent(e.addr, r.addr - e.addr))
    ensures Removing(list[cur := x], l, r, cur + 1, k + 1, false)
  {
    hide Remaining;
    var e, rest := list[cur], list[cur..];
    var t := rest[1..];
    assert rest == [e] + t && rest[0] == l[k..][0];
    RemainingCases(e, t, r);
    var list' := list[cur := x];
    assert list'[cur + 1..] == t == l[k + 1..];
    assert list'[..cur + 1] == list[..cur] + [x];
    Assoc(list[..cur], [x], Remaining(t, r));
  }

  lemma DropOne(list: seq<Extent>, l: seq<Extent>, r: Extent, cur: nat, k: nat)
    requires Removing(list, l, r, cur, k, false) && cur < |list|
    requires list[cur].addr >= r.addr && End(list[cur]) <= End(r) && !Before(list[cur], r) && !Before(r, list[cur])
    ensures Removing(list[..cur] + list[cur + 1..], l, r, cur, k + 1, false)
  {
    hide Remaining;
    var e, rest := list[cur], list[cur..];
    var t := rest[1..];
    assert rest == [e] + t && rest[0] == l[k..][0];
    RemainingCases(e, t, r);
    var list' := list[..cur] + list[cur + 1..];
    assert list'[cur..] == t == l[k + 1..];
    assert list'[..cur] == list[..cur];
  }

  lemma SplitOne(list: seq<Extent>, l: seq<Extent>, r: Extent, cur: nat, k: nat, total: int)
    requires Removing(list, l, r, cur, k, false) && cur < |list| && Within(l, total) && Separated(l) && r.count >= 0
    requires Inside(r, list[cur])
    ensures var e := list[cur];
            var left, right := Extent(e.addr, r.addr - e.addr), Extent(End(r), End(e) - End(r));
            var m := list[cur := left];
            var list' := m[..cur + 1] + [right] + m[cur + 1..];
            if cur + 1 == |list| then Removing(list', l, r, cur + 2, k, true)
            else Removing(list', l, r, cur + 3, k + 2, false)
  {
    hide Remaining, Within, Separated;
    var e, rest := list[cur], list[cur..];
    var left, right := Extent(e.addr, r.addr - e.addr), Extent(End(r), End(e) - End(r));
    var t := rest[1..];
    assert rest == [e] + t && rest[0] == l[k..][0];
    RemainingCases(e, t, r);
    var m := list[cur := left];
    var list' := m[..cur + 1] + [right] + m[cur + 1..];
    var pre := list[..cur];
    assert list' == pre + [left, right] + t;
    if t == [] {
      RemainingNil(r);
      assert list'[cur + 2..] == [] && list'[..cur + 2] == pre + [left, right];
    } else {
      LastNotSplit(l, r, k, total);
      SplitStep(pre, [left, right], t, r);
      assert list'[cur + 3..] == t[1..] == l[k + 2..];
      assert list'[..cur + 3] == pre + [left, right] + [t[0]];
    }
  }

  lemma StopRemoving(list: seq<Extent>, l: seq<Extent>, r: Extent, cur: nat, k: nat, total: int, pastEnd: bool)
    requires Removing(list, l, r, cur, k, pastEnd) && Within(l, total) && Separated(l) && r.count >= 0
    requires cur == |list| || (!pastEnd && !Before(list[cur], r) && Before(r, list[cur]))
    ensures list == Remaining(l, r) && (pastEnd <==> SplitsLast(l, r))
  {
    hide Remaining, Within, Separated;
    if cur == |list| {
      RemainingNil(r);
    } else {
      var rest := list[cur..];
      assert rest[0] == l[k..][0] && rest == [rest[0]] + rest[1..];
      RemainingCases(rest[0], rest[1..], r);
      LastNotSplit(l, r, k, total);
      assert list == list[..cur] + rest;
    }
  }

  lemma Assoc(a: seq<Extent>, b: seq<Extent>, c: seq<Extent>)
    ensures a + b + c == a + (b + c)
  {
  }

  lemma SplitStep(pre: seq<Extent>, two: seq<Extent>, t: seq<Extent>, r: Extent)
    requires t != []
    ensures pre + two + t == pre + two + [t[0]] + t[1..]
    ensures pre + (two + ([t[0]] + Remaining(t[1..], r))) == pre + two + [t[0]] + Remaining(t[1..], r)
  {
    hide Remaining;
  }

  /** The last extent is whole when `r` splits, or comes before, an earlier one. */
  lemma LastNotSplit(l: seq<Extent>, r: Extent, k: nat, total: int)
    requires Within(l, total) && Separated(l) && k < |l| && r.count >= 0
    requires Before(r, l[k]) || (Inside(r, l[k]) && k + 1 < |l|)
    ensures !SplitsLast(l, r)
  {
    assert k + 1 < |l| ==> Before(l[k], l[|l| - 1]);
  }

  lemma WithinNotBelow(l: seq<Extent>, total: int)
    requires Within(l, total)
    ensures NotBelow(l, 0)
  {
  }

  lemma GainedThrough(l: seq<Extent>, e: Extent, m: seq<Extent>, l': seq<Extent>)
    requires Gained(l, e, m) && forall b :: Covers(l', b) <==> Covers(m, b)
    ensures Gained(l, e, l')
  {
    forall b ensures Covers(l', b) <==> Covers(l, b) || Has(e, b) {
      assert Covers(m, b) <==> Covers(l, b) || Has(e, b);
    }
  }

  lemma GainedSet(l: seq<Extent>, e: Extent, l': seq<Extent>, total: int)
    requires Gained(l, e, l')
    ensures (set b: int | 0 <= b < total && Covers(l', b)) == (set b: int | 0 <= b < total && Covers(l, b)) + (Interval(e.addr, End(e)) * Interval(0, total))
  {
  }

  lemma RemainingSet(l: seq<Extent>, r: Extent, total: int)
    requires Within(l, total) && Separated(l) && r.count >= 0
    ensures (set b: int | 0 <= b < total && Covers(Remaining(l, r), b)) == (set b: int | 0 <= b < total && Covers(l, b)) - Interval(r.addr, End(r))
  {
    forall b ensures Covers(Remaining(l, r), b) <==> Covers(l, b) && !Has(r, b) {
      RemainingCovers(l, r, total, b);
    }
  }

  /** Removing an empty range inside an extent leaves two extents that touch. */
  lemma EmptyRemovalTouches()
    ensures var l, r := [Extent(0, 4), Extent(6, 0)], Extent(2, 0);
            Within(l, 6) && Separated(l) && Remaining(l, r) == [Extent(0, 2), Extent(2, 2), Extent(6, 0)]
            && !Separated(Remaining(l, r))
  {
    var l, r := [Extent(0, 4), Extent(6, 0)], Extent(2, 0);
    RemainingCases(l[0], [l[1]], r);
    RemainingNil(r);
    assert l == [l[0]] + [l[1]];
    var m := Remaining(l, r);
    assert !Before(m[0], m[1]);
  }

  /** A list that covers a range up to the end of the volume has it in its last extent. */
  lemma {:induction false} LastToEnd(l: seq<Extent>, lo: int, total: int) returns (k: nat)
    requires Within(l, total) && Separated(l) && lo < total && forall b :: lo <= b < total ==> Covers(l, b)
    ensures l != [] && k == |l| - 1 && l[k].addr <= lo && End(l[k]) == total
    decreases total - lo
  {
    assert Covers(l, lo);
    var i :| 0 <= i < |l| && Has(l[i], lo);
    if lo + 1 == total {
      k := i;
      var last := l[|l| - 1];
      if i < |l| - 1 { assert false; }
    } else {
      k := LastToEnd(l, lo + 1, total);
      var last := l[k];
      if i < k { assert false; }
    }
  }

  /** On a new manager, after one add of a range up to the end of the volume, removing any
      range from the inside of it moves the iterator past the end. */
  method SplitAfterAdd(total: nat, lo: nat, addr: nat, count: nat) returns (m: ExtentManager, pastEnd: bool)
    requires lo < addr && addr + count < total
    ensures pastEnd
  {
    hide Within, Separated, Covers, Splits, Interval;
    m := new ExtentManager();
    m.Init(1, 1, total);
    m.AddBlockRangeExtent(lo, total - lo);
    forall b | lo <= b < total ensures Covers(m.extentList, b) { assert b in m.Covered(); }
    ghost var k := LastToEnd(m.extentList, lo, total);
    pastEnd := m.RemoveBlockRangeExtent(addr, count);
  }

  // ---- Whole runs ----

  datatype Op = Add(addr: int, count: nat) | Remove(addr: int, count: nat)

  /** The set of blocks after a sequence of calls. */
  ghost function SetAfter(ops: seq<Op>, s: set<int>, total: int): set<int> {
    if ops == [] then s
    else
      var t := SetAfter(ops[..|ops| - 1], s, total);
      match ops[|ops| - 1]
      case Add(a, c) => t + Interval(a, a + c) * Interval(0, total)
      case Remove(a, c) => t - Interval(a, a + c)
  }

  lemma SetAfterNext(ops: seq<Op>, i: nat, s: set<int>, total: int)
    requires i < |ops|
    ensures SetAfter(ops[..i + 1], s, total) ==
            match ops[i]
            case Add(a, c) => SetAfter(ops[..i], s, total) + Interval(a, a + c) * Interval(0, total)
            case Remove(a, c) => SetAfter(ops[..i], s, total) - Interval(a, a + c)
  {
    assert ops[..i + 1][..i] == ops[..i];
  }

  /** The list `l` is sorted and separated, and stands for the set `s`. */
  ghost predicate StandsFor(l: seq<Extent>, s: set<int>, total: int) {
    Within(l, total) && Separated(l) && s == set b: int | 0 <= b < total && Covers(l, b)
  }

  ghost predicate SplitsLastBy(l: seq<Extent>, op: Op) {
    op.Remove? && SplitsLast(l, Extent(op.addr, op.count))
  }

  /** Every run of adds and nonempty removes keeps the list sorted and separated and
      computes the set algebra, up to the first remove that splits the last extent:
      that is where, and only where, it stops.  `lists` are the lists before each call. */
  method Run(m: ExtentManager, ops: seq<Op>) returns (done: nat, pastEnd: bool, ghost lists: seq<seq<Extent>>)
    requires m.Valid() && forall i :: 0 <= i < |ops| && ops[i].Remove? ==> ops[i].count > 0
    modifies m`extentList
    ensures m.Valid() && |lists| == done <= |ops| && (done < |ops| ==> pastEnd)
    ensures m.Covered() == SetAfter(ops[..done], old(m.Covered()), m.totalBlocks)
    ensures forall k :: 0 <= k < done ==> StandsFor(lists[k], SetAfter(ops[..k], old(m.Covered()), m.totalBlocks), m.totalBlocks)
    ensures forall k :: 0 <= k < done ==> (SplitsLastBy(lists[k], ops[k]) <==> pastEnd && k == done - 1)
    ensures pastEnd ==> done > 0
  {
    hide Within, Separated, Covers, Splits, SplitsLast, Interval, SetAfter;
    ghost var s := m.Covered();
    done, pastEnd, lists := 0, false, [];
    assert SetAfter(ops[..0], s, m.totalBlocks) == s by { SetAfterNone(s, m.totalBlocks); assert ops[..0] == []; }
    while done < |ops| && !pastEnd
      invariant m.Valid() && |lists| == done <= |ops| && m.Covered() == SetAfter(ops[..done], s, m.totalBlocks)
      invariant forall k :: 0 <= k < done ==> StandsFor(lists[k], SetAfter(ops[..k], s, m.totalBlocks), m.totalBlocks)
      invariant forall k :: 0 <= k < done ==> (SplitsLastBy(lists[k], ops[k]) <==> pastEnd && k == done - 1)
      invariant pastEnd ==> done > 0
      decreases |ops| - done
    {
      SetAfterNext(ops, done, s, m.totalBlocks);
      lists := lists + [m.extentList];
      match ops[done] {
        case Add(a, c) => m.AddBlockRangeExtent(a, c);
        case Remove(a, c) => pastEnd := m.RemoveBlockRangeExtent(a, c);
      }
      done := done + 1;
    }
  }

  lemma SetAfterNone(s: set<int>, total: int)
    ensures SetAfter([], s, total) == s
  {
  }
}
