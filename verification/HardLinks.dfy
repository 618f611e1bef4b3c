/** Checking and repairing the doubly linked chain of the hard links of one inode
    (src/fsck_hfs/dfalib/HardLinkCheck.c:94-243). */
module HardLinks {
  import opened Lists
  import opened Bytes

  /** struct HardLinkList: the ids of the neighbours as recorded in the catalog. */
  datatype Link = Link(prev: uint32, fileID: uint32, next: uint32)

  ghost predicate DistinctIDs(s: seq<Link>) {
    && (forall i :: 0 <= i < |s| ==> s[i].fileID != 0)
    && (forall i, j :: 0 <= i < j < |s| ==> s[i].fileID != s[j].fileID)
  }

  /** `r` lists the elements of `s` at the positions `idx`, each once. */
  ghost predicate Picks(s: seq<Link>, r: seq<Link>, idx: seq<nat>) {
    && |idx| == |r| && NoDup(idx)
    && (forall k :: 0 <= k < |idx| ==> idx[k] < |s| && r[k] == s[idx[k]])
  }

  ghost predicate IsPermutation(s: seq<Link>, r: seq<Link>) {
    |r| == |s| && exists idx :: Picks(s, r, idx)
  }

  /** chain_compare: the difference of two 32-bit numbers, taken as a signed int. */
  function Compare(x: Link, y: Link): int {
    var d := (x.prev - y.prev) % 0x1_0000_0000;
    if d < 0x8000_0000 then d else d - 0x1_0000_0000
  }

  /** The comparison orders the links: exchanging its arguments exchanges its sign, and it
      is transitive. */
  ghost predicate Consistent(s: seq<Link>) {
    && (forall x, y :: x in s && y in s ==> (Compare(x, y) < 0 <==> Compare(y, x) > 0))
    && (forall x, y, z :: x in s && y in s && z in s && Compare(x, y) <= 0 && Compare(y, z) <= 0 ==> Compare(x, z) <= 0)
  }

  ghost predicate InOrder(r: seq<Link>) {
    forall i, j :: 0 <= i < j < |r| ==> Compare(r[i], r[j]) <= 0
  }

  /** What the C library promises of qsort with chain_compare: some permutation, and one in
      order if the comparison orders the links. */
  ghost predicate QSorted(s: seq<Link>, r: seq<Link>) {
    IsPermutation(s, r) && (Consistent(s) ==> InOrder(r))
  }

  /** Every element of a list turns up in each of its permutations. */
  lemma PermutationHas(s: seq<Link>, r: seq<Link>, k: nat) returns (p: nat)
    requires IsPermutation(s, r) && k < |s|
    ensures p < |r| && r[p] == s[k]
  {
    var idx :| Picks(s, r, idx);
    Pigeonhole(idx, |s|);
    assert k in idx;
    p :| 0 <= p < |idx| && idx[p] == k;
  }

  lemma PermutationOf(s: seq<Link>, r: seq<Link>, idx: seq<nat>)
    requires Picks(s, r, idx) && |r| == |s|
    ensures IsPermutation(s, r)
  {
  }

  lemma PermutationTrans(a: seq<Link>, b: seq<Link>, c: seq<Link>)
    requires IsPermutation(a, b) && IsPermutation(b, c)
    ensures IsPermutation(a, c)
  {
    var p :| Picks(a, b, p);
    var q :| Picks(b, c, q);
    var r := seq(|c|, k requires 0 <= k < |c| => p[q[k]]);
    forall i, j | 0 <= i < j < |r| ensures r[i] != r[j] {
      assert q[i] != q[j];
    }
    assert Picks(a, c, r);
  }

  lemma PermutationDistinct(s: seq<Link>, r: seq<Link>)
    requires IsPermutation(s, r) && DistinctIDs(s)
    ensures DistinctIDs(r)
  {
    var idx :| Picks(s, r, idx);
    forall i, j | 0 <= i < j < |r| ensures r[i].fileID != r[j].fileID {
      assert idx[i] != idx[j];
      assert s[idx[i]].fileID != s[idx[j]].fileID;
    }
  }

  // ---- Well-formed chains ----

  /** The links, in order, name each other: the first has no predecessor, the last no
      successor, and `first` is the id the inode records. */
  ghost predicate IsChain(s: seq<Link>, first: uint32) {
    && s != [] && DistinctIDs(s)
    && s[0].prev == 0 && s[|s| - 1].next == 0 && first == s[0].fileID
    && (forall i {:trigger s[i].next} :: 0 <= i < |s| - 1 ==> s[i].next == s[i + 1].fileID)
    && (forall i {:trigger s[i].prev} :: 0 < i < |s| ==> s[i].prev == s[i - 1].fileID)
  }

  // ---- Topological sort ----

  /** The first position of `id`, or 0 when there is none. */
  method FindId(list: array<Link>, id: uint32) returns (r: nat)
    requires list.Length > 0
    ensures r < list.Length
    ensures r != 0 ==> list[r].fileID == id
    ensures r == 0 ==> list[0].fileID == id || forall i :: 0 <= i < list.Length ==> list[i].fileID != id
  {
    var i := 0;
    while i < list.Length
      invariant 0 <= i <= list.Length && forall j :: 0 <= j < i ==> list[j].fileID != id
    {
      if list[i].fileID == id {
        return i;
      }
      i := i + 1;
    }
    return 0;
  }

  // What the sort must do, said of the links alone.

  /** `y` is the first link of `order` that is not in `taken`. */
  ghost predicate FirstLeft(order: seq<Link>, taken: seq<Link>, y: Link) {
    y !in taken && exists p :: 0 <= p < |order| && order[p] == y && forall q :: 0 <= q < p ==> order[q] in taken
  }

  /** A link of `order` is left whose ID `x` names. */
  ghost predicate NamesOne(order: seq<Link>, taken: seq<Link>, x: Link) {
    exists y :: y in order && y !in taken && y.fileID == x.next
  }

  /** After `x`, when `taken` have been copied, comes `y`. */
  ghost predicate Succeeds(order: seq<Link>, taken: seq<Link>, x: Link, y: Link) {
    if NamesOne(order, taken, x) then y in order && y !in taken && y.fileID == x.next else FirstLeft(order, taken, y)
  }

  /** `r` starts with the first link of `order`, and each further one is the link that its
      predecessor names, if that is still left, and otherwise the first one left. */
  ghost predicate Topological(order: seq<Link>, r: seq<Link>) {
    && |r| == |order| && (r != [] ==> r[0] == order[0])
    && forall i {:trigger r[..i + 1]} :: 0 <= i < |r| - 1 ==> Succeeds(order, r[..i + 1], r[i], r[i + 1])
  }

  /** That determines it. */
  lemma {:induction false} TopologicalUnique(order: seq<Link>, r: seq<Link>, r': seq<Link>, k: nat)
    requires DistinctIDs(order) && Topological(order, r) && Topological(order, r') && k <= |r|
    ensures r[..k] == r'[..k]
  {
    if k == 1 {
      assert r[..1] == [r[0]] && r'[..1] == [r'[0]];
    } else if k > 1 {
      TopologicalUnique(order, r, r', k - 1);
      var i := k - 2;
      assert r[..i + 1] == r'[..i + 1];
      assert r[i] == r[..i + 1][i] && r'[i] == r'[..i + 1][i];
      NextUnique(order, r[..i + 1], r[i], r[i + 1], r'[i + 1]);
      assert r[..k] == r[..k - 1] + [r[k - 1]] && r'[..k] == r'[..k - 1] + [r'[k - 1]];
    }
  }

  lemma NextUnique(order: seq<Link>, taken: seq<Link>, x: Link, y: Link, z: Link)
    requires DistinctIDs(order) && Succeeds(order, taken, x, y) && Succeeds(order, taken, x, z)
    ensures y == z
  {
    if NamesOne(order, taken, x) {
      var i :| 0 <= i < |order| && order[i] == y;
      var j :| 0 <= j < |order| && order[j] == z;
    } else {
      var p :| 0 <= p < |order| && order[p] == y && forall q :: 0 <= q < p ==> order[q] in taken;
      var p' :| 0 <= p' < |order| && order[p'] == z && forall q :: 0 <= q < p' ==> order[q] in taken;
    }
  }

  // The same, of positions in `order`.

  /** After the positions `taken` comes `p`. */
  ghost predicate NextPos(order: seq<Link>, taken: seq<nat>, p: nat)
    requires taken != [] && taken[|taken| - 1] < |order|
  {
    && p < |order| && p !in taken
    && (order[p].fileID == order[taken[|taken| - 1]].next || (DeadEnd(order, taken) && AllIn(taken, p)))
  }

  /** The last link names none that is left. */
  ghost predicate DeadEnd(order: seq<Link>, taken: seq<nat>)
    requires taken != [] && taken[|taken| - 1] < |order|
  {
    forall q :: 0 <= q < |order| && q !in taken ==> order[q].fileID != order[taken[|taken| - 1]].next
  }

  ghost predicate Follows(order: seq<Link>, idx: seq<nat>) {
    && (forall k :: 0 <= k < |idx| ==> idx[k] < |order|) && (idx != [] ==> idx[0] == 0)
    && forall k {:trigger idx[..k]} :: 0 < k < |idx| ==> NextPos(order, idx[..k], idx[k])
  }

  lemma FollowsNext(order: seq<Link>, idx: seq<nat>, p: nat)
    requires Follows(order, idx) && p < |order|
    requires if idx == [] then p == 0 else NextPos(order, idx, p)
    ensures Follows(order, idx + [p])
  {
    var r := idx + [p];
    forall k | 0 < k < |r| ensures NextPos(order, r[..k], r[k]) {
      assert r[..k] == idx[..k];
      if k == |idx| { assert idx[..k] == idx; }
    }
  }

  lemma FoundNext(order: seq<Link>, list: seq<Link>, tmp: seq<Link>, idx: seq<nat>, j: nat)
    requires Taken(order, list, tmp, idx) && Follows(order, idx) && idx != [] && j < |list|
    requires list[j].fileID == tmp[|tmp| - 1].next != 0
    ensures Follows(order, idx + [j])
  {
    hide Follows;
    assert tmp[|tmp| - 1] == order[idx[|idx| - 1]];
    FollowsNext(order, idx, j);
  }

  lemma LostNext(order: seq<Link>, list: seq<Link>, tmp: seq<Link>, idx: seq<nat>)
    requires Taken(order, list, tmp, idx) && idx != [] && DistinctIDs(order)
    requires tmp[|tmp| - 1].next == 0 || forall i :: 0 <= i < |list| ==> list[i].fileID != tmp[|tmp| - 1].next
    ensures idx[|idx| - 1] < |order| && DeadEnd(order, idx)
  {
    assert tmp[|tmp| - 1] == order[idx[|idx| - 1]];
    forall q | 0 <= q < |order| && q !in idx ensures order[q].fileID != order[idx[|idx| - 1]].next {
      assert list[q] == order[q];
    }
  }

  /** Positions and links say the same. */
  lemma FollowsIsTopological(order: seq<Link>, r: seq<Link>, idx: seq<nat>)
    requires DistinctIDs(order) && Picks(order, r, idx) && Follows(order, idx) && |r| == |order|
    ensures Topological(order, r)
  {
    forall i | 0 <= i < |r| - 1 ensures Succeeds(order, r[..i + 1], r[i], r[i + 1]) {
      NextLink(order, r, idx, i);
    }
  }

  lemma LinksTaken(order: seq<Link>, r: seq<Link>, idx: seq<nat>, k: nat, q: nat)
    requires DistinctIDs(order) && Picks(order, r, idx) && k <= |r| && q < |order|
    ensures order[q] in r[..k] <==> q in idx[..k]
  {
    if order[q] in r[..k] {
      var j :| 0 <= j < k && r[..k][j] == order[q];
      assert r[j] == order[idx[j]] && idx[..k][j] == idx[j];
    }
    if q in idx[..k] {
      var j :| 0 <= j < k && idx[..k][j] == q;
      assert r[..k][j] == r[j] == order[q];
    }
  }

  lemma NextLink(order: seq<Link>, r: seq<Link>, idx: seq<nat>, i: nat)
    requires DistinctIDs(order) && Picks(order, r, idx) && Follows(order, idx) && i + 1 < |r|
    ensures Succeeds(order, r[..i + 1], r[i], r[i + 1])
  {
    var k := i + 1;
    var taken, p := idx[..k], idx[k];
    assert NextPos(order, taken, p);
    assert taken[|taken| - 1] == idx[i] && r[i] == order[idx[i]] && r[k] == order[p];
    LinksTaken(order, r, idx, k, p);
    if NamesOne(order, r[..k], r[i]) {
      var x :| x in order && x !in r[..k] && x.fileID == r[i].next;
      var q :| 0 <= q < |order| && order[q] == x;
      LinksTaken(order, r, idx, k, q);
    } else {
      assert order[p] in order;
      forall q | 0 <= q < p ensures order[q] in r[..k] {
        LinksTaken(order, r, idx, k, q);
        assert q in taken;
      }
    }
  }

  /** `tmp` holds the elements of `order` at `idx`; in `list` those have lost their id. */
  ghost predicate Taken(order: seq<Link>, list: seq<Link>, tmp: seq<Link>, idx: seq<nat>) {
    && Picks(order, tmp, idx) && |list| == |order|
    && (forall j :: 0 <= j < |list| ==> list[j] == if j in idx then order[j].(fileID := 0) else order[j])
  }

  lemma TakeOne(order: seq<Link>, list: seq<Link>, tmp: seq<Link>, idx: seq<nat>, j: nat)
    requires Taken(order, list, tmp, idx) && j < |list| && list[j].fileID != 0
    ensures j !in idx && |tmp| < |order| && list[j] == order[j]
    ensures Taken(order, list[j := list[j].(fileID := 0)], tmp + [list[j]], idx + [j])
  {
    var idx' := idx + [j];
    assert j !in idx;
    assert NoDup(idx');
    Pigeonhole(idx', |order|);
    var list' := list[j := list[j].(fileID := 0)];
    forall i | 0 <= i < |list'| ensures list'[i] == if i in idx' then order[i].(fileID := 0) else order[i] {
      assert i in idx' <==> i in idx || i == j;
    }
  }

  /** The list is some permutation of the chain `ch`. */
  ghost predicate IsChainFor(ch: seq<Link>, s: seq<Link>) {
    (exists first :: IsChain(ch, first)) && IsPermutation(ch, s)
  }

  /** No link but the last has an id of 2^31 or more. */
  ghost predicate LowIDs(ch: seq<Link>) {
    forall i :: 0 <= i < |ch| - 1 ==> ch[i].fileID < 0x8000_0000
  }

  /** Copies the node at `j` over to the new list and clears its id. */
  method Take(list: array<Link>, tmp: array<Link>, t: nat, j: nat, ghost order: seq<Link>, ghost idx: seq<nat>)
    requires list != tmp && list.Length == tmp.Length == |order| && t <= tmp.Length && j < list.Length && list[j].fileID != 0
    requires Taken(order, list[..], tmp[..t], idx)
    modifies list, tmp
    ensures t < tmp.Length && tmp[..t + 1] == old(tmp[..t]) + [old(list[j])] && old(list[j]) == order[j]
    ensures Taken(order, list[..], tmp[..t + 1], idx + [j])
  {
    TakeOne(order, list[..], tmp[..t], idx, j);
    ghost var l, x := list[..], list[j];
    tmp[t] := list[j];
    list[j] := list[j].(fileID := 0);
    assert list[..] == l[j := x.(fileID := 0)];
    assert tmp[..t + 1] == old(tmp[..t]) + [x];
  }

  /** Follows the chain from the last node copied, as far as it leads to nodes that
      are still in the list. */
  method Follow(list: array<Link>, tmp: array<Link>, t0: nat, ghost order: seq<Link>, ghost idx0: seq<nat>)
    returns (t: nat, ghost idx: seq<nat>)
    requires list != tmp && list.Length == tmp.Length == |order| && 0 < t0 <= tmp.Length && DistinctIDs(order)
    requires Taken(order, list[..], tmp[..t0], idx0) && 0 in idx0 && Follows(order, idx0)
    modifies list, tmp
    ensures t0 <= t <= tmp.Length && idx0 <= idx && Taken(order, list[..], tmp[..t], idx) && tmp[0] == old(tmp[0])
    ensures Follows(order, idx) && idx != [] && idx[|idx| - 1] < |order| && DeadEnd(order, idx)
  {
    hide Taken, DistinctIDs, Follows, DeadEnd;
    t, idx := t0, idx0;
    var i := tmp[t - 1].next;
    if i == 0 { LostNext(order, list[..], tmp[..t], idx); }
    while i != 0
      invariant t0 <= t <= tmp.Length && idx0 <= idx && Taken(order, list[..], tmp[..t], idx) && tmp[0] == old(tmp[0])
      invariant Follows(order, idx) && idx != [] && (i != 0 ==> i == tmp[t - 1].next)
      invariant i == 0 ==> idx[|idx| - 1] < |order| && DeadEnd(order, idx)
      decreases tmp.Length - t, i
    {
      var j := FindId(list, i);
      HeadTaken(order, list[..], tmp[..t], idx);
      if j == 0 {
        LostNext(order, list[..], tmp[..t], idx);
        i := 0;
      } else {
        FoundNext(order, list[..], tmp[..t], idx, j);
        ghost var before := tmp[..t];
        Take(list, tmp, t, j, order, idx);
        assert tmp[..t + 1][0] == before[0];
        idx := idx + [j];
        t := t + 1;
        i := tmp[t - 1].next;
        if i == 0 { LostNext(order, list[..], tmp[..t], idx); }
      }
    }
  }

  lemma HeadTaken(order: seq<Link>, list: seq<Link>, tmp: seq<Link>, idx: seq<nat>)
    requires Taken(order, list, tmp, idx) && 0 in idx && |list| > 0
    ensures list[0].fileID == 0
  {
  }

  /** A chain whose head qsort put first is what following the links gives. */
  lemma ChainIsTopological(ch: seq<Link>, order: seq<Link>)
    requires (exists first :: IsChain(ch, first)) && IsPermutation(ch, order) && order != [] && order[0] == ch[0]
    ensures Topological(order, ch)
  {
    var first :| IsChain(ch, first);
    forall i | 0 <= i < |ch| - 1 ensures Succeeds(order, ch[..i + 1], ch[i], ch[i + 1]) {
      var p := PermutationHas(ch, order, i + 1);
      assert order[p] in order;
      forall k | 0 <= k <= i ensures ch[k] != ch[i + 1] {}
      assert ch[i].next == ch[i + 1].fileID;
    }
  }

  /** Sorts the links topologically: whatever the links say, the result is the permutation
      of them that starts with the link qsort put first and follows the links from each
      one, as far as they lead; and if some order of them is a well-formed chain, the
      result is that order exactly when that link is its head. */
  method TSort(list: array<Link>, order: seq<Link>, ghost ch: seq<Link>)
    requires list.Length > 0 && DistinctIDs(list[..]) && QSorted(list[..], order)
    modifies list
    ensures IsPermutation(old(list[..]), list[..]) && order != [] && list[0] == order[0]
    ensures Topological(order, list[..])
    ensures IsChainFor(ch, old(list[..])) ==> ch != [] && (list[..] == ch <==> order[0] == ch[0])
  {
    hide Taken, IsPermutation, IsChainFor, QSorted, IsChain, Follows, DeadEnd, Topological;
    ghost var s := list[..];
    Prepared(s, order, ch);
    var n := list.Length;
    forall i | 0 <= i < n { list[i] := order[i]; }
    assert list[..] == order;
    var tmp := new Link[n](_ => Link(0, 0, 0));
    var t: nat := 0;
    ghost var idx: seq<nat> := [];
    TakenNone(order, tmp[..0]);
    FollowsNone(order);
    var cur := 0;
    while cur < n
      invariant 0 <= cur <= n && t <= n && fresh(tmp) && tmp.Length == n && Taken(order, list[..], tmp[..t], idx)
      invariant AllIn(idx, cur) && (cur == 0 ==> t == 0 && idx == [])
      invariant cur > 0 ==> t > 0 && tmp[0] == order[0]
      invariant Follows(order, idx) && (cur > 0 ==> idx != [] && idx[|idx| - 1] < |order| && DeadEnd(order, idx))
    {
      TakenId(order, list[..], tmp[..t], idx, cur);
      assert cur == 0 ==> 0 !in idx;
      // links copied earlier have lost their ids
      if list[cur].fileID != 0 {
        NotTaken(order, list[..], tmp[..t], idx, cur);
        Take(list, tmp, t, cur, order, idx);
        assert tmp[..t + 1][0] == order[0];
        AllInNext(idx, cur);
        FollowsNext(order, idx, cur);
        ghost var idx1 := idx + [cur];
        t, idx := Follow(list, tmp, t + 1, order, idx1);
        AllInMore(idx1, idx, cur + 1);
      }
      cur := cur + 1;
    }
    TakenAll(s, order, list[..], tmp[..t], idx);
    FollowsIsTopological(order, tmp[..t], idx) by { TakenPicks(order, list[..], tmp[..t], idx); }
    ghost var r := tmp[..t];
    forall i | 0 <= i < n { list[i] := tmp[i]; }
    assert list[..] == r;
    if IsChainFor(ch, s) && order[0] == ch[0] {
      ChainIsTopological(ch, order);
      TopologicalUnique(order, r, ch, n);
      assert r[..n] == r && ch[..n] == ch;
    }
  }

  /** The positions below `n` are all in `idx`. */
  ghost predicate AllIn(idx: seq<nat>, n: nat) {
    forall j :: 0 <= j < n ==> j in idx
  }

  lemma AllInNext(idx: seq<nat>, n: nat)
    requires AllIn(idx, n)
    ensures AllIn(idx + [n], n + 1) && 0 in idx + [n]
  {
    forall j | 0 <= j <= n ensures j in idx + [n] {
      if j < n { assert j in idx; } else { assert (idx + [n])[|idx|] == n; }
    }
  }

  lemma AllInMore(idx: seq<nat>, idx': seq<nat>, n: nat)
    requires AllIn(idx, n) && idx <= idx'
    ensures AllIn(idx', n)
  {
    forall j | 0 <= j < n ensures j in idx' {
      assert j in idx;
      var k :| 0 <= k < |idx| && idx[k] == j;
      assert idx'[k] == j;
    }
  }

  lemma Prepared(s: seq<Link>, order: seq<Link>, ch: seq<Link>)
    requires s != [] && DistinctIDs(s) && QSorted(s, order)
    ensures |order| == |s| && DistinctIDs(order) && IsPermutation(s, order)
    ensures IsChainFor(ch, s) ==>
              |ch| == |s| && (exists first :: IsChain(ch, first)) && IsPermutation(ch, order)
  {
    PermutationDistinct(s, order);
    if IsChainFor(ch, s) { PermutationTrans(ch, s, order); }
  }

  lemma FollowsNone(order: seq<Link>)
    ensures Follows(order, [])
  {
  }

  lemma NotTaken(order: seq<Link>, list: seq<Link>, tmp: seq<Link>, idx: seq<nat>, j: nat)
    requires Taken(order, list, tmp, idx) && j < |list| && list[j].fileID != 0
    ensures j !in idx
  {
  }

  lemma TakenPicks(order: seq<Link>, list: seq<Link>, tmp: seq<Link>, idx: seq<nat>)
    requires Taken(order, list, tmp, idx)
    ensures Picks(order, tmp, idx)
  {
  }

  lemma TakenNone(order: seq<Link>, tmp: seq<Link>)
    requires tmp == []
    ensures Taken(order, order, tmp, [])
  {
  }

  /** A node that lost its id was copied. */
  lemma TakenId(order: seq<Link>, list: seq<Link>, tmp: seq<Link>, idx: seq<nat>, cur: nat)
    requires Taken(order, list, tmp, idx) && DistinctIDs(order) && cur < |list| && AllIn(idx, cur)
    ensures list[cur].fileID == 0 ==> AllIn(idx, cur + 1)
  {
  }

  lemma TakenAll(s: seq<Link>, order: seq<Link>, list: seq<Link>, tmp: seq<Link>, idx: seq<nat>)
    requires Taken(order, list, tmp, idx) && AllIn(idx, |order|) && IsPermutation(s, order) && |tmp| <= |order|
    ensures |tmp| == |order| && IsPermutation(s, tmp)
  {
    var all := Range(|order|);
    var got: set<int> := Members(idx);
    assert all <= got;
    SubsetCount(all, got);
    DistinctCount(idx);
    PermutationOf(order, tmp, idx);
    PermutationTrans(s, order, tmp);
  }

  // ---- Recording and applying repairs ----

  /** A repair order: the field of the link `id` (or of the inode) that is wrong, and
      the value it should have. */
  datatype Repair =
    | BadPrev(id: uint32, was: uint32, shouldBe: uint32)
    | BadNext(id: uint32, was: uint32, shouldBe: uint32)
    | BadFirst(was: uint32, shouldBe: uint32)

  function If(b: bool, r: Repair): seq<Repair> {
    if b then [r] else []
  }

  function ApplyOne(r: Repair, x: Link): Link {
    match r
    case BadPrev(id, _, v) => if x.fileID == id then x.(prev := v) else x
    case BadNext(id, _, v) => if x.fileID == id then x.(next := v) else x
    case BadFirst(_, _) => x
  }

  /** The link `x` after the orders have been carried out, in turn. */
  function ApplyAll(rs: seq<Repair>, x: Link): (y: Link)
    ensures y.fileID == x.fileID
  {
    if rs == [] then x else ApplyOne(rs[|rs| - 1], ApplyAll(rs[..|rs| - 1], x))
  }

  /** The id of the first link, as the inode records it, after the orders. */
  function FirstAfter(rs: seq<Repair>, first: uint32): uint32 {
    if rs == [] then first
    else if rs[|rs| - 1].BadFirst? then rs[|rs| - 1].shouldBe
    else FirstAfter(rs[..|rs| - 1], first)
  }

  function Repaired(rs: seq<Repair>, s: seq<Link>): (r: seq<Link>)
    ensures |r| == |s| && forall i :: 0 <= i < |s| ==> r[i] == ApplyAll(rs, s[i])
  {
    seq(|s|, i requires 0 <= i < |s| => ApplyAll(rs, s[i]))
  }

  /** What CheckHardLinkList has recorded of the sorted list before looking at its
      `k`-th link. */
  function RepairsUpto(s: seq<Link>, first: uint32, k: nat): seq<Repair>
    requires 1 <= k <= |s|
  {
    if k == 1 then
      If(s[0].prev != 0, BadPrev(s[0].fileID, s[0].prev, 0)) + If(s[0].fileID != first, BadFirst(first, s[0].fileID))
    else
      RepairsUpto(s, first, k - 1)
      + If(s[k - 2].next != s[k - 1].fileID, BadNext(s[k - 2].fileID, s[k - 2].next, s[k - 1].fileID))
      + If(s[k - 1].prev != s[k - 2].fileID, BadPrev(s[k - 1].fileID, s[k - 1].prev, s[k - 2].fileID))
  }

  function RepairsOf(s: seq<Link>, first: uint32): seq<Repair>
    requires s != []
  {
    var last := s[|s| - 1];
    RepairsUpto(s, first, |s|) + If(last.next != 0, BadNext(last.fileID, last.next, 0))
  }

  method CheckHardLinkList(list: array<Link>, order: seq<Link>, firstID: uint32, ghost ch: seq<Link>) returns (orders: seq<Repair>)
    requires list.Length > 0 && DistinctIDs(list[..]) && QSorted(list[..], order)
    modifies list
    ensures IsPermutation(old(list[..]), list[..]) && Topological(order, list[..])
    ensures orders == RepairsOf(list[..], firstID)
    ensures order != []
    ensures IsChainFor(ch, old(list[..])) ==> ch != [] && (firstID == ch[0].fileID ==> (orders == [] <==> order[0] == ch[0]))
  {
    hide IsPermutation, IsChainFor, QSorted, IsChain, Topological;
    ghost var s := list[..];
    if list.Length > 1 {
      TSort(list, order, ch);
    } else {
      OneLink(s, ch, order);
    }
    var n := list.Length;
    ghost var l := list[..];
    orders := [];
    // nothing precedes the first link
    if list[0].prev != 0 {
      orders := orders + [BadPrev(list[0].fileID, list[0].prev, 0)];
    }
    // the inode names the first link
    if list[0].fileID != firstID {
      orders := orders + [BadFirst(firstID, list[0].fileID)];
    }
    var i := 1;
    while i < n
      invariant 1 <= i <= n && list[..] == l && orders == RepairsUpto(l, firstID, i)
    {
      if list[i - 1].next != list[i].fileID {
        orders := orders + [BadNext(list[i - 1].fileID, list[i - 1].next, list[i].fileID)];
      }
      if list[i].prev != list[i - 1].fileID {
        orders := orders + [BadPrev(list[i].fileID, list[i].prev, list[i - 1].fileID)];
      }
      i := i + 1;
    }
    // nothing follows the last link
    if list[n - 1].next != 0 {
      orders := orders + [BadNext(list[n - 1].fileID, list[n - 1].next, 0)];
    }
    if IsChainFor(ch, s) && firstID == ch[0].fileID {
      ChainNeedsNothing(ch, s, firstID);
      HeadNeedsRepair(ch, s, l, firstID);
    }
  }

  lemma OneLink(s: seq<Link>, ch: seq<Link>, order: seq<Link>)
    requires |s| == 1 && QSorted(s, order)
    ensures IsPermutation(s, s) && order == s && (IsChainFor(ch, s) ==> s == ch) && Topological(order, s)
  {
    assert Picks(s, s, [0]);
    var p :| Picks(s, order, p);
    assert order[0] == s[p[0]];
    if IsChainFor(ch, s) {
      var idx :| Picks(ch, s, idx);
      assert s[0] == ch[idx[0]];
    }
  }

  /** The head of a chain is its only link without a predecessor; a list that starts with
      another one draws an order. */
  lemma HeadNeedsRepair(ch: seq<Link>, s: seq<Link>, l: seq<Link>, first: uint32)
    requires IsChainFor(ch, s) && IsPermutation(s, l) && l != []
    ensures l[0] != ch[0] ==> RepairsOf(l, first) != []
  {
    PermutationTrans(ch, s, l);
    var idx :| Picks(ch, l, idx);
    assert l[0] == ch[idx[0]];
    if idx[0] > 0 {
      assert ch[idx[0]].prev == ch[idx[0] - 1].fileID != 0;
      FirstOrderStays(l, first, |l|);
    }
  }

  lemma {:induction false} FirstOrderStays(s: seq<Link>, first: uint32, k: nat)
    requires 1 <= k <= |s| && s[0].prev != 0
    ensures RepairsUpto(s, first, k) != []
  {
    if k > 1 { FirstOrderStays(s, first, k - 1); }
  }

  /** A well-formed chain draws no orders. */
  lemma {:induction false} NoRepairsUpto(s: seq<Link>, first: uint32, k: nat)
    requires IsChain(s, first) && 1 <= k <= |s|
    ensures RepairsUpto(s, first, k) == []
  {
    if k > 1 {
      NoRepairsUpto(s, first, k - 1);
      assert s[k - 2].next == s[k - 1].fileID && s[k - 1].prev == s[k - 2].fileID;
    }
  }

  lemma ChainNeedsNothing(ch: seq<Link>, s: seq<Link>, firstID: uint32)
    requires IsChainFor(ch, s) && firstID == ch[0].fileID
    ensures RepairsOf(ch, firstID) == []
  {
    var first :| IsChain(ch, first);
    NoRepairsUpto(ch, first, |ch|);
  }

  /** Two links that name each other are not torn apart unless the second was copied before
      the first: they end up as neighbours, and no order changes what they say. */
  lemma FragmentKept(order: seq<Link>, l: seq<Link>, first: uint32, i: nat, y: Link)
    requires DistinctIDs(order) && DistinctIDs(l) && Topological(order, l) && i + 1 < |l|
    requires y in order && y !in l[..i + 1] && l[i].next == y.fileID && y.prev == l[i].fileID
    ensures l[i + 1] == y
    ensures forall o :: o in RepairsOf(l, first) ==> !(o.BadNext? && o.id == l[i].fileID) && !(o.BadPrev? && o.id == y.fileID)
  {
    assert Succeeds(order, l[..i + 1], l[i], l[i + 1]) && NamesOne(order, l[..i + 1], l[i]);
    var p :| 0 <= p < |order| && order[p] == y;
    var q :| 0 <= q < |order| && order[q] == l[i + 1];
    assert p == q;
    NoOrderBetween(l, first, i, |l|);
  }

  lemma {:induction false} NoOrderBetween(s: seq<Link>, first: uint32, i: nat, k: nat)
    requires DistinctIDs(s) && i + 1 < |s| && 1 <= k <= |s| && s[i].next == s[i + 1].fileID && s[i + 1].prev == s[i].fileID
    ensures forall o :: o in RepairsUpto(s, first, k) ==> !(o.BadNext? && o.id == s[i].fileID) && !(o.BadPrev? && o.id == s[i + 1].fileID)
  {
    if k > 1 {
      NoOrderBetween(s, first, i, k - 1);
    }
  }

  // ---- Carrying out the orders makes a chain ----

  lemma {:induction false} ApplySplit(a: seq<Repair>, b: seq<Repair>, x: Link)
    ensures ApplyAll(a + b, x) == ApplyAll(b, ApplyAll(a, x))
  {
    if b == [] {
      assert a + b == a;
    } else {
      assert (a + b)[..|a + b| - 1] == a + b[..|b| - 1];
      ApplySplit(a, b[..|b| - 1], x);
    }
  }

  lemma {:induction false} FirstSplit(a: seq<Repair>, b: seq<Repair>, first: uint32)
    ensures FirstAfter(a + b, first) == FirstAfter(b, FirstAfter(a, first))
  {
    if b == [] {
      assert a + b == a;
    } else {
      assert (a + b)[..|a + b| - 1] == a + b[..|b| - 1];
      FirstSplit(a, b[..|b| - 1], first);
    }
  }

  lemma ApplyIf(b: bool, r: Repair, x: Link)
    ensures ApplyAll(If(b, r), x) == if b then ApplyOne(r, x) else x
  {
    if b {
      assert [r][..0] == [];
      assert ApplyAll([r], x) == ApplyOne(r, ApplyAll([], x));
    }
  }

  /** What link `i` looks like when the links before the `k`-th have been looked at. */
  ghost function PartlyRight(s: seq<Link>, i: nat, k: nat): Link
    requires i < |s| && 1 <= k <= |s|
  {
    Link(if i >= k then s[i].prev else if i == 0 then 0 else s[i - 1].fileID,
         s[i].fileID,
         if i + 1 < k then s[i + 1].fileID else s[i].next)
  }

  lemma {:induction false} ApplyUpto(s: seq<Link>, first: uint32, k: nat, i: nat)
    requires DistinctIDs(s) && 1 <= k <= |s| && i < |s|
    ensures ApplyAll(RepairsUpto(s, first, k), s[i]) == PartlyRight(s, i, k)
    decreases k
  {
    if k == 1 {
      var a := If(s[0].prev != 0, BadPrev(s[0].fileID, s[0].prev, 0));
      var b := If(s[0].fileID != first, BadFirst(first, s[0].fileID));
      ApplySplit(a, b, s[i]);
      ApplyIf(s[0].prev != 0, BadPrev(s[0].fileID, s[0].prev, 0), s[i]);
      ApplyIf(s[0].fileID != first, BadFirst(first, s[0].fileID), ApplyAll(a, s[i]));
      assert i > 0 ==> s[i].fileID != s[0].fileID;
    } else {
      ApplyUpto(s, first, k - 1, i);
      ApplyStep(s, first, k, i);
    }
  }

  lemma ApplyStep(s: seq<Link>, first: uint32, k: nat, i: nat)
    requires DistinctIDs(s) && 2 <= k <= |s| && i < |s|
    requires ApplyAll(RepairsUpto(s, first, k - 1), s[i]) == PartlyRight(s, i, k - 1)
    ensures ApplyAll(RepairsUpto(s, first, k), s[i]) == PartlyRight(s, i, k)
  {
    hide ApplyAll, If, PartlyRight, ApplyOne, DistinctIDs;
    var u, v := s[k - 2], s[k - 1];
    var rs := RepairsUpto(s, first, k - 1);
    var n, p := BadNext(u.fileID, u.next, v.fileID), BadPrev(v.fileID, v.prev, u.fileID);
    var a, b := If(u.next != v.fileID, n), If(v.prev != u.fileID, p);
    assert RepairsUpto(s, first, k) == rs + a + b;
    var x := PartlyRight(s, i, k - 1);
    ApplySplit(rs + a, b, s[i]);
    ApplySplit(rs, a, s[i]);
    ApplyIf(u.next != v.fileID, n, x);
    ApplyIf(v.prev != u.fileID, p, ApplyAll(a, x));
    StepLink(s, k, i);
  }

  /** The two orders about the links at `k - 2` and `k - 1`. */
  lemma StepLink(s: seq<Link>, k: nat, i: nat)
    requires DistinctIDs(s) && 2 <= k <= |s| && i < |s|
    ensures var u, v, x := s[k - 2], s[k - 1], PartlyRight(s, i, k - 1);
            var y := if u.next != v.fileID then ApplyOne(BadNext(u.fileID, u.next, v.fileID), x) else x;
            PartlyRight(s, i, k) == if v.prev != u.fileID then ApplyOne(BadPrev(v.fileID, v.prev, u.fileID), y) else y
  {
    assert s[i].fileID == s[k - 2].fileID <==> i == k - 2;
    assert s[i].fileID == s[k - 1].fileID <==> i == k - 1;
  }

  lemma {:induction false} FirstUpto(s: seq<Link>, first: uint32, k: nat)
    requires 1 <= k <= |s|
    ensures FirstAfter(RepairsUpto(s, first, k), first) == s[0].fileID
  {
    if k == 1 {
      var a := If(s[0].prev != 0, BadPrev(s[0].fileID, s[0].prev, 0));
      FirstSplit(a, If(s[0].fileID != first, BadFirst(first, s[0].fileID)), first);
    } else {
      FirstUpto(s, first, k - 1);
      var rs := RepairsUpto(s, first, k - 1);
      var a := If(s[k - 2].next != s[k - 1].fileID, BadNext(s[k - 2].fileID, s[k - 2].next, s[k - 1].fileID));
      var b := If(s[k - 1].prev != s[k - 2].fileID, BadPrev(s[k - 1].fileID, s[k - 1].prev, s[k - 2].fileID));
      FirstSplit(rs + a, b, first);
      FirstSplit(rs, a, first);
    }
  }

  lemma ApplyWhole(s: seq<Link>, first: uint32, i: nat)
    requires s != [] && DistinctIDs(s) && i < |s|
    ensures ApplyAll(RepairsOf(s, first), s[i]) == RightLink(s, i)
  {
    ApplyUpto(s, first, |s|, i);
    var last := s[|s| - 1];
    ApplySplit(RepairsUpto(s, first, |s|), If(last.next != 0, BadNext(last.fileID, last.next, 0)), s[i]);
    ApplyIf(last.next != 0, BadNext(last.fileID, last.next, 0), PartlyRight(s, i, |s|));
    assert s[i].fileID == last.fileID <==> i == |s| - 1;
  }

  /** What link `i` of the repaired chain must be. */
  ghost function RightLink(s: seq<Link>, i: nat): Link
    requires i < |s|
  {
    Link(if i == 0 then 0 else s[i - 1].fileID, s[i].fileID, if i + 1 < |s| then s[i + 1].fileID else 0)
  }

  lemma RightIsChain(s: seq<Link>, r: seq<Link>)
    requires s != [] && DistinctIDs(s) && |r| == |s| && forall i :: 0 <= i < |s| ==> r[i] == RightLink(s, i)
    ensures IsChain(r, s[0].fileID)
  {
    forall i | 0 <= i < |r| - 1 ensures r[i].next == r[i + 1].fileID {
      assert r[i + 1] == RightLink(s, i + 1);
    }
    forall i | 0 < i < |r| ensures r[i].prev == r[i - 1].fileID {
      assert r[i - 1] == RightLink(s, i - 1);
    }
  }

  /** Carrying out the orders recorded for the sorted list makes it a well-formed chain. */
  lemma RepairMakesChain(s: seq<Link>, first: uint32)
    requires s != [] && DistinctIDs(s)
    ensures var rs := RepairsOf(s, first); IsChain(Repaired(rs, s), FirstAfter(rs, first))
  {
    hide DistinctIDs, IsChain, ApplyAll, RepairsUpto;
    var rs := RepairsOf(s, first);
    var r := Repaired(rs, s);
    forall i | 0 <= i < |s| ensures r[i] == RightLink(s, i) {
      ApplyWhole(s, first, i);
    }
    RightIsChain(s, r);
    FirstUpto(s, first, |s|);
    var last := s[|s| - 1];
    FirstSplit(RepairsUpto(s, first, |s|), If(last.next != 0, BadNext(last.fileID, last.next, 0)), first);
  }

  /** The same orders, carried out on the links wherever they are recorded, give that
      very chain, in some order. */
  lemma RepairIsFinal(catalog: seq<Link>, sorted: seq<Link>, first: uint32, again: seq<Link>)
    requires catalog != [] && DistinctIDs(catalog) && IsPermutation(catalog, sorted)
    requires IsPermutation(Repaired(RepairsOf(sorted, first), catalog), again)
    ensures var rs := RepairsOf(sorted, first);
            var ch := Repaired(rs, sorted);
            && IsChain(ch, FirstAfter(rs, first)) && IsPermutation(ch, again)
            && (forall i :: 0 <= i < |sorted| ==> ch[i].fileID == sorted[i].fileID)
            && IsChainFor(ch, again)
  {
    hide DistinctIDs, IsChain, IsPermutation, ApplyAll, RepairsOf, FirstAfter;
    PermutationDistinct(catalog, sorted);
    PermutationLength(catalog, sorted);
    RepairMakesChain(sorted, first);
    var rs := RepairsOf(sorted, first);
    var ch := Repaired(rs, sorted);
    PermutationSym(catalog, sorted);
    PermutationMap(rs, sorted, catalog);
    PermutationTrans(ch, Repaired(rs, catalog), again);
  }

  lemma PermutationLength(s: seq<Link>, r: seq<Link>)
    requires IsPermutation(s, r)
    ensures |r| == |s|
  {
  }

  lemma PermutationMap(rs: seq<Repair>, s: seq<Link>, r: seq<Link>)
    requires IsPermutation(s, r)
    ensures IsPermutation(Repaired(rs, s), Repaired(rs, r))
  {
    var idx :| Picks(s, r, idx);
    assert Picks(Repaired(rs, s), Repaired(rs, r), idx);
  }

  lemma PermutationSym(s: seq<Link>, r: seq<Link>)
    requires IsPermutation(s, r)
    ensures IsPermutation(r, s)
  {
    var idx :| Picks(s, r, idx);
    var inv := Inverse(idx, |s|);
    assert Picks(r, s, inv);
  }

  /** The inverse of a permutation of the numbers below `n`. */
  lemma {:induction false} Inverse(idx: seq<nat>, n: nat) returns (inv: seq<nat>)
    requires NoDup(idx) && |idx| == n && forall k :: 0 <= k < n ==> idx[k] < n
    ensures |inv| == n && NoDup(inv) && forall k :: 0 <= k < n ==> inv[k] < n && idx[inv[k]] == k
  {
    Pigeonhole(idx, n);
    inv := [];
    while |inv| < n
      invariant |inv| <= n && forall k :: 0 <= k < |inv| ==> inv[k] < n && idx[inv[k]] == k
    {
      assert |inv| in idx;
      var j :| 0 <= j < n && idx[j] == |inv|;
      inv := inv + [j];
    }
  }

  /** Check, repair, check again: whatever the damage, once the orders of the first check
      have been carried out on the catalog, a second check finds nothing, in whatever
      order the links are then collected (`shuffled`), if and only if qsort puts the link
      without a predecessor first; and it does when no link but the last of the chain has
      an id of 2^31 or more. */
  method CheckRepairCheck(catalog: seq<Link>, firstID: uint32, qsort: seq<Link> -> seq<Link>, shuffled: seq<Link> -> seq<Link>)
    returns (orders: seq<Repair>, again: seq<Repair>, sorted: seq<Link>, repaired: seq<Link>)
    requires catalog != [] && DistinctIDs(catalog)
    requires forall s :: QSorted(s, qsort(s)) && IsPermutation(s, shuffled(s))
    ensures IsPermutation(catalog, sorted) && sorted != [] && orders == RepairsOf(sorted, firstID)
    ensures repaired == shuffled(Repaired(orders, catalog)) && qsort(repaired) != []
    ensures again == [] <==> qsort(repaired)[0].prev == 0
    ensures LowIDs(sorted) ==> again == []
  {
    hide QSorted, IsPermutation, IsChain, IsChainFor, ApplyAll, RepairsOf, LowIDs;
    var n := |catalog|;
    var list := new Link[n](i requires 0 <= i < n => catalog[i]);
    assert list[..] == catalog;
    orders := CheckHardLinkList(list, qsort(catalog), firstID, []);
    sorted := list[..];
    var links := shuffled(Repaired(orders, catalog));
    repaired := links;
    PermutationLength(Repaired(orders, catalog), repaired);
    var list2 := new Link[n](i requires 0 <= i < n => links[i]);
    assert list2[..] == repaired;
    RepairIsFinal(catalog, sorted, firstID, repaired);
    ghost var ch := Repaired(orders, sorted);
    RepairedDistinct(orders, catalog, repaired);
    FirstOfChain(ch, FirstAfter(orders, firstID));
    var order := qsort(links);
    again := CheckHardLinkList(list2, order, FirstAfter(orders, firstID), ch);
    OnlyHead(ch, repaired, order);
    if LowIDs(sorted) {
      LowRepaired(orders, sorted);
      HeadFirst(ch, repaired, order);
    }
  }

  lemma LowRepaired(rs: seq<Repair>, s: seq<Link>)
    requires LowIDs(s)
    ensures LowIDs(Repaired(rs, s))
  {
    var r := Repaired(rs, s);
    forall i | 0 <= i < |r| - 1 ensures r[i].fileID < 0x8000_0000 {
      assert r[i].fileID == s[i].fileID;
    }
  }

  lemma FirstOfChain(ch: seq<Link>, first: uint32)
    requires IsChain(ch, first)
    ensures ch != [] && first == ch[0].fileID
  {
  }

  lemma RepairedDistinct(rs: seq<Repair>, catalog: seq<Link>, again: seq<Link>)
    requires DistinctIDs(catalog) && IsPermutation(Repaired(rs, catalog), again)
    ensures DistinctIDs(again)
  {
    var r := Repaired(rs, catalog);
    assert forall i :: 0 <= i < |r| ==> r[i].fileID == catalog[i].fileID;
    PermutationDistinct(r, again);
  }

  // ---- When qsort finds the head ----

  lemma OnlyHead(ch: seq<Link>, s: seq<Link>, order: seq<Link>)
    requires IsChainFor(ch, s) && QSorted(s, order)
    ensures ch != [] && order != [] && IsPermutation(ch, order) && (order[0] == ch[0] <==> order[0].prev == 0)
  {
    PermutationTrans(ch, s, order);
    var idx :| Picks(ch, order, idx);
    assert order[0] == ch[idx[0]];
    if idx[0] > 0 { assert ch[idx[0]].prev == ch[idx[0] - 1].fileID != 0; }
  }

  /** With low predecessors the comparison is the plain difference. */
  lemma LowConsistent(s: seq<Link>)
    requires forall i :: 0 <= i < |s| ==> s[i].prev < 0x8000_0000
    ensures Consistent(s) && forall x, y :: x in s && y in s ==> Compare(x, y) == x.prev - y.prev
  {
    forall x, y | x in s && y in s ensures Compare(x, y) == x.prev - y.prev {}
  }

  lemma LowPrevs(ch: seq<Link>, s: seq<Link>)
    requires IsChainFor(ch, s) && LowIDs(ch)
    ensures forall i :: 0 <= i < |s| ==> s[i].prev < 0x8000_0000
  {
    var idx :| Picks(ch, s, idx);
    forall i | 0 <= i < |s| ensures s[i].prev < 0x8000_0000 {
      var k := idx[i];
      assert s[i] == ch[k];
      if k > 0 { assert ch[k].prev == ch[k - 1].fileID; }
    }
  }

  lemma HeadFirst(ch: seq<Link>, s: seq<Link>, order: seq<Link>)
    requires IsChainFor(ch, s) && QSorted(s, order) && LowIDs(ch)
    ensures order != [] && ch != [] && order[0] == ch[0]
  {
    LowPrevs(ch, s);
    LowConsistent(s);
    OnlyHead(ch, s, order);
    var p := PermutationHas(ch, order, 0);
    PermutationIn(s, order, 0);
    PermutationIn(s, order, p);
    assert Compare(order[0], order[p]) <= 0;
  }

  lemma PermutationIn(s: seq<Link>, r: seq<Link>, k: nat)
    requires IsPermutation(s, r) && k < |r|
    ensures r[k] in s
  {
    var idx :| Picks(s, r, idx);
    assert r[k] == s[idx[k]];
  }

  /** A list with one of its elements moved to the front. */
  lemma Fronted(s: seq<Link>, j: nat) returns (r: seq<Link>)
    requires j < |s|
    ensures IsPermutation(s, r) && r != [] && r[0] == s[j]
  {
    r := [s[j]] + s[..j] + s[j + 1..];
    var idx: seq<nat> := seq(|s|, k requires 0 <= k < |s| => if k == 0 then j else if k <= j then k - 1 else k);
    assert Picks(s, r, idx);
  }

  /** The elements of `s` in order, if the comparison orders them. */
  lemma {:induction false} CanBeSorted(s: seq<Link>) returns (r: seq<Link>)
    requires Consistent(s)
    ensures IsPermutation(s, r) && InOrder(r)
  {
    if s == [] {
      r := [];
      assert Picks(s, r, []);
    } else {
      var init, u := s[..|s| - 1], s[|s| - 1];
      assert Consistent(init) by {
        assert forall x :: x in init ==> x in s;
      }
      var r0 := CanBeSorted(init);
      r := InsertInOrder(s, r0, u);
    }
  }

  lemma InsertInOrder(s: seq<Link>, r0: seq<Link>, u: Link) returns (r: seq<Link>)
    requires s != [] && u == s[|s| - 1] && Consistent(s) && IsPermutation(s[..|s| - 1], r0) && InOrder(r0)
    ensures IsPermutation(s, r) && InOrder(r)
  {
    var q := 0;
    while q < |r0| && Compare(u, r0[q]) > 0
      invariant 0 <= q <= |r0| && forall i :: 0 <= i < q ==> Compare(u, r0[i]) > 0
    {
      q := q + 1;
    }
    r := r0[..q] + [u] + r0[q..];
    hide Consistent, InOrder, IsPermutation, Compare;
    forall i | 0 <= i < |r0| ensures r0[i] in s {
      PermutationIn(s[..|s| - 1], r0, i);
    }
    InsertedInOrder(s, r0, u, q);
    InsertedPermutes(s, r0, q);
  }

  lemma InsertedPermutes(s: seq<Link>, r0: seq<Link>, q: nat)
    requires s != [] && IsPermutation(s[..|s| - 1], r0) && q <= |r0|
    ensures IsPermutation(s, r0[..q] + [s[|s| - 1]] + r0[q..])
  {
    var n, r := |s| - 1, r0[..q] + [s[|s| - 1]] + r0[q..];
    var idx0 :| Picks(s[..n], r0, idx0);
    var idx: seq<nat> := idx0[..q] + [n] + idx0[q..];
    assert Picks(s, r, idx) by {
      forall k | 0 <= k < |idx| ensures idx[k] < |s| && r[k] == s[idx[k]] {
        var j := if k < q then k else k - 1;
        assert k != q ==> idx[k] == idx0[j] && r[k] == r0[j] && r0[j] == s[..n][idx0[j]];
      }
      forall i, j | 0 <= i < j < |idx| ensures idx[i] != idx[j] {
        var i', j' := if i < q then i else i - 1, if j < q then j else j - 1;
        assert i != q ==> idx[i] == idx0[i'] < n;
        assert j != q ==> idx[j] == idx0[j'] < n;
      }
    }
  }

  lemma InsertedInOrder(s: seq<Link>, r0: seq<Link>, u: Link, q: nat)
    requires Consistent(s) && InOrder(r0) && u in s && q <= |r0| && forall i :: 0 <= i < |r0| ==> r0[i] in s
    requires (forall i :: 0 <= i < q ==> Compare(u, r0[i]) > 0) && (q < |r0| ==> Compare(u, r0[q]) <= 0)
    ensures InOrder(r0[..q] + [u] + r0[q..])
  {
    var r := r0[..q] + [u] + r0[q..];
    forall i, j | 0 <= i < j < |r| ensures Compare(r[i], r[j]) <= 0 {
      if j < q {
        assert Compare(r0[i], r0[j]) <= 0;
      } else if j == q {
        assert Compare(r0[i], u) < 0;
      } else if i == q {
        assert j - 1 > q ==> Compare(r0[q], r0[j - 1]) <= 0;
        assert Compare(u, r0[q]) <= 0;
      } else {
        var i' := if i < q then i else i - 1;
        assert Compare(r0[i'], r0[j - 1]) <= 0;
      }
    }
  }

  /** The exact bound: qsort is certain to put the head of a chain first if and only if no
      link but the last has an id of 2^31 or more.  So it is for those chains, and no
      others, that the check is certain to record nothing. */
  lemma QSortFindsHead(ch: seq<Link>, s: seq<Link>)
    requires IsChainFor(ch, s)
    ensures (forall order :: QSorted(s, order) ==> order != [] && ch != [] && order[0] == ch[0]) <==> LowIDs(ch)
  {
    hide IsChainFor, QSorted, LowIDs;
    if LowIDs(ch) {
      forall order | QSorted(s, order) ensures order != [] && ch != [] && order[0] == ch[0] { HeadFirst(ch, s, order); }
    } else {
      var order := HeadMissed(ch, s);
    }
  }

  /** A qsort that misses the head of a chain with a high id. */
  lemma HeadMissed(ch: seq<Link>, s: seq<Link>) returns (order: seq<Link>)
    requires IsChainFor(ch, s) && !LowIDs(ch)
    ensures QSorted(s, order) && order != [] && ch != [] && order[0] != ch[0]
  {
    hide IsChain, LowIDs, Compare, Consistent;
    var k := HighLink(ch);
    hide IsPermutation;
    if Consistent(s) {
      HeadAbove(ch, s, k);
      order := CanBeSorted(s);
      PermutationTrans(ch, s, order);
      NotFirst(ch, order, k);
    } else {
      var p := PermutationHas(ch, s, k);
      order := Fronted(s, p);
    }
  }

  /** A link of the chain whose predecessor has a high id. */
  lemma HighLink(ch: seq<Link>) returns (k: nat)
    requires (exists first :: IsChain(ch, first)) && !LowIDs(ch)
    ensures 0 < k < |ch| && ch[0].prev == 0 && ch[k].prev >= 0x8000_0000 && ch[0] != ch[k]
  {
    var first :| IsChain(ch, first);
    var j :| 0 <= j < |ch| - 1 && ch[j].fileID >= 0x8000_0000;
    k := j + 1;
    assert ch[k].prev == ch[j].fileID;
  }

  lemma HeadAbove(ch: seq<Link>, s: seq<Link>, k: nat)
    requires IsPermutation(ch, s) && Consistent(s) && 0 < k < |ch| && ch[0].prev == 0 && ch[k].prev >= 0x8000_0000
    ensures Compare(ch[0], ch[k]) > 0
  {
    HighCompares(ch[0], ch[k]);
    var p := PermutationHas(ch, s, k);
    var h := PermutationHas(ch, s, 0);
    assert ch[0] in s && ch[k] in s;
  }

  /** In order, the head does not precede a link that compares below it. */
  lemma NotFirst(ch: seq<Link>, order: seq<Link>, k: nat)
    requires IsPermutation(ch, order) && k < |ch| && InOrder(order) && ch[0] != ch[k] && Compare(ch[0], ch[k]) > 0
    ensures order != [] && order[0] != ch[0]
  {
    var m := PermutationHas(ch, order, k);
    assert m == 0 || Compare(order[0], order[m]) <= 0;
  }

  lemma HighCompares(head: Link, x: Link)
    requires head.prev == 0 && x.prev >= 0x8000_0000
    ensures Compare(head, x) > 0 || (Compare(head, x) < 0 && Compare(x, head) < 0)
  {
  }

  /** Two links of a well-formed chain, with a head of a high id: qsort has to put the head
      second, and correct links draw repair orders. */
  lemma HighHeadDrawsOrders(a: uint32, b: uint32)
    requires a > 0x8000_0000 && b != 0 && a != b
    ensures var ch := [Link(0, a, b), Link(a, b, 0)];
            var order := [ch[1], ch[0]];
            && IsChain(ch, a) && (forall r :: QSorted(ch, r) ==> r == order) && RepairsOf(order, a) != []
  {
    var ch := [Link(0, a, b), Link(a, b, 0)];
    var order := [ch[1], ch[0]];
    forall r | QSorted(ch, r) ensures r == order {
      var idx :| Picks(ch, r, idx);
      assert Compare(ch[0], ch[1]) > 0 && Compare(ch[1], ch[0]) < 0;
      assert Compare(ch[0], ch[0]) == 0 && Compare(ch[1], ch[1]) == 0;
      assert forall x :: x in ch ==> x == ch[0] || x == ch[1];
      assert Consistent(ch);
      assert r[0] == ch[idx[0]] && r[1] == ch[idx[1]] && idx[0] != idx[1];
      assert Compare(r[0], r[1]) <= 0;
    }
    FirstOrderStays(order, a, 2);
  }
}
