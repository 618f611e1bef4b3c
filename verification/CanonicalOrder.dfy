/** Canonical ordering, section 3.11 of the Unicode Standard, over arbitrary
    combining classes: each maximal run of units of nonzero class is sorted by
    class, and units of equal class keep their order. */
module CanonicalOrder {
  type Unit = u: int | 0 <= u < 65536 witness 0
  type Classes = Unit -> nat

  // ---- Stable sorting of one run ----

  ghost predicate SortedBy(cls: Classes, s: seq<Unit>) {
    forall i, j :: 0 <= i < j < |s| ==> cls(s[i]) <= cls(s[j])
  }

  /** The units of class `k`, in order. */
  ghost function Only(cls: Classes, k: nat, s: seq<Unit>): seq<Unit> {
    if s == [] then []
    else Only(cls, k, s[..|s| - 1]) + if cls(s[|s| - 1]) == k then [s[|s| - 1]] else []
  }

  /** `r` is `s` sorted by class, equal classes in their old order. */
  ghost predicate StablySorted(cls: Classes, s: seq<Unit>, r: seq<Unit>) {
    && |r| == |s| && SortedBy(cls, r)
    && forall k: nat :: Only(cls, k, r) == Only(cls, k, s)
  }

  /** `u` goes after the last unit of `s` whose class is not above its own. */
  function Insert(cls: Classes, s: seq<Unit>, u: Unit): (r: seq<Unit>)
    ensures |r| == |s| + 1
  {
    if s == [] || cls(s[|s| - 1]) <= cls(u) then s + [u]
    else Insert(cls, s[..|s| - 1], u) + [s[|s| - 1]]
  }

  function StableSort(cls: Classes, s: seq<Unit>): (r: seq<Unit>)
    ensures |r| == |s|
  {
    if s == [] then [] else Insert(cls, StableSort(cls, s[..|s| - 1]), s[|s| - 1])
  }

  lemma {:induction false} OnlyAppend(cls: Classes, k: nat, s: seq<Unit>, t: seq<Unit>)
    ensures Only(cls, k, s + t) == Only(cls, k, s) + Only(cls, k, t)
  {
    if t == [] {
      assert s + t == s;
    } else {
      assert (s + t)[..|s + t| - 1] == s + t[..|t| - 1];
      OnlyAppend(cls, k, s, t[..|t| - 1]);
    }
  }

  lemma {:induction false} InsertKeeps(cls: Classes, s: seq<Unit>, u: Unit, x: Unit)
    ensures x in Insert(cls, s, u) <==> x in s || x == u
  {
    if s != [] && cls(s[|s| - 1]) > cls(u) {
      InsertKeeps(cls, s[..|s| - 1], u, x);
      assert s == s[..|s| - 1] + [s[|s| - 1]];
    }
  }

  lemma {:induction false} InsertStable(cls: Classes, s: seq<Unit>, u: Unit, k: nat)
    ensures Only(cls, k, Insert(cls, s, u)) == Only(cls, k, s + [u])
    decreases |s|
  {
    hide Only;
    if s != [] && cls(s[|s| - 1]) > cls(u) {
      var p, last := s[..|s| - 1], s[|s| - 1];
      assert s == p + [last];
      InsertStable(cls, p, u, k);
      OnlyAppend(cls, k, Insert(cls, p, u), [last]);
      OnlySwap(cls, k, p, u, last);
    }
  }

  /** Units of different classes may change places. */
  lemma OnlySwap(cls: Classes, k: nat, p: seq<Unit>, u: Unit, v: Unit)
    requires cls(u) != cls(v)
    ensures Only(cls, k, p + [u]) + Only(cls, k, [v]) == Only(cls, k, p + [v] + [u])
  {
    hide Only;
    OnlyAppend(cls, k, p, [u]);
    OnlyAppend(cls, k, p, [v]);
    OnlyAppend(cls, k, p + [v], [u]);
    OnlyOne(cls, k, u);
    OnlyOne(cls, k, v);
  }

  lemma OnlyOne(cls: Classes, k: nat, u: Unit)
    ensures Only(cls, k, [u]) == if cls(u) == k then [u] else []
  {
    assert [u][..0] == [];
  }

  lemma {:induction false} InsertSorts(cls: Classes, s: seq<Unit>, u: Unit)
    requires SortedBy(cls, s)
    ensures SortedBy(cls, Insert(cls, s, u))
  {
    if s != [] && cls(s[|s| - 1]) > cls(u) {
      var p, last := s[..|s| - 1], s[|s| - 1];
      InsertSorts(cls, p, u);
      var r := Insert(cls, p, u);
      forall i | 0 <= i < |r| ensures cls(r[i]) <= cls(last) {
        InsertKeeps(cls, p, u, r[i]);
        assert r[i] in r;
        if r[i] in p {
          var j :| 0 <= j < |p| && p[j] == r[i];
          assert s[j] == p[j];
        }
      }
    }
  }

  lemma {:induction false} SortOk(cls: Classes, s: seq<Unit>)
    ensures StablySorted(cls, s, StableSort(cls, s))
  {
    if s != [] {
      var p, u := s[..|s| - 1], s[|s| - 1];
      SortOk(cls, p);
      InsertSorts(cls, StableSort(cls, p), u);
      forall k: nat ensures Only(cls, k, StableSort(cls, s)) == Only(cls, k, s) {
        InsertStable(cls, StableSort(cls, p), u, k);
        OnlyAppend(cls, k, StableSort(cls, p), [u]);
        OnlyAppend(cls, k, p, [u]);
        assert p + [u] == s;
      }
    }
  }

  /** The last unit of a sorted sequence is the last of the greatest class present. */
  lemma {:induction false} OnlyEmpty(cls: Classes, k: nat, s: seq<Unit>)
    ensures Only(cls, k, s) == [] <==> forall i :: 0 <= i < |s| ==> cls(s[i]) != k
  {
    if s != [] {
      OnlyEmpty(cls, k, s[..|s| - 1]);
      assert forall i :: 0 <= i < |s| - 1 ==> s[..|s| - 1][i] == s[i];
    }
  }

  lemma LastOnly(cls: Classes, s: seq<Unit>)
    requires s != []
    ensures var o := Only(cls, cls(s[|s| - 1]), s); o != [] && o[|o| - 1] == s[|s| - 1]
  {
  }

  /** No unit of `a` has a class above the last of `b`. */
  lemma LastBounds(cls: Classes, a: seq<Unit>, b: seq<Unit>)
    requires a != [] && b != [] && SortedBy(cls, b)
    requires forall k: nat :: Only(cls, k, a) == Only(cls, k, b)
    ensures cls(a[|a| - 1]) <= cls(b[|b| - 1])
  {
    LastOnly(cls, a);
    var k := cls(a[|a| - 1]);
    assert Only(cls, k, b) != [];
    OnlyEmpty(cls, k, b);
    var i :| 0 <= i < |b| && cls(b[i]) == k;
  }

  lemma LastAgrees(cls: Classes, a: seq<Unit>, b: seq<Unit>)
    requires |a| == |b| > 0 && SortedBy(cls, a) && SortedBy(cls, b)
    requires forall k: nat :: Only(cls, k, a) == Only(cls, k, b)
    ensures a[|a| - 1] == b[|b| - 1]
  {
    hide SortedBy;
    LastBounds(cls, a, b);
    LastBounds(cls, b, a);
    LastOnly(cls, a);
    LastOnly(cls, b);
    assert Only(cls, cls(a[|a| - 1]), a) == Only(cls, cls(a[|a| - 1]), b);
  }

  /** A stable sort is unique. */
  lemma {:induction false} SortUnique(cls: Classes, a: seq<Unit>, b: seq<Unit>)
    requires |a| == |b| && SortedBy(cls, a) && SortedBy(cls, b)
    requires forall k: nat :: Only(cls, k, a) == Only(cls, k, b)
    ensures a == b
  {
    if a != [] {
      LastAgrees(cls, a, b);
      var n := |a| - 1;
      forall k: nat ensures Only(cls, k, a[..n]) == Only(cls, k, b[..n]) {
        var tail := if cls(a[n]) == k then [a[n]] else [];
        assert Only(cls, k, a) == Only(cls, k, a[..n]) + tail;
        assert Only(cls, k, b) == Only(cls, k, b[..n]) + tail;
        SameFront(Only(cls, k, a[..n]), Only(cls, k, b[..n]), tail);
      }
      SortUnique(cls, a[..n], b[..n]);
      assert a == a[..n] + [a[n]] && b == b[..n] + [b[n]];
    }
  }

  lemma SameFront<T>(a: seq<T>, b: seq<T>, t: seq<T>)
    requires a + t == b + t
    ensures a == b
  {
    assert |a| == |b|;
    assert a == (a + t)[..|a|] && b == (b + t)[..|b|];
  }

  // ---- Ordering a whole name ----

  /** Where the run of nonzero classes at the end of `w` starts. */
  function TailRun(cls: Classes, w: seq<Unit>): (p: nat)
    ensures p <= |w| && (forall i :: p <= i < |w| ==> cls(w[i]) != 0) && (p > 0 ==> cls(w[p - 1]) == 0)
  {
    if w == [] || cls(w[|w| - 1]) == 0 then |w| else TailRun(cls, w[..|w| - 1])
  }

  function Canon(cls: Classes, w: seq<Unit>): (r: seq<Unit>)
    ensures |r| == |w|
    decreases |w|
  {
    if w == [] then []
    else
      var p := TailRun(cls, w);
      if p == |w| then Canon(cls, w[..|w| - 1]) + [w[|w| - 1]]
      else Canon(cls, w[..p]) + StableSort(cls, w[p..])
  }

  /** `[p, q)` is a maximal run of nonzero classes. */
  ghost predicate MaximalRun(cls: Classes, w: seq<Unit>, p: nat, q: nat) {
    && p < q <= |w|
    && (forall i :: p <= i < q ==> cls(w[i]) != 0)
    && (p == 0 || cls(w[p - 1]) == 0) && (q == |w| || cls(w[q]) == 0)
  }

  /** The canonical ordering of `w`, without an algorithm: units of class zero stay
      where they are, and every maximal run in between is stably sorted. */
  ghost predicate IsOrdering(cls: Classes, w: seq<Unit>, r: seq<Unit>) {
    && |r| == |w|
    && (forall i :: 0 <= i < |w| && cls(w[i]) == 0 ==> r[i] == w[i])
    && (forall p: nat, q: nat :: MaximalRun(cls, w, p, q) ==> StablySorted(cls, w[p..q], r[p..q]))
  }

  /** The runs of a prefix that ends before a unit of class zero are runs of the whole. */
  lemma OrderingPrefix(cls: Classes, w: seq<Unit>, r: seq<Unit>, n: nat)
    requires IsOrdering(cls, w, r) && n <= |w| && (n == 0 || n == |w| || cls(w[n - 1]) == 0 || cls(w[n]) == 0)
    ensures IsOrdering(cls, w[..n], r[..n])
  {
    var w', r' := w[..n], r[..n];
    forall p: nat, q: nat | MaximalRun(cls, w', p, q) ensures StablySorted(cls, w'[p..q], r'[p..q]) {
      assert forall i :: p <= i < q ==> w'[i] == w[i];
      assert p > 0 ==> w'[p - 1] == w[p - 1];
      assert q < n ==> w'[q] == w[q];
      assert MaximalRun(cls, w, p, q);
      assert w'[p..q] == w[p..q] && r'[p..q] == r[p..q];
    }
  }

  /** There is at most one canonical ordering, and Canon computes it. */
  lemma {:induction false} OrderingIsCanon(cls: Classes, w: seq<Unit>, r: seq<Unit>)
    requires IsOrdering(cls, w, r)
    ensures r == Canon(cls, w)
    decreases |w|
  {
    if w != [] {
      var p := TailRun(cls, w);
      if p == |w| {
        var n := |w| - 1;
        OrderingPrefix(cls, w, r, n);
        OrderingIsCanon(cls, w[..n], r[..n]);
        assert r == r[..n] + [r[n]];
      } else {
        OrderingPrefix(cls, w, r, p);
        OrderingIsCanon(cls, w[..p], r[..p]);
        assert MaximalRun(cls, w, p, |w|);
        assert w[p..|w|] == w[p..] && r[p..|w|] == r[p..];
        SortOk(cls, w[p..]);
        SortUnique(cls, r[p..], StableSort(cls, w[p..]));
        assert r == r[..p] + r[p..];
      }
    }
  }

  lemma {:induction false} CanonIsOrdering(cls: Classes, w: seq<Unit>)
    ensures IsOrdering(cls, w, Canon(cls, w))
    decreases |w|
  {
    if w != [] {
      var p := TailRun(cls, w);
      var n := if p == |w| then |w| - 1 else p;
      var r, r0 := Canon(cls, w), Canon(cls, w[..n]);
      CanonIsOrdering(cls, w[..n]);
      SortOk(cls, w[p..]);
      assert r[..n] == r0;
      forall i | 0 <= i < |w| && cls(w[i]) == 0 ensures r[i] == w[i] {
        if i < n { assert w[..n][i] == w[i]; }
      }
      forall a: nat, b: nat | MaximalRun(cls, w, a, b) ensures StablySorted(cls, w[a..b], r[a..b]) {
        CanonRun(cls, w, r, a, b, p, n);
      }
    }
  }

  lemma CanonRun(cls: Classes, w: seq<Unit>, r: seq<Unit>, a: nat, b: nat, p: nat, n: nat)
    requires w != [] && p == TailRun(cls, w) && n == (if p == |w| then |w| - 1 else p) && MaximalRun(cls, w, a, b)
    requires a < b <= |w| == |r| && IsOrdering(cls, w[..n], r[..n])
    requires p < |w| ==> StablySorted(cls, w[p..], r[p..])
    ensures StablySorted(cls, w[a..b], r[a..b])
  {
    hide StablySorted, IsOrdering, MaximalRun, TailRun;
    if b <= n {
      RunOfPrefix(cls, w, a, b, n);
      OrderingRun(cls, w[..n], r[..n], a, b);
      SliceOfPrefix(w, n, a, b);
      SliceOfPrefix(r, n, a, b);
    } else {
      RunAtEnd(cls, w, a, b, p, n);
      assert w[a..b] == w[p..] && r[a..b] == r[p..];
    }
  }

  lemma SliceOfPrefix<T>(s: seq<T>, n: nat, a: nat, b: nat)
    requires a <= b <= n <= |s|
    ensures s[..n][a..b] == s[a..b]
  {
  }

  lemma RunOfPrefix(cls: Classes, w: seq<Unit>, a: nat, b: nat, n: nat)
    requires MaximalRun(cls, w, a, b) && b <= n <= |w|
    ensures MaximalRun(cls, w[..n], a, b)
  {
  }

  lemma RunAtEnd(cls: Classes, w: seq<Unit>, a: nat, b: nat, p: nat, n: nat)
    requires w != [] && p == TailRun(cls, w) && n == (if p == |w| then |w| - 1 else p) && MaximalRun(cls, w, a, b) && b > n
    ensures p < |w| && a == p && b == |w|
  {
    var last := cls(w[b - 1]);
    var beforeTail := if p > 0 then cls(w[p - 1]) else 0;
    var beforeRun := if a > 0 then cls(w[a - 1]) else 0;
  }

  lemma OrderingRun(cls: Classes, w: seq<Unit>, r: seq<Unit>, a: nat, b: nat)
    requires IsOrdering(cls, w, r) && MaximalRun(cls, w, a, b)
    ensures StablySorted(cls, w[a..b], r[a..b])
  {
  }

  // ---- Ordering twice is ordering once ----

  lemma RunAround(cls: Classes, w: seq<Unit>, i: nat) returns (p: nat, q: nat)
    requires i < |w| && cls(w[i]) != 0
    ensures MaximalRun(cls, w, p, q) && p <= i < q
  {
    p, q := i, i + 1;
    while p > 0 && cls(w[p - 1]) != 0
      invariant p <= i && forall k :: p <= k <= i ==> cls(w[k]) != 0
    {
      p := p - 1;
    }
    while q < |w| && cls(w[q]) != 0
      invariant i < q <= |w| && forall k :: p <= k < q ==> cls(w[k]) != 0
    {
      q := q + 1;
    }
  }

  /** Ordering moves no unit across a unit of class zero. */
  lemma ZerosKept(cls: Classes, w: seq<Unit>, r: seq<Unit>, i: nat)
    requires IsOrdering(cls, w, r) && i < |w|
    ensures cls(r[i]) == 0 <==> cls(w[i]) == 0
  {
    if cls(w[i]) != 0 {
      var p, q := RunAround(cls, w, i);
      OnlyEmpty(cls, 0, w[p..q]);
      OnlyEmpty(cls, 0, r[p..q]);
      assert Only(cls, 0, r[p..q]) == Only(cls, 0, w[p..q]) == [];
      assert r[p..q][i - p] == r[i];
    }
  }

  lemma OrderingIsOrdered(cls: Classes, w: seq<Unit>, r: seq<Unit>)
    requires IsOrdering(cls, w, r)
    ensures IsOrdering(cls, r, r)
  {
    forall i | 0 <= i < |w| ensures cls(r[i]) == 0 <==> cls(w[i]) == 0 {
      ZerosKept(cls, w, r, i);
    }
    forall p: nat, q: nat | MaximalRun(cls, r, p, q) ensures StablySorted(cls, r[p..q], r[p..q]) {
      assert forall i :: 0 <= i < |w| ==> (cls(r[i]) == 0 <==> cls(w[i]) == 0);
      assert MaximalRun(cls, w, p, q);
    }
  }

  lemma CanonIdempotent(cls: Classes, w: seq<Unit>)
    ensures Canon(cls, Canon(cls, w)) == Canon(cls, w)
  {
    hide Canon;
    CanonIsOrdering(cls, w);
    OrderingIsOrdered(cls, w, Canon(cls, w));
    OrderingIsCanon(cls, Canon(cls, w), Canon(cls, w));
  }
}
