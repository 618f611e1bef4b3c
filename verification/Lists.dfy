/** Sequences of bytes and of pointers: splicing, duplicate-free sequences, and
    doubly linked lists whose Next and Prev fields are maps from addresses. */
module Bytes {
  type Byte = b: int | 0 <= b < 256 witness 0

  type uint32 = x: int | 0 <= x < 0x1_0000_0000 witness 0

  function U32(x: int): (r: uint32)
    ensures 0 <= x < 0x1_0000_0000 ==> r == x
  {
    x % 0x1_0000_0000
  }

  /** `s` with the elements from index `at` on replaced by `d`. */
  function Splice<T>(s: seq<T>, at: nat, d: seq<T>): (r: seq<T>)
    requires at + |d| <= |s|
    ensures |r| == |s|
    ensures forall i :: 0 <= i < |s| ==> r[i] == if at <= i < at + |d| then d[i - at] else s[i]
  {
    s[..at] + d + s[at + |d|..]
  }

  /** Two adjacent splices are one splice of the concatenation. */
  lemma SpliceAdjacent<T>(s: seq<T>, at: nat, d: seq<T>, e: seq<T>)
    requires at + |d| + |e| <= |s|
    ensures Splice(Splice(s, at, d), at + |d|, e) == Splice(s, at, d + e)
  {
  }

  /** Writing nothing, and writing back what is there, change nothing. */
  lemma SpliceSame<T>(s: seq<T>, at: nat, d: seq<T>)
    requires at + |d| <= |s|
    requires d == s[at..at + |d|]
    ensures Splice(s, at, d) == s
  {
  }
}

module Lists {
  type Ptr = nat
  const NULL: Ptr := 0

  ghost predicate NoDup<T>(s: seq<T>) {
    forall i, j :: 0 <= i < j < |s| ==> s[i] != s[j]
  }

  /** Every address of `r` but the last has a Next field naming its successor,
      and every address but the first a Prev field naming its predecessor. */
  ghost predicate Linked(next: map<Ptr, Ptr>, prev: map<Ptr, Ptr>, r: seq<Ptr>) {
    && (forall i {:trigger next[r[i]]} {:trigger r[i] in next} ::
          0 <= i < |r| - 1 ==> r[i] in next && next[r[i]] == r[i + 1])
    && (forall i {:trigger prev[r[i]]} {:trigger r[i] in prev} ::
          0 < i < |r| ==> r[i] in prev && prev[r[i]] == r[i - 1])
  }

  /** `s` without its element `x`. */
  ghost function Without<T>(s: seq<T>, x: T): (r: seq<T>)
    ensures x !in s ==> r == s
    ensures forall y :: y in r ==> y in s
  {
    if s == [] then [] else if s[0] == x then s[1..] else [s[0]] + Without(s[1..], x)
  }

  lemma {:induction false} WithoutSplits<T>(a: seq<T>, x: T, b: seq<T>)
    requires x !in a
    ensures Without(a + [x] + b, x) == a + b
  {
    if a == [] {
      assert a + [x] + b == [x] + b;
    } else {
      assert (a + [x] + b)[1..] == a[1..] + [x] + b;
      WithoutSplits(a[1..], x, b);
      assert [a[0]] + (a[1..] + b) == a + b;
    }
  }

  /** What unlinking the inner node `x` of `a + [x] + b` does to the list. */
  lemma UnlinkInner(next: map<Ptr, Ptr>, prev: map<Ptr, Ptr>, a: seq<Ptr>, x: Ptr, b: seq<Ptr>)
    requires a != [] && b != []
    requires Linked(next, prev, a + [x] + b)
    requires NoDup((a + [x] + b)[1..]) && NoDup((a + [x] + b)[..|a| + |b|])
    ensures x in next && x in prev && next[x] == b[0] && prev[x] == a[|a| - 1]
    ensures Linked(next[a[|a| - 1] := b[0]], prev[b[0] := a[|a| - 1]], a + b)
  {
    var r := a + [x] + b;
    var r' := a + b;
    var p, n := a[|a| - 1], b[0];
    assert r[|a|] == x && r[|a| - 1] == p && r[|a| + 1] == n;
    assert r[|a|] in next && r[|a|] in prev;
    var next', prev' := next[p := n], prev[n := p];
    forall i | 0 <= i < |r'| - 1 ensures r'[i] in next' && next'[r'[i]] == r'[i + 1] {
      var j := if i < |a| then i else i + 1;
      assert r[j] == r'[i];
      if i != |a| - 1 {
        assert r[..|a| + |b|][j] != r[..|a| + |b|][|a| - 1];
        assert r[j] in next && next[r[j]] == r[j + 1];
      }
    }
    forall i | 0 < i < |r'| ensures r'[i] in prev' && prev'[r'[i]] == r'[i - 1] {
      var j := if i < |a| then i else i + 1;
      assert r[j] == r'[i];
      if i != |a| {
        assert r[1..][j - 1] != r[1..][|a|];
        assert r[j] in prev && prev[r[j]] == r[j - 1];
      }
    }
  }

  /** What linking a new node `x` between the neighbours `p` and `n` does. */
  lemma LinkBetween(next: map<Ptr, Ptr>, prev: map<Ptr, Ptr>, a: seq<Ptr>, x: Ptr, b: seq<Ptr>)
    requires a != [] && b != []
    requires Linked(next, prev, a + b)
    requires NoDup((a + b)[1..]) && NoDup((a + b)[..|a| + |b| - 1])
    requires x !in a && x !in b
    ensures var p, n := a[|a| - 1], b[0];
            Linked(next[x := n][p := x], prev[x := p][n := x], a + [x] + b)
  {
    var r := a + b;
    var r' := a + [x] + b;
    var p, n := a[|a| - 1], b[0];
    var next', prev' := next[x := n][p := x], prev[x := p][n := x];
    forall i | 0 <= i < |r'| - 1 ensures r'[i] in next' && next'[r'[i]] == r'[i + 1] {
      if i < |a| - 1 || i > |a| {
        var j := if i < |a| then i else i - 1;
        assert r[j] == r'[i] && r[j + 1] == r'[i + 1];
        assert r[..|r| - 1][j] != r[..|r| - 1][|a| - 1];
        assert r[j] in next && next[r[j]] == r[j + 1];
      }
    }
    forall i | 0 < i < |r'| ensures r'[i] in prev' && prev'[r'[i]] == r'[i - 1] {
      if i < |a| || i > |a| + 1 {
        var j := if i < |a| then i else i - 1;
        assert r[j] == r'[i] && r[j - 1] == r'[i - 1];
        assert r[1..][j - 1] != r[1..][|a| - 1];
        assert r[j] in prev && prev[r[j]] == r[j - 1];
      }
    }
  }

  /** A list is untouched by stores to addresses outside it. */
  lemma LinkedFrame(next: map<Ptr, Ptr>, prev: map<Ptr, Ptr>, next': map<Ptr, Ptr>, prev': map<Ptr, Ptr>, r: seq<Ptr>)
    requires Linked(next, prev, r)
    requires forall x :: x in r && x in next ==> x in next' && next'[x] == next[x]
    requires forall x :: x in r && x in prev ==> x in prev' && prev'[x] == prev[x]
    ensures Linked(next', prev', r)
  {
    forall i | 0 <= i < |r| - 1 ensures r[i] in next' && next'[r[i]] == r[i + 1] {
      assert r[i] in next;
    }
    forall i | 0 < i < |r| ensures r[i] in prev' && prev'[r[i]] == r[i - 1] {
      assert r[i] in prev;
    }
  }

  // ---- Counting ----

  ghost function Members(s: seq<Ptr>): set<Ptr> {
    set x | x in s
  }

  /** The numbers below `n`. */
  ghost function Range(n: nat): (r: set<int>)
    ensures |r| == n && forall k :: k in r <==> 0 <= k < n
  {
    if n == 0 then {} else Range(n - 1) + {n - 1}
  }

  lemma {:induction false} DistinctCount(s: seq<nat>)
    requires NoDup(s)
    ensures |Members(s)| == |s|
  {
    if s == [] {
      assert Members(s) == {};
    } else {
      var m := |s| - 1;
      DistinctCount(s[..m]);
      assert s[m] !in Members(s[..m]);
      assert Members(s) == Members(s[..m]) + {s[m]};
    }
  }

  /** Distinct numbers below `n` are at most `n` many, and `n` of them are all of them. */
  lemma Pigeonhole(s: seq<nat>, n: nat)
    requires NoDup(s) && forall i :: 0 <= i < |s| ==> s[i] < n
    ensures |s| <= n
    ensures |s| == n ==> forall k :: 0 <= k < n ==> k in s
  {
    DistinctCount(s);
    var all: set<int> := Range(n);
    var some: set<int> := Members(s);
    assert some <= all;
    SubsetCount(some, all);
    if |s| == n {
      forall k | 0 <= k < n ensures k in s {
        assert k in all;
      }
    }
  }

  lemma {:induction false} SubsetCount<T>(a: set<T>, b: set<T>)
    requires a <= b
    ensures |a| <= |b| && (|a| == |b| ==> a == b)
    decreases |a|
  {
    if a != {} {
      var x :| x in a;
      SubsetCount(a - {x}, b - {x});
      assert a == (a - {x}) + {x} && b == (b - {x}) + {x};
    }
  }
}
