/** The move-to-front hash chains of the block cache (src/fsck_hfs/cache.c:731-769,
    1222-1262): null-terminated doubly linked lists through Tag.Next and Tag.Prev. */
module HashChains {
  import opened Lists

  datatype Chains = Chains(hash: seq<Ptr>, next: map<Ptr, Ptr>, prev: map<Ptr, Ptr>) {
    /** Take `x` out of bucket `h`. */
    function Unlink(h: nat, x: Ptr): Chains
      requires h < |hash| && x in next && x in prev
    {
      var prev' := if next[x] != NULL then prev[next[x] := prev[x]] else prev;
      if prev[x] != NULL then Chains(hash, next[prev[x] := next[x]], prev')
      else Chains(hash[h := next[x]], next, prev')
    }

    /** Put `x` at the front of bucket `h`. */
    function Push(h: nat, x: Ptr): Chains
      requires h < |hash|
    {
      var prev' := prev[x := NULL];
      Chains(hash[h := x], next[x := hash[h]], if hash[h] != NULL then prev'[hash[h] := x] else prev')
    }
  }

  /** `s` is the bucket that starts at `head`. */
  ghost predicate Chain(next: map<Ptr, Ptr>, prev: map<Ptr, Ptr>, head: Ptr, s: seq<Ptr>) {
    && NoDup(s) && NULL !in s
    && Linked(next, prev, s)
    && if s == [] then head == NULL else
         && head == s[0]
         && s[0] in prev && prev[s[0]] == NULL
         && s[|s| - 1] in next && next[s[|s| - 1]] == NULL
  }

  /** `lists[h]` is bucket `h`, and holds only tags whose home is `h`. */
  ghost predicate ChainsOk(c: Chains, lists: seq<seq<Ptr>>, home: map<Ptr, nat>) {
    && |lists| == |c.hash|
    && (forall h :: 0 <= h < |lists| ==> Chain(c.next, c.prev, c.hash[h], lists[h]))
    && (forall h, x {:trigger x in lists[h]} :: 0 <= h < |lists| && x in lists[h] ==> x in home && home[x] == h)
  }

  lemma ChainAt(next: map<Ptr, Ptr>, prev: map<Ptr, Ptr>, head: Ptr, s: seq<Ptr>, i: nat)
    requires Chain(next, prev, head, s) && i < |s|
    ensures s[i] in next && s[i] in prev
    ensures next[s[i]] == if i + 1 < |s| then s[i + 1] else NULL
    ensures prev[s[i]] == if i > 0 then s[i - 1] else NULL
    ensures next[s[i]] != NULL <==> i + 1 < |s|
    ensures prev[s[i]] != NULL <==> i > 0
  {
    assert i + 1 < |s| ==> s[i] in next && s[i + 1] in s;
    assert i > 0 ==> s[i] in prev && s[i - 1] in s;
  }

  lemma ChainMembers(next: map<Ptr, Ptr>, prev: map<Ptr, Ptr>, head: Ptr, s: seq<Ptr>)
    requires Chain(next, prev, head, s)
    ensures forall x :: x in s ==>
              x in next && x in prev && (next[x] == NULL || next[x] in s) && (prev[x] == NULL || prev[x] in s)
  {
    forall x | x in s
      ensures x in next && x in prev && (next[x] == NULL || next[x] in s) && (prev[x] == NULL || prev[x] in s)
    {
      var i :| 0 <= i < |s| && s[i] == x;
      ChainAt(next, prev, head, s, i);
    }
  }

  lemma ChainFrame(next: map<Ptr, Ptr>, prev: map<Ptr, Ptr>, next': map<Ptr, Ptr>, prev': map<Ptr, Ptr>, head: Ptr, s: seq<Ptr>)
    requires Chain(next, prev, head, s)
    requires forall x :: x in s && x in next ==> x in next' && next'[x] == next[x]
    requires forall x :: x in s && x in prev ==> x in prev' && prev'[x] == prev[x]
    ensures Chain(next', prev', head, s)
  {
    LinkedFrame(next, prev, next', prev', s);
  }

  lemma UnlinkChain(c: Chains, h: nat, s: seq<Ptr>, i: nat)
    requires h < |c.hash| && Chain(c.next, c.prev, c.hash[h], s) && i < |s|
    ensures s[i] in c.next && s[i] in c.prev
    ensures var c' := c.Unlink(h, s[i]);
            Chain(c'.next, c'.prev, c'.hash[h], s[..i] + s[i + 1..])
  {
    var x := s[i];
    ChainAt(c.next, c.prev, c.hash[h], s, i);
    var c' := c.Unlink(h, x);
    var a, b := s[..i], s[i + 1..];
    var r := a + b;
    assert r != [] ==> r[|r| - 1] == s[if i + 1 < |s| then |s| - 1 else i - 1];
    forall k | 0 <= k < |r|
      ensures r[k] in c'.next && r[k] in c'.prev
      ensures c'.next[r[k]] == if k + 1 < |r| then r[k + 1] else NULL
      ensures c'.prev[r[k]] == if k > 0 then r[k - 1] else NULL
    {
      var j := if k < i then k else k + 1;
      assert r[k] == s[j];
      ChainAt(c.next, c.prev, c.hash[h], s, j);
      if i > 0 { assert s[i - 1] == s[j] <==> j == i - 1; }
      if i + 1 < |s| { assert s[i + 1] == s[j] <==> j == i + 1; }
    }
    NoDupWithout(s, i);
  }

  lemma NoDupWithout(s: seq<Ptr>, i: nat)
    requires NoDup(s) && NULL !in s && i < |s|
    ensures NoDup(s[..i] + s[i + 1..]) && NULL !in s[..i] + s[i + 1..] && s[i] !in s[..i] + s[i + 1..]
    ensures forall y :: y in s <==> y == s[i] || y in s[..i] + s[i + 1..]
  {
    var r := s[..i] + s[i + 1..];
    forall k | 0 <= k < |r| ensures r[k] != s[i] && r[k] in s {
      assert r[k] == s[if k < i then k else k + 1];
    }
    forall k, j | 0 <= k < j < |r| ensures r[k] != r[j] {
      assert r[k] == s[if k < i then k else k + 1];
      assert r[j] == s[if j < i then j else j + 1];
    }
    forall y | y in s && y != s[i] ensures y in r {
      var j :| 0 <= j < |s| && s[j] == y;
      assert r[if j < i then j else j - 1] == y;
    }
  }

  lemma PushChain(c: Chains, h: nat, s: seq<Ptr>, x: Ptr)
    requires h < |c.hash| && Chain(c.next, c.prev, c.hash[h], s)
    requires x !in s && x != NULL
    ensures var c' := c.Push(h, x);
            Chain(c'.next, c'.prev, c'.hash[h], [x] + s)
  {
    NoDupCons(x, s);
    hide Chain, Linked, NoDup;
    var c' := c.Push(h, x);
    var r := [x] + s;
    forall k | 0 <= k < |r|
      ensures r[k] in c'.next && r[k] in c'.prev
      ensures c'.next[r[k]] == if k + 1 < |r| then r[k + 1] else NULL
      ensures c'.prev[r[k]] == if k > 0 then r[k - 1] else NULL
    {
      PushAt(c, h, s, x, k);
    }
    ChainOfFields(c'.next, c'.prev, r);
  }

  /** A bucket whose tags all have the right fields. */
  lemma ChainOfFields(next: map<Ptr, Ptr>, prev: map<Ptr, Ptr>, r: seq<Ptr>)
    requires r != [] && NoDup(r) && NULL !in r
    requires forall k {:trigger r[k] in next} :: 0 <= k < |r| ==>
               && r[k] in next && next[r[k]] == (if k + 1 < |r| then r[k + 1] else NULL)
               && r[k] in prev && prev[r[k]] == if k > 0 then r[k - 1] else NULL
    ensures Chain(next, prev, r[0], r)
  {
    assert r[0] in next && r[|r| - 1] in next;
    forall i | 0 < i < |r| ensures r[i] in prev && prev[r[i]] == r[i - 1] { assert r[i] in next; }
    forall i | 0 <= i < |r| - 1 ensures r[i] in next && next[r[i]] == r[i + 1] { assert r[i] in next; }
    assert Linked(next, prev, r);
  }

  /** The fields of each tag of the bucket after a push. */
  lemma PushAt(c: Chains, h: nat, s: seq<Ptr>, x: Ptr, k: nat)
    requires h < |c.hash| && Chain(c.next, c.prev, c.hash[h], s) && x !in s && x != NULL && k <= |s|
    ensures var c', r := c.Push(h, x), [x] + s;
            && r[k] in c'.next && r[k] in c'.prev
            && c'.next[r[k]] == (if k + 1 < |r| then r[k + 1] else NULL)
            && c'.prev[r[k]] == if k > 0 then r[k - 1] else NULL
  {
    if k > 0 {
      var r := [x] + s;
      ChainAt(c.next, c.prev, c.hash[h], s, k - 1);
      assert r[k] == s[k - 1] && s[k - 1] != x && (k + 1 < |r| ==> r[k + 1] == s[k]);
      assert k > 1 ==> s[0] != s[k - 1] && r[k - 1] == s[k - 2];
    }
  }

  lemma NoDupCons(x: Ptr, s: seq<Ptr>)
    requires NoDup(s) && x !in s && x != NULL && NULL !in s
    ensures NoDup([x] + s) && NULL !in [x] + s
  {
  }

  lemma UnlinkFrame(c: Chains, h: nat, s: seq<Ptr>, x: Ptr, head: Ptr, r: seq<Ptr>)
    requires h < |c.hash| && Chain(c.next, c.prev, c.hash[h], s) && x in s
    requires Chain(c.next, c.prev, head, r) && forall y :: y in r ==> y !in s
    ensures x in c.next && x in c.prev
    ensures var c' := c.Unlink(h, x); Chain(c'.next, c'.prev, head, r)
  {
    ChainMembers(c.next, c.prev, c.hash[h], s);
    var c' := c.Unlink(h, x);
    ChainFrame(c.next, c.prev, c'.next, c'.prev, head, r);
  }

  lemma PushFrame(c: Chains, h: nat, s: seq<Ptr>, x: Ptr, head: Ptr, r: seq<Ptr>)
    requires h < |c.hash| && Chain(c.next, c.prev, c.hash[h], s)
    requires Chain(c.next, c.prev, head, r) && x !in r && forall y :: y in r ==> y !in s
    ensures var c' := c.Push(h, x); Chain(c'.next, c'.prev, head, r)
  {
    assert s != [] ==> s[0] in s;
    var c' := c.Push(h, x);
    ChainFrame(c.next, c.prev, c'.next, c'.prev, head, r);
  }

  /** Unlinking the `i`-th tag of bucket `h` removes it from that bucket alone. */
  lemma UnlinkOk(c: Chains, lists: seq<seq<Ptr>>, home: map<Ptr, nat>, h: nat, i: nat)
    requires ChainsOk(c, lists, home) && h < |lists| && i < |lists[h]|
    ensures lists[h][i] in c.next && lists[h][i] in c.prev
    ensures ChainsOk(c.Unlink(h, lists[h][i]), lists[h := lists[h][..i] + lists[h][i + 1..]], home)
  {
    var s := lists[h];
    UnlinkChain(c, h, s, i);
    NoDupWithout(s, i);
    var c' := c.Unlink(h, s[i]);
    var lists' := lists[h := s[..i] + s[i + 1..]];
    forall g | 0 <= g < |lists| && g != h ensures Chain(c'.next, c'.prev, c'.hash[g], lists'[g]) {
      Disjoint(lists, home, g, h);
      UnlinkFrame(c, h, s, s[i], c.hash[g], lists[g]);
    }
    forall g, y | 0 <= g < |lists| && y in lists'[g] ensures y in home && home[y] == g {
      assert y in lists[g];
    }
  }

  lemma Disjoint(lists: seq<seq<Ptr>>, home: map<Ptr, nat>, g: nat, h: nat)
    requires forall k, x {:trigger x in lists[k]} :: 0 <= k < |lists| && x in lists[k] ==> x in home && home[x] == k
    requires g < |lists| && h < |lists| && g != h
    ensures forall y :: y in lists[g] ==> y !in lists[h]
  {
  }

  /** Pushing a tag that is in no bucket puts it at the front of bucket `h` alone. */
  lemma PushOk(c: Chains, lists: seq<seq<Ptr>>, home: map<Ptr, nat>, h: nat, x: Ptr)
    requires ChainsOk(c, lists, home) && h < |lists| && x != NULL
    requires x in home && home[x] == h && x !in lists[h]
    ensures ChainsOk(c.Push(h, x), lists[h := [x] + lists[h]], home)
  {
    var s := lists[h];
    PushChain(c, h, s, x);
    var c' := c.Push(h, x);
    var lists' := lists[h := [x] + s];
    forall g | 0 <= g < |lists| && g != h ensures Chain(c'.next, c'.prev, c'.hash[g], lists'[g]) {
      Disjoint(lists, home, g, h);
      PushFrame(c, h, s, x, c.hash[g], lists[g]);
    }
    forall g, y | 0 <= g < |lists| && y in lists'[g] ensures y in home && home[y] == g {
      assert y == x || y in lists[g];
    }
  }

  /** A smaller `home` will do when the buckets lost the tags it lost. */
  lemma ChainsHome(c: Chains, lists: seq<seq<Ptr>>, home: map<Ptr, nat>, home': map<Ptr, nat>)
    requires ChainsOk(c, lists, home)
    requires forall h, x {:trigger x in lists[h]} :: 0 <= h < |lists| && x in lists[h] ==> x in home' && home'[x] == h
    ensures ChainsOk(c, lists, home')
  {
  }
}
