/** Arithmetic of byte offsets and the blocks that contain them.  Alignment is
    defined by counting blocks up from zero, which keeps division out of the
    invariants; BaseIsMod connects it with the `%` of the code. */
module Blocks {
  predicate Aligned(bs: nat, o: nat)
    requires bs > 0
  {
    o == 0 || (o >= bs && Aligned(bs, o - bs))
  }

  /** The offset of the block that holds byte `x`. */
  function Base(bs: nat, x: nat): (o: nat)
    requires bs > 0
    ensures Aligned(bs, o) && o <= x < o + bs
  {
    if x < bs then 0 else bs + Base(bs, x - bs)
  }

  /** Distinct blocks do not overlap. */
  lemma {:induction false} BlocksApart(bs: nat, o: nat, p: nat)
    requires bs > 0 && Aligned(bs, o) && Aligned(bs, p) && o < p
    ensures o + bs <= p
  {
    if o > 0 { BlocksApart(bs, o - bs, p - bs); }
  }

  lemma {:induction false} MulMono(a: nat, b: nat, c: nat)
    ensures a <= b ==> a * c <= b * c
    ensures a < b ==> a * c + c <= b * c
    decreases b
  {
    if a < b {
      MulMono(a, b - 1, c);
      assert b * c == (b - 1) * c + c;
    }
  }

  lemma QuotientUnique(bs: nat, x: nat, q: nat, r: nat)
    requires bs > 0 && r < bs && x == q * bs + r
    ensures x / bs == q && x % bs == r
  {
    var q', r' := x / bs, x % bs;
    assert x == q' * bs + r' && r' < bs;
    MulMono(q', q, bs);
    MulMono(q, q', bs);
  }

  lemma {:induction false} AlignedMultiple(bs: nat, o: nat) returns (q: nat)
    requires bs > 0 && Aligned(bs, o)
    ensures o == q * bs && o / bs == q && o % bs == 0
  {
    if o == 0 {
      q := 0;
    } else {
      var q' := AlignedMultiple(bs, o - bs);
      q := q' + 1;
      assert q * bs == q' * bs + bs;
    }
    QuotientUnique(bs, o, q, 0);
  }

  lemma BaseIsMod(bs: nat, x: nat)
    requires bs > 0
    ensures x - Base(bs, x) == x % bs
  {
    var o := Base(bs, x);
    var q := AlignedMultiple(bs, o);
    QuotientUnique(bs, x, q, x - o);
  }

  /** The bucket of offset `x` among `n`, as `x % n` but without division. */
  function Home(n: nat, x: nat): (h: nat)
    requires n > 0
    ensures h < n
  {
    x - Base(n, x)
  }

  lemma HomeIsMod(n: nat, x: nat)
    requires n > 0
    ensures Home(n, x) == x % n
  {
    BaseIsMod(n, x);
  }

  /** Two bytes lie in one block exactly when their block numbers agree. */
  lemma SameBlock(bs: nat, x: nat, y: nat)
    requires bs > 0 && x <= y
    ensures Base(bs, x) / bs == y / bs <==> y < Base(bs, x) + bs
  {
    var o := Base(bs, x);
    var q := AlignedMultiple(bs, o);
    assert y == (y / bs) * bs + y % bs;
    if y < o + bs {
      QuotientUnique(bs, y, q, y - o);
    }
  }

  lemma Distribute(p: int, n: int, ss: int)
    ensures (p + n) * ss == p * ss + n * ss
  {
  }

  lemma DivSplit(x: nat, d: nat)
    requires d > 0
    ensures 0 <= x / d && 0 <= x % d < d && x == (x / d) * d + x % d
  {
  }

  lemma DivMono(x: nat, y: nat, d: nat)
    requires d > 0 && x <= y
    ensures 0 <= x / d <= y / d
  {
    var a, b := x / d, y / d;
    assert x == a * d + x % d && y == b * d + y % d;
    if b < a { MulMono(b, a, d); }
  }

  lemma QuotientBound(x: nat, bs: nat)
    requires bs > 0
    ensures 0 <= x / bs <= x && (x / bs) * bs <= x
  {
    var q, r := x / bs, x % bs;
    assert x == q * bs + r;
    DivMono(0, x, bs);
    MulMono(1, bs, q);
  }

  /** Multiples of a multiple of `d` are multiples of `d`. */
  lemma MultipleOfMultiple(q: nat, n: nat, d: nat)
    requires d > 0 && n % d == 0
    ensures (q * n) % d == 0
  {
    var k := n / d;
    assert q * n == (q * k) * d;
    MulMono(0, q, k);
    QuotientUnique(d, q * n, q * k, 0);
  }
}
