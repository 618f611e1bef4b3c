/** FixDecomps of src/fsck_hfs/dfalib/CatalogCheck.c:1909-2118: replace outdated
    decompositions in a file name, greedily from the left, and put combining marks
    into canonical order, all in one pass over a bounded output buffer. */
module FixDecomps {
  import opened CanonicalOrder

  const MAX_NAME: nat := 255

  datatype Option<+T> = None | Some(value: T)

  /** The five actions of the replacement table. */
  datatype Action =
    | ReplaceCurWithTwo(a: Unit, b: Unit)
    | ReplaceCurWithThree(a: Unit, b: Unit, c: Unit)
    | IfNextOneMatchesReplaceAllWithOne(next: Unit, a: Unit)
    | IfNextOneMatchesReplaceAllWithTwo(next: Unit, a: Unit, b: Unit)
    | IfNextTwoMatchReplaceAllWithOne(next: Unit, next2: Unit, a: Unit)

  type Table = Unit -> Option<Action>

  // ---- Specification: substitution over a cut of the name, then canonical ordering ----

  /** The action `x`, found for the first of them, takes exactly the units `u`. */
  predicate Takes(x: Action, u: seq<Unit>) {
    match x
    case ReplaceCurWithTwo(_, _) => |u| == 1
    case ReplaceCurWithThree(_, _, _) => |u| == 1
    case IfNextOneMatchesReplaceAllWithOne(n, _) => |u| == 2 && u[1] == n
    case IfNextOneMatchesReplaceAllWithTwo(n, _, _) => |u| == 2 && u[1] == n
    case IfNextTwoMatchReplaceAllWithOne(n, n2, _) => |u| == 3 && u[1] == n && u[2] == n2
  }

  /** What it puts in their place, in order. */
  function Gives(x: Action): seq<Unit> {
    match x
    case ReplaceCurWithTwo(a, b) => [a, b]
    case ReplaceCurWithThree(a, b, c) => [a, b, c]
    case IfNextOneMatchesReplaceAllWithOne(_, a) => [a]
    case IfNextOneMatchesReplaceAllWithTwo(_, a, b) => [a, b]
    case IfNextTwoMatchReplaceAllWithOne(_, _, a) => [a]
  }

  /** A piece of a name, what it becomes, and whether an action applied. */
  datatype Piece = Piece(from: seq<Unit>, to: seq<Unit>, changed: bool)

  /** No action applies at the front of `s`. */
  ghost predicate Plain(act: Table, s: seq<Unit>)
    requires s != []
  {
    act(s[0]).Some? ==> forall k :: 1 <= k <= |s| ==> !Takes(act(s[0]).value, s[..k])
  }

  /** `p` is the front of `s`: the units that an action takes, with what it gives for them,
      or a single unit to which none applies, copied. */
  ghost predicate PieceAt(act: Table, s: seq<Unit>, p: Piece) {
    && p.from != [] && p.from <= s
    && if p.changed then act(s[0]).Some? && Takes(act(s[0]).value, p.from) && p.to == Gives(act(s[0]).value)
       else |p.from| == 1 && p.to == p.from && Plain(act, s)
  }

  /** The name cut into such pieces, from the left. */
  ghost predicate IsCut(act: Table, s: seq<Unit>, ps: seq<Piece>)
    decreases |ps|
  {
    if ps == [] then s == [] else PieceAt(act, s, ps[0]) && IsCut(act, s[|ps[0].from|..], ps[1..])
  }

  lemma PieceUnique(act: Table, s: seq<Unit>, p: Piece, q: Piece)
    requires PieceAt(act, s, p) && PieceAt(act, s, q)
    ensures p == q
  {
    assert p.from == s[..|p.from|] && q.from == s[..|q.from|];
  }

  /** There is only one cut. */
  lemma {:induction false} CutUnique(act: Table, s: seq<Unit>, ps: seq<Piece>, qs: seq<Piece>)
    requires IsCut(act, s, ps) && IsCut(act, s, qs)
    ensures ps == qs
    decreases |ps|
  {
    if ps != [] {
      PieceUnique(act, s, ps[0], qs[0]);
      CutUnique(act, s[|ps[0].from|..], ps[1..], qs[1..]);
      assert ps == [ps[0]] + ps[1..] && qs == [qs[0]] + qs[1..];
    }
  }

  lemma {:induction false} CutExists(act: Table, s: seq<Unit>) returns (ps: seq<Piece>)
    ensures IsCut(act, s, ps)
    decreases |s|
  {
    if s == [] {
      ps := [];
    } else {
      var p := Piece([s[0]], [s[0]], false);
      if !Plain(act, s) {
        var k :| 1 <= k <= |s| && Takes(act(s[0]).value, s[..k]);
        p := Piece(s[..k], Gives(act(s[0]).value), true);
      }
      var rest := CutExists(act, s[|p.from|..]);
      ps := [p] + rest;
    }
  }

  ghost function Cut(act: Table, s: seq<Unit>): (ps: seq<Piece>)
    ensures IsCut(act, s, ps)
  {
    assert exists ps :: IsCut(act, s, ps) by { var ps := CutExists(act, s); }
    var ps :| IsCut(act, s, ps);
    ps
  }

  /** What the pieces become, one after the other. */
  ghost function Joined(ps: seq<Piece>): seq<Unit> {
    if ps == [] then [] else ps[0].to + Joined(ps[1..])
  }

  /** The substituted name. */
  ghost function Subst(act: Table, s: seq<Unit>): seq<Unit> {
    Joined(Cut(act, s))
  }

  ghost predicate AnyChanged(ps: seq<Piece>) {
    exists i :: 0 <= i < |ps| && ps[i].changed
  }

  // ---- Appending one unit to an ordered name ----

  /** The units written so far: `w` is what has been emitted, in order of emission;
      `start` is where the combining sequence in progress begins, or -1, and `max`
      the greatest class in it. */
  ghost predicate Ordered(cls: Classes, w: seq<Unit>, out: seq<Unit>, start: int, max: nat) {
    && out == Canon(cls, w)
    && -1 <= start < |w|
    && TailRun(cls, w) == (if start < 0 then |w| else start)
    && (start >= 0 ==> max == cls(out[|out| - 1]))
  }

  lemma TailRunAppend(cls: Classes, w: seq<Unit>, u: Unit)
    ensures TailRun(cls, w + [u]) == if cls(u) == 0 then |w| + 1 else TailRun(cls, w)
  {
    assert (w + [u])[..|w|] == w;
  }

  /** The ordering of a name is the ordering of its front, then of its tail run. */
  lemma CanonSplit(cls: Classes, w: seq<Unit>)
    ensures var p := TailRun(cls, w);
            Canon(cls, w) == Canon(cls, w[..p]) + StableSort(cls, w[p..])
  {
    var p := TailRun(cls, w);
    if p == |w| {
      assert w[..p] == w && w[p..] == [];
    }
  }

  lemma CanonAppendBase(cls: Classes, w: seq<Unit>, u: Unit)
    requires cls(u) == 0
    ensures Canon(cls, w + [u]) == Canon(cls, w) + [u]
  {
    TailRunAppend(cls, w, u);
    assert (w + [u])[..|w|] == w;
  }

  /** A unit of nonzero class is inserted into the tail run. */
  lemma CanonAppendMark(cls: Classes, w: seq<Unit>, u: Unit)
    requires cls(u) != 0
    ensures var p := TailRun(cls, w);
            && Canon(cls, w)[p..] == StableSort(cls, w[p..])
            && Canon(cls, w + [u]) == Canon(cls, w)[..p] + Insert(cls, Canon(cls, w)[p..], u)
  {
    hide Canon, TailRun, Insert, StableSort;
    TailRunAppend(cls, w, u);
    CanonSplit(cls, w);
    CanonSplit(cls, w + [u]);
    var p := TailRun(cls, w);
    assert (w + [u])[..p] == w[..p];
    assert (w + [u])[p..] == w[p..] + [u];
    SortAppend(cls, w[p..], u);
    assert Canon(cls, w)[..p] == Canon(cls, w[..p]);
  }

  lemma SortAppend(cls: Classes, s: seq<Unit>, u: Unit)
    ensures StableSort(cls, s + [u]) == Insert(cls, StableSort(cls, s), u)
  {
    assert (s + [u])[..|s|] == s;
  }

  lemma AppendBase(cls: Classes, w: seq<Unit>, out: seq<Unit>, start: int, max: nat, u: Unit)
    requires Ordered(cls, w, out, start, max) && cls(u) == 0
    ensures Ordered(cls, w + [u], out + [u], -1, 0)
  {
    CanonAppendBase(cls, w, u);
    TailRunAppend(cls, w, u);
  }

  lemma AppendFirst(cls: Classes, w: seq<Unit>, out: seq<Unit>, max: nat, u: Unit)
    requires Ordered(cls, w, out, -1, max) && cls(u) != 0
    ensures Ordered(cls, w + [u], out + [u], |w|, cls(u))
  {
    CanonAppendMark(cls, w, u);
    TailRunAppend(cls, w, u);
    assert out[|w|..] == [] && out[..|w|] == out;
  }

  lemma AppendLast(cls: Classes, w: seq<Unit>, out: seq<Unit>, start: nat, max: nat, u: Unit)
    requires Ordered(cls, w, out, start, max) && cls(u) >= max && cls(u) != 0
    ensures Ordered(cls, w + [u], out + [u], start, cls(u))
  {
    hide Canon, TailRun, StableSort;
    CanonAppendMark(cls, w, u);
    TailRunAppend(cls, w, u);
    var run := out[start..];
    assert run[|run| - 1] == out[|out| - 1];
    assert out == out[..start] + run;
    assert out[..start] + (run + [u]) == out + [u];
  }

  /** Moving the units `[q, n)` of the tail run up by one, all of class above `u`'s,
      and putting `u` at `q`, inserts it. */
  lemma {:induction false} InsertAt(cls: Classes, run: seq<Unit>, u: Unit, q: nat)
    requires q <= |run| && (q == 0 || cls(run[q - 1]) <= cls(u))
    requires forall i :: q <= i < |run| ==> cls(run[i]) > cls(u)
    ensures Insert(cls, run, u) == run[..q] + [u] + run[q..]
  {
    if q == |run| {
      assert run[..q] == run && run[q..] == [];
    } else {
      var n := |run| - 1;
      assert run[..n][..q] == run[..q];
      InsertAt(cls, run[..n], u, q);
      assert run[..n][q..] + [run[n]] == run[q..];
    }
  }

  lemma AppendInside(cls: Classes, w: seq<Unit>, out: seq<Unit>, start: nat, max: nat, u: Unit, q: nat)
    requires Ordered(cls, w, out, start, max) && start <= q < |out| && 0 < cls(u) < max
    requires q == start || cls(out[q - 1]) <= cls(u)
    requires forall i :: q <= i < |out| ==> cls(out[i]) > cls(u)
    ensures Ordered(cls, w + [u], out[..q] + [u] + out[q..], start, max)
    ensures out[..q] + [u] + out[q..] != w + [u]
  {
    hide Canon, TailRun, Insert, StableSort;
    var r := out[..q] + [u] + out[q..];
    LastStays(out, q, u);
    assert (w + [u])[|w|] == u;
    CanonAppendMark(cls, w, u);
    TailRunAppend(cls, w, u);
    InsertRun(cls, out, start, u, q);
  }

  lemma LastStays(out: seq<Unit>, q: nat, u: Unit)
    requires q < |out|
    ensures var r := out[..q] + [u] + out[q..]; |r| == |out| + 1 && r[|r| - 1] == out[|out| - 1]
  {
  }

  /** Inserting into the run at the end is inserting into the whole. */
  lemma InsertRun(cls: Classes, out: seq<Unit>, start: nat, u: Unit, q: nat)
    requires start <= q < |out| && (q == start || cls(out[q - 1]) <= cls(u))
    requires forall i :: q <= i < |out| ==> cls(out[i]) > cls(u)
    ensures out[..start] + Insert(cls, out[start..], u) == out[..q] + [u] + out[q..]
  {
    hide Insert;
    var run := out[start..];
    forall i | q - start <= i < |run| ensures cls(run[i]) > cls(u) { assert run[i] == out[start + i]; }
    InsertAt(cls, run, u, q - start);
    Splitting(out, start, q, u);
  }

  lemma Splitting(out: seq<Unit>, start: nat, q: nat, u: Unit)
    requires start <= q <= |out|
    ensures var run := out[start..];
            out[..start] + (run[..q - start] + [u] + run[q - start..]) == out[..q] + [u] + out[q..]
  {
    assert out[..q] == out[..start] + out[start..][..q - start];
    assert out[q..] == out[start..][q - start..];
  }

  // ---- The code ----

  /** Writes `u` after the first `n` units of `out`, or into the combining sequence
      at their end when its class calls for that. */
  method Emit(cls: Classes, out: array<Unit>, n: nat, start: int, max: nat, u: Unit, ghost w: seq<Unit>)
    returns (start': int, max': nat, reordered: bool)
    requires n < out.Length && |w| == n && Ordered(cls, w, out[..n], start, max)
    modifies out
    ensures Ordered(cls, w + [u], out[..n + 1], start', max')
    ensures !reordered ==> out[..n + 1] == old(out[..n]) + [u]
    ensures reordered ==> out[..n + 1] != w + [u]
  {
    hide Canon, TailRun;
    var currCharClass := cls(u);
    start', max', reordered := start, max, false;
    ghost var out0 := out[..n];
    if currCharClass == 0 {
      start', max' := -1, 0;
      out[n] := u;
      assert out[..n + 1] == out0 + [u];
      AppendBase(cls, w, out0, start, max, u);
    } else if start == -1 {
      start', max' := n, currCharClass;
      out[n] := u;
      assert out[..n + 1] == out0 + [u];
      AppendFirst(cls, w, out0, max, u);
    } else if currCharClass >= max {
      max' := currCharClass;
      out[n] := u;
      assert out[..n + 1] == out0 + [u];
      AppendLast(cls, w, out0, start, max, u);
    } else {
      reordered := true;
      Reorder(cls, out, n, start, max, u, w);
    }
  }

  /** Puts `u`, whose class is below the greatest of the combining sequence in progress,
      into its place in that sequence. */
  method Reorder(cls: Classes, out: array<Unit>, n: nat, start: nat, max: nat, u: Unit, ghost w: seq<Unit>)
    requires n < out.Length && |w| == n && Ordered(cls, w, out[..n], start, max) && 0 < cls(u) < max
    modifies out
    ensures Ordered(cls, w + [u], out[..n + 1], start, max) && out[..n + 1] != w + [u]
  {
    hide Canon, TailRun;
    var currCharClass := cls(u);
    ghost var out0 := out[..n];
    assert out0[n - 1] == out[n - 1];
    if n - start == 1 {
      // only one mark before this one: exchange the two
      out[n] := out[start];
      out[start] := u;
      assert out[..n + 1] == out0[..start] + [u] + out0[start..];
      AppendInside(cls, w, out0, start, max, u, start);
    } else {
      var q := ShiftUp(cls, out, n, start, currCharClass);
      out[q] := u;
      Shifted(out0, out[..n + 1], q, u);
      AppendInside(cls, w, out0, start, max, u, q);
    }
  }

  /** From the end of the sequence, moves units up by one as long as their class is
      higher than `k`; the current unit goes where this stops. */
  method ShiftUp(cls: Classes, out: array<Unit>, n: nat, start: nat, k: nat) returns (q: nat)
    requires start < n < out.Length && cls(out[n - 1]) > k
    modifies out
    ensures start <= q < n && (q == start || cls(old(out[q - 1])) <= k)
    ensures forall i :: q <= i < n ==> cls(old(out[i])) > k
    ensures forall i :: 0 <= i < q ==> out[i] == old(out[i])
    ensures forall i :: q < i <= n ==> out[i] == old(out[i - 1])
  {
    q := n;
    while q > start && cls(out[q - 1]) > k
      invariant start <= q <= n
      invariant forall i :: 0 <= i < q ==> out[i] == old(out[i])
      invariant forall i :: q < i <= n ==> out[i] == old(out[i - 1])
      invariant forall i :: q <= i < n ==> cls(old(out[i])) > k
    {
      out[q] := out[q - 1];
      q := q - 1;
    }
  }

  lemma Shifted(a: seq<Unit>, b: seq<Unit>, q: nat, u: Unit)
    requires q < |a| && |b| == |a| + 1 && b[q] == u
    requires forall i :: 0 <= i < q ==> b[i] == a[i]
    requires forall i :: q < i <= |a| ==> b[i] == a[i - 1]
    ensures b == a[..q] + [u] + a[q..]
  {
  }

  lemma AppendSame(a: seq<Unit>, b: seq<Unit>, u: Unit)
    ensures a + [u] == b + [u] <==> a == b
  {
    if a + [u] == b + [u] {
      SameFront(a, b, [u]);
    }
  }

  /** Emits the units of a replacement, which fit. */
  method EmitAll(cls: Classes, out: array<Unit>, n0: nat, start0: int, max0: nat, repl: seq<Unit>, ghost w: seq<Unit>)
    returns (start: int, max: nat)
    requires n0 + |repl| <= out.Length && |w| == n0 && Ordered(cls, w, out[..n0], start0, max0)
    modifies out
    ensures Ordered(cls, w + repl, out[..n0 + |repl|], start, max)
  {
    hide Ordered;
    start, max := start0, max0;
    var k := 0;
    assert w + repl[..0] == w;
    while k < |repl|
      invariant 0 <= k <= |repl| && Ordered(cls, w + repl[..k], out[..n0 + k], start, max)
    {
      var reordered;
      assert w + repl[..k] + [repl[k]] == w + repl[..k + 1];
      start, max, reordered := Emit(cls, out, n0 + k, start, max, repl[k], w + repl[..k]);
      k := k + 1;
    }
    assert repl[..k] == repl;
  }

  /** The piece at the front of the rest of a cut. */
  lemma CutStep(act: Table, s: seq<Unit>, rest: seq<Piece>, p: Piece, w: seq<Unit>)
    requires IsCut(act, s, rest) && PieceAt(act, s, p)
    ensures rest != [] && IsCut(act, s[|p.from|..], rest[1..])
    ensures w + Joined(rest) == w + p.to + Joined(rest[1..])
    ensures AnyChanged(rest) <==> p.changed || AnyChanged(rest[1..])
  {
    PieceUnique(act, s, p, rest[0]);
    var t := rest[1..];
    assert rest == [p] + t;
    if AnyChanged(t) {
      var i :| 0 <= i < |t| && t[i].changed;
      assert rest[i + 1] == t[i];
    }
  }

  /** The switch over the action found for the unit at `i`: whether it applies, how many
      units it consumes, and what is to be copied to the output. */
  method Switch(act: Table, name: seq<Unit>, i: nat) returns (hit: bool, count: nat, repl: seq<Unit>)
    requires i < |name|
    ensures i + count <= |name| && PieceAt(act, name[i..], Piece(name[i..i + count], repl, hit))
    ensures !hit ==> count == 1 && repl == [name[i]]
  {
    hit, count, repl := false, 1, [name[i]];
    ghost var s := name[i..];
    match act(name[i]) {
      case None =>
      case Some(ReplaceCurWithTwo(a, b)) =>
        hit, repl := true, [a, b];
      case Some(ReplaceCurWithThree(a, b, c)) =>
        hit, repl := true, [a, b, c];
      case Some(IfNextOneMatchesReplaceAllWithOne(n, a)) =>
        if i + 1 < |name| && name[i + 1] == n {
          hit, count, repl := true, 2, [a];
        }
      case Some(IfNextOneMatchesReplaceAllWithTwo(n, a, b)) =>
        if i + 1 < |name| && name[i + 1] == n {
          hit, count, repl := true, 2, [a, b];
        }
      case Some(IfNextTwoMatchReplaceAllWithOne(n, n2, a)) =>
        if i + 2 < |name| && name[i + 1] == n && name[i + 2] == n2 {
          hit, count, repl := true, 3, [a];
        }
    }
    assert name[i..i + count] <= s;
  }

  /** The name is rewritten in one pass.  The result is exactly "substitute, then
      order" whenever that fits in a name, and the return value tells whether it fits
      and differs in substance from the input. */
  method Fix(cls: Classes, act: Table, name: seq<Unit>, out: array<Unit>) returns (did: bool, length: nat)
    requires out.Length == MAX_NAME
    modifies out
    ensures |Subst(act, name)| <= MAX_NAME ==> out[..|Subst(act, name)|] == Canon(cls, Subst(act, name))
    ensures did <==> && |Subst(act, name)| <= MAX_NAME
                     && (AnyChanged(Cut(act, name)) || Canon(cls, Subst(act, name)) != Subst(act, name))
    ensures did ==> length == |Subst(act, name)|
  {
    hide Canon, TailRun, Joined, AnyChanged, IsCut, PieceAt, Cut, Ordered;
    var i, n, start, max := 0, 0, -1, 0;
    did, length := false, 0;
    ghost var w: seq<Unit>, hits, rest := [], false, Cut(act, name);
    StartEmpty(cls, out[..0]);
    assert name[0..] == name && w + Joined(rest) == Joined(rest);
    while i < |name|
      invariant 0 <= i <= |name| && |w| == n <= MAX_NAME
      invariant Ordered(cls, w, out[..n], start, max)
      invariant IsCut(act, name[i..], rest) && Subst(act, name) == w + Joined(rest)
      invariant AnyChanged(Cut(act, name)) <==> hits || AnyChanged(rest)
      invariant did <==> hits || out[..n] != w
      decreases |name| - i
    {
      var hit, count, repl := Switch(act, name, i);
      ghost var p := Piece(name[i..i + count], repl, hit);
      PieceSize(act, name[i..], p);
      CutStep(act, name[i..], rest, p, w);
      assert name[i..][count..] == name[i + count..];
      if n + |repl| > MAX_NAME {
        return false, 0;
      }
      if hit {
        start, max := EmitAll(cls, out, n, start, max, repl, w);
        did, hits := true, true;
      } else {
        var reordered;
        AppendSame(out[..n], w, name[i]);
        start, max, reordered := Emit(cls, out, n, start, max, name[i], w);
        did := did || reordered;
      }
      w := w + repl;
      n := n + |repl|;
      i := i + count;
      rest := rest[1..];
    }
    EndOfCut(act, name[i..], rest);
    OrderedIs(cls, w, out[..n], start, max);
    assert w + [] == w;
    if did {
      length := n;
    }
  }

  lemma PieceSize(act: Table, s: seq<Unit>, p: Piece)
    requires PieceAt(act, s, p)
    ensures 1 <= |p.from| <= 3
  {
  }

  lemma OrderedIs(cls: Classes, w: seq<Unit>, out: seq<Unit>, start: int, max: nat)
    requires Ordered(cls, w, out, start, max)
    ensures out == Canon(cls, w)
  {
  }

  lemma StartEmpty(cls: Classes, empty: seq<Unit>)
    requires empty == []
    ensures Ordered(cls, [], empty, -1, 0)
  {
  }

  lemma EndOfCut(act: Table, s: seq<Unit>, rest: seq<Piece>)
    requires s == [] && IsCut(act, s, rest)
    ensures rest == [] && Joined(rest) == [] && !AnyChanged(rest)
  {
  }
}
