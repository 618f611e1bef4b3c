/** The open-addressing table that collects the hard links of every inode
    (src/fsck_hfs/dfalib/HardLinkCheck.c:713-753, 1277-1332). */
module LinkTable {
  import opened Lists
  import opened HardLinks
  import Blocks

  /** struct IndirectLinkInfo; `init` is the flag LINKINFO_INIT. */
  datatype Slot = Slot(init: bool, linkID: nat, linkCount: nat, list: seq<Link>)

  const EMPTY := Slot(false, 0, 0, [])

  /** Bitwise and. */
  function And(x: nat, m: nat): (r: nat)
    ensures r <= m
  {
    if m == 0 then 0 else 2 * And(x / 2, m / 2) + (x % 2) * (m % 2)
  }

  function Home(id: nat, n: nat): (h: nat)
    requires n > 0
    ensures h < n
  {
    And(id, n - 1)
  }

  /** The slot `d` places after `h`, wrapping around. */
  function Pos(h: nat, d: nat, n: nat): (p: nat)
    requires h < n && d < n
    ensures p < n
  {
    if h + d < n then h + d else h + d - n
  }

  /** The remainder of C, which has the sign of the dividend. */
  function CRem(a: int, n: nat): int
    requires n > 0
  {
    if a >= 0 then a % n else -((-a) % n)
  }

  lemma WrapIsPos(h: nat, d: nat, n: nat)
    requires h < n && d < n
    ensures (h + d) % n == Pos(h, d, n)
  {
    if h + d >= n {
      assert h + d == n + (h + d - n);
      Blocks.QuotientUnique(n, h + d, 1, h + d - n);
    }
  }

  // ---- The invariant of the table ----

  /** The keys, in order of insertion, with the slot of each and its distance from home. */
  datatype Entries = Entries(keys: seq<nat>, at: seq<nat>, dist: seq<nat>)

  ghost predicate Shape(n: nat, e: Entries) {
    && n > 0 && |e.at| == |e.keys| == |e.dist| && NoDup(e.keys)
    && (forall j :: 0 <= j < |e.keys| ==> e.dist[j] < n && e.at[j] < n && e.at[j] == Pos(Home(e.keys[j], n), e.dist[j], n))
  }

  /** Every slot between a key's home and the key's own slot is in use. */
  ghost predicate Reached(tab: seq<Slot>, key: nat, dist: nat)
    requires 0 < |tab| && dist < |tab|
  {
    forall d :: 0 <= d < dist ==> tab[Pos(Home(key, |tab|), d, |tab|)].init
  }

  ghost predicate Table(tab: seq<Slot>, e: Entries) {
    && Shape(|tab|, e)
    && (forall j :: 0 <= j < |e.keys| ==> tab[e.at[j]].init && tab[e.at[j]].linkID == e.keys[j])
    && (forall j :: 0 <= j < |e.keys| ==> Reached(tab, e.keys[j], e.dist[j]))
    && (forall p :: 0 <= p < |tab| && tab[p].init ==> p in e.at)
    && (forall p :: 0 <= p < |tab| && !tab[p].init ==> tab[p].list == [])
  }

  lemma SlotsApart(tab: seq<Slot>, e: Entries)
    requires Table(tab, e)
    ensures NoDup(e.at) && |e.keys| <= |tab|
    ensures |e.keys| == |tab| ==> forall p :: 0 <= p < |tab| ==> p in e.at
  {
    forall i, j | 0 <= i < j < |e.at| ensures e.at[i] != e.at[j] {
      assert e.keys[i] != e.keys[j];
    }
    Pigeonhole(e.at, |tab|);
  }

  /** The occupied slot `p` belongs to the key it names. */
  lemma OwnerOf(tab: seq<Slot>, e: Entries, p: nat) returns (j: nat)
    requires Table(tab, e) && p < |tab| && tab[p].init
    ensures j < |e.keys| && e.at[j] == p && tab[p].linkID == e.keys[j]
  {
    assert p in e.at;
    j :| 0 <= j < |e.at| && e.at[j] == p;
  }

  /** The first `m` positions of a probe. */
  ghost function Probe(h: nat, m: nat, n: nat): (s: seq<nat>)
    requires h < n && m <= n
    ensures |s| == m && NoDup(s) && forall d :: 0 <= d < m ==> s[d] == Pos(h, d, n) < n
  {
    seq(m, d requires 0 <= d < m => Pos(h, d, n))
  }

  /** If the first `m` slots of a probe are occupied there are at least `m` keys. */
  lemma ProbeCount(tab: seq<Slot>, e: Entries, h: nat, m: nat)
    requires Table(tab, e) && h < |tab| && m <= |tab|
    requires forall d :: 0 <= d < m ==> tab[Pos(h, d, |tab|)].init
    ensures m <= |e.keys|
  {
    SlotsApart(tab, e);
    var s := Probe(h, m, |tab|);
    DistinctCount(s);
    DistinctCount(e.at);
    forall x | x in Members(s) ensures x in Members(e.at) {
      var d :| 0 <= d < |s| && s[d] == x;
      assert tab[Pos(h, d, |tab|)].init;
    }
    SubsetCount(Members(s), Members(e.at));
  }

  /** The slots that a probe for `id` passes over: occupied, by other keys. */
  ghost predicate Passed(tab: seq<Slot>, id: nat, m: nat)
    requires 0 < |tab| && m <= |tab|
  {
    forall d :: 0 <= d < m ==> var s := tab[Pos(Home(id, |tab|), d, |tab|)]; s.init && s.linkID != id
  }

  /** Where key `j` is found: a probe passes over everything before it, and it lies
      within the shortened limit. */
  lemma FoundAt(tab: seq<Slot>, e: Entries, j: nat)
    requires Table(tab, e) && j < |e.keys|
    ensures e.dist[j] < |e.keys| && Passed(tab, e.keys[j], e.dist[j])
  {
    var n, h := |tab|, Home(e.keys[j], |tab|);
    assert Reached(tab, e.keys[j], e.dist[j]);
    forall d | 0 <= d <= e.dist[j] ensures tab[Pos(h, d, n)].init {}
    ProbeCount(tab, e, h, e.dist[j] + 1);
    forall d | 0 <= d < e.dist[j] ensures tab[Pos(h, d, n)].linkID != e.keys[j] {
      var i := OwnerOf(tab, e, Pos(h, d, n));
      assert i != j;
    }
  }

  /** A probe for a key stops no later than at that key. */
  lemma NotPast(tab: seq<Slot>, e: Entries, id: nat, m: nat, j: nat)
    requires Table(tab, e) && m < |tab| && Passed(tab, id, m) && j < |e.keys|
    ensures e.keys[j] == id ==> m <= e.dist[j] < |e.keys|
    ensures var s := tab[Pos(Home(id, |tab|), m, |tab|)];
            e.keys[j] == id ==> s.init && (s.linkID == id || m < e.dist[j])
  {
    FoundAt(tab, e, j);
    assert Reached(tab, e.keys[j], e.dist[j]);
  }

  /** What stopping at distance `m` says, when it was not the key that stopped the probe. */
  lemma Missed(tab: seq<Slot>, e: Entries, id: nat, m: nat)
    requires Table(tab, e) && m < |tab| && Passed(tab, id, m)
    requires var s := tab[Pos(Home(id, |tab|), m, |tab|)]; !s.init || (s.linkID != id && |e.keys| <= m + 1)
    ensures id !in e.keys
  {
    forall j | 0 <= j < |e.keys| ensures e.keys[j] != id {
      NotPast(tab, e, id, m, j);
    }
  }

  // ---- Search ----

  /** hash_search: the slot of `id`, or -1.  It looks at no more slots than are in use,
      and finds exactly the keys that were inserted. */
  method HashSearch(id: nat, slotsUsed: nat, tab: array<Slot>, ghost e: Entries) returns (r: int)
    requires Table(tab[..], e) && slotsUsed == |e.keys|
    ensures r == -1 || 0 <= r < tab.Length
    ensures r != -1 <==> id in e.keys
    ensures r != -1 ==> tab[r].init && tab[r].linkID == id
    ensures forall j :: 0 <= j < |e.keys| && e.keys[j] == id ==> r == e.at[j]
  {
    hide Table;
    var n := tab.Length;
    ghost var t := tab[..];
    assert n > 0 && slotsUsed <= n by { SlotsApart(t, e); assert Shape(|t|, e) by { TableShape(t, e); } }
    var h := Home(id, n);
    var i := h;
    var last := CRem(h + slotsUsed - 1, n);
    if slotsUsed > 0 { WrapIsPos(h, slotsUsed - 1, n); }
    ghost var d := 0;
    UnusedEmpty(t, e, h);
    while i != last && tab[i].init && tab[i].linkID != id
      invariant 0 <= d < n && i == Pos(h, d, n) && Passed(t, id, d) && (slotsUsed > 0 ==> d < slotsUsed)
      invariant d > 0 ==> slotsUsed > 0
      decreases n - d
    {
      WrapIsPos(h, slotsUsed - 1, n);
      NextPos(h, d, n);
      i := (i + 1) % n;
      d := d + 1;
    }
    if tab[i].init && tab[i].linkID == id {
      Owned(t, e, i);
      r := i;
    } else {
      Missed(t, e, id, d);
      r := -1;
    }
  }

  lemma TableShape(tab: seq<Slot>, e: Entries)
    requires Table(tab, e)
    ensures Shape(|tab|, e) && tab != []
  {
  }

  lemma UnusedEmpty(tab: seq<Slot>, e: Entries, p: nat)
    requires Table(tab, e) && p < |tab|
    ensures e.keys == [] ==> !tab[p].init
  {
  }

  lemma Owned(tab: seq<Slot>, e: Entries, p: nat)
    requires Table(tab, e) && p < |tab| && tab[p].init
    ensures tab[p].linkID in e.keys
    ensures forall j :: 0 <= j < |e.keys| && e.keys[j] == tab[p].linkID ==> e.at[j] == p
  {
    var i := OwnerOf(tab, e, p);
    forall j | 0 <= j < |e.keys| && e.keys[j] == tab[p].linkID ensures j == i {}
  }

  lemma NextPos(h: nat, d: nat, n: nat)
    requires h < n && d < n
    ensures d + 1 < n ==> (Pos(h, d, n) + 1) % n == Pos(h, d + 1, n)
  {
    if d + 1 < n {
      var p := Pos(h, d, n);
      if p + 1 == n { assert n % n == 0; } else { assert p + 1 < n; }
    }
  }

  // ---- Insertion ----

  /** How hash_insert ends: with the key in slot `slot`, or by leaving the program with
      status 13 (duplicate) or 14 (table full). */
  datatype Outcome = Inserted(slot: nat) | Exit(status: int)

  /** hash_insert: fails exactly for a key that is already there (13) and for a table
      without a free slot (14); otherwise adds the key with a link count of 1, and
      leaves every other slot alone. */
  method HashInsert(id: nat, slotsUsed: nat, tab: array<Slot>, ghost e: Entries) returns (r: Outcome, ghost e': Entries)
    requires Table(tab[..], e) && slotsUsed == |e.keys|
    modifies tab
    ensures r == Exit(13) <==> id in e.keys
    ensures r == Exit(14) <==> id !in e.keys && slotsUsed == tab.Length
    ensures r.Exit? ==> r.status in {13, 14} && tab[..] == old(tab[..]) && e' == e
    ensures r.Inserted? ==>
              && r.slot < tab.Length && r.slot !in e.at && !old(tab[r.slot]).init && old(tab[r.slot]).list == []
              && tab[..] == old(tab[..])[r.slot := Slot(true, id, 1, [])]
              && Table(tab[..], e') && e'.keys == e.keys + [id] && e'.at == e.at + [r.slot]
  {
    hide Table;
    var n := tab.Length;
    ghost var t := tab[..];
    TableShape(t, e);
    SlotsApart(t, e);
    var h := Home(id, n);
    var i := h;
    var last := (h + (n - 1)) % n;
    WrapIsPos(h, n - 1, n);
    ghost var d := 0;
    e' := e;
    while i != last && tab[i].init && tab[i].linkID != id
      invariant 0 <= d < n && i == Pos(h, d, n) && Passed(t, id, d) && tab[..] == t
      decreases n - d
    {
      NextPos(h, d, n);
      i := (i + 1) % n;
      d := d + 1;
    }
    if !tab[i].init {
      Missed(t, e, id, d);
      FreeSlot(t, e, i);
      e' := Entries(e.keys + [id], e.at + [i], e.dist + [d]);
      InsertOk(t, e, id, d);
      tab[i] := Slot(true, id, 1, tab[i].list);
      assert tab[..] == t[i := Slot(true, id, 1, [])];
      r := Inserted(i);
    } else if tab[i].linkID == id {
      Owned(t, e, i);
      r := Exit(13);
    } else {
      FullTable(t, e, id);
      r := Exit(14);
    }
  }

  lemma FreeSlot(tab: seq<Slot>, e: Entries, p: nat)
    requires Table(tab, e) && p < |tab| && !tab[p].init
    ensures tab[p].list == [] && p !in e.at && |e.keys| < |tab|
  {
    SlotsApart(tab, e);
    forall j | 0 <= j < |e.at| ensures e.at[j] != p { assert tab[e.at[j]].init; }
  }

  lemma InsertOk(tab: seq<Slot>, e: Entries, id: nat, d: nat)
    requires Table(tab, e) && d < |tab| && Passed(tab, id, d) && id !in e.keys
    requires !tab[Pos(Home(id, |tab|), d, |tab|)].init
    ensures var p := Pos(Home(id, |tab|), d, |tab|);
            Table(tab[p := Slot(true, id, 1, [])], Entries(e.keys + [id], e.at + [p], e.dist + [d]))
  {
    var p := Pos(Home(id, |tab|), d, |tab|);
    var tab' := tab[p := Slot(true, id, 1, [])];
    var e' := Entries(e.keys + [id], e.at + [p], e.dist + [d]);
    FreeSlot(tab, e, p);
    forall q | 0 <= q < |tab'| && tab'[q].init ensures q in e'.at {
      if q == p { assert e'.at[|e.at|] == p; } else { assert q in e.at; }
    }
    forall j | 0 <= j < |e'.keys| ensures Reached(tab', e'.keys[j], e'.dist[j]) {
      if j < |e.keys| { assert Reached(tab, e.keys[j], e.dist[j]); }
    }
    forall j | 0 <= j < |e'.keys| ensures tab'[e'.at[j]].init && tab'[e'.at[j]].linkID == e'.keys[j] {
      if j < |e.keys| { assert e.at[j] in e.at; }
    }
  }

  /** A probe past all other slots that finds them all taken: the table is full. */
  lemma FullTable(tab: seq<Slot>, e: Entries, id: nat)
    requires Table(tab, e) && Passed(tab, id, |tab| - 1)
    requires var s := tab[Pos(Home(id, |tab|), |tab| - 1, |tab|)]; s.init && s.linkID != id
    ensures id !in e.keys && |e.keys| == |tab|
  {
    var n := |tab|;
    SlotsApart(tab, e);
    assert Passed(tab, id, n);
    ProbeCount(tab, e, Home(id, n), n);
    Missed(tab, e, id, n - 1);
  }

  // ---- The pass over the catalog ----

  /** A hard link record: the inode it refers to, and the link itself. */
  datatype Rec = Rec(inode: nat, link: Link)

  /** The links to inode `id`, in the order of the catalog. */
  function LinksOf(recs: seq<Rec>, id: nat): seq<Link> {
    if recs == [] then []
    else LinksOf(recs[..|recs| - 1], id) + if recs[|recs| - 1].inode == id then [recs[|recs| - 1].link] else []
  }

  ghost function Inodes(recs: seq<Rec>): set<nat> {
    set r | r in recs :: r.inode
  }

  /** The table holds exactly the inodes of `recs`, each with its links and their count. */
  ghost predicate Holds(tab: seq<Slot>, e: Entries, recs: seq<Rec>) {
    && Table(tab, e)
    && (forall id :: id in e.keys <==> id in Inodes(recs))
    && (forall j :: 0 <= j < |e.keys| ==>
          tab[e.at[j]].list == LinksOf(recs, e.keys[j]) && tab[e.at[j]].linkCount == |tab[e.at[j]].list|)
  }

  lemma InodesMore(recs: seq<Rec>, r: Rec)
    ensures Inodes(recs + [r]) == Inodes(recs) + {r.inode}
    ensures forall id :: LinksOf(recs + [r], id) == LinksOf(recs, id) + if r.inode == id then [r.link] else []
  {
    assert (recs + [r])[..|recs|] == recs;
    assert (recs + [r])[|recs|] == r;
    forall i | i in Inodes(recs) ensures i in Inodes(recs + [r]) {
      var x :| x in recs && x.inode == i;
      assert x in recs + [r];
    }
    assert r in recs + [r];
    assert r.inode in Inodes(recs + [r]);
  }

  lemma {:induction false} NoLinks(recs: seq<Rec>, id: nat)
    requires id !in Inodes(recs)
    ensures LinksOf(recs, id) == []
  {
    if recs != [] {
      var init, r := recs[..|recs| - 1], recs[|recs| - 1];
      assert recs == init + [r];
      InodesMore(init, r);
      NoLinks(init, id);
    }
  }

  /** The probing invariant does not depend on counts and lists. */
  lemma PayloadOnly(tab: seq<Slot>, e: Entries, p: nat, s: Slot)
    requires Table(tab, e) && p < |tab| && tab[p].init && s.init && s.linkID == tab[p].linkID
    ensures Table(tab[p := s], e)
  {
    var tab' := tab[p := s];
    forall i | 0 <= i < |e.keys| ensures Reached(tab', e.keys[i], e.dist[i]) {
      assert Reached(tab, e.keys[i], e.dist[i]);
    }
  }

  /** Adding a link to the slot of an inode that is in the table. */
  lemma AppendOk(tab: seq<Slot>, e: Entries, recs: seq<Rec>, r: Rec, j: nat)
    requires Holds(tab, e, recs) && j < |e.keys| && e.keys[j] == r.inode
    ensures var s := tab[e.at[j]];
            Holds(tab[e.at[j] := Slot(true, s.linkID, s.linkCount + 1, s.list + [r.link])], e, recs + [r])
  {
    InodesMore(recs, r);
    SlotsApart(tab, e);
    var s := tab[e.at[j]];
    var tab' := tab[e.at[j] := Slot(true, s.linkID, s.linkCount + 1, s.list + [r.link])];
    PayloadOnly(tab, e, e.at[j], tab'[e.at[j]]);
  }

  /** A table to which a new inode was added, and then its first link. */
  lemma FirstOk(tab: seq<Slot>, e: Entries, recs: seq<Rec>, r: Rec, tab': seq<Slot>, e': Entries, p: nat)
    requires Holds(tab, e, recs) && r.inode !in e.keys && p < |tab| && p !in e.at
    requires tab' == tab[p := Slot(true, r.inode, 1, [])] && Table(tab', e')
    requires e'.keys == e.keys + [r.inode] && e'.at == e.at + [p]
    ensures Holds(tab'[p := Slot(true, r.inode, 1, [r.link])], e', recs + [r])
  {
    hide Table, Inodes, LinksOf;
    var tab'' := tab'[p := Slot(true, r.inode, 1, [r.link])];
    PayloadOnly(tab', e', p, tab''[p]);
    TableShape(tab, e);
    TableShape(tab', e');
    hide Shape;
    InodesMore(recs, r);
    NoLinks(recs, r.inode);
    forall j | 0 <= j < |e'.keys|
      ensures tab''[e'.at[j]].list == LinksOf(recs + [r], e'.keys[j]) && tab''[e'.at[j]].linkCount == |tab''[e'.at[j]].list|
    {
      FirstSlots(tab, e, recs, r, tab'', e', p, j);
    }
  }

  lemma FirstSlots(tab: seq<Slot>, e: Entries, recs: seq<Rec>, r: Rec, tab': seq<Slot>, e': Entries, p: nat, j: nat)
    requires Holds(tab, e, recs) && r.inode !in e.keys && p < |tab| && p !in e.at && Shape(|tab|, e')
    requires tab' == tab[p := Slot(true, r.inode, 1, [r.link])]
    requires e'.keys == e.keys + [r.inode] && e'.at == e.at + [p] && j < |e'.keys|
    ensures tab'[e'.at[j]].list == LinksOf(recs + [r], e'.keys[j]) && tab'[e'.at[j]].linkCount == |tab'[e'.at[j]].list|
  {
    hide LinksOf, Inodes, Reached;
    InodesMore(recs, r);
    if j < |e.keys| {
      assert e.at[j] in e.at && e.keys[j] in e.keys;
    } else {
      NoLinks(recs, r.inode);
    }
  }

  /** One hard link record: found inodes gain a link, new ones are inserted, and the
      search that follows the insertion always hits. */
  method AddLink(r: Rec, slotsUsed: nat, tab: array<Slot>, ghost recs: seq<Rec>, ghost e: Entries)
    returns (full: bool, used: nat, ghost e': Entries)
    requires Holds(tab[..], e, recs) && slotsUsed == |e.keys|
    modifies tab
    ensures full <==> slotsUsed == tab.Length && r.inode !in e.keys
    ensures !full ==> Holds(tab[..], e', recs + [r]) && used == |e'.keys|
  {
    hide Table, Reached, Shape;
    e' := e;
    used := slotsUsed;
    full := false;
    ghost var t := tab[..];
    assert Shape(|t|, e) by { TableShape(t, e); }
    ShapeLengths(|t|, e);
    var li := HashSearch(r.inode, slotsUsed, tab, e);
    if li != -1 {
      ghost var j :| 0 <= j < |e.keys| && e.keys[j] == r.inode;
      AppendOk(t, e, recs, r, j);
      tab[li] := Slot(true, tab[li].linkID, tab[li].linkCount + 1, tab[li].list + [r.link]);
      assert tab[..] == t[li := Slot(true, t[li].linkID, t[li].linkCount + 1, t[li].list + [r.link])];
    } else {
      var out;
      out, e' := HashInsert(r.inode, slotsUsed, tab, e);
      if out.Exit? {
        full := true;
        return;
      }
      used := slotsUsed + 1;
      ghost var p, t' := out.slot, tab[..];
      FirstOk(t, e, recs, r, t', e', p);
      li := HashSearch(r.inode, used, tab, e');
      TableShape(t', e');
      ShapeLengths(|t'|, e');
      assert e'.keys[|e.keys|] == r.inode && e'.at[|e.keys|] == p;
      tab[li] := tab[li].(list := tab[li].list + [r.link]);
      assert tab[..] == t'[p := Slot(true, r.inode, 1, [r.link])];
    }
  }

  lemma ShapeLengths(n: nat, e: Entries)
    requires Shape(n, e)
    ensures n > 0 && |e.at| == |e.keys| == |e.dist| && forall j :: 0 <= j < |e.at| ==> e.at[j] < n
  {
  }

  lemma EmptyTable(tab: seq<Slot>)
    requires tab != [] && forall p :: 0 <= p < |tab| ==> tab[p] == EMPTY
    ensures Holds(tab, Entries([], [], []), [])
  {
  }

  /** The whole pass: it gives up exactly when there are more inodes than slots, and
      otherwise the table holds every inode's links. */
  method Collect(recs: seq<Rec>, slots: nat) returns (tab: array<Slot>, full: bool, used: nat, ghost e: Entries)
    requires slots > 0
    ensures full <==> |Inodes(recs)| > slots
    ensures !full ==> Holds(tab[..], e, recs) && used == |Inodes(recs)| == |e.keys|
  {
    hide Holds, Inodes;
    tab := new Slot[slots](_ => EMPTY);
    used, full, e := 0, false, Entries([], [], []);
    EmptyTable(tab[..]);
    HoldsCount(tab[..], e, []);
    assert recs[..0] == [];
    var i := 0;
    while i < |recs|
      invariant 0 <= i <= |recs| && fresh(tab) && tab.Length == slots && Holds(tab[..], e, recs[..i])
      invariant used == |e.keys| == |Inodes(recs[..i])| <= slots
    {
      assert recs[..i + 1] == recs[..i] + [recs[i]];
      HoldsKeys(tab[..], e, recs[..i], recs[i].inode);
      var full', used';
      ghost var e', t := e, tab[..];
      full', used', e' := AddLink(recs[i], used, tab, recs[..i], e);
      if full' {
        TooMany(t, e, recs, i);
        full := true;
        return;
      }
      used, e := used', e';
      i := i + 1;
      HoldsCount(tab[..], e, recs[..i]);
    }
    assert recs[..i] == recs;
  }

  lemma HoldsKeys(tab: seq<Slot>, e: Entries, recs: seq<Rec>, id: nat)
    requires Holds(tab, e, recs)
    ensures id in e.keys <==> id in Inodes(recs)
  {
  }

  lemma HoldsCount(tab: seq<Slot>, e: Entries, recs: seq<Rec>)
    requires Holds(tab, e, recs)
    ensures |e.keys| == |Inodes(recs)| <= |tab|
  {
    SlotsApart(tab, e);
    DistinctCount(e.keys);
    assert Members(e.keys) == Inodes(recs);
  }

  lemma TooMany(tab: seq<Slot>, e: Entries, recs: seq<Rec>, i: nat)
    requires i < |recs| && Holds(tab, e, recs[..i]) && |e.keys| == |tab| && recs[i].inode !in e.keys
    ensures |Inodes(recs)| > |tab|
  {
    HoldsCount(tab, e, recs[..i]);
    HoldsKeys(tab, e, recs[..i], recs[i].inode);
    assert recs[i] in recs;
    var some: set<nat> := Inodes(recs[..i]) + {recs[i].inode};
    forall id | id in some ensures id in Inodes(recs) {
      if id != recs[i].inode {
        var x :| x in recs[..i] && x.inode == id;
        assert x in recs;
      }
    }
    SubsetCount(some, Inodes(recs));
  }

  /** The lookup of the second pass: an inode is found exactly when some link refers to
      it, and then with precisely its links, in catalog order, and their number. */
  method Lookup(id: nat, used: nat, tab: array<Slot>, ghost e: Entries, ghost recs: seq<Rec>) returns (r: int)
    requires Holds(tab[..], e, recs) && used == |e.keys|
    ensures r != -1 <==> LinksOf(recs, id) != []
    ensures r != -1 ==> 0 <= r < tab.Length && tab[r].list == LinksOf(recs, id) && tab[r].linkCount == |LinksOf(recs, id)|
  {
    hide Table;
    TableShape(tab[..], e);
    r := HashSearch(id, used, tab, e);
    if r == -1 {
      NoLinks(recs, id);
    } else {
      SomeLinks(recs, id);
    }
  }

  lemma {:induction false} SomeLinks(recs: seq<Rec>, id: nat)
    requires id in Inodes(recs)
    ensures LinksOf(recs, id) != []
  {
    var init, r := recs[..|recs| - 1], recs[|recs| - 1];
    if r.inode != id {
      assert recs == init + [r];
      InodesMore(init, r);
      SomeLinks(init, id);
    }
  }
}
