/** Verifying the folder counts of a catalog, in one pass with a hash table or by
    rescanning the catalog for every folder
    (src/fsck_hfs/dfalib/CatalogCheck.c:121-179, 199-302, 380-500). */
module FolderCounts {
  import opened Bytes
  import opened Lists
  import opened CatalogIDs

  const NumFolders := 257

  /** The records of the catalog.  The key of a record is a parent ID and a name; a
      thread's parent ID is the ID of the file or folder it belongs to, and its name is
      empty.  `dirLink` says that the flags and Finder info of a file are those of a
      directory hard link. */
  datatype CatalogRecord =
    | Folder(parentID: nat, folderID: nat, folderCount: nat)
    | File(parentID: nat, dirLink: bool)
    | Thread(parentID: nat)

  /** In key order: threads, with their empty names, come before everything else with
      their parent ID. */
  ghost predicate Sorted(cat: seq<CatalogRecord>) {
    forall i, j :: 0 <= i < j < |cat| ==>
      cat[i].parentID <= cat[j].parentID && (cat[j].Thread? ==> cat[i].parentID < cat[j].parentID)
  }

  /** Subfolders, and directory hard links outside the private directory of file links. */
  predicate Counts(r: CatalogRecord, priv: nat) {
    r.Folder? || (r.File? && r.dirLink && r.parentID != priv)
  }

  /** The number of subfolders of `id`. */
  function Children(cat: seq<CatalogRecord>, priv: nat, id: nat): nat {
    if cat == [] then 0
    else Children(cat[..|cat| - 1], priv, id)
         + if Counts(cat[|cat| - 1], priv) && cat[|cat| - 1].parentID == id then 1 else 0
  }

  /** The places of the folder records in `id`. */
  ghost function FoldersIn(cat: seq<CatalogRecord>, id: nat): set<int> {
    set i | 0 <= i < |cat| && cat[i].Folder? && cat[i].parentID == id
  }

  /** The places of the files in `id` that are directory hard links. */
  ghost function LinksIn(cat: seq<CatalogRecord>, id: nat): set<int> {
    set i | 0 <= i < |cat| && cat[i].File? && cat[i].parentID == id && cat[i].dirLink
  }

  /** A folder's subfolders are its folder records and, unless it is the private directory,
      its directory hard links. */
  lemma {:induction false} ChildrenAre(cat: seq<CatalogRecord>, priv: nat, id: nat)
    ensures Children(cat, priv, id) == |FoldersIn(cat, id)| + if id == priv then 0 else |LinksIn(cat, id)|
  {
    if cat != [] {
      ChildrenAre(cat[..|cat| - 1], priv, id);
    }
    hide FoldersIn, LinksIn;
    FoldersNext(cat, id);
    LinksNext(cat, id);
  }

  lemma FoldersNext(cat: seq<CatalogRecord>, id: nat)
    ensures |FoldersIn(cat, id)| == if cat == [] then 0
            else |FoldersIn(cat[..|cat| - 1], id)| + if cat[|cat| - 1].Folder? && cat[|cat| - 1].parentID == id then 1 else 0
  {
    if cat == [] {
      assert FoldersIn(cat, id) == {};
    } else {
      var n, init := |cat| - 1, FoldersIn(cat[..|cat| - 1], id);
      assert FoldersIn(cat, id) == if cat[n].Folder? && cat[n].parentID == id then init + {n} else init;
    }
  }

  lemma LinksNext(cat: seq<CatalogRecord>, id: nat)
    ensures |LinksIn(cat, id)| == if cat == [] then 0
            else |LinksIn(cat[..|cat| - 1], id)| + if cat[|cat| - 1].File? && cat[|cat| - 1].parentID == id && cat[|cat| - 1].dirLink then 1 else 0
  {
    if cat == [] {
      assert LinksIn(cat, id) == {};
    } else {
      var n, init := |cat| - 1, LinksIn(cat[..|cat| - 1], id);
      assert LinksIn(cat, id) == if cat[n].File? && cat[n].parentID == id && cat[n].dirLink then init + {n} else init;
    }
  }

  datatype Mismatch = Mismatch(folderID: nat, computed: nat, recorded: nat)

  /** The folders whose recorded count is wrong. */
  ghost function Mismatches(cat: seq<CatalogRecord>, priv: nat): set<Mismatch> {
    set r | r in cat && r.Folder? && U32(Children(cat, priv, r.folderID)) != r.folderCount
      :: Mismatch(r.folderID, U32(Children(cat, priv, r.folderID)), r.folderCount)
  }

  ghost predicate HasThread(cat: seq<CatalogRecord>, id: nat) {
    Thread(id) in cat
  }

  ghost predicate HasFolder(cat: seq<CatalogRecord>, id: nat) {
    exists r :: r in cat && r.Folder? && r.folderID == id
  }

  /** What a scan from its thread on finds of a folder: nothing if it has no thread. */
  ghost function Scanned(cat: seq<CatalogRecord>, priv: nat, id: nat): nat {
    if HasThread(cat, id) then U32(Children(cat, priv, id)) else 0
  }

  /** What scanning for every folder record reports. */
  ghost function RescanMismatches(cat: seq<CatalogRecord>, priv: nat): set<Mismatch> {
    set r | r in cat && r.Folder? && Scanned(cat, priv, r.folderID) != r.folderCount
      :: Mismatch(r.folderID, Scanned(cat, priv, r.folderID), r.folderCount)
  }

  /** In key order, with unique folder IDs; no ID or parent of a subfolder is zero. */
  ghost predicate Legible(cat: seq<CatalogRecord>, priv: nat) {
    && Sorted(cat)
    && (forall r :: r in cat && r.Folder? ==> r.folderID != 0)
    && UniqueIDs(cat)
    && (forall r :: r in cat && Counts(r, priv) ==> r.parentID != 0)
    && (forall r :: r in cat && r.Folder? ==> r.folderCount < 0x1_0000_0000)
  }

  /** Folder IDs are unique and not zero, every folder has a thread, and every parent but
      the root's has a folder record. */
  ghost predicate WellFormed(cat: seq<CatalogRecord>, priv: nat) {
    && Legible(cat, priv)
    && (forall r :: r in cat && r.Folder? ==> HasThread(cat, r.folderID))
    && (forall r :: r in cat && Counts(r, priv) && r.parentID != kHFSRootParentID ==> HasFolder(cat, r.parentID))
  }

  lemma ChildrenNext(cat: seq<CatalogRecord>, priv: nat, i: nat, id: nat)
    requires i < |cat|
    ensures Children(cat[..i + 1], priv, id) ==
            Children(cat[..i], priv, id) + if Counts(cat[i], priv) && cat[i].parentID == id then 1 else 0
  {
    assert cat[..i + 1][..i] == cat[..i];
  }

  lemma {:induction false} NoChildrenUpto(cat: seq<CatalogRecord>, priv: nat, i: nat, id: nat)
    requires i <= |cat| && forall k :: 0 <= k < i ==> cat[k].parentID != id || cat[k].Thread?
    ensures Children(cat[..i], priv, id) == 0
  {
    if i > 0 {
      NoChildrenUpto(cat, priv, i - 1, id);
      ChildrenNext(cat, priv, i - 1, id);
    }
  }

  lemma {:induction false} NoChildrenFrom(cat: seq<CatalogRecord>, priv: nat, i: nat, n: nat, id: nat)
    requires i <= n <= |cat| && forall k :: i <= k < n ==> cat[k].parentID != id
    ensures Children(cat[..n], priv, id) == Children(cat[..i], priv, id)
    decreases n - i
  {
    if i < n {
      NoChildrenFrom(cat, priv, i, n - 1, id);
      ChildrenNext(cat, priv, n - 1, id);
    }
  }

  // ---- The rescan ----

  /** The search for the key with this ID and an empty name. */
  method FindThread(cat: seq<CatalogRecord>, id: nat) returns (k: nat)
    ensures k <= |cat| && (k < |cat| ==> cat[k] == Thread(id))
    ensures k == |cat| ==> !HasThread(cat, id)
  {
    k := 0;
    while k < |cat| && cat[k] != Thread(id)
      invariant k <= |cat| && forall j :: 0 <= j < k ==> cat[j] != Thread(id)
    {
      k := k + 1;
    }
  }

  /** CountFolderRecords: the number of subfolders of a folder that has a thread, and
      whether it is the recorded one. */
  method CountFolderRecords(cat: seq<CatalogRecord>, priv: nat, folder: CatalogRecord) returns (reports: seq<Mismatch>)
    requires Sorted(cat) && folder.Folder?
    ensures var n := if HasThread(cat, folder.folderID) then U32(Children(cat, priv, folder.folderID)) else 0;
            reports == if n != folder.folderCount then [Mismatch(folder.folderID, n, folder.folderCount)] else []
  {
    hide Children;
    var id := folder.folderID;
    var folderCount: nat := 0;
    var k := FindThread(cat, id);
    if k < |cat| {
      assert HasThread(cat, id);
      forall j | 0 <= j < k ensures cat[j].parentID != id {}
      NoChildrenUpto(cat, priv, k, id);
      var j := k;
      while j < |cat|
        invariant k <= j <= |cat| && folderCount == U32(Children(cat[..j], priv, id))
      {
        ChildrenNext(cat, priv, j, id);
        if cat[j].Thread? {
          j := j + 1;
          continue;
        }
        if cat[j].parentID != id {
          break;
        }
        if Counts(cat[j], priv) {
          folderCount := U32(folderCount + 1);
        }
        j := j + 1;
      }
      Contiguous(cat, id, k, j);
      NoChildrenFrom(cat, priv, j, |cat|, id);
      assert cat[..|cat|] == cat;
    }
    reports := if folderCount != folder.folderCount then [Mismatch(id, folderCount, folder.folderCount)] else [];
  }

  /** After the first record that is neither a thread nor in the folder, none is. */
  lemma Contiguous(cat: seq<CatalogRecord>, id: nat, k: nat, j: nat)
    requires Sorted(cat) && k <= j <= |cat| && k < |cat| && cat[k] == Thread(id)
    requires j < |cat| ==> !cat[j].Thread? && cat[j].parentID != id
    ensures forall i :: j <= i < |cat| ==> cat[i].parentID != id
  {
    forall i | j <= i < |cat| ensures cat[i].parentID != id {
      assert k < j && cat[k].parentID <= cat[j].parentID;
      assert j < i ==> cat[j].parentID <= cat[i].parentID;
    }
  }

  ghost function Reported(s: seq<Mismatch>): set<Mismatch> {
    set m | m in s
  }

  lemma ReportedMore(s: seq<Mismatch>, t: seq<Mismatch>)
    ensures Reported(s + t) == Reported(s) + Reported(t)
  {
  }

  /** What scanning for the first `i` records reports. */
  ghost function MismatchesUpto(cat: seq<CatalogRecord>, priv: nat, i: nat): set<Mismatch>
    requires i <= |cat|
  {
    set r | r in cat[..i] && r.Folder? && Scanned(cat, priv, r.folderID) != r.folderCount
      :: Mismatch(r.folderID, Scanned(cat, priv, r.folderID), r.folderCount)
  }

  lemma MismatchesNext(cat: seq<CatalogRecord>, priv: nat, i: nat)
    requires i < |cat|
    ensures MismatchesUpto(cat, priv, i + 1) == MismatchesUpto(cat, priv, i) +
              if cat[i].Folder? && Scanned(cat, priv, cat[i].folderID) != cat[i].folderCount
              then {Mismatch(cat[i].folderID, Scanned(cat, priv, cat[i].folderID), cat[i].folderCount)} else {}
  {
    hide Scanned;
    assert cat[..i + 1] == cat[..i] + [cat[i]];
  }

  /** The slow method: every folder is reported whose count is not what a scan from its
      thread on finds. */
  method Rescan(cat: seq<CatalogRecord>, priv: nat) returns (reports: seq<Mismatch>)
    requires Sorted(cat)
    ensures Reported(reports) == RescanMismatches(cat, priv)
    ensures UniqueIDs(cat) ==> NoDup(reports)
  {
    hide MismatchesUpto, RescanMismatches, Reported, Sorted, Children, U32, HasThread, NoDup, UniqueIDs;
    reports := [];
    NoDupNone();
    assert Reported([]) == MismatchesUpto(cat, priv, 0) by { NoMismatches(cat, priv); }
    var i := 0;
    while i < |cat|
      invariant 0 <= i <= |cat| && Reported(reports) == MismatchesUpto(cat, priv, i)
      invariant UniqueIDs(cat) ==> NoDup(reports)
    {
      MismatchesNext(cat, priv, i);
      if cat[i].Folder? {
        var more := CountFolderRecords(cat, priv, cat[i]);
        if UniqueIDs(cat) {
          if more != [] { FreshScan(cat, priv, i, more[0]); }
          NoDupMore(reports, more);
        }
        ReportedMore(reports, more);
        ReportedOne(more);
        reports := reports + more;
      }
      i := i + 1;
    }
    assert RescanMismatches(cat, priv) == MismatchesUpto(cat, priv, |cat|) by { AllMismatches(cat, priv); }
  }

  ghost predicate UniqueIDs(cat: seq<CatalogRecord>) {
    forall i, j :: 0 <= i < j < |cat| && cat[i].Folder? && cat[j].Folder? ==> cat[i].folderID != cat[j].folderID
  }

  lemma NoDupNone()
    ensures NoDup<Mismatch>([])
  {
  }

  lemma NoDupMore(s: seq<Mismatch>, t: seq<Mismatch>)
    requires NoDup(s) && |t| <= 1 && (t != [] ==> t[0] !in Reported(s))
    ensures NoDup(s + t)
  {
  }

  /** With unique IDs no folder is reported twice. */
  lemma FreshScan(cat: seq<CatalogRecord>, priv: nat, i: nat, x: Mismatch)
    requires UniqueIDs(cat) && i < |cat| && cat[i].Folder? && x.folderID == cat[i].folderID
    ensures x !in MismatchesUpto(cat, priv, i)
  {
    hide Scanned;
    forall r | r in cat[..i] && r.Folder? ensures r.folderID != x.folderID {
      var j :| 0 <= j < i && cat[..i][j] == r;
      assert cat[j] == r;
    }
  }

  lemma NoMismatches(cat: seq<CatalogRecord>, priv: nat)
    ensures Reported([]) == MismatchesUpto(cat, priv, 0)
  {
  }

  lemma AllMismatches(cat: seq<CatalogRecord>, priv: nat)
    ensures RescanMismatches(cat, priv) == MismatchesUpto(cat, priv, |cat|)
  {
    assert cat[..|cat|] == cat;
  }

  lemma ReportedOne(s: seq<Mismatch>)
    ensures s == [] ==> Reported(s) == {}
    ensures |s| == 1 ==> Reported(s) == {s[0]}
  {
  }

  // ---- The hash table ----

  /** struct folderCountInfo; a bucket is the chain from its first entry, which is there
      from the start, with ID 0 until it is used. */
  datatype Entry = Entry(folderID: nat, recorded: nat, computed: nat)

  type Table = map<nat, Entry>

  const EMPTY := Entry(0, 0, 0)

  ghost predicate Chain(c: seq<Entry>, h: nat, m: Table) {
    && c != []
    && (forall k :: 0 <= k < |c| && c[k].folderID == 0 ==> |c| == 1 && c[k] == EMPTY)
    && (forall k :: 0 <= k < |c| && c[k].folderID != 0 ==>
          c[k].folderID in m && m[c[k].folderID] == c[k] && c[k].folderID % NumFolders == h)
    && (forall k, l :: 0 <= k < l < |c| ==> c[k].folderID != c[l].folderID)
    && (forall id :: id in m && id % NumFolders == h ==> InChain(c, id))
  }

  ghost predicate InChain(c: seq<Entry>, id: nat) {
    exists k :: 0 <= k < |c| && c[k].folderID == id
  }

  /** The buckets hold exactly the entries of `m`. */
  ghost predicate Holds(b: seq<seq<Entry>>, m: Table) {
    |b| == NumFolders && 0 !in m && forall h :: 0 <= h < NumFolders ==> Chain(b[h], h, m)
  }

  /** Changing or adding the entry of one ID only concerns its own bucket. */
  lemma HoldsUpdate(b: seq<seq<Entry>>, m: Table, id: nat, c: seq<Entry>, e: Entry)
    requires Holds(b, m) && id != 0 && Chain(c, id % NumFolders, m[id := e])
    ensures Holds(b[id % NumFolders := c], m[id := e])
  {
    var m', b' := m[id := e], b[id % NumFolders := c];
    forall h | 0 <= h < NumFolders ensures Chain(b'[h], h, m') {
      if h != id % NumFolders { ChainOther(b[h], h, m, id, e); }
    }
  }

  lemma ChainOther(c: seq<Entry>, h: nat, m: Table, id: nat, e: Entry)
    requires Chain(c, h, m) && id % NumFolders != h
    ensures Chain(c, h, m[id := e])
  {
    var m' := m[id := e];
    forall k | 0 <= k < |c| && c[k].folderID != 0 ensures c[k].folderID in m' && m'[c[k].folderID] == c[k] {
      assert c[k].folderID % NumFolders == h;
    }
  }

  /** findFolderEntry: the place of an ID in its bucket, if it has an entry.  An ID of 0
      finds the first entry of bucket 0 while that is unused. */
  method FindFolderEntry(fcip: array<seq<Entry>>, fid: nat, ghost m: Table) returns (pos: int)
    requires Holds(fcip[..], m)
    ensures pos == -1 || 0 <= pos < |fcip[..][fid % NumFolders]|
    ensures fid != 0 ==> (pos == -1 <==> fid !in m)
    ensures fid != 0 && pos != -1 ==> fcip[..][fid % NumFolders][pos] == m[fid] && m[fid].folderID == fid
    ensures fid == 0 ==> (pos == -1 <==> fcip[..][0] != [EMPTY]) && (pos != -1 ==> pos == 0)
  {
    var indx := fid % NumFolders;
    var c := fcip[indx];
    assert c == fcip[..][indx];
    HoldsChain(fcip[..], m, indx);
    hide *;
    ChainFind(c, indx, m, fid);
    pos := 0;
    while pos < |c|
      invariant 0 <= pos <= |c| && forall k :: 0 <= k < pos ==> c[k].folderID != fid
    {
      if c[pos].folderID == fid {
        return;
      }
      pos := pos + 1;
    }
    pos := -1;
  }

  lemma HoldsChain(b: seq<seq<Entry>>, m: Table, h: nat)
    requires Holds(b, m) && h < NumFolders
    ensures Chain(b[h], h, m)
  {
  }

  lemma ChainFind(c: seq<Entry>, h: nat, m: Table, fid: nat)
    requires Chain(c, h, m) && fid % NumFolders == h
    ensures fid != 0 ==> forall k :: 0 <= k < |c| && c[k].folderID == fid ==> fid in m && m[fid] == c[k]
    ensures fid != 0 && fid in m ==> exists k :: 0 <= k < |c| && c[k].folderID == fid
    ensures fid == 0 ==> forall k :: 0 <= k < |c| && c[k].folderID == 0 ==> k == 0 && c == [EMPTY]
    ensures c != [] && (c == [EMPTY] ==> c[0].folderID == 0)
  {
    if fid != 0 && fid in m { assert InChain(c, fid); }
  }

  /** addFolderEntry, for an ID that is not in the table; a new node is needed when the
      first entry of the bucket is in use, and may not be had. */
  method AddFolderEntry(fcip: array<seq<Entry>>, fid: nat, canAlloc: bool, ghost m: Table) returns (pos: int)
    requires Holds(fcip[..], m) && fid != 0 && fid !in m
    modifies fcip
    ensures pos == -1 ==> !canAlloc && fcip[..] == old(fcip[..])
    ensures pos != -1 ==> Holds(fcip[..], m[fid := Entry(fid, 0, 0)]) && 0 <= pos < |fcip[fid % NumFolders]|
                          && fcip[fid % NumFolders][pos] == Entry(fid, 0, 0)
  {
    var indx := fid % NumFolders;
    ghost var b := fcip[..];
    var c := fcip[indx];
    assert c == b[indx];
    HoldsChain(b, m, indx);
    assert 0 !in m;
    hide Holds, Chain;
    ChainFirst(c, indx, m, fid);
    pos := 0;
    while c[pos].folderID != 0
      invariant 0 <= pos < |c| && fcip[..] == b && (pos > 0 ==> c[0].folderID != 0)
      decreases |c| - pos
    {
      if pos + 1 == |c| {
        if !canAlloc {
          return -1;
        }
        ChainAppend(c, indx, m, fid);
        HoldsUpdate(b, m, fid, c + [Entry(fid, 0, 0)], Entry(fid, 0, 0));
        fcip[indx] := c + [Entry(fid, 0, 0)];
        assert fcip[..] == b[indx := c + [Entry(fid, 0, 0)]];
        return pos + 1;
      }
      pos := pos + 1;
    }
    ChainSet(c, indx, m, fid, pos);
    var c' := c[pos := c[pos].(folderID := fid)];
    HoldsUpdate(b, m, fid, c', Entry(fid, 0, 0));
    fcip[indx] := c';
    assert fcip[..] == b[indx := c'];
  }

  lemma ChainFirst(c: seq<Entry>, h: nat, m: Table, fid: nat)
    requires Chain(c, h, m)
    ensures c != []
  {
  }

  lemma ChainAppend(c: seq<Entry>, h: nat, m: Table, fid: nat)
    requires Chain(c, h, m) && fid !in m && fid != 0 && fid % NumFolders == h && c[|c| - 1].folderID != 0
    ensures Chain(c + [Entry(fid, 0, 0)], h, m[fid := Entry(fid, 0, 0)])
  {
    var c', m' := c + [Entry(fid, 0, 0)], m[fid := Entry(fid, 0, 0)];
    forall k, l | 0 <= k < l < |c'| ensures c'[k].folderID != c'[l].folderID {
      if l == |c| { assert c[k].folderID != 0; }
    }
    forall id | id in m' && id % NumFolders == h ensures InChain(c', id) {
      if id == fid {
        assert c'[|c|].folderID == id;
      } else {
        assert InChain(c, id);
        var k :| 0 <= k < |c| && c[k].folderID == id;
        assert c'[k].folderID == id;
      }
    }
  }

  lemma ChainSet(c: seq<Entry>, h: nat, m: Table, fid: nat, pos: nat)
    requires Chain(c, h, m) && 0 !in m && fid !in m && fid != 0 && fid % NumFolders == h && pos < |c| && c[pos].folderID == 0
    ensures c[pos] == EMPTY && Chain(c[pos := Entry(fid, 0, 0)], h, m[fid := Entry(fid, 0, 0)])
  {
    var c', m' := c[pos := Entry(fid, 0, 0)], m[fid := Entry(fid, 0, 0)];
    assert c'[0].folderID == fid;
    forall id | id in m' && id % NumFolders == h ensures InChain(c', id) {
      assert id in m && id % NumFolders == h ==> InChain(c, id);
    }
  }

  /** Storing counts in the entry at `pos`. */
  method Store(fcip: array<seq<Entry>>, fid: nat, pos: nat, e: Entry, ghost m: Table)
    requires Holds(fcip[..], m) && fid != 0 && fid in m && pos < |fcip[fid % NumFolders]|
    requires fcip[fid % NumFolders][pos] == m[fid] && m[fid].folderID == fid == e.folderID
    modifies fcip
    ensures Holds(fcip[..], m[fid := e])
  {
    var indx := fid % NumFolders;
    ghost var b, c := fcip[..], fcip[indx];
    assert c == b[indx];
    HoldsChain(b, m, indx);
    ChainStore(c, indx, m, fid, pos, e);
    HoldsUpdate(b, m, fid, c[pos := e], e);
    hide Holds, Chain;
    fcip[indx] := fcip[indx][pos := e];
    assert fcip[..] == b[indx := c[pos := e]];
  }

  lemma ChainStore(c: seq<Entry>, h: nat, m: Table, fid: nat, pos: nat, e: Entry)
    requires Chain(c, h, m) && fid in m && fid != 0 && fid % NumFolders == h && pos < |c| && c[pos] == m[fid]
    requires c[pos].folderID == fid == e.folderID
    ensures Chain(c[pos := e], h, m[fid := e])
  {
    var c', m' := c[pos := e], m[fid := e];
    forall id | id in m' && id % NumFolders == h ensures InChain(c', id) {
      assert InChain(c, id);
      var k :| 0 <= k < |c| && c[k].folderID == id;
      assert c'[k].folderID == id;
    }
  }

  // ---- The single pass ----

  /** A known ID has an entry; an unknown one gets an empty one. */
  function Known(m: Table, id: nat): Entry {
    if id in m then m[id] else Entry(id, 0, 0)
  }

  /** What folderCountAdd does to the table. */
  function Recording(m: Table, folderID: nat, count: nat): Table {
    if folderID == 0 then m else m[folderID := Known(m, folderID).(recorded := count)]
  }

  function Counting(m: Table, parentID: nat): Table {
    m[parentID := Known(m, parentID).(computed := U32(Known(m, parentID).computed + 1))]
  }

  ghost predicate Named(m: Table) {
    forall id :: id in m ==> m[id].folderID == id
  }

  /** Finds the entry of an ID, or adds one. */
  method Entered(fcip: array<seq<Entry>>, fid: nat, mem: nat, ghost m: Table) returns (pos: int, mem': nat, ghost m': Table)
    requires fcip.Length == NumFolders && Holds(fcip[..], m) && Named(m) && fid != 0
    modifies fcip
    ensures mem' + 1 >= mem && (pos == -1 ==> mem == 0)
    ensures pos != -1 ==> m' == m[fid := Known(m, fid)] && Holds(fcip[..], m')
                          && 0 <= pos < |fcip[fid % NumFolders]| && fcip[fid % NumFolders][pos] == m'[fid]
  {
    hide Holds;
    m', mem' := m[fid := Known(m, fid)], mem;
    pos := FindFolderEntry(fcip, fid, m);
    if pos == -1 {
      pos := AddFolderEntry(fcip, fid, mem > 0, m);
      if mem > 0 { mem' := mem - 1; }
    } else {
      assert m' == m;
    }
  }

  /** folderCountAdd: fails only for want of memory. */
  method FolderCountAdd(fcip: array<seq<Entry>>, parentID: nat, folderID: nat, count: nat, mem: nat, ghost m: Table)
    returns (ok: bool, mem': nat, ghost m': Table)
    requires fcip.Length == NumFolders && Holds(fcip[..], m) && Named(m) && parentID != 0
    modifies fcip
    ensures mem' + 2 >= mem && (!ok ==> mem < 2)
    ensures ok ==> m' == Counting(Recording(m, folderID, count), parentID) && Holds(fcip[..], m') && Named(m')
  {
    hide Holds, U32;
    m', mem' := m, mem;
    var pos;
    if folderID != 0 {
      pos, mem', m' := Entered(fcip, folderID, mem', m');
      if pos == -1 {
        return false, mem', m';
      }
      var e := fcip[folderID % NumFolders][pos].(recorded := count);
      Store(fcip, folderID, pos, e, m');
      m' := m'[folderID := e];
    }
    assert m' == Recording(m, folderID, count);
    ghost var m1 := m';
    pos, mem', m' := Entered(fcip, parentID, mem', m');
    if pos == -1 {
      return false, mem', m';
    }
    var e := fcip[parentID % NumFolders][pos];
    e := e.(computed := U32(e.computed + 1));
    Store(fcip, parentID, pos, e, m');
    m' := m'[parentID := e];
    assert m' == Counting(m1, parentID);
    ok := true;
  }

  /** The count that the folder record of `id`, if any, holds. */
  function RecordedIn(cat: seq<CatalogRecord>, id: nat): nat {
    if cat == [] then 0
    else
      var r := cat[|cat| - 1];
      if r.Folder? && r.folderID == id then r.folderCount else RecordedIn(cat[..|cat| - 1], id)
  }

  ghost predicate Seen(cat: seq<CatalogRecord>, priv: nat, id: nat) {
    exists r :: r in cat && ((r.Folder? && r.folderID == id) || (Counts(r, priv) && r.parentID == id))
  }

  /** The table after a part of the catalog. */
  ghost predicate Summary(m: Table, cat: seq<CatalogRecord>, priv: nat) {
    && (forall id :: id in m <==> Seen(cat, priv, id))
    && (forall id :: id in m ==> m[id] == Entry(id, RecordedIn(cat, id), U32(Children(cat, priv, id))))
  }

  lemma {:induction false} Unseen(cat: seq<CatalogRecord>, priv: nat, id: nat)
    requires !Seen(cat, priv, id)
    ensures RecordedIn(cat, id) == 0 && Children(cat, priv, id) == 0
  {
    if cat != [] {
      var init, r := cat[..|cat| - 1], cat[|cat| - 1];
      assert r in cat;
      assert forall x :: x in init ==> x in cat;
      Unseen(init, priv, id);
    }
  }

  lemma SeenNext(cat: seq<CatalogRecord>, priv: nat, r: CatalogRecord, id: nat)
    ensures Seen(cat + [r], priv, id) <==> Seen(cat, priv, id) || (r.Folder? && r.folderID == id) || (Counts(r, priv) && r.parentID == id)
    ensures RecordedIn(cat + [r], id) == if r.Folder? && r.folderID == id then r.folderCount else RecordedIn(cat, id)
    ensures Children(cat + [r], priv, id) == Children(cat, priv, id) + if Counts(r, priv) && r.parentID == id then 1 else 0
  {
    var t := cat + [r];
    assert t[..|t| - 1] == cat && t[|cat|] == r;
    assert r in t;
    if Seen(cat, priv, id) {
      var x :| x in cat && ((x.Folder? && x.folderID == id) || (Counts(x, priv) && x.parentID == id));
      assert x in t;
    }
  }

  /** The entry an ID has, or would have. */
  lemma KnownIs(m: Table, cat: seq<CatalogRecord>, priv: nat, id: nat)
    requires Summary(m, cat, priv)
    ensures Known(m, id) == Entry(id, RecordedIn(cat, id), U32(Children(cat, priv, id)))
  {
    if id !in m { Unseen(cat, priv, id); }
  }

  lemma WrapNext(n: nat)
    ensures U32(U32(n) + 1) == U32(n + 1)
  {
  }

  /** One record: what folderCountAdd does is what the record adds to the summary. */
  lemma SummaryNext(m: Table, cat: seq<CatalogRecord>, priv: nat, r: CatalogRecord)
    requires Summary(m, cat, priv) && Counts(r, priv) && (r.Folder? ==> r.folderID != 0)
    ensures Summary(Counting(Recording(m, if r.Folder? then r.folderID else 0, if r.Folder? then r.folderCount else 0), r.parentID), cat + [r], priv)
  {
    hide Seen, RecordedIn, Children, U32;
    var f, n := if r.Folder? then r.folderID else 0, if r.Folder? then r.folderCount else 0;
    var m1 := Recording(m, f, n);
    var m2 := Counting(m1, r.parentID);
    forall id
      ensures id in m2 <==> Seen(cat + [r], priv, id)
      ensures id in m2 ==> m2[id] == Entry(id, RecordedIn(cat + [r], id), U32(Children(cat + [r], priv, id)))
    {
      SeenNext(cat, priv, r, id);
      KnownIs(m, cat, priv, id);
      WrapNext(Children(cat, priv, id));
    }
  }

  lemma SummarySkip(m: Table, cat: seq<CatalogRecord>, priv: nat, r: CatalogRecord)
    requires Summary(m, cat, priv) && !Counts(r, priv)
    ensures Summary(m, cat + [r], priv)
  {
    hide Seen, RecordedIn, Children, U32;
    forall id
      ensures id in m <==> Seen(cat + [r], priv, id)
      ensures id in m ==> m[id] == Entry(id, RecordedIn(cat + [r], id), U32(Children(cat + [r], priv, id)))
    {
      SeenNext(cat, priv, r, id);
    }
  }

  /** What the table says is wrong: the entry of the root's parent is not looked at. */
  ghost function TableMismatches(m: Table): set<Mismatch> {
    set id | id in m && id != kHFSRootParentID && m[id].recorded != m[id].computed
      :: Mismatch(id, m[id].computed, m[id].recorded)
  }

  /** The IDs that the pass comes across: of folders, and of parents of subfolders. */
  ghost function SeenIDs(cat: seq<CatalogRecord>, priv: nat): (s: set<nat>)
    ensures forall id :: id in s <==> Seen(cat, priv, id)
  {
    (set r | r in cat && r.Folder? :: r.folderID) + (set r | r in cat && Counts(r, priv) :: r.parentID)
  }

  /** What the single pass reports: any ID it comes across, but that of the root's parent,
      whose subfolders are not as many as recorded, where an ID without a folder record
      counts as recorded with none. */
  ghost function PassMismatches(cat: seq<CatalogRecord>, priv: nat): set<Mismatch> {
    set id | id in SeenIDs(cat, priv) && id != kHFSRootParentID && RecordedIn(cat, id) != U32(Children(cat, priv, id))
      :: Mismatch(id, U32(Children(cat, priv, id)), RecordedIn(cat, id))
  }

  /** The wrong counts, except that of a folder with the ID of the root's parent. */
  ghost function MismatchesButRoot(cat: seq<CatalogRecord>, priv: nat): set<Mismatch> {
    set x | x in Mismatches(cat, priv) && x.folderID != kHFSRootParentID
  }

  lemma {:induction false} RecordedOf(cat: seq<CatalogRecord>, i: nat)
    requires i < |cat| && cat[i].Folder?
    requires forall i, j :: 0 <= i < j < |cat| && cat[i].Folder? && cat[j].Folder? ==> cat[i].folderID != cat[j].folderID
    ensures RecordedIn(cat, cat[i].folderID) == cat[i].folderCount
  {
    if i < |cat| - 1 { RecordedOf(cat[..|cat| - 1], i); }
  }

  lemma TableIsRight(m: Table, cat: seq<CatalogRecord>, priv: nat)
    requires Summary(m, cat, priv)
    ensures TableMismatches(m) == PassMismatches(cat, priv)
  {
    hide Children, RecordedIn, U32, Seen;
    forall x | x in PassMismatches(cat, priv) ensures x in TableMismatches(m) {
      var id :| id in SeenIDs(cat, priv) && id != kHFSRootParentID && RecordedIn(cat, id) != U32(Children(cat, priv, id))
                && x == Mismatch(id, U32(Children(cat, priv, id)), RecordedIn(cat, id));
      assert id in m;
    }
  }

  lemma FolderSeen(cat: seq<CatalogRecord>, priv: nat, r: CatalogRecord)
    requires r in cat && r.Folder?
    ensures Seen(cat, priv, r.folderID)
  {
  }

  /** What folderCountAdd is called for has a parent that is not zero. */
  lemma ParentNotZero(cat: seq<CatalogRecord>, priv: nat, i: nat)
    requires Legible(cat, priv) && i < |cat| && Counts(cat[i], priv)
    ensures cat[i].parentID != 0 && (cat[i].Folder? ==> cat[i].folderID != 0)
  {
    assert cat[i] in cat;
  }

  lemma NoEntries(b: seq<seq<Entry>>, priv: nat)
    requires |b| == NumFolders && forall h :: 0 <= h < NumFolders ==> b[h] == [EMPTY]
    ensures Holds(b, map[]) && Named(map[]) && Summary(map[], [], priv)
  {
  }

  /** The fast method; it gives up when it runs out of memory, having reported nothing. */
  method OnePass(cat: seq<CatalogRecord>, priv: nat, mem: nat) returns (ok: bool, reports: seq<Mismatch>)
    requires Legible(cat, priv)
    ensures mem >= 2 * |cat| ==> ok
    ensures ok ==> Reported(reports) == PassMismatches(cat, priv) && NoDup(reports)
  {
    hide Holds, NoDup, Summary, Legible, Named, Counting, Recording, PassMismatches, TableMismatches;
    reports := [];
    var fcip := new seq<Entry>[NumFolders](_ => [EMPTY]);
    ghost var m: Table := map[];
    NoEntries(fcip[..], priv);
    var left: nat := mem;
    var i := 0;
    assert cat[..0] == [];
    while i < |cat|
      invariant 0 <= i <= |cat| && fresh(fcip) && fcip.Length == NumFolders
      invariant left + 2 * i >= mem
      invariant Holds(fcip[..], m) && Named(m) && Summary(m, cat[..i], priv)
    {
      var r := cat[i];
      assert cat[..i + 1] == cat[..i] + [r];
      if Counts(r, priv) {
        ParentNotZero(cat, priv, i);
        SummaryNext(m, cat[..i], priv, r);
        ok, left, m := FolderCountAdd(fcip, r.parentID, if r.Folder? then r.folderID else 0, if r.Folder? then r.folderCount else 0, left, m);
        if !ok {
          return;
        }
      } else {
        SummarySkip(m, cat[..i], priv, r);
      }
      i := i + 1;
    }
    assert cat[..i] == cat;
    TableIsRight(m, cat, priv);
    reports := Report(fcip, m);
    ok := true;
  }

  /** The mismatches of the entries before place `k` of bucket `h`. */
  ghost predicate ReportedUpto(s: set<Mismatch>, b: seq<seq<Entry>>, m: Table, h: nat, k: nat)
    requires |b| == NumFolders
  {
    forall x :: x in s <==> x in TableMismatches(m) && Visited(b, x.folderID, h, k)
  }

  ghost predicate Visited(b: seq<seq<Entry>>, id: nat, h: nat, k: nat)
    requires |b| == NumFolders
  {
    id % NumFolders < h || (id % NumFolders == h && exists j :: 0 <= j < k && j < |b[id % NumFolders]| && b[id % NumFolders][j].folderID == id)
  }

  /** Going through the buckets reports what the table says is wrong. */
  method Report(fcip: array<seq<Entry>>, ghost m: Table) returns (reports: seq<Mismatch>)
    requires fcip.Length == NumFolders && Holds(fcip[..], m)
    ensures Reported(reports) == TableMismatches(m) && NoDup(reports)
  {
    hide Holds, TableMismatches, Visited, ReportedUpto, Reported, NoDup;
    reports := [];
    NoDupNone();
    ghost var b := fcip[..];
    ReportedStart(b, m);
    var h := 0;
    while h < NumFolders
      invariant 0 <= h <= NumFolders && fcip[..] == b && ReportedUpto(Reported(reports), b, m, h, 0) && NoDup(reports)
    {
      var c := fcip[h];
      var k := 0;
      while k < |c|
        invariant 0 <= k <= |c| && c == b[h] && fcip[..] == b && ReportedUpto(Reported(reports), b, m, h, k) && NoDup(reports)
      {
        var e := c[k];
        ReportedNext(Reported(reports), b, m, h, k);
        if e.folderID != 0 && e.folderID != kHFSRootParentID && e.recorded != e.computed {
          FreshReport(Reported(reports), b, m, h, k);
          NoDupMore(reports, [Mismatch(e.folderID, e.computed, e.recorded)]);
          ReportedMore(reports, [Mismatch(e.folderID, e.computed, e.recorded)]);
          ReportedOne([Mismatch(e.folderID, e.computed, e.recorded)]);
          reports := reports + [Mismatch(e.folderID, e.computed, e.recorded)];
        }
        k := k + 1;
      }
      ReportedBucket(Reported(reports), b, m, h);
      h := h + 1;
    }
    ReportedEnd(Reported(reports), b, m);
  }

  /** An entry is come across once. */
  lemma FreshReport(s: set<Mismatch>, b: seq<seq<Entry>>, m: Table, h: nat, k: nat)
    requires Holds(b, m) && h < NumFolders && k < |b[h]| && ReportedUpto(s, b, m, h, k) && b[h][k].folderID != 0
    ensures Mismatch(b[h][k].folderID, b[h][k].computed, b[h][k].recorded) !in s
  {
    HoldsChain(b, m, h);
    assert !Visited(b, b[h][k].folderID, h, k);
  }

  lemma ReportedStart(b: seq<seq<Entry>>, m: Table)
    requires |b| == NumFolders
    ensures ReportedUpto(Reported([]), b, m, 0, 0)
  {
  }

  lemma ReportedNext(s: set<Mismatch>, b: seq<seq<Entry>>, m: Table, h: nat, k: nat)
    requires Holds(b, m) && h < NumFolders && k < |b[h]| && ReportedUpto(s, b, m, h, k)
    ensures var e := b[h][k];
            ReportedUpto(if e.folderID != 0 && e.folderID != kHFSRootParentID && e.recorded != e.computed
                         then s + {Mismatch(e.folderID, e.computed, e.recorded)} else s, b, m, h, k + 1)
  {
    var e := b[h][k];
    HoldsChain(b, m, h);
    forall x | x in TableMismatches(m)
      ensures Visited(b, x.folderID, h, k + 1) <==> Visited(b, x.folderID, h, k) || x.folderID == e.folderID
    {
      VisitedNext(b, m, x.folderID, h, k);
    }
    if e.folderID != 0 { InTable(m, e.folderID); }
  }

  lemma InTable(m: Table, id: nat)
    requires id in m
    ensures forall x: Mismatch :: x.folderID == id ==>
              (x in TableMismatches(m) <==> id != kHFSRootParentID && m[id].recorded != m[id].computed && x == Mismatch(id, m[id].computed, m[id].recorded))
  {
  }

  lemma VisitedNext(b: seq<seq<Entry>>, m: Table, id: nat, h: nat, k: nat)
    requires Holds(b, m) && h < NumFolders && k < |b[h]| && id in m
    ensures Visited(b, id, h, k + 1) <==> Visited(b, id, h, k) || id == b[h][k].folderID
  {
    HoldsChain(b, m, h);
  }

  lemma ReportedBucket(s: set<Mismatch>, b: seq<seq<Entry>>, m: Table, h: nat)
    requires Holds(b, m) && h < NumFolders && ReportedUpto(s, b, m, h, |b[h]|)
    ensures ReportedUpto(s, b, m, h + 1, 0)
  {
    HoldsChain(b, m, h);
    forall x | x in TableMismatches(m) ensures Visited(b, x.folderID, h, |b[h]|) <==> Visited(b, x.folderID, h + 1, 0) {
      if x.folderID % NumFolders == h { assert InChain(b[h], x.folderID); }
    }
  }

  lemma ReportedEnd(s: set<Mismatch>, b: seq<seq<Entry>>, m: Table)
    requires |b| == NumFolders && ReportedUpto(s, b, m, NumFolders, 0)
    ensures s == TableMismatches(m)
  {
  }

  /** CheckFolderCount: with the table, or, when there is no memory for it at the start or
      on the way, by rescanning.  When every folder has a thread and every parent a folder
      record, both report exactly the folders with a wrong count, but for a folder with
      the ID of the root's parent, which only the rescan reports. */
  method CheckFolderCount(cat: seq<CatalogRecord>, priv: nat, haveTable: bool, mem: nat) returns (fast: bool, reports: seq<Mismatch>)
    requires Legible(cat, priv)
    ensures fast ==> haveTable
    ensures haveTable && mem >= 2 * |cat| ==> fast
    ensures Reported(reports) == if fast then PassMismatches(cat, priv) else RescanMismatches(cat, priv)
    ensures WellFormed(cat, priv) ==> Reported(reports) == if fast then MismatchesButRoot(cat, priv) else Mismatches(cat, priv)
    ensures NoDup(reports)
  {
    assert Sorted(cat) && UniqueIDs(cat);
    hide Sorted, UniqueIDs, NoDup, Legible, WellFormed, Mismatches, MismatchesButRoot, PassMismatches, RescanMismatches;
    fast := false;
    if haveTable {
      fast, reports := OnePass(cat, priv, mem);
    }
    if !fast {
      reports := Rescan(cat, priv);
    }
    if WellFormed(cat, priv) { WellFormedMismatches(cat, priv); }
  }

  // ---- When the two methods agree ----

  /** A folder with the ID of the root's parent has the count that a scan finds. */
  ghost predicate RootParentRight(cat: seq<CatalogRecord>, priv: nat) {
    forall r :: r in cat && r.Folder? && r.folderID == kHFSRootParentID ==> Scanned(cat, priv, r.folderID) == r.folderCount
  }

  /** Other folders without a thread have no subfolders. */
  ghost predicate ThreadsWhereNeeded(cat: seq<CatalogRecord>, priv: nat) {
    forall r :: r in cat && r.Folder? && r.folderID != kHFSRootParentID && !HasThread(cat, r.folderID) ==>
                  U32(Children(cat, priv, r.folderID)) == 0
  }

  /** Other IDs with subfolders have a folder record. */
  ghost predicate FoldersWhereNeeded(cat: seq<CatalogRecord>, priv: nat) {
    forall id :: id in SeenIDs(cat, priv) && id != kHFSRootParentID && U32(Children(cat, priv, id)) != 0 ==> HasFolder(cat, id)
  }

  /** On every legible catalog, the two methods report the same if and only if a folder
      with the ID of the root's parent has the right count, no folder without a thread
      has subfolders, and no parent lacks a folder record. */
  lemma MethodsAgree(cat: seq<CatalogRecord>, priv: nat)
    requires Legible(cat, priv)
    ensures PassMismatches(cat, priv) == RescanMismatches(cat, priv) <==>
            RootParentRight(cat, priv) && ThreadsWhereNeeded(cat, priv) && FoldersWhereNeeded(cat, priv)
  {
    if PassMismatches(cat, priv) == RescanMismatches(cat, priv) {
      AgreeNeeds(cat, priv);
    }
    if RootParentRight(cat, priv) && ThreadsWhereNeeded(cat, priv) && FoldersWhereNeeded(cat, priv) {
      PassInRescan(cat, priv);
      RescanInPass(cat, priv);
    }
  }

  /** The folder record of an ID is the one whose count is recorded. */
  lemma RecordOf(cat: seq<CatalogRecord>, priv: nat, r: CatalogRecord)
    requires Legible(cat, priv) && r in cat && r.Folder?
    ensures RecordedIn(cat, r.folderID) == r.folderCount && r.folderID in SeenIDs(cat, priv)
    ensures forall q :: q in cat && q.Folder? && q.folderID == r.folderID ==> q == r
  {
    var i :| 0 <= i < |cat| && cat[i] == r;
    RecordedOf(cat, i);
    FolderSeen(cat, priv, r);
    forall q | q in cat && q.Folder? && q.folderID == r.folderID ensures q == r {
      var j :| 0 <= j < |cat| && cat[j] == q;
      assert i == j;
    }
  }

  lemma {:induction false} NoRecord(cat: seq<CatalogRecord>, id: nat)
    requires !HasFolder(cat, id)
    ensures RecordedIn(cat, id) == 0
  {
    if cat != [] {
      var init, r := cat[..|cat| - 1], cat[|cat| - 1];
      assert r in cat;
      assert forall x :: x in init ==> x in cat;
      NoRecord(init, id);
    }
  }

  lemma PassInRescan(cat: seq<CatalogRecord>, priv: nat)
    requires Legible(cat, priv) && ThreadsWhereNeeded(cat, priv) && FoldersWhereNeeded(cat, priv)
    ensures PassMismatches(cat, priv) <= RescanMismatches(cat, priv)
  {
    hide Children, RecordedIn, U32, Legible, HasThread, SeenIDs;
    forall x | x in PassMismatches(cat, priv) ensures x in RescanMismatches(cat, priv) {
      var id :| id in SeenIDs(cat, priv) && id != kHFSRootParentID && RecordedIn(cat, id) != U32(Children(cat, priv, id))
                && x == Mismatch(id, U32(Children(cat, priv, id)), RecordedIn(cat, id));
      if !HasFolder(cat, id) { NoRecord(cat, id); }
      assert HasFolder(cat, id);
      var r :| r in cat && r.Folder? && r.folderID == id;
      RecordOf(cat, priv, r);
    }
  }

  lemma RescanInPass(cat: seq<CatalogRecord>, priv: nat)
    requires Legible(cat, priv) && RootParentRight(cat, priv) && ThreadsWhereNeeded(cat, priv)
    ensures RescanMismatches(cat, priv) <= PassMismatches(cat, priv)
  {
    hide Children, RecordedIn, U32, Legible, HasThread, SeenIDs;
    forall x | x in RescanMismatches(cat, priv) ensures x in PassMismatches(cat, priv) {
      var r :| r in cat && r.Folder? && Scanned(cat, priv, r.folderID) != r.folderCount
               && x == Mismatch(r.folderID, Scanned(cat, priv, r.folderID), r.folderCount);
      RecordOf(cat, priv, r);
      assert Scanned(cat, priv, r.folderID) == U32(Children(cat, priv, r.folderID));
    }
  }

  lemma AgreeNeeds(cat: seq<CatalogRecord>, priv: nat)
    requires Legible(cat, priv) && PassMismatches(cat, priv) == RescanMismatches(cat, priv)
    ensures RootParentRight(cat, priv) && ThreadsWhereNeeded(cat, priv) && FoldersWhereNeeded(cat, priv)
  {
    hide Children, RecordedIn, U32, Legible, HasThread, SeenIDs;
    forall r | r in cat && r.Folder?
      ensures r.folderID == kHFSRootParentID ==> Scanned(cat, priv, r.folderID) == r.folderCount
      ensures r.folderID != kHFSRootParentID && !HasThread(cat, r.folderID) ==> U32(Children(cat, priv, r.folderID)) == 0
    {
      RecordOf(cat, priv, r);
      var scan := Mismatch(r.folderID, Scanned(cat, priv, r.folderID), r.folderCount);
      var pass := Mismatch(r.folderID, U32(Children(cat, priv, r.folderID)), r.folderCount);
      assert Scanned(cat, priv, r.folderID) != r.folderCount ==> scan in RescanMismatches(cat, priv);
      assert r.folderID != kHFSRootParentID && U32(Children(cat, priv, r.folderID)) != r.folderCount ==> pass in PassMismatches(cat, priv);
    }
    forall id | id in SeenIDs(cat, priv) && id != kHFSRootParentID && U32(Children(cat, priv, id)) != 0 ensures HasFolder(cat, id) {
      if !HasFolder(cat, id) { NoRecord(cat, id); }
      assert RecordedIn(cat, id) != U32(Children(cat, priv, id)) ==>
               Mismatch(id, U32(Children(cat, priv, id)), RecordedIn(cat, id)) in PassMismatches(cat, priv);
    }
  }

  /** On a well-formed catalog both report true mismatches. */
  lemma WellFormedMismatches(cat: seq<CatalogRecord>, priv: nat)
    requires WellFormed(cat, priv)
    ensures RescanMismatches(cat, priv) == Mismatches(cat, priv) && PassMismatches(cat, priv) == MismatchesButRoot(cat, priv)
  {
    hide Children, RecordedIn, U32, Legible, HasThread, SeenIDs;
    assert RescanMismatches(cat, priv) == Mismatches(cat, priv);
    forall x | x in PassMismatches(cat, priv) ensures x in MismatchesButRoot(cat, priv) {
      var id :| id in SeenIDs(cat, priv) && id != kHFSRootParentID && RecordedIn(cat, id) != U32(Children(cat, priv, id))
                && x == Mismatch(id, U32(Children(cat, priv, id)), RecordedIn(cat, id));
      SeenHasFolder(cat, priv, id);
      var r :| r in cat && r.Folder? && r.folderID == id;
      RecordOf(cat, priv, r);
    }
    forall x | x in MismatchesButRoot(cat, priv) ensures x in PassMismatches(cat, priv) {
      var r :| r in cat && r.Folder? && U32(Children(cat, priv, r.folderID)) != r.folderCount
               && x == Mismatch(r.folderID, U32(Children(cat, priv, r.folderID)), r.folderCount);
      RecordOf(cat, priv, r);
    }
  }

  lemma SeenHasFolder(cat: seq<CatalogRecord>, priv: nat, id: nat)
    requires WellFormed(cat, priv) && id in SeenIDs(cat, priv) && id != kHFSRootParentID
    ensures HasFolder(cat, id)
  {
    assert Seen(cat, priv, id);
  }

  lemma CountTwo(cat: seq<CatalogRecord>, id: nat)
    requires |cat| == 2
    ensures Children(cat, 0, id) == (if Counts(cat[0], 0) && cat[0].parentID == id then 1 else 0)
                                    + if Counts(cat[1], 0) && cat[1].parentID == id then 1 else 0
  {
    ChildrenNext(cat, 0, 0, id);
    ChildrenNext(cat, 0, 1, id);
    assert cat[..2] == cat && cat[..0] == [];
  }

  /** A folder with the ID of the root's parent, and a wrong count: a well-formed catalog
      on which the two methods differ. */
  lemma RootParentFolder()
    ensures var cat := [Thread(1), Folder(1, 1, 5)];
            WellFormed(cat, 0) && PassMismatches(cat, 0) != RescanMismatches(cat, 0)
  {
    hide PassMismatches, RescanMismatches, Children, SeenIDs;
    var cat := [Thread(1), Folder(1, 1, 5)];
    CountTwo(cat, 1);
    assert Thread(1) in cat && cat[1] in cat;
    assert Scanned(cat, 0, 1) == 1;
    assert !RootParentRight(cat, 0);
    MethodsAgree(cat, 0);
  }

  /** A folder without a thread but with a subfolder: the scan finds none. */
  lemma NoThreadFolder()
    ensures var cat := [Folder(1, 2, 1), Folder(2, 16, 0)];
            Legible(cat, 0) && PassMismatches(cat, 0) != RescanMismatches(cat, 0)
  {
    hide PassMismatches, RescanMismatches, Children, SeenIDs;
    var cat := [Folder(1, 2, 1), Folder(2, 16, 0)];
    CountTwo(cat, 2);
    assert cat[0] in cat && Thread(2) !in cat;
    assert !ThreadsWhereNeeded(cat, 0);
    MethodsAgree(cat, 0);
  }

  /** A folder, with a thread, in a folder that has no record: the scan is not made. */
  lemma NoFolderParent()
    ensures var cat := [Thread(16), Folder(20, 16, 0)];
            Legible(cat, 0) && PassMismatches(cat, 0) != RescanMismatches(cat, 0)
  {
    hide PassMismatches, RescanMismatches, Children, SeenIDs;
    var cat := [Thread(16), Folder(20, 16, 0)];
    CountTwo(cat, 20);
    assert cat[1] in cat && Seen(cat, 0, 20) && !HasFolder(cat, 20);
    hide Seen, HasFolder;
    assert !FoldersWhereNeeded(cat, 0);
    MethodsAgree(cat, 0);
  }
}
