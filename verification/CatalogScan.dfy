/** IDs of the catalog with a fixed meaning (Apple Technical Note TN1150,
    "Catalog File"). */
module CatalogIDs {
  const kHFSRootParentID := 1
  const kHFSRootFolderID := 2
  const kHFSFirstUserCatalogNodeID := 16
}

/** The pass over the leaf records of a catalog that finds missing folder threads
    (src/fsck_hfs/dfalib/CatalogCheck.c:515-525, 659-733, 817-856, 887-894, 1083-1119,
    1816-1845). */
module CatalogScan {
  import opened Lists
  import opened Bytes
  import opened CatalogIDs

  const E_InvalidID := 1
  const R_NoMem := 2

  /** A leaf record.  `other` is the result of the checks that are not modelled (record
      length, names, extents, links), `threadParent` the parent in a thread's data. */
  datatype LeafRecord =
    | Folder(parentID: nat, folderID: uint32, other: int)
    | File(parentID: nat, fileID: uint32, other: int)
    | FolderThread(parentID: nat, threadParent: nat, other: int)
    | FileThread(parentID: nat, threadParent: nat, other: int)

  predicate IsThread(r: LeafRecord) {
    r.FolderThread? || r.FileThread?
  }

  /** In key order; threads have empty names and come first among their parent ID. */
  ghost predicate InKeyOrder(recs: seq<LeafRecord>) {
    forall i, j :: 0 <= i < j < |recs| ==>
      recs[i].parentID <= recs[j].parentID && (IsThread(recs[j]) ==> recs[i].parentID < recs[j].parentID)
  }

  /** gCIS, and the list of missing threads, newest first. */
  datatype Info = Info(parentID: nat, nextCNID: uint32, dirCount: nat, fileCount: nat, dirThreads: nat, fileThreads: nat, missing: seq<nat>)

  // ---- What the pass should find ----

  ghost predicate HasEntry(recs: seq<LeafRecord>, p: nat) {
    exists i :: 0 <= i < |recs| && !IsThread(recs[i]) && recs[i].parentID == p
  }

  ghost predicate HasFolderThread(recs: seq<LeafRecord>, p: nat) {
    exists i :: 0 <= i < |recs| && recs[i].FolderThread? && recs[i].parentID == p
  }

  /** A parent with file or folder records but no folder thread.  The root's parent needs
      none, unless there are records with parent ID 0, after which its own records
      look like those of any other folder. */
  ghost predicate Missing(recs: seq<LeafRecord>, p: nat) {
    HasEntry(recs, p) && !HasFolderThread(recs, p) && (p != kHFSRootParentID || HasEntry(recs, 0))
  }

  /** How many records are of a kind. */
  function HowMany(recs: seq<LeafRecord>, kind: LeafRecord -> bool): nat {
    if recs == [] then 0 else HowMany(recs[..|recs| - 1], kind) + if kind(recs[|recs| - 1]) then 1 else 0
  }

  predicate IsFolder(r: LeafRecord) {
    r.Folder?
  }

  predicate IsFile(r: LeafRecord) {
    r.File?
  }

  predicate IsFolderThread(r: LeafRecord) {
    r.FolderThread?
  }

  predicate IsFileThread(r: LeafRecord) {
    r.FileThread?
  }

  function IdOf(r: LeafRecord): uint32 {
    match r
    case Folder(_, id, _) => id
    case File(_, id, _) => id
    case _ => 0
  }

  /** No ID is the largest 32-bit number, whose successor wraps around to zero. */
  ghost predicate NoTopID(recs: seq<LeafRecord>) {
    forall i :: 0 <= i < |recs| ==> IdOf(recs[i]) < 0xffff_ffff
  }

  /** `n` is the larger of 16 and one more than the largest ID. */
  ghost predicate NextAfter(n: nat, recs: seq<LeafRecord>) {
    && n >= kHFSFirstUserCatalogNodeID && (forall i :: 0 <= i < |recs| ==> IdOf(recs[i]) < n)
    && (n == kHFSFirstUserCatalogNodeID || exists i :: 0 <= i < |recs| && IdOf(recs[i]) + 1 == n)
  }

  /** The parent ID of the last record that is not a file thread; that of the root at first. */
  function Current(recs: seq<LeafRecord>): nat {
    if recs == [] then kHFSRootParentID
    else if recs[|recs| - 1].FileThread? then Current(recs[..|recs| - 1]) else recs[|recs| - 1].parentID
  }

  /** The state after the records `recs`. */
  ghost predicate ScanSummary(c: Info, recs: seq<LeafRecord>) {
    && c.parentID == Current(recs)
    && NoDup(c.missing) && (forall p :: p in c.missing <==> Missing(recs, p))
    && c.dirThreads == HowMany(recs, IsFolderThread) + |c.missing| && c.fileThreads == HowMany(recs, IsFileThread)
    && c.dirCount == HowMany(recs, IsFolder) && c.fileCount == HowMany(recs, IsFile)
    && (NoTopID(recs) ==> NextAfter(c.nextCNID, recs))
  }

  /** The record passes the checks. */
  predicate Good(r: LeafRecord) {
    && r.other == 0
    && match r
       case Folder(_, id, _) => id >= kHFSFirstUserCatalogNodeID || id == kHFSRootFolderID
       case File(_, id, _) => id >= kHFSFirstUserCatalogNodeID
       case FolderThread(p, q, _) => GoodThread(p, q)
       case FileThread(p, q, _) => GoodThread(p, q)
  }

  predicate GoodThread(p: nat, q: nat) {
    && (p >= kHFSFirstUserCatalogNodeID || p == kHFSRootParentID || p == kHFSRootFolderID)
    && if q == kHFSRootParentID then p == kHFSRootFolderID else q >= kHFSFirstUserCatalogNodeID || q == kHFSRootFolderID
  }

  // ---- One more record ----

  lemma HasEntryNext(recs: seq<LeafRecord>, r: LeafRecord, p: nat)
    ensures HasEntry(recs + [r], p) <==> HasEntry(recs, p) || (!IsThread(r) && r.parentID == p)
  {
    var t := recs + [r];
    if HasEntry(recs, p) {
      var i :| 0 <= i < |recs| && !IsThread(recs[i]) && recs[i].parentID == p;
      assert t[i] == recs[i];
    }
    assert t[|recs|] == r;
  }

  lemma HasThreadNext(recs: seq<LeafRecord>, r: LeafRecord, p: nat)
    ensures HasFolderThread(recs + [r], p) <==> HasFolderThread(recs, p) || (r.FolderThread? && r.parentID == p)
  {
    var t := recs + [r];
    if HasFolderThread(recs, p) {
      var i :| 0 <= i < |recs| && recs[i].FolderThread? && recs[i].parentID == p;
      assert t[i] == recs[i];
    }
    assert t[|recs|] == r;
  }

  /** In key order the current parent tells what has been seen of a folder. */
  lemma {:induction false} CurrentIs(recs: seq<LeafRecord>, q: nat)
    requires InKeyOrder(recs) && forall i :: 0 <= i < |recs| ==> recs[i].parentID <= q
    ensures HasEntry(recs, q) || HasFolderThread(recs, q) ==> Current(recs) == q
    ensures Current(recs) == q ==>
              (HasEntry(recs, q) || HasFolderThread(recs, q) || (q == kHFSRootParentID && forall i :: 0 <= i < |recs| ==> recs[i].FileThread?))
  {
    if recs != [] {
      var init, r := recs[..|recs| - 1], recs[|recs| - 1];
      assert recs == init + [r];
      HasEntryNext(init, r, q);
      HasThreadNext(init, r, q);
      if r.FileThread? {
        assert recs[|recs| - 1] == r;
        forall i | 0 <= i < |init| ensures init[i].parentID <= q { assert init[i] == recs[i]; }
        CurrentIs(init, q);
      } else {
        forall i | 0 <= i < |init| ensures recs[i].parentID <= r.parentID {}
        if r.parentID != q {
          assert forall i :: 0 <= i < |recs| ==> recs[i].parentID < q;
        }
      }
    }
  }

  lemma {:induction false} CurrentSeen(recs: seq<LeafRecord>)
    ensures Current(recs) != kHFSRootParentID ==> HasEntry(recs, Current(recs)) || HasFolderThread(recs, Current(recs))
  {
    if recs != [] {
      var init, r := recs[..|recs| - 1], recs[|recs| - 1];
      assert recs == init + [r];
      HasEntryNext(init, r, Current(recs));
      HasThreadNext(init, r, Current(recs));
      CurrentSeen(init);
    }
  }

  /** All records are good, and in order. */
  ghost predicate Fine(recs: seq<LeafRecord>) {
    InKeyOrder(recs) && forall i :: 0 <= i < |recs| ==> Good(recs[i])
  }

  lemma FineInit(recs: seq<LeafRecord>, r: LeafRecord)
    requires Fine(recs + [r])
    ensures Fine(recs) && Good(r) && forall i :: 0 <= i < |recs| ==> recs[i].parentID <= r.parentID
    ensures IsThread(r) ==> !HasEntry(recs, r.parentID) && !HasFolderThread(recs, r.parentID)
    ensures forall p :: p > r.parentID ==> !HasEntry(recs, p)
  {
    var t := recs + [r];
    assert t[|recs|] == r;
    forall i | 0 <= i < |recs| ensures recs[i].parentID <= r.parentID && (IsThread(r) ==> recs[i].parentID < r.parentID) && Good(recs[i]) {
      assert t[i] == recs[i];
    }
    forall i, j | 0 <= i < j < |recs|
      ensures recs[i].parentID <= recs[j].parentID && (IsThread(recs[j]) ==> recs[i].parentID < recs[j].parentID)
    {
      assert t[i] == recs[i] && t[j] == recs[j];
    }
  }

  /** No thread of a good catalog belongs to ID 0. */
  lemma NoThreadZero(recs: seq<LeafRecord>)
    requires Fine(recs)
    ensures !HasFolderThread(recs, 0)
  {
  }

  /** A record whose parent is the current one leaves the missing threads as they are. */
  lemma SameParent(recs: seq<LeafRecord>, r: LeafRecord, p: nat)
    requires Fine(recs + [r]) && !IsThread(r) && r.parentID == Current(recs)
    ensures Missing(recs + [r], p) <==> Missing(recs, p)
  {
    var q := r.parentID;
    FineInit(recs, r);
    CurrentIs(recs, q);
    HasEntryNext(recs, r, p);
    HasEntryNext(recs, r, 0);
    HasThreadNext(recs, r, p);
  }

  /** A record with another parent adds that one. */
  lemma OtherParent(recs: seq<LeafRecord>, r: LeafRecord, p: nat)
    requires Fine(recs + [r]) && !IsThread(r) && r.parentID != Current(recs)
    ensures !Missing(recs, r.parentID)
    ensures Missing(recs + [r], p) <==> Missing(recs, p) || p == r.parentID
  {
    var q := r.parentID;
    FineInit(recs, r);
    CurrentIs(recs, q);
    CurrentSeen(recs);
    CurrentBelow(recs, q);
    NoThreadZero(recs);
    HasEntryNext(recs, r, p);
    HasEntryNext(recs, r, 0);
    HasThreadNext(recs, r, p);
  }

  lemma CurrentBelow(recs: seq<LeafRecord>, q: nat)
    requires forall i :: 0 <= i < |recs| ==> recs[i].parentID <= q
    ensures Current(recs) <= q || Current(recs) == kHFSRootParentID
  {
    CurrentSeen(recs);
  }

  lemma ThreadOnly(recs: seq<LeafRecord>, r: LeafRecord, p: nat)
    requires Fine(recs + [r]) && IsThread(r)
    ensures Missing(recs + [r], p) <==> Missing(recs, p)
  {
    FineInit(recs, r);
    HasEntryNext(recs, r, p);
    HasEntryNext(recs, r, 0);
    HasThreadNext(recs, r, p);
  }

  lemma CountNext(recs: seq<LeafRecord>, r: LeafRecord)
    ensures forall kind :: HowMany(recs + [r], kind) == HowMany(recs, kind) + if kind(r) then 1 else 0
    ensures Current(recs + [r]) == if r.FileThread? then Current(recs) else r.parentID
  {
    assert (recs + [r])[..|recs|] == recs;
  }

  lemma NextCNIDStep(n: nat, recs: seq<LeafRecord>, r: LeafRecord)
    requires NoTopID(recs + [r]) && (NoTopID(recs) ==> NextAfter(n, recs))
    ensures n > 0 && NextAfter(if IdOf(r) >= n then IdOf(r) + 1 else n, recs + [r])
    ensures IdOf(r) >= n ==> U32(IdOf(r) + 1) == IdOf(r) + 1
  {
    var t := recs + [r];
    var n' := if IdOf(r) >= n then IdOf(r) + 1 else n;
    assert t[|recs|] == r;
    forall i | 0 <= i < |recs| ensures IdOf(recs[i]) < 0xffff_ffff { assert t[i] == recs[i]; }
    if n' == n && n != kHFSFirstUserCatalogNodeID {
      var i :| 0 <= i < |recs| && IdOf(recs[i]) + 1 == n;
      assert t[i] == recs[i];
    }
  }

  lemma NoDupFirst(s: seq<nat>, p: nat)
    requires NoDup(s) && p !in s
    ensures NoDup([p] + s)
  {
  }

  /** What a good record does to the state. */
  function Step(c: Info, r: LeafRecord): Info {
    var n := if IdOf(r) >= c.nextCNID && !IsThread(r) then U32(IdOf(r) + 1) else c.nextCNID;
    var d := c.(nextCNID := n, dirCount := if r.Folder? then c.dirCount + 1 else c.dirCount,
                fileCount := if r.File? then c.fileCount + 1 else c.fileCount,
                fileThreads := if r.FileThread? then c.fileThreads + 1 else c.fileThreads);
    if r.FolderThread? then d.(dirThreads := c.dirThreads + 1, parentID := r.parentID)
    else if r.FileThread? || r.parentID == c.parentID then d
    else d.(dirThreads := c.dirThreads + 1, parentID := r.parentID, missing := [r.parentID] + c.missing)
  }

  /** Each good record keeps the state a summary of the records so far. */
  lemma StepOk(c: Info, recs: seq<LeafRecord>, r: LeafRecord)
    requires ScanSummary(c, recs) && Fine(recs + [r])
    ensures ScanSummary(Step(c, r), recs + [r])
  {
    hide Missing, NextAfter, HowMany, Current, NoDup, Fine;
    CountNext(recs, r);
    if NoTopID(recs + [r]) { NextCNIDStep(c.nextCNID, recs, r); }
    var c' := Step(c, r);
    if !IsThread(r) && r.parentID != c.parentID {
      OtherParent(recs, r, r.parentID);
      NoDupFirst(c.missing, r.parentID);
    }
    forall p ensures p in c'.missing <==> Missing(recs + [r], p) {
      if IsThread(r) {
        ThreadOnly(recs, r, p);
      } else if r.parentID == c.parentID {
        SameParent(recs, r, p);
      } else {
        OtherParent(recs, r, p);
      }
    }
  }

  /** The next free ID is right if and only if no ID is the largest 32-bit number. */
  lemma NextRightIff(c: Info, recs: seq<LeafRecord>)
    requires ScanSummary(c, recs)
    ensures NextAfter(c.nextCNID, recs) <==> NoTopID(recs)
  {
    if NextAfter(c.nextCNID, recs) {
      forall i | 0 <= i < |recs| ensures IdOf(recs[i]) < 0xffff_ffff { assert IdOf(recs[i]) < c.nextCNID; }
    }
  }

  /** After a pass without errors the captured threads are those of all parents but the
      root's that have records and no thread, if and only if there are not records both
      of ID 0 and of the root's parent without its thread. */
  lemma RootParentExempt(c: Info, recs: seq<LeafRecord>)
    requires ScanSummary(c, recs)
    ensures (forall p :: p in c.missing <==> p != kHFSRootParentID && HasEntry(recs, p) && !HasFolderThread(recs, p))
            <==> !(HasEntry(recs, 0) && HasEntry(recs, kHFSRootParentID) && !HasFolderThread(recs, kHFSRootParentID))
  {
    assert kHFSRootParentID in c.missing <==> Missing(recs, kHFSRootParentID);
    forall p ensures p in c.missing <==> Missing(recs, p) {}
  }

  // ---- The pass ----

  class Scan {
    var c: Info

    /** CheckCatalogBTree starts with an empty state. */
    constructor ()
      ensures c == Info(kHFSRootParentID, kHFSFirstUserCatalogNodeID, 0, 0, 0, 0, []) && ScanSummary(c, [])
    {
      c := Info(kHFSRootParentID, kHFSFirstUserCatalogNodeID, 0, 0, 0, 0, []);
    }

    /** Records the thread and goes on as if it had been there; `mem` says whether there
        is memory for it. */
    method CaptureMissingThread(threadID: nat, mem: bool) returns (result: int)
      modifies this
      ensures result == if mem then 0 else R_NoMem
      ensures c == if mem then old(c).(missing := [threadID] + old(c).missing) else old(c)
    {
      if !mem {
        return R_NoMem;
      }
      c := c.(missing := [threadID] + c.missing);
      return 0;
    }

    /** CheckDirectory and CheckFile: the ID must be a user's (or the root folder's); the
        next free ID is kept in 32 bits. */
    method CheckID(r: LeafRecord) returns (result: int)
      requires !IsThread(r)
      modifies this
      ensures result == 0 <==> Good(r)
      ensures Good(r) ==> c == if IdOf(r) >= old(c).nextCNID then old(c).(nextCNID := U32(IdOf(r) + 1)) else old(c)
    {
      var id := IdOf(r);
      if id < kHFSFirstUserCatalogNodeID && !(r.Folder? && id == kHFSRootFolderID) {
        return E_InvalidID;
      }
      if id >= c.nextCNID {
        c := c.(nextCNID := U32(id + 1));
      }
      return r.other;
    }

    method CheckThread(r: LeafRecord) returns (result: int)
      requires IsThread(r)
      ensures result == 0 <==> Good(r)
    {
      if r.other != 0 {
        return r.other;
      }
      var p, q := r.parentID, r.threadParent;
      if p < kHFSFirstUserCatalogNodeID && p != kHFSRootParentID && p != kHFSRootFolderID {
        return E_InvalidID;
      }
      if q == kHFSRootParentID {
        if p != kHFSRootFolderID {
          return E_InvalidID;
        }
      } else if q < kHFSFirstUserCatalogNodeID && q != kHFSRootFolderID {
        return E_InvalidID;
      }
      return 0;
    }

    /** CheckCatalogRecord: without error exactly for a good record (given memory), which
        then has the effect of Step. */
    method CheckCatalogRecord(r: LeafRecord, mem: bool) returns (result: int)
      modifies this
      ensures result == 0 ==> Good(r) && c == Step(old(c), r)
      ensures Good(r) && mem ==> result == 0
    {
      match r {
        case Folder(parentID, _, _) =>
          c := c.(dirCount := c.dirCount + 1);
          result := EnterFolder(parentID, mem);
          if result == 0 {
            result := CheckID(r);
          }
        case File(parentID, _, _) =>
          c := c.(fileCount := c.fileCount + 1);
          result := EnterFolder(parentID, mem);
          if result == 0 {
            result := CheckID(r);
          }
        case FolderThread(parentID, _, _) =>
          c := c.(dirThreads := c.dirThreads + 1, parentID := parentID);
          result := CheckThread(r);
        case FileThread(_, _, _) =>
          c := c.(fileThreads := c.fileThreads + 1);
          result := CheckThread(r);
      }
    }

    method EnterFolder(parentID: nat, mem: bool) returns (result: int)
      modifies this
      ensures result == if parentID == old(c).parentID || mem then 0 else R_NoMem
      ensures result == 0 ==>
                c == if parentID == old(c).parentID then old(c)
                     else old(c).(missing := [parentID] + old(c).missing, dirThreads := old(c).dirThreads + 1, parentID := parentID)
    {
      result := 0;
      if parentID != c.parentID {
        result := CaptureMissingThread(parentID, mem);
        if result != 0 {
          return;
        }
        // Go on as if the thread had been there
        c := c.(dirThreads := c.dirThreads + 1, parentID := parentID);
      }
    }

    /** The whole pass, over records in key order: if no record is in error, the captured
        threads are exactly the missing ones, once each; the folder threads counted are
        the real ones and the captured ones; and the next free ID is right, unless it
        wrapped around.  Given memory, it fails only for a bad record. */
    method CheckAll(recs: seq<LeafRecord>, mem: bool) returns (result: int)
      requires InKeyOrder(recs) && c == Info(kHFSRootParentID, kHFSFirstUserCatalogNodeID, 0, 0, 0, 0, [])
      modifies this
      ensures result == 0 ==> ScanSummary(c, recs) && forall i :: 0 <= i < |recs| ==> Good(recs[i])
      ensures mem && (forall i :: 0 <= i < |recs| ==> Good(recs[i])) ==> result == 0
    {
      hide ScanSummary, Step, InKeyOrder, Good;
      assert ScanSummary(c, []) by { SummaryStart(c); }
      result := 0;
      var i := 0;
      assert recs[..0] == [];
      while i < |recs|
        invariant 0 <= i <= |recs| && result == 0 && ScanSummary(c, recs[..i]) && forall k :: 0 <= k < i ==> Good(recs[k])
      {
        ghost var before := c;
        result := CheckCatalogRecord(recs[i], mem);
        if result != 0 {
          return;
        }
        assert recs[..i + 1] == recs[..i] + [recs[i]];
        FinePrefix(recs, i + 1);
        StepOk(before, recs[..i], recs[i]);
        i := i + 1;
      }
      assert recs[..i] == recs;
    }
  }

  /** A catalog without errors in which the root's parent is reported, along with ID 0. */
  method RootParentReported() returns (scan: Scan, result: int)
    ensures result == 0 && 0 in scan.c.missing && kHFSRootParentID in scan.c.missing
  {
    var recs := [Folder(0, 16, 0), Folder(1, 2, 0)];
    scan := new Scan();
    result := scan.CheckAll(recs, true);
    assert recs[0].parentID == 0 && recs[1].parentID == 1;
    assert Missing(recs, 0) && Missing(recs, 1);
  }

  /** A catalog without errors after which the next free ID is 0. */
  method TopIDWraps() returns (scan: Scan, result: int)
    ensures result == 0 && !NextAfter(scan.c.nextCNID, [Folder(1, 0xffff_ffff, 0)])
  {
    var recs := [Folder(1, 0xffff_ffff, 0)];
    scan := new Scan();
    result := scan.CheckAll(recs, true);
    assert IdOf(recs[0]) == 0xffff_ffff;
    NextRightIff(scan.c, recs);
  }

  lemma SummaryStart(c: Info)
    requires c == Info(kHFSRootParentID, kHFSFirstUserCatalogNodeID, 0, 0, 0, 0, [])
    ensures ScanSummary(c, [])
  {
  }

  lemma FinePrefix(recs: seq<LeafRecord>, i: nat)
    requires InKeyOrder(recs) && i <= |recs| && forall k :: 0 <= k < i ==> Good(recs[k])
    ensures Fine(recs[..i])
  {
  }
}
