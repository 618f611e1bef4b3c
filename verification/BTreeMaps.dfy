/** The header node and the map nodes of a new B-tree, with the map of its nodes
    (src/newfs_hfs/makehfs.c:1559-1624, 1840-1877; Apple Technical Note TN1150,
    "Header Record", "Map Record" and "Map Nodes"). */
module BTreeMaps {
  import opened Bytes
  import opened Blocks
  import opened Bitmaps
  import opened BigEndian
  import opened Drives

  const NodeDescriptorSize := 14
  const HeaderRecSize := 106
  const UserBytes := 128

  /** Where the map record of the header node starts. */
  const MapOffset := NodeDescriptorSize + HeaderRecSize + UserBytes

  /** The node sizes that newfs_hfs takes; the two smallest only for the extents file. */
  predicate NodeSize(n: nat) {
    n == 1024 || n == 2048 || n == 4096 || n == 8192 || n == 16384 || n == 32768
  }

  function NodeBitsInHeader(nodeSize: nat): nat
    requires NodeSize(nodeSize)
  {
    8 * (nodeSize - NodeDescriptorSize - HeaderRecSize - UserBytes - 4 * 2)
  }

  function NodeBitsInMapNode(nodeSize: nat): nat
    requires NodeSize(nodeSize)
  {
    8 * (nodeSize - NodeDescriptorSize - 2 * 2 - 2)
  }

  /** The fields of the header node that the map decides. */
  datatype TreeHeader = TreeHeader(totalNodes: nat, freeNodes: nat, fLink: nat, mapNodes: nat, bytesUsed: nat)

  /** `m` is the least number of map nodes with which every node has a bit. */
  ghost predicate LeastMapNodes(nodeSize: nat, totalNodes: nat, m: nat)
    requires NodeSize(nodeSize)
  {
    forall k :: 0 <= k ==> (totalNodes <= NodeBitsInHeader(nodeSize) + k * NodeBitsInMapNode(nodeSize) <==> m <= k)
  }

  /** Rounding up gives the least number. */
  lemma CeilIsLeast(nodeSize: nat, totalNodes: nat, m: nat)
    requires NodeSize(nodeSize)
    requires var h, b := NodeBitsInHeader(nodeSize), NodeBitsInMapNode(nodeSize);
             m == if totalNodes > h then (totalNodes - h + (b - 1)) / b else 0
    ensures LeastMapNodes(nodeSize, totalNodes, m)
  {
    var h, b := NodeBitsInHeader(nodeSize), NodeBitsInMapNode(nodeSize);
    if totalNodes > h {
      CeilBounds(totalNodes - h, b);
      assert (m - 1) * b == m * b - b;
    }
    forall k | 0 <= k ensures totalNodes <= h + k * b <==> m <= k {
      MulMono(k, m, b);
      MulMono(m, k, b);
    }
  }

  /** A file of 32-bit size has few map nodes. */
  lemma FewMapNodes(nodeSize: nat, fileSize: uint32, m: nat)
    requires NodeSize(nodeSize) && LeastMapNodes(nodeSize, fileSize / nodeSize, m)
    ensures m <= 522 && (m > 0 ==> m + 2 <= fileSize / nodeSize)
  {
    assert NodeBitsInHeader(nodeSize) + 522 * NodeBitsInMapNode(nodeSize) >= 0x1_0000_0000 / nodeSize;
    assert m <= 522;
    if m > 0 { assert !(m <= 0); assert fileSize / nodeSize > NodeBitsInHeader(nodeSize) + 0 * NodeBitsInMapNode(nodeSize); }
  }

  /** What a tree's header record says besides the sizes. */
  datatype TreeParams = TreeParams(leafRecords: uint32, maxKeyLength: uint16, clumpSize: uint32, keyCompareType: bv8, attributes: uint32)

  /** struct BTHeaderRec, for a tree whose root and only leaf is node `lastLeaf`, or which
      is empty if that is 0. */
  function HeaderRecord(t: TreeHeader, p: TreeParams, nodeSize: nat, lastLeaf: nat): (r: seq<bv8>)
    ensures |r| == HeaderRecSize
  {
    LeafFields(p, lastLeaf) + SizeFields(t, p, nodeSize) + OtherFields(p)
  }

  function LeafFields(p: TreeParams, lastLeaf: nat): (r: seq<bv8>)
    ensures |r| == 18
  {
    ToBE16(lastLeaf) + ToBE32(lastLeaf) + ToBE32(p.leafRecords) + ToBE32(lastLeaf) + ToBE32(lastLeaf)
  }

  function SizeFields(t: TreeHeader, p: TreeParams, nodeSize: nat): (r: seq<bv8>)
    ensures |r| == 12
  {
    ToBE16(nodeSize) + ToBE16(p.maxKeyLength) + ToBE32(t.totalNodes) + ToBE32(t.freeNodes)
  }

  function OtherFields(p: TreeParams): (r: seq<bv8>)
    ensures |r| == 76
  {
    Zeros(2) + ToBE32(p.clumpSize) + [0, p.keyCompareType] + ToBE32(p.attributes) + Zeros(64)
  }

  /** The fields of a header node at their offsets: in the descriptor fLink, kind and
      numRecords; in the header record treeDepth, rootNode, leafRecords, firstLeafNode,
      lastLeafNode, nodeSize, maxKeyLength, totalNodes, freeNodes, clumpSize,
      keyCompareType and attributes; and at the end of the node where its records are. */
  ghost predicate HeaderFields(node: seq<bv8>, t: TreeHeader, p: TreeParams, nodeSize: nat, lastLeaf: nat)
    requires |node| == nodeSize >= 256
  {
    && NumberAt(node, 0) == t.fLink && node[8] == 1 && node[10] == 0 && node[11] == 3
    && Number16At(node, 14) == lastLeaf && NumberAt(node, 16) == lastLeaf && NumberAt(node, 20) == p.leafRecords
    && NumberAt(node, 24) == lastLeaf && NumberAt(node, 28) == lastLeaf
    && Number16At(node, 32) == nodeSize && Number16At(node, 34) == p.maxKeyLength
    && NumberAt(node, 36) == t.totalNodes && NumberAt(node, 40) == t.freeNodes
    && NumberAt(node, 46) == p.clumpSize && node[51] == p.keyCompareType && NumberAt(node, 52) == p.attributes
    && Number16At(node, nodeSize - 2) == 14 && Number16At(node, nodeSize - 4) == 120
    && Number16At(node, nodeSize - 6) == 248 && Number16At(node, nodeSize - 8) == nodeSize - 8
  }

  /** The offsets of the records of a header node, the last one first. */
  function HeaderOffsets(nodeSize: nat): (r: seq<bv8>)
    requires nodeSize >= 8
    ensures |r| == 8
  {
    ToBE16(nodeSize - 8) + ToBE16(MapOffset) + ToBE16(NodeDescriptorSize + HeaderRecSize) + ToBE16(NodeDescriptorSize)
  }

  /** A header node: descriptor, header record, user record, and in the map record exactly
      the bits of the used nodes. */
  ghost predicate HeaderNode(node: seq<bv8>, t: TreeHeader, p: TreeParams, nodeSize: nat, lastLeaf: nat) {
    && |node| == nodeSize >= MapOffset + 8 && HeaderFields(node, t, p, nodeSize, lastLeaf)
    && node[..NodeDescriptorSize + HeaderRecSize] == Descriptor(t.fLink, HeaderKind, 3) + HeaderRecord(t, p, nodeSize, lastLeaf)
    && node[nodeSize - 8..] == HeaderOffsets(nodeSize)
    && (forall i :: 8 * (NodeDescriptorSize + HeaderRecSize) <= i < 8 * (nodeSize - 8) ==>
          (BitAt(node, i) <==> 8 * MapOffset <= i < 8 * MapOffset + lastLeaf + 1 + t.mapNodes))
  }

  /** Sizing the map and filling in the header node, for a tree whose last leaf is node
      `lastLeaf` (1 in a new catalog file, 0 in an empty tree).  The number of map nodes is
      the least that gives every node a bit; used and free nodes make up the total; and
      of the bits of the map record exactly those of the used nodes are set. */
  method WriteHeader(buffer: array<bv8>, nodeSize: nat, fileSize: uint32, lastLeaf: nat, p: TreeParams) returns (t: TreeHeader)
    requires NodeSize(nodeSize) && lastLeaf <= 1 && fileSize >= (lastLeaf + 1) * nodeSize && buffer.Length >= nodeSize
    modifies buffer
    ensures t.totalNodes == fileSize / nodeSize && LeastMapNodes(nodeSize, t.totalNodes, t.mapNodes)
    ensures lastLeaf + 1 + t.mapNodes + t.freeNodes == t.totalNodes && t.bytesUsed == (lastLeaf + 1) * nodeSize
    ensures t.fLink == if t.mapNodes > 0 then lastLeaf + 1 else 0
    ensures lastLeaf + 1 + t.mapNodes <= NodeBitsInHeader(nodeSize)
    ensures HeaderNode(buffer[..nodeSize], t, p, nodeSize, lastLeaf)
    ensures buffer[nodeSize..] == old(buffer[nodeSize..])
  {
    hide BitAt, LeastMapNodes, Descriptor, HeaderRecord, HeaderOffsets, NodeBitsInHeader, HeaderNode;
    ghost var rest := buffer[nodeSize..];
    forall i | 0 <= i < nodeSize { buffer[i] := 0; }
    assert buffer[nodeSize..] == rest;
    t := SizeMap(nodeSize, fileSize, lastLeaf);
    assert t.totalNodes - t.freeNodes <= 524;
    FillMap(buffer, nodeSize, t.totalNodes - t.freeNodes);
    ghost var s := buffer[..nodeSize];
    var head, offs := Descriptor(t.fLink, HeaderKind, 3) + HeaderRecord(t, p, nodeSize, lastLeaf), HeaderOffsets(nodeSize);
    PutBytes(buffer, nodeSize, 0, head);
    PutBytes(buffer, nodeSize, nodeSize - 8, offs);
    HeaderFilled(s, buffer[..nodeSize], head, offs, t, p, nodeSize, lastLeaf);
  }

  /** Stores bytes in a node. */
  method PutBytes(buffer: array<bv8>, nodeSize: nat, at: nat, data: seq<bv8>)
    requires at + |data| <= nodeSize <= buffer.Length
    modifies buffer
    ensures buffer[..nodeSize] == Splice(old(buffer[..nodeSize]), at, data) && buffer[nodeSize..] == old(buffer[nodeSize..])
  {
    ghost var s, rest := buffer[..nodeSize], buffer[nodeSize..];
    forall i | 0 <= i < |data| { buffer[at + i] := data[i]; }
    assert buffer[nodeSize..] == rest;
    ghost var t := buffer[..nodeSize];
    forall i | 0 <= i < nodeSize ensures t[i] == Splice(s, at, data)[i] {
      if at <= i < at + |data| { assert buffer[at + (i - at)] == data[i - at]; }
    }
  }

  lemma HeaderFilled(s: seq<bv8>, node: seq<bv8>, head: seq<bv8>, offs: seq<bv8>, t: TreeHeader, p: TreeParams, nodeSize: nat, lastLeaf: nat)
    requires |s| == nodeSize && MapOffset + 8 <= nodeSize < 0x1_0000 && lastLeaf < 0x1_0000
    requires t.fLink < 0x1_0000_0000 && t.totalNodes < 0x1_0000_0000 && t.freeNodes < 0x1_0000_0000
    requires head == Descriptor(t.fLink, HeaderKind, 3) + HeaderRecord(t, p, nodeSize, lastLeaf) && offs == HeaderOffsets(nodeSize)
    requires node == Splice(Splice(s, 0, head), nodeSize - 8, offs)
    requires forall i :: 0 <= i < 8 * nodeSize ==> (BitAt(s, i) <==> 8 * MapOffset <= i < 8 * MapOffset + lastLeaf + 1 + t.mapNodes)
    ensures HeaderNode(node, t, p, nodeSize, lastLeaf)
  {
    hide BitAt, Descriptor, HeaderRecord, HeaderOffsets, HeaderFields;
    var lo := NodeDescriptorSize + HeaderRecSize;
    assert |head| == lo && |offs| == 8;
    assert node[..lo] == head;
    assert node[nodeSize - 8..] == offs;
    FieldsInPlace(node, t, p, nodeSize, lastLeaf);
    forall i | 8 * lo <= i < 8 * (nodeSize - 8) ensures BitAt(node, i) == BitAt(s, i) {
      SameBit(s, node, i);
    }
  }

  /** Why the fields are at those offsets. */
  lemma FieldsInPlace(node: seq<bv8>, t: TreeHeader, p: TreeParams, nodeSize: nat, lastLeaf: nat)
    requires |node| == nodeSize && MapOffset + 8 <= nodeSize < 0x1_0000 && lastLeaf < 0x1_0000
    requires t.fLink < 0x1_0000_0000 && t.totalNodes < 0x1_0000_0000 && t.freeNodes < 0x1_0000_0000
    requires node[..NodeDescriptorSize + HeaderRecSize] == Descriptor(t.fLink, HeaderKind, 3) + HeaderRecord(t, p, nodeSize, lastLeaf)
    requires node[nodeSize - 8..] == HeaderOffsets(nodeSize)
    ensures HeaderFields(node, t, p, nodeSize, lastLeaf)
  {
    hide Number16At, NumberAt, LeafFields, SizeFields, OtherFields, Descriptor, HeaderOffsets;
    var d, l, z, o := Descriptor(t.fLink, HeaderKind, 3), LeafFields(p, lastLeaf), SizeFields(t, p, nodeSize), OtherFields(p);
    var offs, middle := HeaderOffsets(nodeSize), node[120..nodeSize - 8];
    Reassemble(node, d, l, z, o, middle, offs);
    DescriptorFields(node, t.fLink, d, l + (z + (o + (middle + offs))));
    LeafFieldsAt(node, d, l, z + (o + (middle + offs)), p, lastLeaf);
    SizeFieldsAt(node, d + l, z, o + (middle + offs), t, p, nodeSize);
    OtherFieldsAt(node, (d + l) + z, o, middle + offs, p);
    OffsetFieldsAt(node, (((d + l) + z) + o) + middle, offs, nodeSize);
  }

  lemma Assoc(a: seq<bv8>, b: seq<bv8>, c: seq<bv8>)
    ensures (a + b) + c == a + (b + c)
  {
  }

  /** The node is its parts, grouped to the right of each in turn. */
  lemma Reassemble(node: seq<bv8>, d: seq<bv8>, l: seq<bv8>, z: seq<bv8>, o: seq<bv8>, middle: seq<bv8>, offs: seq<bv8>)
    requires |node| >= 128 && node[..120] == d + (l + z + o) && middle == node[120..|node| - 8] && node[|node| - 8..] == offs
    ensures node == d + (l + (z + (o + (middle + offs)))) && node == d + l + (z + (o + (middle + offs)))
    ensures node == (d + l) + z + (o + (middle + offs)) && node == ((d + l) + z) + o + (middle + offs)
    ensures node == ((((d + l) + z) + o) + middle) + offs
  {
    assert node == node[..120] + (middle + offs) by { assert middle + offs == node[120..]; }
    Assoc(d, l + z, o);
    Assoc(d, l, z);
    Assoc(((d + l) + z) + o, middle, offs);
    Assoc((d + l) + z, o, middle + offs);
    Assoc(d + l, z, o + (middle + offs));
    Assoc(d, l, z + (o + (middle + offs)));
  }

  lemma DescriptorFields(node: seq<bv8>, fLink: nat, d: seq<bv8>, rest: seq<bv8>)
    requires fLink < 0x1_0000_0000 && d == Descriptor(fLink, HeaderKind, 3) && node == d + rest
    ensures |node| >= 14 && NumberAt(node, 0) == fLink && node[8] == 1 && node[10] == 0 && node[11] == 3
  {
    hide ToBE32, NumberAt;
    var after := [0, 0, 0, 0] + [HeaderKind, 0] + [0, 3] + [0, 0] + rest;
    assert node == [] + ToBE32(fLink) + after;
    StoredNumber([], fLink, after);
  }

  lemma LeafFieldsAt(node: seq<bv8>, d: seq<bv8>, l: seq<bv8>, rest: seq<bv8>, p: TreeParams, lastLeaf: nat)
    requires |d| == 14 && l == LeafFields(p, lastLeaf) && node == d + l + rest && lastLeaf < 0x1_0000
    ensures |node| >= 32 && Number16At(node, 14) == lastLeaf && NumberAt(node, 16) == lastLeaf && NumberAt(node, 20) == p.leafRecords
    ensures NumberAt(node, 24) == lastLeaf && NumberAt(node, 28) == lastLeaf
  {
    hide ToBE32, ToBE16, NumberAt, Number16At;
    var a, b, c, e, f := ToBE16(lastLeaf), ToBE32(lastLeaf), ToBE32(p.leafRecords), ToBE32(lastLeaf), ToBE32(lastLeaf);
    assert node == d + a + (b + c + e + f + rest);
    StoredNumber16(d, lastLeaf, b + c + e + f + rest);
    assert node == (d + a) + b + (c + e + f + rest);
    StoredNumber(d + a, lastLeaf, c + e + f + rest);
    assert node == (d + a + b) + c + (e + f + rest);
    StoredNumber(d + a + b, p.leafRecords, e + f + rest);
    assert node == (d + a + b + c) + e + (f + rest);
    StoredNumber(d + a + b + c, lastLeaf, f + rest);
    assert node == (d + a + b + c + e) + f + rest;
    StoredNumber(d + a + b + c + e, lastLeaf, rest);
  }

  lemma SizeFieldsAt(node: seq<bv8>, d: seq<bv8>, z: seq<bv8>, rest: seq<bv8>, t: TreeHeader, p: TreeParams, nodeSize: nat)
    requires |d| == 32 && z == SizeFields(t, p, nodeSize) && node == d + z + rest && nodeSize < 0x1_0000
    requires t.totalNodes < 0x1_0000_0000 && t.freeNodes < 0x1_0000_0000
    ensures |node| >= 44 && Number16At(node, 32) == nodeSize && Number16At(node, 34) == p.maxKeyLength
    ensures NumberAt(node, 36) == t.totalNodes && NumberAt(node, 40) == t.freeNodes
  {
    hide ToBE32, ToBE16, NumberAt, Number16At;
    var a, b, c, e := ToBE16(nodeSize), ToBE16(p.maxKeyLength), ToBE32(t.totalNodes), ToBE32(t.freeNodes);
    assert node == d + a + (b + c + e + rest);
    StoredNumber16(d, nodeSize, b + c + e + rest);
    assert node == (d + a) + b + (c + e + rest);
    StoredNumber16(d + a, p.maxKeyLength, c + e + rest);
    assert node == (d + a + b) + c + (e + rest);
    StoredNumber(d + a + b, t.totalNodes, e + rest);
    assert node == (d + a + b + c) + e + rest;
    StoredNumber(d + a + b + c, t.freeNodes, rest);
  }

  lemma OtherFieldsAt(node: seq<bv8>, d: seq<bv8>, o: seq<bv8>, rest: seq<bv8>, p: TreeParams)
    requires |d| == 44 && o == OtherFields(p) && node == d + o + rest
    ensures |node| >= 120 && NumberAt(node, 46) == p.clumpSize && node[51] == p.keyCompareType && NumberAt(node, 52) == p.attributes
  {
    hide ToBE32, NumberAt, Zeros;
    var a, b, c, e, f := Zeros(2), ToBE32(p.clumpSize), [0, p.keyCompareType], ToBE32(p.attributes), Zeros(64);
    assert node == (d + a) + b + (c + e + f + rest);
    StoredNumber(d + a, p.clumpSize, c + e + f + rest);
    assert node == (d + a + b + c) + e + (f + rest);
    StoredNumber(d + a + b + c, p.attributes, f + rest);
  }

  lemma OffsetFieldsAt(node: seq<bv8>, d: seq<bv8>, offs: seq<bv8>, nodeSize: nat)
    requires 8 <= nodeSize < 0x1_0000 && |node| == nodeSize && offs == HeaderOffsets(nodeSize) && node == d + offs
    ensures Number16At(node, nodeSize - 2) == 14 && Number16At(node, nodeSize - 4) == 120
    ensures Number16At(node, nodeSize - 6) == 248 && Number16At(node, nodeSize - 8) == nodeSize - 8
  {
    hide ToBE16, Number16At;
    var a, b, c, e := ToBE16(nodeSize - 8), ToBE16(248), ToBE16(120), ToBE16(14);
    assert node == d + a + (b + c + e);
    StoredNumber16(d, nodeSize - 8, b + c + e);
    assert node == (d + a) + b + (c + e);
    StoredNumber16(d + a, 248, c + e);
    assert node == (d + a + b) + c + e;
    StoredNumber16(d + a + b, 120, e);
    assert node == (d + a + b + c) + e + [];
    StoredNumber16(d + a + b + c, 14, []);
  }

  lemma SameBit(s: seq<bv8>, t: seq<bv8>, i: nat)
    requires |s| == |t| && i < 8 * |s| && s[i / 8] == t[i / 8]
    ensures BitAt(t, i) == BitAt(s, i)
  {
  }

  /** The sizes of the map. */
  method SizeMap(nodeSize: nat, fileSize: uint32, lastLeaf: nat) returns (t: TreeHeader)
    requires NodeSize(nodeSize) && lastLeaf <= 1 && fileSize >= (lastLeaf + 1) * nodeSize
    ensures t.totalNodes == fileSize / nodeSize && LeastMapNodes(nodeSize, t.totalNodes, t.mapNodes)
    ensures lastLeaf + 1 + t.mapNodes + t.freeNodes == t.totalNodes && t.bytesUsed == (lastLeaf + 1) * nodeSize
    ensures t.fLink == if t.mapNodes > 0 then lastLeaf + 1 else 0
    ensures t.mapNodes <= 522 && lastLeaf + 1 + t.mapNodes <= NodeBitsInHeader(nodeSize)
  {
    hide LeastMapNodes;
    var totalNodes := fileSize / nodeSize;
    var freeNodes := totalNodes - (lastLeaf + 1);
    var nodeBitsInHeader := NodeBitsInHeader(nodeSize);
    var mapNodes, fLink := 0, 0;
    if totalNodes > nodeBitsInHeader {
      fLink := lastLeaf + 1;
      var nodeBitsInMapNode := NodeBitsInMapNode(nodeSize);
      mapNodes := (totalNodes - nodeBitsInHeader + (nodeBitsInMapNode - 1)) / nodeBitsInMapNode;
      CeilBounds(totalNodes - nodeBitsInHeader, nodeBitsInMapNode);
    }
    CeilIsLeast(nodeSize, totalNodes, mapNodes);
    FewMapNodes(nodeSize, fileSize, mapNodes);
    freeNodes := freeNodes - mapNodes;
    t := TreeHeader(totalNodes, freeNodes, fLink, mapNodes, (totalNodes - freeNodes - mapNodes) * nodeSize);
  }

  const HeaderKind: bv8 := 1
  const MapKind: bv8 := 2

  /** struct BTNodeDescriptor: forward link, backward link, kind, height, number of
      records, reserved. */
  function Descriptor(fLink: nat, kind: bv8, numRecords: bv8): (d: seq<bv8>)
    ensures |d| == NodeDescriptorSize && d[..4] == ToBE32(fLink) && d[8] == kind
  {
    ToBE32(fLink) + [0, 0, 0, 0] + [kind, 0] + [0, numRecords] + [0, 0]
  }

  /** Sets the first `used` bits of the map record of a zeroed node. */
  method FillMap(buffer: array<bv8>, nodeSize: nat, used: nat)
    requires MapOffset + 8 < nodeSize <= buffer.Length && used / 8 < nodeSize - MapOffset - 8
    requires forall i :: 0 <= i < nodeSize ==> buffer[i] == 0
    modifies buffer
    ensures forall i :: 0 <= i < 8 * nodeSize ==> (BitAt(buffer[..nodeSize], i) <==> 8 * MapOffset <= i < 8 * MapOffset + used)
    ensures buffer[nodeSize..] == old(buffer[nodeSize..])
  {
    hide BitAt;
    ghost var rest := buffer[nodeSize..];
    var bmp, temp := MapOffset, used;
    while temp >= 8
      invariant 0 <= temp <= used && 8 * bmp + temp == 8 * MapOffset + used && MapOffset <= bmp
      invariant forall i :: 0 <= i < nodeSize ==> buffer[i] == if MapOffset <= i < bmp then 0xff else 0
      invariant buffer[nodeSize..] == rest
    {
      buffer[bmp] := 0xff;
      temp := temp - 8;
      bmp := bmp + 1;
    }
    buffer[bmp] := !ShiftRight(temp);
    assert buffer[nodeSize..] == rest;
    ghost var s := buffer[..nodeSize];
    forall i | 0 <= i < 8 * nodeSize ensures BitAt(s, i) <==> 8 * MapOffset <= i < 8 * MapOffset + used {
      MapByte(s, i, bmp, temp);
    }
  }

  lemma MapByte(s: seq<bv8>, i: nat, bmp: nat, temp: nat)
    requires i < 8 * |s| && MapOffset <= bmp < |s| && temp < 8
    requires forall j :: 0 <= j < |s| ==> s[j] == if MapOffset <= j < bmp then 0xff else if j == bmp then !ShiftRight(temp) else 0
    ensures BitAt(s, i) <==> 8 * MapOffset <= i < 8 * bmp + temp
  {
    hide Bit, ShiftRight;
    var j, k := i / 8, i % 8;
    if MapOffset <= j < bmp {
      FullBits(k);
    } else if j == bmp {
      NotRight(temp, k);
    } else {
      ZeroBits(s[j]);
    }
  }

  lemma NotRight(t: nat, k: nat)
    requires t < 8 && k < 8
    ensures Bit(!ShiftRight(t), k) <==> k < t
  {
    assert t == 0 || t == 1 || t == 2 || t == 3 || t == 4 || t == 5 || t == 6 || t == 7;
  }

  // ---- Map nodes ----

  /** A map node: a forward link, one record with no bit set, and the record offsets. */
  function MapNode(fLink: nat, nodeSize: nat): (n: seq<bv8>)
    requires nodeSize >= NodeDescriptorSize + 6
    ensures |n| == nodeSize && n[..4] == ToBE32(fLink) && n[8] == MapKind
  {
    Descriptor(fLink, MapKind, 1) + MapTail(nodeSize)
  }

  function MapTail(nodeSize: nat): (s: seq<bv8>)
    requires nodeSize >= NodeDescriptorSize + 6
    ensures |s| == nodeSize - NodeDescriptorSize
  {
    Zeros(nodeSize - NodeDescriptorSize - 4) + (ToBE16(nodeSize - 6) + ToBE16(NodeDescriptorSize))
  }

  /** The forward link of the `i`-th of `n` map nodes, the first of which is node `first`. */
  function LinkOf(first: nat, n: nat, i: nat): nat {
    if i + 1 < n then first + i + 1 else 0
  }

  /** The first `k` of them, one after the other. */
  function MapFile(first: nat, n: nat, k: nat, nodeSize: nat): (s: seq<bv8>)
    requires nodeSize >= NodeDescriptorSize + 6
    ensures |s| == k * nodeSize
  {
    if k == 0 then []
    else
      Distribute(k - 1, 1, nodeSize);
      MapFile(first, n, k - 1, nodeSize) + MapNode(LinkOf(first, n, k - 1), nodeSize)
  }

  lemma {:induction false} MapFileNode(first: nat, n: nat, k: nat, nodeSize: nat, i: nat)
    requires nodeSize >= NodeDescriptorSize + 6 && i < k
    ensures 0 <= i * nodeSize && i * nodeSize + nodeSize <= k * nodeSize
    ensures MapFile(first, n, k, nodeSize)[i * nodeSize..i * nodeSize + nodeSize] == MapNode(LinkOf(first, n, i), nodeSize)
  {
    hide MapNode, MapFile;
    MapFileLast(first, n, k, nodeSize);
    NextNode(i, k, nodeSize);
    var s, node, p := MapFile(first, n, k - 1, nodeSize), MapNode(LinkOf(first, n, k - 1), nodeSize), i * nodeSize;
    if i < k - 1 {
      MapFileNode(first, n, k - 1, nodeSize, i);
      SlicePrefix(s, node, p, p + nodeSize);
    } else {
      SliceSuffix(s, node);
    }
  }

  lemma MapFileLast(first: nat, n: nat, k: nat, nodeSize: nat)
    requires nodeSize >= NodeDescriptorSize + 6 && k > 0
    ensures MapFile(first, n, k, nodeSize) == MapFile(first, n, k - 1, nodeSize) + MapNode(LinkOf(first, n, k - 1), nodeSize)
  {
  }

  lemma SliceSuffix(a: seq<bv8>, b: seq<bv8>)
    ensures (a + b)[|a|..|a| + |b|] == b
  {
  }

  lemma SlicePrefix(a: seq<bv8>, b: seq<bv8>, i: nat, j: nat)
    requires i <= j <= |a|
    ensures (a + b)[i..j] == a[i..j]
  {
  }

  /** The successor of a 16-bit counter. */
  function Next16(i: nat): (j: nat)
    ensures i < 0xffff ==> j == i + 1
  {
    (i + 1) % 0x1_0000
  }

  /** WriteMapNodes: writes the map nodes one after the other from a sector on, each with a
      link to the next; fails exactly when they run past the end of the drive.  The loop
      counter has 16 bits. */
  method WriteMapNodes(d: Drive, diskStart: nat, firstMapNode: nat, mapNodes: nat, btNodeSize: nat, big: bool) returns (ok: bool)
    requires d.Valid() && d.sectorSize <= MaxBuffer && NodeSize(btNodeSize) && mapNodes < 0x1_0000
    modifies d`bytes
    ensures d.Valid() && |d.bytes| == old(|d.bytes|)
    ensures var at := (d.sectorOffset + diskStart) * 512;
            && (ok <==> mapNodes == 0 || NodePos(at, mapNodes, btNodeSize) <= |d.bytes|)
            && (ok ==> MapState(old(d.bytes), d.bytes, at, firstMapNode, mapNodes, mapNodes, btNodeSize))
  {
    NodeSectors(btNodeSize);
    hide MapFile, MapNode, MapState, Drive.Valid, NodePos, Splice, NodeSize, Next16, SectorsPerNode, SectorIs;
    ghost var dev, at := d.bytes, (d.sectorOffset + diskStart) * 512;
    var sectorsPerNode, sector, next := SectorsPerNode(btNodeSize), diskStart, firstMapNode;
    MapStart(dev, at, firstMapNode, mapNodes, btNodeSize);
    assert SectorIs(d.sectorOffset, diskStart, at, 0, btNodeSize) by { FirstSector(d.sectorOffset, diskStart, at, btNodeSize); }
    var i := 0;
    while i < mapNodes
      invariant 0 <= i <= mapNodes && d.Valid() && |d.bytes| == |dev| && (i < mapNodes ==> next == firstMapNode + i)
      invariant SectorIs(d.sectorOffset, sector, at, i, btNodeSize)
      invariant MapState(dev, d.bytes, at, firstMapNode, mapNodes, i, btNodeSize)
    {
      ok, next := WriteMapNode(d, sector, next, mapNodes, i, btNodeSize, big, dev, at, firstMapNode);
      if !ok {
        return;
      }
      sector := sector + sectorsPerNode;
      i := Next16(i);
    }
    MapFits(dev, d.bytes, at, firstMapNode, mapNodes, btNodeSize);
    ok := true;
  }

  /** Sector `sector` is where node `i` of the file at byte `at` starts. */
  ghost predicate SectorIs(offset: nat, sector: nat, at: nat, i: nat, nodeSize: nat) {
    (offset + sector) * 512 == NodePos(at, i, nodeSize)
  }

  /** One map node, with a link to the next one unless it is the last. */
  method WriteMapNode(d: Drive, sector: nat, next: nat, n: nat, i: nat, nodeSize: nat, big: bool,
                      ghost dev: seq<bv8>, ghost at: nat, ghost first: nat)
    returns (ok: bool, next': nat)
    requires d.Valid() && d.sectorSize <= MaxBuffer && NodeSize(nodeSize) && |d.bytes| == |dev|
    requires i < n && next == first + i && SectorIs(d.sectorOffset, sector, at, i, nodeSize)
    requires MapState(dev, d.bytes, at, first, n, i, nodeSize)
    modifies d`bytes
    ensures d.Valid() && |d.bytes| == |dev| && (i + 1 < n ==> next' == first + i + 1)
    ensures SectorIs(d.sectorOffset, sector + SectorsPerNode(nodeSize), at, i + 1, nodeSize)
    ensures !ok ==> NodePos(at, n, nodeSize) > |dev|
    ensures ok ==> MapState(dev, d.bytes, at, first, n, i + 1, nodeSize)
  {
    NodeSectors(nodeSize);
    hide MapFile, MapNode, MapState, Drive.Valid, NodePos, Splice, NodeSize, SectorsPerNode;
    NextPos(at, i, n, nodeSize);
    ghost var before := d.bytes;
    var fLink := 0;
    next' := next;
    if i + 1 < n {
      next' := next + 1;
      fLink := next';
    }
    ok := WriteBytes(d, sector, MapNode(fLink, nodeSize), big);
    if ok { MapMore(dev, before, d.bytes, at, first, n, i, nodeSize); }
  }

  lemma FirstSector(offset: nat, sector: nat, at: nat, nodeSize: nat)
    requires at == (offset + sector) * 512
    ensures SectorIs(offset, sector, at, 0, nodeSize)
  {
    assert 0 * nodeSize == 0;
  }

  lemma NodeSectors(nodeSize: nat)
    requires NodeSize(nodeSize)
    ensures nodeSize >= 1024 && SectorsPerNode(nodeSize) * 512 == nodeSize
  {
  }

  function SectorsPerNode(nodeSize: nat): nat {
    nodeSize / 512
  }

  /** Where node `i` of a file at byte `at` is. */
  function NodePos(at: nat, i: nat, nodeSize: nat): int {
    at + i * nodeSize
  }

  lemma NextPos(at: nat, i: nat, n: nat, nodeSize: nat)
    requires i < n
    ensures NodePos(at, i + 1, nodeSize) == NodePos(at, i, nodeSize) + nodeSize <= NodePos(at, n, nodeSize) && NodePos(at, i, nodeSize) >= at
  {
    NextNode(i, n, nodeSize);
  }

  /** WriteBuffer of a whole buffer. */
  method WriteBytes(d: Drive, sector: nat, data: seq<bv8>, big: bool) returns (ok: bool)
    requires d.Valid() && d.sectorSize <= MaxBuffer && data != []
    modifies d`bytes
    ensures d.Valid() && |d.bytes| == old(|d.bytes|)
    ensures var at := (d.sectorOffset + sector) * 512;
            && (ok <==> at + |data| <= |d.bytes|)
            && (ok ==> d.bytes == Splice(old(d.bytes), at, data))
  {
    hide Written, Aligned;
    ghost var dev, at := d.bytes, (d.sectorOffset + sector) * 512;
    var out; ghost var w;
    out, w := d.WriteBuffer(sector, |data|, data, false, big);
    assert data[..|data|] == data;
    SameLength(dev, d.bytes, at, data, w);
    ok := out == Done;
    if ok { AllWritten(dev, d.bytes, at, data); }
  }

  /** The first `i` map nodes have been written. */
  ghost predicate MapState(dev: seq<bv8>, bytes: seq<bv8>, at: nat, first: nat, n: nat, i: nat, nodeSize: nat)
    requires nodeSize >= NodeDescriptorSize + 6
  {
    && (i == 0 ==> bytes == dev)
    && (i > 0 ==> NodePos(at, i, nodeSize) <= |dev| && bytes == Splice(dev, at, MapFile(first, n, i, nodeSize)))
  }

  lemma MapStart(dev: seq<bv8>, at: nat, first: nat, n: nat, nodeSize: nat)
    requires nodeSize >= NodeDescriptorSize + 6
    ensures MapState(dev, dev, at, first, n, 0, nodeSize) && NodePos(at, 0, nodeSize) == at
  {
    assert 0 * nodeSize == 0;
  }

  lemma MapFits(dev: seq<bv8>, bytes: seq<bv8>, at: nat, first: nat, n: nat, nodeSize: nat)
    requires nodeSize >= NodeDescriptorSize + 6 && MapState(dev, bytes, at, first, n, n, nodeSize)
    ensures n > 0 ==> NodePos(at, n, nodeSize) <= |dev|
  {
  }

  lemma MapEnd(dev: seq<bv8>, bytes: seq<bv8>, at: nat, first: nat, n: nat, nodeSize: nat)
    requires nodeSize >= NodeDescriptorSize + 6 && MapState(dev, bytes, at, first, n, n, nodeSize)
    ensures n == 0 ==> bytes == dev
    ensures n > 0 ==> NodePos(at, n, nodeSize) <= |dev| && bytes == Splice(dev, at, MapFile(first, n, n, nodeSize))
  {
  }

  lemma MapMore(dev: seq<bv8>, before: seq<bv8>, bytes: seq<bv8>, at: nat, first: nat, n: nat, i: nat, nodeSize: nat)
    requires nodeSize >= NodeDescriptorSize + 6 && MapState(dev, before, at, first, n, i, nodeSize) && |before| == |dev|
    requires at <= NodePos(at, i, nodeSize) && NodePos(at, i, nodeSize) + nodeSize <= |dev|
    requires bytes == Splice(before, NodePos(at, i, nodeSize), MapNode(LinkOf(first, n, i), nodeSize))
    ensures MapState(dev, bytes, at, first, n, i + 1, nodeSize)
  {
    MapFileMore(dev, at, first, n, i, nodeSize);
  }

  lemma NextNode(i: nat, n: nat, nodeSize: nat)
    requires i < n
    ensures 0 <= i * nodeSize && (i + 1) * nodeSize == i * nodeSize + nodeSize <= n * nodeSize
  {
    Distribute(i, 1, nodeSize);
    MulMono(i + 1, n, nodeSize);
    MulMono(0, i, nodeSize);
  }

  lemma MapFileMore(dev: seq<bv8>, at: nat, first: nat, n: nat, i: nat, nodeSize: nat)
    requires nodeSize >= NodeDescriptorSize + 6 && 0 <= i * nodeSize && at + i * nodeSize + nodeSize <= |dev|
    ensures (i + 1) * nodeSize == i * nodeSize + nodeSize
    ensures var node := MapNode(LinkOf(first, n, i), nodeSize);
            && (i == 0 ==> Splice(dev, at, node) == Splice(dev, at, MapFile(first, n, 1, nodeSize)))
            && Splice(Splice(dev, at, MapFile(first, n, i, nodeSize)), at + i * nodeSize, node)
               == Splice(dev, at, MapFile(first, n, i + 1, nodeSize))
  {
    hide MapNode;
    Distribute(i, 1, nodeSize);
    var s, node := MapFile(first, n, i, nodeSize), MapNode(LinkOf(first, n, i), nodeSize);
    SpliceAdjacent(dev, at, s, node);
    assert MapFile(first, n, i + 1, nodeSize) == s + node;
    if i == 0 { assert s == [] && s + node == node; }
  }

  // ---- Following the links on the drive ----

  /** A map node, at literal offsets: kind 2, one record, which starts at offset 14 and ends
      six bytes before the end, with no bit set. */
  ghost predicate IsMapNode(node: seq<bv8>)
    requires |node| >= 20
  {
    && node[8] == 2 && node[10] == 0 && node[11] == 1
    && Number16At(node, |node| - 2) == 14 && Number16At(node, |node| - 4) == |node| - 6
    && forall j :: 14 <= j < |node| - 4 ==> node[j] == 0
  }

  lemma MapNodeIs(fLink: nat, nodeSize: nat)
    requires NodeDescriptorSize + 6 <= nodeSize < 0x1_0000
    ensures IsMapNode(MapNode(fLink, nodeSize))
  {
    hide ToBE32, ToBE16, Number16At;
    var d, z, a, b := Descriptor(fLink, MapKind, 1), Zeros(nodeSize - NodeDescriptorSize - 4), ToBE16(nodeSize - 6), ToBE16(14);
    var n := MapNode(fLink, nodeSize);
    assert n == (d + z) + a + b;
    StoredNumber16(d + z, nodeSize - 6, b);
    assert n == (d + z + a) + b + [];
    StoredNumber16(d + z + a, 14, []);
  }

  /** Following forward links from `link` on, in the file at byte `fileAt`, visits exactly
      `nodes`, all of them map nodes, and ends at 0. */
  ghost predicate Reaches(bytes: seq<bv8>, fileAt: nat, nodeSize: nat, link: nat, nodes: seq<nat>)
    decreases |nodes|
  {
    if nodes == [] then link == 0
    else
      var pos := fileAt + nodes[0] * nodeSize;
      && link == nodes[0] != 0 && 20 <= nodeSize && pos + nodeSize <= |bytes| && IsMapNode(bytes[pos..pos + nodeSize])
      && Reaches(bytes, fileAt, nodeSize, NumberAt(bytes, pos), nodes[1..])
  }

  /** The nodes from `lo` up to `hi`. */
  ghost function NodesFrom(lo: nat, hi: nat): (s: seq<nat>)
    requires lo <= hi
    ensures |s| == hi - lo && forall i :: 0 <= i < |s| ==> s[i] == lo + i
    decreases hi - lo
  {
    if lo == hi then [] else [lo] + NodesFrom(lo + 1, hi)
  }

  /** The map node at place `i` is on the drive. */
  ghost predicate HasMapNode(bytes: seq<bv8>, fileAt: nat, nodeSize: nat, first: nat, n: nat, i: nat)
    requires nodeSize >= NodeDescriptorSize + 6
  {
    var pos := fileAt + (first + i) * nodeSize;
    pos >= 0 && pos + nodeSize <= |bytes| && bytes[pos..pos + nodeSize] == MapNode(LinkOf(first, n, i), nodeSize)
  }

  lemma MapNodeThere(bytes: seq<bv8>, fileAt: nat, nodeSize: nat, first: nat, n: nat, i: nat)
    requires NodeDescriptorSize + 6 <= nodeSize < 0x1_0000 && first > 0 && first + n < 0x1_0000_0000 && i < n
    requires HasMapNode(bytes, fileAt, nodeSize, first, n, i)
    ensures var pos := fileAt + (first + i) * nodeSize;
            && pos >= 0 && pos + nodeSize <= |bytes| && IsMapNode(bytes[pos..pos + nodeSize])
            && NumberAt(bytes, pos) == LinkOf(first, n, i)
  {
    hide ToBE32, FromBE32, MapNode, IsMapNode;
    var pos := fileAt + (first + i) * nodeSize;
    MapNodeIs(LinkOf(first, n, i), nodeSize);
    RoundTrip32(LinkOf(first, n, i));
    assert bytes[pos..pos + nodeSize][..4] == bytes[pos..pos + 4];
  }

  lemma {:induction false} ReachesAll(bytes: seq<bv8>, fileAt: nat, nodeSize: nat, first: nat, n: nat, i: nat)
    requires NodeDescriptorSize + 6 <= nodeSize < 0x1_0000 && first > 0 && first + n < 0x1_0000_0000 && i <= n
    requires forall j :: i <= j < n ==> HasMapNode(bytes, fileAt, nodeSize, first, n, j)
    ensures Reaches(bytes, fileAt, nodeSize, if i < n then first + i else 0, NodesFrom(first + i, first + n))
    decreases n - i
  {
    hide NumberAt, IsMapNode, HasMapNode;
    if i < n {
      assert HasMapNode(bytes, fileAt, nodeSize, first, n, i);
      MapNodeThere(bytes, fileAt, nodeSize, first, n, i);
      ReachesAll(bytes, fileAt, nodeSize, first, n, i + 1);
      var s := NodesFrom(first + i, first + n);
      assert s[1..] == NodesFrom(first + i + 1, first + n);
    }
  }

  /** A tree on a drive: the header node with its map record, and following the forward
      links in the drive's bytes from it on visits exactly the map nodes, each once, and
      ends at 0. */
  ghost predicate TreeAt(bytes: seq<bv8>, at: nat, t: TreeHeader, p: TreeParams, nodeSize: nat, lastLeaf: nat) {
    && at + nodeSize <= |bytes| && nodeSize >= 4
    && HeaderNode(bytes[at..at + nodeSize], t, p, nodeSize, lastLeaf)
    && Reaches(bytes, at, nodeSize, NumberAt(bytes, at), NodesFrom(lastLeaf + 1, lastLeaf + 1 + t.mapNodes))
  }

  /** No byte outside the range has changed. */
  ghost predicate Outside(dev: seq<bv8>, bytes: seq<bv8>, at: nat, n: nat) {
    |bytes| == |dev| && forall j :: 0 <= j < |dev| && !(at <= j < at + n) ==> bytes[j] == dev[j]
  }

  /** The header node and the map nodes of a new tree, written to the drive, and nothing
      outside them but the root node.  It fails exactly when the used nodes run past the
      end of the drive. */
  method WriteTree(d: Drive, buffer: array<bv8>, sector: nat, nodeSize: nat, fileSize: uint32, lastLeaf: nat, p: TreeParams, big: bool)
    returns (t: TreeHeader, ok: bool)
    requires d.Valid() && d.sectorSize <= MaxBuffer
    requires NodeSize(nodeSize) && lastLeaf <= 1 && fileSize >= (lastLeaf + 1) * nodeSize
    requires buffer.Length >= (lastLeaf + 1) * nodeSize
    modifies buffer, d`bytes
    ensures d.Valid() && |d.bytes| == old(|d.bytes|)
    ensures LeastMapNodes(nodeSize, fileSize / nodeSize, t.mapNodes)
    ensures t.totalNodes == lastLeaf + 1 + t.mapNodes + t.freeNodes == fileSize / nodeSize
    ensures var at := (d.sectorOffset + sector) * 512;
            var used := (lastLeaf + 1 + t.mapNodes) * nodeSize;
            && 0 <= used && (ok <==> at + used <= |d.bytes|)
            && (ok ==> TreeAt(d.bytes, at, t, p, nodeSize, lastLeaf) && Outside(old(d.bytes), d.bytes, at, used))
  {
    hide LeastMapNodes, Reaches, Aligned, MapFile, HeaderNode, BitAt, ToBE32, FromBE32, NodeBitsInHeader, NumberAt, Outside;
    t := WriteHeader(buffer, nodeSize, fileSize, lastLeaf, p);
    FewMapNodes(nodeSize, fileSize, t.mapNodes);
    NodesInBytes(lastLeaf + 1, t.mapNodes, nodeSize);
    var data := buffer[..t.bytesUsed];
    assert data[..nodeSize] == buffer[..nodeSize];
    assert data[..4] == ToBE32(t.fLink) by { HeaderLink(data[..nodeSize], t, p, nodeSize, lastLeaf); assert data[..nodeSize][..4] == data[..4]; }
    ok := WriteNodes(d, data, sector, nodeSize, lastLeaf + 1, t.mapNodes, big);
  }

  lemma HeaderLink(node: seq<bv8>, t: TreeHeader, p: TreeParams, nodeSize: nat, lastLeaf: nat)
    requires HeaderNode(node, t, p, nodeSize, lastLeaf)
    ensures |node| >= 4 && node[..4] == ToBE32(t.fLink)
  {
    hide Descriptor, HeaderRecord, BitAt, ToBE32, HeaderFields;
    var d := Descriptor(t.fLink, HeaderKind, 3);
    assert (d + HeaderRecord(t, p, nodeSize, lastLeaf))[..4] == d[..4];
    assert node[..NodeDescriptorSize + HeaderRecSize][..4] == node[..4];
  }

  /** The used nodes of a file: the first ones from a buffer, then the map nodes. */
  method WriteNodes(d: Drive, data: seq<bv8>, sector: nat, nodeSize: nat, ghost first: nat, mapNodes: nat, big: bool) returns (ok: bool)
    requires d.Valid() && d.sectorSize <= MaxBuffer && NodeSize(nodeSize) && mapNodes <= 522
    requires 0 < first <= 2 && |data| == first * nodeSize >= nodeSize && 0 <= (first + mapNodes) * nodeSize
    requires data[..4] == ToBE32(if mapNodes > 0 then first else 0)
    modifies d`bytes
    ensures d.Valid() && |d.bytes| == old(|d.bytes|)
    ensures var at := (d.sectorOffset + sector) * 512;
            && (ok <==> at + (first + mapNodes) * nodeSize <= |d.bytes|)
            && (ok ==>
                  && at + nodeSize <= |d.bytes| && d.bytes[at..at + nodeSize] == data[..nodeSize]
                  && Reaches(d.bytes, at, nodeSize, NumberAt(d.bytes, at), NodesFrom(first, first + mapNodes))
                  && Outside(old(d.bytes), d.bytes, at, (first + mapNodes) * nodeSize))
  {
    hide Reaches, Aligned, MapFile, ToBE32, NumberAt, MapState, Outside;
    ghost var dev, at := d.bytes, (d.sectorOffset + sector) * 512;
    NodesInBytes(first, mapNodes, nodeSize);
    ok := WriteBytes(d, sector, data, big);
    if !ok {
      return;
    }
    ghost var mid := d.bytes;
    var firstMapNode := |data| / nodeSize;
    QuotientUnique(nodeSize, |data|, first, 0);
    if mapNodes > 0 {
      ok := WriteMapNodes(d, sector + |data| / 512, firstMapNode, mapNodes, nodeSize, big);
    }
    if ok {
      if mapNodes > 0 { MapEnd(mid, d.bytes, at + |data|, first, mapNodes, nodeSize); }
      TreeOnDrive(dev, mid, d.bytes, at, data, first, mapNodes, nodeSize);
    }
  }

  lemma NodesInBytes(first: nat, n: nat, nodeSize: nat)
    ensures (first + n) * nodeSize == first * nodeSize + n * nodeSize && 0 <= n * nodeSize
  {
    Distribute(first, n, nodeSize);
    MulMono(0, n, nodeSize);
  }

  /** What the bytes of the drive are after WriteTree, and where they lead. */
  lemma TreeOnDrive(dev: seq<bv8>, mid: seq<bv8>, bytes: seq<bv8>, at: nat, data: seq<bv8>, first: nat, n: nat, nodeSize: nat)
    requires NodeDescriptorSize + 6 <= nodeSize < 0x1_0000 && 0 < first <= 2 && n <= 522 && |data| == first * nodeSize && 0 <= n * nodeSize
    requires at + |data| <= |dev| && mid == Splice(dev, at, data) && data[..4] == ToBE32(if n > 0 then first else 0)
    requires n == 0 ==> bytes == mid
    requires n > 0 ==> at + |data| + n * nodeSize <= |dev| && bytes == Splice(mid, at + |data|, MapFile(first, n, n, nodeSize))
    ensures |bytes| == |dev| && at + nodeSize <= |bytes| && nodeSize <= |data| && bytes[at..at + nodeSize] == data[..nodeSize]
    ensures Reaches(bytes, at, nodeSize, NumberAt(bytes, at), NodesFrom(first, first + n))
    ensures Outside(dev, bytes, at, first * nodeSize + n * nodeSize)
  {
    hide Reaches, MapFile, MapNode, ToBE32, FromBE32;
    RoundTrip32(if n > 0 then first else 0);
    MulMono(1, first, nodeSize);
    assert bytes[at..at + 4] == data[..4];
    forall j | 0 <= j < n ensures HasMapNode(bytes, at, nodeSize, first, n, j) {
      MapNodeOnDrive(mid, bytes, at + |data|, at, first, n, nodeSize, j);
    }
    ReachesAll(bytes, at, nodeSize, first, n, 0);
  }

  lemma MapNodeOnDrive(mid: seq<bv8>, bytes: seq<bv8>, p: nat, at: nat, first: nat, n: nat, nodeSize: nat, j: nat)
    requires nodeSize >= NodeDescriptorSize + 6 && j < n && p == at + first * nodeSize
    requires 0 <= n * nodeSize && p + n * nodeSize <= |mid| && bytes == Splice(mid, p, MapFile(first, n, n, nodeSize))
    ensures HasMapNode(bytes, at, nodeSize, first, n, j)
  {
    hide MapFile, MapNode;
    MapFileNode(first, n, n, nodeSize, j);
    Distribute(first, j, nodeSize);
    var f, node, q := MapFile(first, n, n, nodeSize), MapNode(LinkOf(first, n, j), nodeSize), j * nodeSize;
    forall i | 0 <= i < nodeSize ensures bytes[p + q + i] == node[i] {
      assert f[q..q + nodeSize][i] == f[q + i];
    }
    assert bytes[p + q..p + q + nodeSize] == node;
  }

  // ---- Other writes leave a tree alone ----

  /** `t` has the bytes of `s` in the range. */
  ghost predicate Agree(s: seq<bv8>, t: seq<bv8>, at: nat, n: nat) {
    |t| == |s| && forall j :: at <= j < at + n && j < |s| ==> t[j] == s[j]
  }

  lemma {:induction false} ReachesFrame(s: seq<bv8>, t: seq<bv8>, at: nat, nodeSize: nat, link: nat, lo: nat, hi: nat)
    requires lo <= hi && nodeSize >= NodeDescriptorSize && 0 <= hi * nodeSize && Agree(s, t, at, hi * nodeSize)
    requires Reaches(s, at, nodeSize, link, NodesFrom(lo, hi))
    ensures Reaches(t, at, nodeSize, link, NodesFrom(lo, hi))
    decreases hi - lo
  {
    hide IsMapNode, NumberAt, Agree;
    if lo < hi {
      var nodes := NodesFrom(lo, hi);
      var pos := at + lo * nodeSize;
      NextNode(lo, hi, nodeSize);
      assert nodes[0] == lo && nodes[1..] == NodesFrom(lo + 1, hi);
      SameNode(s, t, at, hi * nodeSize, pos, nodeSize);
      ReachesFrame(s, t, at, nodeSize, NumberAt(s, pos), lo + 1, hi);
    }
  }

  lemma SameNode(s: seq<bv8>, t: seq<bv8>, at: nat, n: nat, pos: nat, k: nat)
    requires Agree(s, t, at, n) && at <= pos && pos + k <= at + n && pos + k <= |s| && k >= 4
    ensures |t| == |s| && t[pos..pos + k] == s[pos..pos + k] && NumberAt(t, pos) == NumberAt(s, pos)
  {
    hide FromBE32;
    assert t[pos..pos + 4] == s[pos..pos + 4];
  }

  lemma TreeFrame(s: seq<bv8>, u: seq<bv8>, at: nat, t: TreeHeader, p: TreeParams, nodeSize: nat, lastLeaf: nat, used: nat)
    requires used == (lastLeaf + 1 + t.mapNodes) * nodeSize && nodeSize >= NodeDescriptorSize
    requires Agree(s, u, at, used)
    requires TreeAt(s, at, t, p, nodeSize, lastLeaf)
    ensures TreeAt(u, at, t, p, nodeSize, lastLeaf)
  {
    hide HeaderNode, Reaches, Agree;
    MulMono(1, lastLeaf + 1 + t.mapNodes, nodeSize);
    AgreeSlice(s, u, at, used, nodeSize);
    AgreeSlice(s, u, at, used, 4);
    ReachesFrame(s, u, at, nodeSize, NumberAt(s, at), lastLeaf + 1, lastLeaf + 1 + t.mapNodes);
  }

  lemma AgreeSlice(s: seq<bv8>, u: seq<bv8>, at: nat, n: nat, k: nat)
    requires Agree(s, u, at, n) && k <= n && at + k <= |s|
    ensures |u| == |s| && u[at..at + k] == s[at..at + k]
  {
  }
}
