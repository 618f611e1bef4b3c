/** Numbers as the big-endian bytes that a volume stores
    (the SWAP_BE32 of src/newfs_hfs/makehfs.c). */
module BigEndian {
  import opened Bytes

  type uint16 = x: int | 0 <= x < 0x1_0000 witness 0

  predicate Odd(x: nat) {
    x % 2 == 1
  }

  function Flag(b: bool, mask: bv8): bv8 {
    if b then mask else 0
  }

  function Weight(b: bool, w: nat): nat {
    if b then w else 0
  }

  /** The byte with the bits of `x`, and back. */
  function ByteOf(x: nat): bv8 {
    var h, l := x / 16, x % 16;
    Flag(Odd(h / 8), 0x80) | Flag(Odd(h / 4), 0x40) | Flag(Odd(h / 2), 0x20) | Flag(Odd(h), 0x10)
    | Flag(Odd(l / 8), 0x08) | Flag(Odd(l / 4), 0x04) | Flag(Odd(l / 2), 0x02) | Flag(Odd(l), 0x01)
  }

  function NumberOf(b: bv8): nat {
    Weight(b & 0x80 != 0, 128) + Weight(b & 0x40 != 0, 64) + Weight(b & 0x20 != 0, 32) + Weight(b & 0x10 != 0, 16)
    + Weight(b & 0x08 != 0, 8) + Weight(b & 0x04 != 0, 4) + Weight(b & 0x02 != 0, 2) + Weight(b & 0x01 != 0, 1)
  }

  lemma Flags(a: bool, b: bool, c: bool, d: bool, e: bool, f: bool, g: bool, h: bool)
    ensures var x := Flag(a, 0x80) | Flag(b, 0x40) | Flag(c, 0x20) | Flag(d, 0x10)
                     | Flag(e, 0x08) | Flag(f, 0x04) | Flag(g, 0x02) | Flag(h, 0x01);
            NumberOf(x) == Weight(a, 128) + Weight(b, 64) + Weight(c, 32) + Weight(d, 16)
                           + Weight(e, 8) + Weight(f, 4) + Weight(g, 2) + Weight(h, 1)
  {
  }

  lemma Nibble(x: nat)
    requires x < 16
    ensures x == Weight(Odd(x / 8), 8) + Weight(Odd(x / 4), 4) + Weight(Odd(x / 2), 2) + Weight(Odd(x), 1)
  {
  }

  lemma Sixteen(a: bool, b: bool, c: bool, d: bool)
    ensures 16 * (Weight(a, 8) + Weight(b, 4) + Weight(c, 2) + Weight(d, 1))
            == Weight(a, 128) + Weight(b, 64) + Weight(c, 32) + Weight(d, 16)
  {
  }

  lemma ByteRoundTrip(x: nat)
    requires x < 256
    ensures NumberOf(ByteOf(x)) == x
  {
    hide NumberOf, Odd, Weight;
    var h, l := x / 16, x % 16;
    Flags(Odd(h / 8), Odd(h / 4), Odd(h / 2), Odd(h), Odd(l / 8), Odd(l / 4), Odd(l / 2), Odd(l));
    Nibble(h);
    Nibble(l);
    Sixteen(Odd(h / 8), Odd(h / 4), Odd(h / 2), Odd(h));
  }

  function ToBE32(x: nat): (s: seq<bv8>)
    ensures |s| == 4
  {
    [ByteOf(x / 256 / 256 / 256), ByteOf(x / 256 / 256 % 256), ByteOf(x / 256 % 256), ByteOf(x % 256)]
  }

  function ToBE16(x: nat): (s: seq<bv8>)
    ensures |s| == 2
  {
    [ByteOf(x / 256), ByteOf(x % 256)]
  }

  function FromBE32(s: seq<bv8>): nat
    requires |s| == 4
  {
    ((NumberOf(s[0]) * 256 + NumberOf(s[1])) * 256 + NumberOf(s[2])) * 256 + NumberOf(s[3])
  }

  lemma RoundTrip32(x: nat)
    requires x < 0x1_0000_0000
    ensures FromBE32(ToBE32(x)) == x
  {
    hide ByteOf, NumberOf;
    var a := x / 256;
    var b := a / 256;
    var c := b / 256;
    assert a < 0x100_0000 && b < 0x1_0000 && c < 256;
    ByteRoundTrip(c);
    ByteRoundTrip(b % 256);
    ByteRoundTrip(a % 256);
    ByteRoundTrip(x % 256);
  }

  function FromBE16(s: seq<bv8>): nat
    requires |s| == 2
  {
    NumberOf(s[0]) * 256 + NumberOf(s[1])
  }

  lemma RoundTrip16(x: uint16)
    ensures FromBE16(ToBE16(x)) == x
  {
    hide ByteOf, NumberOf;
    ByteRoundTrip(x / 256);
    ByteRoundTrip(x % 256);
  }

  /** The numbers stored at byte `pos`, of 32 and of 16 bits. */
  function NumberAt(bytes: seq<bv8>, pos: nat): nat
    requires pos + 4 <= |bytes|
  {
    FromBE32(bytes[pos..pos + 4])
  }

  function Number16At(bytes: seq<bv8>, pos: nat): nat
    requires pos + 2 <= |bytes|
  {
    FromBE16(bytes[pos..pos + 2])
  }

  /** A number that lies between other bytes. */
  lemma StoredNumber(a: seq<bv8>, x: uint32, b: seq<bv8>)
    ensures NumberAt(a + ToBE32(x) + b, |a|) == x
  {
    hide ToBE32, FromBE32;
    assert (a + ToBE32(x) + b)[|a|..|a| + 4] == ToBE32(x);
    RoundTrip32(x);
  }

  lemma StoredNumber16(a: seq<bv8>, x: uint16, b: seq<bv8>)
    ensures Number16At(a + ToBE16(x) + b, |a|) == x
  {
    hide ToBE16, FromBE16;
    assert (a + ToBE16(x) + b)[|a|..|a| + 2] == ToBE16(x);
    RoundTrip16(x);
  }
}
