/** Segment descriptors: packing base, limit and access byte into the eight bytes the processor reads (gdt.c).
    Masks and shifts are written as remainders and quotients by powers of two, and an or of disjoint bits as a sum. */
module Gdt {
  import opened Words

  type half = x: int | 0 <= x < 0x1_0000

  /** The largest limit taken for byte granularity: in gdt.h, and the largest one that fits the field. */
  const AS_WRITTEN: word := 0x10_0000
  const REPAIRED: word := 0xF_FFFF

  const FLAG_4KB_BLOCKS: byte := 8
  const FLAG_32BIT_SEGMENT: byte := 4

  /** struct gdt */
  datatype Segment = Segment(base: word, limit: word, access: byte)

  /** struct gdt_raw */
  class RawEntry {
    var limitLow: half
    var baseLow: half
    var baseMid: byte
    var access: byte
    var limitHighAndFlags: byte
    var baseHigh: byte

    constructor ()
      ensures Bytes() == [0, 0, 0, 0, 0, 0, 0, 0]
    {
      limitLow, baseLow, baseMid, access, limitHighAndFlags, baseHigh := 0, 0, 0, 0, 0, 0;
    }

    /** The packed struct in memory, low bytes first. */
    function Bytes(): (b: seq<byte>)
      reads this
      ensures |b| == 8
    {
      [First(limitLow), Second(limitLow), First(baseLow), Second(baseLow), baseMid, access, limitHighAndFlags, baseHigh]
    }
  }

  /** The bytes of a 16-bit field in memory order. */
  function First(x: half): byte {
    x % 0x100
  }

  function Second(x: half): byte {
    x / 0x100
  }

  // ---- the processor's reading (Intel SDM Vol. 3A, section 3.4.5) ----

  /** A descriptor as the processor takes it apart; limit is the last offset inside the segment. */
  datatype Descriptor = Descriptor(base: int, limit: int, access: byte, big: bool, long: bool)

  function Decode(b: seq<byte>): Descriptor
    requires |b| == 8
  {
    var b0: int, b1: int, b2: int, b3: int, b4: int, b6: int, b7: int := b[0], b[1], b[2], b[3], b[4], b[6], b[7];
    var field := b0 + 0x100 * b1 + 0x1_0000 * (b6 % 16);
    Descriptor(b2 + 0x100 * b3 + 0x1_0000 * b4 + 0x100_0000 * b7,
      if b6 / 128 == 1 then 4096 * field + 4095 else field,
      b[5], b6 / 64 % 2 == 1, b6 / 32 % 2 == 1)
  }

  /** What a 32-bit segment should read as. */
  function Meant(s: Segment): Descriptor {
    Descriptor(s.base, s.limit, s.access, true, false)
  }

  /** Limits a descriptor can hold at all. */
  predicate Representable(limit: word) {
    limit <= 0xF_FFFF || limit % 4096 == 4095
  }

  // ---- the encoder ----

  /** Limits the encoder accepts; for others the kernel panics. */
  predicate Accepted(limit: word, byteMode: word) {
    limit <= byteMode || limit % 4096 == 4095
  }

  /** The bytes for s, each with the eight bits the SDM puts there. */
  function Encoded(s: Segment, byteMode: word): (b: seq<byte>)
    ensures |b| == 8
  {
    var l: int := if s.limit > byteMode then s.limit / 4096 else s.limit;
    [l % 0x100, l / 0x100 % 0x100, s.base % 0x100, s.base / 0x100 % 0x100, s.base / 0x1_0000 % 0x100, s.access,
     l / 0x1_0000 % 16 + (if s.limit > byteMode then 0xC0 else 0x40), s.base / 0x100_0000]
  }

  lemma DecodedBase(s: Segment, byteMode: word)
    ensures var d := Decode(Encoded(s, byteMode)); d.base == s.base && d.access == s.access && d.big && !d.long
  {
    FourBytes(s.base);
  }

  lemma DecodedLimit(s: Segment, byteMode: word)
    requires byteMode <= 0x10_0000
    ensures Decode(Encoded(s, byteMode)).limit ==
      if s.limit > byteMode then s.limit - s.limit % 4096 + 4095 else s.limit % 0x10_0000
  {
    if s.limit > byteMode {
      LimitField(s.limit / 4096);
      HighBits(s.limit / 4096 / 0x1_0000 % 16, 0xC0);
    } else {
      LimitField(s.limit);
      HighBits(s.limit / 0x1_0000 % 16, 0x40);
    }
  }

  /** The twenty bits a descriptor keeps of a limit. */
  lemma LimitField(x: word)
    ensures x % 0x100 + 0x100 * (x / 0x100 % 0x100) + 0x1_0000 * (x / 0x1_0000 % 16) == x % 0x10_0000
  {
    assert x / 0x1_0000 == x / 0x100 / 0x100;
    assert x / 0x1_0000 == 16 * (x / 0x10_0000) + x / 0x1_0000 % 16;
  }

  lemma HighBits(nibble: nat, flags: nat)
    requires nibble < 16 && (flags == 0xC0 || flags == 0x40)
    ensures (nibble + flags) % 16 == nibble && ((nibble + flags) / 128 == 1 <==> flags == 0xC0)
  {
  }

  /** Accepted, and read back as meant: exactly the segments whose limit a descriptor can hold. */
  lemma RoundTrip(s: Segment)
    ensures Accepted(s.limit, AS_WRITTEN) && Decode(Encoded(s, AS_WRITTEN)) == Meant(s) <==> Representable(s.limit)
  {
    hide Encoded;
    hide Decode;
    DecodedBase(s, AS_WRITTEN);
    DecodedLimit(s, AS_WRITTEN);
  }

  /** The one limit that is accepted and lost: a segment of a megabyte and a byte shrinks to one byte. */
  lemma LostLimit(s: Segment)
    ensures Accepted(s.limit, AS_WRITTEN) && Decode(Encoded(s, AS_WRITTEN)) != Meant(s) <==> s.limit == 0x10_0000
    ensures s.limit == 0x10_0000 ==> Decode(Encoded(s, AS_WRITTEN)).limit == 0
  {
    hide Encoded;
    hide Decode;
    DecodedBase(s, AS_WRITTEN);
    DecodedLimit(s, AS_WRITTEN);
  }

  /** With the boundary one lower, what is accepted is what can be held, and all of it survives. */
  lemma RepairedRoundTrip(s: Segment)
    ensures Accepted(s.limit, REPAIRED) <==> Representable(s.limit)
    ensures Accepted(s.limit, REPAIRED) ==> Decode(Encoded(s, REPAIRED)) == Meant(s)
  {
    hide Encoded;
    hide Decode;
    DecodedBase(s, REPAIRED);
    DecodedLimit(s, REPAIRED);
  }

  /** Two descriptors byte by byte: the kernel's flat code segment, and one whose every nibble is different. */
  lemma KnownBytes()
    ensures Encoded(Segment(0, 0xFFFF_FFFF, 0x9A), AS_WRITTEN) == [0xFF, 0xFF, 0x00, 0x00, 0x00, 0x9A, 0xCF, 0x00]
    ensures Encoded(Segment(0x1234_5678, 0xA_BCDE, 0x89), AS_WRITTEN) == [0xDE, 0xBC, 0x78, 0x56, 0x34, 0x89, 0x4A, 0x12]
  {
  }

  /** encode_gdt_entry; false is the kernel's panic, with nothing written. */
  method EncodeEntry(target: RawEntry, source: Segment, byteMode: word) returns (ok: bool)
    modifies target
    ensures ok <==> Accepted(source.limit, byteMode)
    ensures target.Bytes() == if ok then Encoded(source, byteMode) else old(target.Bytes())
  {
    if source.limit > byteMode && source.limit % 4096 != 4095 {
      return false;
    }
    var limit: int, flags: int := source.limit, FLAG_32BIT_SEGMENT;
    if limit > byteMode {
      flags := flags + FLAG_4KB_BLOCKS;
      limit := limit / 4096;
    }
    target.limitLow := limit % 0x1_0000;
    target.limitHighAndFlags := limit / 0x1_0000 % 16 + 16 * flags;
    target.baseLow := source.base % 0x1_0000;
    target.baseMid := source.base / 0x1_0000 % 0x100;
    target.baseHigh := source.base / 0x100_0000;
    target.access := source.access;
    HalfIsTwoBytes(limit);
    HalfIsTwoBytes(source.base);
    ok := true;
  }

  lemma HalfIsTwoBytes(x: word)
    ensures First(x % 0x1_0000) == x % 0x100 && Second(x % 0x1_0000) == x / 0x100 % 0x100
  {
    FourBytes(x);
  }

  /** get_raw_gdt_struct: the whole table, up to the entry that makes the kernel panic, if there is one. With no
      entries it still clears the first four bytes of the table. */
  method GetRawTable(raw: array<RawEntry>, gdt: seq<Segment>, byteMode: word) returns (ok: bool)
    requires raw.Length >= |gdt| && raw.Length > 0
    requires forall i, j :: 0 <= i < j < raw.Length ==> raw[i] != raw[j]
    modifies raw[..]
    ensures ok <==> forall i :: 0 <= i < |gdt| ==> Accepted(gdt[i].limit, byteMode)
    ensures ok ==> forall i :: 0 <= i < |gdt| ==> raw[i].Bytes() == Encoded(gdt[i], byteMode)
    ensures forall i :: |gdt| <= i < raw.Length && i > 0 ==> raw[i].Bytes() == old(raw[i].Bytes())
    ensures |gdt| == 0 ==> raw[0].Bytes() == [0, 0, 0, 0] + old(raw[0].Bytes())[4..]
  {
    hide Encoded;
    hide Accepted;
    // The clearing before the loop covers as many bytes as a pointer has: four.
    raw[0].limitLow, raw[0].baseLow := 0, 0;
    var i := 0;
    while i < |gdt|
      invariant 0 <= i <= |gdt|
      invariant forall k :: 0 <= k < i ==> Accepted(gdt[k].limit, byteMode) && raw[k].Bytes() == Encoded(gdt[k], byteMode)
      invariant forall k :: |gdt| <= k < raw.Length && k > 0 ==> raw[k].Bytes() == old(raw[k].Bytes())
      invariant |gdt| == 0 ==> raw[0].Bytes() == [0, 0, 0, 0] + old(raw[0].Bytes())[4..]
    {
      var one := EncodeEntry(raw[i], gdt[i], byteMode);
      if !one {
        return false;
      }
      i := i + 1;
    }
    return true;
  }
}
