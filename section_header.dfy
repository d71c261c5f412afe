/**
 * IMAGE_SECTION_HEADER and the RVA-to-file-offset mapping that every
 * directory loader goes through.
 */
module SectionHeaders {
  import opened Bytes
  import opened Results
  import opened Text

  const SECTION_HEADER_SIZE: nat := 40

  datatype SectionHeader = SectionHeader(
    name: Str, physicalAddress: uint32, virtualAddress: uint32,
    sizeOfRawData: uint32, pointerToRawData: uint32,
    pointerToRelocations: uint32, pointerToLinenumbers: uint32,
    numberOfRelocations: uint16, numberOfLinenumbers: uint16,
    characteristics: uint32)
  {
    /** VirtualSize shares its storage with PhysicalAddress. */
    function VirtualSize(): uint32 { physicalAddress }

    /** The size the lookup uses: VirtualSize, or SizeOfRawData when VirtualSize is zero. */
    function Extent(): uint32
    {
      if VirtualSize() == 0 then sizeOfRawData else VirtualSize()
    }

    /** The lookup's test; the upper bound is computed in 32-bit arithmetic and may wrap. */
    predicate Contains(rva: uint32)
    {
      rva >= virtualAddress && rva < Wrap32(virtualAddress + Extent())
    }
  }

  /** `new SectionHeader(span)`: the name is the first 8 bytes as UTF-8, without NULs, trimmed. */
  function DecodeSectionHeader(data: seq<uint8>): (r: Result<SectionHeader>)
    ensures r.Ok? <==> |data| >= SECTION_HEADER_SIZE
    ensures r.Ok? ==> NUL !in r.value.name && |r.value.name| <= 8
  {
    if |data| < SECTION_HEADER_SIZE then Err(Argument)
    else Ok(SectionHeader(
      Clean(Utf8(data[0..8])), LE32(data, 8), LE32(data, 12), LE32(data, 16), LE32(data, 20),
      LE32(data, 24), LE32(data, 28), LE16(data, 32), LE16(data, 34), LE32(data, 36)))
  }

  /** The 40-byte record for `h`, with `nameBytes` in the name field. */
  function EncodeSectionHeader(h: SectionHeader, nameBytes: seq<uint8>): (r: seq<uint8>)
    requires |nameBytes| == 8
    ensures |r| == SECTION_HEADER_SIZE
  {
    nameBytes + AddressBytes(h) + CountBytes(h)
  }

  /** Bytes 8..24: the physical address, the virtual address, the raw-data size and the raw-data pointer. */
  function AddressBytes(h: SectionHeader): (r: seq<uint8>)
    ensures |r| == 16
  {
    Bytes32(h.physicalAddress) + Bytes32(h.virtualAddress) + Bytes32(h.sizeOfRawData) + Bytes32(h.pointerToRawData)
  }

  /** Bytes 24..40: the relocation and line-number pointers and counts, and the characteristics. */
  function CountBytes(h: SectionHeader): (r: seq<uint8>)
    ensures |r| == 16
  {
    Bytes32(h.pointerToRelocations) + Bytes32(h.pointerToLinenumbers)
      + Bytes16(h.numberOfRelocations) + Bytes16(h.numberOfLinenumbers) + Bytes32(h.characteristics)
  }

  /** The four fields of bytes 8..24 read back from their encoding. */
  lemma AddressBytesRead(h: SectionHeader)
    ensures var a := AddressBytes(h);
      && LE32(a, 0) == h.physicalAddress && LE32(a, 4) == h.virtualAddress
      && LE32(a, 8) == h.sizeOfRawData && LE32(a, 12) == h.pointerToRawData
  {
    var p1 := Bytes32(h.physicalAddress);
    var p2 := p1 + Bytes32(h.virtualAddress);
    var p3 := p2 + Bytes32(h.sizeOfRawData);
    var last := Bytes32(h.pointerToRawData);
    LE32Prefix(p3, last, 0); LE32Prefix(p2, Bytes32(h.sizeOfRawData), 0); LE32Prefix(p1, Bytes32(h.virtualAddress), 0);
    LE32Self(h.physicalAddress);
    LE32Prefix(p3, last, 4); LE32Prefix(p2, Bytes32(h.sizeOfRawData), 4); LE32Shift(p1, Bytes32(h.virtualAddress), 0);
    LE32Self(h.virtualAddress);
    LE32Prefix(p3, last, 8); LE32Shift(p2, Bytes32(h.sizeOfRawData), 0);
    LE32Self(h.sizeOfRawData);
    LE32Shift(p3, last, 0);
    LE32Self(h.pointerToRawData);
  }

  /** The five fields of bytes 24..40 read back from their encoding. */
  lemma CountBytesRead(h: SectionHeader)
    ensures var c := CountBytes(h);
      && LE32(c, 0) == h.pointerToRelocations && LE32(c, 4) == h.pointerToLinenumbers
      && LE16(c, 8) == h.numberOfRelocations && LE16(c, 10) == h.numberOfLinenumbers
      && LE32(c, 12) == h.characteristics
  {
    var q1 := Bytes32(h.pointerToRelocations);
    var q2 := q1 + Bytes32(h.pointerToLinenumbers);
    var q3 := q2 + Bytes16(h.numberOfRelocations);
    var q4 := q3 + Bytes16(h.numberOfLinenumbers);
    var last := Bytes32(h.characteristics);
    LE32Prefix(q4, last, 0); LE32Prefix(q3, Bytes16(h.numberOfLinenumbers), 0);
    LE32Prefix(q2, Bytes16(h.numberOfRelocations), 0); LE32Prefix(q1, Bytes32(h.pointerToLinenumbers), 0);
    LE32Self(h.pointerToRelocations);
    LE32Prefix(q4, last, 4); LE32Prefix(q3, Bytes16(h.numberOfLinenumbers), 4);
    LE32Prefix(q2, Bytes16(h.numberOfRelocations), 4); LE32Shift(q1, Bytes32(h.pointerToLinenumbers), 0);
    LE32Self(h.pointerToLinenumbers);
    LE16Prefix(q4, last, 8); LE16Prefix(q3, Bytes16(h.numberOfLinenumbers), 8); LE16Shift(q2, Bytes16(h.numberOfRelocations), 0);
    LE16Self(h.numberOfRelocations);
    LE16Prefix(q4, last, 10); LE16Shift(q3, Bytes16(h.numberOfLinenumbers), 0);
    LE16Self(h.numberOfLinenumbers);
    LE32Shift(q4, last, 0);
    LE32Self(h.characteristics);
  }

  /** Every numeric field reads back; the name reads back as its cleaned form. */
  lemma SectionHeaderRoundTrip(h: SectionHeader, nameBytes: seq<uint8>)
    requires |nameBytes| == 8
    ensures DecodeSectionHeader(EncodeSectionHeader(h, nameBytes))
         == Ok(h.(name := Clean(Utf8(nameBytes))))
  {
    var a := AddressBytes(h);
    var c := CountBytes(h);
    var front := nameBytes + a;
    var e := front + c;
    assert e[0..8] == nameBytes;
    AddressBytesRead(h);
    CountBytesRead(h);
    LE32Prefix(front, c, 8); LE32Shift(nameBytes, a, 0);
    LE32Prefix(front, c, 12); LE32Shift(nameBytes, a, 4);
    LE32Prefix(front, c, 16); LE32Shift(nameBytes, a, 8);
    LE32Prefix(front, c, 20); LE32Shift(nameBytes, a, 12);
    LE32Shift(front, c, 0); LE32Shift(front, c, 4); LE16Shift(front, c, 8); LE16Shift(front, c, 10); LE32Shift(front, c, 12);
  }

  /** The reference lookup: the first section, in table order, whose range holds `rva`. */
  function FirstContaining(sections: seq<SectionHeader>, rva: uint32): (r: Option<SectionHeader>)
    ensures r.Some? ==> r.value in sections && r.value.Contains(rva)
  {
    if |sections| == 0 then None
    else if sections[0].Contains(rva) then Some(sections[0])
    else FirstContaining(sections[1..], rva)
  }

  /** The lookup finds nothing exactly when no section of the table holds `rva`. */
  lemma {:induction false} FirstContainingNone(sections: seq<SectionHeader>, rva: uint32)
    ensures FirstContaining(sections, rva).None? <==> forall i | 0 <= i < |sections| :: !sections[i].Contains(rva)
  {
    if |sections| > 0 && !sections[0].Contains(rva) {
      FirstContainingNone(sections[1..], rva);
      assert forall i | 1 <= i < |sections| :: sections[i] == sections[1..][i - 1];
    }
  }

  /** FirstContaining returns the first match: every earlier section misses. */
  lemma {:induction false} FirstContainingIsFirst(sections: seq<SectionHeader>, rva: uint32)
    requires FirstContaining(sections, rva).Some?
    ensures exists i | 0 <= i < |sections| ::
      sections[i] == FirstContaining(sections, rva).value
      && forall j | 0 <= j < i :: !sections[j].Contains(rva)
  {
    if sections[0].Contains(rva) {
      assert sections[0] == FirstContaining(sections, rva).value;
    } else {
      FirstContainingIsFirst(sections[1..], rva);
      var i :| 0 <= i < |sections[1..]| && sections[1..][i] == FirstContaining(sections[1..], rva).value
        && forall j | 0 <= j < i :: !sections[1..][j].Contains(rva);
      assert sections[i + 1] == FirstContaining(sections, rva).value;
      forall j | 0 <= j < i + 1 ensures !sections[j].Contains(rva) {
        if j > 0 { assert sections[j] == sections[1..][j - 1]; }
      }
    }
  }

  /** `SectionHeader.FindSection`: the foreach over the table. */
  method FindSection(sections: seq<SectionHeader>, rva: uint32) returns (r: Option<SectionHeader>)
    ensures r == FirstContaining(sections, rva)
  {
    for i := 0 to |sections|
      invariant FirstContaining(sections, rva) == FirstContaining(sections[i..], rva)
    {
      var section := sections[i];
      var size := if section.VirtualSize() == 0 then section.sizeOfRawData else section.VirtualSize();
      if rva >= section.virtualAddress && rva < Wrap32(section.virtualAddress + size) {
        return Some(section);
      }
      assert sections[i..][1..] == sections[i + 1..];
    }
    return None;
  }

  /** `SectionHeader.RVAToFileOffset`: ArgumentException when no section holds the RVA. */
  function RvaToFileOffset(sections: seq<SectionHeader>, rva: uint32): (r: Result<uint32>)
    ensures r.Err? <==> FirstContaining(sections, rva).None?
    ensures r.Err? ==> r.error == Argument
  {
    match FirstContaining(sections, rva)
    case None => Err(Argument)
    case Some(s) => Ok(Wrap32(rva - s.virtualAddress + s.pointerToRawData))
  }

  /**
   * A section that contains an RVA never wraps its upper bound, so the RVA's
   * displacement is below the section's extent and the file offset is the raw
   * pointer plus that displacement (modulo 2^32); mapping back recovers the RVA.
   */
  lemma RvaToFileOffsetDisplacement(sections: seq<SectionHeader>, rva: uint32)
    requires RvaToFileOffset(sections, rva).Ok?
    ensures var s := FirstContaining(sections, rva).value;
      var off := RvaToFileOffset(sections, rva).value;
      && s.virtualAddress + s.Extent() < TWO_TO_32
      && 0 <= rva - s.virtualAddress < s.Extent()
      && off == Wrap32(s.pointerToRawData + (rva - s.virtualAddress))
      && Wrap32(off - s.pointerToRawData + s.virtualAddress) == rva
  {
    var s := FirstContaining(sections, rva).value;
    ContainedDisplacement(s, rva);
    WrapBack(s.pointerToRawData, rva - s.virtualAddress, s.virtualAddress);
  }

  /** A section's test passes only below an upper bound that did not wrap. */
  lemma ContainedDisplacement(s: SectionHeader, rva: uint32)
    requires s.Contains(rva)
    ensures s.virtualAddress + s.Extent() < TWO_TO_32
    ensures 0 <= rva - s.virtualAddress < s.Extent()
  {
    var top := s.virtualAddress + s.Extent();
    assert Wrap32(top) == if top >= TWO_TO_32 then top - TWO_TO_32 else top;
  }

  /** Adding a displacement modulo 2^32 and taking the base away again leaves the displaced address. */
  lemma WrapBack(p: uint32, d: nat, va: uint32)
    requires va + d < TWO_TO_32
    ensures Wrap32(Wrap32(p + d) - p + va) == va + d
  {
    if p + d < TWO_TO_32 {
      assert Wrap32(p + d) == p + d;
    } else {
      assert Wrap32(p + d) == p + d - TWO_TO_32;
      assert Wrap32(p + d - TWO_TO_32 - p + va) == va + d;
    }
  }
}
