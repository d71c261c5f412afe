/**
 * IMAGE_OPTIONAL_HEADER32 / IMAGE_OPTIONAL_HEADER64, decoded from the
 * SizeOfOptionalHeader bytes that follow the file header. The magic selects
 * the layout; an unknown magic decodes the shared fields only.
 */
module OptionalHeaders {
  import opened Bytes
  import opened Results
  import opened Seqs
  import opened DataDirectories

  const PE32_SIGNATURE: uint16 := 0x10B
  const PE32_PLUS_SIGNATURE: uint16 := 0x20B

  datatype OptionalHeader = OptionalHeader(
    magic: uint16, majorLinkerVersion: uint8, minorLinkerVersion: uint8,
    sizeOfCode: uint32, sizeOfInitializedData: uint32, sizeOfUninitializedData: uint32,
    addressOfEntryPoint: uint32, baseOfCode: uint32, baseOfData: Option<uint32>,
    imageBase: uint64, sectionAlignment: uint32, fileAlignment: uint32,
    majorOperatingSystemVersion: uint16, minorOperatingSystemVersion: uint16,
    majorImageVersion: uint16, minorImageVersion: uint16,
    majorSubsystemVersion: uint16, minorSubsystemVersion: uint16,
    win32VersionValue: uint32, sizeOfImage: uint32, sizeOfHeaders: uint32, checkSum: uint32,
    subsystem: uint16, dllCharacteristics: uint16,
    sizeOfStackReserve: uint64, sizeOfStackCommit: uint64,
    sizeOfHeapReserve: uint64, sizeOfHeapCommit: uint64,
    loaderFlags: uint32, numberOfRvaAndSizes: uint32,
    dataDirectories: seq<DataDirectory>)
  {
    /** The dictionary always holds all sixteen slots. */
    predicate Valid() { |dataDirectories| == 16 }

    function Directory(e: DirectoryEntry): DataDirectory
      requires Valid()
    {
      dataDirectories[e.Index()]
    }
  }

  /** Where the sixteen 8-byte slots start. */
  function DirectoryTableOffset(magic: uint16): nat
  {
    if magic == PE32_PLUS_SIGNATURE then 112 else 96
  }

  /** The bytes the constructor slices: up to the end of the last slot. */
  function HeaderLength(magic: uint16): nat
  {
    DirectoryTableOffset(magic) + 16 * 8
  }

  /** The slots decoded from `base + 8i`, whatever NumberOfRvaAndSizes says. */
  function DataDirectoriesAt(data: seq<uint8>, base: nat): (r: seq<DataDirectory>)
    requires base + 128 <= |data|
    ensures |r| == 16
    ensures forall i | 0 <= i < 16 :: Ok(r[i]) == DecodeDataDirectory(data[base + 8 * i..base + 8 * i + 8])
  {
    seq(16, i requires 0 <= i < 16 => DecodeDataDirectory(data[base + 8 * i..base + 8 * i + 8]).value)
  }

  /** The fields before the slots, branching on the magic as the constructor does. */
  function HeaderFields(data: seq<uint8>, dirs: seq<DataDirectory>): OptionalHeader
    requires |data| >= 2 && |data| >= HeaderLength(LE16(data, 0))
  {
    var magic := LE16(data, 0);
    var pe32 := magic == PE32_SIGNATURE;
    var pe32Plus := magic == PE32_PLUS_SIGNATURE;
    OptionalHeader(
      magic, data[2], data[3],
      LE32(data, 4), LE32(data, 8), LE32(data, 12), LE32(data, 16), LE32(data, 20),
      if pe32 then Some(LE32(data, 24)) else None,
      if pe32 then LE32(data, 28) else if pe32Plus then LE64(data, 24) else 0,
      LE32(data, 32), LE32(data, 36),
      LE16(data, 40), LE16(data, 42), LE16(data, 44), LE16(data, 46), LE16(data, 48), LE16(data, 50),
      LE32(data, 52), LE32(data, 56), LE32(data, 60), LE32(data, 64),
      LE16(data, 68), LE16(data, 70),
      if pe32 then LE32(data, 72) else if pe32Plus then LE64(data, 72) else 0,
      if pe32 then LE32(data, 76) else if pe32Plus then LE64(data, 80) else 0,
      if pe32 then LE32(data, 80) else if pe32Plus then LE64(data, 88) else 0,
      if pe32 then LE32(data, 84) else if pe32Plus then LE64(data, 96) else 0,
      if pe32 then LE32(data, 88) else if pe32Plus then LE32(data, 104) else 0,
      if pe32 then LE32(data, 92) else if pe32Plus then LE32(data, 108) else 0,
      dirs)
  }

  /** `new OptionalHeader(span)`: fails when the span ends before the last slot. */
  function DecodeOptionalHeader(data: seq<uint8>): (r: Result<OptionalHeader>)
    ensures r.Ok? <==> |data| >= 2 && |data| >= HeaderLength(LE16(data, 0))
    ensures r.Ok? ==> r.value.Valid() && r.value.magic == LE16(data, 0)
  {
    if |data| < 2 || |data| < HeaderLength(LE16(data, 0)) then Err(Argument)
    else Ok(HeaderFields(data, DataDirectoriesAt(data, DirectoryTableOffset(LE16(data, 0)))))
  }

  /** The constructor: the shared fields, then the 16-iteration loop over the slots. */
  method ReadOptionalHeader(data: seq<uint8>) returns (r: Result<OptionalHeader>)
    ensures r == DecodeOptionalHeader(data)
  {
    if |data| < 2 || |data| < HeaderLength(LE16(data, 0)) {
      return Err(Argument);
    }
    var dirs := ReadDataDirectories(data, DirectoryTableOffset(LE16(data, 0)));
    return Ok(HeaderFields(data, dirs));
  }

  method ReadDataDirectories(data: seq<uint8>, base: nat) returns (dirs: seq<DataDirectory>)
    requires base + 128 <= |data|
    ensures dirs == DataDirectoriesAt(data, base)
  {
    dirs := [];
    for i := 0 to 16
      invariant |dirs| == i
      invariant forall j | 0 <= j < i :: dirs[j] == DataDirectoriesAt(data, base)[j]
    {
      var offset := base + i * 8;
      var d := DecodeDataDirectory(data[offset..offset + 8]);
      dirs := dirs + [d.value];
    }
  }

  /** The PE32 layout: BaseOfData present, ImageBase and the four stack/heap sizes widened from 32 bits, slots from 96. */
  lemma Pe32Layout(data: seq<uint8>)
    requires DecodeOptionalHeader(data).Ok? && LE16(data, 0) == PE32_SIGNATURE
    ensures var h := DecodeOptionalHeader(data).value;
      && h.baseOfData == Some(LE32(data, 24))
      && h.imageBase == LE32(data, 28) < TWO_TO_32
      && h.sizeOfStackReserve == LE32(data, 72) && h.sizeOfStackCommit == LE32(data, 76)
      && h.sizeOfHeapReserve == LE32(data, 80) && h.sizeOfHeapCommit == LE32(data, 84)
      && h.loaderFlags == LE32(data, 88) && h.numberOfRvaAndSizes == LE32(data, 92)
      && forall i | 0 <= i < 16 :: Ok(h.dataDirectories[i]) == DecodeDataDirectory(data[96 + 8 * i..104 + 8 * i])
  {
  }

  /** The PE32+ layout: no BaseOfData, 64-bit ImageBase and stack/heap sizes, slots from 112. */
  lemma Pe32PlusLayout(data: seq<uint8>)
    requires DecodeOptionalHeader(data).Ok? && LE16(data, 0) == PE32_PLUS_SIGNATURE
    ensures var h := DecodeOptionalHeader(data).value;
      && h.baseOfData == None
      && h.imageBase == LE64(data, 24)
      && h.sizeOfStackReserve == LE64(data, 72) && h.sizeOfStackCommit == LE64(data, 80)
      && h.sizeOfHeapReserve == LE64(data, 88) && h.sizeOfHeapCommit == LE64(data, 96)
      && h.loaderFlags == LE32(data, 104) && h.numberOfRvaAndSizes == LE32(data, 108)
      && forall i | 0 <= i < 16 :: Ok(h.dataDirectories[i]) == DecodeDataDirectory(data[112 + 8 * i..120 + 8 * i])
  {
  }

  /** Any other magic: only the shared fields are read, the format-specific ones stay zero. */
  lemma UnknownMagicLayout(data: seq<uint8>)
    requires DecodeOptionalHeader(data).Ok?
    requires LE16(data, 0) != PE32_SIGNATURE && LE16(data, 0) != PE32_PLUS_SIGNATURE
    ensures var h := DecodeOptionalHeader(data).value;
      && h.baseOfData == None && h.imageBase == 0
      && h.sizeOfStackReserve == 0 && h.sizeOfStackCommit == 0
      && h.sizeOfHeapReserve == 0 && h.sizeOfHeapCommit == 0
      && h.loaderFlags == 0 && h.numberOfRvaAndSizes == 0
      && forall i | 0 <= i < 16 :: Ok(h.dataDirectories[i]) == DecodeDataDirectory(data[96 + 8 * i..104 + 8 * i])
  {
  }

  /** The shared fields sit at the same offsets in every layout. */
  lemma SharedLayout(data: seq<uint8>)
    requires DecodeOptionalHeader(data).Ok?
    ensures var h := DecodeOptionalHeader(data).value;
      && h.magic == LE16(data, 0)
      && h.majorLinkerVersion == data[2] && h.minorLinkerVersion == data[3]
      && h.sizeOfCode == LE32(data, 4) && h.sizeOfInitializedData == LE32(data, 8)
      && h.sizeOfUninitializedData == LE32(data, 12) && h.addressOfEntryPoint == LE32(data, 16)
      && h.baseOfCode == LE32(data, 20)
      && h.sectionAlignment == LE32(data, 32) && h.fileAlignment == LE32(data, 36)
      && h.majorOperatingSystemVersion == LE16(data, 40) && h.minorOperatingSystemVersion == LE16(data, 42)
      && h.majorImageVersion == LE16(data, 44) && h.minorImageVersion == LE16(data, 46)
      && h.majorSubsystemVersion == LE16(data, 48) && h.minorSubsystemVersion == LE16(data, 50)
      && h.win32VersionValue == LE32(data, 52)
      && h.sizeOfImage == LE32(data, 56) && h.sizeOfHeaders == LE32(data, 60)
      && h.checkSum == LE32(data, 64)
      && h.subsystem == LE16(data, 68) && h.dllCharacteristics == LE16(data, 70)
  {
  }

  // ---- the encoding ----

  /**
   * The headers an encoding can hold: sixteen slots; under PE32 a BaseOfData
   * and an ImageBase and sizes that fit in 32 bits; under PE32+ no
   * BaseOfData; under any other magic the zeros the decoder leaves in the
   * format-specific fields.
   */
  predicate Encodable(h: OptionalHeader)
  {
    && h.Valid()
    && (h.magic == PE32_SIGNATURE ==>
          && h.baseOfData.Some? && h.imageBase < TWO_TO_32
          && h.sizeOfStackReserve < TWO_TO_32 && h.sizeOfStackCommit < TWO_TO_32
          && h.sizeOfHeapReserve < TWO_TO_32 && h.sizeOfHeapCommit < TWO_TO_32)
    && (h.magic == PE32_PLUS_SIGNATURE ==> h.baseOfData.None?)
    && (h.magic != PE32_SIGNATURE && h.magic != PE32_PLUS_SIGNATURE ==>
          && h.baseOfData.None? && h.imageBase == 0
          && h.sizeOfStackReserve == 0 && h.sizeOfStackCommit == 0
          && h.sizeOfHeapReserve == 0 && h.sizeOfHeapCommit == 0
          && h.loaderFlags == 0 && h.numberOfRvaAndSizes == 0)
  }

  /** Bytes 0..24: the magic, the linker versions, the three code sizes, the entry point and BaseOfCode. */
  function HeadBytes(h: OptionalHeader): (r: seq<uint8>)
    ensures |r| == 24
  {
    Bytes16(h.magic) + [h.majorLinkerVersion, h.minorLinkerVersion]
      + Bytes32(h.sizeOfCode) + Bytes32(h.sizeOfInitializedData) + Bytes32(h.sizeOfUninitializedData)
      + Bytes32(h.addressOfEntryPoint) + Bytes32(h.baseOfCode)
  }

  /** Bytes 24..32: BaseOfData and a 32-bit ImageBase under PE32, else a 64-bit ImageBase. */
  function BaseBytes(h: OptionalHeader): (r: seq<uint8>)
    requires Encodable(h)
    ensures |r| == 8
  {
    if h.magic == PE32_SIGNATURE then Bytes32(h.baseOfData.value) + Bytes32(h.imageBase)
    else Bytes64(h.imageBase)
  }

  /** Bytes 32..52: the two alignments and the six version words. */
  function VersionBytes(h: OptionalHeader): (r: seq<uint8>)
    ensures |r| == 20
  {
    Bytes32(h.sectionAlignment) + Bytes32(h.fileAlignment)
      + Bytes16(h.majorOperatingSystemVersion) + Bytes16(h.minorOperatingSystemVersion)
      + Bytes16(h.majorImageVersion) + Bytes16(h.minorImageVersion)
      + Bytes16(h.majorSubsystemVersion) + Bytes16(h.minorSubsystemVersion)
  }

  /** Bytes 52..72: Win32VersionValue, the image and header sizes, the checksum, Subsystem and DllCharacteristics. */
  function ImageBytes(h: OptionalHeader): (r: seq<uint8>)
    ensures |r| == 20
  {
    Bytes32(h.win32VersionValue) + Bytes32(h.sizeOfImage) + Bytes32(h.sizeOfHeaders) + Bytes32(h.checkSum)
      + Bytes16(h.subsystem) + Bytes16(h.dllCharacteristics)
  }

  /**
   * From byte 72 to the slots: the stack and heap sizes, LoaderFlags and
   * NumberOfRvaAndSizes, the sizes 64 bits wide under PE32+ and 32 bits
   * wide otherwise.
   */
  function SizeBytes(h: OptionalHeader): (r: seq<uint8>)
    requires Encodable(h)
    ensures |r| == DirectoryTableOffset(h.magic) - 72
  {
    if h.magic == PE32_PLUS_SIGNATURE then
      Bytes64(h.sizeOfStackReserve) + Bytes64(h.sizeOfStackCommit)
        + Bytes64(h.sizeOfHeapReserve) + Bytes64(h.sizeOfHeapCommit)
        + Bytes32(h.loaderFlags) + Bytes32(h.numberOfRvaAndSizes)
    else
      Bytes32(h.sizeOfStackReserve) + Bytes32(h.sizeOfStackCommit)
        + Bytes32(h.sizeOfHeapReserve) + Bytes32(h.sizeOfHeapCommit)
        + Bytes32(h.loaderFlags) + Bytes32(h.numberOfRvaAndSizes)
  }

  function SlotPieces(dirs: seq<DataDirectory>): (r: seq<seq<uint8>>)
    ensures |r| == |dirs| && forall i | 0 <= i < |r| :: r[i] == EncodeDataDirectory(dirs[i])
  {
    seq(|dirs|, i requires 0 <= i < |dirs| => EncodeDataDirectory(dirs[i]))
  }

  /** The slots, eight bytes each, in order. */
  function SlotBytes(dirs: seq<DataDirectory>): (r: seq<uint8>)
    ensures |r| == 8 * |dirs|
  {
    FlattenLength(SlotPieces(dirs), 8);
    Flatten(SlotPieces(dirs))
  }

  /** The SizeOfOptionalHeader bytes that decode to `h`. */
  function EncodeOptionalHeader(h: OptionalHeader): (r: seq<uint8>)
    requires Encodable(h)
    ensures |r| == HeaderLength(h.magic)
  {
    HeadBytes(h) + BaseBytes(h) + VersionBytes(h) + ImageBytes(h) + SizeBytes(h) + SlotBytes(h.dataDirectories)
  }

  lemma HeadRead(h: OptionalHeader, p: seq<uint8>, q: seq<uint8>)
    ensures var e := p + HeadBytes(h) + q; var o := |p|;
      && LE16(e, o) == h.magic && e[o + 2] == h.majorLinkerVersion && e[o + 3] == h.minorLinkerVersion
      && LE32(e, o + 4) == h.sizeOfCode && LE32(e, o + 8) == h.sizeOfInitializedData
      && LE32(e, o + 12) == h.sizeOfUninitializedData && LE32(e, o + 16) == h.addressOfEntryPoint
      && LE32(e, o + 20) == h.baseOfCode
  {
    var x := HeadBytes(h);
    LE16At(x, 0, h.magic);
    LE32At(x, 4, h.sizeOfCode);
    LE32At(x, 8, h.sizeOfInitializedData);
    LE32At(x, 12, h.sizeOfUninitializedData);
    LE32At(x, 16, h.addressOfEntryPoint);
    LE32At(x, 20, h.baseOfCode);
    LE16In(p, x, q, 0);
    LE32In(p, x, q, 4);
    LE32In(p, x, q, 8);
    LE32In(p, x, q, 12);
    LE32In(p, x, q, 16);
    LE32In(p, x, q, 20);
    assert (p + x + q)[|p| + 2] == x[2] && (p + x + q)[|p| + 3] == x[3];
  }

  lemma BaseRead(h: OptionalHeader, p: seq<uint8>, q: seq<uint8>)
    requires Encodable(h)
    ensures var e := p + BaseBytes(h) + q; var o := |p|;
      && (h.magic == PE32_SIGNATURE ==> LE32(e, o) == h.baseOfData.value && LE32(e, o + 4) == h.imageBase)
      && (h.magic != PE32_SIGNATURE ==> LE64(e, o) == h.imageBase)
  {
    var x := BaseBytes(h);
    if h.magic == PE32_SIGNATURE {
      LE32At(x, 0, h.baseOfData.value);
      LE32At(x, 4, h.imageBase);
      LE32In(p, x, q, 0);
      LE32In(p, x, q, 4);
    } else {
      LE64At(x, 0, h.imageBase);
      LE64In(p, x, q, 0);
    }
  }

  lemma VersionRead(h: OptionalHeader, p: seq<uint8>, q: seq<uint8>)
    ensures var e := p + VersionBytes(h) + q; var o := |p|;
      && LE32(e, o) == h.sectionAlignment && LE32(e, o + 4) == h.fileAlignment
      && LE16(e, o + 8) == h.majorOperatingSystemVersion && LE16(e, o + 10) == h.minorOperatingSystemVersion
      && LE16(e, o + 12) == h.majorImageVersion && LE16(e, o + 14) == h.minorImageVersion
      && LE16(e, o + 16) == h.majorSubsystemVersion && LE16(e, o + 18) == h.minorSubsystemVersion
  {
    var x := VersionBytes(h);
    LE32At(x, 0, h.sectionAlignment);
    LE32At(x, 4, h.fileAlignment);
    LE16At(x, 8, h.majorOperatingSystemVersion);
    LE16At(x, 10, h.minorOperatingSystemVersion);
    LE16At(x, 12, h.majorImageVersion);
    LE16At(x, 14, h.minorImageVersion);
    LE16At(x, 16, h.majorSubsystemVersion);
    LE16At(x, 18, h.minorSubsystemVersion);
    LE32In(p, x, q, 0);
    LE32In(p, x, q, 4);
    LE16In(p, x, q, 8);
    LE16In(p, x, q, 10);
    LE16In(p, x, q, 12);
    LE16In(p, x, q, 14);
    LE16In(p, x, q, 16);
    LE16In(p, x, q, 18);
  }

  lemma ImageRead(h: OptionalHeader, p: seq<uint8>, q: seq<uint8>)
    ensures var e := p + ImageBytes(h) + q; var o := |p|;
      && LE32(e, o) == h.win32VersionValue && LE32(e, o + 4) == h.sizeOfImage
      && LE32(e, o + 8) == h.sizeOfHeaders && LE32(e, o + 12) == h.checkSum
      && LE16(e, o + 16) == h.subsystem && LE16(e, o + 18) == h.dllCharacteristics
  {
    var x := ImageBytes(h);
    LE32At(x, 0, h.win32VersionValue);
    LE32At(x, 4, h.sizeOfImage);
    LE32At(x, 8, h.sizeOfHeaders);
    LE32At(x, 12, h.checkSum);
    LE16At(x, 16, h.subsystem);
    LE16At(x, 18, h.dllCharacteristics);
    LE32In(p, x, q, 0);
    LE32In(p, x, q, 4);
    LE32In(p, x, q, 8);
    LE32In(p, x, q, 12);
    LE16In(p, x, q, 16);
    LE16In(p, x, q, 18);
  }

  lemma SizeRead(h: OptionalHeader, p: seq<uint8>, q: seq<uint8>)
    requires Encodable(h)
    ensures var e := p + SizeBytes(h) + q; var o := |p|;
      && (h.magic == PE32_PLUS_SIGNATURE ==>
            && LE64(e, o) == h.sizeOfStackReserve && LE64(e, o + 8) == h.sizeOfStackCommit
            && LE64(e, o + 16) == h.sizeOfHeapReserve && LE64(e, o + 24) == h.sizeOfHeapCommit
            && LE32(e, o + 32) == h.loaderFlags && LE32(e, o + 36) == h.numberOfRvaAndSizes)
      && (h.magic != PE32_PLUS_SIGNATURE ==>
            && LE32(e, o) == h.sizeOfStackReserve && LE32(e, o + 4) == h.sizeOfStackCommit
            && LE32(e, o + 8) == h.sizeOfHeapReserve && LE32(e, o + 12) == h.sizeOfHeapCommit
            && LE32(e, o + 16) == h.loaderFlags && LE32(e, o + 20) == h.numberOfRvaAndSizes)
  {
    if h.magic == PE32_PLUS_SIGNATURE {
      WideSizeRead(h, p, q);
    } else {
      NarrowSizeRead(h, p, q);
    }
  }

  lemma WideSizeRead(h: OptionalHeader, p: seq<uint8>, q: seq<uint8>)
    requires Encodable(h) && h.magic == PE32_PLUS_SIGNATURE
    ensures var e := p + SizeBytes(h) + q; var o := |p|;
      && LE64(e, o) == h.sizeOfStackReserve && LE64(e, o + 8) == h.sizeOfStackCommit
      && LE64(e, o + 16) == h.sizeOfHeapReserve && LE64(e, o + 24) == h.sizeOfHeapCommit
      && LE32(e, o + 32) == h.loaderFlags && LE32(e, o + 36) == h.numberOfRvaAndSizes
  {
    var x := SizeBytes(h);
    LE64At(x, 0, h.sizeOfStackReserve);
    LE64At(x, 8, h.sizeOfStackCommit);
    LE64At(x, 16, h.sizeOfHeapReserve);
    LE64At(x, 24, h.sizeOfHeapCommit);
    LE32At(x, 32, h.loaderFlags);
    LE32At(x, 36, h.numberOfRvaAndSizes);
    LE64In(p, x, q, 0);
    LE64In(p, x, q, 8);
    LE64In(p, x, q, 16);
    LE64In(p, x, q, 24);
    LE32In(p, x, q, 32);
    LE32In(p, x, q, 36);
  }

  lemma NarrowSizeRead(h: OptionalHeader, p: seq<uint8>, q: seq<uint8>)
    requires Encodable(h) && h.magic != PE32_PLUS_SIGNATURE
    ensures var e := p + SizeBytes(h) + q; var o := |p|;
      && LE32(e, o) == h.sizeOfStackReserve && LE32(e, o + 4) == h.sizeOfStackCommit
      && LE32(e, o + 8) == h.sizeOfHeapReserve && LE32(e, o + 12) == h.sizeOfHeapCommit
      && LE32(e, o + 16) == h.loaderFlags && LE32(e, o + 20) == h.numberOfRvaAndSizes
  {
    var x := SizeBytes(h);
    LE32At(x, 0, h.sizeOfStackReserve);
    LE32At(x, 4, h.sizeOfStackCommit);
    LE32At(x, 8, h.sizeOfHeapReserve);
    LE32At(x, 12, h.sizeOfHeapCommit);
    LE32At(x, 16, h.loaderFlags);
    LE32At(x, 20, h.numberOfRvaAndSizes);
    LE32In(p, x, q, 0);
    LE32In(p, x, q, 4);
    LE32In(p, x, q, 8);
    LE32In(p, x, q, 12);
    LE32In(p, x, q, 16);
    LE32In(p, x, q, 20);
  }

  lemma SlotsRead(dirs: seq<DataDirectory>, p: seq<uint8>, q: seq<uint8>)
    requires |dirs| == 16
    ensures |p| + 128 <= |p + SlotBytes(dirs) + q|
    ensures DataDirectoriesAt(p + SlotBytes(dirs) + q, |p|) == dirs
  {
    var x := SlotBytes(dirs);
    var e := p + x + q;
    forall i | 0 <= i < 16
      ensures DataDirectoriesAt(e, |p|)[i] == dirs[i]
    {
      FlattenChunk(SlotPieces(dirs), 8, i);
      assert e[|p| + 8 * i..|p| + 8 * i + 8] == x[8 * i..8 * i + 8];
      DataDirectoryRoundTrip(dirs[i], []);
      assert EncodeDataDirectory(dirs[i]) + [] == EncodeDataDirectory(dirs[i]);
    }
  }

  /** The fields of an encoded header's first 24 bytes, read where the decoder reads them. */
  lemma HeadFieldsRead(h: OptionalHeader, rest: seq<uint8>)
    requires Encodable(h)
    ensures var e := EncodeOptionalHeader(h) + rest;
      && LE16(e, 0) == h.magic && e[2] == h.majorLinkerVersion && e[3] == h.minorLinkerVersion
      && LE32(e, 4) == h.sizeOfCode && LE32(e, 8) == h.sizeOfInitializedData
      && LE32(e, 12) == h.sizeOfUninitializedData && LE32(e, 16) == h.addressOfEntryPoint
      && LE32(e, 20) == h.baseOfCode
  {
    var t := BaseBytes(h) + VersionBytes(h) + ImageBytes(h) + SizeBytes(h) + SlotBytes(h.dataDirectories) + rest;
    assert EncodeOptionalHeader(h) + rest == [] + HeadBytes(h) + t;
    HeadRead(h, [], t);
  }

  /** The alignments and version words of an encoded header, read where the decoder reads them. */
  lemma VersionFieldsRead(h: OptionalHeader, rest: seq<uint8>)
    requires Encodable(h)
    ensures var e := EncodeOptionalHeader(h) + rest;
      && LE32(e, 32) == h.sectionAlignment && LE32(e, 36) == h.fileAlignment
      && LE16(e, 40) == h.majorOperatingSystemVersion && LE16(e, 42) == h.minorOperatingSystemVersion
      && LE16(e, 44) == h.majorImageVersion && LE16(e, 46) == h.minorImageVersion
      && LE16(e, 48) == h.majorSubsystemVersion && LE16(e, 50) == h.minorSubsystemVersion
  {
    var p := HeadBytes(h) + BaseBytes(h);
    var t := ImageBytes(h) + SizeBytes(h) + SlotBytes(h.dataDirectories) + rest;
    assert EncodeOptionalHeader(h) + rest == p + VersionBytes(h) + t;
    VersionRead(h, p, t);
  }

  /** The image fields of an encoded header, read where the decoder reads them. */
  lemma ImageFieldsRead(h: OptionalHeader, rest: seq<uint8>)
    requires Encodable(h)
    ensures var e := EncodeOptionalHeader(h) + rest;
      && LE32(e, 52) == h.win32VersionValue && LE32(e, 56) == h.sizeOfImage
      && LE32(e, 60) == h.sizeOfHeaders && LE32(e, 64) == h.checkSum
      && LE16(e, 68) == h.subsystem && LE16(e, 70) == h.dllCharacteristics
  {
    var p := HeadBytes(h) + BaseBytes(h) + VersionBytes(h);
    var t := SizeBytes(h) + SlotBytes(h.dataDirectories) + rest;
    assert EncodeOptionalHeader(h) + rest == p + ImageBytes(h) + t;
    ImageRead(h, p, t);
  }

  /** BaseOfData and ImageBase of an encoded header, read where the decoder reads them. */
  lemma BaseFieldsRead(h: OptionalHeader, rest: seq<uint8>)
    requires Encodable(h)
    ensures var e := EncodeOptionalHeader(h) + rest;
      && (h.magic == PE32_SIGNATURE ==> LE32(e, 24) == h.baseOfData.value && LE32(e, 28) == h.imageBase)
      && (h.magic != PE32_SIGNATURE ==> LE64(e, 24) == h.imageBase)
  {
    var t := VersionBytes(h) + ImageBytes(h) + SizeBytes(h) + SlotBytes(h.dataDirectories) + rest;
    assert EncodeOptionalHeader(h) + rest == HeadBytes(h) + BaseBytes(h) + t;
    BaseRead(h, HeadBytes(h), t);
  }

  /** The stack and heap sizes, LoaderFlags and NumberOfRvaAndSizes of an encoded header. */
  lemma SizeFieldsRead(h: OptionalHeader, rest: seq<uint8>)
    requires Encodable(h)
    ensures var e := EncodeOptionalHeader(h) + rest;
      && (h.magic == PE32_PLUS_SIGNATURE ==>
            && LE64(e, 72) == h.sizeOfStackReserve && LE64(e, 80) == h.sizeOfStackCommit
            && LE64(e, 88) == h.sizeOfHeapReserve && LE64(e, 96) == h.sizeOfHeapCommit
            && LE32(e, 104) == h.loaderFlags && LE32(e, 108) == h.numberOfRvaAndSizes)
      && (h.magic != PE32_PLUS_SIGNATURE ==>
            && LE32(e, 72) == h.sizeOfStackReserve && LE32(e, 76) == h.sizeOfStackCommit
            && LE32(e, 80) == h.sizeOfHeapReserve && LE32(e, 84) == h.sizeOfHeapCommit
            && LE32(e, 88) == h.loaderFlags && LE32(e, 92) == h.numberOfRvaAndSizes)
  {
    var p := HeadBytes(h) + BaseBytes(h) + VersionBytes(h) + ImageBytes(h);
    var t := SlotBytes(h.dataDirectories) + rest;
    assert EncodeOptionalHeader(h) + rest == p + SizeBytes(h) + t;
    SizeRead(h, p, t);
  }

  /** The slots of an encoded header, read where the decoder reads them. */
  lemma SlotFieldsRead(h: OptionalHeader, rest: seq<uint8>)
    requires Encodable(h)
    ensures var e := EncodeOptionalHeader(h) + rest;
      |e| >= HeaderLength(h.magic) && DataDirectoriesAt(e, DirectoryTableOffset(h.magic)) == h.dataDirectories
  {
    var p := HeadBytes(h) + BaseBytes(h) + VersionBytes(h) + ImageBytes(h) + SizeBytes(h);
    assert EncodeOptionalHeader(h) + rest == p + SlotBytes(h.dataDirectories) + rest;
    SlotsRead(h.dataDirectories, p, rest);
  }

  /** Decoding an encoded header, whatever follows it, gives the header back, under every magic. */
  lemma OptionalHeaderRoundTrip(h: OptionalHeader, rest: seq<uint8>)
    requires Encodable(h)
    ensures DecodeOptionalHeader(EncodeOptionalHeader(h) + rest) == Ok(h)
  {
    HeadFieldsRead(h, rest);
    VersionFieldsRead(h, rest);
    ImageFieldsRead(h, rest);
    BaseFieldsRead(h, rest);
    SizeFieldsRead(h, rest);
    SlotFieldsRead(h, rest);
  }

  /** Nothing past the last slot is read. */
  lemma OptionalHeaderPrefix(data: seq<uint8>, n: nat)
    requires DecodeOptionalHeader(data).Ok? && n == HeaderLength(LE16(data, 0))
    ensures DecodeOptionalHeader(data[..n]) == DecodeOptionalHeader(data)
  {
    var t := data[..n];
    var base := DirectoryTableOffset(LE16(data, 0));
    assert LE16(t, 0) == LE16(data, 0);
    DirectoriesPrefix(data, t, base);
    FieldsPrefix(data, t, DataDirectoriesAt(data, base));
  }

  lemma DirectoriesPrefix(data: seq<uint8>, t: seq<uint8>, base: nat)
    requires base + 128 <= |t| <= |data| && t == data[..|t|]
    ensures DataDirectoriesAt(t, base) == DataDirectoriesAt(data, base)
  {
    forall i | 0 <= i < 16
      ensures DataDirectoriesAt(t, base)[i] == DataDirectoriesAt(data, base)[i]
    {
      assert t[base + 8 * i..base + 8 * i + 8] == data[base + 8 * i..base + 8 * i + 8];
    }
  }

  lemma FieldsPrefix(data: seq<uint8>, t: seq<uint8>, dirs: seq<DataDirectory>)
    requires |data| >= 2 && |data| >= HeaderLength(LE16(data, 0))
    requires |t| == HeaderLength(LE16(data, 0)) && t == data[..|t|]
    ensures |t| >= 2 && |t| >= HeaderLength(LE16(t, 0))
    ensures HeaderFields(t, dirs) == HeaderFields(data, dirs)
  {
    assert forall k | 0 <= k < |t| :: t[k] == data[k];
    forall k: nat | k + 2 <= |t| ensures LE16(t, k) == LE16(data, k) {
    }
    forall k: nat | k + 4 <= |t| ensures LE32(t, k) == LE32(data, k) {
      assert LE16(t, k) == LE16(data, k) && LE16(t, k + 2) == LE16(data, k + 2);
    }
    forall k: nat | k + 8 <= |t| ensures LE64(t, k) == LE64(data, k) {
      assert LE32(t, k) == LE32(data, k) && LE32(t, k + 4) == LE32(data, k + 4);
    }
  }
}
