/** IMAGE_FILE_HEADER: the COFF header that follows the "PE\0\0" signature. */
module FileHeaders {
  import opened Bytes
  import opened Results

  /** Machine and Characteristics keep any 16-bit value; no enum check is made. */
  datatype FileHeader = FileHeader(
    machine: uint16, numberOfSections: uint16, timeDateStamp: uint32,
    pointerToSymbolTable: uint32, numberOfSymbols: uint32,
    sizeOfOptionalHeader: uint16, characteristics: uint16)

  /** `new FileHeader(span)`: the first 20 bytes, or a throw on a shorter span. */
  function DecodeFileHeader(data: seq<uint8>): (r: Result<FileHeader>)
    ensures r.Ok? <==> |data| >= 20
  {
    if |data| < 20 then Err(Argument)
    else Ok(FileHeader(LE16(data, 0), LE16(data, 2), LE32(data, 4), LE32(data, 8),
                       LE32(data, 12), LE16(data, 16), LE16(data, 18)))
  }

  function EncodeFileHeader(h: FileHeader): (r: seq<uint8>)
    ensures |r| == 20
  {
    Bytes16(h.machine) + Bytes16(h.numberOfSections) + Bytes32(h.timeDateStamp)
    + Bytes32(h.pointerToSymbolTable) + Bytes32(h.numberOfSymbols)
    + Bytes16(h.sizeOfOptionalHeader) + Bytes16(h.characteristics)
  }

  /** Exactly the first 20 bytes are read. */
  lemma FileHeaderReadsTwenty(data: seq<uint8>)
    requires |data| >= 20
    ensures DecodeFileHeader(data) == DecodeFileHeader(data[..20])
  {
  }

  /** Decoding the 20-byte little-endian encoding gives the seven fields back. */
  lemma FileHeaderRoundTrip(h: FileHeader, rest: seq<uint8>)
    ensures DecodeFileHeader(EncodeFileHeader(h) + rest) == Ok(h)
  {
  }
}
