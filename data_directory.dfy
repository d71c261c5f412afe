/** IMAGE_DATA_DIRECTORY: the address and size of one optional-header directory slot. */
module DataDirectories {
  import opened Bytes
  import opened Results

  datatype DataDirectory = DataDirectory(virtualAddress: uint32, size: uint32)
  {
    /** The slot of a directory the image does not have. */
    predicate IsEmpty() { virtualAddress == 0 && size == 0 }
  }

  /** The sixteen slots, by their index in the optional header. */
  datatype DirectoryEntry =
    | Export | Import | Resource | Exception | Security | BaseReloc | Debug | Architecture
    | GlobalPtr | Tls | LoadConfig | BoundImport | Iat | DelayImport | ComDescriptor | Reserved
  {
    function Index(): (i: nat)
      ensures i < 16
    {
      match this
      case Export => 0 case Import => 1 case Resource => 2 case Exception => 3
      case Security => 4 case BaseReloc => 5 case Debug => 6 case Architecture => 7
      case GlobalPtr => 8 case Tls => 9 case LoadConfig => 10 case BoundImport => 11
      case Iat => 12 case DelayImport => 13 case ComDescriptor => 14 case Reserved => 15
    }
  }

  /** `new DataDirectory(span)`: slicing a span shorter than 8 bytes throws. */
  function DecodeDataDirectory(data: seq<uint8>): (r: Result<DataDirectory>)
    ensures r.Ok? <==> |data| >= 8
  {
    if |data| < 8 then Err(Argument)
    else Ok(DataDirectory(LE32(data, 0), LE32(data, 4)))
  }

  function EncodeDataDirectory(d: DataDirectory): (r: seq<uint8>)
    ensures |r| == 8
  {
    Bytes32(d.virtualAddress) + Bytes32(d.size)
  }

  /** Only the first 8 bytes are read. */
  lemma DataDirectoryReadsEight(data: seq<uint8>)
    requires |data| >= 8
    ensures DecodeDataDirectory(data) == DecodeDataDirectory(data[..8])
  {
  }

  /** Decoding the little-endian encoding gives the slot back, whatever follows it. */
  lemma DataDirectoryRoundTrip(d: DataDirectory, rest: seq<uint8>)
    ensures DecodeDataDirectory(EncodeDataDirectory(d) + rest) == Ok(d)
  {
    LE32Bytes(d.virtualAddress, [], Bytes32(d.size) + rest);
    LE32Bytes(d.size, Bytes32(d.virtualAddress), rest);
    assert EncodeDataDirectory(d) + rest == [] + Bytes32(d.virtualAddress) + (Bytes32(d.size) + rest);
  }
}
