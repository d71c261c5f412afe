/**
 * The regf base block: the first 4096 bytes of a primary hive file, with
 * the "regf" signature, the root cell offset and the size of the hive-bin
 * data.
 */
module BaseBlocks {
  import opened Bytes
  import opened Results
  import opened Text

  const BASE_BLOCK_SIZE: nat := 4096

  /** `BaseBlock.RegfSignature`. */
  const REGF_SIGNATURE: Str := Lit("regf")

  datatype BaseBlock = BaseBlock(
    signature: Str, primarySequenceNumber: uint32, secondarySequenceNumber: uint32,
    lastWrittenTimestamp: uint64, majorVersion: uint32, minorVersion: uint32,
    fileType: uint32, fileFormat: uint32, rootCellOffset: uint32, hiveBinsDataSize: uint32,
    clusteringFactor: uint32, fileName: Str, checksum: uint32, bootType: uint32, bootRecover: uint32)

  /**
   * `new BaseBlock(span)`: an ArgumentException below 4096 bytes; the
   * signature is the ASCII of bytes 0..4 and the file name the UTF-16 of
   * bytes 48..112, both without NULs and trimmed.
   */
  function DecodeBaseBlock(data: seq<uint8>): (r: Result<BaseBlock>)
    ensures r.Ok? <==> |data| >= BASE_BLOCK_SIZE
    ensures r.Ok? ==> NUL !in r.value.signature && |r.value.signature| <= 4
    ensures r.Ok? ==> NUL !in r.value.fileName && |r.value.fileName| <= 32
  {
    if |data| < BASE_BLOCK_SIZE then Err(Argument)
    else Ok(BaseBlock(
      Clean(Ascii(data[0..4])), LE32(data, 4), LE32(data, 8), LE64(data, 12), LE32(data, 20),
      LE32(data, 24), LE32(data, 28), LE32(data, 32), LE32(data, 36), LE32(data, 40),
      LE32(data, 44), Clean(Utf16(data[48..112])), LE32(data, 508), LE32(data, 4088), LE32(data, 4092)))
  }

  /** The first 48 bytes: the signature and the eleven numeric fields at offsets 4..48. */
  function EncodeBaseBlockHead(b: BaseBlock, sig: seq<uint8>): (r: seq<uint8>)
    requires |sig| == 4
    ensures |r| == 48
  {
    sig + Bytes32(b.primarySequenceNumber) + Bytes32(b.secondarySequenceNumber) + Bytes64(b.lastWrittenTimestamp)
    + Bytes32(b.majorVersion) + Bytes32(b.minorVersion) + Bytes32(b.fileType) + Bytes32(b.fileFormat)
    + Bytes32(b.rootCellOffset) + Bytes32(b.hiveBinsDataSize) + Bytes32(b.clusteringFactor)
  }

  /**
   * Bytes 48..4096: the file-name field, the checksum, the boot fields, and
   * `gap` and `reserved` in the two ranges no field covers (112..508 and
   * 512..4088).
   */
  function EncodeBaseBlockTail(b: BaseBlock, name: seq<uint8>, gap: seq<uint8>, reserved: seq<uint8>): (r: seq<uint8>)
    requires |name| == 64 && |gap| == 396 && |reserved| == 3576
    ensures |r| == BASE_BLOCK_SIZE - 48
  {
    name + gap + Bytes32(b.checksum) + reserved + Bytes32(b.bootType) + Bytes32(b.bootRecover)
  }

  /** The 4096-byte block holding `b`'s numeric fields, `sig` and `name` in the two text fields. */
  function EncodeBaseBlock(b: BaseBlock, sig: seq<uint8>, name: seq<uint8>, gap: seq<uint8>, reserved: seq<uint8>): (r: seq<uint8>)
    requires |sig| == 4 && |name| == 64 && |gap| == 396 && |reserved| == 3576
    ensures |r| == BASE_BLOCK_SIZE
  {
    EncodeBaseBlockHead(b, sig) + EncodeBaseBlockTail(b, name, gap, reserved)
  }

  /** The head fields read back from the head's own bytes, whatever follows them. */
  lemma BaseBlockHeadRoundTrip(b: BaseBlock, sig: seq<uint8>, tail: seq<uint8>, rest: seq<uint8>)
    requires |sig| == 4
    ensures var e := EncodeBaseBlockHead(b, sig) + tail + rest;
      && e[0..4] == sig
      && LE32(e, 4) == b.primarySequenceNumber && LE32(e, 8) == b.secondarySequenceNumber
      && LE64(e, 12) == b.lastWrittenTimestamp && LE32(e, 20) == b.majorVersion
      && LE32(e, 24) == b.minorVersion && LE32(e, 28) == b.fileType && LE32(e, 32) == b.fileFormat
      && LE32(e, 36) == b.rootCellOffset && LE32(e, 40) == b.hiveBinsDataSize
      && LE32(e, 44) == b.clusteringFactor
  {
    var e := EncodeBaseBlockHead(b, sig) + tail + rest;
    assert e[0..4] == sig;
  }

  /** The tail fields read back from their offsets, whatever the 48 bytes before them. */
  lemma BaseBlockTailRoundTrip(b: BaseBlock, head: seq<uint8>, name: seq<uint8>, gap: seq<uint8>, reserved: seq<uint8>, rest: seq<uint8>)
    requires |head| == 48 && |name| == 64 && |gap| == 396 && |reserved| == 3576
    ensures var e := head + EncodeBaseBlockTail(b, name, gap, reserved) + rest;
      && e[48..112] == name
      && LE32(e, 508) == b.checksum && LE32(e, 4088) == b.bootType && LE32(e, 4092) == b.bootRecover
  {
    var t := EncodeBaseBlockTail(b, name, gap, reserved);
    var e := head + t + rest;
    assert e[48..112] == name;
    var c := Bytes32(b.checksum);
    var bt := Bytes32(b.bootType);
    var br := Bytes32(b.bootRecover);
    assert e[508] == c[0] && e[509] == c[1] && e[510] == c[2] && e[511] == c[3];
    assert e[4088] == bt[0] && e[4089] == bt[1] && e[4090] == bt[2] && e[4091] == bt[3];
    assert e[4092] == br[0] && e[4093] == br[1] && e[4094] == br[2] && e[4095] == br[3];
    LE32Bytes(b.checksum, [], []);
    LE32Bytes(b.bootType, [], []);
    LE32Bytes(b.bootRecover, [], []);
  }

  /**
   * Every numeric field reads back from its offset whatever the unused
   * ranges and whatever follows the block; the two strings read back in
   * their cleaned form.
   */
  lemma BaseBlockRoundTrip(b: BaseBlock, sig: seq<uint8>, name: seq<uint8>, gap: seq<uint8>, reserved: seq<uint8>, rest: seq<uint8>)
    requires |sig| == 4 && |name| == 64 && |gap| == 396 && |reserved| == 3576
    ensures DecodeBaseBlock(EncodeBaseBlock(b, sig, name, gap, reserved) + rest)
         == Ok(b.(signature := Clean(Ascii(sig)), fileName := Clean(Utf16(name))))
  {
    var head := EncodeBaseBlockHead(b, sig);
    var tail := EncodeBaseBlockTail(b, name, gap, reserved);
    BaseBlockHeadRoundTrip(b, sig, tail, rest);
    BaseBlockTailRoundTrip(b, head, name, gap, reserved, rest);
  }
}
