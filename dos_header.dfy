/** IMAGE_DOS_HEADER: the 64-byte MS-DOS stub header at the start of every image. */
module DosHeaders {
  import opened Bytes
  import opened Results

  /** "MZ" read little-endian. */
  const DOS_SIGNATURE: uint16 := 0x5A4D

  datatype DosHeader = DosHeader(
    magic: uint16, cblp: uint16, cp: uint16, crlc: uint16, cparhdr: uint16,
    minalloc: uint16, maxalloc: uint16, ss: uint16, sp: uint16, csum: uint16,
    ip: uint16, cs: uint16, lfarlc: uint16, ovno: uint16,
    oemid: uint16, oeminfo: uint16, lfanew: uint32)

  /**
   * `new DosHeader(span)`. There is no length check; a span shorter than
   * 64 bytes makes the last slice throw.
   */
  function DecodeDosHeader(data: seq<uint8>): (r: Result<DosHeader>)
    ensures r.Ok? <==> |data| >= 64
  {
    if |data| < 64 then Err(Argument)
    else Ok(DosHeader(
      LE16(data, 0), LE16(data, 2), LE16(data, 4), LE16(data, 6), LE16(data, 8),
      LE16(data, 10), LE16(data, 12), LE16(data, 14), LE16(data, 16), LE16(data, 18),
      LE16(data, 20), LE16(data, 22), LE16(data, 24), LE16(data, 26),
      LE16(data, 36), LE16(data, 38), LE32(data, 60)))
  }

  /** The header laid out as the decoder reads it, the unread bytes given by `gap1`/`gap2`. */
  function EncodeDosHeader(h: DosHeader, gap1: seq<uint8>, gap2: seq<uint8>): (r: seq<uint8>)
    requires |gap1| == 8 && |gap2| == 20
    ensures |r| == 64
  {
    Bytes16(h.magic) + Bytes16(h.cblp) + Bytes16(h.cp) + Bytes16(h.crlc) + Bytes16(h.cparhdr)
    + Bytes16(h.minalloc) + Bytes16(h.maxalloc) + Bytes16(h.ss) + Bytes16(h.sp) + Bytes16(h.csum)
    + Bytes16(h.ip) + Bytes16(h.cs) + Bytes16(h.lfarlc) + Bytes16(h.ovno)
    + gap1 + Bytes16(h.oemid) + Bytes16(h.oeminfo) + gap2 + Bytes32(h.lfanew)
  }

  /**
   * Every field is recovered from its offset, and bytes 28..36 and 40..60
   * affect no field.
   */
  lemma DosHeaderRoundTrip(h: DosHeader, gap1: seq<uint8>, gap2: seq<uint8>)
    requires |gap1| == 8 && |gap2| == 20
    ensures DecodeDosHeader(EncodeDosHeader(h, gap1, gap2)) == Ok(h)
  {
  }

  /** The stub starts with "MZ". */
  lemma DosSignatureIsMZ(data: seq<uint8>)
    requires |data| >= 64
    ensures DecodeDosHeader(data).value.magic == DOS_SIGNATURE <==> data[0] == 0x4D && data[1] == 0x5A
  {
  }
}
