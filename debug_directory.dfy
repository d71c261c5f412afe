/**
 * The debug directory: an array of 28-byte IMAGE_DEBUG_DIRECTORY records
 * read one after another from the directory's RVA, and the CodeView
 * (CV_INFO_PDB70) record a CodeView entry points at.
 */
module DebugDirectories {
  import opened Bytes
  import opened Results
  import opened Text
  import opened DataDirectories
  import opened Images

  const DEBUG_ENTRY_SIZE: nat := 28

  /** `DebugType.CodeView`, the type a CodeViewInfo reports. */
  const DEBUG_TYPE_CODEVIEW: uint32 := 2

  /** IMAGE_DEBUG_DIRECTORY; `debugType` keeps any 32-bit value, not only the named DebugType members. */
  datatype DebugDirectoryEntry = DebugDirectoryEntry(
    characteristics: uint32, timeDateStamp: uint32, majorVersion: uint16, minorVersion: uint16,
    debugType: uint32, sizeOfData: uint32, addressOfRawData: uint32, pointerToRawData: uint32)

  /** `new DebugDirectoryEntry(span)`: the fields at offsets 0, 4, 8, 10, 12, 16, 20 and 24, or an ArgumentException. */
  function DecodeDebugEntry(data: seq<uint8>): (r: Result<DebugDirectoryEntry>)
    ensures r.Ok? <==> |data| >= DEBUG_ENTRY_SIZE
  {
    if |data| < DEBUG_ENTRY_SIZE then Err(Argument)
    else Ok(DebugDirectoryEntry(LE32(data, 0), LE32(data, 4), LE16(data, 8), LE16(data, 10),
                                LE32(data, 12), LE32(data, 16), LE32(data, 20), LE32(data, 24)))
  }

  function EncodeDebugEntry(e: DebugDirectoryEntry): (r: seq<uint8>)
    ensures |r| == DEBUG_ENTRY_SIZE
  {
    Bytes32(e.characteristics) + Bytes32(e.timeDateStamp) + Bytes16(e.majorVersion) + Bytes16(e.minorVersion)
    + Bytes32(e.debugType) + Bytes32(e.sizeOfData) + Bytes32(e.addressOfRawData) + Bytes32(e.pointerToRawData)
  }

  /** Only the first 28 bytes are read. */
  lemma DebugEntryReadsTwentyEight(data: seq<uint8>)
    requires |data| >= DEBUG_ENTRY_SIZE
    ensures DecodeDebugEntry(data) == DecodeDebugEntry(data[..DEBUG_ENTRY_SIZE])
  {
  }

  /** Decoding the 28-byte little-endian encoding gives the eight fields back, whatever follows. */
  lemma DebugEntryRoundTrip(e: DebugDirectoryEntry, rest: seq<uint8>)
    ensures DecodeDebugEntry(EncodeDebugEntry(e) + rest) == Ok(e)
  {
  }

  datatype DebugDirectory = DebugDirectory(entries: Option<seq<DebugDirectoryEntry>>)

  /** Entry i: `RVAToFileOffset((uint)(VirtualAddress + i * 28))`, `ReadExactly` 28 bytes, decode. */
  function DebugEntryAt(img: Image, data: seq<uint8>, va: uint32, i: nat): Result<DebugDirectoryEntry>
  {
    var bytes :- BytesAt(img, data, Wrap32(va + i * DEBUG_ENTRY_SIZE), DEBUG_ENTRY_SIZE);
    Ok(DecodeDebugEntry(bytes).value)
  }

  /** The reader of entry i for a directory at `va`. */
  function DebugEntryReader(img: Image, data: seq<uint8>, va: uint32): nat -> Result<DebugDirectoryEntry>
  {
    (i: nat) => DebugEntryAt(img, data, va, i)
  }

  /** `DebugDirectory.LoadDirectory`: `Size / 28` entries, the trailing `Size % 28` bytes ignored. */
  function LoadDebugDirectory(img: Image, data: seq<uint8>): (r: Result<DebugDirectory>)
    requires img.Valid()
    ensures img.Directory(Debug).IsEmpty() ==> r == Err(InvalidOperation)
  {
    var dir := img.Directory(Debug);
    if dir.IsEmpty() then Err(InvalidOperation)
    else
      var es :- ReadEach(DebugEntryReader(img, data, dir.virtualAddress), dir.size as nat / DEBUG_ENTRY_SIZE);
      Ok(DebugDirectory(Some(es)))
  }

  /** The `for` loop of `LoadDirectory`, filling the `Entries` array. */
  method LoadDirectory(img: Image, data: seq<uint8>) returns (r: Result<DebugDirectory>)
    requires img.Valid()
    ensures r == LoadDebugDirectory(img, data)
  {
    var dir := img.Directory(Debug);
    if dir.IsEmpty() {
      return Err(InvalidOperation);
    }
    var entries := ReadAll(DebugEntryReader(img, data, dir.virtualAddress), dir.size as nat / DEBUG_ENTRY_SIZE);
    if entries.Err? {
      return Err(entries.error);
    }
    return Ok(DebugDirectory(Some(entries.value)));
  }

  /** Entry i is read from the 28 bytes at `(uint)(VA + 28i)`, and fails exactly when they cannot be read. */
  lemma DebugEntryAtSpec(img: Image, data: seq<uint8>, va: uint32, i: nat)
    ensures var bytes := BytesAt(img, data, Wrap32(va + i * DEBUG_ENTRY_SIZE), DEBUG_ENTRY_SIZE);
      && (DebugEntryAt(img, data, va, i).Ok? <==> bytes.Ok?)
      && (bytes.Ok? ==> |bytes.value| == DEBUG_ENTRY_SIZE && DebugEntryAt(img, data, va, i) == DecodeDebugEntry(bytes.value))
  {
  }

  /**
   * A non-empty slot loads when every one of its `Size / 28` entries can be
   * read, and the loaded entries are those reads in order; a `Size` below
   * 28 loads no entries.
   */
  lemma LoadDebugDirectorySpec(img: Image, data: seq<uint8>)
    requires img.Valid()
    ensures var dir := img.Directory(Debug);
      var n := dir.size as nat / DEBUG_ENTRY_SIZE;
      var r := LoadDebugDirectory(img, data);
      && (!dir.IsEmpty() ==> (r.Ok? <==> forall i | 0 <= i < n :: DebugEntryAt(img, data, dir.virtualAddress, i).Ok?))
      && (r.Ok? ==>
            && r.value.entries.Some?
            && |r.value.entries.value| == n
            && (forall i | 0 <= i < n :: DebugEntryAt(img, data, dir.virtualAddress, i) == Ok(r.value.entries.value[i]))
            && (dir.size < 28 ==> r.value.entries.value == []))
  {
    var dir := img.Directory(Debug);
    var n := dir.size as nat / DEBUG_ENTRY_SIZE;
    var read := DebugEntryReader(img, data, dir.virtualAddress);
    ReadEachSpec(read, n);
    assert forall i: nat :: read(i) == DebugEntryAt(img, data, dir.virtualAddress, i);
  }

  // ---- CodeViewInfo ----

  const CODEVIEW_HEADER_SIZE: nat := 24

  /** CV_INFO_PDB70; the GUID is kept as its 16 raw bytes. */
  datatype CodeViewInfo = CodeViewInfo(signature: Str, guid: seq<uint8>, age: uint32, pdbFilename: Str)

  /**
   * `new CodeViewInfo(span)`: the ASCII of bytes 0..4 (not checked against
   * "RSDS"), the GUID bytes 4..20, the age at 20, and the ASCII of every
   * byte after 24, NULs included; an ArgumentException below 24 bytes.
   */
  function DecodeCodeView(data: seq<uint8>): (r: Result<CodeViewInfo>)
    ensures r.Ok? <==> |data| >= CODEVIEW_HEADER_SIZE
  {
    if |data| < CODEVIEW_HEADER_SIZE then Err(Argument)
    else
      var filenameData := data[CODEVIEW_HEADER_SIZE..];
      Ok(CodeViewInfo(Ascii(data[0..4]), data[4..20], LE32(data, 20),
                      if |filenameData| == 0 then [] else Ascii(filenameData)))
  }

  /**
   * The fields decoded from a signature, a GUID, a little-endian age and a
   * file name are those pieces, as text where the source makes text: any
   * four signature bytes are accepted, and the file name is empty exactly
   * when nothing follows the age.
   */
  lemma CodeViewRoundTrip(sig: seq<uint8>, guid: seq<uint8>, age: uint32, name: seq<uint8>)
    requires |sig| == 4 && |guid| == 16
    ensures var r := DecodeCodeView(sig + guid + Bytes32(age) + name);
      && r == Ok(CodeViewInfo(Ascii(sig), guid, age, Ascii(name)))
      && (r.value.pdbFilename == [] <==> name == [])
  {
    var data := sig + guid + Bytes32(age) + name;
    assert data[0..4] == sig;
    assert data[4..20] == guid;
    assert data[CODEVIEW_HEADER_SIZE..] == name;
    LE32At(data, 20, age);
  }

  /** A NUL byte in the file name is kept as a NUL character; ASCII bytes decode to themselves. */
  lemma CodeViewKeepsNul(data: seq<uint8>, i: nat)
    requires |data| >= CODEVIEW_HEADER_SIZE && CODEVIEW_HEADER_SIZE <= i < |data| && data[i] < 0x80
    ensures DecodeCodeView(data).value.pdbFilename[i - CODEVIEW_HEADER_SIZE] == data[i]
  {
  }
}
