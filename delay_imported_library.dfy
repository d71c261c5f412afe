/**
 * IMAGE_DELAYLOAD_DESCRIPTOR and its import name table. A descriptor whose
 * RvaBased attribute is clear stores virtual addresses, which are turned
 * into RVAs by subtracting ImageBase.
 *
 * Two reads of `LoadDescriptor` are modelled twice, as the code does them
 * and as the RvaBased convention intends (see the Findings of the README):
 * the DLL name and the decoding of a name-table entry. The delay-import
 * directory is loaded in either reading.
 */
module DelayImportedLibraries {
  import opened Bytes
  import opened Results
  import opened Text
  import opened StreamHelper
  import opened SectionHeaders
  import opened OptionalHeaders
  import opened Images
  import opened Functions
  import opened ImportedLibraries

  const DELAY_DESCRIPTOR_SIZE: nat := 32

  datatype DelayImportedLibrary = DelayImportedLibrary(
    allAttributes: uint32, dllName: (uint32, Option<Str>),
    moduleHandleRva: uint32, importAddressTableRva: uint32, importNameTableRva: uint32,
    boundImportAddressTableRva: uint32, unloadInformationTableRva: uint32, timeDateStamp: uint32,
    imports: Option<seq<ImportedFunction>>)
  {
    /** Bit 0 of AllAttributes: the pointer fields are RVAs rather than VAs. */
    predicate RvaBased() { allAttributes % 2 == 1 }

    /** The all-zero descriptor that ends the descriptor array. */
    predicate IsSentinel()
    {
      && allAttributes == 0 && dllName.0 == 0 && moduleHandleRva == 0 && importAddressTableRva == 0
      && importNameTableRva == 0 && boundImportAddressTableRva == 0 && unloadInformationTableRva == 0
      && timeDateStamp == 0
    }

    /**
     * `GetRVA(ulong)`: the low 32 bits when RvaBased, else `v - ImageBase`
     * in 64-bit arithmetic truncated to 32 bits. Only the low 32 bits of the
     * wrapped subtraction survive, so one reduction modulo 2^32 models both.
     */
    function GetRva(v: int, imageBase: uint64): (r: uint32)
      ensures RvaBased() ==> r == Wrap32(v)
      ensures !RvaBased() ==> Wrap32(r + imageBase) == Wrap32(v)
    {
      if RvaBased() then Wrap32(v) else Wrap32(v - imageBase)
    }
  }

  /** `new DelayImportedLibrary(span)`: eight little-endian fields at a 4-byte stride. */
  function DecodeDelayDescriptor(data: seq<uint8>): (r: Result<DelayImportedLibrary>)
    ensures r.Ok? <==> |data| >= DELAY_DESCRIPTOR_SIZE
    ensures r.Err? ==> r.error == Argument
    ensures r.Ok? ==> r.value.dllName.1.None? && r.value.imports.None?
  {
    if |data| < DELAY_DESCRIPTOR_SIZE then Err(Argument)
    else Ok(DelayImportedLibrary(
      LE32(data, 0), (LE32(data, 4), None), LE32(data, 8), LE32(data, 12),
      LE32(data, 16), LE32(data, 20), LE32(data, 24), LE32(data, 28), None))
  }

  function EncodeDelayDescriptor(d: DelayImportedLibrary): (r: seq<uint8>)
    ensures |r| == DELAY_DESCRIPTOR_SIZE
  {
    Bytes32(d.allAttributes) + Bytes32(d.dllName.0) + Bytes32(d.moduleHandleRva) + Bytes32(d.importAddressTableRva)
      + Bytes32(d.importNameTableRva) + Bytes32(d.boundImportAddressTableRva)
      + Bytes32(d.unloadInformationTableRva) + Bytes32(d.timeDateStamp)
  }

  /** The eight fields read back from their little-endian encoding. */
  lemma DelayDescriptorRoundTrip(d: DelayImportedLibrary)
    ensures DecodeDelayDescriptor(EncodeDelayDescriptor(d)) == Ok(d.(dllName := (d.dllName.0, None), imports := None))
  {
    var e := EncodeDelayDescriptor(d);
    LE32At(e, 0, d.allAttributes);
    LE32At(e, 4, d.dllName.0);
    LE32At(e, 8, d.moduleHandleRva);
    LE32At(e, 12, d.importAddressTableRva);
    LE32At(e, 16, d.importNameTableRva);
    LE32At(e, 20, d.boundImportAddressTableRva);
    LE32At(e, 24, d.unloadInformationTableRva);
    LE32At(e, 28, d.timeDateStamp);
  }

  /** A VA stored by a VA-based descriptor converts to the RVA it was made from. */
  lemma GetRvaOfVa(d: DelayImportedLibrary, imageBase: uint64, rva: uint32)
    requires !d.RvaBased()
    ensures d.GetRva(imageBase + rva, imageBase) == rva
  {
  }

  // ---- GetRVA(Span): rebasing an entry buffer ----

  /** The buffer after `GetRVA(Span)`: unchanged when RvaBased, else the converted value, zero-extended to its width. */
  function RebasedEntry(d: DelayImportedLibrary, imageBase: uint64, e: seq<uint8>): (r: seq<uint8>)
    requires |e| == 4 || |e| == 8
    ensures |r| == |e|
  {
    if d.RvaBased() then e
    else if |e| == 8 then Bytes64(d.GetRva(LE64(e, 0), imageBase))
    else Bytes32(d.GetRva(LE32(e, 0), imageBase))
  }

  /** The rebased entry reads as the converted value at either width. */
  lemma RebasedEntryValue(d: DelayImportedLibrary, imageBase: uint64, e: seq<uint8>)
    requires |e| == 4 || |e| == 8
    ensures d.RvaBased() ==> RebasedEntry(d, imageBase, e) == e
    ensures !d.RvaBased() ==> ThunkValue(RebasedEntry(d, imageBase, e)) == d.GetRva(ThunkValue(e), imageBase)
  {
    if !d.RvaBased() {
      var r := RebasedEntry(d, imageBase, e);
      if |e| == 8 {
        LE64At(r, 0, d.GetRva(LE64(e, 0), imageBase));
      } else {
        LE32At(r, 0, d.GetRva(LE32(e, 0), imageBase));
      }
    }
  }

  /** `GetRVA(Span)`: the entry buffer rewritten in place. */
  method RebaseInPlace(d: DelayImportedLibrary, imageBase: uint64, buf: array<uint8>)
    requires buf.Length == 4 || buf.Length == 8
    modifies buf
    ensures buf[..] == RebasedEntry(d, imageBase, old(buf[..]))
  {
    if d.RvaBased() {
      return;
    }
    var enc: seq<uint8>;
    if buf.Length == 8 {
      enc := Bytes64(d.GetRva(LE64(buf[..], 0), imageBase));
    } else {
      enc := Bytes32(d.GetRva(LE32(buf[..], 0), imageBase));
    }
    ghost var before := buf[..];
    assert enc == RebasedEntry(d, imageBase, before);
    for i := 0 to buf.Length
      invariant buf[..i] == enc[..i]
    {
      buf[i] := enc[i];
    }
    assert buf[..] == buf[..buf.Length];
  }

  // ---- the two readings ----

  /** How `LoadDescriptor` is read: as the code does it, or as the RvaBased convention intends. */
  datatype Reading = AsWritten | Intended

  /**
   * Where the DLL name is read. The code reads at the raw DllName field (a VA
   * when the descriptor is VA-based); the intended reading converts it first,
   * as it does for the DllName.RVA it stores.
   */
  function NameReadRva(d: DelayImportedLibrary, imageBase: uint64, reading: Reading): (r: uint32)
    ensures d.RvaBased() ==> r == d.dllName.0
    ensures reading == Intended ==> r == d.GetRva(d.dllName.0, imageBase)
  {
    if reading == AsWritten then d.dllName.0 else d.GetRva(d.dllName.0, imageBase)
  }

  /**
   * The decoding of a name-table entry. The code rebases the whole entry and
   * then tests it for zero and for the ordinal flag; the intended reading
   * tests the raw entry, so that the zero terminator and ordinal entries
   * (which are not addresses) survive, and converts only the hint/name RVA.
   */
  function DelayThunk(img: Image, data: seq<uint8>, d: DelayImportedLibrary, e: seq<uint8>, reading: Reading)
    : (r: Result<ImportedFunction>)
    requires |e| == 4 || |e| == 8
    ensures r.Ok? && r.value != NOTHING ==> IsOrdinalOrNamed(r.value)
    ensures reading == Intended ==>
      && (ThunkValue(e) == 0 <==> r == Ok(NOTHING))
      && (ThunkValue(e) != 0 && OrdinalFlag(e) ==> r == Ok(ImportedFunction(Some(ThunkValue(e) % TWO_TO_16), None, None)))
      && (ThunkValue(e) != 0 && !OrdinalFlag(e) ==>
            r == NameImportAt(img, data, d.GetRva(ThunkValue(e), img.optionalHeader.imageBase) % TWO_TO_31))
  {
    var ib := img.optionalHeader.imageBase;
    if reading == AsWritten then GetOrdinalOrName(img, data, RebasedEntry(d, ib, e))
    else
      var v := ThunkValue(e);
      if v == 0 then Ok(NOTHING)
      else if OrdinalFlag(e) then Ok(ImportedFunction(Some(v % TWO_TO_16), None, None))
      else NameImportAt(img, data, d.GetRva(v, ib) % TWO_TO_31)
  }

  /** For an RvaBased descriptor the two readings agree with the ordinary thunk decoding. */
  lemma ReadingsAgreeWhenRvaBased(img: Image, data: seq<uint8>, d: DelayImportedLibrary, e: seq<uint8>)
    requires |e| == 4 || |e| == 8
    requires d.RvaBased()
    ensures DelayThunk(img, data, d, e, AsWritten) == GetOrdinalOrName(img, data, e)
    ensures DelayThunk(img, data, d, e, Intended) == GetOrdinalOrName(img, data, e)
    ensures NameReadRva(d, img.optionalHeader.imageBase, AsWritten) == NameReadRva(d, img.optionalHeader.imageBase, Intended)
  {
    var v := ThunkValue(e);
    var ib := img.optionalHeader.imageBase;
    assert RebasedEntry(d, ib, e) == e;
    if v != 0 && !OrdinalFlag(e) {
      assert d.GetRva(v, ib) % TWO_TO_31 == v % TWO_TO_31 by {
        Low31OfWrap32(v);
      }
    }
  }

  /** Reducing modulo 2^32 first does not change the low 31 bits. */
  lemma Low31OfWrap32(v: nat)
    ensures Wrap32(v) % TWO_TO_31 == v % TWO_TO_31
  {
    var w := v % 0x1_0000_0000;
    var q := v / 0x1_0000_0000;
    assert v == 0x1_0000_0000 * q + w;
    assert w == 0x8000_0000 * (w / 0x8000_0000) + w % 0x8000_0000;
    assert v == 0x8000_0000 * (2 * q + w / 0x8000_0000) + w % 0x8000_0000;
  }

  /**
   * As written: in a 32-bit image based at 0x400000, the zero entry that
   * ends a VA-based name table is rebased to 0xFFC00000, whose bit 31 is
   * set, so it is taken for an import of ordinal 0 and the walk goes on.
   */
  lemma TerminatorMissedAsWritten(img: Image, data: seq<uint8>, d: DelayImportedLibrary)
    requires !img.IsPe32Plus() && img.optionalHeader.imageBase == 0x400000 && !d.RvaBased()
    ensures DelayThunk(img, data, d, [0, 0, 0, 0], AsWritten) == Ok(ImportedFunction(Some(0), None, None))
  {
    var e: seq<uint8> := [0, 0, 0, 0];
    assert d.GetRva(LE32(e, 0), 0x400000) == 0xFFC0_0000;
    LE32At(Bytes32(0xFFC0_0000), 0, 0xFFC0_0000);
  }

  /** Intended: the zero entry ends the table and a flagged entry is an ordinal, whatever the descriptor's base. */
  lemma TerminatorKeptAsIntended(img: Image, data: seq<uint8>, d: DelayImportedLibrary, w: nat, ordinal: uint16)
    requires w == 4 || w == 8
    ensures DelayThunk(img, data, d, if w == 8 then Bytes64(0) else Bytes32(0), Intended) == Ok(NOTHING)
    ensures DelayThunk(img, data, d, OrdinalThunk(ordinal, w), Intended) == Ok(ImportedFunction(Some(ordinal), None, None))
  {
    if w == 8 {
      LE64At(Bytes64(0), 0, 0);
    } else {
      LE32At(Bytes32(0), 0, 0);
    }
    OrdinalThunkValue(ordinal, w);
    IntendedOrdinal(img, data, d, OrdinalThunk(ordinal, w), if w == 8 then TWO_TO_63 else TWO_TO_31, ordinal);
  }

  /** Under the intended reading, a flagged entry holding a flag bit plus an ordinal decodes to that ordinal. */
  lemma IntendedOrdinal(img: Image, data: seq<uint8>, d: DelayImportedLibrary, e: seq<uint8>, flag: int, ordinal: uint16)
    requires |e| == 4 || |e| == 8
    requires flag == TWO_TO_63 || flag == TWO_TO_31
    requires ThunkValue(e) == flag + ordinal as int && OrdinalFlag(e)
    ensures DelayThunk(img, data, d, e, Intended) == Ok(ImportedFunction(Some(ordinal), None, None))
  {
    FlagOrdinalLow16(flag, ordinal);
  }

  /** A section table mapping RVAs 0x1000 to 0x1FFF to file offsets 0x400 to 0x13FF. */
  function OneSection(): seq<SectionHeader>
  {
    [SectionHeader([], 0x1000, 0x1000, 0x1000, 0x400, 0, 0, 0, 0, 0)]
  }

  /**
   * As written: a VA-based descriptor of an image based at 0x400000 whose
   * DLL name is at RVA 0x1000 stores the VA 0x401000, and the code reads the
   * name there, where no section maps, so the load fails with an
   * ArgumentException from RVAToFileOffset.
   */
  lemma NameMisreadAsWritten(d: DelayImportedLibrary)
    requires !d.RvaBased() && d.dllName.0 == 0x401000
    ensures RvaToFileOffset(OneSection(), NameReadRva(d, 0x400000, AsWritten)) == Err(Argument)
  {
    assert !OneSection()[0].Contains(0x401000);
  }

  /** Intended: the same descriptor's name is read at RVA 0x1000, file offset 0x400. */
  lemma NameReadAsIntended(d: DelayImportedLibrary)
    requires !d.RvaBased() && d.dllName.0 == 0x401000
    ensures RvaToFileOffset(OneSection(), NameReadRva(d, 0x400000, Intended)) == Ok(0x400)
  {
    assert d.GetRva(0x401000, 0x400000) == 0x1000;
    assert OneSection()[0].Contains(0x1000);
  }

  // ---- LoadDescriptor ----

  /** Name-table entry i: read at `GetRVA((ulong)(ImportNameTableRVA + i * w))`, then decoded. */
  function DelayThunkAt(img: Image, data: seq<uint8>, d: DelayImportedLibrary, reading: Reading, i: nat)
    : Result<ImportedFunction>
  {
    var w := ThunkWidth(img);
    var e :- BytesAt(img, data, d.GetRva(d.importNameTableRva + i * w, img.optionalHeader.imageBase), w);
    DelayThunk(img, data, d, e, reading)
  }

  function DelayThunkReaderOf(img: Image, data: seq<uint8>, d: DelayImportedLibrary, reading: Reading)
    : nat -> Result<ImportedFunction>
  {
    (j: nat) => DelayThunkAt(img, data, d, reading, j)
  }

  /**
   * `DelayImportedLibrary.LoadDescriptor`: null for the sentinel, else the
   * descriptor with the converted DllName.RVA, the DLL name and the imports.
   */
  function LoadedDelayDescriptor(img: Image, data: seq<uint8>, bytes: seq<uint8>, fuel: nat, reading: Reading)
    : (r: Result<Option<DelayImportedLibrary>>)
    ensures |bytes| < DELAY_DESCRIPTOR_SIZE ==> r == Err(Argument)
    ensures r == Ok(None) <==> DecodeDelayDescriptor(bytes).Ok? && DecodeDelayDescriptor(bytes).value.IsSentinel()
    ensures r.Ok? && r.value.Some? ==>
      var d := DecodeDelayDescriptor(bytes).value;
      var ib := img.optionalHeader.imageBase;
      && r.value.value == d.(dllName := r.value.value.dllName, imports := r.value.value.imports)
      && r.value.value.dllName.0 == d.GetRva(d.dllName.0, ib)
      && r.value.value.dllName.1.Some?
      && Ok(r.value.value.dllName.1.value) == StringAtRva(img, data, NameReadRva(d, ib, reading), AsciiEncoding)
      && r.value.value.imports.Some?
      && Ok(r.value.value.imports.value) == ThunksFrom(DelayThunkReaderOf(img, data, d, reading), 0, [], fuel)
  {
    var d :- DecodeDelayDescriptor(bytes);
    if d.IsSentinel() then Ok(None)
    else
      var ib := img.optionalHeader.imageBase;
      var name :- StringAtRva(img, data, NameReadRva(d, ib, reading), AsciiEncoding);
      var imports :- ThunksFrom(DelayThunkReaderOf(img, data, d, reading), 0, [], fuel);
      Ok(Some(d.(dllName := (d.GetRva(d.dllName.0, ib), Some(name)), imports := Some(imports))))
  }

  method LoadDescriptor(img: Image, data: seq<uint8>, bytes: seq<uint8>, fuel: nat, reading: Reading)
    returns (r: Result<Option<DelayImportedLibrary>>)
    ensures r == LoadedDelayDescriptor(img, data, bytes, fuel, reading)
  {
    var d := DecodeDelayDescriptor(bytes);
    if d.Err? {
      return Err(d.error);
    }
    if d.value.IsSentinel() {
      return Ok(None);
    }
    var ib := img.optionalHeader.imageBase;
    var name := StringAtRva(img, data, NameReadRva(d.value, ib, reading), AsciiEncoding);
    if name.Err? {
      return Err(name.error);
    }
    var imports := CollectThunks(DelayThunkReaderOf(img, data, d.value, reading), fuel);
    if imports.Err? {
      return Err(imports.error);
    }
    return Ok(Some(d.value.(dllName := (d.value.GetRva(d.value.dllName.0, ib), Some(name.value)), imports := Some(imports.value))));
  }

  /**
   * Under the intended reading the stored DllName pair is consistent: the
   * name is the string at the stored RVA.
   */
  lemma IntendedNameAtStoredRva(img: Image, data: seq<uint8>, bytes: seq<uint8>, fuel: nat)
    requires LoadedDelayDescriptor(img, data, bytes, fuel, Intended).Ok?
    requires LoadedDelayDescriptor(img, data, bytes, fuel, Intended).value.Some?
    ensures var lib := LoadedDelayDescriptor(img, data, bytes, fuel, Intended).value.value;
      Ok(lib.dllName.1.value) == StringAtRva(img, data, lib.dllName.0, AsciiEncoding)
  {
  }

  /** The two readings load the same descriptor from bytes that hold an RVA-based descriptor or the sentinel. */
  lemma LoadedReadingsAgree(img: Image, data: seq<uint8>, bytes: seq<uint8>, fuel: nat)
    requires DecodeDelayDescriptor(bytes).Ok? ==>
      DecodeDelayDescriptor(bytes).value.RvaBased() || DecodeDelayDescriptor(bytes).value.IsSentinel()
    ensures LoadedDelayDescriptor(img, data, bytes, fuel, AsWritten) == LoadedDelayDescriptor(img, data, bytes, fuel, Intended)
  {
    if DecodeDelayDescriptor(bytes).Ok? && !DecodeDelayDescriptor(bytes).value.IsSentinel() {
      var d := DecodeDelayDescriptor(bytes).value;
      var a := DelayThunkReaderOf(img, data, d, AsWritten);
      var b := DelayThunkReaderOf(img, data, d, Intended);
      forall j: nat ensures a(j) == b(j) {
        ThunkReadingsAgree(img, data, d, j);
      }
      ThunksFromAgree(a, b, 0, [], fuel);
    }
  }

  lemma ThunkReadingsAgree(img: Image, data: seq<uint8>, d: DelayImportedLibrary, j: nat)
    requires d.RvaBased()
    ensures DelayThunkAt(img, data, d, AsWritten, j) == DelayThunkAt(img, data, d, Intended, j)
  {
    var w := ThunkWidth(img);
    var e := BytesAt(img, data, d.GetRva(d.importNameTableRva + j * w, img.optionalHeader.imageBase), w);
    if e.Ok? {
      ReadingsAgreeWhenRvaBased(img, data, d, e.value);
    }
  }

  /** In either reading, every function of a walked table is by ordinal only, or by name with a hint. */
  lemma DelayThunkTableKinds(img: Image, data: seq<uint8>, d: DelayImportedLibrary, fuel: nat, reading: Reading)
    requires ThunksFrom(DelayThunkReaderOf(img, data, d, reading), 0, [], fuel).Ok?
    ensures forall f | f in ThunksFrom(DelayThunkReaderOf(img, data, d, reading), 0, [], fuel).value :: IsOrdinalOrNamed(f)
  {
    var t := DelayThunkReaderOf(img, data, d, reading);
    ThunkTableContents(t, fuel);
    var r := ThunksFrom(t, 0, [], fuel).value;
    forall f | f in r ensures IsOrdinalOrNamed(f) {
      var k :| 0 <= k < |r| && r[k] == f;
      assert t(k) == DelayThunkAt(img, data, d, reading, k);
    }
  }
}
