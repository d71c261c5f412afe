/**
 * IMAGE_IMPORT_DESCRIPTOR and its thunk table: the 20-byte descriptor, the
 * decoding of one thunk entry (terminator, import by ordinal or import by
 * name with a hint), and the walk over the thunk table up to its zero entry.
 */
module ImportedLibraries {
  import opened Bytes
  import opened Results
  import opened Text
  import opened StreamHelper
  import opened SectionHeaders
  import opened Images
  import opened Functions

  const IMPORT_DESCRIPTOR_SIZE: nat := 20

  datatype ImportedLibrary = ImportedLibrary(
    characteristics: uint32, timeDateStamp: uint32, forwarderChain: uint32,
    name: (uint32, Option<Str>), firstThunk: uint32,
    imports: Option<seq<ImportedFunction>>)
  {
    /** `OriginalFirstThunk` is another name for `Characteristics`. */
    function OriginalFirstThunk(): uint32 { characteristics }

    /** The all-zero descriptor that ends the descriptor array. */
    predicate IsSentinel()
    {
      characteristics == 0 && timeDateStamp == 0 && forwarderChain == 0 && name.0 == 0 && firstThunk == 0
    }

    /** The lookup table, or the address table when the lookup table is missing (old linkers). */
    function ThunkTable(): (r: uint32)
      ensures OriginalFirstThunk() != 0 ==> r == OriginalFirstThunk()
      ensures OriginalFirstThunk() == 0 ==> r == firstThunk
    {
      if OriginalFirstThunk() == 0 then firstThunk else OriginalFirstThunk()
    }
  }

  /** `new ImportedLibrary(span)`: five little-endian fields; the name string and imports are not read yet. */
  function DecodeImportDescriptor(data: seq<uint8>): (r: Result<ImportedLibrary>)
    ensures r.Ok? <==> |data| >= IMPORT_DESCRIPTOR_SIZE
    ensures r.Err? ==> r.error == Argument
    ensures r.Ok? ==> r.value.name.1.None? && r.value.imports.None?
  {
    if |data| < IMPORT_DESCRIPTOR_SIZE then Err(Argument)
    else Ok(ImportedLibrary(LE32(data, 0), LE32(data, 4), LE32(data, 8), (LE32(data, 12), None), LE32(data, 16), None))
  }

  function EncodeImportDescriptor(d: ImportedLibrary): (r: seq<uint8>)
    ensures |r| == IMPORT_DESCRIPTOR_SIZE
  {
    Bytes32(d.characteristics) + Bytes32(d.timeDateStamp) + Bytes32(d.forwarderChain)
      + Bytes32(d.name.0) + Bytes32(d.firstThunk)
  }

  /** The five fields read back from their little-endian encoding. */
  lemma ImportDescriptorRoundTrip(d: ImportedLibrary)
    ensures DecodeImportDescriptor(EncodeImportDescriptor(d)) == Ok(d.(name := (d.name.0, None), imports := None))
  {
    var e := EncodeImportDescriptor(d);
    LE32At(e, 0, d.characteristics);
    LE32At(e, 4, d.timeDateStamp);
    LE32At(e, 8, d.forwarderChain);
    LE32At(e, 12, d.name.0);
    LE32At(e, 16, d.firstThunk);
  }

  /** A 32-bit little-endian field is zero exactly when its four bytes are. */
  lemma LE32Zero(s: seq<uint8>, off: nat)
    requires off + 4 <= |s|
    ensures LE32(s, off) == 0 <==> s[off] == 0 && s[off + 1] == 0 && s[off + 2] == 0 && s[off + 3] == 0
  {
  }

  /** The descriptor is the sentinel exactly when its twenty bytes are all zero. */
  lemma SentinelIsZeroBytes(data: seq<uint8>)
    requires |data| >= IMPORT_DESCRIPTOR_SIZE
    ensures DecodeImportDescriptor(data).value.IsSentinel() <==> forall i | 0 <= i < IMPORT_DESCRIPTOR_SIZE :: data[i] == 0
  {
    LE32Zero(data, 0);
    LE32Zero(data, 4);
    LE32Zero(data, 8);
    LE32Zero(data, 12);
    LE32Zero(data, 16);
    if !DecodeImportDescriptor(data).value.IsSentinel() {
      assert exists i | 0 <= i < IMPORT_DESCRIPTOR_SIZE :: data[i] != 0;
    }
  }

  // ---- one thunk entry ----

  /** Thunk entries are 8 bytes wide in a PE32+ image and 4 bytes otherwise. */
  function ThunkWidth(img: Image): (w: nat)
    ensures w == 4 || w == 8
    ensures w == 8 <==> img.IsPe32Plus()
  {
    if img.IsPe32Plus() then 8 else 4
  }

  /** The entry as an unsigned integer of the thunk width. */
  function ThunkValue(d: seq<uint8>): uint64
    requires |d| == 4 || |d| == 8
  {
    if |d| == 8 then LE64(d, 0) else LE32(d, 0)
  }

  /** IMAGE_ORDINAL_FLAG: bit 63 of an 8-byte entry, bit 31 of a 4-byte one. */
  predicate OrdinalFlag(d: seq<uint8>)
    requires |d| == 4 || |d| == 8
  {
    if |d| == 8 then HighBit64(LE64(d, 0)) else HighBit32(LE32(d, 0))
  }

  /** The import of an entry that is neither zero nor flagged: the hint at `rva`, then the ASCII name after it. */
  function NameImportAt(img: Image, data: seq<uint8>, rva: uint32): (r: Result<ImportedFunction>)
    ensures r.Ok? ==> r.value.ordinal.None? && r.value.name.Some? && r.value.hint.Some?
  {
    var off :- RvaToFileOffset(img.sections, rva);
    var hint :- ReadExactly(data, off, 2);
    var name :- StringAt(data, off + 2, AsciiEncoding);
    Ok(ImportedFunction(None, Some(name.0), Some(LE16(hint, 0))))
  }

  /**
   * A hint/name pair is read exactly when its RVA maps into a section, two
   * hint bytes follow and a NUL-terminated name after them; the hint is the
   * little-endian word there and the name the ASCII text after it.
   */
  lemma NameImportAtSpec(img: Image, data: seq<uint8>, rva: uint32)
    ensures var r := NameImportAt(img, data, rva);
      && (r.Ok? <==>
            && RvaToFileOffset(img.sections, rva).Ok?
            && RvaToFileOffset(img.sections, rva).value + 2 <= |data|
            && StringAt(data, RvaToFileOffset(img.sections, rva).value + 2, AsciiEncoding).Ok?)
      && (r.Ok? ==>
            var off := RvaToFileOffset(img.sections, rva).value;
            && r.value.hint.value == LE16(data, off)
            && r.value.name.value == StringAt(data, off + 2, AsciiEncoding).value.0)
  {
  }

  /** The value GetOrdinalOrName reports for the table terminator. */
  const NOTHING: ImportedFunction := ImportedFunction(None, None, None)

  /** Exactly one of the two kinds of import the tables hold. */
  predicate IsOrdinalOrNamed(f: ImportedFunction)
  {
    || (f.ordinal.Some? && f.name.None? && f.hint.None?)
    || (f.ordinal.None? && f.name.Some? && f.hint.Some?)
  }

  /**
   * `GetOrdinalOrName` on a 4- or 8-byte entry: nothing for the zero entry,
   * the low 16 bits for a flagged entry, else the hint/name pair at the low
   * 31 bits of the entry (also for 64-bit entries).
   */
  function GetOrdinalOrName(img: Image, data: seq<uint8>, d: seq<uint8>): (r: Result<ImportedFunction>)
    requires |d| == 4 || |d| == 8
    ensures ThunkValue(d) == 0 <==> r == Ok(NOTHING)
    ensures r.Ok? && r.value != NOTHING ==> IsOrdinalOrNamed(r.value)
    ensures r.Ok? ==> (r.value.ordinal.Some? <==> ThunkValue(d) != 0 && OrdinalFlag(d))
    ensures ThunkValue(d) != 0 && OrdinalFlag(d) ==> r == Ok(ImportedFunction(Some(ThunkValue(d) % TWO_TO_16), None, None))
    ensures ThunkValue(d) != 0 && !OrdinalFlag(d) ==> r == NameImportAt(img, data, ThunkValue(d) % TWO_TO_31)
  {
    var entry := ThunkValue(d);
    if entry == 0 then Ok(NOTHING)
    else if OrdinalFlag(d) then Ok(ImportedFunction(Some(entry % TWO_TO_16), None, None))
    else NameImportAt(img, data, entry % TWO_TO_31)
  }

  /** An entry importing `ordinal` by ordinal, as a linker writes it: the flag plus the ordinal. */
  function OrdinalThunk(ordinal: uint16, w: nat): (r: seq<uint8>)
    requires w == 4 || w == 8
    ensures |r| == w
  {
    if w == 8 then Bytes64(TWO_TO_63 + ordinal) else Bytes32(TWO_TO_31 + ordinal)
  }

  /** An entry importing by name through the hint/name pair at `rva`. */
  function NameThunk(rva: uint32, w: nat): (r: seq<uint8>)
    requires w == 4 || w == 8
    ensures |r| == w
  {
    if w == 8 then Bytes64(rva) else Bytes32(rva)
  }

  /** The value of an ordinal entry is the flag bit plus the ordinal, and it is flagged. */
  lemma OrdinalThunkValue(ordinal: uint16, w: nat)
    requires w == 4 || w == 8
    ensures ThunkValue(OrdinalThunk(ordinal, w)) == (if w == 8 then TWO_TO_63 else TWO_TO_31) + ordinal as int
    ensures OrdinalFlag(OrdinalThunk(ordinal, w))
  {
    var d := OrdinalThunk(ordinal, w);
    if w == 8 {
      LE64At(d, 0, TWO_TO_63 + ordinal);
    } else {
      LE32At(d, 0, TWO_TO_31 + ordinal);
    }
  }

  /** An ordinal entry decodes to that ordinal alone, at either width. */
  lemma OrdinalThunkRoundTrip(img: Image, data: seq<uint8>, ordinal: uint16, w: nat)
    requires w == 4 || w == 8
    ensures GetOrdinalOrName(img, data, OrdinalThunk(ordinal, w)) == Ok(ImportedFunction(Some(ordinal), None, None))
  {
    OrdinalThunkValue(ordinal, w);
    OrdinalEntryDecodes(img, data, OrdinalThunk(ordinal, w), if w == 8 then TWO_TO_63 else TWO_TO_31, ordinal);
  }

  /** A flagged entry whose value is a flag bit plus an ordinal decodes to that ordinal. */
  lemma OrdinalEntryDecodes(img: Image, data: seq<uint8>, d: seq<uint8>, flag: int, ordinal: uint16)
    requires |d| == 4 || |d| == 8
    requires flag == TWO_TO_63 || flag == TWO_TO_31
    requires ThunkValue(d) == flag + ordinal as int && OrdinalFlag(d)
    ensures GetOrdinalOrName(img, data, d) == Ok(ImportedFunction(Some(ordinal), None, None))
  {
    FlagOrdinalLow16(flag, ordinal);
  }

  /** The ordinal flag lies above the low 16 bits, so the flag plus an ordinal keeps the ordinal there. */
  lemma FlagOrdinalLow16(flag: int, ordinal: uint16)
    requires flag == TWO_TO_63 || flag == TWO_TO_31
    ensures flag + ordinal as int != 0 && (flag + ordinal as int) % TWO_TO_16 == ordinal as int
  {
    assert flag % TWO_TO_16 == 0;
  }

  /** The value of a name entry is the RVA, unflagged. */
  lemma NameThunkValue(rva: uint32, w: nat)
    requires w == 4 || w == 8
    requires rva < TWO_TO_31
    ensures ThunkValue(NameThunk(rva, w)) == rva as int
    ensures !OrdinalFlag(NameThunk(rva, w))
  {
    var d := NameThunk(rva, w);
    if w == 8 {
      LE64At(d, 0, rva);
    } else {
      LE32At(d, 0, rva);
    }
  }

  /** A name entry below 2^31 decodes to the hint/name pair at that RVA, at either width. */
  lemma NameThunkRoundTrip(img: Image, data: seq<uint8>, rva: uint32, w: nat)
    requires w == 4 || w == 8
    requires 0 < rva < TWO_TO_31
    ensures GetOrdinalOrName(img, data, NameThunk(rva, w)) == NameImportAt(img, data, rva)
  {
    NameThunkValue(rva, w);
    NameEntryDecodes(img, data, NameThunk(rva, w), rva);
  }

  /** An unflagged entry whose value is a nonzero RVA below 2^31 decodes through the hint/name pair there. */
  lemma NameEntryDecodes(img: Image, data: seq<uint8>, d: seq<uint8>, rva: uint32)
    requires |d| == 4 || |d| == 8
    requires 0 < rva < TWO_TO_31
    requires ThunkValue(d) == rva as int && !OrdinalFlag(d)
    ensures GetOrdinalOrName(img, data, d) == NameImportAt(img, data, rva)
  {
    assert ThunkValue(d) % TWO_TO_31 == rva as int;
  }

  // ---- the thunk table ----

  /** The thunk loop from entry `i`: append until the entry that decodes to nothing; `fuel` bounds the loop. */
  function ThunksFrom(thunkAt: nat -> Result<ImportedFunction>, i: nat, acc: seq<ImportedFunction>, fuel: nat)
    : Result<seq<ImportedFunction>>
    decreases fuel
  {
    if fuel == 0 then Err(OutOfFuel)
    else
      var f :- thunkAt(i);
      if f == NOTHING then Ok(acc) else ThunksFrom(thunkAt, i + 1, acc + [f], fuel - 1)
  }

  /** Two readers that agree from entry `i` on walk to the same functions. */
  lemma {:induction false} ThunksFromAgree(a: nat -> Result<ImportedFunction>, b: nat -> Result<ImportedFunction>,
                                           i: nat, acc: seq<ImportedFunction>, fuel: nat)
    requires forall j: nat | i <= j :: a(j) == b(j)
    ensures ThunksFrom(a, i, acc, fuel) == ThunksFrom(b, i, acc, fuel)
    decreases fuel
  {
    if fuel > 0 && a(i).Ok? && a(i).value != NOTHING {
      ThunksFromAgree(a, b, i + 1, acc + [a(i).value], fuel - 1);
    }
  }

  /** A successful walk keeps what it had and stops at an entry that decodes to nothing. */
  lemma {:induction false} ThunksFromEnd(thunkAt: nat -> Result<ImportedFunction>, i: nat, acc: seq<ImportedFunction>, fuel: nat)
    requires ThunksFrom(thunkAt, i, acc, fuel).Ok?
    ensures var r := ThunksFrom(thunkAt, i, acc, fuel).value;
      && |acc| <= |r| && r[..|acc|] == acc
      && thunkAt(i + |r| - |acc|) == Ok(NOTHING)
    decreases fuel
  {
    var f := thunkAt(i).value;
    if f != NOTHING {
      ThunksFromEnd(thunkAt, i + 1, acc + [f], fuel - 1);
      var r := ThunksFrom(thunkAt, i, acc, fuel).value;
      assert r[..|acc| + 1][..|acc|] == r[..|acc|];
    }
  }

  /** Element k of a successful walk is the decoding of entry `i + k - |acc|`, and is not the terminator. */
  lemma {:induction false} ThunksFromEntry(thunkAt: nat -> Result<ImportedFunction>, i: nat, acc: seq<ImportedFunction>,
                                          fuel: nat, k: nat)
    requires ThunksFrom(thunkAt, i, acc, fuel).Ok?
    requires |acc| <= k < |ThunksFrom(thunkAt, i, acc, fuel).value|
    ensures var r := ThunksFrom(thunkAt, i, acc, fuel).value;
      thunkAt(i + k - |acc|) == Ok(r[k]) && r[k] != NOTHING
    decreases fuel
  {
    var f := thunkAt(i).value;
    var next := acc + [f];
    ThunksFromEnd(thunkAt, i + 1, next, fuel - 1);
    var r := ThunksFrom(thunkAt, i, acc, fuel).value;
    if k == |acc| {
      assert r[..|next|][|acc|] == f;
    } else {
      ThunksFromEntry(thunkAt, i + 1, next, fuel - 1, k);
    }
  }

  /**
   * The functions of a successful walk from the start of the table are the
   * decodings of the entries before the first terminator, in table order.
   */
  lemma ThunkTableContents(thunkAt: nat -> Result<ImportedFunction>, fuel: nat)
    requires ThunksFrom(thunkAt, 0, [], fuel).Ok?
    ensures var r := ThunksFrom(thunkAt, 0, [], fuel).value;
      && (forall k | 0 <= k < |r| :: thunkAt(k) == Ok(r[k]) && r[k] != NOTHING)
      && thunkAt(|r|) == Ok(NOTHING)
  {
    ThunksFromEnd(thunkAt, 0, [], fuel);
    var r := ThunksFrom(thunkAt, 0, [], fuel).value;
    forall k | 0 <= k < |r| ensures thunkAt(k) == Ok(r[k]) && r[k] != NOTHING {
      ThunksFromEntry(thunkAt, 0, [], fuel, k);
    }
  }

  /**
   * Conversely, a table whose first `n` entries decode to functions and
   * whose entry `n` is the terminator walks to exactly those functions when
   * the fuel exceeds `n`.
   */
  lemma {:induction false} ThunksFromComplete(thunkAt: nat -> Result<ImportedFunction>, i: nat, acc: seq<ImportedFunction>,
                                             fuel: nat, fs: seq<ImportedFunction>)
    requires fuel > |fs|
    requires forall k | 0 <= k < |fs| :: thunkAt(i + k) == Ok(fs[k]) && fs[k] != NOTHING
    requires thunkAt(i + |fs|) == Ok(NOTHING)
    ensures ThunksFrom(thunkAt, i, acc, fuel) == Ok(acc + fs)
    decreases |fs|
  {
    if fs == [] {
      assert acc + fs == acc;
    } else {
      assert thunkAt(i + 0) == Ok(fs[0]);
      forall k | 0 <= k < |fs[1..]| ensures thunkAt(i + 1 + k) == Ok(fs[1..][k]) && fs[1..][k] != NOTHING {
        assert thunkAt(i + (k + 1)) == Ok(fs[k + 1]);
      }
      ThunksFromComplete(thunkAt, i + 1, acc + [fs[0]], fuel - 1, fs[1..]);
      assert acc + [fs[0]] + fs[1..] == acc + fs;
    }
  }

  /** `for (int i = 0; ; ++i)` over the thunk table, appending to a `List`. */
  method CollectThunks(thunkAt: nat -> Result<ImportedFunction>, fuel: nat) returns (r: Result<seq<ImportedFunction>>)
    ensures r == ThunksFrom(thunkAt, 0, [], fuel)
  {
    var imports: seq<ImportedFunction> := [];
    var i: nat := 0;
    while i < fuel
      invariant i <= fuel
      invariant ThunksFrom(thunkAt, 0, [], fuel) == ThunksFrom(thunkAt, i, imports, fuel - i)
      decreases fuel - i
    {
      var f := thunkAt(i);
      if f.Err? {
        return Err(f.error);
      }
      if f.value == NOTHING {
        return Ok(imports);
      }
      imports := imports + [f.value];
      i := i + 1;
    }
    return Err(OutOfFuel);
  }

  /** Entry i of the thunk table at `start`: `RVAToFileOffset((uint)(start + i * w))`, then `ReadExactly`. */
  function ThunkAt(img: Image, data: seq<uint8>, start: uint32, i: nat): Result<ImportedFunction>
  {
    var w := ThunkWidth(img);
    var d :- BytesAt(img, data, Wrap32(start + i * w), w);
    GetOrdinalOrName(img, data, d)
  }

  function ThunkReaderOf(img: Image, data: seq<uint8>, start: uint32): nat -> Result<ImportedFunction>
  {
    (j: nat) => ThunkAt(img, data, start, j)
  }

  // ---- LoadDescriptor ----

  /** `ImportedLibrary.LoadDescriptor`: null for the sentinel, else the descriptor with its name and imports. */
  function LoadedDescriptor(img: Image, data: seq<uint8>, bytes: seq<uint8>, fuel: nat): (r: Result<Option<ImportedLibrary>>)
    ensures |bytes| < IMPORT_DESCRIPTOR_SIZE ==> r == Err(Argument)
    ensures r == Ok(None) <==> DecodeImportDescriptor(bytes).Ok? && DecodeImportDescriptor(bytes).value.IsSentinel()
    ensures r.Ok? && r.value.Some? ==>
      var d := DecodeImportDescriptor(bytes).value;
      && r.value.value == d.(name := r.value.value.name, imports := r.value.value.imports)
      && r.value.value.name.0 == d.name.0
      && r.value.value.name.1.Some?
      && Ok(r.value.value.name.1.value) == StringAtRva(img, data, d.name.0, AsciiEncoding)
      && r.value.value.imports.Some?
      && Ok(r.value.value.imports.value) == ThunksFrom(ThunkReaderOf(img, data, d.ThunkTable()), 0, [], fuel)
  {
    var d :- DecodeImportDescriptor(bytes);
    if d.IsSentinel() then Ok(None)
    else
      var name :- StringAtRva(img, data, d.name.0, AsciiEncoding);
      var imports :- ThunksFrom(ThunkReaderOf(img, data, d.ThunkTable()), 0, [], fuel);
      Ok(Some(d.(name := (d.name.0, Some(name)), imports := Some(imports))))
  }

  method LoadDescriptor(img: Image, data: seq<uint8>, bytes: seq<uint8>, fuel: nat) returns (r: Result<Option<ImportedLibrary>>)
    ensures r == LoadedDescriptor(img, data, bytes, fuel)
  {
    var d := DecodeImportDescriptor(bytes);
    if d.Err? {
      return Err(d.error);
    }
    if d.value.IsSentinel() {
      return Ok(None);
    }
    var name := StringAtRva(img, data, d.value.name.0, AsciiEncoding);
    if name.Err? {
      return Err(name.error);
    }
    var imports := CollectThunks(ThunkReaderOf(img, data, d.value.ThunkTable()), fuel);
    if imports.Err? {
      return Err(imports.error);
    }
    return Ok(Some(d.value.(name := (d.value.name.0, Some(name.value)), imports := Some(imports.value))));
  }

  /** Every function a loaded table holds is by ordinal only, or by name with a hint. */
  lemma ThunkTableKinds(img: Image, data: seq<uint8>, start: uint32, fuel: nat)
    requires ThunksFrom(ThunkReaderOf(img, data, start), 0, [], fuel).Ok?
    ensures forall f | f in ThunksFrom(ThunkReaderOf(img, data, start), 0, [], fuel).value :: IsOrdinalOrNamed(f)
  {
    var t := ThunkReaderOf(img, data, start);
    ThunkTableContents(t, fuel);
    var r := ThunksFrom(t, 0, [], fuel).value;
    forall f | f in r ensures IsOrdinalOrNamed(f) {
      var k :| 0 <= k < |r| && r[k] == f;
      assert t(k) == ThunkAt(img, data, start, k);
    }
  }
}
