/**
 * IMAGE_EXPORT_DIRECTORY and the export table loader: the name pass
 * correlates each name with a biased ordinal, the function pass builds one
 * export per address-table slot and detects forwarders.
 */
module ExportDirectories {
  import opened Bytes
  import opened Results
  import opened Text
  import opened OrderedMaps
  import opened DataDirectories
  import opened StreamHelper
  import opened Images
  import opened Functions

  const EXPORT_DIRECTORY_SIZE: nat := 40

  datatype ExportDirectory = ExportDirectory(
    characteristics: uint32, timeDateStamp: uint32,
    majorVersion: uint16, minorVersion: uint16,
    name: (uint32, Option<Str>),
    base: uint32, numberOfFunctions: uint32, numberOfNames: uint32,
    addressOfFunctions: uint32, addressOfNames: uint32, addressOfNameOrdinals: uint32,
    exports: Option<OrderedMap<uint16, ExportedFunction>>)

  /** `new ExportDirectory(span)`: the name string and the exports are not read yet. */
  function DecodeExportHeader(data: seq<uint8>): (r: Result<ExportDirectory>)
    ensures r.Ok? <==> |data| >= EXPORT_DIRECTORY_SIZE
    ensures r.Ok? ==> r.value.name.1.None? && r.value.exports.None?
  {
    if |data| < EXPORT_DIRECTORY_SIZE then Err(Argument)
    else Ok(ExportDirectory(
      LE32(data, 0), LE32(data, 4), LE16(data, 8), LE16(data, 10), (LE32(data, 12), None),
      LE32(data, 16), LE32(data, 20), LE32(data, 24), LE32(data, 28), LE32(data, 32), LE32(data, 36),
      None))
  }

  function EncodeExportHeader(d: ExportDirectory): (r: seq<uint8>)
    ensures |r| == EXPORT_DIRECTORY_SIZE
  {
    Bytes32(d.characteristics) + Bytes32(d.timeDateStamp) + Bytes16(d.majorVersion) + Bytes16(d.minorVersion)
      + Bytes32(d.name.0) + Bytes32(d.base) + Bytes32(d.numberOfFunctions) + Bytes32(d.numberOfNames)
      + Bytes32(d.addressOfFunctions) + Bytes32(d.addressOfNames) + Bytes32(d.addressOfNameOrdinals)
  }

  /** The eleven fields read back from their little-endian encoding. */
  lemma ExportHeaderRoundTrip(d: ExportDirectory)
    ensures DecodeExportHeader(EncodeExportHeader(d)) == Ok(d.(name := (d.name.0, None), exports := None))
  {
    var head := Bytes32(d.characteristics) + Bytes32(d.timeDateStamp) + Bytes16(d.majorVersion)
      + Bytes16(d.minorVersion) + Bytes32(d.name.0);
    var tables := Bytes32(d.base) + Bytes32(d.numberOfFunctions) + Bytes32(d.numberOfNames)
      + Bytes32(d.addressOfFunctions) + Bytes32(d.addressOfNames) + Bytes32(d.addressOfNameOrdinals);
    var e := EncodeExportHeader(d);
    assert e == head + tables;
    LE32At(head, 0, d.characteristics);
    LE32At(head, 4, d.timeDateStamp);
    LE16At(head, 8, d.majorVersion);
    LE16At(head, 10, d.minorVersion);
    LE32At(head, 12, d.name.0);
    LE32At(tables, 0, d.base);
    LE32At(tables, 4, d.numberOfFunctions);
    LE32At(tables, 8, d.numberOfNames);
    LE32At(tables, 12, d.addressOfFunctions);
    LE32At(tables, 16, d.addressOfNames);
    LE32At(tables, 20, d.addressOfNameOrdinals);
    LE32Prefix(head, tables, 0);
    LE32Prefix(head, tables, 4);
    LE16Prefix(head, tables, 8);
    LE16Prefix(head, tables, 10);
    LE32Prefix(head, tables, 12);
    LE32Shift(head, tables, 0);
    LE32Shift(head, tables, 4);
    LE32Shift(head, tables, 8);
    LE32Shift(head, tables, 12);
    LE32Shift(head, tables, 16);
    LE32Shift(head, tables, 20);
  }

  // ---- the name pass ----

  /** Names-pass entry i: the name-ordinal table slot plus Base, truncated to 16 bits. */
  function NameOrdinalAt(img: Image, data: seq<uint8>, ed: ExportDirectory, i: nat): (r: Result<uint16>)
  {
    var slot :- BytesAt(img, data, Wrap32(ed.addressOfNameOrdinals + i * 2), 2);
    Ok(Wrap16(LE16(slot, 0) + ed.base))
  }

  /** Names-pass entry i: the RVA of the name in the name-pointer table. */
  function NamePointerAt(img: Image, data: seq<uint8>, ed: ExportDirectory, i: nat): (r: Result<uint32>)
  {
    var slot :- BytesAt(img, data, Wrap32(ed.addressOfNames + i * 4), 4);
    Ok(LE32(slot, 0))
  }

  type Names = map<uint16, (uint32, Str)>
  type Hints = map<uint16, uint16>

  /** The reads of one names-loop iteration, as functions of the entry index and of the name RVA. */
  datatype NameReaders = NameReaders(
    ordinalAt: nat -> Result<uint16>,
    pointerAt: nat -> Result<uint32>,
    stringAt: uint32 -> Result<Str>,
    count: nat)

  function NameReadersOf(img: Image, data: seq<uint8>, ed: ExportDirectory): NameReaders
  {
    NameReaders(
      (j: nat) => NameOrdinalAt(img, data, ed, j),
      (j: nat) => NamePointerAt(img, data, ed, j),
      (rva: uint32) => StringAtRva(img, data, rva, AsciiEncoding),
      ed.numberOfNames)
  }

  /** The names loop from entry `i`: `hints.Add(ordinal, (ushort)i)` and `names.Add(ordinal, name)`. */
  function NamesFrom(t: NameReaders, i: nat, names: Names, hints: Hints): Result<(Names, Hints)>
    decreases t.count - i
  {
    if i >= t.count then Ok((names, hints))
    else
      var ordinal :- t.ordinalAt(i);
      var nameRva :- t.pointerAt(i);
      if ordinal in hints then Err(Argument)
      else
        var name :- t.stringAt(nameRva);
        if ordinal in names then Err(Argument)
        else NamesFrom(t, i + 1, names[ordinal := (nameRva, name)], hints[ordinal := Wrap16(i)])
  }

  /** The maps after entry i of a successful pass. */
  function NamesAfter(t: NameReaders, i: nat, names: Names): Names
    requires t.ordinalAt(i).Ok? && t.pointerAt(i).Ok? && t.stringAt(t.pointerAt(i).value).Ok?
  {
    names[t.ordinalAt(i).value := (t.pointerAt(i).value, t.stringAt(t.pointerAt(i).value).value)]
  }

  function HintsAfter(t: NameReaders, i: nat, hints: Hints): Hints
    requires t.ordinalAt(i).Ok?
  {
    hints[t.ordinalAt(i).value := Wrap16(i)]
  }

  /** One step of the name pass, when it succeeds. */
  lemma NamesFromStep(t: NameReaders, i: nat, names: Names, hints: Hints)
    requires i < t.count && NamesFrom(t, i, names, hints).Ok?
    ensures t.ordinalAt(i).Ok? && t.pointerAt(i).Ok? && t.stringAt(t.pointerAt(i).value).Ok?
    ensures t.ordinalAt(i).value !in hints && t.ordinalAt(i).value !in names
    ensures NamesFrom(t, i, names, hints) == NamesFrom(t, i + 1, NamesAfter(t, i, names), HintsAfter(t, i, hints))
  {
  }

  /** The name pass only adds keys: every earlier entry survives with its value. */
  lemma {:induction false} NamesFromGrows(t: NameReaders, i: nat, names: Names, hints: Hints, o: uint16)
    requires NamesFrom(t, i, names, hints).Ok?
    ensures var r := NamesFrom(t, i, names, hints).value;
      && (o in hints ==> o in r.1 && r.1[o] == hints[o])
      && (o in names ==> o in r.0 && r.0[o] == names[o])
    decreases t.count - i
  {
    if i < t.count {
      NamesFromStep(t, i, names, hints);
      NamesFromGrows(t, i + 1, NamesAfter(t, i, names), HintsAfter(t, i, hints), o);
    }
  }

  /** Entry j of a successful name pass records its ordinal with hint j and the string at its name pointer. */
  lemma {:induction false} NamesFromRecords(t: NameReaders, i: nat, names: Names, hints: Hints, j: nat)
    requires i <= j < t.count
    requires NamesFrom(t, i, names, hints).Ok?
    ensures t.ordinalAt(j).Ok? && t.pointerAt(j).Ok? && t.stringAt(t.pointerAt(j).value).Ok?
    ensures var r := NamesFrom(t, i, names, hints).value;
      var o := t.ordinalAt(j).value;
      && o !in hints
      && o in r.1 && r.1[o] == Wrap16(j)
      && o in r.0 && r.0[o] == (t.pointerAt(j).value, t.stringAt(t.pointerAt(j).value).value)
    decreases t.count - i
  {
    NamesFromStep(t, i, names, hints);
    if j == i {
      NamesFromGrows(t, i + 1, NamesAfter(t, i, names), HintsAfter(t, i, hints), t.ordinalAt(i).value);
    } else {
      NamesFromRecords(t, i + 1, NamesAfter(t, i, names), HintsAfter(t, i, hints), j);
    }
  }

  /** A successful name pass never meets the same ordinal twice: a repeated one fails. */
  lemma {:induction false} NamesFromDistinct(t: NameReaders, i: nat, names: Names, hints: Hints, j: nat, k: nat)
    requires i <= j < k < t.count
    requires NamesFrom(t, i, names, hints).Ok?
    ensures t.ordinalAt(j) != t.ordinalAt(k)
    decreases t.count - i
  {
    NamesFromStep(t, i, names, hints);
    if j == i {
      NamesFromRecords(t, i + 1, NamesAfter(t, i, names), HintsAfter(t, i, hints), k);
    } else {
      NamesFromDistinct(t, i + 1, NamesAfter(t, i, names), HintsAfter(t, i, hints), j, k);
    }
  }

  /** Every hint key a name pass adds is the ordinal of one of its entries. */
  lemma {:induction false} NamesFromOnly(t: NameReaders, i: nat, names: Names, hints: Hints, o: uint16)
    requires NamesFrom(t, i, names, hints).Ok?
    requires o in NamesFrom(t, i, names, hints).value.1 && o !in hints
    ensures exists j | i <= j < t.count :: t.ordinalAt(j) == Ok(o)
    decreases t.count - i
  {
    NamesFromStep(t, i, names, hints);
    if t.ordinalAt(i).value != o {
      NamesFromOnly(t, i + 1, NamesAfter(t, i, names), HintsAfter(t, i, hints), o);
    }
  }

  /** The name and hint maps cover the same ordinals. */
  lemma {:induction false} NamesFromSameKeys(t: NameReaders, i: nat, names: Names, hints: Hints, o: uint16)
    requires names.Keys == hints.Keys
    requires NamesFrom(t, i, names, hints).Ok?
    ensures o in NamesFrom(t, i, names, hints).value.0 <==> o in NamesFrom(t, i, names, hints).value.1
    decreases t.count - i
  {
    if i < t.count {
      NamesFromStep(t, i, names, hints);
      NamesFromSameKeys(t, i + 1, NamesAfter(t, i, names), HintsAfter(t, i, hints), o);
    }
  }

  // ---- the function pass ----

  /** Whether an address-table RVA points back into the export directory, i.e. names a forwarder. */
  predicate IsForwarderRva(dir: DataDirectory, rva: uint32)
  {
    rva >= dir.virtualAddress && rva < Wrap32(dir.virtualAddress + dir.size)
  }

  /** The forwarder string of an address-table slot, read only when the RVA is inside the directory. */
  function ForwarderAt(img: Image, data: seq<uint8>, dir: DataDirectory, rva: uint32): (r: Result<Option<Str>>)
    ensures r.Ok? ==> (r.value.Some? <==> IsForwarderRva(dir, rva))
    ensures r.Ok? && r.value.Some? ==> Ok(r.value.value) == StringAtRva(img, data, rva, AsciiEncoding)
    ensures r.Err? ==> IsForwarderRva(dir, rva) && StringAtRva(img, data, rva, AsciiEncoding).Err?
  {
    if IsForwarderRva(dir, rva) then
      var s :- StringAtRva(img, data, rva, AsciiEncoding);
      Ok(Some(s))
    else Ok(None)
  }

  /** Functions-pass entry i: the export keyed `(ushort)(i + Base)` with name and hint when the name pass found its ordinal. */
  function ExportAt(img: Image, data: seq<uint8>, dir: DataDirectory, ed: ExportDirectory, names: Names, hints: Hints, i: nat): (r: Result<ExportedFunction>)
    ensures r.Ok? ==>
      && BytesAt(img, data, Wrap32(ed.addressOfFunctions + i * 4), 4).Ok?
      && r.value.ordinal == Wrap16(i + ed.base)
      && r.value.functionRva == LE32(BytesAt(img, data, Wrap32(ed.addressOfFunctions + i * 4), 4).value, 0)
      && (r.value.forwarder.Some? <==> IsForwarderRva(dir, r.value.functionRva))
      && (r.value.name.Some? <==> r.value.ordinal in names)
      && (r.value.name.Some? ==> r.value.name.value == names[r.value.ordinal])
      && (r.value.hint.Some? <==> r.value.ordinal in hints)
      && (r.value.hint.Some? ==> r.value.hint.value == hints[r.value.ordinal])
  {
    var slot :- BytesAt(img, data, Wrap32(ed.addressOfFunctions + i * 4), 4);
    var rva := LE32(slot, 0);
    var ordinal := Wrap16(i + ed.base);
    var forwarder :- ForwarderAt(img, data, dir, rva);
    Ok(ExportedFunction(ordinal, rva,
      if ordinal in names then Some(names[ordinal]) else None,
      if ordinal in hints then Some(hints[ordinal]) else None,
      forwarder))
  }

  /** The export of each address-table slot, as a function of the slot index. */
  function ExportReaderOf(img: Image, data: seq<uint8>, dir: DataDirectory, ed: ExportDirectory, names: Names, hints: Hints): nat -> Result<ExportedFunction>
  {
    (j: nat) => ExportAt(img, data, dir, ed, names, hints, j)
  }

  /** The functions loop from slot `i`: `Exports.Add(ordinal, export)`. */
  function FunctionsFrom(exportAt: nat -> Result<ExportedFunction>, count: nat, i: nat, exports: OrderedMap<uint16, ExportedFunction>)
    : Result<OrderedMap<uint16, ExportedFunction>>
    decreases count - i
  {
    if i >= count then Ok(exports)
    else
      var e :- exportAt(i);
      var next :- exports.Add(e.ordinal, e);
      FunctionsFrom(exportAt, count, i + 1, next)
  }

  /** The keys the functions loop produces from slot `i` on, in insertion order. */
  function BiasedOrdinals(base: uint32, i: nat, n: nat): (r: seq<uint16>)
    ensures |r| == if i <= n then n - i else 0
    ensures forall k | 0 <= k < |r| :: r[k] == Wrap16(i + k + base)
    decreases n - i
  {
    if i >= n then [] else [Wrap16(i + base)] + BiasedOrdinals(base, i + 1, n)
  }

  /** Every export the reader yields carries the biased ordinal of its slot. */
  ghost predicate KeyedByBias(exportAt: nat -> Result<ExportedFunction>, base: uint32)
  {
    forall j: nat :: exportAt(j).Ok? ==> exportAt(j).value.ordinal == Wrap16(j + base)
  }

  /** A successful function pass keeps the map well formed. */
  lemma {:induction false} FunctionsFromValid(exportAt: nat -> Result<ExportedFunction>, count: nat, i: nat,
                                             exports: OrderedMap<uint16, ExportedFunction>)
    requires exports.Valid()
    requires FunctionsFrom(exportAt, count, i, exports).Ok?
    ensures FunctionsFrom(exportAt, count, i, exports).value.Valid()
    decreases count - i
  {
    if i < count {
      var e := exportAt(i).value;
      FunctionsFromValid(exportAt, count, i + 1, exports.Add(e.ordinal, e).value);
    }
  }

  /** A successful function pass appends one key per slot, in slot order. */
  lemma {:induction false} FunctionsFromKeys(exportAt: nat -> Result<ExportedFunction>, base: uint32, count: nat, i: nat,
                                            exports: OrderedMap<uint16, ExportedFunction>)
    requires KeyedByBias(exportAt, base)
    requires FunctionsFrom(exportAt, count, i, exports).Ok?
    ensures FunctionsFrom(exportAt, count, i, exports).value.keys == exports.keys + BiasedOrdinals(base, i, count)
    decreases count - i
  {
    if i < count {
      var e := exportAt(i).value;
      assert e.ordinal == Wrap16(i + base);
      var next := exports.Add(e.ordinal, e).value;
      FunctionsFromKeys(exportAt, base, count, i + 1, next);
      assert BiasedOrdinals(base, i, count) == [e.ordinal] + BiasedOrdinals(base, i + 1, count);
      assert next.keys == exports.keys + [e.ordinal];
      assert exports.keys + BiasedOrdinals(base, i, count) == next.keys + BiasedOrdinals(base, i + 1, count);
    } else {
      assert exports.keys + BiasedOrdinals(base, i, count) == exports.keys;
    }
  }

  /** An entry already in the map survives the rest of the pass. */
  lemma {:induction false} FunctionsFromKeeps(exportAt: nat -> Result<ExportedFunction>, count: nat, i: nat,
                                             exports: OrderedMap<uint16, ExportedFunction>, k: uint16)
    requires k in exports.items
    requires FunctionsFrom(exportAt, count, i, exports).Ok?
    ensures var r := FunctionsFrom(exportAt, count, i, exports).value;
      k in r.items && r.items[k] == exports.items[k]
    decreases count - i
  {
    if i < count {
      var e := exportAt(i).value;
      FunctionsFromKeeps(exportAt, count, i + 1, exports.Add(e.ordinal, e).value, k);
    }
  }

  /** Slot j of a successful function pass is stored under its ordinal. */
  lemma {:induction false} FunctionsFromRecords(exportAt: nat -> Result<ExportedFunction>, count: nat, i: nat,
                                               exports: OrderedMap<uint16, ExportedFunction>, j: nat)
    requires i <= j < count
    requires FunctionsFrom(exportAt, count, i, exports).Ok?
    ensures exportAt(j).Ok?
    ensures var r := FunctionsFrom(exportAt, count, i, exports).value;
      exportAt(j).value.ordinal in r.items && r.items[exportAt(j).value.ordinal] == exportAt(j).value
    decreases count - i
  {
    var e := exportAt(i).value;
    var next := exports.Add(e.ordinal, e).value;
    if j == i {
      FunctionsFromKeeps(exportAt, count, i + 1, next, e.ordinal);
    } else {
      FunctionsFromRecords(exportAt, count, i + 1, next, j);
    }
  }

  /** Slot j of a successful pass from the empty map is stored under the biased ordinal `(ushort)(j + Base)`. */
  lemma FunctionsFromEntry(exportAt: nat -> Result<ExportedFunction>, base: uint32, count: nat, j: nat)
    requires KeyedByBias(exportAt, base) && j < count
    requires FunctionsFrom(exportAt, count, 0, Empty()).Ok?
    ensures exportAt(j).Ok?
    ensures var r := FunctionsFrom(exportAt, count, 0, Empty()).value;
      Wrap16(j + base) in r.items && r.items[Wrap16(j + base)] == exportAt(j).value
  {
    FunctionsFromRecords(exportAt, count, 0, Empty(), j);
  }

  // ---- the loader ----

  /** The 40-byte header at the directory's VA. */
  function HeaderAt(img: Image, data: seq<uint8>, dir: DataDirectory): (r: Result<ExportDirectory>)
    ensures r.Ok? <==> BytesAt(img, data, dir.virtualAddress, EXPORT_DIRECTORY_SIZE).Ok?
    ensures r.Ok? ==> r == DecodeExportHeader(BytesAt(img, data, dir.virtualAddress, EXPORT_DIRECTORY_SIZE).value)
  {
    var header :- BytesAt(img, data, dir.virtualAddress, EXPORT_DIRECTORY_SIZE);
    Ok(DecodeExportHeader(header).value)
  }

  /** `ExportDirectory.LoadDirectory`, stated as one expression. */
  function LoadExportDirectory(img: Image, data: seq<uint8>): (r: Result<ExportDirectory>)
    requires img.Valid()
    ensures img.Directory(Export).IsEmpty() ==> r == Err(InvalidOperation)
    ensures r.Ok? ==> r.value.exports.Some? && r.value.name.1.Some?
  {
    var dir := img.Directory(Export);
    if dir.IsEmpty() then Err(InvalidOperation)
    else
      var ed :- HeaderAt(img, data, dir);
      var name :- StringAtRva(img, data, ed.name.0, AsciiEncoding);
      var tables :- NameTables(img, data, ed);
      var exports :- ExportTable(img, data, dir, ed, tables);
      Ok(ed.(name := (ed.name.0, Some(name)), exports := Some(exports)))
  }

  /** The map the functions loop fills, keyed by biased ordinal. */
  function ExportTable(img: Image, data: seq<uint8>, dir: DataDirectory, ed: ExportDirectory, tables: (Names, Hints))
    : Result<OrderedMap<uint16, ExportedFunction>>
  {
    FunctionsFrom(ExportReaderOf(img, data, dir, ed, tables.0, tables.1), ed.numberOfFunctions, 0, Empty())
  }

  /** The two maps the names loop fills. */
  function NameTables(img: Image, data: seq<uint8>, ed: ExportDirectory): Result<(Names, Hints)>
  {
    NamesFrom(NameReadersOf(img, data, ed), 0, map[], map[])
  }

  lemma ExportReaderKeyed(img: Image, data: seq<uint8>, dir: DataDirectory, ed: ExportDirectory, names: Names, hints: Hints)
    ensures KeyedByBias(ExportReaderOf(img, data, dir, ed, names, hints), ed.base)
  {
    forall j: nat | ExportReaderOf(img, data, dir, ed, names, hints)(j).Ok?
      ensures ExportReaderOf(img, data, dir, ed, names, hints)(j).value.ordinal == Wrap16(j + ed.base)
    {
      assert ExportReaderOf(img, data, dir, ed, names, hints)(j) == ExportAt(img, data, dir, ed, names, hints, j);
    }
  }

  /**
   * A loaded export table: the header at the directory's VA, the module name
   * at its Name RVA, and one export per address-table slot keyed by the
   * biased ordinal, in slot order.
   */
  lemma LoadExportDirectoryKeys(img: Image, data: seq<uint8>)
    requires img.Valid() && LoadExportDirectory(img, data).Ok?
    ensures HeaderAt(img, data, img.Directory(Export)).Ok?
    ensures var ed := HeaderAt(img, data, img.Directory(Export)).value;
      var r := LoadExportDirectory(img, data).value;
      && r == ed.(name := r.name, exports := r.exports)
      && r.name.0 == ed.name.0 && Ok(r.name.1.value) == StringAtRva(img, data, ed.name.0, AsciiEncoding)
      && r.exports.value.Valid()
      && r.exports.value.keys == BiasedOrdinals(ed.base, 0, ed.numberOfFunctions)
  {
    var dir := img.Directory(Export);
    var ed := HeaderAt(img, data, dir).value;
    var tables := NameTables(img, data, ed).value;
    var e0: OrderedMap<uint16, ExportedFunction> := Empty();
    ExportReaderKeyed(img, data, dir, ed, tables.0, tables.1);
    FunctionsFromValid(ExportReaderOf(img, data, dir, ed, tables.0, tables.1), ed.numberOfFunctions, 0, e0);
    FunctionsFromKeys(ExportReaderOf(img, data, dir, ed, tables.0, tables.1), ed.base, ed.numberOfFunctions, 0, e0);
    assert e0.keys + BiasedOrdinals(ed.base, 0, ed.numberOfFunctions) == BiasedOrdinals(ed.base, 0, ed.numberOfFunctions);
  }

  /** The passes a successful load went through, each of them successful. */
  lemma LoadExportDirectoryPasses(img: Image, data: seq<uint8>)
    requires img.Valid() && LoadExportDirectory(img, data).Ok?
    ensures HeaderAt(img, data, img.Directory(Export)).Ok?
    ensures var ed := HeaderAt(img, data, img.Directory(Export)).value;
      && NameTables(img, data, ed).Ok?
      && var f := ExportTable(img, data, img.Directory(Export), ed, NameTables(img, data, ed).value);
      && f.Ok? && LoadExportDirectory(img, data).value.exports == Some(f.value)
  {
  }

  /** The export the function pass stores under the biased ordinal of slot j is the slot's decoded export. */
  lemma ExportTableEntry(img: Image, data: seq<uint8>, dir: DataDirectory, ed: ExportDirectory, tables: (Names, Hints), j: nat)
    requires ExportTable(img, data, dir, ed, tables).Ok? && j < ed.numberOfFunctions
    ensures var x := ExportAt(img, data, dir, ed, tables.0, tables.1, j);
      var exports := ExportTable(img, data, dir, ed, tables).value;
      x.Ok? && Wrap16(j + ed.base) in exports.items && exports.items[Wrap16(j + ed.base)] == x.value
  {
    var reader := ExportReaderOf(img, data, dir, ed, tables.0, tables.1);
    ExportReaderKeyed(img, data, dir, ed, tables.0, tables.1);
    FunctionsFromEntry(reader, ed.base, ed.numberOfFunctions, j);
    assert reader(j) == ExportAt(img, data, dir, ed, tables.0, tables.1, j);
  }

  /** Name-table entry k of a successful name pass: its ordinal maps to hint k and to the string at its name pointer. */
  lemma NameTablesRecord(img: Image, data: seq<uint8>, ed: ExportDirectory, k: nat)
    requires NameTables(img, data, ed).Ok? && k < ed.numberOfNames
    ensures NameOrdinalAt(img, data, ed, k).Ok? && NamePointerAt(img, data, ed, k).Ok?
    ensures var (names, hints) := NameTables(img, data, ed).value;
      var o := NameOrdinalAt(img, data, ed, k).value;
      var p := NamePointerAt(img, data, ed, k).value;
      && o in hints && hints[o] == Wrap16(k)
      && StringAtRva(img, data, p, AsciiEncoding).Ok?
      && o in names && names[o] == (p, StringAtRva(img, data, p, AsciiEncoding).value)
  {
    var t := NameReadersOf(img, data, ed);
    NamesFromRecords(t, 0, map[], map[], k);
    assert t.ordinalAt(k) == NameOrdinalAt(img, data, ed, k);
    assert t.pointerAt(k) == NamePointerAt(img, data, ed, k);
    assert t.stringAt(t.pointerAt(k).value) == StringAtRva(img, data, t.pointerAt(k).value, AsciiEncoding);
  }

  /**
   * After a successful name pass an ordinal has a name exactly when it has a
   * hint, exactly when some name-table entry carries it.
   */
  lemma NameTablesKeys(img: Image, data: seq<uint8>, ed: ExportDirectory, o: uint16)
    requires NameTables(img, data, ed).Ok?
    ensures var (names, hints) := NameTables(img, data, ed).value;
      && (o in names <==> o in hints)
      && (o in hints <==> exists k | 0 <= k < ed.numberOfNames :: NameOrdinalAt(img, data, ed, k) == Ok(o))
  {
    var t := NameReadersOf(img, data, ed);
    var tables := NameTables(img, data, ed).value;
    NamesFromSameKeys(t, 0, map[], map[], o);
    if o in tables.1 {
      NamesFromOnly(t, 0, map[], map[], o);
      var k :| 0 <= k < t.count && t.ordinalAt(k) == Ok(o);
      assert NameOrdinalAt(img, data, ed, k) == Ok(o);
    }
    if exists k | 0 <= k < ed.numberOfNames :: NameOrdinalAt(img, data, ed, k) == Ok(o) {
      var k :| 0 <= k < ed.numberOfNames && NameOrdinalAt(img, data, ed, k) == Ok(o);
      NameTablesRecord(img, data, ed, k);
    }
  }

  /** A successful name pass met no ordinal twice. */
  lemma NameTablesDistinct(img: Image, data: seq<uint8>, ed: ExportDirectory, j: nat, k: nat)
    requires NameTables(img, data, ed).Ok? && j < k < ed.numberOfNames
    ensures NameOrdinalAt(img, data, ed, j) != NameOrdinalAt(img, data, ed, k)
  {
    var t := NameReadersOf(img, data, ed);
    NamesFromDistinct(t, 0, map[], map[], j, k);
    assert t.ordinalAt(j) == NameOrdinalAt(img, data, ed, j) && t.ordinalAt(k) == NameOrdinalAt(img, data, ed, k);
  }

  /** The names loop of LoadDirectory. */
  method ReadNames(img: Image, data: seq<uint8>, ed: ExportDirectory) returns (r: Result<(Names, Hints)>)
    ensures r == NameTables(img, data, ed)
  {
    var t := NameReadersOf(img, data, ed);
    var names: Names := map[];
    var hints: Hints := map[];
    var i: nat := 0;
    while i < ed.numberOfNames
      invariant i <= ed.numberOfNames
      invariant NamesFrom(t, 0, map[], map[]) == NamesFrom(t, i, names, hints)
      decreases ed.numberOfNames - i
    {
      var ordinal := NameOrdinalAt(img, data, ed, i);
      if ordinal.Err? { return Err(ordinal.error); }
      var nameRva := NamePointerAt(img, data, ed, i);
      if nameRva.Err? { return Err(nameRva.error); }
      if ordinal.value in hints { return Err(Argument); }
      hints := hints[ordinal.value := Wrap16(i)];
      var name := StringAtRva(img, data, nameRva.value, AsciiEncoding);
      if name.Err? { return Err(name.error); }
      if ordinal.value in names { return Err(Argument); }
      names := names[ordinal.value := (nameRva.value, name.value)];
      i := i + 1;
    }
    return Ok((names, hints));
  }

  /** The functions loop of LoadDirectory. */
  method ReadFunctions(img: Image, data: seq<uint8>, dir: DataDirectory, ed: ExportDirectory, tables: (Names, Hints))
    returns (r: Result<OrderedMap<uint16, ExportedFunction>>)
    ensures r == ExportTable(img, data, dir, ed, tables)
  {
    var (names, hints) := tables;
    var reader := ExportReaderOf(img, data, dir, ed, names, hints);
    var exports: OrderedMap<uint16, ExportedFunction> := Empty();
    var i: nat := 0;
    while i < ed.numberOfFunctions
      invariant i <= ed.numberOfFunctions
      invariant FunctionsFrom(reader, ed.numberOfFunctions, 0, Empty()) == FunctionsFrom(reader, ed.numberOfFunctions, i, exports)
      decreases ed.numberOfFunctions - i
    {
      var e := ExportAt(img, data, dir, ed, names, hints, i);
      if e.Err? { return Err(e.error); }
      var next := exports.Add(e.value.ordinal, e.value);
      if next.Err? { return Err(next.error); }
      exports := next.value;
      i := i + 1;
    }
    return Ok(exports);
  }

  /** `ExportDirectory.LoadDirectory(pe, stream)`. */
  method LoadDirectory(img: Image, data: seq<uint8>) returns (r: Result<ExportDirectory>)
    requires img.Valid()
    ensures r == LoadExportDirectory(img, data)
  {
    var dir := img.Directory(Export);
    if dir.IsEmpty() { return Err(InvalidOperation); }
    var ed := HeaderAt(img, data, dir);
    if ed.Err? { return Err(ed.error); }
    var name := StringAtRva(img, data, ed.value.name.0, AsciiEncoding);
    if name.Err? { return Err(name.error); }
    var tables := ReadNames(img, data, ed.value);
    if tables.Err? { return Err(tables.error); }
    var exports := ReadFunctions(img, data, dir, ed.value, tables.value);
    if exports.Err? { return Err(exports.error); }
    return Ok(ed.value.(name := (ed.value.name.0, Some(name.value)), exports := Some(exports.value)));
  }
}
