/**
 * The delay-import directory: 32-byte delay-load descriptors read one after
 * another from the directory's RVA up to the sentinel, each added by its DLL
 * name, through the descriptor walk of the import directory.
 *
 * Every member takes the `Reading` of `LoadDescriptor`: `AsWritten` is the
 * directory the code loads, `Intended` the one the RvaBased convention asks
 * for; the two agree on RVA-based descriptors.
 */
module DelayImportDirectories {
  import opened Bytes
  import opened Results
  import opened Text
  import opened OrderedMaps
  import opened DataDirectories
  import opened Images
  import opened ImportDirectories
  import opened DelayImportedLibraries

  datatype DelayImportDirectory = DelayImportDirectory(imports: Option<OrderedMap<Str, DelayImportedLibrary>>)

  /**
   * Descriptor i: `RVAToFileOffset((uint)(VirtualAddress + i * 32))`,
   * `ReadExactly`, `LoadDescriptor` in the given reading.
   */
  function DelayDescriptorAt(img: Image, data: seq<uint8>, va: uint32, fuel: nat, reading: Reading, i: nat)
    : Result<Option<DelayImportedLibrary>>
  {
    var bytes :- BytesAt(img, data, Wrap32(va + i * DELAY_DESCRIPTOR_SIZE), DELAY_DESCRIPTOR_SIZE);
    LoadedDelayDescriptor(img, data, bytes, fuel, reading)
  }

  function DelayDescriptorReaderOf(img: Image, data: seq<uint8>, va: uint32, fuel: nat, reading: Reading)
    : nat -> Result<Option<DelayImportedLibrary>>
  {
    (j: nat) => DelayDescriptorAt(img, data, va, fuel, reading, j)
  }

  /** The key of a descriptor, `DllName.Name`. */
  function DllNameOf(lib: DelayImportedLibrary): Option<Str>
  {
    lib.dllName.1
  }

  /** `DelayImportDirectory.LoadDirectory`; `fuel` bounds both the descriptor loop and each name-table loop. */
  function LoadDelayImportDirectory(img: Image, data: seq<uint8>, fuel: nat, reading: Reading): (r: Result<DelayImportDirectory>)
    requires img.Valid()
    ensures img.Directory(DelayImport).IsEmpty() ==> r == Err(InvalidOperation)
    ensures r.Ok? ==> r.value.imports.Some?
  {
    var dir := img.Directory(DelayImport);
    if dir.IsEmpty() then Err(InvalidOperation)
    else
      var libs :- LibrariesFrom(DelayDescriptorReaderOf(img, data, dir.virtualAddress, fuel, reading), DllNameOf, 0, Empty(), fuel);
      Ok(DelayImportDirectory(Some(libs)))
  }

  method LoadDirectory(img: Image, data: seq<uint8>, fuel: nat, reading: Reading) returns (r: Result<DelayImportDirectory>)
    requires img.Valid()
    ensures r == LoadDelayImportDirectory(img, data, fuel, reading)
  {
    var dir := img.Directory(DelayImport);
    if dir.IsEmpty() {
      return Err(InvalidOperation);
    }
    var libs := CollectLibraries(DelayDescriptorReaderOf(img, data, dir.virtualAddress, fuel, reading), DllNameOf, fuel);
    if libs.Err? {
      return Err(libs.error);
    }
    return Ok(DelayImportDirectory(Some(libs.value)));
  }

  /** In either reading every loaded descriptor has its DLL name read. */
  lemma DelayDescriptorsNamed(img: Image, data: seq<uint8>, va: uint32, fuel: nat, reading: Reading)
    ensures AllNamed(DelayDescriptorReaderOf(img, data, va, fuel, reading), DllNameOf)
  {
    forall j: nat | DelayDescriptorReaderOf(img, data, va, fuel, reading)(j).Ok? && DelayDescriptorReaderOf(img, data, va, fuel, reading)(j).value.Some?
      ensures DllNameOf(DelayDescriptorReaderOf(img, data, va, fuel, reading)(j).value.value).Some?
    {
      assert DelayDescriptorReaderOf(img, data, va, fuel, reading)(j) == DelayDescriptorAt(img, data, va, fuel, reading, j);
    }
  }

  /**
   * A loaded delay-import directory holds, in order, the descriptors at
   * `VA + 32m` before the first sentinel, each keyed by its DLL name; the
   * names are distinct.
   */
  lemma LoadDelayImportDirectoryContents(img: Image, data: seq<uint8>, fuel: nat, reading: Reading)
    requires img.Valid() && LoadDelayImportDirectory(img, data, fuel, reading).Ok?
    ensures var dir := img.Directory(DelayImport);
      var libs := LoadDelayImportDirectory(img, data, fuel, reading).value.imports.value;
      && libs.Valid()
      && (forall m | 0 <= m < |libs.keys| ::
            && DelayDescriptorAt(img, data, dir.virtualAddress, fuel, reading, m) == Ok(Some(libs.items[libs.keys[m]]))
            && libs.items[libs.keys[m]].dllName.1 == Some(libs.keys[m]))
      && DelayDescriptorAt(img, data, dir.virtualAddress, fuel, reading, |libs.keys|) == Ok(None)
  {
    var dir := img.Directory(DelayImport);
    var t := DelayDescriptorReaderOf(img, data, dir.virtualAddress, fuel, reading);
    DelayDescriptorsNamed(img, data, dir.virtualAddress, fuel, reading);
    LibraryTableContents(t, DllNameOf, fuel);
    var libs := LoadDelayImportDirectory(img, data, fuel, reading).value.imports.value;
    forall m | 0 <= m < |libs.keys|
      ensures DelayDescriptorAt(img, data, dir.virtualAddress, fuel, reading, m) == Ok(Some(libs.items[libs.keys[m]]))
    {
      assert t(m) == DelayDescriptorAt(img, data, dir.virtualAddress, fuel, reading, m);
    }
    assert t(|libs.keys|) == DelayDescriptorAt(img, data, dir.virtualAddress, fuel, reading, |libs.keys|);
  }

  /** Descriptor slot i holds an RVA-based descriptor or the sentinel, or fails to decode. */
  ghost predicate RvaBasedAt(img: Image, data: seq<uint8>, va: uint32, i: nat)
  {
    var bytes := BytesAt(img, data, Wrap32(va + i * DELAY_DESCRIPTOR_SIZE), DELAY_DESCRIPTOR_SIZE);
    bytes.Ok? && DecodeDelayDescriptor(bytes.value).Ok? ==>
      DecodeDelayDescriptor(bytes.value).value.RvaBased() || DecodeDelayDescriptor(bytes.value).value.IsSentinel()
  }

  /**
   * The readings differ only on VA-based descriptors: a directory whose
   * descriptors are all RVA-based loads the same in both.
   */
  lemma LoadReadingsAgree(img: Image, data: seq<uint8>, fuel: nat)
    requires img.Valid()
    requires forall i: nat :: RvaBasedAt(img, data, img.Directory(DelayImport).virtualAddress, i)
    ensures LoadDelayImportDirectory(img, data, fuel, AsWritten) == LoadDelayImportDirectory(img, data, fuel, Intended)
  {
    var va := img.Directory(DelayImport).virtualAddress;
    var a := DelayDescriptorReaderOf(img, data, va, fuel, AsWritten);
    var b := DelayDescriptorReaderOf(img, data, va, fuel, Intended);
    forall j: nat ensures a(j) == b(j) {
      DescriptorReadingsAgree(img, data, va, fuel, j);
    }
    LibrariesFromAgree(a, b, DllNameOf, 0, Empty(), fuel);
  }

  lemma DescriptorReadingsAgree(img: Image, data: seq<uint8>, va: uint32, fuel: nat, j: nat)
    requires RvaBasedAt(img, data, va, j)
    ensures DelayDescriptorAt(img, data, va, fuel, AsWritten, j) == DelayDescriptorAt(img, data, va, fuel, Intended, j)
  {
    var bytes := BytesAt(img, data, Wrap32(va + j * DELAY_DESCRIPTOR_SIZE), DELAY_DESCRIPTOR_SIZE);
    if bytes.Ok? {
      LoadedReadingsAgree(img, data, bytes.value, fuel);
    }
  }
}
