/**
 * The resource directory tree: 16-byte directory headers followed by their
 * 8-byte entries, each entry naming either a 16-byte data entry or a
 * subdirectory. Ids and offsets with the high bit set are relative to the
 * root directory's RVA; a node finds that RVA by following its `Parent`
 * links to the top.
 *
 * The recursion between directories and entries has no bound in the loader;
 * here `fuel` bounds the depth and running out is `OutOfFuel`.
 */
module ResourceTrees {
  import opened Bytes
  import opened Results
  import opened Text
  import opened OrderedMaps
  import opened SectionHeaders
  import opened StreamHelper
  import opened DataDirectories
  import opened Images
  import opened ResourceIds

  const DIRECTORY_SIZE: nat := 16
  const ENTRY_SIZE: nat := 8
  const DATA_ENTRY_SIZE: nat := 16

  /** `ResourceNameIsString` and `ResourceDataIsDirectory`: both bit 31, tested with HighBit32. */
  const NAME_IS_STRING: uint32 := 0x8000_0000
  const DATA_IS_DIRECTORY: uint32 := 0x8000_0000

  /** What a node sees of a directory through `Parent`: that directory's RVA and its own `Parent`. */
  datatype DirectoryLink = DirectoryLink(rva: Option<uint32>, parent: Option<DirectoryLink>)

  /** The `_pe` a data entry keeps: the section table, and the image's `Stream`, which is retained only when the image took ownership of it. */
  datatype ImageSource = ImageSource(sections: seq<SectionHeader>, stream: Option<seq<uint8>>)

  /** IMAGE_RESOURCE_DIRECTORY with the loader's `Parent`, `RVA` and `Entries`. */
  datatype ResourceDirectory = ResourceDirectory(
    parent: Option<DirectoryLink>,
    rva: Option<uint32>,
    characteristics: uint32,
    timeDateStamp: uint32,
    majorVersion: uint16,
    minorVersion: uint16,
    numberOfNamedEntries: uint16,
    numberOfIdEntries: uint16,
    entries: Option<OrderedMap<ResourceId, ResourceDirectoryEntry>>)
  {
    /** This directory as its children see it. */
    function Link(): DirectoryLink { DirectoryLink(rva, parent) }

    /** `NumberOfNamedEntries + NumberOfIdEntries`, the number of entries that follow the header. */
    function EntryCount(): nat { numberOfNamedEntries as nat + numberOfIdEntries as nat }
  }

  /** IMAGE_RESOURCE_DIRECTORY_ENTRY: the raw id word with its decoded id, and the child it leads to. */
  datatype ResourceDirectoryEntry = ResourceDirectoryEntry(
    parent: Option<DirectoryLink>,
    id: (uint32, Option<ResourceId>),
    offsetToData: uint32,
    directory: Option<ResourceDirectory>,
    dataEntry: Option<ResourceDataEntry>)

  /** IMAGE_RESOURCE_DATA_ENTRY with the loader's `Parent` and image. */
  datatype ResourceDataEntry = ResourceDataEntry(
    pe: Option<ImageSource>,
    parent: Option<DirectoryLink>,
    offsetToData: uint32,
    size: uint32,
    codePage: uint32,
    reserved: uint32)

  // ---- the three fixed-size records ----

  /** `new ResourceDirectory(data)`: ArgumentException below 16 bytes. */
  function DecodeDirectory(data: seq<uint8>): (r: Result<ResourceDirectory>)
    ensures r.Ok? <==> |data| >= DIRECTORY_SIZE
    ensures r.Err? ==> r.error == Argument
    ensures r.Ok? ==> r.value.parent.None? && r.value.rva.None? && r.value.entries.None?
  {
    if |data| < DIRECTORY_SIZE then Err(Argument)
    else Ok(ResourceDirectory(None, None, LE32(data, 0), LE32(data, 4), LE16(data, 8), LE16(data, 10),
                              LE16(data, 12), LE16(data, 14), None))
  }

  function EncodeDirectory(d: ResourceDirectory): (r: seq<uint8>)
    ensures |r| == DIRECTORY_SIZE
  {
    Bytes32(d.characteristics) + Bytes32(d.timeDateStamp) + Bytes16(d.majorVersion) + Bytes16(d.minorVersion)
      + Bytes16(d.numberOfNamedEntries) + Bytes16(d.numberOfIdEntries)
  }

  /** The six header fields read back from their encoding. */
  lemma DirectoryRoundTrip(d: ResourceDirectory)
    ensures DecodeDirectory(EncodeDirectory(d)) == Ok(d.(parent := None, rva := None, entries := None))
  {
    var e := EncodeDirectory(d);
    LE32At(e, 0, d.characteristics);
    LE32At(e, 4, d.timeDateStamp);
    LE16At(e, 8, d.majorVersion);
    LE16At(e, 10, d.minorVersion);
    LE16At(e, 12, d.numberOfNamedEntries);
    LE16At(e, 14, d.numberOfIdEntries);
  }

  /** `new ResourceDirectoryEntry(data)`: ArgumentException below 8 bytes; the id is not decoded yet. */
  function DecodeEntry(data: seq<uint8>): (r: Result<ResourceDirectoryEntry>)
    ensures r.Ok? <==> |data| >= ENTRY_SIZE
    ensures r.Err? ==> r.error == Argument
    ensures r.Ok? ==> r.value.parent.None? && r.value.id.1.None? && r.value.directory.None? && r.value.dataEntry.None?
  {
    if |data| < ENTRY_SIZE then Err(Argument)
    else Ok(ResourceDirectoryEntry(None, (LE32(data, 0), None), LE32(data, 4), None, None))
  }

  function EncodeEntry(e: ResourceDirectoryEntry): (r: seq<uint8>)
    ensures |r| == ENTRY_SIZE
  {
    Bytes32(e.id.0) + Bytes32(e.offsetToData)
  }

  lemma EntryRoundTrip(e: ResourceDirectoryEntry)
    ensures DecodeEntry(EncodeEntry(e)) == Ok(e.(parent := None, id := (e.id.0, None), directory := None, dataEntry := None))
  {
    var b := EncodeEntry(e);
    LE32At(b, 0, e.id.0);
    LE32At(b, 4, e.offsetToData);
  }

  /** `new ResourceDataEntry(data)`: ArgumentException below 16 bytes. */
  function DecodeDataEntry(data: seq<uint8>): (r: Result<ResourceDataEntry>)
    ensures r.Ok? <==> |data| >= DATA_ENTRY_SIZE
    ensures r.Err? ==> r.error == Argument
    ensures r.Ok? ==> r.value.pe.None? && r.value.parent.None?
  {
    if |data| < DATA_ENTRY_SIZE then Err(Argument)
    else Ok(ResourceDataEntry(None, None, LE32(data, 0), LE32(data, 4), LE32(data, 8), LE32(data, 12)))
  }

  function EncodeDataEntry(e: ResourceDataEntry): (r: seq<uint8>)
    ensures |r| == DATA_ENTRY_SIZE
  {
    Bytes32(e.offsetToData) + Bytes32(e.size) + Bytes32(e.codePage) + Bytes32(e.reserved)
  }

  lemma DataEntryRoundTrip(e: ResourceDataEntry)
    ensures DecodeDataEntry(EncodeDataEntry(e)) == Ok(e.(pe := None, parent := None))
  {
    var b := EncodeDataEntry(e);
    LE32At(b, 0, e.offsetToData);
    LE32At(b, 4, e.size);
    LE32At(b, 8, e.codePage);
    LE32At(b, 12, e.reserved);
  }

  // ---- GetRootDirectoryRVA ----

  /** The node reached by following `Parent` until there is none. */
  function Top(link: DirectoryLink): (r: DirectoryLink)
    ensures r.parent.None?
    ensures link.parent.None? ==> r == link
    decreases link
  {
    if link.parent.None? then link else Top(link.parent.value)
  }

  /** The root RVA a node computes: the top node's RVA, InvalidOperationException when it is unset. */
  function RootRva(link: DirectoryLink): (r: Result<uint32>)
    ensures r.Ok? <==> Top(link).rva.Some?
    ensures r.Ok? ==> r.value == Top(link).rva.value
    ensures r.Err? ==> r.error == InvalidOperation
  {
    if Top(link).rva.Some? then Ok(Top(link).rva.value) else Err(InvalidOperation)
  }

  /** A child computes the same root RVA as its parent; a node with no parent uses its own RVA. */
  lemma {:induction false} RootRvaOfChild(rva: Option<uint32>, parent: DirectoryLink)
    ensures RootRva(DirectoryLink(rva, Some(parent))) == RootRva(parent)
    ensures RootRva(DirectoryLink(rva, None)) == (if rva.Some? then Ok(rva.value) else Err(InvalidOperation))
  {
  }

  /** `GetRootDirectoryRVA`: `while (dir.Parent != null) dir = dir.Parent;`. */
  method GetRootDirectoryRva(link: DirectoryLink) returns (r: Result<uint32>)
    ensures r == RootRva(link)
  {
    var dir := link;
    while dir.parent.Some?
      invariant Top(dir) == Top(link)
      decreases dir
    {
      dir := dir.parent.value;
    }
    if dir.rva.None? {
      return Err(InvalidOperation);
    }
    return Ok(dir.rva.value);
  }

  // ---- what the loader reads ----

  /**
   * The reads the loader makes: `n` bytes at an RVA (`stream.Position =
   * RVAToFileOffset(rva); stream.ReadExactly(...)`) and the counted UTF-16
   * name at an RVA; and the image it hands to every data entry.
   */
  datatype Loader = Loader(
    bytesAt: (uint32, nat) -> Result<seq<uint8>>,
    nameAt: uint32 -> Result<Str>,
    source: ImageSource)

  /** A string id: the u16 length at the RVA's file offset, then `ReadString(stream, Encoding.Unicode, len)` right after it. */
  function NameAt(img: Image, data: seq<uint8>, rva: uint32): (r: Result<Str>)
    ensures var off := RvaToFileOffset(img.sections, rva);
      && (r.Ok? <==> off.Ok? && off.value + 2 <= |data|)
      && (r.Ok? ==>
            && r.value == CharsAt(data, off.value + 2, UnicodeEncoding, LE16(data, off.value)).0
            && |r.value| <= LE16(data, off.value))
  {
    var off :- RvaToFileOffset(img.sections, rva);
    var lenBytes :- ReadExactly(data, off, 2);
    assert LE16(lenBytes, 0) == LE16(data, off);
    Ok(ReadStringAt(data, off + 2, UnicodeEncoding, Some(LE16(lenBytes, 0))).value.0)
  }

  /** The `_pe` the loaded data entries record; its `Stream` is set only under `takeOwnership`. */
  function SourceOf(img: Image, data: seq<uint8>, owned: bool): (r: ImageSource)
    ensures r.sections == img.sections
    ensures r.stream.Some? <==> owned
    ensures owned ==> r.stream.value == data
  {
    ImageSource(img.sections, if owned then Some(data) else None)
  }

  /** The loader of an image file: every read goes through the image's section table. */
  function LoaderOf(img: Image, data: seq<uint8>, owned: bool): (ld: Loader)
    ensures ld.source == SourceOf(img, data, owned)
  {
    Loader((rva: uint32, n: nat) => BytesAt(img, data, rva, n), (rva: uint32) => NameAt(img, data, rva), SourceOf(img, data, owned))
  }

  /** The loader of an image file reads exactly what BytesAt and NameAt read. */
  lemma LoaderOfReads(img: Image, data: seq<uint8>, owned: bool, rva: uint32, n: nat)
    ensures LoaderOf(img, data, owned).bytesAt(rva, n) == BytesAt(img, data, rva, n)
    ensures LoaderOf(img, data, owned).nameAt(rva) == NameAt(img, data, rva)
  {
  }

  /**
   * The id of an entry from its raw word: with the name-is-string bit clear,
   * the numeric id `(ushort)(raw & 0xFFFF)`; with it set, the name at
   * `root + (raw & 0x7FFFFFFF)`.
   */
  function IdAt(ld: Loader, root: uint32, raw: uint32): (r: Result<ResourceId>)
    ensures !HighBit32(raw) ==> r == Ok(Numeric(raw % TWO_TO_16))
    ensures HighBit32(raw) ==>
      var name := ld.nameAt(Wrap32(Low31(raw) + root));
      && (r.Ok? <==> name.Ok?)
      && (r.Ok? ==> r.value == Named(name.value))
      && (r.Err? ==> r.error == name.error)
  {
    if !HighBit32(raw) then Ok(Numeric(raw % TWO_TO_16))
    else
      var name :- ld.nameAt(Wrap32(Low31(raw) + root));
      Ok(Named(name))
  }

  /** A numeric id keeps the low 16 bits and ignores bits 16 to 30; a string id is never numeric. */
  lemma IdKinds(ld: Loader, root: uint32, raw: uint32, lowBits: uint16, midBits: nat)
    requires raw == midBits * TWO_TO_16 + lowBits && midBits < 0x8000
    ensures IdAt(ld, root, raw) == Ok(Numeric(lowBits))
    ensures IdAt(ld, root, raw + NAME_IS_STRING).Ok? ==> IdAt(ld, root, raw + NAME_IS_STRING).value.numericalId.None?
  {
  }

  /** `ResourceDataEntry.LoadEntry`: the 16 bytes at `rva + offset`, with the containing directory and the image recorded. */
  function DataEntryAt(ld: Loader, parent: DirectoryLink, rva: uint32, offset: uint32): Result<ResourceDataEntry>
  {
    var bytes :- ld.bytesAt(Wrap32(rva + offset), DATA_ENTRY_SIZE);
    var e :- DecodeDataEntry(bytes);
    Ok(e.(parent := Some(parent), pe := Some(ld.source)))
  }

  /**
   * `ReadData`: InvalidOperationException without an image or without its
   * stream; then the buffer `new byte[Size]` is allocated, which throws for a
   * Size above Array.MaxLength before the RVA is looked at; otherwise exactly
   * `Size` bytes at the file offset of `OffsetToData`, which is an image RVA
   * (no bytes at all for a Size of 0, wherever that offset lies).
   */
  function ReadData(e: ResourceDataEntry): (r: Result<seq<uint8>>)
    ensures r == Err(InvalidOperation) <==> e.pe.None? || e.pe.value.stream.None?
    ensures e.pe.Some? && e.pe.value.stream.Some? && e.size > MAX_ARRAY_LENGTH ==> r == Err(OutOfMemory)
    ensures r.Ok? ==> e.size <= MAX_ARRAY_LENGTH
    ensures e.pe.Some? && e.pe.value.stream.Some? && e.size == 0 ==>
      (r == Ok([]) <==> RvaToFileOffset(e.pe.value.sections, e.offsetToData).Ok?)
    ensures r.Ok? ==>
      var off := RvaToFileOffset(e.pe.value.sections, e.offsetToData);
      && off.Ok? && (e.size == 0 || off.value + e.size <= |e.pe.value.stream.value|)
      && (off.value + e.size <= |e.pe.value.stream.value| ==> r.value == e.pe.value.stream.value[off.value..off.value + e.size])
    ensures r.Ok? ==> |r.value| == e.size
  {
    if e.pe.None? then Err(InvalidOperation)
    else if e.pe.value.stream.None? then Err(InvalidOperation)
    else if e.size > MAX_ARRAY_LENGTH then Err(OutOfMemory)
    else
      var off :- RvaToFileOffset(e.pe.value.sections, e.offsetToData);
      ReadExactly(e.pe.value.stream.value, off, e.size)
  }

  // ---- the recursive loader ----

  /** The first half of `LoadDirectory(parent, ...)`: the header at `rva + offset`, with `Parent` and `RVA` set. */
  function DirectoryHeaderAt(ld: Loader, parent: Option<DirectoryLink>, rva: uint32, offset: uint32)
    : Result<ResourceDirectory>
  {
    var at := Wrap32(rva + offset);
    var bytes :- ld.bytesAt(at, DIRECTORY_SIZE);
    var header :- DecodeDirectory(bytes);
    Ok(header.(parent := parent, rva := Some(at)))
  }

  /**
   * The first half of `LoadEntry(parent, ..., idx)`: the 8 bytes at
   * `parent.RVA + 16 + 8 * idx` with `Parent` set and the id decoded, and
   * the root RVA that the rest of the entry is read against.
   */
  function EntryHeaderAt(ld: Loader, parent: DirectoryLink, idx: nat): Result<(ResourceDirectoryEntry, uint32)>
  {
    if parent.rva.None? then Err(InvalidOperation)
    else
      var position := Wrap32(parent.rva.value + DIRECTORY_SIZE + idx * ENTRY_SIZE);
      var bytes :- ld.bytesAt(position, ENTRY_SIZE);
      var raw :- DecodeEntry(bytes);
      var root :- RootRva(parent);
      var id :- IdAt(ld, root, raw.id.0);
      Ok((raw.(parent := Some(parent), id := (raw.id.0, Some(id))), root))
  }

  /**
   * The loop of `LoadDirectory` with the entry read abstracted: entry `i`
   * of `n` read, then added under its key.
   */
  function KeyedLoop<K(==), V>(read: nat -> Result<V>, key: V -> Option<K>, i: nat, n: nat, acc: OrderedMap<K, V>)
    : Result<OrderedMap<K, V>>
    decreases n - i
  {
    if i >= n then Ok(acc)
    else
      var e :- read(i);
      if key(e).None? then Err(InvalidOperation)
      else
        var next :- acc.Add(key(e).value, e);
        KeyedLoop(read, key, i + 1, n, next)
  }

  /** The key an entry is added under. */
  function IdOf(e: ResourceDirectoryEntry): Option<ResourceId>
  {
    e.id.1
  }

  /**
   * `ResourceDirectory.LoadDirectory(parent, pe, stream, rva, offset)`: the
   * header, then its entries; each level of subdirectories takes one unit
   * of fuel.
   */
  function DirectoryAt(ld: Loader, parent: Option<DirectoryLink>, rva: uint32, offset: uint32, fuel: nat)
    : Result<ResourceDirectory>
    decreases fuel, 0
  {
    var dir :- DirectoryHeaderAt(ld, parent, rva, offset);
    if fuel == 0 then Err(OutOfFuel)
    else
      var entries :- KeyedLoop(ReaderOf(ld, dir.Link(), fuel - 1), IdOf, 0, dir.EntryCount(), Empty());
      Ok(dir.(entries := Some(entries)))
  }

  /**
   * The entries the `for` loop of `LoadDirectory` reads, by index: entry
   * `i` is read with the directory as its parent.
   */
  function ReaderOf(ld: Loader, link: DirectoryLink, fuel: nat): nat -> Result<ResourceDirectoryEntry>
    decreases fuel, 2
  {
    (j: nat) => EntryAt(ld, link, j, fuel)
  }

  /**
   * `ResourceDirectoryEntry.LoadEntry(parent, pe, stream, idx)`: the entry
   * header, then a data entry at `root + OffsetToData` or a subdirectory at
   * `root + (OffsetToData & 0x7FFFFFFF)`.
   */
  function EntryAt(ld: Loader, parent: DirectoryLink, idx: nat, fuel: nat): Result<ResourceDirectoryEntry>
    decreases fuel, 1
  {
    var (entry, root) :- EntryHeaderAt(ld, parent, idx);
    if !HighBit32(entry.offsetToData) then
      var dataEntry :- DataEntryAt(ld, parent, root, entry.offsetToData);
      Ok(entry.(dataEntry := Some(dataEntry)))
    else
      var sub :- DirectoryAt(ld, Some(parent), root, Low31(entry.offsetToData), fuel);
      Ok(entry.(directory := Some(sub)))
  }

  // ---- what a loaded directory holds ----

  /** A data entry is the 16 bytes at `rva + offset`, decoded, with its directory and the image recorded. */
  lemma DataEntryAtSpec(ld: Loader, parent: DirectoryLink, rva: uint32, offset: uint32)
    ensures var bytes := ld.bytesAt(Wrap32(rva + offset), DATA_ENTRY_SIZE);
      var r := DataEntryAt(ld, parent, rva, offset);
      && (r.Ok? <==> bytes.Ok? && |bytes.value| >= DATA_ENTRY_SIZE)
      && (r.Err? && bytes.Ok? ==> r.error == Argument)
      && (r.Ok? ==>
            && r.value.parent == Some(parent)
            && r.value.pe == Some(ld.source)
            && DecodeDataEntry(bytes.value) == Ok(r.value.(pe := None, parent := None)))
  {
  }

  /** A directory header is the 16 bytes at `rva + offset`, decoded, with `Parent` and `RVA` set and no entries yet. */
  lemma DirectoryHeaderAtSpec(ld: Loader, parent: Option<DirectoryLink>, rva: uint32, offset: uint32)
    ensures var bytes := ld.bytesAt(Wrap32(rva + offset), DIRECTORY_SIZE);
      var r := DirectoryHeaderAt(ld, parent, rva, offset);
      && (r.Ok? <==> bytes.Ok? && |bytes.value| >= DIRECTORY_SIZE)
      && (r.Err? && bytes.Ok? ==> r.error == Argument)
      && (r.Ok? ==>
            && DecodeDirectory(bytes.value) == Ok(r.value.(parent := None, rva := None))
            && r.value.parent == parent
            && r.value.rva == Some(Wrap32(rva + offset))
            && r.value.entries.None?)
  {
  }

  /** A directory fails with its header, runs out of fuel after it, or has its header and entries. */
  lemma DirectoryAtHeader(ld: Loader, parent: Option<DirectoryLink>, rva: uint32, offset: uint32, fuel: nat)
    ensures var h := DirectoryHeaderAt(ld, parent, rva, offset);
      var r := DirectoryAt(ld, parent, rva, offset, fuel);
      && (h.Err? ==> r == Err(h.error))
      && (h.Ok? && fuel == 0 ==> r == Err(OutOfFuel))
      && (r.Ok? ==> h == Ok(r.value.(entries := None)) && r.value.entries.Some?)
  {
  }

  /** An entry fails with its header, or has its header and exactly the child bit 31 of OffsetToData selects. */
  lemma EntryAtHeader(ld: Loader, parent: DirectoryLink, idx: nat, fuel: nat)
    ensures var h := EntryHeaderAt(ld, parent, idx);
      var r := EntryAt(ld, parent, idx, fuel);
      && (h.Err? ==> r == Err(h.error))
      && (r.Ok? ==>
            && h.Ok?
            && r.value.(directory := None, dataEntry := None) == h.value.0
            && (r.value.dataEntry.Some? <==> !HighBit32(r.value.offsetToData))
            && (r.value.directory.Some? <==> HighBit32(r.value.offsetToData)))
  {
  }

  // ---- the entry loop over any reader ----

  lemma {:induction false} KeyedLoopValid<K, V>(read: nat -> Result<V>, key: V -> Option<K>, i: nat, n: nat,
                                              acc: OrderedMap<K, V>)
    requires acc.Valid() && KeyedLoop(read, key, i, n, acc).Ok?
    ensures KeyedLoop(read, key, i, n, acc).value.Valid()
    decreases n - i
  {
    if i < n {
      var e := read(i).value;
      KeyedLoopValid(read, key, i + 1, n, acc.Add(key(e).value, e).value);
    }
  }

  /** A successful loop adds one key per index and keeps the keys it had. */
  lemma {:induction false} KeyedLoopKeep<K, V>(read: nat -> Result<V>, key: V -> Option<K>, i: nat, n: nat,
                                             acc: OrderedMap<K, V>)
    requires i <= n && KeyedLoop(read, key, i, n, acc).Ok?
    ensures var r := KeyedLoop(read, key, i, n, acc).value;
      && |r.keys| == |acc.keys| + (n - i)
      && r.keys[..|acc.keys|] == acc.keys
    decreases n - i
  {
    if i < n {
      var e := read(i).value;
      var next := acc.Add(key(e).value, e).value;
      KeyedLoopKeep(read, key, i + 1, n, next);
      var r := KeyedLoop(read, key, i, n, acc).value;
      assert r.keys[..|next.keys|][..|acc.keys|] == r.keys[..|acc.keys|];
    }
  }

  /** A successful loop never changes a value it already holds. */
  lemma {:induction false} KeyedLoopItems<K, V>(read: nat -> Result<V>, key: V -> Option<K>, i: nat, n: nat,
                                              acc: OrderedMap<K, V>, k: K)
    requires KeyedLoop(read, key, i, n, acc).Ok? && k in acc.items
    ensures var r := KeyedLoop(read, key, i, n, acc).value; k in r.items && r.items[k] == acc.items[k]
    decreases n - i
  {
    if i < n {
      var e := read(i).value;
      KeyedLoopItems(read, key, i + 1, n, acc.Add(key(e).value, e).value, k);
    }
  }

  /** The first key a successful loop adds is the key of the value read at `i`, which it maps to. */
  lemma KeyedLoopFirst<K, V>(read: nat -> Result<V>, key: V -> Option<K>, i: nat, n: nat,
                             acc: OrderedMap<K, V>, r: OrderedMap<K, V>)
    requires i < n && KeyedLoop(read, key, i, n, acc) == Ok(r)
    ensures var m := |acc.keys|;
      && m < |r.keys| && r.keys[m] in r.items
      && read(i) == Ok(r.items[r.keys[m]])
      && key(r.items[r.keys[m]]) == Some(r.keys[m])
  {
    var e := read(i).value;
    var k := key(e).value;
    var next := acc.Add(k, e).value;
    assert KeyedLoop(read, key, i + 1, n, next) == Ok(r);
    KeyedLoopKeep(read, key, i + 1, n, next);
    assert r.keys[..|next.keys|][|acc.keys|] == k;
    KeyedLoopItems(read, key, i + 1, n, next, k);
  }

  /** Key m of a successful loop is the key of the value read at `i + m - |acc.keys|`, which it maps to. */
  lemma {:induction false} KeyedLoopEntry<K, V>(read: nat -> Result<V>, key: V -> Option<K>, i: nat, n: nat,
                                               acc: OrderedMap<K, V>, r: OrderedMap<K, V>, m: nat)
    requires i <= n && KeyedLoop(read, key, i, n, acc) == Ok(r)
    requires |acc.keys| <= m < |acc.keys| + (n - i)
    ensures && m < |r.keys| && r.keys[m] in r.items
            && read(i + m - |acc.keys|) == Ok(r.items[r.keys[m]])
            && key(r.items[r.keys[m]]) == Some(r.keys[m])
    decreases n - i
  {
    if m == |acc.keys| {
      KeyedLoopFirst(read, key, i, n, acc, r);
      assert i + m - |acc.keys| == i;
    } else {
      var e := read(i).value;
      var next := acc.Add(key(e).value, e).value;
      assert |next.keys| == |acc.keys| + 1;
      assert KeyedLoop(read, key, i + 1, n, next) == Ok(r);
      KeyedLoopEntry(read, key, i + 1, n, next, r, m);
      assert i + 1 + m - |next.keys| == i + m - |acc.keys|;
    }
  }

  /** The values read at two indices of a successful loop carry different keys. */
  lemma KeyedLoopDistinct<K, V>(read: nat -> Result<V>, key: V -> Option<K>, n: nat, j1: nat, j2: nat)
    requires KeyedLoop(read, key, 0, n, Empty()).Ok?
    requires j1 < j2 < n
    ensures read(j1).Ok? && read(j2).Ok?
    ensures key(read(j1).value) != key(read(j2).value)
  {
    var e: OrderedMap<K, V> := Empty();
    var r := KeyedLoop(read, key, 0, n, e).value;
    KeyedLoopValid(read, key, 0, n, e);
    KeyedLoopEntry(read, key, 0, n, e, r, j1);
    KeyedLoopEntry(read, key, 0, n, e, r, j2);
    assert r.keys[j1] != r.keys[j2];
  }

  /**
   * A loaded directory's entries are the entry loop run for its own link and
   * its `NumberOfNamedEntries + NumberOfIdEntries`, one unit of fuel lower.
   */
  lemma DirectoryEntries(ld: Loader, parent: Option<DirectoryLink>, rva: uint32, offset: uint32, fuel: nat,
                           d: ResourceDirectory)
    requires DirectoryAt(ld, parent, rva, offset, fuel) == Ok(d)
    ensures fuel > 0 && d.entries.Some?
    ensures KeyedLoop(ReaderOf(ld, d.Link(), fuel - 1), IdOf, 0, d.EntryCount(), Empty()) == Ok(d.entries.value)
  {
    DirectoryAtHeader(ld, parent, rva, offset, fuel);
    var dir := DirectoryHeaderAt(ld, parent, rva, offset).value;
    assert d == dir.(entries := d.entries);
    assert d.Link() == dir.Link() && d.EntryCount() == dir.EntryCount();
  }

  /**
   * A successful entry loop holds one entry per index `m < n`, in that
   * order, each keyed by its id: key m is the id of the m-th entry read with
   * the directory as its parent, and maps to that entry.
   */
  lemma EntriesRead(ld: Loader, link: DirectoryLink, fuel: nat, n: nat,
                    r: OrderedMap<ResourceId, ResourceDirectoryEntry>)
    requires KeyedLoop(ReaderOf(ld, link, fuel), IdOf, 0, n, Empty()) == Ok(r)
    ensures r.Valid() && |r.keys| == n
    ensures forall m | 0 <= m < n ::
      && r.keys[m] in r.items
      && EntryAt(ld, link, m, fuel) == Ok(r.items[r.keys[m]])
      && r.items[r.keys[m]].id.1 == Some(r.keys[m])
  {
    var e: OrderedMap<ResourceId, ResourceDirectoryEntry> := Empty();
    var read := ReaderOf(ld, link, fuel);
    KeyedLoopValid(read, IdOf, 0, n, e);
    KeyedLoopKeep(read, IdOf, 0, n, e);
    forall m | 0 <= m < n
      ensures && r.keys[m] in r.items
              && EntryAt(ld, link, m, fuel) == Ok(r.items[r.keys[m]])
              && r.items[r.keys[m]].id.1 == Some(r.keys[m])
    {
      KeyedLoopEntry(read, IdOf, 0, n, e, r, m);
      assert read(m) == EntryAt(ld, link, m, fuel);
    }
  }

  /**
   * The entries of a loaded directory carry pairwise distinct ids: two
   * entries with the same id fail the directory (Dictionary.Add rejects the
   * second).
   */
  lemma LoadedIdsDistinct(ld: Loader, link: DirectoryLink, fuel: nat, n: nat, j1: nat, j2: nat)
    requires KeyedLoop(ReaderOf(ld, link, fuel), IdOf, 0, n, Empty()).Ok?
    requires j1 < j2 < n
    ensures EntryAt(ld, link, j1, fuel).Ok? && EntryAt(ld, link, j2, fuel).Ok?
    ensures EntryAt(ld, link, j1, fuel).value.id.1 != EntryAt(ld, link, j2, fuel).value.id.1
  {
    var e: OrderedMap<ResourceId, ResourceDirectoryEntry> := Empty();
    var read := ReaderOf(ld, link, fuel);
    KeyedLoopDistinct(read, IdOf, n, j1, j2);
    assert read(j1) == EntryAt(ld, link, j1, fuel) && read(j2) == EntryAt(ld, link, j2, fuel);
  }

  /**
   * What a loaded entry holds: the raw words at its slot, its directory as
   * parent, the id read from the raw id word (numeric exactly when bit 31 is
   * clear), and exactly one child, chosen by bit 31 of OffsetToData and read
   * relative to the root RVA.
   */
  lemma EntryAtSpec(ld: Loader, parent: DirectoryLink, idx: nat, fuel: nat)
    requires EntryAt(ld, parent, idx, fuel).Ok?
    ensures var e := EntryAt(ld, parent, idx, fuel).value;
      var bytes := ld.bytesAt(Wrap32(parent.rva.value + DIRECTORY_SIZE + idx * ENTRY_SIZE), ENTRY_SIZE);
      var root := RootRva(parent);
      && bytes.Ok? && DecodeEntry(bytes.value) == Ok(e.(parent := None, id := (e.id.0, None), directory := None, dataEntry := None))
      && e.parent == Some(parent)
      && root.Ok?
      && e.id.1 == Some(IdAt(ld, root.value, e.id.0).value)
      && (e.id.1.value.numericalId.Some? <==> !HighBit32(e.id.0))
      && (e.dataEntry.Some? <==> !HighBit32(e.offsetToData))
      && (e.directory.Some? <==> HighBit32(e.offsetToData))
      && (e.dataEntry.Some? ==> DataEntryAt(ld, parent, root.value, e.offsetToData) == Ok(e.dataEntry.value))
      && (e.directory.Some? ==> DirectoryAt(ld, Some(parent), root.value, Low31(e.offsetToData), fuel) == Ok(e.directory.value))
  {
    EntryAtHeader(ld, parent, idx, fuel);
    var e := EntryAt(ld, parent, idx, fuel).value;
    var h := EntryHeaderAt(ld, parent, idx).value.0;
    assert e.(directory := None, dataEntry := None) == h;
    assert e.(parent := None, id := (e.id.0, None), directory := None, dataEntry := None) == h.(parent := None, id := (h.id.0, None));
  }

  /**
   * A loaded entry links back to the directory it was read for, so a
   * subdirectory below it computes the same root RVA, and it sits at that
   * root plus the low 31 bits of the entry's OffsetToData.
   */
  lemma EntryChildShareRoot(ld: Loader, parent: DirectoryLink, idx: nat, fuel: nat)
    requires EntryAt(ld, parent, idx, fuel).Ok?
    ensures var e := EntryAt(ld, parent, idx, fuel).value;
      && RootRva(parent).Ok?
      && e.parent == Some(parent)
      && (e.directory.Some? ==>
            && e.directory.value.parent == Some(parent)
            && RootRva(e.directory.value.Link()) == RootRva(parent)
            && e.directory.value.rva == Some(Wrap32(RootRva(parent).value + Low31(e.offsetToData))))
  {
    EntryAtSpec(ld, parent, idx, fuel);
    var e := EntryAt(ld, parent, idx, fuel).value;
    if e.directory.Some? {
      var root := RootRva(parent).value;
      var sub := e.directory.value;
      DirectoryAtHeader(ld, Some(parent), root, Low31(e.offsetToData), fuel);
      assert DirectoryHeaderAt(ld, Some(parent), root, Low31(e.offsetToData)) == Ok(sub.(entries := None));
      assert sub.Link() == DirectoryLink(sub.rva, Some(parent));
      RootRvaOfChild(sub.rva, parent);
    }
  }

  /** `ResourceDirectory.LoadDirectory(pe, stream)`: the root, at the data directory's RVA with no parent. */
  function LoadResourceDirectory(img: Image, data: seq<uint8>, owned: bool, fuel: nat): (r: Result<ResourceDirectory>)
    requires img.Valid()
    ensures img.Directory(Resource).IsEmpty() ==> r == Err(InvalidOperation)
    ensures r.Ok? ==>
      && r.value.parent.None?
      && r.value.rva == Some(img.Directory(Resource).virtualAddress)
      && RootRva(r.value.Link()) == Ok(img.Directory(Resource).virtualAddress)
      && BytesAt(img, data, img.Directory(Resource).virtualAddress, DIRECTORY_SIZE).Ok?
      && DecodeDirectory(BytesAt(img, data, img.Directory(Resource).virtualAddress, DIRECTORY_SIZE).value)
           == Ok(r.value.(entries := None, parent := None, rva := None))
  {
    var dir := img.Directory(Resource);
    if dir.IsEmpty() then Err(InvalidOperation)
    else
      DirectoryAtHeader(LoaderOf(img, data, owned), None, dir.virtualAddress, 0, fuel);
      DirectoryAt(LoaderOf(img, data, owned), None, dir.virtualAddress, 0, fuel)
  }

  // ---- the loader as the source writes it ----

  /** `ResourceDataEntry.LoadEntry`. */
  method LoadDataEntry(ld: Loader, parent: DirectoryLink, rva: uint32, offset: uint32) returns (r: Result<ResourceDataEntry>)
    ensures r == DataEntryAt(ld, parent, rva, offset)
  {
    var bytes := ld.bytesAt(Wrap32(rva + offset), DATA_ENTRY_SIZE);
    if bytes.Err? {
      return Err(bytes.error);
    }
    var decoded := DecodeDataEntry(bytes.value);
    if decoded.Err? {
      return Err(decoded.error);
    }
    var dataEntry := decoded.value;
    dataEntry := dataEntry.(parent := Some(parent));
    dataEntry := dataEntry.(pe := Some(ld.source));
    return Ok(dataEntry);
  }

  /** `ResourceDirectory.LoadDirectory(parent, ...)`: the header, `Parent` and `RVA`, then the entries. */
  method LoadDirectory(ld: Loader, parent: Option<DirectoryLink>, rva: uint32, offset: uint32, fuel: nat)
    returns (r: Result<ResourceDirectory>)
    ensures r == DirectoryAt(ld, parent, rva, offset, fuel)
    decreases fuel, 0
  {
    var bytes := ld.bytesAt(Wrap32(rva + offset), DIRECTORY_SIZE);
    if bytes.Err? {
      return Err(bytes.error);
    }
    var decoded := DecodeDirectory(bytes.value);
    if decoded.Err? {
      return Err(decoded.error);
    }
    var dir := decoded.value;
    dir := dir.(parent := parent);
    dir := dir.(rva := Some(Wrap32(rva + offset)));
    if fuel == 0 {
      return Err(OutOfFuel);
    }
    var entries := LoadEntries(ld, dir.Link(), dir.EntryCount(), fuel - 1);
    if entries.Err? {
      return Err(entries.error);
    }
    return Ok(dir.(entries := Some(entries.value)));
  }

  /** The `for` loop of `LoadDirectory`: entry `i` loaded and added under its id, for each `i < n`. */
  method LoadEntries(ld: Loader, link: DirectoryLink, n: nat, fuel: nat)
    returns (r: Result<OrderedMap<ResourceId, ResourceDirectoryEntry>>)
    ensures r == KeyedLoop(ReaderOf(ld, link, fuel), IdOf, 0, n, Empty())
    decreases fuel, 2
  {
    var entries: OrderedMap<ResourceId, ResourceDirectoryEntry> := Empty();
    var i := 0;
    while i < n
      invariant 0 <= i <= n
      invariant KeyedLoop(ReaderOf(ld, link, fuel), IdOf, 0, n, Empty()) == KeyedLoop(ReaderOf(ld, link, fuel), IdOf, i, n, entries)
    {
      var entry := LoadEntry(ld, link, i, fuel);
      assert ReaderOf(ld, link, fuel)(i) == entry;
      if entry.Err? {
        return Err(entry.error);
      }
      if entry.value.id.1.None? {
        return Err(InvalidOperation);
      }
      var next := entries.Add(entry.value.id.1.value, entry.value);
      if next.Err? {
        return Err(next.error);
      }
      entries := next.value;
      i := i + 1;
    }
    return Ok(entries);
  }

  /** `ResourceDirectoryEntry.LoadEntry`, step by step. */
  method LoadEntry(ld: Loader, parent: DirectoryLink, idx: nat, fuel: nat) returns (r: Result<ResourceDirectoryEntry>)
    ensures r == EntryAt(ld, parent, idx, fuel)
    decreases fuel, 1
  {
    if parent.rva.None? {
      return Err(InvalidOperation);
    }
    var position := Wrap32(parent.rva.value + DIRECTORY_SIZE + idx * ENTRY_SIZE);
    var bytes := ld.bytesAt(position, ENTRY_SIZE);
    if bytes.Err? {
      return Err(bytes.error);
    }
    var decoded := DecodeEntry(bytes.value);
    if decoded.Err? {
      return Err(decoded.error);
    }
    var entry := decoded.value.(parent := Some(parent));
    var root := GetRootDirectoryRva(parent);
    if root.Err? {
      return Err(root.error);
    }
    var id := IdAt(ld, root.value, entry.id.0);
    if id.Err? {
      return Err(id.error);
    }
    entry := entry.(id := (entry.id.0, Some(id.value)));
    var offset := entry.offsetToData;
    if !HighBit32(offset) {
      var dataEntry := LoadDataEntry(ld, parent, root.value, offset);
      if dataEntry.Err? {
        return Err(dataEntry.error);
      }
      entry := entry.(dataEntry := Some(dataEntry.value));
    } else {
      offset := Low31(offset);
      var sub := LoadDirectory(ld, Some(parent), root.value, offset, fuel);
      if sub.Err? {
        return Err(sub.error);
      }
      entry := entry.(directory := Some(sub.value));
    }
    return Ok(entry);
  }

  /** `ResourceDirectory.LoadDirectory(pe, stream)`. */
  method LoadRoot(img: Image, data: seq<uint8>, owned: bool, fuel: nat) returns (r: Result<ResourceDirectory>)
    requires img.Valid()
    ensures r == LoadResourceDirectory(img, data, owned, fuel)
  {
    var dir := img.Directory(Resource);
    if dir.IsEmpty() {
      return Err(InvalidOperation);
    }
    r := LoadDirectory(LoaderOf(img, data, owned), None, dir.virtualAddress, 0, fuel);
  }
}
