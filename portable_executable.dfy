/**
 * PortableExecutable: the headers read in file order from an image, the
 * export, import and resource directories loaded through the section
 * table, and the queries over the resource tree.
 */
module PortableExecutables {
  import opened Bytes
  import opened Results
  import opened Text
  import opened StreamHelper
  import opened DataDirectories
  import opened DosHeaders
  import opened FileHeaders
  import opened OptionalHeaders
  import opened SectionHeaders
  import opened Images
  import opened ResourceIds
  import ExportDirectories
  import ImportDirectories
  import ResourceTrees
  import ResourceLeaves
  import Seqs

  /** "PE\0\0". */
  const NT_SIGNATURE: Str := [0x50, 0x45, 0, 0]

  const DOS_HEADER_SIZE: nat := 64
  const FILE_HEADER_SIZE: nat := 20

  /**
   * The headers in the order the constructor reads them. `ntHeaders` is
   * `e_lfanew`, where "PE\0\0" is read; the file header follows it and the
   * optional header follows that.
   */
  datatype Headers = Headers(
    dosHeader: DosHeader, signature: Str, fileHeader: FileHeader,
    optionalHeader: OptionalHeader, sectionHeaders: seq<SectionHeader>)

  datatype PortableExecutable = PortableExecutable(
    stream: Option<seq<uint8>>,
    dosHeader: DosHeader, signature: Str, fileHeader: FileHeader,
    optionalHeader: OptionalHeader, sectionHeaders: seq<SectionHeader>,
    exportDirectory: Option<ExportDirectories.ExportDirectory>,
    importDirectory: Option<ImportDirectories.ImportDirectory>,
    resourceDirectory: Option<ResourceTrees.ResourceDirectory>)

  /** Where the optional header starts: after the signature and the file header. */
  function OptionalHeaderOffset(dos: DosHeader): nat
  {
    dos.lfanew as nat + 4 + FILE_HEADER_SIZE
  }

  /** Section header i: the i-th 40-byte read after the optional header. */
  function SectionAt(data: seq<uint8>, base: nat, i: nat): Result<SectionHeader>
  {
    var bytes :- ReadExactly(data, base + i * SECTION_HEADER_SIZE, SECTION_HEADER_SIZE);
    Ok(DecodeSectionHeader(bytes).value)
  }

  function SectionReader(data: seq<uint8>, base: nat): nat -> Result<SectionHeader>
  {
    (i: nat) => SectionAt(data, base, i)
  }

  /**
   * `ReadExactly(data)` of 64 bytes from the stream's position, then
   * `new DosHeader(data)`; the stream is taken to be given at position 0.
   */
  function DosHeaderAt(data: seq<uint8>): Result<DosHeader>
  {
    var bytes :- ReadExactly(data, 0, DOS_HEADER_SIZE);
    Ok(DecodeDosHeader(bytes).value)
  }

  /** `stream.Position = Lfanew; ReadExactly(data[0..4])` as ASCII. */
  function SignatureAt(data: seq<uint8>, dos: DosHeader): Result<Str>
  {
    var bytes :- ReadExactly(data, dos.lfanew, 4);
    Ok(Ascii(bytes))
  }

  /** The 20 bytes after the signature, `new FileHeader(data[0..20])`. */
  function FileHeaderAt(data: seq<uint8>, dos: DosHeader): Result<FileHeader>
  {
    var bytes :- ReadExactly(data, dos.lfanew as nat + 4, FILE_HEADER_SIZE);
    Ok(DecodeFileHeader(bytes).value)
  }

  /** The SizeOfOptionalHeader bytes after the file header, `new OptionalHeader(data)`. */
  function OptionalHeaderAt(data: seq<uint8>, dos: DosHeader, fh: FileHeader): (r: Result<OptionalHeader>)
    ensures r.Ok? ==> r.value.Valid()
  {
    var bytes :- ReadExactly(data, OptionalHeaderOffset(dos), fh.sizeOfOptionalHeader);
    DecodeOptionalHeader(bytes)
  }

  /** Where the section table starts: after the optional header, whatever its magic. */
  function SectionTableOffset(dos: DosHeader, fh: FileHeader): nat
  {
    OptionalHeaderOffset(dos) + fh.sizeOfOptionalHeader
  }

  /**
   * The header reads of the constructor (PortableExecutable.cs:39-66): the
   * DOS header and its magic, the NT signature at `e_lfanew`, the file
   * header, SizeOfOptionalHeader bytes of optional header, and
   * NumberOfSections section headers.
   */
  function HeadersAt(data: seq<uint8>): (r: Result<Headers>)
    ensures r.Ok? ==> r.value.optionalHeader.Valid()
  {
    var dos :- DosHeaderAt(data);
    if dos.magic != DOS_SIGNATURE then Err(BadImage)
    else
      var signature :- SignatureAt(data, dos);
      if signature != NT_SIGNATURE then Err(BadImage)
      else
        var fh :- FileHeaderAt(data, dos);
        var oh :- OptionalHeaderAt(data, dos, fh);
        var sections :- ReadEach(SectionReader(data, SectionTableOffset(dos, fh)), fh.numberOfSections);
        Ok(Headers(dos, signature, fh, oh, sections))
  }

  /** `LoadDataDirectory<T>`: null for an empty slot, else the loader's directory or its exception. */
  function LoadDataDirectory<T>(slot: DataDirectory, load: Result<T>): (r: Result<Option<T>>)
    ensures slot.IsEmpty() ==> r == Ok(None)
    ensures !slot.IsEmpty() ==> (r.Ok? <==> load.Ok?) && (r.Ok? ==> r.value == Some(load.value))
  {
    if slot.IsEmpty() then Ok(None)
    else
      var d :- load;
      Ok(Some(d))
  }

  /**
   * `new PortableExecutable(stream, takeOwnership)`: the headers, then the
   * export, import and resource directories in that order; the stream is
   * kept only when the image takes ownership of it. `fuel` bounds the
   * import walk and the depth of the resource tree.
   */
  function ReadPortableExecutable(data: seq<uint8>, owned: bool, fuel: nat): (r: Result<PortableExecutable>)
  {
    var h :- HeadersAt(data);
    var img := Image(h.optionalHeader, h.sectionHeaders);
    var exports :- LoadDataDirectory(img.Directory(Export), ExportDirectories.LoadExportDirectory(img, data));
    var imports :- LoadDataDirectory(img.Directory(Import), ImportDirectories.LoadImportDirectory(img, data, fuel));
    var resources :- LoadDataDirectory(img.Directory(Resource), ResourceTrees.LoadResourceDirectory(img, data, owned, fuel));
    Ok(PortableExecutable(if owned then Some(data) else None, h.dosHeader, h.signature, h.fileHeader,
                          h.optionalHeader, h.sectionHeaders, exports, imports, resources))
  }

  /** The image the directory loaders see. */
  function ImageOf(pe: PortableExecutable): Image
  {
    Image(pe.optionalHeader, pe.sectionHeaders)
  }

  /** The constructor as the source writes it, with the `for` loop over the section table. */
  method Open(data: seq<uint8>, owned: bool, fuel: nat) returns (r: Result<PortableExecutable>)
    ensures r == ReadPortableExecutable(data, owned, fuel)
  {
    var h := ReadHeaders(data);
    if h.Err? {
      return Err(h.error);
    }
    var img := Image(h.value.optionalHeader, h.value.sectionHeaders);
    var exports: Option<ExportDirectories.ExportDirectory> := None;
    if !img.Directory(Export).IsEmpty() {
      var d := ExportDirectories.LoadDirectory(img, data);
      if d.Err? {
        return Err(d.error);
      }
      exports := Some(d.value);
    }
    var imports: Option<ImportDirectories.ImportDirectory> := None;
    if !img.Directory(Import).IsEmpty() {
      var d := ImportDirectories.LoadDirectory(img, data, fuel);
      if d.Err? {
        return Err(d.error);
      }
      imports := Some(d.value);
    }
    var resources: Option<ResourceTrees.ResourceDirectory> := None;
    if !img.Directory(Resource).IsEmpty() {
      var d := ResourceTrees.LoadRoot(img, data, owned, fuel);
      if d.Err? {
        return Err(d.error);
      }
      resources := Some(d.value);
    }
    var stream := if owned then Some(data) else None;
    return Ok(PortableExecutable(stream, h.value.dosHeader, h.value.signature, h.value.fileHeader,
                                 h.value.optionalHeader, h.value.sectionHeaders, exports, imports, resources));
  }

  /** The constructor's header reads (PortableExecutable.cs:39-66) step by step: each read's exception escapes, each check throws BadPortableExecutableException. */
  method ReadHeaders(data: seq<uint8>) returns (r: Result<Headers>)
    ensures r == HeadersAt(data)
  {
    var dos := DosHeaderAt(data);
    if dos.Err? {
      return Err(dos.error);
    }
    if dos.value.magic != DOS_SIGNATURE {
      return Err(BadImage);
    }
    var signature := SignatureAt(data, dos.value);
    if signature.Err? {
      return Err(signature.error);
    }
    if signature.value != NT_SIGNATURE {
      return Err(BadImage);
    }
    var fh := FileHeaderAt(data, dos.value);
    if fh.Err? {
      return Err(fh.error);
    }
    var oh := OptionalHeaderAt(data, dos.value, fh.value);
    if oh.Err? {
      return Err(oh.error);
    }
    var sections := ReadSections(data, SectionTableOffset(dos.value, fh.value), fh.value.numberOfSections);
    if sections.Err? {
      return Err(sections.error);
    }
    return Ok(Headers(dos.value, signature.value, fh.value, oh.value, sections.value));
  }

  /** The `for` loop filling `SectionHeaders`, one 40-byte read after another. */
  method ReadSections(data: seq<uint8>, base: nat, n: nat) returns (r: Result<seq<SectionHeader>>)
    ensures r == ReadEach(SectionReader(data, base), n)
  {
    r := ReadAll(SectionReader(data, base), n);
  }

  // ---- what the constructor accepts ----

  /** The signature check reads four bytes as ASCII; it passes exactly for the bytes 'P', 'E', 0, 0. */
  lemma NtSignatureBytes(bs: seq<uint8>)
    requires |bs| == 4
    ensures Ascii(bs) == NT_SIGNATURE <==> bs == [0x50, 0x45, 0, 0]
  {
    if Ascii(bs) == NT_SIGNATURE {
      forall i | 0 <= i < 4 ensures bs[i] == NT_SIGNATURE[i] {
        assert Ascii(bs)[i] == AsciiUnit(bs[i]);
      }
    }
  }

  /** An image whose first two bytes are not "MZ" is refused as a bad image, as is one without "PE\0\0" at `e_lfanew`. */
  lemma HeadersRefused(data: seq<uint8>)
    requires |data| >= DOS_HEADER_SIZE
    ensures var dos := DecodeDosHeader(data[..DOS_HEADER_SIZE]).value;
      && (!(data[0] == 0x4D && data[1] == 0x5A) ==> HeadersAt(data) == Err(BadImage))
      && ((dos.magic == DOS_SIGNATURE && dos.lfanew as nat + 4 <= |data|
             && data[dos.lfanew..dos.lfanew as nat + 4] != [0x50, 0x45, 0, 0]) ==> HeadersAt(data) == Err(BadImage))
  {
    DosSignatureIsMZ(data[..DOS_HEADER_SIZE]);
    var dos := DecodeDosHeader(data[..DOS_HEADER_SIZE]).value;
    assert DosHeaderAt(data) == Ok(dos);
    if dos.lfanew as nat + 4 <= |data| {
      NtSignatureBytes(data[dos.lfanew..dos.lfanew as nat + 4]);
    }
  }

  /** Accepted headers are the results of the five reads, each check passed. */
  lemma HeadersAtParts(data: seq<uint8>)
    requires HeadersAt(data).Ok?
    ensures var h := HeadersAt(data).value;
      && DosHeaderAt(data) == Ok(h.dosHeader) && h.dosHeader.magic == DOS_SIGNATURE
      && SignatureAt(data, h.dosHeader) == Ok(h.signature) && h.signature == NT_SIGNATURE
      && FileHeaderAt(data, h.dosHeader) == Ok(h.fileHeader)
      && OptionalHeaderAt(data, h.dosHeader, h.fileHeader) == Ok(h.optionalHeader)
      && ReadEach(SectionReader(data, SectionTableOffset(h.dosHeader, h.fileHeader)), h.fileHeader.numberOfSections)
           == Ok(h.sectionHeaders)
  {
  }

  /**
   * Accepted headers sit where the constructor reads them: the DOS header
   * in the first 64 bytes with the "MZ" magic, "PE\0\0" at `e_lfanew`, the
   * file header in the 20 bytes after it and the optional header in the
   * next SizeOfOptionalHeader bytes.
   */
  lemma HeadersLayout(data: seq<uint8>, h: Headers)
    requires HeadersAt(data) == Ok(h)
    ensures var ntAt := h.dosHeader.lfanew as nat;
      var ohAt := OptionalHeaderOffset(h.dosHeader);
      var secAt := SectionTableOffset(h.dosHeader, h.fileHeader);
      && |data| >= DOS_HEADER_SIZE
      && Ok(h.dosHeader) == DecodeDosHeader(data[..DOS_HEADER_SIZE])
      && h.dosHeader.magic == DOS_SIGNATURE
      && ntAt + 4 <= |data| && data[ntAt..ntAt + 4] == [0x50, 0x45, 0, 0] && h.signature == NT_SIGNATURE
      && ohAt <= |data| && Ok(h.fileHeader) == DecodeFileHeader(data[ntAt + 4..ohAt])
      && secAt <= |data| && Ok(h.optionalHeader) == DecodeOptionalHeader(data[ohAt..secAt])
  {
    HeadersAtParts(data);
    DosHeaderAtLayout(data, h.dosHeader);
    SignatureAtLayout(data, h.dosHeader, h.signature);
    FileHeaderAtLayout(data, h.dosHeader, h.fileHeader);
    OptionalHeaderAtLayout(data, h.dosHeader, h.fileHeader, h.optionalHeader);
  }

  lemma DosHeaderAtLayout(data: seq<uint8>, dos: DosHeader)
    requires DosHeaderAt(data) == Ok(dos)
    ensures |data| >= DOS_HEADER_SIZE && Ok(dos) == DecodeDosHeader(data[..DOS_HEADER_SIZE])
  {
  }

  lemma SignatureAtLayout(data: seq<uint8>, dos: DosHeader, signature: Str)
    requires SignatureAt(data, dos) == Ok(signature) && signature == NT_SIGNATURE
    ensures dos.lfanew as nat + 4 <= |data| && data[dos.lfanew as nat..dos.lfanew as nat + 4] == [0x50, 0x45, 0, 0]
  {
    var at := dos.lfanew as nat;
    NtSignatureBytes(data[at..at + 4]);
  }

  lemma FileHeaderAtLayout(data: seq<uint8>, dos: DosHeader, fh: FileHeader)
    requires FileHeaderAt(data, dos) == Ok(fh)
    ensures OptionalHeaderOffset(dos) <= |data|
    ensures Ok(fh) == DecodeFileHeader(data[dos.lfanew as nat + 4..OptionalHeaderOffset(dos)])
  {
  }

  lemma OptionalHeaderAtLayout(data: seq<uint8>, dos: DosHeader, fh: FileHeader, oh: OptionalHeader)
    requires OptionalHeaderAt(data, dos, fh) == Ok(oh)
    ensures SectionTableOffset(dos, fh) <= |data|
    ensures Ok(oh) == DecodeOptionalHeader(data[OptionalHeaderOffset(dos)..SectionTableOffset(dos, fh)])
  {
    // An empty read would succeed anywhere, but no header decodes from it.
    var bytes := ReadExactly(data, OptionalHeaderOffset(dos), fh.sizeOfOptionalHeader);
    assert bytes.Ok? && |bytes.value| >= 2;
  }

  /**
   * The section table holds NumberOfSections headers, header i decoded
   * from the 40 bytes at `i * 40` past the end of the optional header.
   */
  lemma SectionTableLayout(data: seq<uint8>, h: Headers)
    requires HeadersAt(data) == Ok(h)
    ensures |h.sectionHeaders| == h.fileHeader.numberOfSections
    ensures SectionsLaidOut(data, SectionTableOffset(h.dosHeader, h.fileHeader), h.sectionHeaders)
  {
    var base := SectionTableOffset(h.dosHeader, h.fileHeader);
    assert ReadEach(SectionReader(data, base), h.fileHeader.numberOfSections) == Ok(h.sectionHeaders) by {
      HeadersAtParts(data);
    }
    SectionsRead(data, base, h.fileHeader.numberOfSections, h.sectionHeaders);
  }

  /** Header i of `hs` is decoded from the 40 bytes at `base + 40i`, all of them inside `data`. */
  predicate SectionsLaidOut(data: seq<uint8>, base: nat, hs: seq<SectionHeader>)
  {
    forall i | 0 <= i < |hs| ::
      var at := base + i * SECTION_HEADER_SIZE;
      at + SECTION_HEADER_SIZE <= |data| && Ok(hs[i]) == DecodeSectionHeader(data[at..at + SECTION_HEADER_SIZE])
  }

  /** The section loop's headers, one per index, each decoded from its own 40 bytes. */
  lemma SectionsRead(data: seq<uint8>, base: nat, n: nat, hs: seq<SectionHeader>)
    requires ReadEach(SectionReader(data, base), n) == Ok(hs)
    ensures |hs| == n
    ensures SectionsLaidOut(data, base, hs)
  {
    var read := SectionReader(data, base);
    ReadEachSpec(read, n);
    forall i | 0 <= i < |hs|
      ensures var at := base + i * SECTION_HEADER_SIZE;
        at + SECTION_HEADER_SIZE <= |data| && Ok(hs[i]) == DecodeSectionHeader(data[at..at + SECTION_HEADER_SIZE])
    {
      assert read(i) == SectionAt(data, base, i);
      SectionAtBytes(data, base, i, hs[i]);
    }
  }

  /** A section header read at index i is the 40 bytes at `base + 40i`, decoded. */
  lemma SectionAtBytes(data: seq<uint8>, base: nat, i: nat, h: SectionHeader)
    requires SectionAt(data, base, i) == Ok(h)
    ensures var at := base + i * SECTION_HEADER_SIZE;
      at + SECTION_HEADER_SIZE <= |data| && Ok(h) == DecodeSectionHeader(data[at..at + SECTION_HEADER_SIZE])
  {
  }

  /**
   * A constructed image carries the headers the constructor accepted, and
   * keeps the stream exactly when it takes ownership of it.
   */
  lemma ReadPortableExecutableHeaders(data: seq<uint8>, owned: bool, fuel: nat)
    requires ReadPortableExecutable(data, owned, fuel).Ok?
    ensures var pe := ReadPortableExecutable(data, owned, fuel).value;
      && HeadersAt(data) == Ok(Headers(pe.dosHeader, pe.signature, pe.fileHeader, pe.optionalHeader, pe.sectionHeaders))
      && ImageOf(pe).Valid()
      && (pe.stream.Some? <==> owned) && (owned ==> pe.stream.value == data)
  {
    var h := HeadersAt(data).value;
    var pe := ReadPortableExecutable(data, owned, fuel).value;
    assert pe.dosHeader == h.dosHeader && pe.signature == h.signature && pe.fileHeader == h.fileHeader;
    assert pe.optionalHeader == h.optionalHeader && pe.sectionHeaders == h.sectionHeaders;
    assert pe.stream == if owned then Some(data) else None;
  }

  /**
   * An empty data-directory slot leaves its directory null; a non-empty one
   * holds what that directory's loader returns for the image's own headers.
   */
  lemma ReadPortableExecutableDirectories(data: seq<uint8>, owned: bool, fuel: nat)
    requires ReadPortableExecutable(data, owned, fuel).Ok?
    ensures var pe := ReadPortableExecutable(data, owned, fuel).value;
      var img := ImageOf(pe);
      && (pe.exportDirectory.None? <==> img.Directory(Export).IsEmpty())
      && (pe.exportDirectory.Some? ==> ExportDirectories.LoadExportDirectory(img, data) == Ok(pe.exportDirectory.value))
      && (pe.importDirectory.None? <==> img.Directory(Import).IsEmpty())
      && (pe.importDirectory.Some? ==> ImportDirectories.LoadImportDirectory(img, data, fuel) == Ok(pe.importDirectory.value))
      && (pe.resourceDirectory.None? <==> img.Directory(Resource).IsEmpty())
      && (pe.resourceDirectory.Some? ==> ResourceTrees.LoadResourceDirectory(img, data, owned, fuel) == Ok(pe.resourceDirectory.value))
  {
    var h := HeadersAt(data).value;
    var img := Image(h.optionalHeader, h.sectionHeaders);
    var ex := LoadDataDirectory(img.Directory(Export), ExportDirectories.LoadExportDirectory(img, data));
    var im := LoadDataDirectory(img.Directory(Import), ImportDirectories.LoadImportDirectory(img, data, fuel));
    var rs := LoadDataDirectory(img.Directory(Resource), ResourceTrees.LoadResourceDirectory(img, data, owned, fuel));
    var pe := ReadPortableExecutable(data, owned, fuel).value;
    assert ex.Ok? && im.Ok? && rs.Ok?;
    assert pe.exportDirectory == ex.value && pe.importDirectory == im.value && pe.resourceDirectory == rs.value;
    assert ImageOf(pe) == img;
  }

  /** An image whose headers are accepted is refused only by a non-empty directory whose loader fails, in the order export, import, resource. */
  lemma ReadPortableExecutableFails(data: seq<uint8>, owned: bool, fuel: nat)
    requires HeadersAt(data).Ok?
    ensures var h := HeadersAt(data).value;
      var img := Image(h.optionalHeader, h.sectionHeaders);
      var ex := img.Directory(Export).IsEmpty() || ExportDirectories.LoadExportDirectory(img, data).Ok?;
      var im := img.Directory(Import).IsEmpty() || ImportDirectories.LoadImportDirectory(img, data, fuel).Ok?;
      var rs := img.Directory(Resource).IsEmpty() || ResourceTrees.LoadResourceDirectory(img, data, owned, fuel).Ok?;
      && (ReadPortableExecutable(data, owned, fuel).Ok? <==> ex && im && rs)
      && (!ex ==> ReadPortableExecutable(data, owned, fuel) == Err(ExportDirectories.LoadExportDirectory(img, data).error))
      && (ex && !im ==> ReadPortableExecutable(data, owned, fuel) == Err(ImportDirectories.LoadImportDirectory(img, data, fuel).error))
  {
  }
}
