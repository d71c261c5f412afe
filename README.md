# Winspect PE and regf model

A Dafny model of the parsing core of Winspect (Windows Inspect), a .NET
library and set of command-line tools that read Windows binaries and
registry hives. The model covers three parts of it:

- **Portable Executable reading.** The DOS, file, optional and section
  headers are decoded from their little-endian layouts. A relative virtual
  address (RVA) is mapped to a file offset through the section table. The
  export table, the import and delay-import descriptor tables, the debug
  directory and the resource tree are walked, and the resource lookups of
  `PortableExecutable` are modelled.
- **The diff engine.** It compares the exports, imports and resources of
  two images and tags every entry Added, Removed, Modified or Unchanged.
- **The regf hive reader.** It decodes the base block, the hive bins and
  the cells, the index, fast-leaf, hash-leaf, key-node and key-value
  records, and loads the tree of keys from the root cell.

The file image is an immutable `seq<uint8>`. Every stream read is a read at
an explicit position, and a read past the end is the `EndOfStream` error.
Each .NET exception a path can throw is an `Error` value from `Results`, so
every error path is a value and not a precondition. A .NET `Dictionary` is an
`OrderedMaps.OrderedMap`: a sequence of keys in insertion order plus a map.
`Add` on a present key is the `Argument` error, as in .NET. Strings are
sequences of UTF-16 code units (`Text.Str`).

Loops in the source are methods with loop invariants. Each method is proved
equal to a recursive function, and the properties are lemmas about that
function. The registry key walk, the resource tree recursion and the
sentinel-terminated descriptor and thunk loops have no bound in the source.
For these the model takes a `fuel` argument, and running out is the
distinct `OutOfFuel` error.

## Model

| member | source | states |
|---|---|---|
| DosHeaders.DecodeDosHeader | Winspect.Formats.PE/Headers/DosHeader.cs:106-128 | Decoding succeeds exactly when at least 64 bytes are given. |
| DosHeaders.DosHeaderRoundTrip | Winspect.Formats.PE/Headers/DosHeader.cs:106-128 | The 17 fields read back from their 64-byte encoding at offsets 0..28, 36, 38 and 60, whatever the two skipped gaps hold. |
| DosHeaders.DosSignatureIsMZ | Winspect.Formats.PE/Headers/DosHeader.cs:19 | The magic equals the DOS signature 0x5A4D exactly when the first two bytes are 'M', 'Z'. |
| FileHeaders.DecodeFileHeader | Winspect.Formats.PE/Headers/FileHeader.cs:24-34 | Decoding succeeds exactly when at least 20 bytes are given. |
| FileHeaders.FileHeaderReadsTwenty | Winspect.Formats.PE/Headers/FileHeader.cs:24-34 | Only the first 20 bytes are read. |
| FileHeaders.FileHeaderRoundTrip | Winspect.Formats.PE/Headers/FileHeader.cs:24-34 | The seven fields read back from their 20-byte encoding, whatever follows it. |
| DataDirectories.DecodeDataDirectory | Winspect.Formats.PE/Headers/DataDirectory.cs:19-24 | Decoding succeeds exactly when at least 8 bytes are given. |
| DataDirectories.DataDirectoryReadsEight | Winspect.Formats.PE/Headers/DataDirectory.cs:19-24 | Only the first 8 bytes are read. |
| DataDirectories.DataDirectoryRoundTrip | Winspect.Formats.PE/Headers/DataDirectory.cs:19-24 | VirtualAddress and Size read back from their encoding. |
| OptionalHeaders.DataDirectoriesAt | Winspect.Formats.PE/Headers/OptionalHeader.cs:119-123 | Sixteen slots; slot i is the 8 bytes at `base + 8i`, decoded. |
| OptionalHeaders.ReadDataDirectories | Winspect.Formats.PE/Headers/OptionalHeader.cs:119-123 | The 16-iteration loop builds exactly those slots. |
| OptionalHeaders.DecodeOptionalHeader | Winspect.Formats.PE/Headers/OptionalHeader.cs:65-125 | The header decodes exactly when the span reaches the end of the last slot (byte 240 for PE32+, byte 224 otherwise). The result keeps the magic and holds 16 slots. |
| OptionalHeaders.ReadOptionalHeader | Winspect.Formats.PE/Headers/OptionalHeader.cs:65-125 | The constructor, with its slot loop, gives the decoded header. |
| OptionalHeaders.Pe32Layout | Winspect.Formats.PE/Headers/OptionalHeader.cs:76-108 | For magic 0x10B: BaseOfData is the 32-bit field at 24 and ImageBase the 32-bit field at 28. SizeOfStackReserve, SizeOfStackCommit, SizeOfHeapReserve, SizeOfHeapCommit, LoaderFlags and NumberOfRvaAndSizes are the 32-bit fields at 72, 76, 80, 84, 88 and 92. Slot i is the 8 bytes at `96 + 8i`. |
| OptionalHeaders.Pe32PlusLayout | Winspect.Formats.PE/Headers/OptionalHeader.cs:81-117 | For magic 0x20B: there is no BaseOfData and ImageBase is the 64-bit field at 24. SizeOfStackReserve, SizeOfStackCommit, SizeOfHeapReserve and SizeOfHeapCommit are the 64-bit fields at 72, 80, 88 and 96, and LoaderFlags and NumberOfRvaAndSizes the 32-bit fields at 104 and 108. Slot i is the 8 bytes at `112 + 8i`. |
| OptionalHeaders.UnknownMagicLayout | Winspect.Formats.PE/Headers/OptionalHeader.cs:76-117 | Any other magic reads only the shared fields. The format-specific fields stay zero, and the slots start at 96. |
| OptionalHeaders.SharedLayout | Winspect.Formats.PE/Headers/OptionalHeader.cs:67-99 | Whatever the magic, every shared field is read at its own offset: Magic at 0, the linker versions at bytes 2 and 3, SizeOfCode, SizeOfInitializedData, SizeOfUninitializedData, AddressOfEntryPoint and BaseOfCode at 4 to 20, SectionAlignment and FileAlignment at 32 and 36, the six 16-bit versions at 40 to 50, Win32VersionValue, SizeOfImage, SizeOfHeaders and CheckSum at 52 to 64, and Subsystem and DllCharacteristics at 68 and 70. |
| OptionalHeaders.OptionalHeaderRoundTrip | Winspect.Formats.PE/Headers/OptionalHeader.cs:65-125 | Take any header the layout can hold: 16 slots; under PE32 a BaseOfData and 32-bit ImageBase and sizes; under PE32+ no BaseOfData; under any other magic zero format-specific fields. `EncodeOptionalHeader` lays it out at the offsets above. Decoding those bytes, whatever follows them, gives back that header. |
| OptionalHeaders.OptionalHeaderPrefix | Winspect.Formats.PE/Headers/OptionalHeader.cs:65-125 | Nothing after the last slot is read. |
| SectionHeaders.DecodeSectionHeader | Winspect.Formats.PE/Headers/SectionHeader.cs:29-45 | Below 40 bytes the result is ArgumentException. Otherwise the name holds no NUL and at most 8 units. |
| SectionHeaders.SectionHeaderRoundTrip | Winspect.Formats.PE/Headers/SectionHeader.cs:29-45 | Every numeric field reads back. The name reads back as the 8 name bytes decoded, with NULs removed and trimmed. |
| SectionHeaders.FirstContaining | Winspect.Formats.PE/Headers/SectionHeader.cs:60-71 | A section that is found belongs to the table and contains the RVA. |
| SectionHeaders.FirstContainingNone | Winspect.Formats.PE/Headers/SectionHeader.cs:60-71 | Nothing is found exactly when no section contains the RVA. |
| SectionHeaders.FirstContainingIsFirst | Winspect.Formats.PE/Headers/SectionHeader.cs:62-67 | The section found is the first match in table order: every earlier section misses. |
| SectionHeaders.FindSection | Winspect.Formats.PE/Headers/SectionHeader.cs:60-71 | The foreach loop gives the first containing section. |
| SectionHeaders.RvaToFileOffset | Winspect.Formats.PE/Headers/SectionHeader.cs:88-95 | The result is ArgumentException exactly when no section contains the RVA. |
| SectionHeaders.RvaToFileOffsetDisplacement | Winspect.Formats.PE/Headers/SectionHeader.cs:88-95 | For a found section the upper bound did not wrap and the displacement is below the extent. The offset is PointerToRawData plus the displacement, modulo 2^32, and mapping back recovers the RVA. |
| SectionHeaders.ContainedDisplacement | Winspect.Formats.PE/Headers/SectionHeader.cs:64-65 | The containment test passes only below an upper bound that did not wrap. |
| Images.BytesAt | Winspect.Formats.PE/Directories/Debug/DebugDirectory.cs:32-33 | Seeking to an RVA and reading n bytes succeeds exactly when the RVA maps and either n is 0 or n bytes follow the file offset; a zero-length read succeeds even past the end. The n bytes read are those at the file offset. |
| Images.StringAtRva | Winspect.Formats.PE/Directories/Import/ImportedLibrary.cs:54-58 | The string at an RVA succeeds exactly when the RVA maps and a terminated string follows. It holds no NUL. |
| StreamHelper.ReadExactly | Winspect.Formats.PE/PortableExecutable.cs:40 | Succeeds exactly when n is 0 or n bytes remain. A zero-length read gives no bytes at any position, even past the end; otherwise the result is the n bytes `data[pos..pos + n]`. A failure is EndOfStream. |
| StreamHelper.Width | Winspect.Formats.PE/StreamHelper.cs:15 | A code unit takes 1 byte in ASCII and 2 in UTF-16. |
| StreamHelper.StringAt | Winspect.Formats.PE/StreamHelper.cs:20-26 | A read string holds no NUL. The position after it is just past the terminator and inside the data. |
| StreamHelper.CharsAt | Winspect.Formats.PE/StreamHelper.cs:17-18 | `ReadChars(length)` gives at most `length` characters and never moves backwards. |
| StreamHelper.ReadString | Winspect.Formats.PE/StreamHelper.cs:13-29 | Branches on whether a length was given and gives the specified read. |
| StreamHelper.ReadChars | Winspect.Formats.PE/StreamHelper.cs:18 | The loop gives the specified fixed-length read. |
| StreamHelper.ReadToNul | Winspect.Formats.PE/StreamHelper.cs:20-26 | The StringBuilder loop gives the specified NUL-terminated read, or EndOfStream. |
| StreamHelper.StringAtAscii | Winspect.Formats.PE/StreamHelper.cs:20-26 | ASCII text followed by a NUL reads back as that text, whatever surrounds it. |
| PortableExecutables.OptionalHeaderAt | Winspect.Formats.PE/PortableExecutable.cs:56-58 | An optional header that is read has its 16 slots. |
| PortableExecutables.HeadersAt | Winspect.Formats.PE/PortableExecutable.cs:39-66 | Accepted headers carry a valid optional header. |
| PortableExecutables.ReadHeaders | Winspect.Formats.PE/PortableExecutable.cs:39-66 | The constructor's header reads, step by step, with the section loop, give the specified headers. |
| PortableExecutables.ReadSections | Winspect.Formats.PE/PortableExecutable.cs:62-66 | The section loop reads NumberOfSections 40-byte headers in turn. |
| PortableExecutables.LoadDataDirectory | Winspect.Formats.PE/PortableExecutable.cs:202-209 | An empty slot gives null. Otherwise the result is the loader's directory, or its exception. |
| PortableExecutables.Open | Winspect.Formats.PE/PortableExecutable.cs:37-74 | The constructor gives the specified image. |
| PortableExecutables.NtSignatureBytes | Winspect.Formats.PE/PortableExecutable.cs:48-51 | The four bytes read as ASCII equal "PE\0\0" exactly when they are 0x50, 0x45, 0, 0. |
| PortableExecutables.HeadersRefused | Winspect.Formats.PE/PortableExecutable.cs:43-51 | An image that does not start with "MZ" is refused as a bad image. So is one without "PE\0\0" at `e_lfanew`. |
| PortableExecutables.HeadersAtParts | Winspect.Formats.PE/PortableExecutable.cs:39-66 | Accepted headers are the results of the five reads, with both signature checks passed. |
| PortableExecutables.HeadersLayout | Winspect.Formats.PE/PortableExecutable.cs:39-58 | Accepted headers sit where they are read: the DOS header in the first 64 bytes and "PE\0\0" at `e_lfanew`. The file header is in the 20 bytes after that, and the optional header in the next SizeOfOptionalHeader bytes. |
| PortableExecutables.SectionTableLayout | Winspect.Formats.PE/PortableExecutable.cs:60-66 | There are NumberOfSections headers, and header i is decoded from the 40 bytes at the table start plus 40i. |
| PortableExecutables.SectionsRead | Winspect.Formats.PE/PortableExecutable.cs:62-66 | The section loop yields one header per index, each decoded from its own 40 bytes. |
| PortableExecutables.SectionAtBytes | Winspect.Formats.PE/PortableExecutable.cs:64-65 | Header i is the 40 bytes at `base + 40i`, decoded. |
| PortableExecutables.ReadPortableExecutableHeaders | Winspect.Formats.PE/PortableExecutable.cs:37-74 | A constructed image carries the accepted headers. It keeps the stream exactly when it takes ownership. |
| PortableExecutables.ReadPortableExecutableDirectories | Winspect.Formats.PE/PortableExecutable.cs:68-70 | A directory is null exactly when its slot is empty. Otherwise it is what that directory's loader returns for the image. |
| PortableExecutables.ReadPortableExecutableFails | Winspect.Formats.PE/PortableExecutable.cs:68-70 | Accepted headers are refused only by a non-empty directory whose loader fails. The first failure is the exception reported, in the order export, import, resource. |
| DebugDirectories.DecodeDebugEntry | Winspect.Formats.PE/Directories/Debug/DebugDirectoryEntry.cs:22-36 | Decoding succeeds exactly when at least 28 bytes are given. |
| DebugDirectories.DebugEntryReadsTwentyEight | Winspect.Formats.PE/Directories/Debug/DebugDirectoryEntry.cs:22-36 | Only the first 28 bytes are read. |
| DebugDirectories.DebugEntryRoundTrip | Winspect.Formats.PE/Directories/Debug/DebugDirectoryEntry.cs:27-34 | The eight fields read back from their 28-byte encoding, whatever follows it. The type keeps any 32-bit value. |
| DebugDirectories.LoadDebugDirectory | Winspect.Formats.PE/Directories/Debug/DebugDirectory.cs:20-40 | An empty slot is InvalidOperationException. |
| DebugDirectories.LoadDirectory | Winspect.Formats.PE/Directories/Debug/DebugDirectory.cs:20-40 | The entry loop gives the specified directory. |
| DebugDirectories.DebugEntryAtSpec | Winspect.Formats.PE/Directories/Debug/DebugDirectory.cs:32-35 | Entry i comes from the 28 bytes at `(uint)(VA + 28i)`. It fails exactly when those bytes cannot be read. |
| DebugDirectories.LoadDebugDirectorySpec | Winspect.Formats.PE/Directories/Debug/DebugDirectory.cs:22-39 | A non-empty slot loads exactly when each of its `Size / 28` entries can be read. The result holds those entries in order, and a Size below 28 gives no entries. |
| DebugDirectories.DecodeCodeView | Winspect.Formats.PE/Directories/Debug/CodeViewInfo.cs:29-46 | Decoding succeeds exactly when at least 24 bytes are given, else ArgumentException. |
| DebugDirectories.CodeViewRoundTrip | Winspect.Formats.PE/Directories/Debug/CodeViewInfo.cs:29-46 | The signature, GUID, age and file name come back: the signature and name as ASCII text, any four signature bytes accepted. The file name is empty exactly when nothing follows the age. |
| DebugDirectories.CodeViewKeepsNul | Winspect.Formats.PE/Directories/Debug/CodeViewInfo.cs:44 | Every ASCII byte after offset 24, a NUL included, is kept in the file name. |
| ExportDirectories.DecodeExportHeader | Winspect.Formats.PE/Directories/Export/ExportDirectory.cs:37-54 | Decoding succeeds exactly when 40 bytes are given. The name string and the exports are not read yet. |
| ExportDirectories.ExportHeaderRoundTrip | Winspect.Formats.PE/Directories/Export/ExportDirectory.cs:42-52 | The eleven fields read back from their 40-byte encoding. |
| ExportDirectories.NamesFromStep | Winspect.Formats.PE/Directories/Export/ExportDirectory.cs:77-94 | One successful iteration reads the ordinal, the pointer and the string, meets neither key already present, and continues with both maps extended. |
| ExportDirectories.NamesFromGrows | Winspect.Formats.PE/Directories/Export/ExportDirectory.cs:88-92 | The name pass only adds keys. Entries already present survive with their values. |
| ExportDirectories.NamesFromRecords | Winspect.Formats.PE/Directories/Export/ExportDirectory.cs:79-92 | Entry j records its ordinal with hint `(ushort)j` and with the RVA and string at its name pointer. |
| ExportDirectories.NamesFromDistinct | Winspect.Formats.PE/Directories/Export/ExportDirectory.cs:88 | A repeated ordinal fails `hints.Add`, so the entries of a successful pass carry distinct ordinals. |
| ExportDirectories.NamesFromOnly | Winspect.Formats.PE/Directories/Export/ExportDirectory.cs:87-88 | Every hint key the pass adds is the ordinal of one of its entries. |
| ExportDirectories.NamesFromSameKeys | Winspect.Formats.PE/Directories/Export/ExportDirectory.cs:88-92 | The name map and the hint map cover the same ordinals. |
| ExportDirectories.ForwarderAt | Winspect.Formats.PE/Directories/Export/ExportDirectory.cs:107-111 | A forwarder is read exactly when the function RVA lies inside the directory, and it is the ASCII string there. A failure can only come from that read. |
| ExportDirectories.ExportAt | Winspect.Formats.PE/Directories/Export/ExportDirectory.cs:100-125 | The export of slot i has ordinal `(ushort)(i + Base)` and the RVA stored in the slot. It is a forwarder exactly for an RVA inside the directory. It has a name, or a hint, exactly when the name pass recorded its ordinal, and then it is that value. |
| ExportDirectories.BiasedOrdinals | Winspect.Formats.PE/Directories/Export/ExportDirectory.cs:98-105 | One key per remaining slot, key k being `(ushort)(i + k + Base)`. |
| ExportDirectories.FunctionsFromValid | Winspect.Formats.PE/Directories/Export/ExportDirectory.cs:96-127 | A successful function pass keeps the dictionary well formed. |
| ExportDirectories.FunctionsFromKeys | Winspect.Formats.PE/Directories/Export/ExportDirectory.cs:98-127 | A successful function pass appends one key per slot, in slot order. |
| ExportDirectories.FunctionsFromKeeps | Winspect.Formats.PE/Directories/Export/ExportDirectory.cs:122-125 | An entry already in the dictionary survives the rest of the pass unchanged. |
| ExportDirectories.FunctionsFromRecords | Winspect.Formats.PE/Directories/Export/ExportDirectory.cs:122-125 | Slot j's export is stored under its ordinal. |
| ExportDirectories.FunctionsFromEntry | Winspect.Formats.PE/Directories/Export/ExportDirectory.cs:105-125 | From the empty dictionary, slot j's export is stored under `(ushort)(j + Base)`. |
| ExportDirectories.HeaderAt | Winspect.Formats.PE/Directories/Export/ExportDirectory.cs:62-66 | The header is read exactly when 40 bytes can be read at the directory's RVA, and is their decoding. |
| ExportDirectories.LoadExportDirectory | Winspect.Formats.PE/Directories/Export/ExportDirectory.cs:56-130 | An empty slot is InvalidOperationException. A loaded directory has its name string and its exports. |
| ExportDirectories.ExportReaderKeyed | Winspect.Formats.PE/Directories/Export/ExportDirectory.cs:105 | Every export the reader yields is keyed by the biased ordinal of its slot. |
| ExportDirectories.LoadExportDirectoryKeys | Winspect.Formats.PE/Directories/Export/ExportDirectory.cs:56-130 | A loaded table is the header at the directory's RVA with the module name read at its Name RVA. Its keys are the biased ordinals of the NumberOfFunctions slots, in slot order. |
| ExportDirectories.LoadExportDirectoryPasses | Winspect.Formats.PE/Directories/Export/ExportDirectory.cs:56-130 | A successful load went through the header read, the name pass and the function pass, each successful. The exports are the function pass's dictionary. |
| ExportDirectories.ExportTableEntry | Winspect.Formats.PE/Directories/Export/ExportDirectory.cs:98-127 | The export stored under slot j's biased ordinal is slot j's decoded export. |
| ExportDirectories.NameTablesRecord | Winspect.Formats.PE/Directories/Export/ExportDirectory.cs:77-94 | Name-table entry k maps its ordinal to hint k and to the string at its name pointer. |
| ExportDirectories.NameTablesKeys | Winspect.Formats.PE/Directories/Export/ExportDirectory.cs:77-94 | An ordinal has a name exactly when it has a hint, which is exactly when some name-table entry carries it. |
| ExportDirectories.NameTablesDistinct | Winspect.Formats.PE/Directories/Export/ExportDirectory.cs:88 | A successful name pass met no ordinal twice. |
| ExportDirectories.ReadNames | Winspect.Formats.PE/Directories/Export/ExportDirectory.cs:74-94 | The names loop gives the specified pair of maps. |
| ExportDirectories.ReadFunctions | Winspect.Formats.PE/Directories/Export/ExportDirectory.cs:96-127 | The functions loop gives the specified dictionary. |
| ExportDirectories.LoadDirectory | Winspect.Formats.PE/Directories/Export/ExportDirectory.cs:56-130 | The loader gives the specified directory. |
| ExportNames.Named | Winspect.Formats.PE/Directories/Export/ExportName.cs:16-19 | A name identity carries the name and no ordinal. |
| ExportNames.ByOrdinal | Winspect.Formats.PE/Directories/Export/ExportName.cs:21-24 | An ordinal identity carries the ordinal and no name. |
| ExportNames.EqualsIsIdentity | Winspect.Formats.PE/Directories/Export/ExportName.cs:30-36 | The Equals override agrees with value equality, so it is an equivalence. |
| ExportNames.ConstructorsDistinct | Winspect.Formats.PE/Directories/Export/ExportName.cs:16-24 | A name never equals an ordinal, and each constructor is injective. |
| ExportNames.OfExport | Winspect.Formats.PE/Directories/Export/ExportName.cs:41-44 | A named export is identified by its name, any other by its ordinal. |
| ExportNames.OfExportIdentity | Winspect.Formats.PE/Directories/Export/ExportName.cs:41-44 | Named exports share an identity exactly when their names agree, whatever their ordinals. Unnamed ones share one exactly when their ordinals agree, and a named export never shares one with an unnamed export. |
| ExportNames.OfImport | Winspect.Formats.PE/Directories/Export/ExportName.cs:46-50 | An import is identified by its name, else by its ordinal. With neither the result is ArgumentException. |
| ExportNames.SameIdentityAcrossTables | Winspect.Formats.PE/Directories/Export/ExportName.cs:41-50 | An import and an export with the same name, or unnamed with the same ordinal, get the same identity. |
| ImportDirectories.LibrariesFromAgree | Winspect.Formats.PE/Directories/Import/ImportDirectory.cs:31-42 | The descriptor walk depends only on what the reader yields: two readers that agree give the same dictionary, or the same failure. |
| ImportDirectories.LibrariesFromValid | Winspect.Formats.PE/Directories/Import/ImportDirectory.cs:31-42 | A successful descriptor walk keeps the dictionary well formed. |
| ImportDirectories.LibrariesFromStep | Winspect.Formats.PE/Directories/Import/ImportDirectory.cs:36-40 | A named descriptor that is added moves the walk on to the next one. |
| ImportDirectories.LibrariesFromKeeps | Winspect.Formats.PE/Directories/Import/ImportDirectory.cs:31-42 | A successful walk keeps the entries it had, with their keys first in order. |
| ImportDirectories.LibrariesFromEnd | Winspect.Formats.PE/Directories/Import/ImportDirectory.cs:36-37 | A successful walk adds one entry per descriptor and stops at a sentinel. |
| ImportDirectories.LibrariesFromEntry | Winspect.Formats.PE/Directories/Import/ImportDirectory.cs:33-40 | Entry m of the walk is the descriptor at the matching index, keyed by its name. |
| ImportDirectories.LibraryTableContents | Winspect.Formats.PE/Directories/Import/ImportDirectory.cs:27-44 | From the first descriptor, the dictionary holds, in order, one entry per descriptor before the first sentinel, keyed by the descriptor's name. A repeated name fails the load. |
| ImportDirectories.CollectLibraries | Winspect.Formats.PE/Directories/Import/ImportDirectory.cs:31-42 | The `for (;;)` loop gives the specified walk. |
| ImportDirectories.LoadImportDirectory | Winspect.Formats.PE/Directories/Import/ImportDirectory.cs:21-45 | An empty slot is InvalidOperationException. A loaded directory has its Imports dictionary. |
| ImportDirectories.LoadDirectory | Winspect.Formats.PE/Directories/Import/ImportDirectory.cs:21-45 | The loader gives the specified directory. |
| ImportDirectories.DescriptorsNamed | Winspect.Formats.PE/Directories/Import/ImportedLibrary.cs:54-58 | Every loaded descriptor has its name read, so the `Name != null` test always passes. |
| ImportDirectories.LoadImportDirectoryContents | Winspect.Formats.PE/Directories/Import/ImportDirectory.cs:21-45 | A loaded directory holds, in order, the descriptors at `VA + 20m` before the first sentinel, each keyed by its library name. |
| ImportedLibraries.ImportedLibrary.ThunkTable | Winspect.Formats.PE/Directories/Import/ImportedLibrary.cs:61-62 | The table walked is OriginalFirstThunk, or FirstThunk when that is zero. |
| ImportedLibraries.DecodeImportDescriptor | Winspect.Formats.PE/Directories/Import/ImportedLibrary.cs:29-40 | Decoding succeeds exactly when 20 bytes are given, else ArgumentException. The name string and imports are not read yet. |
| ImportedLibraries.ImportDescriptorRoundTrip | Winspect.Formats.PE/Directories/Import/ImportedLibrary.cs:34-38 | The five fields read back from their encoding. |
| ImportedLibraries.SentinelIsZeroBytes | Winspect.Formats.PE/Directories/Import/ImportedLibrary.cs:46-52 | A descriptor is the sentinel exactly when its twenty bytes are all zero. |
| ImportedLibraries.ThunkWidth | Winspect.Formats.PE/Directories/Import/ImportedLibrary.cs:64 | Entries are 8 bytes wide exactly in a PE32+ image, and 4 bytes otherwise. |
| ImportedLibraries.NameImportAt | Winspect.Formats.PE/Directories/Import/ImportedLibrary.cs:110-117 | A hint/name import has a name and a hint but no ordinal. |
| ImportedLibraries.NameImportAtSpec | Winspect.Formats.PE/Directories/Import/ImportedLibrary.cs:110-117 | The pair is read exactly when the RVA maps, two hint bytes follow and a NUL-terminated name comes after them. The hint is the word there and the name the ASCII text after it. |
| ImportedLibraries.GetOrdinalOrName | Winspect.Formats.PE/Directories/Import/ImportedLibrary.cs:87-118 | The zero entry gives nothing, and only it does. A flagged entry gives the low 16 bits as the ordinal. Any other entry gives the hint/name pair at its low 31 bits, also for 64-bit entries. |
| ImportedLibraries.OrdinalThunkValue | Winspect.Formats.PE/Directories/Import/ImportedLibrary.cs:89-102 | An ordinal entry as a linker writes it is the flag bit plus the ordinal, and it is flagged. |
| ImportedLibraries.OrdinalThunkRoundTrip | Winspect.Formats.PE/Directories/Import/ImportedLibrary.cs:100-108 | An ordinal entry decodes to that ordinal alone, at either width. |
| ImportedLibraries.OrdinalEntryDecodes | Winspect.Formats.PE/Directories/Import/ImportedLibrary.cs:104-108 | A flagged entry whose value is a flag bit plus an ordinal decodes to that ordinal. |
| ImportedLibraries.NameThunkValue | Winspect.Formats.PE/Directories/Import/ImportedLibrary.cs:89-102 | A name entry below 2^31 is the RVA itself, unflagged. |
| ImportedLibraries.NameThunkRoundTrip | Winspect.Formats.PE/Directories/Import/ImportedLibrary.cs:110-117 | A nonzero name entry below 2^31 decodes to the hint/name pair at that RVA, at either width. |
| ImportedLibraries.NameEntryDecodes | Winspect.Formats.PE/Directories/Import/ImportedLibrary.cs:110-117 | An unflagged entry holding a nonzero RVA below 2^31 decodes through the pair at that RVA. |
| ImportedLibraries.ThunksFromAgree | Winspect.Formats.PE/Directories/Import/ImportedLibrary.cs:67-80 | The thunk walk depends only on the entries' decodings: two readers that agree give the same functions, or the same failure. |
| ImportedLibraries.ThunksFromEnd | Winspect.Formats.PE/Directories/Import/ImportedLibrary.cs:67-80 | A successful walk keeps what it had and stops at an entry that decodes to nothing. |
| ImportedLibraries.ThunksFromEntry | Winspect.Formats.PE/Directories/Import/ImportedLibrary.cs:67-80 | Element k of the walk is the decoding of its entry, and is not the terminator. |
| ImportedLibraries.ThunkTableContents | Winspect.Formats.PE/Directories/Import/ImportedLibrary.cs:65-82 | From the start of the table, the functions are the decodings of the entries before the first terminator, in table order. |
| ImportedLibraries.ThunksFromComplete | Winspect.Formats.PE/Directories/Import/ImportedLibrary.cs:65-82 | Conversely, n decodable entries followed by a terminator walk to exactly those functions when the fuel exceeds n. |
| ImportedLibraries.CollectThunks | Winspect.Formats.PE/Directories/Import/ImportedLibrary.cs:65-82 | The `for (;;)` loop gives the specified walk. |
| ImportedLibraries.LoadedDescriptor | Winspect.Formats.PE/Directories/Import/ImportedLibrary.cs:42-85 | Fewer than 20 bytes give ArgumentException, and the all-zero descriptor gives null, exactly. Otherwise the descriptor keeps its fields, its name is the ASCII string at its Name RVA, and its imports are the walk of its thunk table. |
| ImportedLibraries.LoadDescriptor | Winspect.Formats.PE/Directories/Import/ImportedLibrary.cs:42-85 | The method gives the specified descriptor. |
| ImportedLibraries.ThunkTableKinds | Winspect.Formats.PE/Directories/Import/ImportedLibrary.cs:72-78 | Every function a loaded table holds is by ordinal only, or by name with a hint. |
| DelayImportDirectories.LoadDelayImportDirectory | Winspect.Formats.PE/Directories/DelayImport/DelayImportDirectory.cs:21-45 | In either reading of `LoadDescriptor` (`AsWritten` is the code, `Intended` the corrected reading): an empty slot is InvalidOperationException, and a loaded directory has its Imports dictionary. |
| DelayImportDirectories.LoadDirectory | Winspect.Formats.PE/Directories/DelayImport/DelayImportDirectory.cs:21-45 | The loader gives the specified directory, in the reading it is given. |
| DelayImportDirectories.DelayDescriptorsNamed | Winspect.Formats.PE/Directories/DelayImport/DelayImportedLibrary.cs:83-87 | In either reading, every loaded descriptor has its DLL name read. As written, a name that cannot be read fails the load, so no descriptor is left unnamed. |
| DelayImportDirectories.LoadDelayImportDirectoryContents | Winspect.Formats.PE/Directories/DelayImport/DelayImportDirectory.cs:21-45 | In either reading, a loaded directory holds, in order, the descriptors that reading loads at `VA + 32m` before the first sentinel, each keyed by its DLL name. |
| DelayImportDirectories.DescriptorReadingsAgree | Winspect.Formats.PE/Directories/DelayImport/DelayImportDirectory.cs:29-36 | A descriptor slot holding an RVA-based descriptor or the sentinel loads the same in both readings. |
| DelayImportDirectories.LoadReadingsAgree | Winspect.Formats.PE/Directories/DelayImport/DelayImportDirectory.cs:21-45 | A directory whose descriptors are all RVA-based loads the same as written and as intended. The readings differ only on VA-based descriptors. |
| DelayImportedLibraries.DelayImportedLibrary.GetRva | Winspect.Formats.PE/Directories/DelayImport/DelayImportedLibrary.cs:49-52 | An RVA-based descriptor keeps the low 32 bits. Otherwise the result plus ImageBase equals the value, modulo 2^32. |
| DelayImportedLibraries.DecodeDelayDescriptor | Winspect.Formats.PE/Directories/DelayImport/DelayImportedLibrary.cs:33-47 | Decoding succeeds exactly when 32 bytes are given, else ArgumentException. |
| DelayImportedLibraries.DelayDescriptorRoundTrip | Winspect.Formats.PE/Directories/DelayImport/DelayImportedLibrary.cs:38-45 | The eight fields read back from their encoding. |
| DelayImportedLibraries.GetRvaOfVa | Winspect.Formats.PE/Directories/DelayImport/DelayImportedLibrary.cs:49-52 | A VA stored by a VA-based descriptor converts back to the RVA it was made from. |
| DelayImportedLibraries.RebasedEntry | Winspect.Formats.PE/Directories/DelayImport/DelayImportedLibrary.cs:54-66 | The rewritten buffer keeps its width. |
| DelayImportedLibraries.RebasedEntryValue | Winspect.Formats.PE/Directories/DelayImport/DelayImportedLibrary.cs:54-66 | An RVA-based descriptor leaves the buffer unchanged. Otherwise the buffer reads as the converted value, at either width. |
| DelayImportedLibraries.RebaseInPlace | Winspect.Formats.PE/Directories/DelayImport/DelayImportedLibrary.cs:54-66 | Rewrites the array in place to the rebased entry. |
| DelayImportedLibraries.NameReadRva | Winspect.Formats.PE/Directories/DelayImport/DelayImportedLibrary.cs:83 | For an RVA-based descriptor the name is read at the DllName field. The intended reading converts a VA first. |
| DelayImportedLibraries.DelayThunk | Winspect.Formats.PE/Directories/DelayImport/DelayImportedLibrary.cs:102-109 | In the intended reading the zero entry ends the table and a flagged entry is its low 16 bits. Any other entry is the hint/name pair at its converted RVA. |
| DelayImportedLibraries.ReadingsAgreeWhenRvaBased | Winspect.Formats.PE/Directories/DelayImport/DelayImportedLibrary.cs:56 | For an RVA-based descriptor both readings equal the ordinary thunk decoding and read the name at the same RVA. |
| DelayImportedLibraries.TerminatorMissedAsWritten | Winspect.Formats.PE/Directories/DelayImport/DelayImportedLibrary.cs:102-109 | As written, the zero entry of a VA-based 32-bit image based at 0x400000 decodes to ordinal 0 and does not end the table. |
| DelayImportedLibraries.TerminatorKeptAsIntended | Winspect.Formats.PE/Directories/DelayImport/DelayImportedLibrary.cs:102-109 | As intended, the zero entry ends the table and an ordinal entry decodes to its ordinal, at either width and whatever the base. |
| DelayImportedLibraries.IntendedOrdinal | Winspect.Formats.PE/Directories/DelayImport/DelayImportedLibrary.cs:103-108 | As intended, a flagged entry holding a flag bit plus an ordinal decodes to that ordinal. |
| DelayImportedLibraries.NameMisreadAsWritten | Winspect.Formats.PE/Directories/DelayImport/DelayImportedLibrary.cs:83 | As written, a VA-based descriptor with its name at RVA 0x1000 under base 0x400000 reads the name at 0x401000. No section maps there, so the load fails with ArgumentException. |
| DelayImportedLibraries.NameReadAsIntended | Winspect.Formats.PE/Directories/DelayImport/DelayImportedLibrary.cs:83-87 | As intended, the same descriptor's name is read at RVA 0x1000, file offset 0x400. |
| DelayImportedLibraries.LoadedDelayDescriptor | Winspect.Formats.PE/Directories/DelayImport/DelayImportedLibrary.cs:68-118 | Fewer than 32 bytes give ArgumentException, and the all-zero descriptor gives null, exactly. Otherwise DllName.RVA is converted and the name read at the reading's RVA. The imports are the walk of the name table. |
| DelayImportedLibraries.LoadDescriptor | Winspect.Formats.PE/Directories/DelayImport/DelayImportedLibrary.cs:68-118 | The method gives the specified descriptor. |
| DelayImportedLibraries.LoadedReadingsAgree | Winspect.Formats.PE/Directories/DelayImport/DelayImportedLibrary.cs:68-118 | An RVA-based descriptor, or the sentinel, loads the same in both readings: the same name and the same imports. |
| DelayImportedLibraries.ThunkReadingsAgree | Winspect.Formats.PE/Directories/DelayImport/DelayImportedLibrary.cs:102-109 | For an RVA-based descriptor, name-table entry j decodes the same in both readings. |
| DelayImportedLibraries.IntendedNameAtStoredRva | Winspect.Formats.PE/Directories/DelayImport/DelayImportedLibrary.cs:84-87 | As intended, the stored DllName pair is consistent: the name is the string at the stored RVA. |
| DelayImportedLibraries.DelayThunkTableKinds | Winspect.Formats.PE/Directories/DelayImport/DelayImportedLibrary.cs:105-111 | In either reading, every function of a walked table is by ordinal only, or by name with a hint. |
| ResourceIds.Numeric | Winspect.Formats.PE/Directories/Resource/ResourceId.cs:18-21 | A numeric id carries the number and no string. |
| ResourceIds.Named | Winspect.Formats.PE/Directories/Resource/ResourceId.cs:23-26 | A string id carries the string and no number. |
| ResourceIds.ToStringSpec | Winspect.Formats.PE/Directories/Resource/ResourceId.cs:28-32 | A numeric id prints as decimal digits that parse back to the number. A string id prints as itself, and an id with neither prints empty. |
| ResourceIds.EqualsIsIdentity | Winspect.Formats.PE/Directories/Resource/ResourceId.cs:38-44 | The Equals override is value equality. A number never equals a string, and each constructor is injective. |
| ResourceIds.OfType | Winspect.Formats.PE/Directories/Resource/ResourceId.cs:48 | A ResourceType converts to the numeric id of its code. |
| ResourceIds.TypeIdsDistinct | Winspect.Formats.PE/Directories/Resource/ResourceType.cs:18-120 | Distinct resource types give distinct ids. GroupCursor and GroupIcon are Cursor + 11 and Icon + 11. |
| ResourceTrees.DecodeDirectory | Winspect.Formats.PE/Directories/Resource/ResourceDirectory.cs:36-48 | Decoding succeeds exactly when 16 bytes are given, else ArgumentException. Parent, RVA and Entries are not set yet. |
| ResourceTrees.DirectoryRoundTrip | Winspect.Formats.PE/Directories/Resource/ResourceDirectory.cs:41-46 | The six header fields read back from their encoding. |
| ResourceTrees.DecodeEntry | Winspect.Formats.PE/Directories/Resource/ResourceDirectoryEntry.cs:27-35 | Decoding succeeds exactly when 8 bytes are given, else ArgumentException. The id is not decoded yet. |
| ResourceTrees.EntryRoundTrip | Winspect.Formats.PE/Directories/Resource/ResourceDirectoryEntry.cs:32-33 | The raw id and OffsetToData read back from their encoding. |
| ResourceTrees.DecodeDataEntry | Winspect.Formats.PE/Directories/Resource/ResourceDataEntry.cs:26-36 | Decoding succeeds exactly when 16 bytes are given, else ArgumentException. |
| ResourceTrees.DataEntryRoundTrip | Winspect.Formats.PE/Directories/Resource/ResourceDataEntry.cs:31-34 | The four fields read back from their encoding. |
| ResourceTrees.Top | Winspect.Formats.PE/Directories/Resource/ResourceDirectory.cs:52-55 | The walk up the Parent chain ends at a directory without a parent, and a root is its own top. |
| ResourceTrees.RootRva | Winspect.Formats.PE/Directories/Resource/ResourceDirectory.cs:50-61 | The root RVA is the top directory's RVA. Without one the result is InvalidOperationException. |
| ResourceTrees.RootRvaOfChild | Winspect.Formats.PE/Directories/Resource/ResourceDirectory.cs:50-61 | A child has the root RVA of its parent, and a root has its own RVA. |
| ResourceTrees.GetRootDirectoryRva | Winspect.Formats.PE/Directories/Resource/ResourceDirectory.cs:50-61 | The `while` loop gives the specified root RVA. |
| ResourceTrees.NameAt | Winspect.Formats.PE/Directories/Resource/ResourceDirectoryEntry.cs:59-64 | A string id is read exactly when its RVA maps and the length word fits. It is at most that many UTF-16 units, read by `ReadChars` after the length. |
| ResourceTrees.SourceOf | Winspect.Formats.PE/Directories/Resource/ResourceDataEntry.cs:61 | A data entry's image is the section table plus the stream, which it has exactly when the image owns one. |
| ResourceTrees.LoaderOfReads | Winspect.Formats.PE/Directories/Resource/ResourceDirectoryEntry.cs:45-46 | The loader reads bytes and names at RVAs through the section table. |
| ResourceTrees.IdAt | Winspect.Formats.PE/Directories/Resource/ResourceDirectoryEntry.cs:53-70 | Without the high bit the id is the low 16 bits as a number. With it, the id is the string at the low 31 bits plus the root RVA, or that read's error. |
| ResourceTrees.IdKinds | Winspect.Formats.PE/Directories/Resource/ResourceDirectoryEntry.cs:54-58 | A raw id below 2^31 gives its low 16 bits whatever the bits above them. Setting the high bit makes it a string id. |
| ResourceTrees.ReadData | Winspect.Formats.PE/Directories/Resource/ResourceDataEntry.cs:38-51 | Without an image or a stream the result is InvalidOperationException. Then a Size above Array.MaxLength (0x7FFFFFC7) is OutOfMemoryException, whatever the RVA. Otherwise the result is the Size bytes at the data's file offset; a Size of 0 gives no bytes wherever a mapped offset lies, past the end of the stream included. |
| ResourceTrees.DataEntryAtSpec | Winspect.Formats.PE/Directories/Resource/ResourceDataEntry.cs:53-64 | A data entry is the 16 bytes at `rva + offset`, decoded. It carries its parent and its image. |
| ResourceTrees.DirectoryHeaderAtSpec | Winspect.Formats.PE/Directories/Resource/ResourceDirectory.cs:63-71 | A directory header is the 16 bytes at `rva + offset`, decoded. It carries its parent and the RVA `rva + offset`. |
| ResourceTrees.DirectoryAtHeader | Winspect.Formats.PE/Directories/Resource/ResourceDirectory.cs:63-85 | A header failure escapes. A loaded directory is its header with Entries filled. |
| ResourceTrees.EntryAtHeader | Winspect.Formats.PE/Directories/Resource/ResourceDirectoryEntry.cs:37-105 | A loaded entry is its header with the child added. It has a data entry exactly without the high bit of OffsetToData, and a subdirectory exactly with it. |
| ResourceTrees.KeyedLoopValid | Winspect.Formats.PE/Directories/Resource/ResourceDirectory.cs:73-82 | The entry loop keeps the dictionary well formed. |
| ResourceTrees.KeyedLoopKeep | Winspect.Formats.PE/Directories/Resource/ResourceDirectory.cs:74-82 | A successful loop adds one key per entry after those it had. |
| ResourceTrees.KeyedLoopItems | Winspect.Formats.PE/Directories/Resource/ResourceDirectory.cs:80 | Entries already present survive. |
| ResourceTrees.KeyedLoopFirst | Winspect.Formats.PE/Directories/Resource/ResourceDirectory.cs:76-80 | The first entry read is stored under its id. |
| ResourceTrees.KeyedLoopEntry | Winspect.Formats.PE/Directories/Resource/ResourceDirectory.cs:74-82 | Key m is the id of entry m, and its value is that entry. |
| ResourceTrees.KeyedLoopDistinct | Winspect.Formats.PE/Directories/Resource/ResourceDirectory.cs:80 | A repeated id fails `Entries.Add`, so the entries of a successful loop carry distinct ids. |
| ResourceTrees.DirectoryEntries | Winspect.Formats.PE/Directories/Resource/ResourceDirectory.cs:73-82 | A loaded directory's Entries is the loop over its `NumberOfNamedEntries + NumberOfIdEntries` entries. |
| ResourceTrees.EntriesRead | Winspect.Formats.PE/Directories/Resource/ResourceDirectory.cs:74-82 | Key m is entry m's decoded id, and its value is entry m. |
| ResourceTrees.LoadedIdsDistinct | Winspect.Formats.PE/Directories/Resource/ResourceDirectory.cs:80 | Two entries of a loaded directory carry distinct ids. |
| ResourceTrees.EntryAtSpec | Winspect.Formats.PE/Directories/Resource/ResourceDirectoryEntry.cs:37-105 | Entry i is the 8 bytes at `RVA + 16 + 8i`, with its parent set and its id decoded against the root RVA. A data entry is loaded at `root + OffsetToData` and a subdirectory at `root + low 31 bits`. |
| ResourceTrees.EntryChildShareRoot | Winspect.Formats.PE/Directories/Resource/ResourceDirectoryEntry.cs:91-97 | A subdirectory has the entry's parent as its parent and the same root RVA. Its RVA is the root RVA plus the low 31 bits of OffsetToData. |
| ResourceTrees.LoadResourceDirectory | Winspect.Formats.PE/Directories/Resource/ResourceDirectory.cs:87-94 | An empty slot is InvalidOperationException. A loaded root has no parent, its RVA is the slot's RVA, and its header is the 16 bytes there. |
| ResourceTrees.LoadDataEntry | Winspect.Formats.PE/Directories/Resource/ResourceDataEntry.cs:53-64 | The method gives the specified data entry. |
| ResourceTrees.LoadDirectory | Winspect.Formats.PE/Directories/Resource/ResourceDirectory.cs:63-85 | The method gives the specified directory. |
| ResourceTrees.LoadEntries | Winspect.Formats.PE/Directories/Resource/ResourceDirectory.cs:73-82 | The entry loop gives the specified dictionary. |
| ResourceTrees.LoadEntry | Winspect.Formats.PE/Directories/Resource/ResourceDirectoryEntry.cs:37-105 | The method gives the specified entry. |
| ResourceTrees.LoadRoot | Winspect.Formats.PE/Directories/Resource/ResourceDirectory.cs:87-94 | The method gives the specified root. |
| ResourceLeaves.PairsOf | Winspect.Formats.PE/Directories/Resource/ResourcesDiff.cs:46 | The pairs a `foreach` over a dictionary yields come from its keys and values. |
| ResourceLeaves.PairsSpec | Winspect.Formats.PE/Directories/Resource/ResourcesDiff.cs:46 | A pair is enumerated exactly when its key is present with that value. |
| ResourceLeaves.PairsOfComplete | Winspect.Formats.PE/Directories/Resource/ResourcesDiff.cs:46 | Every present key is enumerated. |
| ResourceLeaves.PairsOfDistinct | Winspect.Formats.PE/Directories/Resource/ResourcesDiff.cs:46 | Distinct keys give pairs with distinct keys. |
| ResourceLeaves.LangLeavesIn | Winspect.Formats.PE/Directories/Resource/ResourcesDiff.cs:52-60 | A leaf of a language level is a language entry with a data entry, keyed (type, id, lang). |
| ResourceLeaves.IdLeavesIn | Winspect.Formats.PE/Directories/Resource/ResourcesDiff.cs:49-51 | A leaf of an id level is a leaf of one of its language levels. |
| ResourceLeaves.TypeLeavesIn | Winspect.Formats.PE/Directories/Resource/ResourcesDiff.cs:46-48 | A leaf of the type level is a leaf of one of its id levels. |
| ResourceLeaves.LangLevel | Winspect.Formats.PE/Directories/Resource/ResourcesDiff.cs:51-60 | The leaves under an id entry are its language entries that have data. |
| ResourceLeaves.IdLevel | Winspect.Formats.PE/Directories/Resource/ResourcesDiff.cs:48-60 | The leaves under a type entry are those under its id entries. Entries without a subdirectory are skipped. |
| ResourceLeaves.LeavesOfSpec | Winspect.Formats.PE/Directories/Resource/ResourcesDiff.cs:44-68 | A (type, id, lang) key and resource are enumerated exactly when the three-level lookup reaches that data entry. |
| ResourceLeaves.UniqueConcat | Winspect.Formats.PE/Directories/Resource/ResourcesDiff.cs:59 | Concatenating key-disjoint leaf lists keeps keys unique. |
| ResourceLeaves.UniqueTail | Winspect.Formats.PE/Directories/Resource/ResourcesDiff.cs:46 | Dropping the first of distinct pairs keeps them distinct, and none of the rest has the first key. |
| ResourceLeaves.LangLeavesUnique | Winspect.Formats.PE/Directories/Resource/ResourcesDiff.cs:52-60 | Distinct language keys give leaves with distinct keys. |
| ResourceLeaves.IdLeavesUnique | Winspect.Formats.PE/Directories/Resource/ResourcesDiff.cs:49-60 | Distinct id and language keys give leaves with distinct keys. |
| ResourceLeaves.TypeLeavesUnique | Winspect.Formats.PE/Directories/Resource/ResourcesDiff.cs:46-60 | Distinct keys at all three levels give leaves with distinct keys. |
| ResourceLeaves.LeavesUnique | Winspect.Formats.PE/Directories/Resource/ResourcesDiff.cs:44-68 | A tree with distinct keys at every level yields no key twice, so `Changes.Add` never fails on it. |
| ResourceLeaves.LoadedChildren | Winspect.Formats.PE/Directories/Resource/ResourceDirectory.cs:73-82 | Every subdirectory of a loaded directory is itself loaded. |
| ResourceLeaves.ChildrenLoaded | Winspect.Formats.PE/Directories/Resource/ResourceDirectory.cs:74-82 | The entry loop's subdirectories are loaded directories. |
| ResourceLeaves.EntryChildLoaded | Winspect.Formats.PE/Directories/Resource/ResourceDirectoryEntry.cs:87-101 | An entry's subdirectory is a loaded directory. |
| ResourceLeaves.LoadedDistinct | Winspect.Formats.PE/Directories/Resource/ResourceDirectory.cs:73-82 | A loaded directory's Entries is well formed and its subdirectories are loaded. |
| ResourceLeaves.LoadedDistinctLevels | Winspect.Formats.PE/Directories/Resource/ResourcesDiff.cs:44-68 | A loaded tree has distinct keys at every level, so its leaves have unique keys. |
| ResourceLeaves.LoadedRoot | Winspect.Formats.PE/Directories/Resource/ResourceDirectory.cs:87-94 | The root the loader returns is a loaded directory. |
| ResourceQueries.Filled | Winspect.Formats.PE/PortableExecutable.cs:125-132 | The array fill succeeds exactly when the keys fit in `count` slots, else IndexOutOfRange. Then it holds the keys in order, padded with the default value. |
| ResourceQueries.FillArray | Winspect.Formats.PE/PortableExecutable.cs:126-130 | The `foreach` loop gives the specified array. |
| ResourceQueries.Numerics | Winspect.Formats.PE/PortableExecutable.cs:195-197 | Only the numeric ids are kept, so there are no more than there are keys. |
| ResourceQueries.FillLanguages | Winspect.Formats.PE/PortableExecutable.cs:192-197 | The language loop gives the specified array. |
| ResourceQueries.NumericsGrow | Winspect.Formats.PE/PortableExecutable.cs:195-197 | A prefix of the keys gives no more numeric ids than all of them. |
| ResourceQueries.GetResourceTypes | Winspect.Formats.PE/PortableExecutable.cs:120-133 | The method gives the specified types array. |
| ResourceQueries.GetResourceIds | Winspect.Formats.PE/PortableExecutable.cs:142-162 | The method gives the specified ids array. |
| ResourceQueries.GetResourceLanguages | Winspect.Formats.PE/PortableExecutable.cs:172-200 | The method gives the specified languages array. |
| ResourceQueries.DirectoryKeys | Winspect.Formats.PE/Directories/Resource/ResourceDirectory.cs:74-82 | A loaded directory has exactly `NumberOfNamedEntries + NumberOfIdEntries` keys. Each numeric key is a plain number id. |
| ResourceQueries.LoopKeys | Winspect.Formats.PE/Directories/Resource/ResourceDirectory.cs:74-82 | The entry loop yields one key per entry, and each numeric key is a plain number id. |
| ResourceQueries.LoopKey | Winspect.Formats.PE/Directories/Resource/ResourceDirectoryEntry.cs:54 | Key i exists, and if numeric it is a plain number id. |
| ResourceQueries.LoadedKeys | Winspect.Formats.PE/Directories/Resource/ResourceDirectory.cs:74-82 | The same for any directory of a loaded tree. |
| ResourceQueries.KeysOfLoaded | Winspect.Formats.PE/PortableExecutable.cs:120-162 | On a loaded tree `GetResourceTypes` and `GetResourceIds` never overrun their arrays. They return exactly the keys of the level, each once. |
| ResourceQueries.NumericsSpec | Winspect.Formats.PE/PortableExecutable.cs:195-197 | A number is listed exactly when some key has it as its numeric id. |
| ResourceQueries.NumericsDistinct | Winspect.Formats.PE/PortableExecutable.cs:195-197 | Distinct plain keys give distinct numbers. |
| ResourceQueries.EntryKeyKind | Winspect.Formats.PE/Directories/Resource/ResourceDirectoryEntry.cs:54-70 | A loaded entry's id is set, and a numeric one is a plain number id. |
| ResourceQueries.LoadedLanguages | Winspect.Formats.PE/PortableExecutable.cs:191-197 | A language is listed exactly when it is a key of the level. The numbers are distinct and fit the array. |
| ResourceQueries.LanguagesOfLoaded | Winspect.Formats.PE/PortableExecutable.cs:172-200 | On a loaded tree `GetResourceLanguages` never overruns. It returns the level's languages in order, padded with zeros to the entry count, and a language appears exactly when it is a key. |
| ResourceQueries.FindResourceSpec | Winspect.Formats.PE/PortableExecutable.cs:88-112 | On a loaded tree `FindResource` returns a data entry exactly when the type, id and language lookups reach it. |
| Diffs.SeedRemoved | Winspect.Formats.PE/Directories/Export/ExportsDiff.cs:35-42 | The first pass gives the specified dictionary. |
| Diffs.MarkNew | Winspect.Formats.PE/Directories/Export/ExportsDiff.cs:44-52 | The second pass gives the specified dictionary. |
| Diffs.SeedFromSpec | Winspect.Formats.PE/Directories/Export/ExportsDiff.cs:35-42 | The first pass succeeds exactly when the old keys are distinct and new to the dictionary. It appends them in order, every one Removed, and leaves earlier entries alone. |
| Diffs.SeedFromError | Winspect.Formats.PE/Directories/Export/ExportsDiff.cs:39 | A repeated old key fails with ArgumentException, as `Dictionary.Add` does. |
| Diffs.MarkFromKeys | Winspect.Formats.PE/Directories/Export/ExportsDiff.cs:44-52 | The second pass never fails or drops a key. It ends with exactly the keys it had plus the new ones. |
| Diffs.MarkFromStatus | Winspect.Formats.PE/Directories/Export/ExportsDiff.cs:48-49 | A key not met keeps its status. A met key is Unchanged if it was present or met twice, else Added. |
| Diffs.BuildDiff | Winspect.Formats.PE/Directories/Export/ExportsDiff.cs:31-54 | The two passes give the specified diff. |
| Diffs.DiffOfSpec | Winspect.Formats.PE/Directories/Export/ExportsDiff.cs:31-54 | The diff fails exactly when an old key repeats. It then holds exactly the keys of either side: Removed when only old, Added when new once and not old, otherwise Unchanged, never Modified. |
| Diffs.DiffOfKeys | Winspect.Formats.PE/Directories/Export/ExportsDiff.cs:31-54 | For distinct sides: Removed exactly when only old, Added exactly when only new, Unchanged exactly when on both. |
| Diffs.DiffOfSelf | Winspect.Formats.PE/Directories/Export/ExportsDiff.cs:31-54 | Comparing distinct keys with themselves reports no change. |
| Diffs.HasChanges | Winspect.Formats.PE/Directories/Export/ExportsDiff.cs:18-29 | The loop returns true exactly when some status is not Unchanged. |
| Diffs.AggregateSpec | Winspect.Formats.PE/Directories/Import/ImportsDiff.cs:109-117 | A group is Unchanged, Added or Removed exactly when all its statuses are. Otherwise, when it is mixed or holds a Modified, it is Modified. |
| Diffs.StatusesOf | Winspect.Formats.PE/Directories/Import/ImportsDiff.cs:109 | The `Where ... Select` yields a status exactly when some selected key has it. |
| Diffs.Groups | Winspect.Formats.PE/Directories/Import/ImportsDiff.cs:107 | `Select ... Distinct` yields no group twice. |
| Diffs.Grouped | Winspect.Formats.PE/Directories/Import/ImportsDiff.cs:103-124 | The loop gives the specified dictionary. |
| Diffs.AddEach | Winspect.Formats.PE/Directories/Import/ImportsDiff.cs:107-121 | Adding distinct groups maps each group to its status, in order. |
| Diffs.GroupedWhereKeys | Winspect.Formats.PE/Directories/Import/ImportsDiff.cs:107 | A group is present exactly when some kept key belongs to it. |
| Diffs.GroupedWhereValid | Winspect.Formats.PE/Directories/Import/ImportsDiff.cs:119 | `libraries.Add` never fails, because the groups are distinct. |
| Diffs.GroupedWhereHas | Winspect.Formats.PE/Directories/Import/ImportsDiff.cs:107 | Every kept key's group is present. |
| Diffs.GroupedWhereWitness | Winspect.Formats.PE/Directories/Import/ImportsDiff.cs:107 | Every present group has a kept key. |
| Diffs.AllOfSelected | Winspect.Formats.PE/Directories/Import/ImportsDiff.cs:112-116 | `All` over the selected statuses holds exactly when every selected key has that status. |
| Diffs.MixedOfSelected | Winspect.Formats.PE/Directories/Import/ImportsDiff.cs:110-117 | The selected statuses are mixed or hold Modified exactly when two selected keys differ or one is Modified. |
| Diffs.GroupedWhereStatus | Winspect.Formats.PE/Directories/Import/ImportsDiff.cs:103-124 | A group's status is Unchanged, Added or Removed exactly when all its keys have it. Otherwise it is Modified. |
| Diffs.SelectedStatus | Winspect.Formats.PE/Directories/Import/ImportsDiff.cs:109-117 | The same for the statuses of any non-empty selection. |
| ExportsDiffs.NamesOf | Winspect.Formats.PE/Directories/Export/ExportsDiff.cs:35-38 | A null directory or a null Exports yields no names. Otherwise there is one name per export, in order, each `GetExportName` of that export. |
| ExportsDiffs.Diff | Winspect.Formats.PE/Directories/Export/ExportsDiff.cs:31-54 | The constructor gives the specified diff. |
| ExportsDiffs.HasChangesOf | Winspect.Formats.PE/Directories/Export/ExportsDiff.cs:18-29 | `HasChanges` is true exactly when some export is not Unchanged. |
| ExportsDiffs.ExportsDiffOutcome | Winspect.Formats.PE/Directories/Export/ExportsDiff.cs:31-54 | The diff throws ArgumentException exactly when two old exports share a name. It then holds exactly the names of either side, never Modified. |
| ExportsDiffs.ExportsDiffStatus | Winspect.Formats.PE/Directories/Export/ExportsDiff.cs:31-54 | For distinct names: Removed exactly when only old, Added exactly when only new, Unchanged exactly when on both. |
| ExportsDiffs.ExportsDiffOneSided | Winspect.Formats.PE/Directories/Export/ExportsDiff.cs:35-52 | Against a null side, every export is Added (new) or Removed (old). |
| ExportsDiffs.ExportsDiffSelf | Winspect.Formats.PE/Directories/Export/ExportsDiff.cs:31-54 | A directory compared with itself has no changes. |
| ExportsDiffs.SameNameCollides | Winspect.Formats.PE/Directories/Export/ExportsDiff.cs:39 | Two exports with the same name make the constructor throw, whatever their ordinals. |
| ExportsDiffs.NewExportDiff | Winspect.Formats.PE/Directories/Export/ExportDiff.cs:27-50 | `ExportDiff` computes the same changes as `ExportsDiff`, with the same failures. |
| ExportsDiffs.DiffByEquals | Winspect.Formats.PE/Directories/Export/ExportDiff.cs:13-23 | A dictionary keyed through the `Equals` comparer gives the plain diff. |
| ExportsDiffs.EqualsIsIdentityIn | Winspect.Formats.PE/Directories/Export/ExportDiff.cs:13-17 | Membership by `Equals` is membership by value. |
| ImportsDiffs.ImportKeysFromSpec | Winspect.Formats.PE/Directories/Import/ImportsDiff.cs:39-44 | A library's imports append (library, name) keys, one per import and in order. They fail exactly when some import has neither name nor ordinal. |
| ImportsDiffs.LibraryKeysFromSpec | Winspect.Formats.PE/Directories/Import/ImportsDiff.cs:35-47 | The walk over libraries succeeds exactly when every import is identified. The keys are exactly the (library, name) pairs of the imports. A library with null Imports is skipped. |
| ImportsDiffs.FirstLibraryKeys | Winspect.Formats.PE/Directories/Import/ImportsDiff.cs:39-44 | A key comes from one library exactly when one of its imports has that name. |
| ImportsDiffs.AllIdentifiedTail | Winspect.Formats.PE/Directories/Import/ImportsDiff.cs:36-38 | Identification splits over the first library and the rest, a null Imports counting as identified. |
| ImportsDiffs.ImportsTail | Winspect.Formats.PE/Directories/Import/ImportsDiff.cs:36-44 | A key is imported by the first library, or by the rest. |
| ImportsDiffs.EntriesOf | Winspect.Formats.PE/Directories/Import/ImportsDiff.cs:36 | The `foreach` gives one (name, imports) pair per library, in order. |
| ImportsDiffs.CollectKeys | Winspect.Formats.PE/Directories/Import/ImportsDiff.cs:35-47 | The loops give the specified keys. |
| ImportsDiffs.BuildEntriesDiff | Winspect.Formats.PE/Directories/Import/ImportsDiff.cs:31-65 | The two passes give the specified diff. |
| ImportsDiffs.NewImportsDiff | Winspect.Formats.PE/Directories/Import/ImportsDiff.cs:31-65 | The import constructor gives the specified diff. |
| ImportsDiffs.NewDelayImportsDiff | Winspect.Formats.PE/Directories/Import/ImportsDiff.cs:67-101 | The delay-import constructor gives the specified diff. |
| ImportsDiffs.EntriesDiffSpec | Winspect.Formats.PE/Directories/Import/ImportsDiff.cs:31-65 | The diff fails, with ArgumentException, exactly when an import is unidentified or an old (library, name) repeats. It holds exactly the imported keys of either side, never Modified. |
| ImportsDiffs.EntriesDiffStatus | Winspect.Formats.PE/Directories/Import/ImportsDiff.cs:31-65 | For distinct sides: Removed exactly when only old, Added exactly when only new, Unchanged exactly when on both. |
| ImportsDiffs.LoadedLibraryIdentified | Winspect.Formats.PE/Directories/Import/ImportedLibrary.cs:65-82 | A loaded library has Imports, and each is by name or by ordinal. |
| ImportsDiffs.LoadedDelayLibraryIdentified | Winspect.Formats.PE/Directories/DelayImport/DelayImportedLibrary.cs:89-116 | The same for a delay-loaded library, in either reading. |
| ImportsDiffs.LoadedImportsIdentified | Winspect.Formats.PE/Directories/Import/ImportDirectory.cs:21-45 | A loaded import directory is well formed, and every import is identified. |
| ImportsDiffs.LoadedDelayImportsIdentified | Winspect.Formats.PE/Directories/DelayImport/DelayImportDirectory.cs:21-45 | The same for a delay-import directory loaded in either reading. |
| ImportsDiffs.MergeFromSpec | Winspect.Formats.PE/Directories/Import/ImportsDiff.cs:141-144 | Merging delay keys one by one adds those absent with their delay status and marks those present Modified. Nothing is dropped. |
| ImportsDiffs.MergedSpec | Winspect.Formats.PE/Directories/Import/ImportsDiff.cs:141-144 | The merged keys are those of either diff. A key of one side keeps its status, and a key of both is Modified. |
| ImportsDiffs.Diff | Winspect.Formats.PE/Directories/Import/ImportsDiff.cs:136-147 | `Diff` gives the specified merge of the import and delay-import diffs. |
| ImportsDiffs.MergeDelay | Winspect.Formats.PE/Directories/Import/ImportsDiff.cs:141-144 | The merge loop gives the specified merge. |
| ImportsDiffs.MergeFromStep | Winspect.Formats.PE/Directories/Import/ImportsDiff.cs:142-143 | One step of the loop applies to one key. |
| ImportsDiffs.MergeEntriesSpec | Winspect.Formats.PE/Directories/Import/ImportsDiff.cs:136-147 | The merged diff holds every key imported on any side. A key in both diffs is Modified, and a key in one takes that diff's status. |
| ImportsDiffs.HasChangesOf | Winspect.Formats.PE/Directories/Import/ImportsDiff.cs:18-29 | `HasChanges` is true exactly when some import is not Unchanged. |
| ImportsDiffs.GetLibraries | Winspect.Formats.PE/Directories/Import/ImportsDiff.cs:103-124 | The method gives the specified library dictionary. |
| ImportsDiffs.LibrariesSpec | Winspect.Formats.PE/Directories/Import/ImportsDiff.cs:103-124 | A library is listed exactly when some key names it. Its status is Unchanged, Added or Removed exactly when all its imports are, and a mixed library is Modified. |
| ImportsDiffs.LibraryPresent | Winspect.Formats.PE/Directories/Import/ImportsDiff.cs:107 | A library is listed exactly when some key names it. |
| ImportsDiffs.LibraryStatus | Winspect.Formats.PE/Directories/Import/ImportsDiff.cs:109-117 | A listed library's status is its imports' aggregate. |
| ImportsDiffs.GetImports | Winspect.Formats.PE/Directories/Import/ImportsDiff.cs:126-134 | The method gives the specified dictionary. |
| ImportsDiffs.DistinctNames | Winspect.Formats.PE/Directories/Import/ImportsDiff.cs:131 | The names of one library's keys are distinct, so `imports.Add` never fails. |
| ImportsDiffs.ImportsOfLibraryKeys | Winspect.Formats.PE/Directories/Import/ImportsDiff.cs:130 | A name is listed exactly when (library, name) is a key. |
| ImportsDiffs.LibraryNameIn | Winspect.Formats.PE/Directories/Import/ImportsDiff.cs:130 | The same, for one name. |
| ImportsDiffs.ImportsOfLibrarySpec | Winspect.Formats.PE/Directories/Import/ImportsDiff.cs:126-134 | `GetImports(library)` holds exactly the library's names, each with its status in `Changes`. |
| ResourcesDiffs.HexDigit | Winspect.Formats.PE/Directories/Resource/ResourcesDiff.cs:114 | A nibble prints as an upper-case hex digit. |
| ResourcesDiffs.HexDigitInjective | Winspect.Formats.PE/Directories/Resource/ResourcesDiff.cs:114 | Distinct nibbles print as distinct digits. |
| ResourcesDiffs.Hex | Winspect.Formats.PE/Directories/Resource/ResourcesDiff.cs:114 | `BitConverter.ToString` without dashes gives two upper-case digits per byte: the high nibble, then the low nibble. |
| ResourcesDiffs.HexCons | Winspect.Formats.PE/Directories/Resource/ResourcesDiff.cs:114 | Prefixing one byte's two digits extends the per-byte layout. |
| ResourcesDiffs.HexInjective | Winspect.Formats.PE/Directories/Resource/ResourcesDiff.cs:114 | Two byte strings have the same hex text exactly when they are equal. |
| ResourcesDiffs.ResourceHashSpec | Winspect.Formats.PE/Directories/Resource/ResourcesDiff.cs:104-115 | The hash is empty exactly when `ReadData` throws InvalidOperationException. Any other failure escapes. Readable data hashes to 64 hex digits of its SHA-256. Two hashes agree exactly when both are unreadable or both digests agree. |
| ResourcesDiffs.FoldConcat | Winspect.Formats.PE/Directories/Resource/ResourcesDiff.cs:46-66 | Folding over two leaf lists is folding over the first and then the second, stopping at the first error. |
| ResourcesDiffs.LangLoop | Winspect.Formats.PE/Directories/Resource/ResourcesDiff.cs:52-62 | The language loop gives the specified fold. |
| ResourcesDiffs.IdLoop | Winspect.Formats.PE/Directories/Resource/ResourcesDiff.cs:49-64 | The id loop gives the specified fold. |
| ResourcesDiffs.TypeLoop | Winspect.Formats.PE/Directories/Resource/ResourcesDiff.cs:44-68 | The three nested loops give the fold over the tree's leaves. |
| ResourcesDiffs.NewResourcesDiff | Winspect.Formats.PE/Directories/Resource/ResourcesDiff.cs:31-102 | The constructor gives the specified diff. |
| ResourcesDiffs.UniqueCons | Winspect.Formats.PE/Directories/Resource/ResourcesDiff.cs:59 | Keys are unique exactly when the tail's are, and no tail key is the head's. |
| ResourcesDiffs.SeedFromOk | Winspect.Formats.PE/Directories/Resource/ResourcesDiff.cs:44-68 | The first pass succeeds exactly when the old leaf keys are unique and new, and every old resource can be hashed. |
| ResourcesDiffs.SeedFromContents | Winspect.Formats.PE/Directories/Resource/ResourcesDiff.cs:57-60 | The first pass adds every old key Removed, and leaves other keys and hashes alone. |
| ResourcesDiffs.SeedFromHashes | Winspect.Formats.PE/Directories/Resource/ResourcesDiff.cs:60 | Every old key's hash is recorded. |
| ResourcesDiffs.MarkFromKeys | Winspect.Formats.PE/Directories/Resource/ResourcesDiff.cs:70-100 | The second pass succeeds on unique keys whose shared resources all hash. It adds exactly the new keys and leaves the others alone. |
| ResourcesDiffs.MarkFromStatus | Winspect.Formats.PE/Directories/Resource/ResourcesDiff.cs:85-90 | A new key is Added when absent, Unchanged when its hash matches the old one, Modified otherwise. |
| ResourcesDiffs.MarkFromHashed | Winspect.Formats.PE/Directories/Resource/ResourcesDiff.cs:88 | A successful second pass has hashed every resource whose key was already present. |
| ResourcesDiffs.ResourcesDiffSpec | Winspect.Formats.PE/Directories/Resource/ResourcesDiff.cs:31-102 | For roots with unique, hashable leaves the diff holds exactly the keys of either side. It is Removed when only old, Added when only new, and Unchanged or Modified as the two hashes agree. |
| ResourcesDiffs.ResourcesDiffRefused | Winspect.Formats.PE/Directories/Resource/ResourcesDiff.cs:33-37 | A non-root side throws ArgumentException. A repeated or unhashable old leaf fails. |
| ResourcesDiffs.ResourcesDiffStatus | Winspect.Formats.PE/Directories/Resource/ResourcesDiff.cs:31-102 | Each status holds exactly in its case: Removed, Added, Unchanged for equal hashes, Modified for different ones. |
| ResourcesDiffs.ResourcesDiffOfSelf | Winspect.Formats.PE/Directories/Resource/ResourcesDiff.cs:31-102 | A tree compared with itself has no changes. |
| ResourcesDiffs.KeyPresent | Winspect.Formats.PE/Directories/Resource/ResourcesDiff.cs:44-68 | A key is enumerated exactly when the three-level lookup reaches a data entry. |
| ResourcesDiffs.ResourcesDiffOfTrees | Winspect.Formats.PE/Directories/Resource/ResourcesDiff.cs:31-102 | The same statement over lookups into the two trees instead of leaf lists. |
| ResourcesDiffs.ResourcesDiffOk | Winspect.Formats.PE/Directories/Resource/ResourcesDiff.cs:31-102 | On roots with unique leaves the diff fails exactly when an old resource, or a new one sharing a key, cannot be hashed. |
| ResourcesDiffs.LoadedRootsDiff | Winspect.Formats.PE/Directories/Resource/ResourcesDiff.cs:31-102 | Loaded roots always have unique leaves, so only an unhashable resource can make their diff fail. |
| ResourcesDiffs.HasChangesOf | Winspect.Formats.PE/Directories/Resource/ResourcesDiff.cs:18-29 | `HasChanges` is true exactly when some resource is not Unchanged. |
| ResourcesDiffs.GetResourceTypes | Winspect.Formats.PE/Directories/Resource/ResourcesDiff.cs:117-138 | The method gives the specified type dictionary. |
| ResourcesDiffs.ResourceTypesSpec | Winspect.Formats.PE/Directories/Resource/ResourcesDiff.cs:117-138 | A type is listed exactly when some key has it. Its status is Unchanged, Added or Removed exactly when all its resources are, and otherwise Modified. |
| ResourcesDiffs.TypePresent | Winspect.Formats.PE/Directories/Resource/ResourcesDiff.cs:121 | A type is listed exactly when some key has it. |
| ResourcesDiffs.TypeStatus | Winspect.Formats.PE/Directories/Resource/ResourcesDiff.cs:123-131 | A listed type's status is the aggregate of its resources. |
| ResourcesDiffs.GetResourceIds | Winspect.Formats.PE/Directories/Resource/ResourcesDiff.cs:140-161 | The method gives the specified id dictionary. |
| ResourcesDiffs.ResourceIdsSpec | Winspect.Formats.PE/Directories/Resource/ResourcesDiff.cs:140-161 | An id is listed exactly when some key has that type and id. Its status aggregates those resources. |
| ResourcesDiffs.IdPresent | Winspect.Formats.PE/Directories/Resource/ResourcesDiff.cs:144 | An id is listed exactly when some key has that type and id. |
| ResourcesDiffs.IdStatus | Winspect.Formats.PE/Directories/Resource/ResourcesDiff.cs:146-154 | A listed id's status is the aggregate of its resources. |
| ResourcesDiffs.GetResourceLanguages | Winspect.Formats.PE/Directories/Resource/ResourcesDiff.cs:163-171 | The method gives the specified language dictionary. |
| ResourcesDiffs.LanguagesIn | Winspect.Formats.PE/Directories/Resource/ResourcesDiff.cs:167 | A language is listed exactly when (type, id, lang) is a key. |
| ResourcesDiffs.LanguageIn | Winspect.Formats.PE/Directories/Resource/ResourcesDiff.cs:167 | The same, for one language. |
| ResourcesDiffs.SelectedLanguage | Winspect.Formats.PE/Directories/Resource/ResourcesDiff.cs:167 | The same, over the `Where ... Select` sequence. |
| ResourcesDiffs.LanguagesSpec | Winspect.Formats.PE/Directories/Resource/ResourcesDiff.cs:163-171 | The dictionary holds exactly the languages of (type, id), each with its status in `Changes`. |
| BaseBlocks.DecodeBaseBlock | Winspect.Windows.Registry/Formats/Regf/BaseBlock.cs:35-56 | Decoding succeeds exactly when 4096 bytes are given, else ArgumentException. The signature (at most 4 characters) and the file name (at most 32) are free of NULs. |
| BaseBlocks.BaseBlockHeadRoundTrip | Winspect.Windows.Registry/Formats/Regf/BaseBlock.cs:40-50 | The signature bytes and the ten fields from offset 4 to 48 read back from their little-endian encoding. |
| BaseBlocks.BaseBlockTailRoundTrip | Winspect.Windows.Registry/Formats/Regf/BaseBlock.cs:51-54 | The name bytes at 48..112 and the checksum, boot type and boot recover at 508, 4088 and 4092 read back. |
| BaseBlocks.BaseBlockRoundTrip | Winspect.Windows.Registry/Formats/Regf/BaseBlock.cs:35-56 | Decoding an encoded base block, whatever fills the gaps or follows, gives every field back. The signature and file name come back with NULs removed and ends trimmed. |
| HiveBins.DecodeHiveBinHeader | Winspect.Windows.Registry/Formats/Regf/HiveBinHeader.cs:26-38 | Decoding succeeds exactly when 32 bytes are given, else ArgumentException. The signature is at most 4 characters, free of NULs. |
| HiveBins.HiveBinHeaderRoundTrip | Winspect.Windows.Registry/Formats/Regf/HiveBinHeader.cs:31-36 | The offset, size, reserved, timestamp and spare fields read back, and the signature comes back cleaned. |
| HiveBins.AlignAdvances | Winspect.Windows.Registry/Formats/Regf/HiveBin.cs:33 | `(offset + 7) & ~7` is a multiple of 8 and lies fewer than 8 bytes ahead. |
| HiveBins.StepAdvances | Winspect.Windows.Registry/Formats/Regf/HiveBin.cs:45 | Adding a cell's size moves the position by exactly that size while it stays below 2^32. |
| HiveBins.NextCellAdvances | Winspect.Windows.Registry/Formats/Regf/HiveBin.cs:33-45 | A successful turn moves strictly forward and stays within the buffer. |
| HiveBins.ReadCell | Winspect.Windows.Registry/Formats/Regf/HiveBin.cs:35-44 | A read that succeeds has its size word inside the buffer, a magnitude of at least 4 that fits in the buffer, and the cell of that word and its data added by `Cells.Add`. |
| HiveBins.ReadCellSpec | Winspect.Windows.Registry/Formats/Regf/HiveBin.cs:36-44 | A read that succeeds adds exactly one new cell under the rounded offset: the size word and the bytes after it, up to its magnitude. A key already present fails the read. |
| HiveBins.CellAtRead | Winspect.Windows.Registry/Formats/Regf/HiveBin.cs:33-44 | A cell read at the position of its own 8-aligned offset is the cell the layout keeps under that offset. |
| HiveBins.NextCellSpec | Winspect.Windows.Registry/Formats/Regf/HiveBin.cs:33-45 | A successful turn adds one new key, the aligned offset, after the others. That cell's size word is read at its position, and the next offset is the cell's end. |
| HiveBins.LaidCons | Winspect.Windows.Registry/Formats/Regf/HiveBin.cs:31-47 | A cell laid at the next aligned position, followed by laid cells, extends the layout. |
| HiveBins.WalkKeeps | Winspect.Windows.Registry/Formats/Regf/HiveBin.cs:31-47 | The walk keeps the dictionary well formed and only appends to it. |
| HiveBins.WalkLaid | Winspect.Windows.Registry/Formats/Regf/HiveBin.cs:31-47 | The cells the walk adds are laid one after another from its start. |
| HiveBins.LaidAbove | Winspect.Windows.Registry/Formats/Regf/HiveBin.cs:35-42 | Every laid cell is present, matches the bytes at its position, and lies at or after the start. |
| HiveBins.LaidInOrder | Winspect.Windows.Registry/Formats/Regf/HiveBin.cs:33-45 | Laid cells do not overlap: each ends at or before the next begins. |
| HiveBins.MakeHiveBin | Winspect.Windows.Registry/Formats/Regf/HiveBin.cs:18-49 | A wrong signature, or data whose length is not `Size - 32` as a 32-bit value, is ArgumentException. A bin keeps the header. |
| HiveBins.HiveBinLayout | Winspect.Windows.Registry/Formats/Regf/HiveBin.cs:27-47 | A bin's cells are well formed and laid one after another from the first cell, without overlap. |
| HiveBins.EmptyHiveBin | Winspect.Windows.Registry/Formats/Regf/HiveBin.cs:29-31 | A 32-byte bin has no cells. |
| HiveBins.NewHiveBin | Winspect.Windows.Registry/Formats/Regf/HiveBin.cs:18-49 | The constructor's loop gives the specified bin. |
| HiveBins.LoadHiveBin | Winspect.Windows.Registry/Formats/Regf/HiveBin.cs:54-66 | A loaded bin reports at least 32 bytes read, all of them inside the stream. |
| HiveBins.LoadCells | Winspect.Windows.Registry/Formats/Regf/HiveBin.cs:61-65 | From the position the header read leaves, which is within the stream, the cell data read stays within the stream. |
| HiveBins.LoadCellsSpec | Winspect.Windows.Registry/Formats/Regf/HiveBin.cs:61-65 | A header size below 32 is OutOfMemory. Otherwise loading succeeds exactly when `Size - 32` bytes follow and make a bin. It reports `Size` bytes read, and the bin is the one made from those bytes. |
| HiveBins.ReadHiveBin | Winspect.Windows.Registry/Formats/Regf/HiveBin.cs:54-66 | The method gives the specified bin. |
| HiveBins.ReadCells | Winspect.Windows.Registry/Formats/Regf/HiveBin.cs:61-65 | The method gives the specified bin. |
| HiveBins.LoadHiveBinShort | Winspect.Windows.Registry/Formats/Regf/HiveBin.cs:56-57 | Fewer than 32 bytes left is EndOfStream. |
| HiveBins.LoadHiveBinHeader | Winspect.Windows.Registry/Formats/Regf/HiveBin.cs:56-65 | With 32 bytes left, the header is decoded from them and the cells follow it. |
| Cells.AbsSize | Winspect.Windows.Registry/Formats/Regf/Cell.cs:16 | `Math.Abs((int)size)` fails only on 0x80000000. A free size is itself, and an allocated size is 2^32 minus it. |
| Cells.ActualSizeSpec | Winspect.Windows.Registry/Formats/Regf/Cell.cs:15-16 | `ActualSize` is the magnitude of the signed size, and exists exactly when the size is not 0x80000000. |
| PrimaryFiles.BinLoaderAdvances | Winspect.Windows.Registry/Formats/Regf/PrimaryFile.cs:38 | Each loaded bin reports its header size, a positive count of bytes inside the stream. |
| PrimaryFiles.ReadHiveBins | Winspect.Windows.Registry/Formats/Regf/PrimaryFile.cs:33-46 | The loop only appends bins. |
| PrimaryFiles.Open | Winspect.Windows.Registry/Formats/Regf/PrimaryFile.cs:19-52 | The constructor gives the specified primary file. |
| PrimaryFiles.LoadHiveBins | Winspect.Windows.Registry/Formats/Regf/PrimaryFile.cs:33-46 | The `while` loop gives the specified bins. |
| PrimaryFiles.ReadHiveBinsFails | Winspect.Windows.Registry/Formats/Regf/PrimaryFile.cs:38-41 | Any failure while loading bins is BadRegfFileException. |
| PrimaryFiles.ReadHiveBinsLoaded | Winspect.Windows.Registry/Formats/Regf/PrimaryFile.cs:33-46 | The bins loaded are read back to back, and the 32-bit `bytesLeft` reaches zero exactly after the last. |
| PrimaryFiles.LoadedFromRead | Winspect.Windows.Registry/Formats/Regf/PrimaryFile.cs:33-46 | Bins read back to back until `bytesLeft` hits zero are exactly what the loop returns. |
| PrimaryFiles.LoadedFromAt | Winspect.Windows.Registry/Formats/Regf/PrimaryFile.cs:38 | Bin i is the one loaded at the base block's end plus the sizes of the bins before it. |
| PrimaryFiles.LoadedFromStops | Winspect.Windows.Registry/Formats/Regf/PrimaryFile.cs:33-44 | `bytesLeft`, decreased with 32-bit wrap-around, is non-zero before each bin and zero after the last. |
| PrimaryFiles.ReadPrimaryFileSpec | Winspect.Windows.Registry/Formats/Regf/PrimaryFile.cs:19-52 | A stream under 4096 bytes is EndOfStream, and every other failure is BadRegfFileException. A file has the decoded base block with signature "regf" and the bins read back to back. It keeps the stream exactly when it takes ownership. |
| PrimaryFiles.PrimaryFileOfBins | Winspect.Windows.Registry/Formats/Regf/PrimaryFile.cs:19-52 | Conversely, a "regf" base block followed by bins read back to back opens as exactly that file. |
| PrimaryFiles.LookupCell | Winspect.Windows.Registry/Formats/Regf/PrimaryFile.cs:57-68 | The method gives the specified cell. |
| PrimaryFiles.FindCellInFirst | Winspect.Windows.Registry/Formats/Regf/PrimaryFile.cs:62-65 | The first bin that holds the offset supplies the cell at `4096 + offset`. |
| PrimaryFiles.FindCellInNone | Winspect.Windows.Registry/Formats/Regf/PrimaryFile.cs:62-67 | No cell is found exactly when no bin holds the offset. |
| PrimaryFiles.FindCellSpec | Winspect.Windows.Registry/Formats/Regf/PrimaryFile.cs:57-68 | `FindCell` is null exactly for offset 0xFFFFFFFF or when no bin's range and cells hold the offset. Otherwise it is the first such bin's cell at `4096 + offset`. |
| Records.DecodeIndexRecord | Winspect.Windows.Registry/Formats/Regf/Records/IndexLeafRecord.cs:25-40 | An li or ri record decodes exactly when the buffer holds 4 bytes and the 4-byte elements the count announces, else ArgumentException. It has exactly that many elements and a 2-character signature. |
| Records.ReadIndexRecord | Winspect.Windows.Registry/Formats/Regf/Records/IndexRootRecord.cs:25-40 | The element loop gives the specified record. |
| Records.IndexRecordRoundTrip | Winspect.Windows.Registry/Formats/Regf/Records/IndexLeafRecord.cs:30-38 | Decoding an encoded signature, count and elements gives them back, whatever follows. |
| Records.Hint | Winspect.Windows.Registry/Formats/Regf/Records/FastLeafRecord.cs:40 | A hint is at most as long as its bytes and holds no NUL. |
| Records.DecodeFastLeaf | Winspect.Windows.Registry/Formats/Regf/Records/FastLeafRecord.cs:25-46 | An lf record decodes exactly when the buffer holds 4 bytes and the 8-byte elements the count announces, else ArgumentException. It has exactly that many elements. |
| Records.FastLeafHints | Winspect.Windows.Registry/Formats/Regf/Records/FastLeafRecord.cs:40 | Every hint is at most 4 characters and free of NULs. |
| Records.ReadFastLeaf | Winspect.Windows.Registry/Formats/Regf/Records/FastLeafRecord.cs:36-44 | The element loop gives the specified record. |
| Records.FastLeafRoundTrip | Winspect.Windows.Registry/Formats/Regf/Records/FastLeafRecord.cs:30-44 | Decoding encoded offsets and 4-byte hints gives back each offset with its cleaned hint. |
| Records.DecodeHashLeaf | Winspect.Windows.Registry/Formats/Regf/Records/HashLeafRecord.cs:25-46 | An lh record decodes exactly when the buffer holds 4 bytes and the 8-byte elements the count announces, else ArgumentException. It has exactly that many elements. |
| Records.ReadHashLeaf | Winspect.Windows.Registry/Formats/Regf/Records/HashLeafRecord.cs:36-44 | The element loop gives the specified record. |
| Records.HashLeafRoundTrip | Winspect.Windows.Registry/Formats/Regf/Records/HashLeafRecord.cs:30-44 | Decoding encoded (offset, hash) pairs gives them back, whatever follows. |
| Records.DecodeKeyNode | Winspect.Windows.Registry/Formats/Regf/Records/KeyNodeRecord.cs:43-76 | An nk record decodes exactly when the buffer holds 76 bytes and the name length at 72, else ArgumentException. The recorded name length is that word. |
| Records.KeyNodeNumbers | Winspect.Windows.Registry/Formats/Regf/Records/KeyNodeRecord.cs:51-65 | The fifteen 32-bit fields from offset 12 to 72 read back from their encoding. |
| Records.KeyNodeEnds | Winspect.Windows.Registry/Formats/Regf/Records/KeyNodeRecord.cs:48-50 | The signature, flags, timestamp, both lengths and the name bytes at 76 read back. |
| Records.KeyNodeRoundTrip | Winspect.Windows.Registry/Formats/Regf/Records/KeyNodeRecord.cs:43-76 | Decoding an encoded key node gives every field back. The name is ASCII when flag 0x20 is set, else UTF-16LE. |
| Records.DataSizeSplit | Winspect.Windows.Registry/Formats/Regf/Records/KeyValueRecord.cs:25-26 | The data size is the inline flag in bit 31 above the 31-bit actual size. |
| Records.DecodeKeyValue | Winspect.Windows.Registry/Formats/Regf/Records/KeyValueRecord.cs:30-55 | A vk record decodes exactly when the buffer holds 20 bytes and the name length at 2, else ArgumentException. The value name is null exactly when that length is 0. |
| Records.KeyValueRoundTrip | Winspect.Windows.Registry/Formats/Regf/Records/KeyValueRecord.cs:30-55 | Decoding an encoded value gives every field back. The name is ASCII when flag 1 is set, else UTF-16LE, and null when empty. |
| Records.Record.Type | Winspect.Windows.Registry/Formats/Regf/Records/IndexLeafRecord.cs:23 | Each record class reports its own RecordType. No decoded record is KeySecurity or BigData. |
| WindowsRegistry.RecordAt | Winspect.Windows.Registry/WindowsRegistry.cs:43-49 | A missing cell or an undecodable record is BadRegfFileException. |
| WindowsRegistry.ListOffsets | Winspect.Windows.Registry/WindowsRegistry.cs:61-70 | An li gives its elements, an lf or lh the offsets of its elements in order. Any other record is ArgumentException. |
| WindowsRegistry.ChildOffsets | Winspect.Windows.Registry/WindowsRegistry.cs:43-54 | A child of an index root fails with BadRegfFileException or ArgumentException only. |
| WindowsRegistry.RootOffsets | Winspect.Windows.Registry/WindowsRegistry.cs:41-58 | The index root's walk fails only as its children do. |
| WindowsRegistry.RootOffsetsSpec | Winspect.Windows.Registry/WindowsRegistry.cs:37-59 | An index root succeeds exactly when every element's list does. It gives their offsets concatenated in order. |
| WindowsRegistry.SubkeyOffsets | Winspect.Windows.Registry/WindowsRegistry.cs:35-71 | Only BadRegfFileException or ArgumentException can escape. |
| WindowsRegistry.NodeSubkeyOffsets | Winspect.Windows.Registry/WindowsRegistry.cs:73-87 | A list offset of 0xFFFFFFFF gives no subkeys. Otherwise the list's offsets come from the record at that offset. |
| WindowsRegistry.PrependNothing | Winspect.Windows.Registry/WindowsRegistry.cs:54 | `AddRange` onto nothing, or of nothing, changes nothing. |
| WindowsRegistry.GetSubkeyOffsets | Winspect.Windows.Registry/WindowsRegistry.cs:35-71 | The method gives the specified offsets. |
| WindowsRegistry.LoadKey | Winspect.Windows.Registry/WindowsRegistry.cs:93-118 | A loaded key carries the key node's name. |
| WindowsRegistry.LoadKeyFromRecord | Winspect.Windows.Registry/WindowsRegistry.cs:93-118 | The recursive method gives the specified key. |
| WindowsRegistry.LoadSubkeysSpec | Winspect.Windows.Registry/WindowsRegistry.cs:98-113 | The subkeys load exactly when every offset does. There is one subkey per offset, in order. |
| WindowsRegistry.LoadSubkeySpec | Winspect.Windows.Registry/WindowsRegistry.cs:100-111 | A subkey loads exactly when its offset has a cell holding a key node that loads, and it is that key. |
| WindowsRegistry.Depth | Winspect.Windows.Registry/Key.cs:13-23 | A key's depth exceeds each subkey's. |
| WindowsRegistry.DepthOf | Winspect.Windows.Registry/Key.cs:16 | A list's depth bounds each key's. |
| WindowsRegistry.LoadKeyMoreFuel | Winspect.Windows.Registry/WindowsRegistry.cs:93-118 | A load that succeeds gives the same key with any larger fuel. |
| WindowsRegistry.LoadSubkeysMoreFuel | Winspect.Windows.Registry/WindowsRegistry.cs:98-113 | The same for a list of subkeys. |
| WindowsRegistry.LoadKeyDepth | Winspect.Windows.Registry/WindowsRegistry.cs:93-118 | A loaded key is no deeper than the fuel. |
| WindowsRegistry.LoadSubkeysDepth | Winspect.Windows.Registry/WindowsRegistry.cs:98-113 | Loaded subkeys are no deeper than the fuel. |
| WindowsRegistry.LoadFromPrimaryFile | Winspect.Windows.Registry/WindowsRegistry.cs:16-33 | Every failure is BadRegfFileException, apart from running out of fuel. |
| WindowsRegistry.LoadFromPrimaryFileSpec | Winspect.Windows.Registry/WindowsRegistry.cs:16-33 | A hive loads exactly when the root cell offset finds a key node whose key loads. The result is that key, named after the root. |

## Left out

- Fuel: the descriptor and thunk loops, which end only at an all-zero entry, and the resource and registry-key recursions have no bound in the source. The model bounds them with `fuel` and reports `OutOfFuel` when it runs out. A cyclic table or tree, which the source would loop on or overflow the stack with, is therefore not modelled as non-termination.
- SHA-256 and its hex formatting in `GetResourceHash` are foreign code. The digest is a function parameter `sha` returning 32 bytes. Only the hex printing of those bytes is modelled.
- Text decoding: ASCII maps bytes above 0x7F to '?'. UTF-16 pairs little-endian bytes and turns an odd last byte into U+FFFD. Multibyte UTF-8 in section names is not decoded: non-ASCII bytes become U+FFFD, one each. Surrogate validation and replacement details of .NET beyond these are not modelled.
- The CodeView GUID is kept as its 16 raw bytes, not as a `Guid` value.
- `GetHashCode` overrides of `ExportName` and `ResourceId`, and the comparer's `GetHashCode`, are left out. Datatype equality decides dictionary keys, which is what `Equals` states.
- The command-line programs (PEInspect, PEDiff, RegInspect) are argument parsing and console output. They are not part of this model.
- The `FileStream` constructors `PortableExecutable(string)` and `PrimaryFile(string)` open files. The model starts from the bytes, and ownership is the `takeOwnership` flag deciding whether the stream is kept.
- The stream is an immutable byte sequence with explicit positions. `stream.Position` assignments and shared-stream side effects between the directory loaders are not modelled beyond the positions each read uses. The `PortableExecutable` constructor reads the DOS header from the stream's current position and does not rewind it; the model assumes it is given a stream at position 0, as `PrimaryFile` ensures for its own stream by seeking there.
- `DelayImportDirectory` and `DebugDirectory` are not loaded by the `PortableExecutable` constructor, which loads only the export, import and resource directories. The model provides their loaders but no `PortableExecutable` property for them.
- `GetKeyValueOffsets` throws `NotImplementedException` and key values are never read, so values are not modelled.
- `Cell.GetRecord` and the `KeyName` property of a key node are not part of this model's sources. They are function parameters of the registry walk.
- `Key` is modelled as a value (a name and a sequence of subkeys), since nothing mutates a key after it is built.
- Span bounds: a .NET span shorter than a decoder needs throws `ArgumentException` or `ArgumentOutOfRangeException`. Both are the single `Argument` error.
- `new byte[n]` with `n` above Array.MaxLength is the `OutOfMemory` error. This covers a hive-bin header size below 32, which wraps around, and a resource data entry's Size. The exact .NET exception (`OutOfMemoryException` or `OverflowException`) is not distinguished.
- Enumerations (Machine, Characteristics, DllCharacteristics, Subsystem, SectionCharacteristics, DebugType, DataType) are kept as the raw integers the source casts them from. Only the values the code compares against are named constants.
- .NET dictionaries do not promise an enumeration order. The model fixes insertion order, which is what the current runtime yields for dictionaries without removals.

## Findings

| source | as written | input that shows it | evidently intended | confidence | as-written member | corrected member |
|---|---|---|---|---|---|---|
| Winspect.Formats.PE/Directories/DelayImport/DelayImportedLibrary.cs:102-109 | Each name-table entry of a VA-based descriptor is rebased with `GetRVA(d, pe)` before `GetOrdinalOrName` reads it, so the zero terminator is rebased too. | A 32-bit VA-based image with ImageBase 0x400000 and a zero entry: it becomes 0xFFC00000, has the ordinal flag set, and is read as an import by ordinal 0 instead of ending the table. | The zero entry ends the table and an ordinal entry keeps its flag and number; only name entries are addresses to rebase. | not executed | DelayImportedLibraries.TerminatorMissedAsWritten | DelayImportedLibraries.TerminatorKeptAsIntended |
| Winspect.Formats.PE/Directories/DelayImport/DelayImportedLibrary.cs:83 | The DLL name is read at `RVAToFileOffset(DllName.RVA)` before the VA is rebased on line 85. | A VA-based descriptor with DllName 0x401000 under ImageBase 0x400000 and one section at RVA 0x1000: no section holds 0x401000, so `RVAToFileOffset` throws ArgumentException. | The name is read at the rebased RVA 0x1000, file offset 0x400. | not executed | DelayImportedLibraries.NameMisreadAsWritten | DelayImportedLibraries.NameReadAsIntended |

The delay-import directory loader takes the reading as a parameter. `AsWritten` models the code, and `Intended` is the corrected loader. `LoadReadingsAgree` proves the two agree on every directory whose descriptors are RVA-based.
