/**
 * What a directory loader sees of the PortableExecutable under construction:
 * the optional header's data directories and the section table, together
 * with the image file read as a byte sequence. Every read goes through an
 * RVA, mapped to a file offset by the section table.
 */
module Images {
  import opened Bytes
  import opened Results
  import opened Text
  import opened DataDirectories
  import opened OptionalHeaders
  import opened SectionHeaders
  import opened StreamHelper

  datatype Image = Image(optionalHeader: OptionalHeader, sections: seq<SectionHeader>)
  {
    /** The optional header holds its sixteen data-directory slots. */
    predicate Valid() { optionalHeader.Valid() }

    /** `pe.OptionalHeader.DataDirectories[entry]`. */
    function Directory(e: DirectoryEntry): DataDirectory
      requires Valid()
    {
      optionalHeader.Directory(e)
    }

    /** The thunk and pointer width test of the import walkers. */
    predicate IsPe32Plus() { optionalHeader.magic == PE32_PLUS_SIGNATURE }
  }

  /** `stream.Position = RVAToFileOffset(rva); stream.ReadExactly(buffer[0..n])`. */
  function BytesAt(img: Image, data: seq<uint8>, rva: uint32, n: nat): (r: Result<seq<uint8>>)
    ensures r.Ok? <==> RvaToFileOffset(img.sections, rva).Ok? && (n == 0 || RvaToFileOffset(img.sections, rva).value + n <= |data|)
    ensures r.Ok? ==> var off := RvaToFileOffset(img.sections, rva).value;
      |r.value| == n && (off + n <= |data| ==> r.value == data[off..off + n])
  {
    var off :- RvaToFileOffset(img.sections, rva);
    ReadExactly(data, off, n)
  }

  /** `stream.Position = RVAToFileOffset(rva); StreamHelper.ReadString(stream, encoding, null)`. */
  function StringAtRva(img: Image, data: seq<uint8>, rva: uint32, enc: Encoding): (r: Result<Str>)
    ensures r.Ok? ==> NUL !in r.value
    ensures r.Ok? <==> RvaToFileOffset(img.sections, rva).Ok? && StringAt(data, RvaToFileOffset(img.sections, rva).value, enc).Ok?
  {
    var off :- RvaToFileOffset(img.sections, rva);
    var read :- StringAt(data, off, enc);
    Ok(read.0)
  }
}
