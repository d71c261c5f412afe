/** The per-symbol records of the export and import tables. */
module Functions {
  import opened Bytes
  import opened Results
  import opened Text

  /** One export: its biased ordinal, its address, and the name, hint and forwarder when the table has them. */
  datatype ExportedFunction = ExportedFunction(
    ordinal: uint16,
    functionRva: uint32,
    name: Option<(uint32, Str)>,
    hint: Option<uint16>,
    forwarder: Option<Str>)

  /** One import: by ordinal, or by name with its hint; the all-absent value is the table's terminator. */
  datatype ImportedFunction = ImportedFunction(
    ordinal: Option<uint16>,
    name: Option<Str>,
    hint: Option<uint16>)
  {
    predicate IsNothing() { ordinal.None? && name.None? && hint.None? }
  }
}
