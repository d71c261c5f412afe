/**
 * ExportName: the identity of a symbol in the export and import diffs,
 * a name or an ordinal.
 */
module ExportNames {
  import opened Bytes
  import opened Results
  import opened Text
  import opened Functions

  datatype ExportName = ExportName(name: Option<Str>, ordinal: Option<uint16>)

  /** `new ExportName(string)`, also the implicit conversion from string. */
  function Named(name: Str): (r: ExportName)
    ensures r.name == Some(name) && r.ordinal.None?
  {
    ExportName(Some(name), None)
  }

  /** `new ExportName(ushort)`, also the implicit conversion from ushort. */
  function ByOrdinal(ordinal: uint16): (r: ExportName)
    ensures r.name.None? && r.ordinal == Some(ordinal)
  {
    ExportName(None, Some(ordinal))
  }

  /** `Equals`: both components compare equal (strings ordinally). */
  predicate Equals(a: ExportName, b: ExportName)
  {
    a.name == b.name && a.ordinal == b.ordinal
  }

  /**
   * The override compares exactly the two fields, name and ordinal, so it is
   * value equality: a dictionary keyed through it (ExportsDiff's `Changes`)
   * may be modelled as a map keyed by the value.
   */
  lemma EqualsIsIdentity(a: ExportName, b: ExportName)
    ensures Equals(a, b) <==> a == b
  {
  }

  /** A name never equals an ordinal, and each constructor is injective. */
  lemma ConstructorsDistinct(n: Str, m: Str, o: uint16, p: uint16)
    ensures !Equals(Named(n), ByOrdinal(o))
    ensures Equals(Named(n), Named(m)) <==> n == m
    ensures Equals(ByOrdinal(o), ByOrdinal(p)) <==> o == p
  {
  }

  /** `GetExportName(ExportedFunction)`: the name when the export has one, else its ordinal. */
  function OfExport(exported: ExportedFunction): (r: ExportName)
    ensures exported.name.Some? ==> r == Named(exported.name.value.1)
    ensures exported.name.None? ==> r == ByOrdinal(exported.ordinal)
  {
    if exported.name.Some? then Named(exported.name.value.1) else ByOrdinal(exported.ordinal)
  }

  /**
   * Named exports get the same identity exactly when their names agree,
   * whatever their ordinals; unnamed ones exactly when their ordinals agree.
   */
  lemma OfExportIdentity(e: ExportedFunction, f: ExportedFunction)
    ensures e.name.Some? && f.name.Some? ==> (OfExport(e) == OfExport(f) <==> e.name.value.1 == f.name.value.1)
    ensures e.name.None? && f.name.None? ==> (OfExport(e) == OfExport(f) <==> e.ordinal == f.ordinal)
    ensures e.name.Some? != f.name.Some? ==> OfExport(e) != OfExport(f)
  {
  }

  /** `GetExportName(ImportedFunction)`: the name, else the ordinal, else ArgumentException. */
  function OfImport(imported: ImportedFunction): (r: Result<ExportName>)
    ensures r.Err? <==> imported.name.None? && imported.ordinal.None?
    ensures r.Err? ==> r.error == Argument
    ensures imported.name.Some? ==> r == Ok(Named(imported.name.value))
    ensures imported.name.None? && imported.ordinal.Some? ==> r == Ok(ByOrdinal(imported.ordinal.value))
  {
    if imported.name.Some? then Ok(Named(imported.name.value))
    else if imported.ordinal.Some? then Ok(ByOrdinal(imported.ordinal.value))
    else Err(Argument)
  }

  /** An import and an export of the same name, or of the same ordinal when unnamed, get the same identity. */
  lemma SameIdentityAcrossTables(e: ExportedFunction, i: ImportedFunction)
    requires OfImport(i).Ok?
    ensures e.name.Some? && i.name.Some? ==> (OfExport(e) == OfImport(i).value <==> e.name.value.1 == i.name.value)
    ensures e.name.None? && i.name.None? ==> (OfExport(e) == OfImport(i).value <==> Some(e.ordinal) == i.ordinal)
  {
  }
}
