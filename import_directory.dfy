/**
 * The import directory: descriptors read one after another from the
 * directory's RVA up to the sentinel, each added by its library name. The
 * descriptor walk is shared with the delay-import directory.
 */
module ImportDirectories {
  import opened Bytes
  import opened Results
  import opened Text
  import opened Seqs
  import opened OrderedMaps
  import opened DataDirectories
  import opened Images
  import opened ImportedLibraries

  /**
   * The descriptor loop from descriptor `i`: stop at the sentinel (None),
   * otherwise `Imports.Add(name, descriptor)` when the name was read; `fuel`
   * bounds the loop.
   */
  function LibrariesFrom<L>(descAt: nat -> Result<Option<L>>, nameOf: L -> Option<Str>, i: nat,
                            libs: OrderedMap<Str, L>, fuel: nat): Result<OrderedMap<Str, L>>
    decreases fuel
  {
    if fuel == 0 then Err(OutOfFuel)
    else
      var d :- descAt(i);
      if d.None? then Ok(libs)
      else if nameOf(d.value).Some? then
        var next :- libs.Add(nameOf(d.value).value, d.value);
        LibrariesFrom(descAt, nameOf, i + 1, next, fuel - 1)
      else LibrariesFrom(descAt, nameOf, i + 1, libs, fuel - 1)
  }

  /** Two readers that agree from descriptor `i` on walk to the same dictionary. */
  lemma {:induction false} LibrariesFromAgree<L>(a: nat -> Result<Option<L>>, b: nat -> Result<Option<L>>,
                                                nameOf: L -> Option<Str>, i: nat, libs: OrderedMap<Str, L>, fuel: nat)
    requires forall j: nat | i <= j :: a(j) == b(j)
    ensures LibrariesFrom(a, nameOf, i, libs, fuel) == LibrariesFrom(b, nameOf, i, libs, fuel)
    decreases fuel
  {
    if fuel > 0 && a(i).Ok? && a(i).value.Some? {
      var d := a(i).value.value;
      if nameOf(d).Some? {
        var next := libs.Add(nameOf(d).value, d);
        if next.Ok? {
          LibrariesFromAgree(a, b, nameOf, i + 1, next.value, fuel - 1);
        }
      } else {
        LibrariesFromAgree(a, b, nameOf, i + 1, libs, fuel - 1);
      }
    }
  }

  /** Every descriptor the reader yields carries its name, as LoadDescriptor guarantees. */
  ghost predicate AllNamed<L>(descAt: nat -> Result<Option<L>>, nameOf: L -> Option<Str>)
  {
    forall j: nat :: descAt(j).Ok? && descAt(j).value.Some? ==> nameOf(descAt(j).value.value).Some?
  }

  /** A successful walk keeps the dictionary well formed. */
  lemma {:induction false} LibrariesFromValid<L>(descAt: nat -> Result<Option<L>>, nameOf: L -> Option<Str>, i: nat,
                                                libs: OrderedMap<Str, L>, fuel: nat)
    requires libs.Valid()
    requires LibrariesFrom(descAt, nameOf, i, libs, fuel).Ok?
    ensures LibrariesFrom(descAt, nameOf, i, libs, fuel).value.Valid()
    decreases fuel
  {
    var d := descAt(i).value;
    if d.Some? {
      if nameOf(d.value).Some? {
        LibrariesFromValid(descAt, nameOf, i + 1, libs.Add(nameOf(d.value).value, d.value).value, fuel - 1);
      } else {
        LibrariesFromValid(descAt, nameOf, i + 1, libs, fuel - 1);
      }
    }
  }

  /** A named descriptor that is added moves the walk on to the next descriptor. */
  lemma LibrariesFromStep<L>(descAt: nat -> Result<Option<L>>, nameOf: L -> Option<Str>, i: nat,
                             libs: OrderedMap<Str, L>, fuel: nat, d: L, n: Str, next: OrderedMap<Str, L>)
    requires fuel > 0 && descAt(i) == Ok(Some(d)) && nameOf(d) == Some(n) && libs.Add(n, d) == Ok(next)
    ensures LibrariesFrom(descAt, nameOf, i, libs, fuel) == LibrariesFrom(descAt, nameOf, i + 1, next, fuel - 1)
  {
  }

  /** With every descriptor named, a successful walk keeps what it had, in order. */
  lemma {:induction false} LibrariesFromKeeps<L>(descAt: nat -> Result<Option<L>>, nameOf: L -> Option<Str>, i: nat,
                                                libs: OrderedMap<Str, L>, fuel: nat)
    requires AllNamed(descAt, nameOf)
    requires LibrariesFrom(descAt, nameOf, i, libs, fuel).Ok?
    ensures var r := LibrariesFrom(descAt, nameOf, i, libs, fuel).value;
      && |libs.keys| <= |r.keys| && r.keys[..|libs.keys|] == libs.keys
      && (forall k | k in libs.items :: k in r.items && r.items[k] == libs.items[k])
    decreases fuel
  {
    var d := descAt(i).value;
    if d.Some? {
      var n := nameOf(d.value).value;
      var next := libs.Add(n, d.value).value;
      LibrariesFromStep(descAt, nameOf, i, libs, fuel, d.value, n, next);
      LibrariesFromKeeps(descAt, nameOf, i + 1, next, fuel - 1);
      var r := LibrariesFrom(descAt, nameOf, i, libs, fuel).value;
      assert r.keys[..|next.keys|][..|libs.keys|] == r.keys[..|libs.keys|];
    }
  }

  /** With every descriptor named, a successful walk adds one entry per descriptor and stops at a sentinel. */
  lemma {:induction false} LibrariesFromEnd<L>(descAt: nat -> Result<Option<L>>, nameOf: L -> Option<Str>, i: nat,
                                              libs: OrderedMap<Str, L>, fuel: nat)
    requires AllNamed(descAt, nameOf)
    requires LibrariesFrom(descAt, nameOf, i, libs, fuel).Ok?
    ensures var r := LibrariesFrom(descAt, nameOf, i, libs, fuel).value;
      && |libs.keys| <= |r.keys|
      && descAt(i + |r.keys| - |libs.keys|) == Ok(None)
    decreases fuel
  {
    var d := descAt(i).value;
    if d.Some? {
      var n := nameOf(d.value).value;
      var next := libs.Add(n, d.value).value;
      LibrariesFromStep(descAt, nameOf, i, libs, fuel, d.value, n, next);
      LibrariesFromEnd(descAt, nameOf, i + 1, next, fuel - 1);
    }
  }

  /** Entry m of a successful walk is descriptor `i + m - |libs.keys|`, keyed by its name. */
  lemma {:induction false} LibrariesFromEntry<L>(descAt: nat -> Result<Option<L>>, nameOf: L -> Option<Str>, i: nat,
                                                libs: OrderedMap<Str, L>, fuel: nat, m: nat)
    requires AllNamed(descAt, nameOf)
    requires LibrariesFrom(descAt, nameOf, i, libs, fuel).Ok?
    requires |libs.keys| <= m < |LibrariesFrom(descAt, nameOf, i, libs, fuel).value.keys|
    ensures var r := LibrariesFrom(descAt, nameOf, i, libs, fuel).value;
      && r.keys[m] in r.items
      && descAt(i + m - |libs.keys|) == Ok(Some(r.items[r.keys[m]]))
      && nameOf(r.items[r.keys[m]]) == Some(r.keys[m])
    decreases fuel
  {
    var d := descAt(i).value;
    assert d.Some? && nameOf(d.value).Some?;
    var n := nameOf(d.value).value;
    var next := libs.Add(n, d.value).value;
    LibrariesFromStep(descAt, nameOf, i, libs, fuel, d.value, n, next);
    LibrariesFromKeeps(descAt, nameOf, i + 1, next, fuel - 1);
    var r := LibrariesFrom(descAt, nameOf, i + 1, next, fuel - 1).value;
    if m == |libs.keys| {
      assert next.keys[m] == n && next.items[n] == d.value;
      assert r.keys[m] == n by {
        assert r.keys[m] == r.keys[..|next.keys|][m];
      }
    } else {
      LibrariesFromEntry(descAt, nameOf, i + 1, next, fuel - 1, m);
    }
  }

  /**
   * A successful walk from the first descriptor holds, in order, one entry
   * per descriptor before the first sentinel, keyed by the descriptor's name,
   * and those names are pairwise distinct (a repeated name fails the load).
   */
  lemma LibraryTableContents<L>(descAt: nat -> Result<Option<L>>, nameOf: L -> Option<Str>, fuel: nat)
    requires AllNamed(descAt, nameOf)
    requires LibrariesFrom(descAt, nameOf, 0, Empty(), fuel).Ok?
    ensures var r := LibrariesFrom(descAt, nameOf, 0, Empty(), fuel).value;
      && r.Valid()
      && (forall m | 0 <= m < |r.keys| ::
            && descAt(m) == Ok(Some(r.items[r.keys[m]]))
            && nameOf(r.items[r.keys[m]]) == Some(r.keys[m]))
      && descAt(|r.keys|) == Ok(None)
  {
    var e: OrderedMap<Str, L> := Empty();
    LibrariesFromValid(descAt, nameOf, 0, e, fuel);
    LibrariesFromEnd(descAt, nameOf, 0, e, fuel);
    LibrariesFromKeeps(descAt, nameOf, 0, e, fuel);
    var r := LibrariesFrom(descAt, nameOf, 0, e, fuel).value;
    forall m | 0 <= m < |r.keys|
      ensures descAt(m) == Ok(Some(r.items[r.keys[m]])) && nameOf(r.items[r.keys[m]]) == Some(r.keys[m])
    {
      LibrariesFromEntry(descAt, nameOf, 0, e, fuel, m);
    }
  }

  /** `for (int i = 0; ; ++i)` over the descriptors, adding to the `Imports` dictionary. */
  method CollectLibraries<L>(descAt: nat -> Result<Option<L>>, nameOf: L -> Option<Str>, fuel: nat)
    returns (r: Result<OrderedMap<Str, L>>)
    ensures r == LibrariesFrom(descAt, nameOf, 0, Empty(), fuel)
  {
    var libs: OrderedMap<Str, L> := Empty();
    var i: nat := 0;
    while i < fuel
      invariant i <= fuel
      invariant LibrariesFrom(descAt, nameOf, 0, Empty(), fuel) == LibrariesFrom(descAt, nameOf, i, libs, fuel - i)
      decreases fuel - i
    {
      var d := descAt(i);
      if d.Err? {
        return Err(d.error);
      }
      if d.value.None? {
        return Ok(libs);
      }
      var name := nameOf(d.value.value);
      if name.Some? {
        var next := libs.Add(name.value, d.value.value);
        if next.Err? {
          return Err(next.error);
        }
        libs := next.value;
      }
      i := i + 1;
    }
    return Err(OutOfFuel);
  }

  // ---- ImportDirectory ----

  datatype ImportDirectory = ImportDirectory(imports: Option<OrderedMap<Str, ImportedLibrary>>)

  /** Descriptor i: `RVAToFileOffset((uint)(VirtualAddress + i * 20))`, `ReadExactly`, `LoadDescriptor`. */
  function DescriptorAt(img: Image, data: seq<uint8>, va: uint32, fuel: nat, i: nat): Result<Option<ImportedLibrary>>
  {
    var bytes :- BytesAt(img, data, Wrap32(va + i * IMPORT_DESCRIPTOR_SIZE), IMPORT_DESCRIPTOR_SIZE);
    LoadedDescriptor(img, data, bytes, fuel)
  }

  function DescriptorReaderOf(img: Image, data: seq<uint8>, va: uint32, fuel: nat): nat -> Result<Option<ImportedLibrary>>
  {
    (j: nat) => DescriptorAt(img, data, va, fuel, j)
  }

  /** The key of a descriptor, `Name.Name`. */
  function LibraryName(lib: ImportedLibrary): Option<Str>
  {
    lib.name.1
  }

  /** `ImportDirectory.LoadDirectory`; `fuel` bounds both the descriptor loop and each thunk loop. */
  function LoadImportDirectory(img: Image, data: seq<uint8>, fuel: nat): (r: Result<ImportDirectory>)
    requires img.Valid()
    ensures img.Directory(Import).IsEmpty() ==> r == Err(InvalidOperation)
    ensures r.Ok? ==> r.value.imports.Some?
  {
    var dir := img.Directory(Import);
    if dir.IsEmpty() then Err(InvalidOperation)
    else
      var libs :- LibrariesFrom(DescriptorReaderOf(img, data, dir.virtualAddress, fuel), LibraryName, 0, Empty(), fuel);
      Ok(ImportDirectory(Some(libs)))
  }

  method LoadDirectory(img: Image, data: seq<uint8>, fuel: nat) returns (r: Result<ImportDirectory>)
    requires img.Valid()
    ensures r == LoadImportDirectory(img, data, fuel)
  {
    var dir := img.Directory(Import);
    if dir.IsEmpty() {
      return Err(InvalidOperation);
    }
    var libs := CollectLibraries(DescriptorReaderOf(img, data, dir.virtualAddress, fuel), LibraryName, fuel);
    if libs.Err? {
      return Err(libs.error);
    }
    return Ok(ImportDirectory(Some(libs.value)));
  }

  lemma DescriptorsNamed(img: Image, data: seq<uint8>, va: uint32, fuel: nat)
    ensures AllNamed(DescriptorReaderOf(img, data, va, fuel), LibraryName)
  {
    forall j: nat | DescriptorReaderOf(img, data, va, fuel)(j).Ok? && DescriptorReaderOf(img, data, va, fuel)(j).value.Some?
      ensures LibraryName(DescriptorReaderOf(img, data, va, fuel)(j).value.value).Some?
    {
      assert DescriptorReaderOf(img, data, va, fuel)(j) == DescriptorAt(img, data, va, fuel, j);
    }
  }

  /**
   * A loaded import directory holds, in order, the descriptors at
   * `VA + 20m` before the first sentinel, each keyed by its library name;
   * the names are distinct.
   */
  lemma LoadImportDirectoryContents(img: Image, data: seq<uint8>, fuel: nat)
    requires img.Valid() && LoadImportDirectory(img, data, fuel).Ok?
    ensures var dir := img.Directory(Import);
      var libs := LoadImportDirectory(img, data, fuel).value.imports.value;
      && libs.Valid()
      && (forall m | 0 <= m < |libs.keys| ::
            && DescriptorAt(img, data, dir.virtualAddress, fuel, m) == Ok(Some(libs.items[libs.keys[m]]))
            && libs.items[libs.keys[m]].name.1 == Some(libs.keys[m]))
      && DescriptorAt(img, data, dir.virtualAddress, fuel, |libs.keys|) == Ok(None)
  {
    var dir := img.Directory(Import);
    var t := DescriptorReaderOf(img, data, dir.virtualAddress, fuel);
    DescriptorsNamed(img, data, dir.virtualAddress, fuel);
    LibraryTableContents(t, LibraryName, fuel);
    var libs := LoadImportDirectory(img, data, fuel).value.imports.value;
    forall m | 0 <= m < |libs.keys|
      ensures DescriptorAt(img, data, dir.virtualAddress, fuel, m) == Ok(Some(libs.items[libs.keys[m]]))
    {
      assert t(m) == DescriptorAt(img, data, dir.virtualAddress, fuel, m);
    }
    assert t(|libs.keys|) == DescriptorAt(img, data, dir.virtualAddress, fuel, |libs.keys|);
  }
}
