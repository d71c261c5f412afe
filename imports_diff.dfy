/**
 * ImportsDiff: the imports of two images compared by (library name,
 * ExportName), for the import directory, for the delay-import directory,
 * and merged by `ImportsDiff.Diff`; plus the per-library queries.
 *
 * The constructors interleave `GetExportName` with the dictionary updates.
 * Both can fail only with an ArgumentException, so the model first lists
 * each side's keys and then runs the two diff passes over them, which ends
 * in the same outcome.
 */
module ImportsDiffs {
  import opened Bytes
  import opened Results
  import opened Text
  import opened Seqs
  import opened OrderedMaps
  import opened Diffs
  import opened Functions
  import opened ExportNames
  import opened DataDirectories
  import opened Images
  import opened ImportedLibraries
  import opened ImportDirectories
  import opened DelayImportedLibraries
  import opened DelayImportDirectories

  type ImportKey = (Str, ExportName)

  datatype ImportsDiff = ImportsDiff(changes: Changes<ImportKey>)

  /** A library of a directory's dictionary: its key and its (possibly null) `Imports`. */
  type LibraryEntry = (Str, Option<seq<ImportedFunction>>)

  // ---- the keys of one side ----

  /** The inner foreach: `(libName, GetExportName(import))` for each import, in order. */
  function ImportKeysFrom(acc: seq<ImportKey>, lib: Str, fs: seq<ImportedFunction>): Result<seq<ImportKey>>
    decreases |fs|
  {
    if fs == [] then Ok(acc)
    else
      var n :- OfImport(fs[0]);
      ImportKeysFrom(acc + [(lib, n)], lib, fs[1..])
  }

  /** The outer foreach: the libraries in order, skipping a null `Imports`. */
  function LibraryKeysFrom(acc: seq<ImportKey>, entries: seq<LibraryEntry>): Result<seq<ImportKey>>
    decreases |entries|
  {
    if entries == [] then Ok(acc)
    else if entries[0].1.None? then LibraryKeysFrom(acc, entries[1..])
    else
      var next :- ImportKeysFrom(acc, entries[0].0, entries[0].1.value);
      LibraryKeysFrom(next, entries[1..])
  }

  /** Every import of every non-null list has a name or an ordinal. */
  ghost predicate AllIdentified(entries: seq<LibraryEntry>)
  {
    forall i, j | 0 <= i < |entries| && entries[i].1.Some? && 0 <= j < |entries[i].1.value| ::
      OfImport(entries[i].1.value[j]).Ok?
  }

  /** `key` is `(library, identity)` of some import of a non-null list. */
  ghost predicate Imports(entries: seq<LibraryEntry>, key: ImportKey)
  {
    exists i, j | 0 <= i < |entries| && entries[i].1.Some? && 0 <= j < |entries[i].1.value| ::
      entries[i].0 == key.0 && OfImport(entries[i].1.value[j]) == Ok(key.1)
  }

  /** The inner pass appends one key per import, or fails on an import with neither a name nor an ordinal. */
  lemma {:induction false} ImportKeysFromSpec(acc: seq<ImportKey>, lib: Str, fs: seq<ImportedFunction>)
    ensures var r := ImportKeysFrom(acc, lib, fs);
      && (r.Ok? <==> forall j | 0 <= j < |fs| :: OfImport(fs[j]).Ok?)
      && (r.Err? ==> r.error == Argument)
      && (r.Ok? ==>
            && |r.value| == |acc| + |fs|
            && r.value[..|acc|] == acc
            && forall j | 0 <= j < |fs| :: r.value[|acc| + j] == (lib, OfImport(fs[j]).value))
    decreases |fs|
  {
    if fs != [] {
      if OfImport(fs[0]).Ok? {
        var next := acc + [(lib, OfImport(fs[0]).value)];
        ImportKeysFromSpec(next, lib, fs[1..]);
        var r := ImportKeysFrom(acc, lib, fs);
        assert r == ImportKeysFrom(next, lib, fs[1..]);
        if r.Ok? {
          assert r.value[..|acc|] == next[..|acc|];
          forall j | 0 <= j < |fs| ensures r.value[|acc| + j] == (lib, OfImport(fs[j]).value) {
            if j > 0 {
              assert fs[1..][j - 1] == fs[j];
              assert r.value[|next| + (j - 1)] == (lib, OfImport(fs[1..][j - 1]).value);
            }
          }
        } else {
          var j :| 0 <= j < |fs[1..]| && !OfImport(fs[1..][j]).Ok?;
          assert fs[j + 1] == fs[1..][j];
        }
      }
    }
  }

  /**
   * The outer pass fails, with an ArgumentException, exactly when some
   * import has neither a name nor an ordinal; otherwise the keys are those
   * of `acc` followed by exactly the keys of the imports.
   */
  lemma {:induction false} LibraryKeysFromSpec(acc: seq<ImportKey>, entries: seq<LibraryEntry>)
    ensures var r := LibraryKeysFrom(acc, entries);
      && (r.Ok? <==> AllIdentified(entries))
      && (r.Err? ==> r.error == Argument)
      && (r.Ok? ==> forall key :: key in r.value <==> key in acc || Imports(entries, key))
    decreases |entries|
  {
    if entries != [] {
      var rest := entries[1..];
      assert forall i | 0 <= i < |rest| :: rest[i] == entries[i + 1];
      var e := entries[0];
      if e.1.None? {
        LibraryKeysFromSpec(acc, rest);
        AllIdentifiedTail(entries);
        ImportsTail(entries);
      } else {
        ImportKeysFromSpec(acc, e.0, e.1.value);
        var first := ImportKeysFrom(acc, e.0, e.1.value);
        if first.Ok? {
          LibraryKeysFromSpec(first.value, rest);
          AllIdentifiedTail(entries);
          ImportsTail(entries);
          FirstLibraryKeys(acc, e.0, e.1.value);
        } else {
          assert !AllIdentified(entries) by {
            var j :| 0 <= j < |e.1.value| && !OfImport(e.1.value[j]).Ok?;
            assert entries[0].1.value[j] == e.1.value[j];
          }
        }
      }
    }
  }

  /** The keys after one library: those before it and one per import of it. */
  lemma FirstLibraryKeys(acc: seq<ImportKey>, lib: Str, fs: seq<ImportedFunction>)
    requires ImportKeysFrom(acc, lib, fs).Ok?
    ensures forall key :: key in ImportKeysFrom(acc, lib, fs).value <==>
      key in acc || exists j | 0 <= j < |fs| :: lib == key.0 && OfImport(fs[j]) == Ok(key.1)
  {
    ImportKeysFromSpec(acc, lib, fs);
    var r := ImportKeysFrom(acc, lib, fs).value;
    forall key ensures key in r <==> key in acc || exists j | 0 <= j < |fs| :: lib == key.0 && OfImport(fs[j]) == Ok(key.1) {
      if key in r {
        var m :| 0 <= m < |r| && r[m] == key;
        if m >= |acc| {
          var j := m - |acc|;
          assert r[|acc| + j] == (lib, OfImport(fs[j]).value);
          assert OfImport(fs[j]).Ok?;
        } else {
          assert r[..|acc|][m] == key;
        }
      }
      if key in acc {
        var m :| 0 <= m < |acc| && acc[m] == key;
        assert r[..|acc|][m] == key;
      }
      if exists j | 0 <= j < |fs| :: lib == key.0 && OfImport(fs[j]) == Ok(key.1) {
        var j :| 0 <= j < |fs| && lib == key.0 && OfImport(fs[j]) == Ok(key.1);
        assert r[|acc| + j] == key;
      }
    }
  }

  lemma AllIdentifiedTail(entries: seq<LibraryEntry>)
    requires entries != []
    ensures AllIdentified(entries) <==>
      && (entries[0].1.Some? ==> forall j | 0 <= j < |entries[0].1.value| :: OfImport(entries[0].1.value[j]).Ok?)
      && AllIdentified(entries[1..])
  {
    var rest := entries[1..];
    if AllIdentified(entries) {
      forall i, j | 0 <= i < |rest| && rest[i].1.Some? && 0 <= j < |rest[i].1.value|
        ensures OfImport(rest[i].1.value[j]).Ok?
      {
        assert rest[i] == entries[i + 1];
      }
    }
    if
      && (entries[0].1.Some? ==> forall j | 0 <= j < |entries[0].1.value| :: OfImport(entries[0].1.value[j]).Ok?)
      && AllIdentified(rest)
    {
      forall i, j | 0 <= i < |entries| && entries[i].1.Some? && 0 <= j < |entries[i].1.value|
        ensures OfImport(entries[i].1.value[j]).Ok?
      {
        if i > 0 {
          assert rest[i - 1] == entries[i];
        }
      }
    }
  }

  lemma ImportsTail(entries: seq<LibraryEntry>)
    requires entries != []
    ensures forall key :: Imports(entries, key) <==>
      || (entries[0].1.Some? && exists j | 0 <= j < |entries[0].1.value| ::
            entries[0].0 == key.0 && OfImport(entries[0].1.value[j]) == Ok(key.1))
      || Imports(entries[1..], key)
  {
    var rest := entries[1..];
    forall key ensures Imports(entries, key) <==>
      || (entries[0].1.Some? && exists j | 0 <= j < |entries[0].1.value| ::
            entries[0].0 == key.0 && OfImport(entries[0].1.value[j]) == Ok(key.1))
      || Imports(rest, key)
    {
      if Imports(entries, key) {
        var i, j :| 0 <= i < |entries| && entries[i].1.Some? && 0 <= j < |entries[i].1.value|
          && entries[i].0 == key.0 && OfImport(entries[i].1.value[j]) == Ok(key.1);
        if i > 0 {
          assert rest[i - 1] == entries[i];
        }
      }
      if Imports(rest, key) {
        var i, j :| 0 <= i < |rest| && rest[i].1.Some? && 0 <= j < |rest[i].1.value|
          && rest[i].0 == key.0 && OfImport(rest[i].1.value[j]) == Ok(key.1);
        assert rest[i] == entries[i + 1];
      }
    }
  }

  /** The libraries of a dictionary in enumeration order, with their `Imports`. */
  function EntriesOf<L>(libs: OrderedMap<Str, L>, importsOf: L -> Option<seq<ImportedFunction>>): (r: seq<LibraryEntry>)
    requires libs.Valid()
    ensures |r| == |libs.keys|
    ensures forall i | 0 <= i < |r| :: r[i] == (libs.keys[i], importsOf(libs.items[libs.keys[i]]))
  {
    seq(|libs.keys|, i requires 0 <= i < |libs.keys| => (libs.keys[i], importsOf(libs.items[libs.keys[i]])))
  }

  /** The loops of one side of a constructor over its libraries. */
  method CollectKeys(entries: seq<LibraryEntry>) returns (r: Result<seq<ImportKey>>)
    ensures r == LibraryKeysFrom([], entries)
  {
    var acc: seq<ImportKey> := [];
    var i := 0;
    while i < |entries|
      invariant 0 <= i <= |entries|
      invariant LibraryKeysFrom([], entries) == LibraryKeysFrom(acc, entries[i..])
    {
      assert entries[i..][1..] == entries[i + 1..];
      var lib := entries[i];
      if lib.1.Some? {
        var fs := lib.1.value;
        ghost var start := acc;
        var j := 0;
        while j < |fs|
          invariant 0 <= j <= |fs|
          invariant ImportKeysFrom(start, lib.0, fs) == ImportKeysFrom(acc, lib.0, fs[j..])
        {
          assert fs[j..][1..] == fs[j + 1..];
          var n := OfImport(fs[j]);
          if n.Err? {
            return Err(n.error);
          }
          acc := acc + [(lib.0, n.value)];
          j := j + 1;
        }
      }
      i := i + 1;
    }
    return Ok(acc);
  }

  // ---- the two constructors ----

  ghost predicate WellFormed(d: Option<ImportDirectory>)
  {
    d.Some? && d.value.imports.Some? ==> d.value.imports.value.Valid()
  }

  ghost predicate DelayWellFormed(d: Option<DelayImportDirectory>)
  {
    d.Some? && d.value.imports.Some? ==> d.value.imports.value.Valid()
  }

  function ImportsOf(lib: ImportedLibrary): Option<seq<ImportedFunction>> { lib.imports }

  function DelayImportsOf(lib: DelayImportedLibrary): Option<seq<ImportedFunction>> { lib.imports }

  /** A side's libraries; a null directory or a null dictionary has none. */
  function ImportEntries(d: Option<ImportDirectory>): seq<LibraryEntry>
    requires WellFormed(d)
  {
    if d.Some? && d.value.imports.Some? then EntriesOf(d.value.imports.value, ImportsOf) else []
  }

  function DelayEntries(d: Option<DelayImportDirectory>): seq<LibraryEntry>
    requires DelayWellFormed(d)
  {
    if d.Some? && d.value.imports.Some? then EntriesOf(d.value.imports.value, DelayImportsOf) else []
  }

  /** Both passes over the keys of two sides. */
  function EntriesDiff(a: seq<LibraryEntry>, b: seq<LibraryEntry>): Result<ImportsDiff>
  {
    var ka :- LibraryKeysFrom([], a);
    var kb :- LibraryKeysFrom([], b);
    var changes :- DiffOf(ka, kb);
    Ok(ImportsDiff(changes))
  }

  /** The value of `new ImportsDiff(ImportDirectory? a, ImportDirectory? b)`. */
  function ImportsDiffOf(a: Option<ImportDirectory>, b: Option<ImportDirectory>): Result<ImportsDiff>
    requires WellFormed(a) && WellFormed(b)
  {
    EntriesDiff(ImportEntries(a), ImportEntries(b))
  }

  /** The value of `new ImportsDiff(DelayImportDirectory? a, DelayImportDirectory? b)`. */
  function DelayImportsDiffOf(a: Option<DelayImportDirectory>, b: Option<DelayImportDirectory>): Result<ImportsDiff>
    requires DelayWellFormed(a) && DelayWellFormed(b)
  {
    EntriesDiff(DelayEntries(a), DelayEntries(b))
  }

  method BuildEntriesDiff(a: seq<LibraryEntry>, b: seq<LibraryEntry>) returns (r: Result<ImportsDiff>)
    ensures r == EntriesDiff(a, b)
  {
    var ka := CollectKeys(a);
    if ka.Err? {
      return Err(ka.error);
    }
    var kb := CollectKeys(b);
    if kb.Err? {
      return Err(kb.error);
    }
    var changes := BuildDiff(ka.value, kb.value);
    if changes.Err? {
      return Err(changes.error);
    }
    return Ok(ImportsDiff(changes.value));
  }

  /** `new ImportsDiff(ImportDirectory? a, ImportDirectory? b)`. */
  method NewImportsDiff(a: Option<ImportDirectory>, b: Option<ImportDirectory>) returns (r: Result<ImportsDiff>)
    requires WellFormed(a) && WellFormed(b)
    ensures r == ImportsDiffOf(a, b)
  {
    r := BuildEntriesDiff(ImportEntries(a), ImportEntries(b));
  }

  /** `new ImportsDiff(DelayImportDirectory? a, DelayImportDirectory? b)`, also `DelayImportDirectory.Diff`. */
  method NewDelayImportsDiff(a: Option<DelayImportDirectory>, b: Option<DelayImportDirectory>) returns (r: Result<ImportsDiff>)
    requires DelayWellFormed(a) && DelayWellFormed(b)
    ensures r == DelayImportsDiffOf(a, b)
  {
    r := BuildEntriesDiff(DelayEntries(a), DelayEntries(b));
  }

  /**
   * Construction fails, with an ArgumentException, exactly when an import
   * has neither a name nor an ordinal or a key repeats on the old side; a
   * successful diff is well formed, its keys are the imports of both sides,
   * none is Modified, and when neither side repeats a key an import is
   * Removed, Added or Unchanged as it is only old, only new, or both.
   */
  lemma EntriesDiffSpec(a: seq<LibraryEntry>, b: seq<LibraryEntry>)
    ensures var r := EntriesDiff(a, b);
      && (r.Ok? <==> AllIdentified(a) && AllIdentified(b) && LibraryKeysFrom([], a).Ok? && Distinct(LibraryKeysFrom([], a).value))
      && (r.Err? ==> r.error == Argument)
      && (r.Ok? ==>
            var c := r.value.changes;
            && c.Valid()
            && (forall key :: key in c.items <==> Imports(a, key) || Imports(b, key))
            && (forall key | key in c.items :: c.items[key] != Modified))
  {
    LibraryKeysFromSpec([], a);
    LibraryKeysFromSpec([], b);
    var ka := LibraryKeysFrom([], a);
    var kb := LibraryKeysFrom([], b);
    if ka.Err? {
      assert EntriesDiff(a, b) == Err(ka.error);
    } else if kb.Err? {
      assert EntriesDiff(a, b) == Err(kb.error);
    } else {
      var d := DiffOf(ka.value, kb.value);
      DiffOfSpec(ka.value, kb.value);
      if d.Err? {
        assert EntriesDiff(a, b) == Err(d.error);
      } else {
        var c := d.value;
        assert EntriesDiff(a, b) == Ok(ImportsDiff(c));
        forall key ensures key in c.items <==> Imports(a, key) || Imports(b, key) {
          assert key in ka.value <==> Imports(a, key);
          assert key in kb.value <==> Imports(b, key);
        }
      }
    }
  }

  /** When neither side repeats a key, each import's status says on which sides it occurs. */
  lemma EntriesDiffStatus(a: seq<LibraryEntry>, b: seq<LibraryEntry>, key: ImportKey)
    requires LibraryKeysFrom([], a).Ok? && Distinct(LibraryKeysFrom([], a).value)
    requires LibraryKeysFrom([], b).Ok? && Distinct(LibraryKeysFrom([], b).value)
    requires Imports(a, key) || Imports(b, key)
    ensures EntriesDiff(a, b).Ok?
    ensures var c := EntriesDiff(a, b).value.changes;
      && key in c.items
      && (c.items[key] == Removed <==> Imports(a, key) && !Imports(b, key))
      && (c.items[key] == Added <==> !Imports(a, key) && Imports(b, key))
      && (c.items[key] == Unchanged <==> Imports(a, key) && Imports(b, key))
  {
    LibraryKeysFromSpec([], a);
    LibraryKeysFromSpec([], b);
    DiffOfKeys(LibraryKeysFrom([], a).value, LibraryKeysFrom([], b).value);
  }

  /** A loaded descriptor's imports all have a name or an ordinal. */
  lemma LoadedLibraryIdentified(img: Image, data: seq<uint8>, va: uint32, fuel: nat, m: nat, lib: ImportedLibrary)
    requires DescriptorAt(img, data, va, fuel, m) == Ok(Some(lib))
    ensures lib.imports.Some? && forall f | f in lib.imports.value :: OfImport(f).Ok?
  {
    var bytes := BytesAt(img, data, Wrap32(va + m * IMPORT_DESCRIPTOR_SIZE), IMPORT_DESCRIPTOR_SIZE).value;
    assert LoadedDescriptor(img, data, bytes, fuel) == Ok(Some(lib));
    var d := DecodeImportDescriptor(bytes).value;
    ThunkTableKinds(img, data, d.ThunkTable(), fuel);
  }

  /** In either reading, a loaded delay descriptor's imports all have a name or an ordinal. */
  lemma LoadedDelayLibraryIdentified(img: Image, data: seq<uint8>, va: uint32, fuel: nat, reading: Reading, m: nat, lib: DelayImportedLibrary)
    requires DelayDescriptorAt(img, data, va, fuel, reading, m) == Ok(Some(lib))
    ensures lib.imports.Some? && forall f | f in lib.imports.value :: OfImport(f).Ok?
  {
    var bytes := BytesAt(img, data, Wrap32(va + m * DELAY_DESCRIPTOR_SIZE), DELAY_DESCRIPTOR_SIZE).value;
    assert LoadedDelayDescriptor(img, data, bytes, fuel, reading) == Ok(Some(lib));
    var d := DecodeDelayDescriptor(bytes).value;
    DelayThunkTableKinds(img, data, d, fuel, reading);
  }

  /**
   * `GetExportName` cannot throw on a loaded directory: every import the
   * loaders produce has a name or an ordinal.
   */
  lemma LoadedImportsIdentified(img: Image, data: seq<uint8>, fuel: nat)
    requires img.Valid() && LoadImportDirectory(img, data, fuel).Ok?
    ensures WellFormed(Some(LoadImportDirectory(img, data, fuel).value))
    ensures AllIdentified(ImportEntries(Some(LoadImportDirectory(img, data, fuel).value)))
  {
    LoadImportDirectoryContents(img, data, fuel);
    var libs := LoadImportDirectory(img, data, fuel).value.imports.value;
    var entries := ImportEntries(Some(LoadImportDirectory(img, data, fuel).value));
    forall i, j | 0 <= i < |entries| && entries[i].1.Some? && 0 <= j < |entries[i].1.value|
      ensures OfImport(entries[i].1.value[j]).Ok?
    {
      var lib := libs.items[libs.keys[i]];
      LoadedLibraryIdentified(img, data, img.Directory(Import).virtualAddress, fuel, i, lib);
      assert entries[i].1 == lib.imports;
      assert entries[i].1.value[j] in lib.imports.value;
    }
  }

  /** The same for a delay-import directory loaded in either reading. */
  lemma LoadedDelayImportsIdentified(img: Image, data: seq<uint8>, fuel: nat, reading: Reading)
    requires img.Valid() && LoadDelayImportDirectory(img, data, fuel, reading).Ok?
    ensures DelayWellFormed(Some(LoadDelayImportDirectory(img, data, fuel, reading).value))
    ensures AllIdentified(DelayEntries(Some(LoadDelayImportDirectory(img, data, fuel, reading).value)))
  {
    LoadDelayImportDirectoryContents(img, data, fuel, reading);
    var libs := LoadDelayImportDirectory(img, data, fuel, reading).value.imports.value;
    var entries := DelayEntries(Some(LoadDelayImportDirectory(img, data, fuel, reading).value));
    forall i, j | 0 <= i < |entries| && entries[i].1.Some? && 0 <= j < |entries[i].1.value|
      ensures OfImport(entries[i].1.value[j]).Ok?
    {
      var lib := libs.items[libs.keys[i]];
      LoadedDelayLibraryIdentified(img, data, img.Directory(DelayImport).virtualAddress, fuel, reading, i, lib);
      assert entries[i].1 == lib.imports;
      assert entries[i].1.value[j] in lib.imports.value;
    }
  }

  // ---- ImportsDiff.Diff ----

  /**
   * The merge loop of `Diff` over the delay diff's keys: a key the import
   * diff lacks takes its delay status, a key it has becomes Modified.
   */
  function MergeFrom(acc: Changes<ImportKey>, delay: Changes<ImportKey>, ks: seq<ImportKey>): Changes<ImportKey>
    requires forall i | 0 <= i < |ks| :: ks[i] in delay.items
    decreases |ks|
  {
    if ks == [] then acc
    else MergeFrom(acc.Put(ks[0], if ks[0] in acc.items then Modified else delay.items[ks[0]]), delay, ks[1..])
  }

  function Merged(imports: Changes<ImportKey>, delay: Changes<ImportKey>): Changes<ImportKey>
    requires delay.Valid()
  {
    MergeFrom(imports, delay, delay.keys)
  }

  lemma {:induction false} MergeFromSpec(acc: Changes<ImportKey>, delay: Changes<ImportKey>, ks: seq<ImportKey>)
    requires acc.Valid() && Distinct(ks) && forall i | 0 <= i < |ks| :: ks[i] in delay.items
    ensures var r := MergeFrom(acc, delay, ks);
      && r.Valid()
      && (forall k :: k in r.items <==> k in acc.items || k in ks)
      && (forall k | k in r.items ::
            r.items[k] == if k !in ks then acc.items[k] else if k in acc.items then Modified else delay.items[k])
    decreases |ks|
  {
    if ks != [] {
      var k0 := ks[0];
      var v := if k0 in acc.items then Modified else delay.items[k0];
      var next := acc.Put(k0, v);
      acc.PutValid(k0, v);
      assert Distinct(ks[1..]) by {
        forall i, j | 0 <= i < j < |ks[1..]| ensures ks[1..][i] != ks[1..][j] {
          assert ks[1..][i] == ks[i + 1] && ks[1..][j] == ks[j + 1];
        }
      }
      assert k0 !in ks[1..] by {
        forall j | 0 <= j < |ks[1..]| ensures ks[1..][j] != k0 { assert ks[1..][j] == ks[j + 1]; }
      }
      assert forall i | 0 <= i < |ks[1..]| :: ks[1..][i] == ks[i + 1];
      MergeFromSpec(next, delay, ks[1..]);
      assert forall k :: k in ks <==> k == k0 || k in ks[1..];
    }
  }

  /**
   * The merged diff is well formed and holds the keys of both diffs: a key
   * of one diff only keeps its status, a key of both becomes Modified.
   */
  lemma MergedSpec(imports: Changes<ImportKey>, delay: Changes<ImportKey>)
    requires imports.Valid() && delay.Valid()
    ensures var r := Merged(imports, delay);
      && r.Valid()
      && (forall k :: k in r.items <==> k in imports.items || k in delay.items)
      && (forall k | k in imports.items && k !in delay.items :: r.items[k] == imports.items[k])
      && (forall k | k !in imports.items && k in delay.items :: r.items[k] == delay.items[k])
      && (forall k | k in imports.items && k in delay.items :: r.items[k] == Modified)
  {
    MergeFromSpec(imports, delay, delay.keys);
  }

  /** Both per-directory diffs, merged. */
  function MergeEntries(ia: seq<LibraryEntry>, ib: seq<LibraryEntry>, da: seq<LibraryEntry>, db: seq<LibraryEntry>)
    : Result<ImportsDiff>
  {
    var imports :- EntriesDiff(ia, ib);
    var delay :- EntriesDiff(da, db);
    EntriesDiffSpec(da, db);
    Ok(ImportsDiff(Merged(imports.changes, delay.changes)))
  }

  /** The value of `ImportsDiff.Diff(old, new)`. */
  function ImportsDiffMerged(
    oldImports: Option<ImportDirectory>, oldDelay: Option<DelayImportDirectory>,
    newImports: Option<ImportDirectory>, newDelay: Option<DelayImportDirectory>): Result<ImportsDiff>
    requires WellFormed(oldImports) && WellFormed(newImports)
    requires DelayWellFormed(oldDelay) && DelayWellFormed(newDelay)
  {
    MergeEntries(ImportEntries(oldImports), ImportEntries(newImports), DelayEntries(oldDelay), DelayEntries(newDelay))
  }

  /** `ImportsDiff.Diff(old, new)`. */
  method Diff(
    oldImports: Option<ImportDirectory>, oldDelay: Option<DelayImportDirectory>,
    newImports: Option<ImportDirectory>, newDelay: Option<DelayImportDirectory>) returns (r: Result<ImportsDiff>)
    requires WellFormed(oldImports) && WellFormed(newImports)
    requires DelayWellFormed(oldDelay) && DelayWellFormed(newDelay)
    ensures r == ImportsDiffMerged(oldImports, oldDelay, newImports, newDelay)
  {
    var imports := NewImportsDiff(oldImports, newImports);
    if imports.Err? {
      return Err(imports.error);
    }
    var delay := NewDelayImportsDiff(oldDelay, newDelay);
    if delay.Err? {
      return Err(delay.error);
    }
    EntriesDiffSpec(DelayEntries(oldDelay), DelayEntries(newDelay));
    var c := MergeDelay(imports.value.changes, delay.value.changes);
    return Ok(ImportsDiff(c));
  }

  /** The merge loop of `Diff`. */
  method MergeDelay(imports: Changes<ImportKey>, delay: Changes<ImportKey>) returns (c: Changes<ImportKey>)
    requires delay.Valid()
    ensures c == Merged(imports, delay)
  {
    c := imports;
    var ks := delay.keys;
    var i := 0;
    while i < |ks|
      invariant 0 <= i <= |ks|
      invariant Merged(imports, delay) == MergeFrom(c, delay, ks[i..])
      invariant forall j | 0 <= j < |ks| :: ks[j] in delay.items
    {
      MergeFromStep(c, delay, ks, i);
      if ks[i] !in c.items {
        c := c.Put(ks[i], delay.items[ks[i]]);
      } else {
        c := c.Put(ks[i], Modified);
      }
      i := i + 1;
    }
    assert ks[i..] == [];
  }

  /** One turn of the merge loop. */
  lemma MergeFromStep(c: Changes<ImportKey>, delay: Changes<ImportKey>, ks: seq<ImportKey>, i: nat)
    requires i < |ks| && forall j | 0 <= j < |ks| :: ks[j] in delay.items
    ensures ks[i] in delay.items
    ensures MergeFrom(c, delay, ks[i..])
         == MergeFrom(c.Put(ks[i], if ks[i] in c.items then Modified else delay.items[ks[i]]), delay, ks[i + 1..])
  {
    assert ks[i..][0] == ks[i] && ks[i..][1..] == ks[i + 1..];
  }

  /**
   * A successful `Diff` is well formed, holds the imports of both
   * directories of both sides, and marks Modified every key the two
   * per-directory diffs share; the others keep their per-directory status.
   */
  lemma MergeEntriesSpec(ia: seq<LibraryEntry>, ib: seq<LibraryEntry>, da: seq<LibraryEntry>, db: seq<LibraryEntry>)
    requires MergeEntries(ia, ib, da, db).Ok?
    ensures EntriesDiff(ia, ib).Ok? && EntriesDiff(da, db).Ok?
    ensures var c := MergeEntries(ia, ib, da, db).value.changes;
      var ic := EntriesDiff(ia, ib).value.changes;
      var dc := EntriesDiff(da, db).value.changes;
      && c.Valid()
      && (forall k :: k in c.items <==> Imports(ia, k) || Imports(ib, k) || Imports(da, k) || Imports(db, k))
      && (forall k | k in ic.items && k in dc.items :: k in c.items && c.items[k] == Modified)
      && (forall k | k in ic.items && k !in dc.items :: k in c.items && c.items[k] == ic.items[k])
      && (forall k | k !in ic.items && k in dc.items :: k in c.items && c.items[k] == dc.items[k])
  {
    EntriesDiffSpec(ia, ib);
    EntriesDiffSpec(da, db);
    var ic := EntriesDiff(ia, ib).value.changes;
    var dc := EntriesDiff(da, db).value.changes;
    MergedSpec(ic, dc);
  }

  // ---- queries ----

  /** `ImportsDiff.HasChanges`. */
  method HasChangesOf(d: ImportsDiff) returns (r: bool)
    requires d.changes.Valid()
    ensures r == AnyChanged(d.changes)
  {
    r := HasChanges(d.changes);
  }

  function Library(k: ImportKey): Str { k.0 }

  function AnyKey(k: ImportKey): bool { true }

  /** `GetLibraries`. */
  method GetLibraries(d: ImportsDiff) returns (r: OrderedMap<Str, DiffStatus>)
    requires d.changes.Valid()
    ensures r == GroupedWhere(d.changes, AnyKey, Library)
  {
    r := Grouped(d.changes, AnyKey, Library);
  }

  /**
   * One entry per library of the diff: Unchanged, Added or Removed when all
   * its imports are, else Modified.
   */
  lemma LibrariesSpec(d: ImportsDiff, lib: Str)
    requires d.changes.Valid()
    ensures var r := GroupedWhere(d.changes, AnyKey, Library);
      && r.Valid()
      && (lib in r.items <==> exists k | k in d.changes.items :: k.0 == lib)
      && (lib in r.items ==>
            && (r.items[lib] == Unchanged <==> forall k | k in d.changes.items && k.0 == lib :: d.changes.items[k] == Unchanged)
            && (r.items[lib] == Added <==> forall k | k in d.changes.items && k.0 == lib :: d.changes.items[k] == Added)
            && (r.items[lib] == Removed <==> forall k | k in d.changes.items && k.0 == lib :: d.changes.items[k] == Removed)
            && (r.items[lib] == Modified <==>
                  exists k1, k2 | k1 in d.changes.items && k1.0 == lib && k2 in d.changes.items && k2.0 == lib ::
                    d.changes.items[k1] == Modified || d.changes.items[k1] != d.changes.items[k2]))
  {
    LibraryPresent(d.changes, lib);
    if lib in GroupedWhere(d.changes, AnyKey, Library).items {
      LibraryStatus(d.changes, lib);
    }
  }

  /** A library has an entry exactly when one of its imports is in the diff. */
  lemma LibraryPresent(c: Changes<ImportKey>, lib: Str)
    requires c.Valid()
    ensures var r := GroupedWhere(c, AnyKey, Library);
      r.Valid() && (lib in r.items <==> exists k | k in c.items :: k.0 == lib)
  {
    var r := GroupedWhere(c, AnyKey, Library);
    GroupedWhereValid(c, AnyKey, Library);
    if lib in r.items {
      var k := GroupedWhereWitness(c, AnyKey, Library, lib);
      assert k.0 == lib;
    } else {
      forall k | k in c.items ensures k.0 != lib {
        GroupedWhereHas(c, AnyKey, Library, k);
      }
    }
  }

  /** The status of a library's entry, from the statuses of its imports. */
  lemma LibraryStatus(c: Changes<ImportKey>, lib: Str)
    requires c.Valid()
    requires lib in GroupedWhere(c, AnyKey, Library).items
    ensures var st := GroupedWhere(c, AnyKey, Library).items[lib];
      && (st == Unchanged <==> forall k | k in c.items && k.0 == lib :: c.items[k] == Unchanged)
      && (st == Added <==> forall k | k in c.items && k.0 == lib :: c.items[k] == Added)
      && (st == Removed <==> forall k | k in c.items && k.0 == lib :: c.items[k] == Removed)
      && (st == Modified <==>
            exists k1, k2 | k1 in c.items && k1.0 == lib && k2 in c.items && k2.0 == lib ::
              c.items[k1] == Modified || c.items[k1] != c.items[k2])
  {
    assert forall k :: AnyKey(k) && Library(k) == lib <==> k.0 == lib;
    GroupedWhereStatus(c, AnyKey, Library, lib);
  }

  function OfLibrary(lib: Str): ImportKey -> bool
  {
    (k: ImportKey) => k.0 == lib
  }

  function NameOf(k: ImportKey): ExportName { k.1 }

  /** The value of `GetImports(library)`: the library's imports in enumeration order, with their statuses. */
  function ImportsOfLibrary(d: ImportsDiff, lib: Str): OrderedMap<ExportName, DiffStatus>
    requires d.changes.Valid()
  {
    var ks := Select(Where(d.changes.keys, OfLibrary(lib)), NameOf);
    OrderedMap(ks, map n | n in ks :: d.changes.items[(lib, n)])
  }

  /** `GetImports(library)`; the `Add` cannot fail because the keys of the diff are distinct. */
  method GetImports(d: ImportsDiff, lib: Str) returns (r: OrderedMap<ExportName, DiffStatus>)
    requires d.changes.Valid()
    ensures r == ImportsOfLibrary(d, lib)
  {
    var ks := Select(Where(d.changes.keys, OfLibrary(lib)), NameOf);
    DistinctNames(d, lib);
    ImportsOfLibraryKeys(d, lib);
    r := AddEach(ks, n requires (lib, n) in d.changes.items => d.changes.items[(lib, n)]);
  }

  lemma DistinctNames(d: ImportsDiff, lib: Str)
    requires d.changes.Valid()
    ensures Distinct(Select(Where(d.changes.keys, OfLibrary(lib)), NameOf))
  {
    var ws := Where(d.changes.keys, OfLibrary(lib));
    WhereOfDistinct(d.changes.keys, OfLibrary(lib));
    var ks := Select(ws, NameOf);
    forall i, j | 0 <= i < j < |ks| ensures ks[i] != ks[j] {
      assert ws[i].0 == lib && ws[j].0 == lib;
      assert ws[i] != ws[j];
    }
  }

  /** The names of a library's imports are exactly those the diff holds for it. */
  lemma ImportsOfLibraryKeys(d: ImportsDiff, lib: Str)
    requires d.changes.Valid()
    ensures forall n :: n in Select(Where(d.changes.keys, OfLibrary(lib)), NameOf) <==> (lib, n) in d.changes.items
  {
    forall n ensures n in Select(Where(d.changes.keys, OfLibrary(lib)), NameOf) <==> (lib, n) in d.changes.items {
      LibraryNameIn(d, lib, n);
    }
  }

  lemma LibraryNameIn(d: ImportsDiff, lib: Str, n: ExportName)
    requires d.changes.Valid()
    ensures n in Select(Where(d.changes.keys, OfLibrary(lib)), NameOf) <==> (lib, n) in d.changes.items
  {
    var ws := Where(d.changes.keys, OfLibrary(lib));
    var ks := Select(ws, NameOf);
    if n in ks {
      var i :| 0 <= i < |ks| && ks[i] == n;
      assert OfLibrary(lib)(ws[i]) && ws[i] in d.changes.keys;
      assert ws[i] == (lib, n);
    }
    if (lib, n) in d.changes.items {
      var i :| 0 <= i < |d.changes.keys| && d.changes.keys[i] == (lib, n);
      assert OfLibrary(lib)(d.changes.keys[i]);
      var j :| 0 <= j < |ws| && ws[j] == (lib, n);
      assert ks[j] == n;
    }
  }

  /** `GetImports(library)` holds each import of the library once, with the status the diff gives it. */
  lemma ImportsOfLibrarySpec(d: ImportsDiff, lib: Str)
    requires d.changes.Valid()
    ensures var r := ImportsOfLibrary(d, lib);
      && r.Valid()
      && (forall n :: n in r.items <==> (lib, n) in d.changes.items)
      && (forall n | n in r.items :: r.items[n] == d.changes.items[(lib, n)])
  {
    DistinctNames(d, lib);
    ImportsOfLibraryKeys(d, lib);
  }
}
