/**
 * The queries PortableExecutable answers from its resource tree:
 * FindResource, GetResourceTypes, GetResourceIds and GetResourceLanguages,
 * and what they return for a tree the loader built.
 */
module ResourceQueries {
  import opened Bytes
  import opened Results
  import opened ResourceIds
  import opened PortableExecutables
  import ResourceTrees
  import ResourceLeaves
  import OrderedMaps
  import Seqs

  type ResourceDirectory = ResourceTrees.ResourceDirectory
  type ResourceDataEntry = ResourceTrees.ResourceDataEntry

  /** `Entries.ContainsKey(k)`, then the entry's `Directory`; null at the first missing step. */
  function Lookup(d: ResourceDirectory, k: ResourceId): Option<ResourceDirectory>
  {
    if d.entries.Some? && k in d.entries.value.items then d.entries.value.items[k].directory else None
  }

  /** `FindResource(id, type, lang)`: the type, id and language levels in turn, null at the first missing step. */
  function FindResource(root: Option<ResourceDirectory>, id: ResourceId, resType: ResourceId, lang: uint16)
    : Option<ResourceDataEntry>
  {
    if root.None? then None
    else
      var byType := Lookup(root.value, resType);
      if byType.None? then None
      else
        var byId := Lookup(byType.value, id);
        if byId.None? || byId.value.entries.None? || Numeric(lang) !in byId.value.entries.value.items then None
        else byId.value.entries.value.items[Numeric(lang)].dataEntry
  }

  /**
   * The array a `foreach` over the keys fills: the keys in order, then the
   * default value in the slots left over; IndexOutOfRange when there are
   * more keys than the NumberOfIdEntries + NumberOfNamedEntries slots.
   */
  function Filled<K>(keys: seq<K>, count: nat, default: K): (r: Result<seq<K>>)
    ensures r.Ok? <==> |keys| <= count
    ensures r.Ok? ==> |r.value| == count && r.value[..|keys|] == keys
    ensures r.Ok? ==> forall i | |keys| <= i < count :: r.value[i] == default
  {
    if |keys| > count then Err(IndexOutOfRange)
    else Ok(keys + seq(count - |keys|, _ => default))
  }

  /** The loop `foreach (id in Entries.Keys) array[i++] = id;` over an array of `count` defaults. */
  method FillArray<K>(keys: seq<K>, count: nat, default: K) returns (r: Result<seq<K>>)
    ensures r == Filled(keys, count, default)
  {
    var a := new K[count](_ => default);
    var i := 0;
    while i < |keys|
      invariant 0 <= i <= |keys|
      invariant i <= count
      invariant a[..i] == keys[..i]
      invariant forall j | i <= j < count :: a[j] == default
    {
      if i >= count {
        return Err(IndexOutOfRange);
      }
      a[i] := keys[i];
      i := i + 1;
    }
    assert a[..] == keys + seq(count - |keys|, _ => default);
    return Ok(a[..]);
  }

  /** The keys of a directory as `GetResourceTypes` and `GetResourceIds` return them; null without entries. */
  function KeysArray(d: Option<ResourceDirectory>): Result<Option<seq<ResourceId>>>
  {
    if d.None? || d.value.entries.None? then Ok(None)
    else
      var ks :- Filled(d.value.entries.value.keys, d.value.EntryCount(), NO_ID);
      Ok(Some(ks))
  }

  /** `GetResourceTypes`: the keys of the root. */
  function ResourceTypes(root: Option<ResourceDirectory>): Result<Option<seq<ResourceId>>>
  {
    KeysArray(root)
  }

  /** `GetResourceIds(type)`: the keys of the type's subdirectory. */
  function ResourceIdsOf(root: Option<ResourceDirectory>, resType: ResourceId): Result<Option<seq<ResourceId>>>
  {
    if root.None? then Ok(None) else KeysArray(Lookup(root.value, resType))
  }

  /** The numeric ids among `ks`, in order (the string ids are skipped). */
  function Numerics(ks: seq<ResourceId>): (r: seq<uint16>)
    ensures |r| <= |ks|
  {
    if ks == [] then []
    else
      var last := ks[|ks| - 1];
      Numerics(ks[..|ks| - 1]) + (if last.numericalId.Some? then [last.numericalId.value] else [])
  }

  /** `GetResourceLanguages(id, type)`: the numeric language ids of the id's subdirectory, then zeros. */
  function ResourceLanguagesOf(root: Option<ResourceDirectory>, id: ResourceId, resType: ResourceId)
    : Result<Option<seq<uint16>>>
  {
    if root.None? then Ok(None)
    else
      var byType := Lookup(root.value, resType);
      if byType.None? then Ok(None)
      else
        var byId := Lookup(byType.value, id);
        if byId.None? || byId.value.entries.None? then Ok(None)
        else
          var langs :- Filled(Numerics(byId.value.entries.value.keys), byId.value.EntryCount(), 0);
          Ok(Some(langs))
  }

  /** The loop of `GetResourceLanguages`: only numeric keys are stored, at the next free slot. */
  method FillLanguages(keys: seq<ResourceId>, count: nat) returns (r: Result<seq<uint16>>)
    ensures r == Filled(Numerics(keys), count, 0)
  {
    var a := new uint16[count](_ => 0);
    var i := 0;
    var j := 0;
    while j < |keys|
      invariant 0 <= j <= |keys|
      invariant i == |Numerics(keys[..j])| && i <= count
      invariant a[..i] == Numerics(keys[..j])
      invariant forall k | i <= k < count :: a[k] == 0
    {
      assert keys[..j + 1][..j] == keys[..j];
      if keys[j].numericalId.Some? {
        if i >= count {
          NumericsGrow(keys, j + 1);
          return Err(IndexOutOfRange);
        }
        a[i] := keys[j].numericalId.value;
        i := i + 1;
      }
      j := j + 1;
    }
    assert keys[..|keys|] == keys;
    var filled := Filled(Numerics(keys), count, 0);
    assert a[..] == filled.value by {
      forall k | 0 <= k < count ensures a[k] == filled.value[k] {
        if k < i {
          assert a[..i][k] == filled.value[..i][k];
        }
      }
    }
    return Ok(a[..]);
  }

  /** A prefix has no more numeric ids than the whole. */
  lemma {:induction false} NumericsGrow(keys: seq<ResourceId>, j: nat)
    requires j <= |keys|
    ensures |Numerics(keys[..j])| <= |Numerics(keys)|
    decreases |keys| - j
  {
    if j < |keys| {
      NumericsGrow(keys, j + 1);
      assert keys[..j + 1][..j] == keys[..j];
    } else {
      assert keys[..j] == keys;
    }
  }

  method GetResourceTypes(pe: PortableExecutable) returns (r: Result<Option<seq<ResourceId>>>)
    ensures r == ResourceTypes(pe.resourceDirectory)
  {
    var root := pe.resourceDirectory;
    if root.None? || root.value.entries.None? {
      return Ok(None);
    }
    var ks := FillArray(root.value.entries.value.keys, root.value.EntryCount(), NO_ID);
    if ks.Err? {
      return Err(ks.error);
    }
    return Ok(Some(ks.value));
  }

  method GetResourceIds(pe: PortableExecutable, resType: ResourceId) returns (r: Result<Option<seq<ResourceId>>>)
    ensures r == ResourceIdsOf(pe.resourceDirectory, resType)
  {
    if pe.resourceDirectory.None? {
      return Ok(None);
    }
    var dir := Lookup(pe.resourceDirectory.value, resType);
    if dir.None? || dir.value.entries.None? {
      return Ok(None);
    }
    var ks := FillArray(dir.value.entries.value.keys, dir.value.EntryCount(), NO_ID);
    if ks.Err? {
      return Err(ks.error);
    }
    return Ok(Some(ks.value));
  }

  method GetResourceLanguages(pe: PortableExecutable, id: ResourceId, resType: ResourceId)
    returns (r: Result<Option<seq<uint16>>>)
    ensures r == ResourceLanguagesOf(pe.resourceDirectory, id, resType)
  {
    if pe.resourceDirectory.None? {
      return Ok(None);
    }
    var byType := Lookup(pe.resourceDirectory.value, resType);
    if byType.None? {
      return Ok(None);
    }
    var byId := Lookup(byType.value, id);
    if byId.None? || byId.value.entries.None? {
      return Ok(None);
    }
    var langs := FillLanguages(byId.value.entries.value.keys, byId.value.EntryCount());
    if langs.Err? {
      return Err(langs.error);
    }
    return Ok(Some(langs.value));
  }

  // ---- the queries on a loaded tree ----

  /**
   * A directory the loader built lists exactly NumberOfNamedEntries +
   * NumberOfIdEntries keys, and a key with a numeric id is exactly
   * `new ResourceId(ushort)` of it.
   */
  lemma DirectoryKeys(ld: ResourceTrees.Loader, parent: Option<ResourceTrees.DirectoryLink>, rva: uint32, offset: uint32,
                      fuel: nat, d: ResourceDirectory)
    requires ResourceTrees.DirectoryAt(ld, parent, rva, offset, fuel) == Ok(d)
    ensures d.entries.Some? && |d.entries.value.keys| == d.EntryCount()
    ensures forall i | 0 <= i < |d.entries.value.keys| :: d.entries.value.keys[i].numericalId.Some? ==>
      d.entries.value.keys[i] == Numeric(d.entries.value.keys[i].numericalId.value)
  {
    ResourceTrees.DirectoryEntries(ld, parent, rva, offset, fuel, d);
    LoopKeys(ld, d.Link(), fuel - 1, d.EntryCount(), d.entries.value);
  }

  /** The entry loop adds one key per entry, each well formed. */
  lemma LoopKeys(ld: ResourceTrees.Loader, link: ResourceTrees.DirectoryLink, fuel: nat, n: nat,
                 m: OrderedMaps.OrderedMap<ResourceId, ResourceTrees.ResourceDirectoryEntry>)
    requires ResourceTrees.KeyedLoop(ResourceTrees.ReaderOf(ld, link, fuel), ResourceTrees.IdOf, 0, n, OrderedMaps.Empty()) == Ok(m)
    ensures |m.keys| == n
    ensures forall i | 0 <= i < |m.keys| :: m.keys[i].numericalId.Some? ==> m.keys[i] == Numeric(m.keys[i].numericalId.value)
  {
    ResourceTrees.KeyedLoopKeep(ResourceTrees.ReaderOf(ld, link, fuel), ResourceTrees.IdOf, 0, n, OrderedMaps.Empty());
    forall i | 0 <= i < |m.keys|
      ensures m.keys[i].numericalId.Some? ==> m.keys[i] == Numeric(m.keys[i].numericalId.value)
    {
      LoopKey(ld, link, fuel, n, m, i);
    }
  }

  lemma LoopKey(ld: ResourceTrees.Loader, link: ResourceTrees.DirectoryLink, fuel: nat, n: nat,
                m: OrderedMaps.OrderedMap<ResourceId, ResourceTrees.ResourceDirectoryEntry>, i: nat)
    requires ResourceTrees.KeyedLoop(ResourceTrees.ReaderOf(ld, link, fuel), ResourceTrees.IdOf, 0, n, OrderedMaps.Empty()) == Ok(m)
    requires i < n
    ensures i < |m.keys| && (m.keys[i].numericalId.Some? ==> m.keys[i] == Numeric(m.keys[i].numericalId.value))
  {
    var read := ResourceTrees.ReaderOf(ld, link, fuel);
    ResourceTrees.KeyedLoopEntry(read, ResourceTrees.IdOf, 0, n, OrderedMaps.Empty(), m, i);
    assert read(i) == ResourceTrees.EntryAt(ld, link, i, fuel);
    EntryKeyKind(ld, link, i, fuel, m.items[m.keys[i]]);
  }

  /** The same for any directory of a loaded tree. */
  lemma LoadedKeys(ld: ResourceTrees.Loader, d: ResourceDirectory)
    requires ResourceLeaves.Loaded(ld, d)
    ensures d.entries.Some? && |d.entries.value.keys| == d.EntryCount()
    ensures forall i | 0 <= i < |d.entries.value.keys| :: d.entries.value.keys[i].numericalId.Some? ==>
      d.entries.value.keys[i] == Numeric(d.entries.value.keys[i].numericalId.value)
  {
    var parent, rva, offset, fuel :| ResourceTrees.DirectoryAt(ld, parent, rva, offset, fuel) == Ok(d);
    DirectoryKeys(ld, parent, rva, offset, fuel, d);
  }

  /**
   * On a loaded tree `GetResourceTypes` and `GetResourceIds` never overrun
   * their arrays: they return exactly the keys of the level, each once.
   */
  lemma KeysOfLoaded(ld: ResourceTrees.Loader, root: ResourceDirectory, resType: ResourceId)
    requires ResourceLeaves.Loaded(ld, root)
    ensures ResourceTypes(Some(root)) == Ok(Some(root.entries.value.keys))
    ensures Seqs.Distinct(root.entries.value.keys)
    ensures ResourceIdsOf(Some(root), resType).Ok?
    ensures Lookup(root, resType).Some? ==>
      var sub := Lookup(root, resType).value;
      && sub.entries.Some?
      && ResourceIdsOf(Some(root), resType) == Ok(Some(sub.entries.value.keys))
      && Seqs.Distinct(sub.entries.value.keys)
  {
    LoadedKeys(ld, root);
    ResourceLeaves.LoadedDistinct(ld, root);
    assert root.entries.value.keys + [] == root.entries.value.keys;
    if Lookup(root, resType).Some? {
      var sub := Lookup(root, resType).value;
      LoadedKeys(ld, sub);
      ResourceLeaves.LoadedDistinct(ld, sub);
      assert sub.entries.value.keys + [] == sub.entries.value.keys;
    }
  }

  /** A value is listed by Numerics exactly when some key carries it as its numeric id. */
  lemma {:induction false} NumericsSpec(ks: seq<ResourceId>, n: uint16)
    ensures n in Numerics(ks) <==> exists i | 0 <= i < |ks| :: ks[i].numericalId == Some(n)
  {
    if ks != [] {
      var init := ks[..|ks| - 1];
      NumericsSpec(init, n);
      assert ks == init + [ks[|ks| - 1]];
      if exists i | 0 <= i < |ks| :: ks[i].numericalId == Some(n) {
        var i :| 0 <= i < |ks| && ks[i].numericalId == Some(n);
        if i < |init| {
          assert init[i] == ks[i];
        }
      }
      if exists i | 0 <= i < |init| :: init[i].numericalId == Some(n) {
        var i :| 0 <= i < |init| && init[i].numericalId == Some(n);
        assert ks[i] == init[i];
      }
    }
  }

  /** Distinct well-formed keys give distinct numeric ids. */
  lemma {:induction false} NumericsDistinct(ks: seq<ResourceId>)
    requires Seqs.Distinct(ks)
    requires forall i | 0 <= i < |ks| :: ks[i].numericalId.Some? ==> ks[i] == Numeric(ks[i].numericalId.value)
    ensures Seqs.Distinct(Numerics(ks))
  {
    if ks != [] {
      var init := ks[..|ks| - 1];
      var last := ks[|ks| - 1];
      assert forall i | 0 <= i < |init| :: init[i] == ks[i];
      NumericsDistinct(init);
      if last.numericalId.Some? {
        var n := last.numericalId.value;
        NumericsSpec(init, n);
        forall i | 0 <= i < |init| ensures init[i].numericalId != Some(n) {
          assert ks[i] != ks[|ks| - 1];
        }
      }
      DistinctAppend(Numerics(init), if last.numericalId.Some? then [last.numericalId.value] else []);
    }
  }

  /** Appending a value not yet present keeps a sequence distinct. */
  lemma DistinctAppend(s: seq<uint16>, t: seq<uint16>)
    requires Seqs.Distinct(s) && Seqs.Distinct(t) && forall x | x in t :: x !in s
    ensures Seqs.Distinct(s + t)
  {
    forall i, j | 0 <= i < j < |s + t| ensures (s + t)[i] != (s + t)[j] {
      if j >= |s| && i < |s| {
        assert (s + t)[j] == t[j - |s|] && (s + t)[j] in t;
      }
    }
  }

  /** The key a loaded entry is added under is a numeric id or a string id, never both. */
  lemma EntryKeyKind(ld: ResourceTrees.Loader, link: ResourceTrees.DirectoryLink, i: nat, fuel: nat,
                     e: ResourceTrees.ResourceDirectoryEntry)
    requires ResourceTrees.EntryAt(ld, link, i, fuel) == Ok(e)
    ensures e.id.1.Some?
    ensures e.id.1.value.numericalId.Some? ==> e.id.1.value == Numeric(e.id.1.value.numericalId.value)
  {
    ResourceTrees.EntryAtSpec(ld, link, i, fuel);
  }

  /**
   * The numeric ids of a loaded directory's keys fit in its array, each
   * once, and a language is among them exactly when its key is present.
   */
  lemma LoadedLanguages(ld: ResourceTrees.Loader, d: ResourceDirectory, lang: uint16)
    requires ResourceLeaves.Loaded(ld, d)
    ensures d.entries.Some?
    ensures var ns := Numerics(d.entries.value.keys);
      && |ns| <= d.EntryCount()
      && (lang in ns <==> Numeric(lang) in d.entries.value.items)
      && Seqs.Distinct(ns)
  {
    LoadedKeys(ld, d);
    ResourceLeaves.LoadedDistinct(ld, d);
    NumericsSpec(d.entries.value.keys, lang);
    NumericsDistinct(d.entries.value.keys);
  }

  /**
   * On a loaded tree `GetResourceLanguages` never overruns its array: it
   * holds one slot per entry of the level, the numeric language ids in
   * order first, each of them once, and zeros after them. A language is
   * listed exactly when that language's key is present.
   */
  lemma LanguagesOfLoaded(ld: ResourceTrees.Loader, root: ResourceDirectory, id: ResourceId, resType: ResourceId, lang: uint16)
    requires ResourceLeaves.Loaded(ld, root)
    ensures ResourceLanguagesOf(Some(root), id, resType).Ok?
    ensures Lookup(root, resType).Some? && Lookup(Lookup(root, resType).value, id).Some? ==>
      var sub := Lookup(Lookup(root, resType).value, id).value;
      var langs := ResourceLanguagesOf(Some(root), id, resType).value;
      && sub.entries.Some? && langs.Some?
      && |langs.value| == sub.EntryCount()
      && langs.value[..|Numerics(sub.entries.value.keys)|] == Numerics(sub.entries.value.keys)
      && (forall i | |Numerics(sub.entries.value.keys)| <= i < |langs.value| :: langs.value[i] == 0)
      && (lang in Numerics(sub.entries.value.keys) <==> Numeric(lang) in sub.entries.value.items)
      && Seqs.Distinct(Numerics(sub.entries.value.keys))
  {
    ResourceLeaves.LoadedDistinct(ld, root);
    if Lookup(root, resType).Some? {
      var byType := Lookup(root, resType).value;
      ResourceLeaves.LoadedDistinct(ld, byType);
      if Lookup(byType, id).Some? {
        LoadedLanguages(ld, Lookup(byType, id).value, lang);
      }
    }
  }

  /**
   * On a loaded tree `FindResource(id, type, lang)` finds a data entry
   * exactly when the (type, id, language) path leads to it, the path the
   * resource diff enumerates.
   */
  lemma FindResourceSpec(ld: ResourceTrees.Loader, root: ResourceDirectory, id: ResourceId, resType: ResourceId, lang: uint16,
                         res: ResourceDataEntry)
    requires ResourceLeaves.Loaded(ld, root)
    ensures FindResource(Some(root), id, resType, lang) == Some(res)
        <==> ResourceLeaves.HasLeaf(root, (resType, id, Numeric(lang)), res)
  {
    ResourceLeaves.LoadedDistinct(ld, root);
    var m := root.entries.value;
    if resType in m.items && m.items[resType].directory.Some? {
      var byType := m.items[resType].directory.value;
      ResourceLeaves.LoadedDistinct(ld, byType);
      var m2 := byType.entries.value;
      if id in m2.items && m2.items[id].directory.Some? {
        ResourceLeaves.LoadedDistinct(ld, m2.items[id].directory.value);
      }
    }
  }
}
