/**
 * The resources of a resource tree as ResourcesDiff enumerates them: every
 * type entry with a loaded subdirectory, every id entry below it with a
 * loaded subdirectory, every language entry below that with a data entry,
 * keyed by the three ids on the path.
 */
module ResourceLeaves {
  import opened Results
  import opened Seqs
  import opened OrderedMaps
  import opened ResourceIds
  import opened ResourceTrees
  import opened Bytes
  import opened Images
  import opened DataDirectories

  type ResourceKey = (ResourceId, ResourceId, ResourceId)

  /** One resource: the (type, id, language) path and the data entry at its end. */
  datatype Leaf = Leaf(key: ResourceKey, resource: ResourceDataEntry)

  // ---- enumerating a dictionary ----

  /** `foreach ((k, v) in dictionary)`: the pairs in enumeration order. */
  function PairsOf<K, V>(ks: seq<K>, items: map<K, V>): (r: seq<(K, V)>)
    ensures |r| <= |ks|
    ensures forall i | 0 <= i < |r| :: r[i].0 in ks && r[i].0 in items && r[i].1 == items[r[i].0]
    decreases |ks|
  {
    if ks == [] then []
    else (if ks[0] in items then [(ks[0], items[ks[0]])] else []) + PairsOf(ks[1..], items)
  }

  /** The pairs of a dictionary. */
  function Pairs<K, V>(m: OrderedMap<K, V>): seq<(K, V)>
  {
    PairsOf(m.keys, m.items)
  }

  /** A key is present: listed and mapped. */
  predicate Has<K, V>(m: OrderedMap<K, V>, k: K)
  {
    k in m.keys && k in m.items
  }

  /** Every key that is listed and mapped is enumerated, with its value. */
  lemma {:induction false} PairsOfComplete<K, V>(ks: seq<K>, items: map<K, V>, k: K)
    requires k in ks && k in items
    ensures exists i | 0 <= i < |PairsOf(ks, items)| :: PairsOf(ks, items)[i] == (k, items[k])
    decreases |ks|
  {
    var r := PairsOf(ks, items);
    var head: seq<(K, V)> := if ks[0] in items then [(ks[0], items[ks[0]])] else [];
    assert r == head + PairsOf(ks[1..], items);
    if ks[0] == k {
      assert r[0] == (k, items[k]);
    } else {
      assert k in ks[1..];
      PairsOfComplete(ks[1..], items, k);
      var i :| 0 <= i < |PairsOf(ks[1..], items)| && PairsOf(ks[1..], items)[i] == (k, items[k]);
      assert r[|head| + i] == (k, items[k]);
    }
  }

  /** The pairs of a dictionary are exactly its present keys with their values. */
  lemma PairsSpec<K, V>(m: OrderedMap<K, V>, k: K, v: V)
    ensures (exists i | 0 <= i < |Pairs(m)| :: Pairs(m)[i] == (k, v)) <==> Has(m, k) && v == m.items[k]
  {
    if Has(m, k) && v == m.items[k] {
      PairsOfComplete(m.keys, m.items, k);
      var i :| 0 <= i < |PairsOf(m.keys, m.items)| && PairsOf(m.keys, m.items)[i] == (k, m.items[k]);
      assert Pairs(m)[i] == (k, v);
    }
  }

  /** Keys listed without repetition are enumerated without repetition. */
  lemma {:induction false} PairsOfDistinct<K, V>(ks: seq<K>, items: map<K, V>)
    requires Distinct(ks)
    ensures forall i, j | 0 <= i < j < |PairsOf(ks, items)| :: PairsOf(ks, items)[i].0 != PairsOf(ks, items)[j].0
    decreases |ks|
  {
    if ks != [] {
      var r := PairsOf(ks, items);
      var tail := PairsOf(ks[1..], items);
      var head: seq<(K, V)> := if ks[0] in items then [(ks[0], items[ks[0]])] else [];
      assert r == head + tail;
      assert Distinct(ks[1..]) by {
        forall i, j | 0 <= i < j < |ks[1..]| ensures ks[1..][i] != ks[1..][j] {
          assert ks[1..][i] == ks[i + 1] && ks[1..][j] == ks[j + 1];
        }
      }
      PairsOfDistinct(ks[1..], items);
      assert ks[0] !in ks[1..] by {
        forall j | 0 <= j < |ks[1..]| ensures ks[1..][j] != ks[0] { assert ks[1..][j] == ks[j + 1]; }
      }
      forall i, j | 0 <= i < j < |r| ensures r[i].0 != r[j].0 {
        if i < |head| {
          assert r[j] == tail[j - |head|];
          assert tail[j - |head|].0 in ks[1..];
        } else {
          assert r[i] == tail[i - |head|] && r[j] == tail[j - |head|];
        }
      }
    }
  }

  // ---- the three nested loops ----

  /** The dictionary below an entry: its subdirectory's `Entries`, when it has both. */
  function SubMap(e: ResourceDirectoryEntry): Option<OrderedMap<ResourceId, ResourceDirectoryEntry>>
  {
    if e.directory.Some? && e.directory.value.entries.Some? then e.directory.value.entries else None
  }

  /** The pairs below an entry; none when it has no subdirectory or its subdirectory no entries (the `continue`). */
  function SubEntries(e: ResourceDirectoryEntry): seq<(ResourceId, ResourceDirectoryEntry)>
  {
    if SubMap(e).Some? then Pairs(SubMap(e).value) else []
  }

  /** The innermost loop: the language entries that hold a data entry. */
  function LangLeaves(t: ResourceId, id: ResourceId, langs: seq<(ResourceId, ResourceDirectoryEntry)>): seq<Leaf>
    decreases |langs|
  {
    if langs == [] then []
    else
      (if langs[0].1.dataEntry.Some? then [Leaf((t, id, langs[0].0), langs[0].1.dataEntry.value)] else [])
        + LangLeaves(t, id, langs[1..])
  }

  /** The middle loop: the resources of each id entry of one type, in order. */
  function IdLeaves(t: ResourceId, ids: seq<(ResourceId, ResourceDirectoryEntry)>): seq<Leaf>
    decreases |ids|
  {
    if ids == [] then []
    else LangLeaves(t, ids[0].0, SubEntries(ids[0].1)) + IdLeaves(t, ids[1..])
  }

  /** The outer loop: the resources of each type entry, in order. */
  function TypeLeaves(types: seq<(ResourceId, ResourceDirectoryEntry)>): seq<Leaf>
    decreases |types|
  {
    if types == [] then []
    else IdLeaves(types[0].0, SubEntries(types[0].1)) + TypeLeaves(types[1..])
  }

  /** The resources of a root, none for a missing root or one without entries. */
  function LeavesOf(d: Option<ResourceDirectory>): seq<Leaf>
  {
    if d.Some? && d.value.entries.Some? then TypeLeaves(Pairs(d.value.entries.value)) else []
  }

  /** The path `key` leads through the three levels of `d` to the data entry `res`. */
  predicate HasLeaf(d: ResourceDirectory, key: ResourceKey, res: ResourceDataEntry)
  {
    && d.entries.Some? && Has(d.entries.value, key.0)
    && var te := d.entries.value.items[key.0];
    && SubMap(te).Some? && Has(SubMap(te).value, key.1)
    && var ie := SubMap(te).value.items[key.1];
    && SubMap(ie).Some? && Has(SubMap(ie).value, key.2)
    && SubMap(ie).value.items[key.2].dataEntry == Some(res)
  }

  // ---- which leaves there are ----

  lemma {:induction false} LangLeavesIn(t: ResourceId, id: ResourceId, langs: seq<(ResourceId, ResourceDirectoryEntry)>, l: Leaf)
    ensures l in LangLeaves(t, id, langs) <==>
      exists i | 0 <= i < |langs| :: langs[i].1.dataEntry.Some? && l == Leaf((t, id, langs[i].0), langs[i].1.dataEntry.value)
    decreases |langs|
  {
    if langs != [] {
      LangLeavesIn(t, id, langs[1..], l);
      var tail := langs[1..];
      if exists i | 0 <= i < |tail| :: tail[i].1.dataEntry.Some? && l == Leaf((t, id, tail[i].0), tail[i].1.dataEntry.value) {
        var i :| 0 <= i < |tail| && tail[i].1.dataEntry.Some? && l == Leaf((t, id, tail[i].0), tail[i].1.dataEntry.value);
        assert langs[i + 1] == tail[i];
      }
      if exists i | 0 <= i < |langs| :: langs[i].1.dataEntry.Some? && l == Leaf((t, id, langs[i].0), langs[i].1.dataEntry.value) {
        var i :| 0 <= i < |langs| && langs[i].1.dataEntry.Some? && l == Leaf((t, id, langs[i].0), langs[i].1.dataEntry.value);
        if i > 0 { assert tail[i - 1] == langs[i]; }
      }
    }
  }

  lemma {:induction false} IdLeavesIn(t: ResourceId, ids: seq<(ResourceId, ResourceDirectoryEntry)>, l: Leaf)
    ensures l in IdLeaves(t, ids) <==> exists i | 0 <= i < |ids| :: l in LangLeaves(t, ids[i].0, SubEntries(ids[i].1))
    decreases |ids|
  {
    if ids != [] {
      IdLeavesIn(t, ids[1..], l);
      var tail := ids[1..];
      if exists i | 0 <= i < |tail| :: l in LangLeaves(t, tail[i].0, SubEntries(tail[i].1)) {
        var i :| 0 <= i < |tail| && l in LangLeaves(t, tail[i].0, SubEntries(tail[i].1));
        assert ids[i + 1] == tail[i];
      }
      if exists i | 0 <= i < |ids| :: l in LangLeaves(t, ids[i].0, SubEntries(ids[i].1)) {
        var i :| 0 <= i < |ids| && l in LangLeaves(t, ids[i].0, SubEntries(ids[i].1));
        if i > 0 { assert tail[i - 1] == ids[i]; }
      }
    }
  }

  lemma {:induction false} TypeLeavesIn(types: seq<(ResourceId, ResourceDirectoryEntry)>, l: Leaf)
    ensures l in TypeLeaves(types) <==> exists i | 0 <= i < |types| :: l in IdLeaves(types[i].0, SubEntries(types[i].1))
    decreases |types|
  {
    if types != [] {
      TypeLeavesIn(types[1..], l);
      var tail := types[1..];
      if exists i | 0 <= i < |tail| :: l in IdLeaves(tail[i].0, SubEntries(tail[i].1)) {
        var i :| 0 <= i < |tail| && l in IdLeaves(tail[i].0, SubEntries(tail[i].1));
        assert types[i + 1] == tail[i];
      }
      if exists i | 0 <= i < |types| :: l in IdLeaves(types[i].0, SubEntries(types[i].1)) {
        var i :| 0 <= i < |types| && l in IdLeaves(types[i].0, SubEntries(types[i].1));
        if i > 0 { assert tail[i - 1] == types[i]; }
      }
    }
  }

  /** The language level: a leaf below an id entry is a present language key whose entry holds that data entry. */
  lemma LangLevel(t: ResourceId, id: ResourceId, e: ResourceDirectoryEntry, l: Leaf)
    ensures l in LangLeaves(t, id, SubEntries(e)) <==>
      && l.key.0 == t && l.key.1 == id
      && SubMap(e).Some? && Has(SubMap(e).value, l.key.2)
      && SubMap(e).value.items[l.key.2].dataEntry == Some(l.resource)
  {
    var ps := SubEntries(e);
    LangLeavesIn(t, id, ps, l);
    if l in LangLeaves(t, id, ps) {
      var i :| 0 <= i < |ps| && ps[i].1.dataEntry.Some? && l == Leaf((t, id, ps[i].0), ps[i].1.dataEntry.value);
      assert SubMap(e).Some?;
      PairsSpec(SubMap(e).value, ps[i].0, ps[i].1);
    }
    if && l.key.0 == t && l.key.1 == id
       && SubMap(e).Some? && Has(SubMap(e).value, l.key.2)
       && SubMap(e).value.items[l.key.2].dataEntry == Some(l.resource) {
      var m := SubMap(e).value;
      PairsSpec(m, l.key.2, m.items[l.key.2]);
      var i :| 0 <= i < |ps| && ps[i] == (l.key.2, m.items[l.key.2]);
      assert l == Leaf((t, id, ps[i].0), ps[i].1.dataEntry.value);
    }
  }

  /** The id level: a leaf below a type entry is a leaf below one of its present id entries. */
  lemma IdLevel(t: ResourceId, e: ResourceDirectoryEntry, l: Leaf)
    ensures l in IdLeaves(t, SubEntries(e)) <==>
      && SubMap(e).Some? && Has(SubMap(e).value, l.key.1)
      && l in LangLeaves(t, l.key.1, SubEntries(SubMap(e).value.items[l.key.1]))
  {
    var ps := SubEntries(e);
    IdLeavesIn(t, ps, l);
    if l in IdLeaves(t, ps) {
      var i :| 0 <= i < |ps| && l in LangLeaves(t, ps[i].0, SubEntries(ps[i].1));
      LangLevel(t, ps[i].0, ps[i].1, l);
      PairsSpec(SubMap(e).value, ps[i].0, ps[i].1);
    }
    if SubMap(e).Some? && Has(SubMap(e).value, l.key.1) && l in LangLeaves(t, l.key.1, SubEntries(SubMap(e).value.items[l.key.1])) {
      var m := SubMap(e).value;
      PairsSpec(m, l.key.1, m.items[l.key.1]);
      var i :| 0 <= i < |ps| && ps[i] == (l.key.1, m.items[l.key.1]);
    }
  }

  /**
   * The resources of a root are exactly the three-level paths of present
   * keys that end in a data entry.
   */
  lemma LeavesOfSpec(d: ResourceDirectory, l: Leaf)
    ensures l in LeavesOf(Some(d)) <==> HasLeaf(d, l.key, l.resource)
  {
    if d.entries.Some? {
      var m := d.entries.value;
      var ps := Pairs(m);
      TypeLeavesIn(ps, l);
      if l in LeavesOf(Some(d)) {
        var i :| 0 <= i < |ps| && l in IdLeaves(ps[i].0, SubEntries(ps[i].1));
        PairsSpec(m, ps[i].0, ps[i].1);
        IdLevel(ps[i].0, ps[i].1, l);
        LangLevel(ps[i].0, l.key.1, SubMap(ps[i].1).value.items[l.key.1], l);
      }
      if HasLeaf(d, l.key, l.resource) {
        var te := m.items[l.key.0];
        PairsSpec(m, l.key.0, te);
        var i :| 0 <= i < |ps| && ps[i] == (l.key.0, te);
        var ie := SubMap(te).value.items[l.key.1];
        LangLevel(l.key.0, l.key.1, ie, l);
        IdLevel(l.key.0, te, l);
      }
    }
  }

  // ---- the keys are unique ----

  /** No two resources share a key. */
  predicate UniqueKeys(ls: seq<Leaf>)
  {
    forall i, j | 0 <= i < j < |ls| :: ls[i].key != ls[j].key
  }

  /** The pairs of `ps` have distinct keys. */
  predicate UniquePairs(ps: seq<(ResourceId, ResourceDirectoryEntry)>)
  {
    forall i, j | 0 <= i < j < |ps| :: ps[i].0 != ps[j].0
  }

  lemma UniqueConcat(a: seq<Leaf>, b: seq<Leaf>)
    requires UniqueKeys(a) && UniqueKeys(b)
    requires forall i, j | 0 <= i < |a| && 0 <= j < |b| :: a[i].key != b[j].key
    ensures UniqueKeys(a + b)
  {
    var c := a + b;
    forall i, j | 0 <= i < j < |c| ensures c[i].key != c[j].key {
      if j < |a| {
        assert c[i] == a[i] && c[j] == a[j];
      } else if i < |a| {
        assert c[i] == a[i] && c[j] == b[j - |a|];
      } else {
        assert c[i] == b[i - |a|] && c[j] == b[j - |a|];
      }
    }
  }

  lemma UniqueTail(ps: seq<(ResourceId, ResourceDirectoryEntry)>)
    requires ps != [] && UniquePairs(ps)
    ensures UniquePairs(ps[1..])
    ensures forall i | 0 <= i < |ps[1..]| :: ps[1..][i].0 != ps[0].0
  {
    forall i, j | 0 <= i < j < |ps[1..]| ensures ps[1..][i].0 != ps[1..][j].0 {
      assert ps[1..][i] == ps[i + 1] && ps[1..][j] == ps[j + 1];
    }
    forall i | 0 <= i < |ps[1..]| ensures ps[1..][i].0 != ps[0].0 {
      assert ps[1..][i] == ps[i + 1];
    }
  }

  lemma {:induction false} LangLeavesUnique(t: ResourceId, id: ResourceId, langs: seq<(ResourceId, ResourceDirectoryEntry)>)
    requires UniquePairs(langs)
    ensures UniqueKeys(LangLeaves(t, id, langs))
    decreases |langs|
  {
    if langs != [] {
      UniqueTail(langs);
      LangLeavesUnique(t, id, langs[1..]);
      var head: seq<Leaf> := if langs[0].1.dataEntry.Some? then [Leaf((t, id, langs[0].0), langs[0].1.dataEntry.value)] else [];
      var tail := LangLeaves(t, id, langs[1..]);
      forall i, j | 0 <= i < |head| && 0 <= j < |tail| ensures head[i].key != tail[j].key {
        LangLeavesIn(t, id, langs[1..], tail[j]);
      }
      UniqueConcat(head, tail);
    }
  }

  lemma {:induction false} IdLeavesUnique(t: ResourceId, ids: seq<(ResourceId, ResourceDirectoryEntry)>)
    requires UniquePairs(ids)
    requires forall i | 0 <= i < |ids| :: SubMap(ids[i].1).Some? ==> Distinct(SubMap(ids[i].1).value.keys)
    ensures UniqueKeys(IdLeaves(t, ids))
    decreases |ids|
  {
    if ids != [] {
      UniqueTail(ids);
      assert forall i | 0 <= i < |ids[1..]| :: ids[1..][i] == ids[i + 1];
      IdLeavesUnique(t, ids[1..]);
      var head := LangLeaves(t, ids[0].0, SubEntries(ids[0].1));
      if SubMap(ids[0].1).Some? {
        PairsOfDistinct(SubMap(ids[0].1).value.keys, SubMap(ids[0].1).value.items);
      }
      LangLeavesUnique(t, ids[0].0, SubEntries(ids[0].1));
      var tail := IdLeaves(t, ids[1..]);
      forall i, j | 0 <= i < |head| && 0 <= j < |tail| ensures head[i].key != tail[j].key {
        LangLeavesIn(t, ids[0].0, SubEntries(ids[0].1), head[i]);
        IdLeavesIn(t, ids[1..], tail[j]);
        var k :| 0 <= k < |ids[1..]| && tail[j] in LangLeaves(t, ids[1..][k].0, SubEntries(ids[1..][k].1));
        LangLeavesIn(t, ids[1..][k].0, SubEntries(ids[1..][k].1), tail[j]);
      }
      UniqueConcat(head, tail);
    }
  }

  /** Every dictionary of the three levels lists its keys without repetition. */
  predicate DistinctLevels(d: ResourceDirectory)
  {
    && d.entries.Some?
    && Distinct(d.entries.value.keys)
    && (forall t | t in d.entries.value.items ::
          var te := d.entries.value.items[t];
          && (SubMap(te).Some? ==> Distinct(SubMap(te).value.keys))
          && (SubMap(te).Some? ==>
                forall id | id in SubMap(te).value.items ::
                  var ie := SubMap(te).value.items[id];
                  SubMap(ie).Some? ==> Distinct(SubMap(ie).value.keys)))
  }

  lemma {:induction false} TypeLeavesUnique(types: seq<(ResourceId, ResourceDirectoryEntry)>)
    requires UniquePairs(types)
    requires forall i | 0 <= i < |types| :: SubMap(types[i].1).Some? ==>
      && Distinct(SubMap(types[i].1).value.keys)
      && (forall id | id in SubMap(types[i].1).value.items ::
            SubMap(SubMap(types[i].1).value.items[id]).Some? ==> Distinct(SubMap(SubMap(types[i].1).value.items[id]).value.keys))
    ensures UniqueKeys(TypeLeaves(types))
    decreases |types|
  {
    if types != [] {
      UniqueTail(types);
      assert forall i | 0 <= i < |types[1..]| :: types[1..][i] == types[i + 1];
      TypeLeavesUnique(types[1..]);
      var e := types[0].1;
      var ids := SubEntries(e);
      if SubMap(e).Some? {
        var m := SubMap(e).value;
        PairsOfDistinct(m.keys, m.items);
        forall i | 0 <= i < |ids| ensures SubMap(ids[i].1).Some? ==> Distinct(SubMap(ids[i].1).value.keys) {
          assert ids[i].0 in m.items && ids[i].1 == m.items[ids[i].0];
        }
      }
      IdLeavesUnique(types[0].0, ids);
      var head := IdLeaves(types[0].0, ids);
      var tail := TypeLeaves(types[1..]);
      forall i, j | 0 <= i < |head| && 0 <= j < |tail| ensures head[i].key != tail[j].key {
        IdLeavesIn(types[0].0, ids, head[i]);
        var a :| 0 <= a < |ids| && head[i] in LangLeaves(types[0].0, ids[a].0, SubEntries(ids[a].1));
        LangLeavesIn(types[0].0, ids[a].0, SubEntries(ids[a].1), head[i]);
        TypeLeavesIn(types[1..], tail[j]);
        var k :| 0 <= k < |types[1..]| && tail[j] in IdLeaves(types[1..][k].0, SubEntries(types[1..][k].1));
        IdLeavesIn(types[1..][k].0, SubEntries(types[1..][k].1), tail[j]);
        var b :| 0 <= b < |SubEntries(types[1..][k].1)|
          && tail[j] in LangLeaves(types[1..][k].0, SubEntries(types[1..][k].1)[b].0, SubEntries(SubEntries(types[1..][k].1)[b].1));
        LangLeavesIn(types[1..][k].0, SubEntries(types[1..][k].1)[b].0, SubEntries(SubEntries(types[1..][k].1)[b].1), tail[j]);
      }
      UniqueConcat(head, tail);
    }
  }

  /**
   * When every dictionary of the three levels lists its keys without
   * repetition, no two resources of the root share a (type, id, language)
   * key, so neither `Add` of the constructor can fail on the same side.
   */
  lemma LeavesUnique(d: ResourceDirectory)
    requires DistinctLevels(d)
    ensures UniqueKeys(LeavesOf(Some(d)))
  {
    var m := d.entries.value;
    var ps := Pairs(m);
    PairsOfDistinct(m.keys, m.items);
    forall i | 0 <= i < |ps| ensures SubMap(ps[i].1).Some? ==>
      && Distinct(SubMap(ps[i].1).value.keys)
      && (forall id | id in SubMap(ps[i].1).value.items ::
            SubMap(SubMap(ps[i].1).value.items[id]).Some? ==> Distinct(SubMap(SubMap(ps[i].1).value.items[id]).value.keys))
    {
      assert ps[i].0 in m.items && ps[i].1 == m.items[ps[i].0];
    }
    TypeLeavesUnique(ps);
  }

  // ---- loaded trees ----

  /** `dir` is a directory the loader produced, at some position and depth. */
  ghost predicate Loaded(ld: Loader, dir: ResourceDirectory)
  {
    exists parent, rva, offset, fuel :: DirectoryAt(ld, parent, rva, offset, fuel) == Ok(dir)
  }

  /**
   * A loaded directory has a well-formed dictionary of entries, and the
   * subdirectory of each of its entries was loaded too.
   */
  lemma LoadedChildren(ld: Loader, parent: Option<DirectoryLink>, rva: uint32, offset: uint32, fuel: nat, d: ResourceDirectory)
    requires DirectoryAt(ld, parent, rva, offset, fuel) == Ok(d)
    ensures d.entries.Some? && d.entries.value.Valid()
    ensures forall k | k in d.entries.value.items :: d.entries.value.items[k].directory.Some? ==>
      Loaded(ld, d.entries.value.items[k].directory.value)
  {
    DirectoryEntries(ld, parent, rva, offset, fuel, d);
    ChildrenLoaded(ld, d.Link(), fuel - 1, d.EntryCount(), d.entries.value);
  }

  /** The entries a successful entry loop collects form a well-formed dictionary whose subdirectories were loaded. */
  lemma ChildrenLoaded(ld: Loader, link: DirectoryLink, fuel: nat, n: nat, m: OrderedMap<ResourceId, ResourceDirectoryEntry>)
    requires KeyedLoop(ReaderOf(ld, link, fuel), IdOf, 0, n, Empty()) == Ok(m)
    ensures m.Valid()
    ensures forall k | k in m.items :: m.items[k].directory.Some? ==> Loaded(ld, m.items[k].directory.value)
  {
    EntriesRead(ld, link, fuel, n, m);
    forall k | k in m.items && m.items[k].directory.Some? ensures Loaded(ld, m.items[k].directory.value) {
      var i :| 0 <= i < |m.keys| && m.keys[i] == k;
      EntryChildLoaded(ld, link, i, fuel, m.items[k]);
    }
  }

  /** The subdirectory of a loaded entry is a loaded directory. */
  lemma EntryChildLoaded(ld: Loader, link: DirectoryLink, i: nat, fuel: nat, e: ResourceDirectoryEntry)
    requires EntryAt(ld, link, i, fuel) == Ok(e) && e.directory.Some?
    ensures Loaded(ld, e.directory.value)
  {
    EntryAtSpec(ld, link, i, fuel);
    assert DirectoryAt(ld, Some(link), RootRva(link).value, Low31(e.offsetToData), fuel) == Ok(e.directory.value);
  }

  lemma LoadedDistinct(ld: Loader, dir: ResourceDirectory)
    requires Loaded(ld, dir)
    ensures dir.entries.Some? && dir.entries.value.Valid()
    ensures forall k | k in dir.entries.value.items :: dir.entries.value.items[k].directory.Some? ==>
      Loaded(ld, dir.entries.value.items[k].directory.value)
  {
    var parent, rva, offset, fuel :| DirectoryAt(ld, parent, rva, offset, fuel) == Ok(dir);
    LoadedChildren(ld, parent, rva, offset, fuel, dir);
  }

  /**
   * Every directory the loader produces lists the keys of its own
   * dictionary and of the two levels below it without repetition, so the
   * resources of a loaded root have distinct keys.
   */
  lemma LoadedDistinctLevels(ld: Loader, dir: ResourceDirectory)
    requires Loaded(ld, dir)
    ensures DistinctLevels(dir)
    ensures UniqueKeys(LeavesOf(Some(dir)))
  {
    LoadedDistinct(ld, dir);
    var m := dir.entries.value;
    forall t | t in m.items
      ensures var te := m.items[t];
        && (SubMap(te).Some? ==> Distinct(SubMap(te).value.keys))
        && (SubMap(te).Some? ==>
              forall id | id in SubMap(te).value.items ::
                var ie := SubMap(te).value.items[id];
                SubMap(ie).Some? ==> Distinct(SubMap(ie).value.keys))
    {
      var te := m.items[t];
      if SubMap(te).Some? {
        var sub := te.directory.value;
        LoadedDistinct(ld, sub);
        forall id | id in sub.entries.value.items && SubMap(sub.entries.value.items[id]).Some?
          ensures Distinct(SubMap(sub.entries.value.items[id]).value.keys)
        {
          LoadedDistinct(ld, sub.entries.value.items[id].directory.value);
        }
      }
    }
    LeavesUnique(dir);
  }

  /** The root `LoadDirectory(pe, stream)` returns is a loaded directory. */
  lemma LoadedRoot(img: Image, data: seq<uint8>, owned: bool, fuel: nat)
    requires img.Valid() && LoadResourceDirectory(img, data, owned, fuel).Ok?
    ensures Loaded(LoaderOf(img, data, owned), LoadResourceDirectory(img, data, owned, fuel).value)
  {
    var dir := img.Directory(Resource);
    assert DirectoryAt(LoaderOf(img, data, owned), None, dir.virtualAddress, 0, fuel) == Ok(LoadResourceDirectory(img, data, owned, fuel).value);
  }
}
