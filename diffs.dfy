/**
 * The comparison engine shared by ExportsDiff, ExportDiff, ImportsDiff and
 * ResourcesDiff: the two-pass construction of `Changes`, `HasChanges`, and
 * the aggregation rule of the per-library and per-type queries.
 */
module Diffs {
  import opened Results
  import opened Seqs
  import opened OrderedMaps

  datatype DiffStatus = Added | Removed | Modified | Unchanged

  type Changes<K(==)> = OrderedMap<K, DiffStatus>

  /** First pass: `Changes.Add(key, DiffStatus.Removed)` for each old key in order. */
  function SeedFrom<K(==)>(acc: Changes<K>, ks: seq<K>): Result<Changes<K>>
    decreases |ks|
  {
    if ks == [] then Ok(acc)
    else
      var next :- acc.Add(ks[0], Removed);
      SeedFrom(next, ks[1..])
  }

  /**
   * Second pass: a key already present is set to Unchanged, any other key is
   * added as Added (that Add cannot fail, so it is the indexer's setter).
   */
  function MarkFrom<K(==)>(acc: Changes<K>, ks: seq<K>): Changes<K>
    decreases |ks|
  {
    if ks == [] then acc
    else MarkFrom(acc.Put(ks[0], if ks[0] in acc.items then Unchanged else Added), ks[1..])
  }

  method SeedRemoved<K(==)>(ks: seq<K>) returns (r: Result<Changes<K>>)
    ensures r == SeedFrom(Empty(), ks)
  {
    var acc: Changes<K> := Empty();
    var i := 0;
    while i < |ks|
      invariant 0 <= i <= |ks|
      invariant SeedFrom(Empty(), ks) == SeedFrom(acc, ks[i..])
    {
      assert ks[i..][1..] == ks[i + 1..];
      var next := acc.Add(ks[i], Removed);
      if next.Err? {
        return Err(next.error);
      }
      acc := next.value;
      i := i + 1;
    }
    return Ok(acc);
  }

  method MarkNew<K(==)>(changes: Changes<K>, ks: seq<K>) returns (r: Changes<K>)
    ensures r == MarkFrom(changes, ks)
  {
    r := changes;
    var i := 0;
    while i < |ks|
      invariant 0 <= i <= |ks|
      invariant MarkFrom(changes, ks) == MarkFrom(r, ks[i..])
    {
      assert ks[i..][1..] == ks[i + 1..];
      if ks[i] in r.items {
        r := r.Put(ks[i], Unchanged);
      } else {
        r := r.Put(ks[i], Added);
      }
      i := i + 1;
    }
  }

  lemma {:induction false} SeedFromSpec<K>(acc: Changes<K>, ks: seq<K>)
    requires acc.Valid()
    ensures SeedFrom(acc, ks).Ok? <==> Distinct(acc.keys + ks)
    ensures SeedFrom(acc, ks).Ok? ==>
      var r := SeedFrom(acc, ks).value;
      && r.Valid()
      && r.keys == acc.keys + ks
      && (forall k | k in r.items :: r.items[k] == if k in ks then Removed else acc.items[k])
    decreases |ks|
  {
    if ks == [] {
      assert acc.keys + ks == acc.keys;
    } else {
      var k := ks[0];
      assert acc.keys + ks == (acc.keys + [k]) + ks[1..];
      if k in acc.items {
        assert !Distinct(acc.keys + ks) by {
          var i :| 0 <= i < |acc.keys| && acc.keys[i] == k;
          assert (acc.keys + ks)[i] == (acc.keys + ks)[|acc.keys|];
        }
      } else {
        var next := acc.Add(k, Removed).value;
        SeedFromSpec(next, ks[1..]);
        assert next.keys + ks[1..] == acc.keys + ks;
      }
    }
  }

  /** The second pass keeps the map well formed and holds the keys of both sides. */
  lemma {:induction false} MarkFromKeys<K>(acc: Changes<K>, ks: seq<K>)
    requires acc.Valid()
    ensures var r := MarkFrom(acc, ks);
      && r.Valid()
      && (forall k | k in acc.items :: k in r.items)
      && (forall i | 0 <= i < |ks| :: ks[i] in r.items)
      && (forall k | k in r.items :: k in acc.items || k in ks)
    decreases |ks|
  {
    if ks != [] {
      var k0 := ks[0];
      var v := if k0 in acc.items then Unchanged else Added;
      var next := acc.Put(k0, v);
      acc.PutValid(k0, v);
      MarkFromKeys(next, ks[1..]);
      var r := MarkFrom(next, ks[1..]);
      assert MarkFrom(acc, ks) == r;
      forall i | 0 <= i < |ks| ensures ks[i] in r.items {
        if i > 0 { assert ks[i] == ks[1..][i - 1]; }
      }
      forall k | k in r.items ensures k in acc.items || k in ks {
        assert k in next.items || k in ks[1..];
      }
    }
  }

  /**
   * The status the second pass leaves on one key: an old key not seen again
   * keeps its status; a new key is Added unless it was old or occurs twice.
   */
  lemma {:induction false} MarkFromStatus<K>(acc: Changes<K>, ks: seq<K>, k: K)
    requires acc.Valid()
    requires k in acc.items || k in ks
    ensures k in MarkFrom(acc, ks).items
    ensures MarkFrom(acc, ks).items[k] ==
      if k !in ks then acc.items[k]
      else if k in acc.items || multiset(ks)[k] > 1 then Unchanged
      else Added
    decreases |ks|
  {
    if ks != [] {
      var k0 := ks[0];
      var next := acc.Put(k0, if k0 in acc.items then Unchanged else Added);
      assert ks == [k0] + ks[1..];
      MarkFromStatus(next, ks[1..], k);
      assert multiset(ks) == multiset{k0} + multiset(ks[1..]);
    }
  }

  /** Both passes: the old keys seeded as Removed, then the new keys marked. */
  function DiffOf<K(==)>(oldKeys: seq<K>, newKeys: seq<K>): Result<Changes<K>>
  {
    var seed :- SeedFrom(Empty(), oldKeys);
    Ok(MarkFrom(seed, newKeys))
  }

  /** The two foreach loops of a diff constructor. */
  method BuildDiff<K(==)>(oldKeys: seq<K>, newKeys: seq<K>) returns (r: Result<Changes<K>>)
    ensures r == DiffOf(oldKeys, newKeys)
  {
    var seed := SeedRemoved(oldKeys);
    if seed.Err? {
      return Err(seed.error);
    }
    var c := MarkNew(seed.value, newKeys);
    return Ok(c);
  }

  /** The only failure of the first pass is the duplicate Add. */
  lemma {:induction false} SeedFromError<K>(acc: Changes<K>, ks: seq<K>)
    requires SeedFrom(acc, ks).Err?
    ensures SeedFrom(acc, ks).error == Argument
    decreases |ks|
  {
    if ks != [] && ks[0] !in acc.items {
      SeedFromError(acc.Add(ks[0], Removed).value, ks[1..]);
    }
  }

  /**
   * Whatever the inputs: the diff fails, with an ArgumentException, exactly
   * when an old key repeats; otherwise it holds each key of either side once,
   * never as Modified, an old key not seen again is Removed, and a new key is
   * Unchanged when it was old or occurs twice on the new side, else Added.
   */
  lemma DiffOfSpec<K>(oldKeys: seq<K>, newKeys: seq<K>)
    ensures DiffOf(oldKeys, newKeys).Ok? <==> Distinct(oldKeys)
    ensures DiffOf(oldKeys, newKeys).Err? ==> DiffOf(oldKeys, newKeys).error == Argument
    ensures DiffOf(oldKeys, newKeys).Ok? ==>
      var c := DiffOf(oldKeys, newKeys).value;
      && c.Valid()
      && (forall k :: k in c.items <==> k in oldKeys || k in newKeys)
      && (forall k | k in c.items ::
            && c.items[k] != Modified
            && c.items[k] == if k !in newKeys then Removed
                             else if k in oldKeys || multiset(newKeys)[k] > 1 then Unchanged
                             else Added)
  {
    var e: Changes<K> := Empty();
    assert e.keys + oldKeys == oldKeys;
    SeedFromSpec(e, oldKeys);
    if SeedFrom(e, oldKeys).Err? {
      SeedFromError(e, oldKeys);
    } else {
      var s := SeedFrom(e, oldKeys).value;
      MarkFromKeys(s, newKeys);
      var c := MarkFrom(s, newKeys);
      forall k | k in c.items
        ensures c.items[k] == if k !in newKeys then Removed
                              else if k in oldKeys || multiset(newKeys)[k] > 1 then Unchanged
                              else Added
      {
        MarkFromStatus(s, newKeys, k);
      }
    }
  }

  /**
   * For two key lists without repetitions, the diff holds each key of either
   * side once: Removed when only old, Added when only new, Unchanged when both.
   */
  lemma DiffOfKeys<K>(oldKeys: seq<K>, newKeys: seq<K>)
    requires Distinct(oldKeys) && Distinct(newKeys)
    ensures DiffOf(oldKeys, newKeys).Ok?
    ensures var c := DiffOf(oldKeys, newKeys).value;
      && c.Valid()
      && (forall k :: k in c.items <==> k in oldKeys || k in newKeys)
      && (forall k | k in c.items ::
            && (c.items[k] == Removed <==> k in oldKeys && k !in newKeys)
            && (c.items[k] == Added <==> k !in oldKeys && k in newKeys)
            && (c.items[k] == Unchanged <==> k in oldKeys && k in newKeys)
            && c.items[k] != Modified)
  {
    DiffOfSpec(oldKeys, newKeys);
    assert DiffOf(oldKeys, newKeys).Ok?;
    var c := DiffOf(oldKeys, newKeys).value;
    assert c.Valid();
    assert forall k :: k in c.items <==> k in oldKeys || k in newKeys;
    forall k | k in c.items
      ensures c.items[k] == if k in oldKeys && k in newKeys then Unchanged
                            else if k in newKeys then Added else Removed
      ensures k in oldKeys || k in newKeys
    {
      assert c.items[k] == if k !in newKeys then Removed
                           else if k in oldKeys || multiset(newKeys)[k] > 1 then Unchanged
                           else Added;
      if k in newKeys { DistinctCount(newKeys, k); }
    }
  }

  /** Some entry is not Unchanged. */
  predicate AnyChanged<K(==)>(changes: Changes<K>)
  {
    exists k | k in changes.items :: changes.items[k] != Unchanged
  }

  /** Diffing a key list without repetitions against itself reports no change. */
  lemma DiffOfSelf<K>(ks: seq<K>)
    requires Distinct(ks)
    ensures DiffOf(ks, ks).Ok? && !AnyChanged(DiffOf(ks, ks).value)
  {
    DiffOfKeys(ks, ks);
  }

  lemma {:induction false} DistinctCount<T>(s: seq<T>, x: T)
    requires Distinct(s)
    ensures multiset(s)[x] <= 1
  {
    if s != [] {
      assert s == [s[0]] + s[1..];
      assert Distinct(s[1..]) by {
        forall i, j | 0 <= i < j < |s[1..]| ensures s[1..][i] != s[1..][j] {
          assert s[1..][i] == s[i + 1] && s[1..][j] == s[j + 1];
        }
      }
      DistinctCount(s[1..], x);
      if s[0] == x {
        assert x !in s[1..] by {
          forall j | 0 <= j < |s[1..]| ensures s[1..][j] != x { assert s[1..][j] == s[j + 1]; }
        }
      }
    }
  }

  /** `HasChanges`: whether some entry is not Unchanged. */
  method HasChanges<K(==)>(changes: Changes<K>) returns (r: bool)
    requires changes.Valid()
    ensures r == AnyChanged(changes)
  {
    var i := 0;
    while i < |changes.keys|
      invariant 0 <= i <= |changes.keys|
      invariant forall j | 0 <= j < i :: changes.items[changes.keys[j]] == Unchanged
    {
      if changes.items[changes.keys[i]] != Unchanged {
        return true;
      }
      i := i + 1;
    }
    return false;
  }

  predicate All(s: seq<DiffStatus>, x: DiffStatus)
  {
    forall y | y in s :: y == x
  }

  /**
   * The rule of GetLibraries / GetResourceTypes / GetResourceIds: all
   * Unchanged, else all Added, else all Removed, else Modified.
   */
  function Aggregate(s: seq<DiffStatus>): DiffStatus
  {
    if All(s, Unchanged) then Unchanged
    else if All(s, Added) then Added
    else if All(s, Removed) then Removed
    else Modified
  }

  /**
   * A non-empty group takes a plain status exactly when every member has it,
   * and is Modified exactly when it is mixed or holds a Modified member.
   */
  lemma AggregateSpec(s: seq<DiffStatus>)
    requires |s| > 0
    ensures Aggregate(s) == Unchanged <==> All(s, Unchanged)
    ensures Aggregate(s) == Added <==> All(s, Added)
    ensures Aggregate(s) == Removed <==> All(s, Removed)
    ensures Aggregate(s) == Modified <==> Modified in s || exists x, y | x in s && y in s :: x != y
  {
    assert s[0] in s;
    if exists x, y | x in s && y in s :: x != y {
      var x, y :| x in s && y in s && x != y;
      assert Aggregate(s) == Modified;
    } else if s[0] == Modified {
      assert !All(s, Unchanged) && !All(s, Added) && !All(s, Removed);
    }
  }

  /** The statuses of the keys `sel` picks, in enumeration order. */
  function StatusesOf<K(==)>(changes: Changes<K>, sel: K -> bool): (r: seq<DiffStatus>)
    requires changes.Valid()
    ensures forall k | k in changes.items && sel(k) :: changes.items[k] in r
    ensures forall x | x in r :: exists k | k in changes.items && sel(k) :: changes.items[k] == x
  {
    var ks := Where(changes.keys, sel);
    var r := seq(|ks|, i requires 0 <= i < |ks| => changes.items[ks[i]]);
    assert forall k | k in changes.items && sel(k) :: changes.items[k] in r by {
      forall k | k in changes.items && sel(k) ensures changes.items[k] in r {
        var i :| 0 <= i < |changes.keys| && changes.keys[i] == k;
        var j :| 0 <= j < |ks| && ks[j] == k;
        assert r[j] == changes.items[k];
      }
    }
    r
  }

  /**
   * The statuses of the kept keys grouped by `group(key)`: one entry per
   * distinct group, in order of first appearance, with the aggregated status.
   */
  function GroupedWhere<K(==), G(==)>(changes: Changes<K>, keep: K -> bool, group: K -> G): OrderedMap<G, DiffStatus>
    requires changes.Valid()
  {
    var gs := Groups(changes, keep, group);
    OrderedMap(gs, map g | g in gs :: GroupStatus(changes, keep, group, g))
  }

  /** `Keys.Where(keep).Select(group).Distinct()`. */
  function Groups<K(==), G(==)>(changes: Changes<K>, keep: K -> bool, group: K -> G): (r: seq<G>)
    ensures Distinct(r)
  {
    Dedup(Select(Where(changes.keys, keep), group))
  }

  /** The aggregated status of the kept keys of group `g`. */
  function GroupStatus<K(==), G(==)>(changes: Changes<K>, keep: K -> bool, group: K -> G, g: G): DiffStatus
    requires changes.Valid()
  {
    Aggregate(StatusesOf(changes, InGroup(keep, group, g)))
  }

  /**
   * The loop of GetLibraries / GetResourceTypes / GetResourceIds: one `Add`
   * per distinct group, in order, with the group's aggregated status.
   */
  method Grouped<K(==), G(==)>(changes: Changes<K>, keep: K -> bool, group: K -> G) returns (r: OrderedMap<G, DiffStatus>)
    requires changes.Valid()
    ensures r == GroupedWhere(changes, keep, group)
  {
    var gs := Groups(changes, keep, group);
    r := AddEach(gs, g requires changes.Valid() => GroupStatus(changes, keep, group, g));
  }

  /** `foreach (g in gs) result.Add(g, status(g))` over distinct keys. */
  method AddEach<G(==)>(gs: seq<G>, status: G --> DiffStatus) returns (r: OrderedMap<G, DiffStatus>)
    requires Distinct(gs) && forall g | g in gs :: status.requires(g)
    ensures r == OrderedMap(gs, map g | g in gs :: status(g))
  {
    r := Empty();
    var i := 0;
    while i < |gs|
      invariant 0 <= i <= |gs|
      invariant r.keys == gs[..i]
      invariant r.items == map g | g in gs[..i] :: status(g)
    {
      assert gs[i] !in gs[..i];
      assert gs[..i + 1] == gs[..i] + [gs[i]];
      r := r.Add(gs[i], status(gs[i])).value;
      i := i + 1;
    }
    assert gs[..i] == gs;
  }

  /** The selector of the kept keys of group `g`. */
  function InGroup<K, G(==)>(keep: K -> bool, group: K -> G, g: G): K -> bool
  {
    k => keep(k) && group(k) == g
  }

  /** One entry per distinct group of kept keys. */
  lemma GroupedWhereKeys<K, G>(changes: Changes<K>, keep: K -> bool, group: K -> G)
    requires changes.Valid()
    ensures var r := GroupedWhere(changes, keep, group);
      && r.Valid()
      && (forall g :: g in r.items <==> exists k | k in changes.items :: keep(k) && group(k) == g)
  {
    var r := GroupedWhere(changes, keep, group);
    var ws := Where(changes.keys, keep);
    forall g ensures g in r.items <==> exists k | k in changes.items :: keep(k) && group(k) == g {
      if g in r.items {
        var i :| 0 <= i < |Select(ws, group)| && Select(ws, group)[i] == g;
        assert ws[i] in changes.items && keep(ws[i]);
      }
      if exists k | k in changes.items :: keep(k) && group(k) == g {
        var k :| k in changes.items && keep(k) && group(k) == g;
        var j :| 0 <= j < |ws| && ws[j] == k;
        assert Select(ws, group)[j] == g;
      }
    }
  }

  /** The grouping is a well-formed ordered map. */
  lemma GroupedWhereValid<K, G>(changes: Changes<K>, keep: K -> bool, group: K -> G)
    requires changes.Valid()
    ensures GroupedWhere(changes, keep, group).Valid()
  {
    GroupedWhereKeys(changes, keep, group);
  }

  /** A kept key puts its group in the grouping. */
  lemma GroupedWhereHas<K, G>(changes: Changes<K>, keep: K -> bool, group: K -> G, k: K)
    requires changes.Valid() && k in changes.items && keep(k)
    ensures group(k) in GroupedWhere(changes, keep, group).items
  {
    GroupedWhereKeys(changes, keep, group);
  }

  /** A group of the grouping has a kept key. */
  lemma GroupedWhereWitness<K, G>(changes: Changes<K>, keep: K -> bool, group: K -> G, g: G) returns (k: K)
    requires changes.Valid() && g in GroupedWhere(changes, keep, group).items
    ensures k in changes.items && keep(k) && group(k) == g
  {
    GroupedWhereKeys(changes, keep, group);
    k :| k in changes.items && keep(k) && group(k) == g;
  }

  lemma AllOfSelected<K>(changes: Changes<K>, sel: K -> bool, x: DiffStatus)
    requires changes.Valid()
    ensures All(StatusesOf(changes, sel), x) <==>
      forall k | k in changes.items && sel(k) :: changes.items[k] == x
  {
    var s := StatusesOf(changes, sel);
    if !All(s, x) {
      var y :| y in s && y != x;
      var k :| k in changes.items && sel(k) && changes.items[k] == y;
    }
  }

  lemma MixedOfSelected<K>(changes: Changes<K>, sel: K -> bool)
    requires changes.Valid()
    ensures (Modified in StatusesOf(changes, sel) || exists x, y | x in StatusesOf(changes, sel) && y in StatusesOf(changes, sel) :: x != y)
      <==> exists k1, k2 | k1 in changes.items && sel(k1) && k2 in changes.items && sel(k2) ::
             changes.items[k1] == Modified || changes.items[k1] != changes.items[k2]
  {
    var s := StatusesOf(changes, sel);
    if exists x, y | x in s && y in s :: x != y {
      var x, y :| x in s && y in s && x != y;
      var k1 :| k1 in changes.items && sel(k1) && changes.items[k1] == x;
      var k2 :| k2 in changes.items && sel(k2) && changes.items[k2] == y;
    }
    if Modified in s {
      var k1 :| k1 in changes.items && sel(k1) && changes.items[k1] == Modified;
      assert changes.items[k1] == Modified;
    }
  }

  /** The aggregated status of one group, stated over the keys of the group. */
  lemma GroupedWhereStatus<K, G>(changes: Changes<K>, keep: K -> bool, group: K -> G, g: G)
    requires changes.Valid()
    requires g in GroupedWhere(changes, keep, group).items
    ensures var st := GroupedWhere(changes, keep, group).items[g];
      && (st == Unchanged <==> forall k | k in changes.items && keep(k) && group(k) == g :: changes.items[k] == Unchanged)
      && (st == Added <==> forall k | k in changes.items && keep(k) && group(k) == g :: changes.items[k] == Added)
      && (st == Removed <==> forall k | k in changes.items && keep(k) && group(k) == g :: changes.items[k] == Removed)
      && (st == Modified <==>
            exists k1, k2 | k1 in changes.items && keep(k1) && group(k1) == g
                         && k2 in changes.items && keep(k2) && group(k2) == g ::
              changes.items[k1] == Modified || changes.items[k1] != changes.items[k2])
  {
    var sel := InGroup(keep, group, g);
    assert forall k :: sel(k) == (keep(k) && group(k) == g);
    var k := GroupedWhereWitness(changes, keep, group, g);
    assert GroupedWhere(changes, keep, group).items[g] == Aggregate(StatusesOf(changes, sel));
    SelectedStatus(changes, sel, k);
  }

  /** The aggregated status of a non-empty selection, key by key. */
  lemma SelectedStatus<K>(changes: Changes<K>, sel: K -> bool, k: K)
    requires changes.Valid()
    requires k in changes.items && sel(k)
    ensures var st := Aggregate(StatusesOf(changes, sel));
      && (st == Unchanged <==> forall k | k in changes.items && sel(k) :: changes.items[k] == Unchanged)
      && (st == Added <==> forall k | k in changes.items && sel(k) :: changes.items[k] == Added)
      && (st == Removed <==> forall k | k in changes.items && sel(k) :: changes.items[k] == Removed)
      && (st == Modified <==>
            exists k1, k2 | k1 in changes.items && sel(k1) && k2 in changes.items && sel(k2) ::
              changes.items[k1] == Modified || changes.items[k1] != changes.items[k2])
  {
    var s := StatusesOf(changes, sel);
    assert changes.items[k] in s;
    AggregateSpec(s);
    AllOfSelected(changes, sel, Unchanged);
    AllOfSelected(changes, sel, Added);
    AllOfSelected(changes, sel, Removed);
    MixedOfSelected(changes, sel);
  }
}
