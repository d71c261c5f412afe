/**
 * ExportsDiff and ExportDiff: the export symbols of two images compared by
 * ExportName, plus `ExportDirectory.Diff`, which builds an ExportsDiff.
 */
module ExportsDiffs {
  import opened Results
  import opened Seqs
  import opened OrderedMaps
  import opened Diffs
  import opened Functions
  import opened ExportNames
  import opened ExportDirectories

  datatype ExportsDiff = ExportsDiff(changes: Changes<ExportName>)

  /** The dictionary of a loaded directory is well formed; a missing one imposes nothing. */
  ghost predicate WellFormed(d: Option<ExportDirectory>)
  {
    d.Some? && d.value.exports.Some? ==> d.value.exports.value.Valid()
  }

  /** The identities of a side's exports in enumeration order; a null directory or null `Exports` has none. */
  function NamesOf(d: Option<ExportDirectory>): (r: seq<ExportName>)
    requires WellFormed(d)
    ensures d.None? || d.value.exports.None? ==> r == []
    ensures d.Some? && d.value.exports.Some? ==>
      && |r| == |d.value.exports.value.keys|
      && forall i | 0 <= i < |r| :: r[i] == OfExport(d.value.exports.value.items[d.value.exports.value.keys[i]])
  {
    if d.Some? && d.value.exports.Some? then Select(d.value.exports.value.Values(), OfExport) else []
  }

  /** The value of `new ExportsDiff(a, b)`. */
  function ExportsDiffOf(a: Option<ExportDirectory>, b: Option<ExportDirectory>): Result<ExportsDiff>
    requires WellFormed(a) && WellFormed(b)
  {
    var changes :- DiffOf(NamesOf(a), NamesOf(b));
    Ok(ExportsDiff(changes))
  }

  /** `new ExportsDiff(a, b)`, which is also `ExportDirectory.Diff(a, b)`. */
  method Diff(a: Option<ExportDirectory>, b: Option<ExportDirectory>) returns (r: Result<ExportsDiff>)
    requires WellFormed(a) && WellFormed(b)
    ensures r == ExportsDiffOf(a, b)
  {
    var changes := BuildDiff(NamesOf(a), NamesOf(b));
    if changes.Err? {
      return Err(changes.error);
    }
    return Ok(ExportsDiff(changes.value));
  }

  /** `ExportsDiff.HasChanges`. */
  method HasChangesOf(d: ExportsDiff) returns (r: bool)
    requires d.changes.Valid()
    ensures r == AnyChanged(d.changes)
  {
    r := HasChanges(d.changes);
  }

  /**
   * Construction fails, with an ArgumentException, exactly when two exports
   * of `a` share an identity; a successful diff is well formed and its keys
   * are the identities of both sides, none of them Modified.
   */
  lemma ExportsDiffOutcome(a: Option<ExportDirectory>, b: Option<ExportDirectory>)
    requires WellFormed(a) && WellFormed(b)
    ensures ExportsDiffOf(a, b).Ok? <==> Distinct(NamesOf(a))
    ensures ExportsDiffOf(a, b).Err? ==> ExportsDiffOf(a, b).error == Argument
    ensures ExportsDiffOf(a, b).Ok? ==>
      var c := ExportsDiffOf(a, b).value.changes;
      && c.Valid()
      && (forall n :: n in c.items <==> n in NamesOf(a) || n in NamesOf(b))
      && (forall n | n in c.items :: c.items[n] != Modified)
  {
    DiffOfSpec(NamesOf(a), NamesOf(b));
  }

  /**
   * When the new side's identities do not repeat, a name is Removed exactly
   * when only `a` exports it, Added exactly when only `b` does, and
   * Unchanged exactly when both do.
   */
  lemma ExportsDiffStatus(a: Option<ExportDirectory>, b: Option<ExportDirectory>, n: ExportName)
    requires WellFormed(a) && WellFormed(b)
    requires Distinct(NamesOf(a)) && Distinct(NamesOf(b))
    requires n in NamesOf(a) || n in NamesOf(b)
    ensures ExportsDiffOf(a, b).Ok?
    ensures var c := ExportsDiffOf(a, b).value.changes;
      && n in c.items
      && (c.items[n] == Removed <==> n in NamesOf(a) && n !in NamesOf(b))
      && (c.items[n] == Added <==> n !in NamesOf(a) && n in NamesOf(b))
      && (c.items[n] == Unchanged <==> n in NamesOf(a) && n in NamesOf(b))
  {
    DiffOfKeys(NamesOf(a), NamesOf(b));
  }

  /** A missing old side makes every export of `b` Added, a missing new side every export of `a` Removed. */
  lemma ExportsDiffOneSided(d: Option<ExportDirectory>, n: ExportName)
    requires WellFormed(d) && Distinct(NamesOf(d)) && n in NamesOf(d)
    ensures ExportsDiffOf(None, d).Ok? && n in ExportsDiffOf(None, d).value.changes.items
    ensures ExportsDiffOf(None, d).value.changes.items[n] == Added
    ensures ExportsDiffOf(d, None).Ok? && n in ExportsDiffOf(d, None).value.changes.items
    ensures ExportsDiffOf(d, None).value.changes.items[n] == Removed
  {
    ExportsDiffStatus(None, d, n);
    ExportsDiffStatus(d, None, n);
  }

  /** A directory whose identities do not repeat, diffed with itself, has no changes. */
  lemma ExportsDiffSelf(d: Option<ExportDirectory>)
    requires WellFormed(d) && Distinct(NamesOf(d))
    ensures ExportsDiffOf(d, d).Ok? && !AnyChanged(ExportsDiffOf(d, d).value.changes)
  {
    DiffOfSelf(NamesOf(d));
  }

  /**
   * Two exports of the same name but different ordinals collide: an old
   * side holding both cannot be diffed.
   */
  lemma SameNameCollides(d: Option<ExportDirectory>, i: nat, j: nat)
    requires WellFormed(d) && d.Some? && d.value.exports.Some?
    requires i < j < |d.value.exports.value.keys|
    requires var m := d.value.exports.value;
      && m.items[m.keys[i]].name.Some? && m.items[m.keys[j]].name.Some?
      && m.items[m.keys[i]].name.value.1 == m.items[m.keys[j]].name.value.1
    ensures ExportsDiffOf(d, None).Err?
  {
    ExportsDiffOutcome(d, None);
    assert NamesOf(d)[i] == NamesOf(d)[j];
  }

  datatype ExportDiff = ExportDiff(changes: Changes<ExportName>)

  /** `ContainsKey` under ExportDiff's comparer, which delegates to `ExportName.Equals`. */
  predicate ContainsEqual(c: Changes<ExportName>, n: ExportName)
  {
    exists k | k in c.items :: Equals(k, n)
  }

  /**
   * `new ExportDiff(a, b)`: the same two passes with keys compared by
   * `ExportName.Equals`; it yields the Changes of ExportsDiff.
   */
  method NewExportDiff(a: Option<ExportDirectory>, b: Option<ExportDirectory>) returns (r: Result<ExportDiff>)
    requires WellFormed(a) && WellFormed(b)
    ensures r.Ok? <==> ExportsDiffOf(a, b).Ok?
    ensures r.Ok? ==> r.value.changes == ExportsDiffOf(a, b).value.changes
  {
    var changes := DiffByEquals(NamesOf(a), NamesOf(b));
    if changes.Err? {
      return Err(changes.error);
    }
    return Ok(ExportDiff(changes.value));
  }

  /** The two loops of the ExportDiff constructor over the identities of each side. */
  method DiffByEquals(olds: seq<ExportName>, news: seq<ExportName>) returns (r: Result<Changes<ExportName>>)
    ensures r == DiffOf(olds, news)
  {
    var c: Changes<ExportName> := Empty();
    var i := 0;
    while i < |olds|
      invariant 0 <= i <= |olds|
      invariant SeedFrom(Empty(), olds) == SeedFrom(c, olds[i..])
    {
      assert olds[i..][1..] == olds[i + 1..];
      EqualsIsIdentityIn(c, olds[i]);
      if ContainsEqual(c, olds[i]) {
        return Err(Argument);
      }
      c := c.Add(olds[i], Removed).value;
      i := i + 1;
    }
    var seed := c;
    i := 0;
    while i < |news|
      invariant 0 <= i <= |news|
      invariant MarkFrom(seed, news) == MarkFrom(c, news[i..])
    {
      assert news[i..][1..] == news[i + 1..];
      EqualsIsIdentityIn(c, news[i]);
      if ContainsEqual(c, news[i]) {
        c := c.Put(news[i], Unchanged);
      } else {
        c := c.Put(news[i], Added);
      }
      i := i + 1;
    }
    return Ok(c);
  }

  /** Membership under the comparer is ordinary membership. */
  lemma EqualsIsIdentityIn(c: Changes<ExportName>, n: ExportName)
    ensures ContainsEqual(c, n) <==> n in c.items
  {
    if n in c.items {
      EqualsIsIdentity(n, n);
    }
  }
}
