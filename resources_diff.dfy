/**
 * ResourcesDiff: the resources of two resource trees compared by their
 * (type, id, language) key and by the SHA-256 of their data; plus the
 * per-type, per-id and per-language queries.
 *
 * SHA-256 itself is a parameter `sha` of every member that hashes: the
 * model only relies on it returning 32 bytes.
 */
module ResourcesDiffs {
  import opened Bytes
  import opened Results
  import opened Text
  import opened Seqs
  import opened OrderedMaps
  import opened Diffs
  import opened ResourceIds
  import opened ResourceTrees
  import opened ResourceLeaves

  type Digest = s: seq<uint8> | |s| == 32 witness seq(32, i => 0)

  datatype ResourcesDiff = ResourcesDiff(changes: Changes<ResourceKey>)

  // ---- GetResourceHash ----

  /** One upper-case hexadecimal digit, as `BitConverter.ToString` prints it. */
  function HexDigit(n: nat): (r: CodeUnit)
    requires n < 16
    ensures (0x30 <= r <= 0x39) || (0x41 <= r <= 0x46)
  {
    if n < 10 then 0x30 + n else 0x41 + (n - 10)
  }

  lemma HexDigitInjective(m: nat, n: nat)
    requires m < 16 && n < 16
    ensures HexDigit(m) == HexDigit(n) <==> m == n
  {
  }

  /** `BitConverter.ToString(bytes).Replace("-", "")`: two digits per byte, high nibble first. */
  function Hex(bs: seq<uint8>): (r: Str)
    ensures |r| == 2 * |bs|
    ensures forall i | 0 <= i < |bs| :: r[2 * i] == HexDigit(bs[i] / 16) && r[2 * i + 1] == HexDigit(bs[i] % 16)
    decreases |bs|
  {
    if bs == [] then []
    else
      var rest := Hex(bs[1..]);
      HexCons(bs, rest);
      [HexDigit(bs[0] / 16), HexDigit(bs[0] % 16)] + rest
  }

  /** The step of Hex: the digits of the first byte in front of the digits of the rest. */
  lemma HexCons(bs: seq<uint8>, rest: Str)
    requires |bs| > 0 && |rest| == 2 * (|bs| - 1)
    requires forall i | 0 <= i < |bs| - 1 :: rest[2 * i] == HexDigit(bs[1..][i] / 16) && rest[2 * i + 1] == HexDigit(bs[1..][i] % 16)
    ensures var r := [HexDigit(bs[0] / 16), HexDigit(bs[0] % 16)] + rest;
      forall i | 0 <= i < |bs| :: r[2 * i] == HexDigit(bs[i] / 16) && r[2 * i + 1] == HexDigit(bs[i] % 16)
  {
    var r := [HexDigit(bs[0] / 16), HexDigit(bs[0] % 16)] + rest;
    forall i | 1 <= i < |bs| ensures r[2 * i] == HexDigit(bs[i] / 16) && r[2 * i + 1] == HexDigit(bs[i] % 16) {
      assert bs[i] == bs[1..][i - 1];
      assert r[2 * i] == rest[2 * (i - 1)] && r[2 * i + 1] == rest[2 * (i - 1) + 1];
    }
  }

  /** Different byte strings print differently, so comparing the strings compares the bytes. */
  lemma HexInjective(a: seq<uint8>, b: seq<uint8>)
    ensures Hex(a) == Hex(b) <==> a == b
  {
    if Hex(a) == Hex(b) {
      assert |a| == |b|;
      forall i | 0 <= i < |a| ensures a[i] == b[i] {
        assert Hex(a)[2 * i] == Hex(b)[2 * i] && Hex(a)[2 * i + 1] == Hex(b)[2 * i + 1];
        HexDigitInjective(a[i] / 16, b[i] / 16);
        HexDigitInjective(a[i] % 16, b[i] % 16);
      }
    }
  }

  /**
   * `GetResourceHash`: the empty string when `ReadData` throws an
   * InvalidOperationException, any other failure passed on, else the hex
   * digits of the SHA-256 of the data.
   */
  function ResourceHash(sha: seq<uint8> -> Digest, e: ResourceDataEntry): (r: Result<Str>)
  {
    match ReadData(e)
    case Err(InvalidOperation) => Ok([])
    case Err(err) => Err(err)
    case Ok(data) => Ok(Hex(sha(data)))
  }

  /**
   * A resource whose data cannot be read hashes to "", a readable one to 64
   * digits, so two resources hash alike exactly when both are unreadable or
   * both are readable with equal digests.
   */
  lemma ResourceHashSpec(sha: seq<uint8> -> Digest, e1: ResourceDataEntry, e2: ResourceDataEntry)
    ensures ResourceHash(sha, e1) == Ok([]) <==> ReadData(e1) == Err(InvalidOperation)
    ensures ResourceHash(sha, e1).Err? <==> ReadData(e1).Err? && ReadData(e1).error != InvalidOperation
    ensures ReadData(e1).Ok? ==> ResourceHash(sha, e1) == Ok(Hex(sha(ReadData(e1).value))) && |ResourceHash(sha, e1).value| == 64
    ensures ResourceHash(sha, e1).Ok? && ResourceHash(sha, e2).Ok? ==>
      (ResourceHash(sha, e1) == ResourceHash(sha, e2) <==>
        || (ReadData(e1) == Err(InvalidOperation) && ReadData(e2) == Err(InvalidOperation))
        || (ReadData(e1).Ok? && ReadData(e2).Ok? && sha(ReadData(e1).value) == sha(ReadData(e2).value)))
  {
    if ReadData(e1).Ok? && ReadData(e2).Ok? {
      HexInjective(sha(ReadData(e1).value), sha(ReadData(e2).value));
    }
  }

  // ---- the two passes of the constructor ----

  /** The body of a `foreach` over the resources of a tree, which may throw. */
  type Step<!S> = (S, Leaf) -> Result<S>

  /** The body run for each resource in enumeration order, stopping at the first exception. */
  function Fold<S>(step: Step<S>, s: S, ls: seq<Leaf>): Result<S>
    decreases |ls|
  {
    if ls == [] then Ok(s)
    else
      var next :- step(s, ls[0]);
      Fold(step, next, ls[1..])
  }

  /** Running over `x + y` is running over `x`, then over `y` from where `x` left off. */
  lemma {:induction false} FoldConcat<S>(step: Step<S>, s: S, x: seq<Leaf>, y: seq<Leaf>)
    ensures Fold(step, s, x + y) == if Fold(step, s, x).Err? then Fold(step, s, x) else Fold(step, Fold(step, s, x).value, y)
    decreases |x|
  {
    if x != [] {
      assert (x + y)[0] == x[0] && (x + y)[1..] == x[1..] + y;
      if step(s, x[0]).Ok? {
        FoldConcat(step, step(s, x[0]).value, x[1..], y);
      }
    } else {
      assert x + y == y;
    }
  }

  /** The state of the first pass: `Changes` and the private `hashes` dictionary. */
  datatype Seed = Seed(changes: Changes<ResourceKey>, hashes: map<ResourceKey, Str>)

  /**
   * One resource of the old tree: `Changes.Add(key, Removed)`, then
   * `hashes.Add(key, GetResourceHash(resource))`. The second Add cannot
   * fail: `hashes` only ever holds keys `Changes` already has.
   */
  function SeedStep(sha: seq<uint8> -> Digest, s: Seed, l: Leaf): Result<Seed>
  {
    var c :- s.changes.Add(l.key, Removed);
    var h :- ResourceHash(sha, l.resource);
    Ok(Seed(c, s.hashes[l.key := h]))
  }

  function SeedStepOf(sha: seq<uint8> -> Digest): Step<Seed>
  {
    (s: Seed, l: Leaf) => SeedStep(sha, s, l)
  }

  /** The first pass over the old tree's resources. */
  function SeedFrom(sha: seq<uint8> -> Digest, s: Seed, ls: seq<Leaf>): Result<Seed>
  {
    Fold(SeedStepOf(sha), s, ls)
  }

  /**
   * One resource of the new tree: a key absent from `Changes` is added as
   * Added; a present one is hashed and compared with `hashes[key]` (a
   * KeyNotFoundException when the key came from the new tree itself).
   */
  function MarkStep(sha: seq<uint8> -> Digest, hashes: map<ResourceKey, Str>, c: Changes<ResourceKey>, l: Leaf)
    : Result<Changes<ResourceKey>>
  {
    if l.key !in c.items then Ok(c.Put(l.key, Added))
    else
      var h :- ResourceHash(sha, l.resource);
      if l.key !in hashes then Err(KeyNotFound)
      else Ok(c.Put(l.key, if h == hashes[l.key] then Unchanged else Modified))
  }

  function MarkStepOf(sha: seq<uint8> -> Digest, hashes: map<ResourceKey, Str>): Step<Changes<ResourceKey>>
  {
    (c: Changes<ResourceKey>, l: Leaf) => MarkStep(sha, hashes, c, l)
  }

  /** The second pass over the new tree's resources. */
  function MarkFrom(sha: seq<uint8> -> Digest, c: Changes<ResourceKey>, hashes: map<ResourceKey, Str>, ls: seq<Leaf>)
    : Result<Changes<ResourceKey>>
  {
    Fold(MarkStepOf(sha, hashes), c, ls)
  }

  /** A non-root directory: a directory with a parent. */
  predicate NotRoot(d: Option<ResourceDirectory>)
  {
    d.Some? && d.value.parent.Some?
  }

  /** The value of `new ResourcesDiff(a, b)`. */
  function ResourcesDiffOf(sha: seq<uint8> -> Digest, a: Option<ResourceDirectory>, b: Option<ResourceDirectory>)
    : Result<ResourcesDiff>
  {
    if NotRoot(a) || NotRoot(b) then Err(Argument)
    else
      var seed :- SeedFrom(sha, Seed(Empty(), map[]), LeavesOf(a));
      var c :- MarkFrom(sha, seed.changes, seed.hashes, LeavesOf(b));
      Ok(ResourcesDiff(c))
  }

  // ---- the nested loops as the source writes them ----

  /** The innermost `foreach`, over the language entries of one id: a language without a data entry is skipped. */
  method LangLoop<S>(step: Step<S>, s: S, t: ResourceId, id: ResourceId, langs: seq<(ResourceId, ResourceDirectoryEntry)>)
    returns (r: Result<S>)
    ensures r == Fold(step, s, LangLeaves(t, id, langs))
  {
    var cur := s;
    var k := 0;
    while k < |langs|
      invariant 0 <= k <= |langs|
      invariant Fold(step, s, LangLeaves(t, id, langs)) == Fold(step, cur, LangLeaves(t, id, langs[k..]))
    {
      assert langs[k..][1..] == langs[k + 1..];
      if langs[k].1.dataEntry.Some? {
        var l := Leaf((t, id, langs[k].0), langs[k].1.dataEntry.value);
        assert LangLeaves(t, id, langs[k..]) == [l] + LangLeaves(t, id, langs[k + 1..]);
        assert ([l] + LangLeaves(t, id, langs[k + 1..]))[1..] == LangLeaves(t, id, langs[k + 1..]);
        var next := step(cur, l);
        if next.Err? {
          return Err(next.error);
        }
        cur := next.value;
      } else {
        assert LangLeaves(t, id, langs[k..]) == LangLeaves(t, id, langs[k + 1..]);
      }
      k := k + 1;
    }
    return Ok(cur);
  }

  /** The middle `foreach`, over the id entries of one type: an id without a subdirectory or entries is skipped. */
  method IdLoop<S>(step: Step<S>, s: S, t: ResourceId, ids: seq<(ResourceId, ResourceDirectoryEntry)>)
    returns (r: Result<S>)
    ensures r == Fold(step, s, IdLeaves(t, ids))
  {
    var cur := s;
    var j := 0;
    while j < |ids|
      invariant 0 <= j <= |ids|
      invariant Fold(step, s, IdLeaves(t, ids)) == Fold(step, cur, IdLeaves(t, ids[j..]))
    {
      assert ids[j..][1..] == ids[j + 1..];
      FoldConcat(step, cur, LangLeaves(t, ids[j].0, SubEntries(ids[j].1)), IdLeaves(t, ids[j + 1..]));
      var next := LangLoop(step, cur, t, ids[j].0, SubEntries(ids[j].1));
      if next.Err? {
        return Err(next.error);
      }
      cur := next.value;
      j := j + 1;
    }
    return Ok(cur);
  }

  /** The outer `foreach`, over the type entries of a root: a type without a subdirectory or entries is skipped. */
  method TypeLoop<S>(step: Step<S>, s: S, d: Option<ResourceDirectory>) returns (r: Result<S>)
    ensures r == Fold(step, s, LeavesOf(d))
  {
    if d.None? || d.value.entries.None? {
      return Ok(s);
    }
    var types := Pairs(d.value.entries.value);
    var cur := s;
    var i := 0;
    while i < |types|
      invariant 0 <= i <= |types|
      invariant Fold(step, s, LeavesOf(d)) == Fold(step, cur, TypeLeaves(types[i..]))
    {
      assert types[i..][1..] == types[i + 1..];
      FoldConcat(step, cur, IdLeaves(types[i].0, SubEntries(types[i].1)), TypeLeaves(types[i + 1..]));
      var next := IdLoop(step, cur, types[i].0, SubEntries(types[i].1));
      if next.Err? {
        return Err(next.error);
      }
      cur := next.value;
      i := i + 1;
    }
    return Ok(cur);
  }

  /** `new ResourcesDiff(a, b)`. */
  method NewResourcesDiff(sha: seq<uint8> -> Digest, a: Option<ResourceDirectory>, b: Option<ResourceDirectory>)
    returns (r: Result<ResourcesDiff>)
    ensures r == ResourcesDiffOf(sha, a, b)
  {
    if a.Some? && a.value.parent.Some? {
      return Err(Argument);
    }
    if b.Some? && b.value.parent.Some? {
      return Err(Argument);
    }
    var seed := TypeLoop(SeedStepOf(sha), Seed(Empty(), map[]), a);
    if seed.Err? {
      return Err(seed.error);
    }
    var c := TypeLoop(MarkStepOf(sha, seed.value.hashes), seed.value.changes, b);
    if c.Err? {
      return Err(c.error);
    }
    return Ok(ResourcesDiff(c.value));
  }

  // ---- what the constructor computes ----

  /** Some resource of `ls` has key `k`. */
  predicate HasKey(ls: seq<Leaf>, k: ResourceKey)
  {
    exists l | l in ls :: l.key == k
  }

  /** Hashing each resource of `ls` succeeds (at worst as "", for unreadable data). */
  predicate Hashable(sha: seq<uint8> -> Digest, ls: seq<Leaf>)
  {
    forall l | l in ls :: ResourceHash(sha, l.resource).Ok?
  }

  lemma UniqueCons(ls: seq<Leaf>)
    requires ls != []
    ensures UniqueKeys(ls) <==> UniqueKeys(ls[1..]) && forall l | l in ls[1..] :: l.key != ls[0].key
  {
    var rest := ls[1..];
    if UniqueKeys(ls) {
      forall i, j | 0 <= i < j < |rest| ensures rest[i].key != rest[j].key {
        assert rest[i] == ls[i + 1] && rest[j] == ls[j + 1];
      }
      forall l | l in rest ensures l.key != ls[0].key {
        var i :| 0 <= i < |rest| && rest[i] == l;
        assert ls[i + 1] == l;
      }
    }
    if UniqueKeys(rest) && forall l | l in rest :: l.key != ls[0].key {
      forall i, j | 0 <= i < j < |ls| ensures ls[i].key != ls[j].key {
        assert ls[j] == rest[j - 1];
        if i > 0 { assert ls[i] == rest[i - 1]; }
      }
    }
  }

  /**
   * The first pass succeeds exactly when the keys of the old resources are
   * distinct and new to `Changes` and each of them hashes.
   */
  lemma {:induction false} SeedFromOk(sha: seq<uint8> -> Digest, s: Seed, ls: seq<Leaf>)
    requires s.changes.Valid()
    ensures SeedFrom(sha, s, ls).Ok? <==>
      UniqueKeys(ls) && (forall l | l in ls :: l.key !in s.changes.items) && Hashable(sha, ls)
    decreases |ls|
  {
    if ls != [] {
      var l0 := ls[0];
      var rest := ls[1..];
      assert forall l :: l in ls <==> l == l0 || l in rest;
      UniqueCons(ls);
      if l0.key !in s.changes.items && ResourceHash(sha, l0.resource).Ok? {
        var next := SeedStep(sha, s, l0).value;
        assert next.changes.items == s.changes.items[l0.key := Removed];
        assert SeedFrom(sha, s, ls) == SeedFrom(sha, next, rest);
        SeedFromOk(sha, next, rest);
      } else {
        assert SeedFrom(sha, s, ls).Err?;
      }
    }
  }

  /**
   * A successful first pass adds each old resource's key as Removed, keeps
   * every earlier entry, and records each resource's hash.
   */
  lemma {:induction false} SeedFromContents(sha: seq<uint8> -> Digest, s: Seed, ls: seq<Leaf>)
    requires s.changes.Valid() && SeedFrom(sha, s, ls).Ok?
    ensures var r := SeedFrom(sha, s, ls).value;
      && r.changes.Valid()
      && (forall k :: k in r.changes.items <==> k in s.changes.items || HasKey(ls, k))
      && (forall k | k in r.changes.items :: r.changes.items[k] == if HasKey(ls, k) then Removed else s.changes.items[k])
      && (forall k | k in s.hashes && !HasKey(ls, k) :: k in r.hashes && r.hashes[k] == s.hashes[k])
    decreases |ls|
  {
    if ls != [] {
      var l0 := ls[0];
      var rest := ls[1..];
      assert forall k :: HasKey(ls, k) <==> l0.key == k || HasKey(rest, k);
      var next := SeedStep(sha, s, l0).value;
      assert SeedFrom(sha, s, ls) == SeedFrom(sha, next, rest);
      SeedFromContents(sha, next, rest);
    }
  }

  /** A successful first pass records the hash of each old resource under its key. */
  lemma {:induction false} SeedFromHashes(sha: seq<uint8> -> Digest, s: Seed, ls: seq<Leaf>, l: Leaf)
    requires s.changes.Valid() && SeedFrom(sha, s, ls).Ok? && l in ls
    ensures var r := SeedFrom(sha, s, ls).value;
      ResourceHash(sha, l.resource).Ok? && l.key in r.hashes && r.hashes[l.key] == ResourceHash(sha, l.resource).value
    decreases |ls|
  {
    var l0 := ls[0];
    var rest := ls[1..];
    var next := SeedStep(sha, s, l0).value;
    assert SeedFrom(sha, s, ls) == SeedFrom(sha, next, rest);
    SeedFromOk(sha, s, ls);
    UniqueCons(ls);
    if l == l0 {
      SeedFromContents(sha, next, rest);
      assert !HasKey(rest, l0.key);
    } else {
      assert l in rest;
      SeedFromHashes(sha, next, rest, l);
    }
  }

  /** The precondition of the second pass: every new resource whose key is present was recorded and hashes. */
  predicate Markable(sha: seq<uint8> -> Digest, c: Changes<ResourceKey>, hashes: map<ResourceKey, Str>, ls: seq<Leaf>)
  {
    forall l | l in ls && l.key in c.items :: l.key in hashes && ResourceHash(sha, l.resource).Ok?
  }

  /** The status one new resource receives from the second pass. */
  function NewStatus(sha: seq<uint8> -> Digest, c: Changes<ResourceKey>, hashes: map<ResourceKey, Str>, l: Leaf): DiffStatus
    requires l.key in c.items ==> l.key in hashes && ResourceHash(sha, l.resource).Ok?
  {
    if l.key !in c.items then Added
    else if ResourceHash(sha, l.resource).value == hashes[l.key] then Unchanged
    else Modified
  }

  /**
   * When the new resources have distinct keys and each one whose key is
   * already present was recorded and hashes, the second pass succeeds,
   * keeps the map well formed, holds the keys of both, and leaves every
   * entry it does not visit unchanged.
   */
  lemma {:induction false} MarkFromKeys(sha: seq<uint8> -> Digest, c: Changes<ResourceKey>, hashes: map<ResourceKey, Str>, ls: seq<Leaf>)
    requires c.Valid() && UniqueKeys(ls) && Markable(sha, c, hashes, ls)
    ensures MarkFrom(sha, c, hashes, ls).Ok?
    ensures var r := MarkFrom(sha, c, hashes, ls).value;
      && r.Valid()
      && (forall k :: k in r.items <==> k in c.items || HasKey(ls, k))
      && (forall k | k in c.items && !HasKey(ls, k) :: r.items[k] == c.items[k])
    decreases |ls|
  {
    if ls != [] {
      var l0 := ls[0];
      var rest := ls[1..];
      assert forall k :: HasKey(ls, k) <==> l0.key == k || HasKey(rest, k);
      UniqueCons(ls);
      var next := c.Put(l0.key, NewStatus(sha, c, hashes, l0));
      assert MarkStep(sha, hashes, c, l0) == Ok(next);
      assert MarkFrom(sha, c, hashes, ls) == MarkFrom(sha, next, hashes, rest);
      assert Markable(sha, next, hashes, rest);
      MarkFromKeys(sha, next, hashes, rest);
    }
  }

  /** The status the second pass leaves on one new resource: Added when new, else Unchanged or Modified by hash. */
  lemma {:induction false} MarkFromStatus(sha: seq<uint8> -> Digest, c: Changes<ResourceKey>, hashes: map<ResourceKey, Str>, ls: seq<Leaf>, l: Leaf)
    requires c.Valid() && UniqueKeys(ls) && Markable(sha, c, hashes, ls) && l in ls
    ensures MarkFrom(sha, c, hashes, ls).Ok?
    ensures l.key in MarkFrom(sha, c, hashes, ls).value.items
    ensures MarkFrom(sha, c, hashes, ls).value.items[l.key] == NewStatus(sha, c, hashes, l)
    decreases |ls|
  {
    MarkFromKeys(sha, c, hashes, ls);
    var l0 := ls[0];
    var rest := ls[1..];
    UniqueCons(ls);
    var next := c.Put(l0.key, NewStatus(sha, c, hashes, l0));
    assert MarkStep(sha, hashes, c, l0) == Ok(next);
    assert MarkFrom(sha, c, hashes, ls) == MarkFrom(sha, next, hashes, rest);
    assert Markable(sha, next, hashes, rest);
    if l == l0 {
      MarkFromKeys(sha, next, hashes, rest);
      assert !HasKey(rest, l0.key);
    } else {
      assert l in rest && l.key != l0.key;
      MarkFromStatus(sha, next, hashes, rest, l);
    }
  }

  /**
   * For two roots whose resources have distinct keys, where every old
   * resource hashes and so does every new one that is also old, the diff is
   * built and holds each key of either tree once: Removed exactly when only
   * old, Added exactly when only new, and for a key of both trees Unchanged
   * or Modified as the two hashes agree or not.
   */
  lemma ResourcesDiffSpec(sha: seq<uint8> -> Digest, a: Option<ResourceDirectory>, b: Option<ResourceDirectory>)
    requires !NotRoot(a) && !NotRoot(b)
    requires UniqueKeys(LeavesOf(a)) && UniqueKeys(LeavesOf(b))
    requires Hashable(sha, LeavesOf(a))
    requires forall l | l in LeavesOf(b) && HasKey(LeavesOf(a), l.key) :: ResourceHash(sha, l.resource).Ok?
    ensures ResourcesDiffOf(sha, a, b).Ok?
    ensures var c := ResourcesDiffOf(sha, a, b).value.changes;
      var la := LeavesOf(a);
      var lb := LeavesOf(b);
      && c.Valid()
      && (forall k :: k in c.items <==> HasKey(la, k) || HasKey(lb, k))
      && (forall l | l in la && !HasKey(lb, l.key) :: c.items[l.key] == Removed)
      && (forall l | l in lb && !HasKey(la, l.key) :: c.items[l.key] == Added)
      && (forall l1, l2 | l1 in la && l2 in lb && l1.key == l2.key ::
            c.items[l1.key] == if ResourceHash(sha, l1.resource) == ResourceHash(sha, l2.resource) then Unchanged else Modified)
  {
    var la := LeavesOf(a);
    var lb := LeavesOf(b);
    var s0 := Seed(Empty(), map[]);
    SeedFromOk(sha, s0, la);
    SeedFromContents(sha, s0, la);
    var s := SeedFrom(sha, s0, la).value;
    assert Markable(sha, s.changes, s.hashes, lb) by {
      forall l | l in lb && l.key in s.changes.items ensures l.key in s.hashes {
        var l1 :| l1 in la && l1.key == l.key;
        SeedFromHashes(sha, s0, la, l1);
      }
    }
    MarkFromKeys(sha, s.changes, s.hashes, lb);
    var c := ResourcesDiffOf(sha, a, b).value.changes;
    forall l | l in lb ensures c.items[l.key] == NewStatus(sha, s.changes, s.hashes, l) {
      MarkFromStatus(sha, s.changes, s.hashes, lb, l);
    }
    forall l1, l2 | l1 in la && l2 in lb && l1.key == l2.key
      ensures c.items[l1.key] == if ResourceHash(sha, l1.resource) == ResourceHash(sha, l2.resource) then Unchanged else Modified
    {
      SeedFromHashes(sha, s0, la, l1);
    }
  }

  /** A directory that is not a root is refused with an ArgumentException, before anything is read. */
  lemma ResourcesDiffRefused(sha: seq<uint8> -> Digest, a: Option<ResourceDirectory>, b: Option<ResourceDirectory>)
    ensures NotRoot(a) || NotRoot(b) ==> ResourcesDiffOf(sha, a, b) == Err(Argument)
    ensures !NotRoot(a) && !NotRoot(b) && !(UniqueKeys(LeavesOf(a)) && Hashable(sha, LeavesOf(a))) ==>
      ResourcesDiffOf(sha, a, b).Err?
  {
    SeedFromOk(sha, Seed(Empty(), map[]), LeavesOf(a));
  }

  /**
   * The status of each key of a built diff, both ways: Removed exactly when
   * only the old tree has it, Added exactly when only the new tree has it,
   * Unchanged exactly when both have it with equal hashes, and Modified
   * exactly when both have it with different hashes.
   */
  lemma ResourcesDiffStatus(sha: seq<uint8> -> Digest, a: Option<ResourceDirectory>, b: Option<ResourceDirectory>, k: ResourceKey)
    requires !NotRoot(a) && !NotRoot(b)
    requires UniqueKeys(LeavesOf(a)) && UniqueKeys(LeavesOf(b))
    requires Hashable(sha, LeavesOf(a))
    requires forall l | l in LeavesOf(b) && HasKey(LeavesOf(a), l.key) :: ResourceHash(sha, l.resource).Ok?
    requires HasKey(LeavesOf(a), k) || HasKey(LeavesOf(b), k)
    ensures ResourcesDiffOf(sha, a, b).Ok?
    ensures var c := ResourcesDiffOf(sha, a, b).value.changes;
      var la := LeavesOf(a);
      var lb := LeavesOf(b);
      && k in c.items
      && (c.items[k] == Removed <==> HasKey(la, k) && !HasKey(lb, k))
      && (c.items[k] == Added <==> !HasKey(la, k) && HasKey(lb, k))
      && (c.items[k] == Unchanged <==>
            exists l1, l2 | l1 in la && l2 in lb && l1.key == k && l2.key == k ::
              ResourceHash(sha, l1.resource) == ResourceHash(sha, l2.resource))
      && (c.items[k] == Modified <==>
            exists l1, l2 | l1 in la && l2 in lb && l1.key == k && l2.key == k ::
              ResourceHash(sha, l1.resource) != ResourceHash(sha, l2.resource))
  {
    ResourcesDiffSpec(sha, a, b);
    var la := LeavesOf(a);
    var lb := LeavesOf(b);
    if HasKey(la, k) && HasKey(lb, k) {
      var l1 :| l1 in la && l1.key == k;
      var l2 :| l2 in lb && l2.key == k;
      var c := ResourcesDiffOf(sha, a, b).value.changes;
      assert c.items[k] == if ResourceHash(sha, l1.resource) == ResourceHash(sha, l2.resource) then Unchanged else Modified;
    } else if HasKey(la, k) {
      var l1 :| l1 in la && l1.key == k;
    } else {
      var l2 :| l2 in lb && l2.key == k;
    }
  }

  /** A root compared with itself: when its resources have distinct keys and all hash, nothing changed. */
  lemma ResourcesDiffOfSelf(sha: seq<uint8> -> Digest, a: Option<ResourceDirectory>)
    requires !NotRoot(a) && UniqueKeys(LeavesOf(a)) && Hashable(sha, LeavesOf(a))
    ensures ResourcesDiffOf(sha, a, a).Ok?
    ensures !AnyChanged(ResourcesDiffOf(sha, a, a).value.changes)
  {
    ResourcesDiffSpec(sha, a, a);
    var c := ResourcesDiffOf(sha, a, a).value.changes;
    forall k | k in c.items ensures c.items[k] == Unchanged {
      var l :| l in LeavesOf(a) && l.key == k;
    }
  }

  /** The path `k` leads to a data entry in `d`. */
  ghost predicate Present(d: ResourceDirectory, k: ResourceKey)
  {
    exists r :: HasLeaf(d, k, r)
  }

  /** A key is among a root's resources exactly when its path leads to a data entry. */
  lemma KeyPresent(d: ResourceDirectory, k: ResourceKey)
    ensures HasKey(LeavesOf(Some(d)), k) <==> Present(d, k)
  {
    if HasKey(LeavesOf(Some(d)), k) {
      var l :| l in LeavesOf(Some(d)) && l.key == k;
      LeavesOfSpec(d, l);
    }
    if Present(d, k) {
      var r :| HasLeaf(d, k, r);
      LeavesOfSpec(d, Leaf(k, r));
    }
  }

  /**
   * For two roots whose three levels of dictionaries list their keys
   * without repetition, a (type, id, language) key is in the diff exactly
   * when the path leads to a data entry in either tree, and a path present
   * in both is Unchanged or Modified as the two resources' hashes agree.
   */
  lemma ResourcesDiffOfTrees(sha: seq<uint8> -> Digest, a: ResourceDirectory, b: ResourceDirectory)
    requires a.parent.None? && b.parent.None? && DistinctLevels(a) && DistinctLevels(b)
    requires Hashable(sha, LeavesOf(Some(a)))
    requires forall l | l in LeavesOf(Some(b)) && HasKey(LeavesOf(Some(a)), l.key) :: ResourceHash(sha, l.resource).Ok?
    ensures ResourcesDiffOf(sha, Some(a), Some(b)).Ok?
    ensures var c := ResourcesDiffOf(sha, Some(a), Some(b)).value.changes;
      && c.Valid()
      && (forall k :: k in c.items <==> Present(a, k) || Present(b, k))
      && (forall k | Present(a, k) && !Present(b, k) :: c.items[k] == Removed)
      && (forall k | !Present(a, k) && Present(b, k) :: c.items[k] == Added)
      && (forall k, r1, r2 | HasLeaf(a, k, r1) && HasLeaf(b, k, r2) ::
            c.items[k] == if ResourceHash(sha, r1) == ResourceHash(sha, r2) then Unchanged else Modified)
  {
    LeavesUnique(a);
    LeavesUnique(b);
    var la := LeavesOf(Some(a));
    var lb := LeavesOf(Some(b));
    ResourcesDiffSpec(sha, Some(a), Some(b));
    var c := ResourcesDiffOf(sha, Some(a), Some(b)).value.changes;
    forall k ensures k in c.items <==> Present(a, k) || Present(b, k) {
      KeyPresent(a, k);
      KeyPresent(b, k);
    }
    forall k | Present(a, k) && !Present(b, k) ensures c.items[k] == Removed {
      KeyPresent(a, k);
      KeyPresent(b, k);
      var l :| l in la && l.key == k;
    }
    forall k | !Present(a, k) && Present(b, k) ensures c.items[k] == Added {
      KeyPresent(a, k);
      KeyPresent(b, k);
      var l :| l in lb && l.key == k;
    }
    forall k, r1, r2 | HasLeaf(a, k, r1) && HasLeaf(b, k, r2)
      ensures c.items[k] == if ResourceHash(sha, r1) == ResourceHash(sha, r2) then Unchanged else Modified
    {
      LeavesOfSpec(a, Leaf(k, r1));
      LeavesOfSpec(b, Leaf(k, r2));
    }
  }

  /** A successful second pass hashed every new resource whose key was already present. */
  lemma {:induction false} MarkFromHashed(sha: seq<uint8> -> Digest, c: Changes<ResourceKey>, hashes: map<ResourceKey, Str>, ls: seq<Leaf>)
    requires MarkFrom(sha, c, hashes, ls).Ok?
    ensures forall l | l in ls && l.key in c.items :: ResourceHash(sha, l.resource).Ok?
    decreases |ls|
  {
    if ls != [] {
      var l0 := ls[0];
      var rest := ls[1..];
      assert forall l :: l in ls <==> l == l0 || l in rest;
      var next := MarkStep(sha, hashes, c, l0).value;
      assert MarkFrom(sha, c, hashes, ls) == MarkFrom(sha, next, hashes, rest);
      assert forall k | k in c.items :: k in next.items;
      MarkFromHashed(sha, next, hashes, rest);
    }
  }

  /**
   * For two roots whose resources have distinct keys, the diff is built
   * exactly when every old resource hashes and so does every new one that
   * is also old.
   */
  lemma ResourcesDiffOk(sha: seq<uint8> -> Digest, a: Option<ResourceDirectory>, b: Option<ResourceDirectory>)
    requires !NotRoot(a) && !NotRoot(b) && UniqueKeys(LeavesOf(a)) && UniqueKeys(LeavesOf(b))
    ensures ResourcesDiffOf(sha, a, b).Ok? <==>
      && Hashable(sha, LeavesOf(a))
      && forall l | l in LeavesOf(b) && HasKey(LeavesOf(a), l.key) :: ResourceHash(sha, l.resource).Ok?
  {
    var la := LeavesOf(a);
    var lb := LeavesOf(b);
    var s0 := Seed(Empty(), map[]);
    SeedFromOk(sha, s0, la);
    if SeedFrom(sha, s0, la).Ok? {
      SeedFromContents(sha, s0, la);
      var s := SeedFrom(sha, s0, la).value;
      if MarkFrom(sha, s.changes, s.hashes, lb).Ok? {
        MarkFromHashed(sha, s.changes, s.hashes, lb);
      }
    }
    if && Hashable(sha, la)
       && forall l | l in lb && HasKey(la, l.key) :: ResourceHash(sha, l.resource).Ok? {
      ResourcesDiffSpec(sha, a, b);
    }
  }

  /**
   * Two roots the loader produced have distinct keys at every level, so
   * comparing them never raises an ArgumentException or a
   * KeyNotFoundException: only hashing can fail, and `ResourcesDiffOfTrees`
   * describes the result.
   */
  lemma LoadedRootsDiff(sha: seq<uint8> -> Digest, lda: Loader, a: ResourceDirectory, ldb: Loader, b: ResourceDirectory)
    requires Loaded(lda, a) && Loaded(ldb, b) && a.parent.None? && b.parent.None?
    ensures DistinctLevels(a) && DistinctLevels(b)
    ensures ResourcesDiffOf(sha, Some(a), Some(b)).Ok? <==>
      && Hashable(sha, LeavesOf(Some(a)))
      && forall l | l in LeavesOf(Some(b)) && HasKey(LeavesOf(Some(a)), l.key) :: ResourceHash(sha, l.resource).Ok?
  {
    LoadedDistinctLevels(lda, a);
    LoadedDistinctLevels(ldb, b);
    ResourcesDiffOk(sha, Some(a), Some(b));
  }

  // ---- the queries ----

  /** `HasChanges`. */
  method HasChangesOf(d: ResourcesDiff) returns (r: bool)
    requires d.changes.Valid()
    ensures r == AnyChanged(d.changes)
  {
    r := HasChanges(d.changes);
  }

  function KeyType(k: ResourceKey): ResourceId { k.0 }

  function KeyId(k: ResourceKey): ResourceId { k.1 }

  function KeyLang(k: ResourceKey): ResourceId { k.2 }

  function AnyKey(k: ResourceKey): bool { true }

  /** The keys of one type, `x.Key.Type.Equals(type)`. */
  function TypeIs(t: ResourceId): ResourceKey -> bool
  {
    (k: ResourceKey) => k.0 == t
  }

  /** The keys of one type and id. */
  function TypeAndIdAre(t: ResourceId, id: ResourceId): ResourceKey -> bool
  {
    (k: ResourceKey) => k.0 == t && k.1 == id
  }

  /** `GetResourceTypes`. */
  method GetResourceTypes(d: ResourcesDiff) returns (r: OrderedMap<ResourceId, DiffStatus>)
    requires d.changes.Valid()
    ensures r == GroupedWhere(d.changes, AnyKey, KeyType)
  {
    r := Grouped(d.changes, AnyKey, KeyType);
  }

  /**
   * One entry per resource type of the diff: Unchanged, Added or Removed
   * when all its resources are, else Modified.
   */
  lemma ResourceTypesSpec(d: ResourcesDiff, t: ResourceId)
    requires d.changes.Valid()
    ensures var r := GroupedWhere(d.changes, AnyKey, KeyType);
      && r.Valid()
      && (t in r.items <==> exists k | k in d.changes.items :: k.0 == t)
      && (t in r.items ==>
            && (r.items[t] == Unchanged <==> forall k | k in d.changes.items && k.0 == t :: d.changes.items[k] == Unchanged)
            && (r.items[t] == Added <==> forall k | k in d.changes.items && k.0 == t :: d.changes.items[k] == Added)
            && (r.items[t] == Removed <==> forall k | k in d.changes.items && k.0 == t :: d.changes.items[k] == Removed)
            && (r.items[t] == Modified <==>
                  exists k1, k2 | k1 in d.changes.items && k1.0 == t && k2 in d.changes.items && k2.0 == t ::
                    d.changes.items[k1] == Modified || d.changes.items[k1] != d.changes.items[k2]))
  {
    TypePresent(d.changes, t);
    if t in GroupedWhere(d.changes, AnyKey, KeyType).items {
      TypeStatus(d.changes, t);
    }
  }

  /** A type has an entry exactly when one of its resources is in the diff. */
  lemma TypePresent(c: Changes<ResourceKey>, t: ResourceId)
    requires c.Valid()
    ensures var r := GroupedWhere(c, AnyKey, KeyType);
      r.Valid() && (t in r.items <==> exists k | k in c.items :: k.0 == t)
  {
    var r := GroupedWhere(c, AnyKey, KeyType);
    GroupedWhereValid(c, AnyKey, KeyType);
    if t in r.items {
      var k := GroupedWhereWitness(c, AnyKey, KeyType, t);
      assert k.0 == t;
    } else {
      forall k | k in c.items ensures k.0 != t {
        GroupedWhereHas(c, AnyKey, KeyType, k);
      }
    }
  }

  /** The status of a type's entry, from the statuses of its resources. */
  lemma TypeStatus(c: Changes<ResourceKey>, t: ResourceId)
    requires c.Valid()
    requires t in GroupedWhere(c, AnyKey, KeyType).items
    ensures var st := GroupedWhere(c, AnyKey, KeyType).items[t];
      && (st == Unchanged <==> forall k | k in c.items && k.0 == t :: c.items[k] == Unchanged)
      && (st == Added <==> forall k | k in c.items && k.0 == t :: c.items[k] == Added)
      && (st == Removed <==> forall k | k in c.items && k.0 == t :: c.items[k] == Removed)
      && (st == Modified <==>
            exists k1, k2 | k1 in c.items && k1.0 == t && k2 in c.items && k2.0 == t ::
              c.items[k1] == Modified || c.items[k1] != c.items[k2])
  {
    assert forall k :: AnyKey(k) && KeyType(k) == t <==> k.0 == t;
    GroupedWhereStatus(c, AnyKey, KeyType, t);
  }

  /** `GetResourceIds(type)`. */
  method GetResourceIds(d: ResourcesDiff, t: ResourceId) returns (r: OrderedMap<ResourceId, DiffStatus>)
    requires d.changes.Valid()
    ensures r == GroupedWhere(d.changes, TypeIs(t), KeyId)
  {
    r := Grouped(d.changes, TypeIs(t), KeyId);
  }

  /**
   * One entry per id of the given type: Unchanged, Added or Removed when all
   * the resources of that type and id are, else Modified.
   */
  lemma ResourceIdsSpec(d: ResourcesDiff, t: ResourceId, id: ResourceId)
    requires d.changes.Valid()
    ensures var r := GroupedWhere(d.changes, TypeIs(t), KeyId);
      && r.Valid()
      && (id in r.items <==> exists k | k in d.changes.items :: k.0 == t && k.1 == id)
      && (id in r.items ==>
            && (r.items[id] == Unchanged <==> forall k | k in d.changes.items && k.0 == t && k.1 == id :: d.changes.items[k] == Unchanged)
            && (r.items[id] == Added <==> forall k | k in d.changes.items && k.0 == t && k.1 == id :: d.changes.items[k] == Added)
            && (r.items[id] == Removed <==> forall k | k in d.changes.items && k.0 == t && k.1 == id :: d.changes.items[k] == Removed)
            && (r.items[id] == Modified <==>
                  exists k1, k2 | k1 in d.changes.items && k1.0 == t && k1.1 == id && k2 in d.changes.items && k2.0 == t && k2.1 == id ::
                    d.changes.items[k1] == Modified || d.changes.items[k1] != d.changes.items[k2]))
  {
    IdPresent(d.changes, t, id);
    if id in GroupedWhere(d.changes, TypeIs(t), KeyId).items {
      IdStatus(d.changes, t, id);
    }
  }

  /** An id has an entry for a type exactly when a resource of that type and id is in the diff. */
  lemma IdPresent(c: Changes<ResourceKey>, t: ResourceId, id: ResourceId)
    requires c.Valid()
    ensures var r := GroupedWhere(c, TypeIs(t), KeyId);
      r.Valid() && (id in r.items <==> exists k | k in c.items :: k.0 == t && k.1 == id)
  {
    var r := GroupedWhere(c, TypeIs(t), KeyId);
    GroupedWhereValid(c, TypeIs(t), KeyId);
    if id in r.items {
      var k := GroupedWhereWitness(c, TypeIs(t), KeyId, id);
      assert k.0 == t && k.1 == id;
    } else {
      forall k | k in c.items ensures !(k.0 == t && k.1 == id) {
        if k.0 == t {
          GroupedWhereHas(c, TypeIs(t), KeyId, k);
        }
      }
    }
  }

  /** The status of an id's entry, from the statuses of the resources of that type and id. */
  lemma IdStatus(c: Changes<ResourceKey>, t: ResourceId, id: ResourceId)
    requires c.Valid()
    requires id in GroupedWhere(c, TypeIs(t), KeyId).items
    ensures var st := GroupedWhere(c, TypeIs(t), KeyId).items[id];
      && (st == Unchanged <==> forall k | k in c.items && k.0 == t && k.1 == id :: c.items[k] == Unchanged)
      && (st == Added <==> forall k | k in c.items && k.0 == t && k.1 == id :: c.items[k] == Added)
      && (st == Removed <==> forall k | k in c.items && k.0 == t && k.1 == id :: c.items[k] == Removed)
      && (st == Modified <==>
            exists k1, k2 | k1 in c.items && k1.0 == t && k1.1 == id && k2 in c.items && k2.0 == t && k2.1 == id ::
              c.items[k1] == Modified || c.items[k1] != c.items[k2])
  {
    assert forall k :: TypeIs(t)(k) && KeyId(k) == id <==> k.0 == t && k.1 == id;
    GroupedWhereStatus(c, TypeIs(t), KeyId, id);
  }

  /** The value of `GetResourceLanguages(type, id)`: the languages in enumeration order, each with its own status. */
  function LanguagesOf(d: ResourcesDiff, t: ResourceId, id: ResourceId): OrderedMap<ResourceId, DiffStatus>
    requires d.changes.Valid()
  {
    var ls := Dedup(Select(Where(d.changes.keys, TypeAndIdAre(t, id)), KeyLang));
    OrderedMap(ls, map lang | lang in ls :: d.changes.items[(t, id, lang)])
  }

  /** `GetResourceLanguages(type, id)`. */
  method GetResourceLanguages(d: ResourcesDiff, t: ResourceId, id: ResourceId) returns (r: OrderedMap<ResourceId, DiffStatus>)
    requires d.changes.Valid()
    ensures r == LanguagesOf(d, t, id)
  {
    var ls := Dedup(Select(Where(d.changes.keys, TypeAndIdAre(t, id)), KeyLang));
    LanguagesIn(d, t, id);
    r := AddEach(ls, lang requires (t, id, lang) in d.changes.items => d.changes.items[(t, id, lang)]);
  }

  /** The languages listed are exactly those the diff holds for the type and id. */
  lemma LanguagesIn(d: ResourcesDiff, t: ResourceId, id: ResourceId)
    requires d.changes.Valid()
    ensures forall lang :: lang in Dedup(Select(Where(d.changes.keys, TypeAndIdAre(t, id)), KeyLang)) <==> (t, id, lang) in d.changes.items
  {
    forall lang ensures lang in Dedup(Select(Where(d.changes.keys, TypeAndIdAre(t, id)), KeyLang)) <==> (t, id, lang) in d.changes.items {
      LanguageIn(d, t, id, lang);
    }
  }

  lemma LanguageIn(d: ResourcesDiff, t: ResourceId, id: ResourceId, lang: ResourceId)
    requires d.changes.Valid()
    ensures lang in Dedup(Select(Where(d.changes.keys, TypeAndIdAre(t, id)), KeyLang)) <==> (t, id, lang) in d.changes.items
  {
    var ws := Where(d.changes.keys, TypeAndIdAre(t, id));
    var ss := Select(ws, KeyLang);
    SelectedLanguage(d.changes, t, id, lang, ws, ss);
    assert lang in Dedup(ss) <==> lang in ss;
  }

  lemma SelectedLanguage(c: Changes<ResourceKey>, t: ResourceId, id: ResourceId, lang: ResourceId,
                         ws: seq<ResourceKey>, ss: seq<ResourceId>)
    requires c.Valid() && ws == Where(c.keys, TypeAndIdAre(t, id)) && ss == Select(ws, KeyLang)
    ensures lang in ss <==> (t, id, lang) in c.items
  {
    if lang in ss {
      var j :| 0 <= j < |ss| && ss[j] == lang;
      assert ws[j] in c.keys && TypeAndIdAre(t, id)(ws[j]) && ws[j].2 == lang;
      assert ws[j] == (t, id, lang);
    }
    if (t, id, lang) in c.items {
      var i :| 0 <= i < |c.keys| && c.keys[i] == (t, id, lang);
      assert TypeAndIdAre(t, id)(c.keys[i]);
      var j :| 0 <= j < |ws| && ws[j] == (t, id, lang);
      assert ss[j] == lang;
    }
  }

  /** `GetResourceLanguages(type, id)` holds each language of the type and id once, with the status of its resource. */
  lemma LanguagesSpec(d: ResourcesDiff, t: ResourceId, id: ResourceId)
    requires d.changes.Valid()
    ensures var r := LanguagesOf(d, t, id);
      && r.Valid()
      && (forall lang :: lang in r.items <==> (t, id, lang) in d.changes.items)
      && (forall lang | lang in r.items :: r.items[lang] == d.changes.items[(t, id, lang)])
  {
    LanguagesIn(d, t, id);
  }
}
