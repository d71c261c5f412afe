/**
 * Loading a registry key tree from a primary file: the root key node is
 * found at the base block's root cell offset, and every key's subkeys are
 * the key nodes its subkey list names, through an index root (ri) one level
 * deep when the list is split.
 *
 * The source calls `Cell.GetRecord()` and `KeyNodeRecord.KeyName`, which
 * are not part of it: they are the parameters `getRecord` and `keyName`.
 * The source's recursion has no bound of its own (a key that is its own
 * subkey overflows the stack); `fuel` bounds the depth and running out
 * yields OutOfFuel.
 */
module WindowsRegistry {
  import opened Bytes
  import opened Results
  import opened Text
  import opened Seqs
  import opened Cells
  import opened BaseBlocks
  import opened PrimaryFiles
  import opened Records

  /** A registry key: its name and its subkeys in the order the subkey list gives them. */
  datatype Key = Key(name: Str, subkeys: seq<Key>)

  /** `SubkeysListOffset` of a key node without subkeys. */
  const NO_SUBKEYS: uint32 := 0xFFFF_FFFF

  /** The record in the cell at `offset`: BadRegf when no bin holds that cell or the cell holds no record. */
  function RecordAt(pf: PrimaryFile, getRecord: Cell -> Option<Record>, offset: uint32): (r: Result<Record>)
    ensures r.Err? ==> r.error == BadRegf
  {
    match FindCell(pf, offset)
    case None => Err(BadRegf)
    case Some(cell) =>
      match getRecord(cell)
      case None => Err(BadRegf)
      case Some(record) => Ok(record)
  }

  /**
   * `GetSubkeyOffsets(regf, record)` for a record other than an index root:
   * the elements of an li, the offsets of an lf or lh, and an
   * ArgumentException for any other record.
   */
  function ListOffsets(record: Record): (r: Result<seq<uint32>>)
    requires !record.IndexRoot?
    ensures r.Ok? <==> record.IndexLeaf? || record.FastLeaf? || record.HashLeaf?
    ensures r.Err? ==> r.error == Argument
    ensures record.IndexLeaf? ==> r == Ok(record.li.elements)
    ensures record.FastLeaf? ==>
      |r.value| == |record.lf.elements| && forall i | 0 <= i < |r.value| :: r.value[i] == record.lf.elements[i].0
    ensures record.HashLeaf? ==>
      |r.value| == |record.lh.elements| && forall i | 0 <= i < |r.value| :: r.value[i] == record.lh.elements[i].0
  {
    match record
    case IndexLeaf(li) => Ok(li.elements)
    case FastLeaf(lf) => Ok(Select(lf.elements, (e: (uint32, Str)) => e.0))
    case HashLeaf(lh) => Ok(Select(lh.elements, (e: (uint32, uint32)) => e.0))
    case _ => Err(Argument)
  }

  /** One element of an index root: the offsets of the list it points at, which may not be another index root. */
  function ChildOffsets(pf: PrimaryFile, getRecord: Cell -> Option<Record>, offset: uint32): (r: Result<seq<uint32>>)
    ensures r.Err? ==> r.error == BadRegf || r.error == Argument
  {
    var record :- RecordAt(pf, getRecord, offset);
    if record.IndexRoot? then Err(BadRegf) else ListOffsets(record)
  }

  /** The `foreach` over an index root's elements: each list's offsets appended in turn, the first failure escaping. */
  function RootOffsets(pf: PrimaryFile, getRecord: Cell -> Option<Record>, elements: seq<uint32>): (r: Result<seq<uint32>>)
    ensures r.Err? ==> r.error == BadRegf || r.error == Argument
  {
    if elements == [] then Ok([])
    else
      var first :- ChildOffsets(pf, getRecord, elements[0]);
      var rest :- RootOffsets(pf, getRecord, elements[1..]);
      Ok(first + rest)
  }

  /** `GetSubkeyOffsets(regf, record)`. */
  function SubkeyOffsets(pf: PrimaryFile, getRecord: Cell -> Option<Record>, record: Record): (r: Result<seq<uint32>>)
    ensures r.Err? ==> r.error == BadRegf || r.error == Argument
  {
    if record.IndexRoot? then RootOffsets(pf, getRecord, record.ri.elements) else ListOffsets(record)
  }

  /** `GetSubkeyOffsets(regf, nk)`: none for the 0xFFFFFFFF offset, otherwise those of the list the node points at. */
  function NodeSubkeyOffsets(pf: PrimaryFile, getRecord: Cell -> Option<Record>, nk: KeyNodeRecord): (r: Result<seq<uint32>>)
    ensures nk.subkeysListOffset == NO_SUBKEYS ==> r == Ok([])
    ensures nk.subkeysListOffset != NO_SUBKEYS ==>
      r == (var record :- RecordAt(pf, getRecord, nk.subkeysListOffset); SubkeyOffsets(pf, getRecord, record))
    ensures r.Err? ==> r.error == BadRegf || r.error == Argument
  {
    if nk.subkeysListOffset == NO_SUBKEYS then Ok([])
    else
      var record :- RecordAt(pf, getRecord, nk.subkeysListOffset);
      SubkeyOffsets(pf, getRecord, record)
  }

  /** `p` in front of a successful result; an error unchanged. */
  function Prepend<T>(p: seq<T>, r: Result<seq<T>>): Result<seq<T>>
  {
    if r.Ok? then Ok(p + r.value) else r
  }

  /** Nothing in front changes nothing, and a result extended by nothing is unchanged. */
  lemma PrependNothing<T>(p: seq<T>, r: Result<seq<T>>)
    ensures Prepend([], r) == r
    ensures Prepend(p, Ok([])) == Ok(p)
  {
    if r.Ok? {
      assert [] + r.value == r.value;
    }
    assert p + [] == p;
  }

  /** The record-offset loop as the source writes it, collecting into a list. */
  method GetSubkeyOffsets(pf: PrimaryFile, getRecord: Cell -> Option<Record>, record: Record) returns (r: Result<seq<uint32>>)
    ensures r == SubkeyOffsets(pf, getRecord, record)
  {
    if !record.IndexRoot? {
      return ListOffsets(record);
    }
    var elements := record.ri.elements;
    var offsets: seq<uint32> := [];
    assert elements[0..] == elements;
    PrependNothing(offsets, RootOffsets(pf, getRecord, elements));
    for i := 0 to |elements|
      invariant RootOffsets(pf, getRecord, elements) == Prepend(offsets, RootOffsets(pf, getRecord, elements[i..]))
    {
      assert elements[i..][1..] == elements[i + 1..];
      var child := ChildOffsets(pf, getRecord, elements[i]);
      if child.Err? {
        return Err(child.error);
      }
      var rest := RootOffsets(pf, getRecord, elements[i + 1..]);
      assert RootOffsets(pf, getRecord, elements[i..]) == Prepend(child.value, rest);
      if rest.Ok? {
        assert offsets + child.value + rest.value == offsets + (child.value + rest.value);
      }
      offsets := offsets + child.value;
    }
    assert elements[|elements|..] == [];
    PrependNothing(offsets, RootOffsets(pf, getRecord, []));
    return Ok(offsets);
  }

  /** An index root yields its lists' offsets one after another, and fails exactly when one of its elements does. */
  lemma {:induction false} RootOffsetsSpec(pf: PrimaryFile, getRecord: Cell -> Option<Record>, elements: seq<uint32>)
    ensures var r := RootOffsets(pf, getRecord, elements);
      && (r.Ok? <==> forall i | 0 <= i < |elements| :: ChildOffsets(pf, getRecord, elements[i]).Ok?)
      && (r.Ok? ==> r.value == Flatten(seq(|elements|, i requires 0 <= i < |elements| => ChildOffsets(pf, getRecord, elements[i]).value)))
    decreases |elements|
  {
    if elements != [] {
      var tail := elements[1..];
      RootOffsetsSpec(pf, getRecord, tail);
      assert forall i | 1 <= i < |elements| :: elements[i] == tail[i - 1];
      if RootOffsets(pf, getRecord, elements).Ok? {
        var pieces := seq(|elements|, i requires 0 <= i < |elements| => ChildOffsets(pf, getRecord, elements[i]).value);
        assert pieces[1..] == seq(|tail|, i requires 0 <= i < |tail| => ChildOffsets(pf, getRecord, tail[i]).value);
      }
    }
  }

  /** A subkey named by the list is loaded from its own key node. */
  function LoadKey(pf: PrimaryFile, getRecord: Cell -> Option<Record>, keyName: KeyNodeRecord -> Str,
                   nk: KeyNodeRecord, fuel: nat): (r: Result<Key>)
    ensures r.Ok? ==> r.value.name == keyName(nk)
    decreases fuel, 0
  {
    if fuel == 0 then Err(OutOfFuel)
    else
      var offsets :- NodeSubkeyOffsets(pf, getRecord, nk);
      var subkeys :- LoadSubkeys(pf, getRecord, keyName, offsets, fuel - 1);
      Ok(Key(keyName(nk), subkeys))
  }

  /** The `foreach` over the subkey offsets: each must hold a key node, which is loaded in turn. */
  function LoadSubkeys(pf: PrimaryFile, getRecord: Cell -> Option<Record>, keyName: KeyNodeRecord -> Str,
                       offsets: seq<uint32>, fuel: nat): (r: Result<seq<Key>>)
    decreases fuel, |offsets| + 1
  {
    if offsets == [] then Ok([])
    else
      var key :- LoadSubkey(pf, getRecord, keyName, offsets[0], fuel);
      var rest :- LoadSubkeys(pf, getRecord, keyName, offsets[1..], fuel);
      Ok([key] + rest)
  }

  /** One turn of that loop: BadRegf when the cell is missing, holds no record or holds a record other than a key node. */
  function LoadSubkey(pf: PrimaryFile, getRecord: Cell -> Option<Record>, keyName: KeyNodeRecord -> Str,
                      offset: uint32, fuel: nat): (r: Result<Key>)
    decreases fuel, 1
  {
    var record :- RecordAt(pf, getRecord, offset);
    if !record.KeyNode? then Err(BadRegf) else LoadKey(pf, getRecord, keyName, record.nk, fuel)
  }

  /** One turn of the subkey loop: a loaded subkey moves from the rest of the list to the keys collected so far. */
  lemma LoadSubkeysStep(pf: PrimaryFile, getRecord: Cell -> Option<Record>, keyName: KeyNodeRecord -> Str,
                        offsets: seq<uint32>, fuel: nat, i: nat, loaded: seq<Key>, subkey: Key)
    requires i < |offsets| && LoadSubkey(pf, getRecord, keyName, offsets[i], fuel) == Ok(subkey)
    ensures Prepend(loaded, LoadSubkeys(pf, getRecord, keyName, offsets[i..], fuel))
         == Prepend(loaded + [subkey], LoadSubkeys(pf, getRecord, keyName, offsets[i + 1..], fuel))
  {
    var rest := offsets[i..];
    assert rest[0] == offsets[i] && rest[1..] == offsets[i + 1..];
    var after := LoadSubkeys(pf, getRecord, keyName, offsets[i + 1..], fuel);
    if after.Ok? {
      assert loaded + ([subkey] + after.value) == loaded + [subkey] + after.value;
    }
  }

  /** `LoadKeyFromRecord` as the source writes it: a recursive method adding each loaded subkey to the key. */
  method LoadKeyFromRecord(pf: PrimaryFile, getRecord: Cell -> Option<Record>, keyName: KeyNodeRecord -> Str,
                           nk: KeyNodeRecord, fuel: nat) returns (r: Result<Key>)
    ensures r == LoadKey(pf, getRecord, keyName, nk, fuel)
    decreases fuel
  {
    if fuel == 0 {
      return Err(OutOfFuel);
    }
    var name := keyName(nk);
    var offsets := NodeSubkeyOffsets(pf, getRecord, nk);
    if offsets.Err? {
      return Err(offsets.error);
    }
    var subkeys: seq<Key> := [];
    assert offsets.value[0..] == offsets.value;
    PrependNothing(subkeys, LoadSubkeys(pf, getRecord, keyName, offsets.value, fuel - 1));
    for i := 0 to |offsets.value|
      invariant LoadSubkeys(pf, getRecord, keyName, offsets.value, fuel - 1)
             == Prepend(subkeys, LoadSubkeys(pf, getRecord, keyName, offsets.value[i..], fuel - 1))
    {
      var rest := offsets.value[i..];
      assert rest[1..] == offsets.value[i + 1..];
      var record := RecordAt(pf, getRecord, offsets.value[i]);
      if record.Err? {
        return Err(record.error);
      }
      if !record.value.KeyNode? {
        return Err(BadRegf);
      }
      var subkey := LoadKeyFromRecord(pf, getRecord, keyName, record.value.nk, fuel - 1);
      if subkey.Err? {
        return Err(subkey.error);
      }
      assert LoadSubkey(pf, getRecord, keyName, offsets.value[i], fuel - 1) == subkey;
      LoadSubkeysStep(pf, getRecord, keyName, offsets.value, fuel - 1, i, subkeys, subkey.value);
      subkeys := subkeys + [subkey.value];
    }
    assert offsets.value[|offsets.value|..] == [];
    PrependNothing(subkeys, LoadSubkeys(pf, getRecord, keyName, [], fuel - 1));
    return Ok(Key(name, subkeys));
  }

  /**
   * The subkeys load exactly when every offset holds a key node that loads,
   * and subkey i is then the key loaded from the node at offset i.
   */
  lemma {:induction false} LoadSubkeysSpec(pf: PrimaryFile, getRecord: Cell -> Option<Record>, keyName: KeyNodeRecord -> Str,
                                           offsets: seq<uint32>, fuel: nat)
    ensures var r := LoadSubkeys(pf, getRecord, keyName, offsets, fuel);
      && (r.Ok? <==> forall i | 0 <= i < |offsets| :: LoadSubkey(pf, getRecord, keyName, offsets[i], fuel).Ok?)
      && (r.Ok? ==> |r.value| == |offsets|
                    && forall i | 0 <= i < |offsets| :: LoadSubkey(pf, getRecord, keyName, offsets[i], fuel) == Ok(r.value[i]))
    decreases |offsets|
  {
    if offsets != [] {
      var tail := offsets[1..];
      LoadSubkeysSpec(pf, getRecord, keyName, tail, fuel);
      assert forall i | 1 <= i < |offsets| :: offsets[i] == tail[i - 1];
    }
  }

  /** A subkey loads from offset `o` exactly when `o` holds a key node whose key loads. */
  lemma LoadSubkeySpec(pf: PrimaryFile, getRecord: Cell -> Option<Record>, keyName: KeyNodeRecord -> Str,
                       offset: uint32, fuel: nat)
    ensures var r := LoadSubkey(pf, getRecord, keyName, offset, fuel);
      && (r.Ok? <==> && FindCell(pf, offset).Some?
                     && getRecord(FindCell(pf, offset).value).Some?
                     && getRecord(FindCell(pf, offset).value).value.KeyNode?
                     && LoadKey(pf, getRecord, keyName, getRecord(FindCell(pf, offset).value).value.nk, fuel).Ok?)
      && (r.Ok? ==> r == LoadKey(pf, getRecord, keyName, getRecord(FindCell(pf, offset).value).value.nk, fuel))
  {
  }

  /** A key never runs deeper than the fuel it was loaded with. */
  function Depth(k: Key): (d: nat)
    ensures d >= 1
    ensures forall i | 0 <= i < |k.subkeys| :: Depth(k.subkeys[i]) < d
  {
    1 + DepthOf(k.subkeys)
  }

  function DepthOf(keys: seq<Key>): (d: nat)
    ensures forall i | 0 <= i < |keys| :: Depth(keys[i]) <= d
  {
    if keys == [] then 0
    else
      var a := Depth(keys[0]);
      var b := DepthOf(keys[1..]);
      assert forall i | 1 <= i < |keys| :: keys[i] == keys[1..][i - 1];
      if a < b then b else a
  }

  /**
   * More fuel never changes a key that loaded: the bound only cuts a
   * recursion off, so a loaded tree is the one the unbounded source builds.
   */
  lemma {:induction false} LoadKeyMoreFuel(pf: PrimaryFile, getRecord: Cell -> Option<Record>, keyName: KeyNodeRecord -> Str,
                                           nk: KeyNodeRecord, fuel: nat, more: nat)
    requires fuel <= more && LoadKey(pf, getRecord, keyName, nk, fuel).Ok?
    ensures LoadKey(pf, getRecord, keyName, nk, more) == LoadKey(pf, getRecord, keyName, nk, fuel)
    decreases fuel, 0
  {
    var offsets := NodeSubkeyOffsets(pf, getRecord, nk).value;
    LoadSubkeysMoreFuel(pf, getRecord, keyName, offsets, fuel - 1, more - 1);
  }

  lemma {:induction false} LoadSubkeysMoreFuel(pf: PrimaryFile, getRecord: Cell -> Option<Record>, keyName: KeyNodeRecord -> Str,
                                               offsets: seq<uint32>, fuel: nat, more: nat)
    requires fuel <= more && LoadSubkeys(pf, getRecord, keyName, offsets, fuel).Ok?
    ensures LoadSubkeys(pf, getRecord, keyName, offsets, more) == LoadSubkeys(pf, getRecord, keyName, offsets, fuel)
    decreases fuel, |offsets| + 1
  {
    if offsets != [] {
      var record := RecordAt(pf, getRecord, offsets[0]).value;
      LoadKeyMoreFuel(pf, getRecord, keyName, record.nk, fuel, more);
      LoadSubkeysMoreFuel(pf, getRecord, keyName, offsets[1..], fuel, more);
    }
  }

  /** A loaded key is at most `fuel` levels deep. */
  lemma {:induction false} LoadKeyDepth(pf: PrimaryFile, getRecord: Cell -> Option<Record>, keyName: KeyNodeRecord -> Str,
                                        nk: KeyNodeRecord, fuel: nat)
    requires LoadKey(pf, getRecord, keyName, nk, fuel).Ok?
    ensures Depth(LoadKey(pf, getRecord, keyName, nk, fuel).value) <= fuel
    decreases fuel, 0
  {
    var offsets := NodeSubkeyOffsets(pf, getRecord, nk).value;
    LoadSubkeysDepth(pf, getRecord, keyName, offsets, fuel - 1);
  }

  lemma {:induction false} LoadSubkeysDepth(pf: PrimaryFile, getRecord: Cell -> Option<Record>, keyName: KeyNodeRecord -> Str,
                                            offsets: seq<uint32>, fuel: nat)
    requires LoadSubkeys(pf, getRecord, keyName, offsets, fuel).Ok?
    ensures DepthOf(LoadSubkeys(pf, getRecord, keyName, offsets, fuel).value) <= fuel
    decreases fuel, |offsets| + 1
  {
    if offsets != [] {
      var record := RecordAt(pf, getRecord, offsets[0]).value;
      LoadKeyDepth(pf, getRecord, keyName, record.nk, fuel);
      LoadSubkeysDepth(pf, getRecord, keyName, offsets[1..], fuel);
    }
  }

  /**
   * `LoadFromPrimaryFile`: BadRegf without a root cell or without a key node
   * in it, and every failure while loading the tree rewrapped as BadRegf; a
   * recursion deeper than the fuel is not an exception the source can
   * catch, so OutOfFuel escapes as it is.
   */
  function LoadFromPrimaryFile(pf: PrimaryFile, getRecord: Cell -> Option<Record>, keyName: KeyNodeRecord -> Str,
                               fuel: nat): (r: Result<Key>)
    ensures r.Err? ==> r.error == BadRegf || r.error == OutOfFuel
  {
    match FindCell(pf, pf.baseBlock.rootCellOffset)
    case None => Err(BadRegf)
    case Some(rootCell) =>
      match getRecord(rootCell)
      case None => Err(BadRegf)
      case Some(record) =>
        if !record.KeyNode? then Err(BadRegf)
        else
          match LoadKey(pf, getRecord, keyName, record.nk, fuel)
          case Ok(key) => Ok(key)
          case Err(e) => Err(if e == OutOfFuel then OutOfFuel else BadRegf)
  }

  /** The hive loads exactly when the root cell holds a key node whose tree loads, and is then that tree. */
  lemma LoadFromPrimaryFileSpec(pf: PrimaryFile, getRecord: Cell -> Option<Record>, keyName: KeyNodeRecord -> Str, fuel: nat)
    ensures var r := LoadFromPrimaryFile(pf, getRecord, keyName, fuel);
      var root := RecordAt(pf, getRecord, pf.baseBlock.rootCellOffset);
      && (r.Ok? <==> root.Ok? && root.value.KeyNode? && LoadKey(pf, getRecord, keyName, root.value.nk, fuel).Ok?)
      && (r.Ok? ==> r == LoadKey(pf, getRecord, keyName, root.value.nk, fuel) && r.value.name == keyName(root.value.nk))
      && (r == Err(OutOfFuel) ==> root.Ok? && root.value.KeyNode?
                                  && LoadKey(pf, getRecord, keyName, root.value.nk, fuel) == Err(OutOfFuel))
  {
  }
}
