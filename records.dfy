/**
 * The regf records a cell's data holds: subkey lists (li, ri, lf, lh), key
 * nodes (nk) and key values (vk). Each decoder checks the buffer is long
 * enough for its fixed part, reads little-endian fields at fixed offsets and
 * then reads the variable part the fixed part describes.
 */
module Records {
  import opened Bytes
  import opened Results
  import opened Text
  import opened Seqs

  const LI_SIGNATURE: Str := Lit("li")
  const RI_SIGNATURE: Str := Lit("ri")
  const LF_SIGNATURE: Str := Lit("lf")
  const LH_SIGNATURE: Str := Lit("lh")
  const NK_SIGNATURE: Str := Lit("nk")
  const VK_SIGNATURE: Str := Lit("vk")

  /** Where each list decoder's elements start: after the signature and the element count. */
  const LIST_HEADER_SIZE: nat := 4

  // ---- li and ri ----

  /**
   * An index leaf (li) or index root (ri): the two classes read the same
   * layout, a count and that many 32-bit cell offsets (of key nodes for li,
   * of subkey lists for ri).
   */
  datatype IndexRecord = IndexRecord(signature: Str, numberOfElements: uint16, elements: seq<uint32>)

  /**
   * `new IndexLeafRecord(span)` and `new IndexRootRecord(span)`: the ASCII
   * of bytes 0..2, the count at 2 and element i at `4 + 4i`; an
   * ArgumentException when the buffer is shorter than 4 bytes or than the
   * elements the count announces.
   */
  function DecodeIndexRecord(data: seq<uint8>): (r: Result<IndexRecord>)
    ensures r.Ok? <==> LIST_HEADER_SIZE <= |data| && LIST_HEADER_SIZE + 4 * LE16(data, 2) <= |data|
    ensures r.Ok? ==> |r.value.elements| == r.value.numberOfElements as nat && |r.value.signature| == 2
  {
    if |data| < LIST_HEADER_SIZE then Err(Argument)
    else
      var n := LE16(data, 2);
      if |data| < LIST_HEADER_SIZE + 4 * n then Err(Argument)
      else Ok(IndexRecord(Ascii(data[0..2]), n, seq(n, i requires 0 <= i < n => LE32(data, 4 + 4 * i))))
  }

  /** The constructors as the source writes them; Tabulate is their `for` loop over the elements. */
  method ReadIndexRecord(data: seq<uint8>) returns (r: Result<IndexRecord>)
    ensures r == DecodeIndexRecord(data)
  {
    if |data| < LIST_HEADER_SIZE {
      return Err(Argument);
    }
    var signature := Ascii(data[0..2]);
    var n := LE16(data, 2);
    if |data| < LIST_HEADER_SIZE + 4 * n {
      return Err(Argument);
    }
    var elements := Tabulate((i: nat) requires 8 + 4 * i <= |data| => LE32(data, 4 + 4 * i), n);
    assert elements == seq(n, i requires 0 <= i < n => LE32(data, 4 + 4 * i));
    return Ok(IndexRecord(signature, n, elements));
  }

  /** The little-endian bytes of each value, one after another. */
  function Words(values: seq<uint32>): (r: seq<seq<uint8>>)
    ensures |r| == |values|
    ensures forall i | 0 <= i < |r| :: |r[i]| == 4
  {
    seq(|values|, i requires 0 <= i < |values| => Bytes32(values[i]))
  }

  /** Two signature bytes, the count and the elements. */
  function EncodeIndexRecord(sig: seq<uint8>, elements: seq<uint32>): seq<uint8>
    requires |sig| == 2 && |elements| < TWO_TO_16
  {
    sig + Bytes16(|elements|) + Flatten(Words(elements))
  }

  /** Each value is read back from its four bytes wherever the flattened words sit in a buffer. */
  lemma {:induction false} WordsAt(e: seq<uint8>, pre: nat, values: seq<uint32>)
    requires pre + 4 * |values| <= |e| && e[pre..pre + 4 * |values|] == Flatten(Words(values))
    ensures forall i | 0 <= i < |values| :: LE32(e, pre + 4 * i) == values[i]
  {
    forall i | 0 <= i < |values|
      ensures LE32(e, pre + 4 * i) == values[i]
    {
      FlattenChunk(Words(values), 4, i);
      SliceOfSlice(e, pre, pre + 4 * |values|, 4 * i, 4 * i + 4);
      LE32At(e, pre + 4 * i, values[i]);
    }
  }

  /** The list read from its encoding is the elements in order, whatever follows. */
  lemma IndexRecordRoundTrip(sig: seq<uint8>, elements: seq<uint32>, rest: seq<uint8>)
    requires |sig| == 2 && |elements| < TWO_TO_16
    ensures DecodeIndexRecord(EncodeIndexRecord(sig, elements) + rest)
         == Ok(IndexRecord(Ascii(sig), |elements| as uint16, elements))
  {
    var n := |elements|;
    var words := Flatten(Words(elements));
    FlattenLength(Words(elements), 4);
    var e := sig + Bytes16(n) + (words + rest);
    assert e == EncodeIndexRecord(sig, elements) + rest;
    LE16Bytes(n, sig, words + rest);
    assert e[0..2] == sig;
    assert e[4..4 + 4 * n] == words;
    WordsAt(e, 4, elements);
    assert seq(n, i requires 0 <= i < n => LE32(e, 4 + 4 * i)) == elements;
  }

  // ---- lf and lh ----

  /** The eight-byte elements of lf and lh: four little-endian offset bytes, then four more. */
  function Pairs(offsets: seq<uint32>, seconds: seq<seq<uint8>>): (r: seq<seq<uint8>>)
    requires |seconds| == |offsets| && forall i | 0 <= i < |seconds| :: |seconds[i]| == 4
    ensures |r| == |offsets|
    ensures forall i | 0 <= i < |r| :: |r[i]| == 8
  {
    seq(|offsets|, i requires 0 <= i < |offsets| => Bytes32(offsets[i]) + seconds[i])
  }

  /** Each element is read back from its eight bytes wherever the flattened pairs sit in a buffer. */
  lemma {:induction false} PairsAt(e: seq<uint8>, pre: nat, offsets: seq<uint32>, seconds: seq<seq<uint8>>)
    requires |seconds| == |offsets| && forall i | 0 <= i < |seconds| :: |seconds[i]| == 4
    requires pre + 8 * |offsets| <= |e| && e[pre..pre + 8 * |offsets|] == Flatten(Pairs(offsets, seconds))
    ensures forall i | 0 <= i < |offsets| ::
      LE32(e, pre + 8 * i) == offsets[i] && e[pre + 8 * i + 4..pre + 8 * i + 8] == seconds[i]
  {
    forall i | 0 <= i < |offsets|
      ensures LE32(e, pre + 8 * i) == offsets[i] && e[pre + 8 * i + 4..pre + 8 * i + 8] == seconds[i]
    {
      FlattenChunk(Pairs(offsets, seconds), 8, i);
      SliceOfSlice(e, pre, pre + 8 * |offsets|, 8 * i, 8 * i + 8);
      var piece := e[pre + 8 * i..pre + 8 * i + 8];
      assert piece == Bytes32(offsets[i]) + seconds[i];
      assert e[pre + 8 * i..pre + 8 * i + 4] == piece[..4];
      LE32At(e, pre + 8 * i, offsets[i]);
      assert e[pre + 8 * i + 4..pre + 8 * i + 8] == piece[4..];
    }
  }

  /** A fast leaf: each subkey's key-node offset with the first four ASCII characters of its name as a hint. */
  datatype FastLeafRecord = FastLeafRecord(signature: Str, numberOfElements: uint16, elements: seq<(uint32, Str)>)

  /** The hint of a fast-leaf element: four ASCII bytes, NULs removed, then trimmed. */
  function Hint(bytes: seq<uint8>): (r: Str)
    ensures |r| <= |bytes| && NUL !in r
  {
    Clean(Ascii(bytes))
  }

  /** Element i of a fast leaf: the offset at `4 + 8i` and the hint from `8 + 8i..12 + 8i`. */
  function FastLeafElement(data: seq<uint8>, i: nat): (uint32, Str)
    requires 12 + 8 * i <= |data|
  {
    (LE32(data, 4 + 8 * i), Hint(data[8 + 8 * i..12 + 8 * i]))
  }

  /**
   * `new FastLeafRecord(span)`: the count at 2 and element i's offset at
   * `4 + 8i` and hint bytes at `8 + 8i..12 + 8i`; an ArgumentException when
   * the buffer is shorter than 4 bytes or than the elements it announces.
   */
  function DecodeFastLeaf(data: seq<uint8>): (r: Result<FastLeafRecord>)
    ensures r.Ok? <==> LIST_HEADER_SIZE <= |data| && LIST_HEADER_SIZE + 8 * LE16(data, 2) <= |data|
    ensures r.Ok? ==> |r.value.elements| == r.value.numberOfElements as nat && |r.value.signature| == 2
  {
    if |data| < LIST_HEADER_SIZE then Err(Argument)
    else
      var n := LE16(data, 2);
      if |data| < LIST_HEADER_SIZE + 8 * n then Err(Argument)
      else Ok(FastLeafRecord(Ascii(data[0..2]), n,
                             seq(n, i requires 0 <= i < n => FastLeafElement(data, i))))
  }

  /** Every hint holds at most four characters and no NUL. */
  lemma FastLeafHints(data: seq<uint8>)
    requires DecodeFastLeaf(data).Ok?
    ensures var es := DecodeFastLeaf(data).value.elements;
      forall i | 0 <= i < |es| :: |es[i].1| <= 4 && NUL !in es[i].1
  {
  }

  /** The constructor as the source writes it; Tabulate is its `for` loop over the elements. */
  method ReadFastLeaf(data: seq<uint8>) returns (r: Result<FastLeafRecord>)
    ensures r == DecodeFastLeaf(data)
  {
    if |data| < LIST_HEADER_SIZE {
      return Err(Argument);
    }
    var signature := Ascii(data[0..2]);
    var n := LE16(data, 2);
    if |data| < LIST_HEADER_SIZE + 8 * n {
      return Err(Argument);
    }
    var elements := Tabulate((i: nat) requires 12 + 8 * i <= |data| => FastLeafElement(data, i), n);
    assert elements == seq(n, i requires 0 <= i < n => FastLeafElement(data, i));
    return Ok(FastLeafRecord(signature, n, elements));
  }

  /** Two signature bytes, the count, then each offset followed by its four hint bytes. */
  function EncodeFastLeaf(sig: seq<uint8>, offsets: seq<uint32>, hints: seq<seq<uint8>>): seq<uint8>
    requires |sig| == 2 && |offsets| < TWO_TO_16
    requires |hints| == |offsets| && forall i | 0 <= i < |hints| :: |hints[i]| == 4
  {
    sig + Bytes16(|offsets|) + Flatten(Pairs(offsets, hints))
  }

  /** The fast leaf read from its encoding pairs each offset with its cleaned hint, in order. */
  lemma FastLeafRoundTrip(sig: seq<uint8>, offsets: seq<uint32>, hints: seq<seq<uint8>>, rest: seq<uint8>)
    requires |sig| == 2 && |offsets| < TWO_TO_16
    requires |hints| == |offsets| && forall i | 0 <= i < |hints| :: |hints[i]| == 4
    ensures DecodeFastLeaf(EncodeFastLeaf(sig, offsets, hints) + rest)
         == Ok(FastLeafRecord(Ascii(sig), |offsets| as uint16,
                              seq(|offsets|, i requires 0 <= i < |offsets| => (offsets[i], Hint(hints[i])))))
  {
    var n := |offsets|;
    var pairs := Flatten(Pairs(offsets, hints));
    FlattenLength(Pairs(offsets, hints), 8);
    var e := sig + Bytes16(n) + (pairs + rest);
    assert e == EncodeFastLeaf(sig, offsets, hints) + rest;
    LE16Bytes(n, sig, pairs + rest);
    assert e[0..2] == sig;
    assert e[4..4 + 8 * n] == pairs;
    FastLeafElements(e, offsets, hints);
  }

  lemma FastLeafElements(e: seq<uint8>, offsets: seq<uint32>, hints: seq<seq<uint8>>)
    requires |hints| == |offsets| && forall i | 0 <= i < |hints| :: |hints[i]| == 4
    requires 4 + 8 * |offsets| <= |e| && e[4..4 + 8 * |offsets|] == Flatten(Pairs(offsets, hints))
    ensures seq(|offsets|, i requires 0 <= i < |offsets| => FastLeafElement(e, i))
         == seq(|offsets|, i requires 0 <= i < |offsets| => (offsets[i], Hint(hints[i])))
  {
    PairsAt(e, 4, offsets, hints);
  }

  /** A hash leaf: each subkey's key-node offset with the hash of its name. */
  datatype HashLeafRecord = HashLeafRecord(signature: Str, numberOfElements: uint16, elements: seq<(uint32, uint32)>)

  /**
   * `new HashLeafRecord(span)`: the count at 2 and element i's offset at
   * `4 + 8i` and name hash at `8 + 8i`; an ArgumentException when the buffer
   * is shorter than 4 bytes or than the elements it announces.
   */
  function DecodeHashLeaf(data: seq<uint8>): (r: Result<HashLeafRecord>)
    ensures r.Ok? <==> LIST_HEADER_SIZE <= |data| && LIST_HEADER_SIZE + 8 * LE16(data, 2) <= |data|
    ensures r.Ok? ==> |r.value.elements| == r.value.numberOfElements as nat && |r.value.signature| == 2
  {
    if |data| < LIST_HEADER_SIZE then Err(Argument)
    else
      var n := LE16(data, 2);
      if |data| < LIST_HEADER_SIZE + 8 * n then Err(Argument)
      else Ok(HashLeafRecord(Ascii(data[0..2]), n,
                             seq(n, i requires 0 <= i < n => (LE32(data, 4 + 8 * i), LE32(data, 8 + 8 * i)))))
  }

  /** The constructor as the source writes it; Tabulate is its `for` loop over the elements. */
  method ReadHashLeaf(data: seq<uint8>) returns (r: Result<HashLeafRecord>)
    ensures r == DecodeHashLeaf(data)
  {
    if |data| < LIST_HEADER_SIZE {
      return Err(Argument);
    }
    var signature := Ascii(data[0..2]);
    var n := LE16(data, 2);
    if |data| < LIST_HEADER_SIZE + 8 * n {
      return Err(Argument);
    }
    var elements := Tabulate((i: nat) requires 12 + 8 * i <= |data| => (LE32(data, 4 + 8 * i), LE32(data, 8 + 8 * i)), n);
    assert elements == seq(n, i requires 0 <= i < n => (LE32(data, 4 + 8 * i), LE32(data, 8 + 8 * i)));
    return Ok(HashLeafRecord(signature, n, elements));
  }

  function Firsts(elements: seq<(uint32, uint32)>): (r: seq<uint32>)
    ensures |r| == |elements| && forall i | 0 <= i < |r| :: r[i] == elements[i].0
  {
    seq(|elements|, i requires 0 <= i < |elements| => elements[i].0)
  }

  function Seconds(elements: seq<(uint32, uint32)>): (r: seq<uint32>)
    ensures |r| == |elements| && forall i | 0 <= i < |r| :: r[i] == elements[i].1
  {
    seq(|elements|, i requires 0 <= i < |elements| => elements[i].1)
  }

  /** Two signature bytes, the count, then each offset followed by its hash. */
  function EncodeHashLeaf(sig: seq<uint8>, elements: seq<(uint32, uint32)>): seq<uint8>
    requires |sig| == 2 && |elements| < TWO_TO_16
  {
    sig + Bytes16(|elements|) + Flatten(Pairs(Firsts(elements), Words(Seconds(elements))))
  }

  /** The hash leaf read from its encoding is the elements in order, whatever follows. */
  lemma HashLeafRoundTrip(sig: seq<uint8>, elements: seq<(uint32, uint32)>, rest: seq<uint8>)
    requires |sig| == 2 && |elements| < TWO_TO_16
    ensures DecodeHashLeaf(EncodeHashLeaf(sig, elements) + rest)
         == Ok(HashLeafRecord(Ascii(sig), |elements| as uint16, elements))
  {
    var n := |elements|;
    var pieces := Pairs(Firsts(elements), Words(Seconds(elements)));
    var pairs := Flatten(pieces);
    FlattenLength(pieces, 8);
    var e := sig + Bytes16(n) + (pairs + rest);
    assert e == EncodeHashLeaf(sig, elements) + rest;
    LE16Bytes(n, sig, pairs + rest);
    assert e[0..2] == sig;
    assert e[4..4 + 8 * n] == pairs;
    HashLeafElements(e, elements);
  }

  lemma HashLeafElements(e: seq<uint8>, elements: seq<(uint32, uint32)>)
    requires 4 + 8 * |elements| <= |e|
    requires e[4..4 + 8 * |elements|] == Flatten(Pairs(Firsts(elements), Words(Seconds(elements))))
    ensures seq(|elements|, i requires 0 <= i < |elements| => (LE32(e, 4 + 8 * i), LE32(e, 8 + 8 * i))) == elements
  {
    PairsAt(e, 4, Firsts(elements), Words(Seconds(elements)));
    forall i | 0 <= i < |elements|
      ensures (LE32(e, 4 + 8 * i), LE32(e, 8 + 8 * i)) == elements[i]
    {
      LE32At(e, 8 + 8 * i, Seconds(elements)[i]);
    }
  }

  // ---- nk ----

  const KEY_NODE_SIZE: nat := 76

  /** `Flags & 0x20` (KEY_COMP_NAME): the key name is ASCII rather than UTF-16. */
  const KEY_COMP_NAME_BIT: nat := 5

  /** A key node; `keyName` is the decoded name (`KeyNameString`). */
  datatype KeyNodeRecord = KeyNodeRecord(
    signature: Str, flags: uint16, lastWrittenTimestamp: uint64,
    accessBits: uint32, parent: uint32, numberOfSubkeys: uint32, numberOfVolatileSubkeys: uint32,
    subkeysListOffset: uint32, volatileSubkeysListOffset: uint32, numberOfKeyValues: uint32,
    keyValuesListOffset: uint32, keySecurityOffset: uint32, classNameOffset: uint32,
    largestSubkeyNameLength: uint32, largestSubkeyClassNameLength: uint32, largestValueNameLength: uint32,
    largestValueDataSize: uint32, workVar: uint32,
    keyNameLength: uint16, classNameLength: uint16, keyName: Str)
  {
    /** The fifteen 32-bit fields from offset 12 to 72, in layout order. */
    function Numbers(): (r: seq<uint32>)
      ensures |r| == 15
    {
      [accessBits, parent, numberOfSubkeys, numberOfVolatileSubkeys, subkeysListOffset,
       volatileSubkeysListOffset, numberOfKeyValues, keyValuesListOffset, keySecurityOffset,
       classNameOffset, largestSubkeyNameLength, largestSubkeyClassNameLength,
       largestValueNameLength, largestValueDataSize, workVar]
    }
  }

  /** The key name's text: ASCII when the compressed-name flag is set, otherwise UTF-16LE. */
  function KeyNameText(flags: uint16, name: seq<uint8>): Str
  {
    if BitSet(flags, KEY_COMP_NAME_BIT) then Ascii(name) else Utf16(name)
  }

  /**
   * `new KeyNodeRecord(span)`: the fixed fields at offsets 0 to 76, then the
   * `KeyNameLength` name bytes at 76; an ArgumentException when the buffer
   * is shorter than 76 bytes or than the name it announces.
   */
  function DecodeKeyNode(data: seq<uint8>): (r: Result<KeyNodeRecord>)
    ensures r.Ok? <==> KEY_NODE_SIZE <= |data| && KEY_NODE_SIZE + LE16(data, 72) <= |data|
    ensures r.Ok? ==> |r.value.signature| == 2 && r.value.keyNameLength == LE16(data, 72)
  {
    if |data| < KEY_NODE_SIZE then Err(Argument)
    else
      var flags := LE16(data, 2);
      var keyNameLength := LE16(data, 72);
      if |data| < KEY_NODE_SIZE + keyNameLength then Err(Argument)
      else Ok(KeyNodeRecord(
        Ascii(data[0..2]), flags, LE64(data, 4),
        LE32(data, 12), LE32(data, 16), LE32(data, 20), LE32(data, 24), LE32(data, 28),
        LE32(data, 32), LE32(data, 36), LE32(data, 40), LE32(data, 44), LE32(data, 48),
        LE32(data, 52), LE32(data, 56), LE32(data, 60), LE32(data, 64), LE32(data, 68),
        keyNameLength, LE16(data, 74), KeyNameText(flags, data[76..76 + keyNameLength])))
  }

  /** The layout of a key node with `name` as its name bytes. */
  function EncodeKeyNode(k: KeyNodeRecord, sig: seq<uint8>, name: seq<uint8>): (r: seq<uint8>)
    requires |sig| == 2 && |name| < TWO_TO_16
    ensures |r| == KEY_NODE_SIZE + |name|
  {
    FlattenLength(Words(k.Numbers()), 4);
    sig + Bytes16(k.flags) + Bytes64(k.lastWrittenTimestamp) + Flatten(Words(k.Numbers()))
    + Bytes16(|name|) + Bytes16(k.classNameLength) + name
  }

  /** The fifteen 32-bit fields of an encoded key node read back in order. */
  lemma KeyNodeNumbers(k: KeyNodeRecord, sig: seq<uint8>, name: seq<uint8>, rest: seq<uint8>)
    requires |sig| == 2 && |name| < TWO_TO_16
    ensures var e := EncodeKeyNode(k, sig, name) + rest;
      && LE32(e, 12) == k.accessBits && LE32(e, 16) == k.parent
      && LE32(e, 20) == k.numberOfSubkeys && LE32(e, 24) == k.numberOfVolatileSubkeys
      && LE32(e, 28) == k.subkeysListOffset && LE32(e, 32) == k.volatileSubkeysListOffset
      && LE32(e, 36) == k.numberOfKeyValues && LE32(e, 40) == k.keyValuesListOffset
      && LE32(e, 44) == k.keySecurityOffset && LE32(e, 48) == k.classNameOffset
      && LE32(e, 52) == k.largestSubkeyNameLength && LE32(e, 56) == k.largestSubkeyClassNameLength
      && LE32(e, 60) == k.largestValueNameLength && LE32(e, 64) == k.largestValueDataSize
      && LE32(e, 68) == k.workVar
  {
    var e := EncodeKeyNode(k, sig, name) + rest;
    var numbers := Flatten(Words(k.Numbers()));
    FlattenLength(Words(k.Numbers()), 4);
    assert e[12..72] == numbers;
    WordsAt(e, 12, k.Numbers());
    var w := seq(15, i requires 0 <= i < 15 => LE32(e, 12 + 4 * i));
    assert w == k.Numbers();
    assert w[1] == LE32(e, 16) && w[2] == LE32(e, 20) && w[3] == LE32(e, 24) && w[4] == LE32(e, 28);
    assert w[5] == LE32(e, 32) && w[6] == LE32(e, 36) && w[7] == LE32(e, 40) && w[8] == LE32(e, 44);
    assert w[9] == LE32(e, 48) && w[10] == LE32(e, 52) && w[11] == LE32(e, 56) && w[12] == LE32(e, 60);
    assert w[13] == LE32(e, 64) && w[14] == LE32(e, 68);
  }

  /** The fields around the fifteen numbers of an encoded key node read back, and the name bytes are found at 76. */
  lemma KeyNodeEnds(k: KeyNodeRecord, sig: seq<uint8>, name: seq<uint8>, rest: seq<uint8>)
    requires |sig| == 2 && |name| < TWO_TO_16
    ensures var e := EncodeKeyNode(k, sig, name) + rest;
      && e[0..2] == sig && LE16(e, 2) == k.flags && LE64(e, 4) == k.lastWrittenTimestamp
      && LE16(e, 72) == |name| && LE16(e, 74) == k.classNameLength
      && e[76..76 + |name|] == name
  {
    var e := EncodeKeyNode(k, sig, name) + rest;
    var numbers := Flatten(Words(k.Numbers()));
    FlattenLength(Words(k.Numbers()), 4);
    assert e[2..4] == Bytes16(k.flags);
    LE16At(e, 2, k.flags);
    assert e[4..12] == Bytes64(k.lastWrittenTimestamp);
    LE64At(e, 4, k.lastWrittenTimestamp);
    assert e[72..74] == Bytes16(|name|);
    LE16At(e, 72, |name|);
    assert e[74..76] == Bytes16(k.classNameLength);
    LE16At(e, 74, k.classNameLength);
  }

  /**
   * A key node read from its layout gives every field back; the name length
   * is that of the name bytes and the name is their ASCII or UTF-16 text as
   * the flags choose, whatever follows the name.
   */
  lemma KeyNodeRoundTrip(k: KeyNodeRecord, sig: seq<uint8>, name: seq<uint8>, rest: seq<uint8>)
    requires |sig| == 2 && |name| < TWO_TO_16
    ensures DecodeKeyNode(EncodeKeyNode(k, sig, name) + rest)
         == Ok(k.(signature := Ascii(sig), keyNameLength := |name| as uint16, keyName := KeyNameText(k.flags, name)))
  {
    KeyNodeNumbers(k, sig, name, rest);
    KeyNodeEnds(k, sig, name, rest);
  }

  // ---- vk ----

  const KEY_VALUE_SIZE: nat := 20

  /** `Flags & 1` (VALUE_COMP_NAME): the value name is ASCII rather than UTF-16. */
  const VALUE_COMP_NAME_BIT: nat := 0

  /**
   * A key value; `dataType` keeps any 32-bit value, not only the named
   * DataType members, and `valueName` is None for a nameless (default) value.
   */
  datatype KeyValueRecord = KeyValueRecord(
    signature: Str, nameLength: uint16, dataSize: uint32, dataOffset: uint32,
    dataType: uint32, flags: uint16, spare: uint16, valueName: Option<Str>)
  {
    /** `DataSize & 0x80000000`: the data sits in `dataOffset` itself. */
    predicate IsInlineData() { HighBit32(dataSize) }

    /** `DataSize & 0x7FFFFFFF`. */
    function ActualSize(): uint32 { Low31(dataSize) }
  }

  /** The size word is the inline flag in its top bit above the actual size in the other 31. */
  lemma DataSizeSplit(v: KeyValueRecord)
    ensures v.ActualSize() < TWO_TO_31
    ensures v.dataSize as int == (if v.IsInlineData() then TWO_TO_31 else 0) + v.ActualSize() as int
  {
  }

  function ValueNameText(flags: uint16, name: seq<uint8>): Str
  {
    if BitSet(flags, VALUE_COMP_NAME_BIT) then Ascii(name) else Utf16(name)
  }

  /**
   * `new KeyValueRecord(span)`: the fixed fields at offsets 0 to 20; no name
   * when `NameLength` is 0, otherwise the name bytes at 20; an
   * ArgumentException when the buffer is shorter than 20 bytes or than a
   * name it announces.
   */
  function DecodeKeyValue(data: seq<uint8>): (r: Result<KeyValueRecord>)
    ensures r.Ok? <==> KEY_VALUE_SIZE <= |data| && KEY_VALUE_SIZE + LE16(data, 2) <= |data|
    ensures r.Ok? ==> |r.value.signature| == 2 && r.value.nameLength == LE16(data, 2)
    ensures r.Ok? ==> (r.value.valueName.None? <==> r.value.nameLength == 0)
  {
    if |data| < KEY_VALUE_SIZE then Err(Argument)
    else
      var nameLength := LE16(data, 2);
      var flags := LE16(data, 16);
      var record := KeyValueRecord(Ascii(data[0..2]), nameLength, LE32(data, 4), LE32(data, 8),
                                   LE32(data, 12), flags, LE16(data, 18), None);
      if nameLength == 0 then Ok(record)
      else if |data| < KEY_VALUE_SIZE + nameLength then Err(Argument)
      else Ok(record.(valueName := Some(ValueNameText(flags, data[20..20 + nameLength]))))
  }

  /** The layout of a key value with `name` as its name bytes. */
  function EncodeKeyValue(v: KeyValueRecord, sig: seq<uint8>, name: seq<uint8>): (r: seq<uint8>)
    requires |sig| == 2 && |name| < TWO_TO_16
    ensures |r| == KEY_VALUE_SIZE + |name|
  {
    sig + Bytes16(|name|) + Bytes32(v.dataSize) + Bytes32(v.dataOffset) + Bytes32(v.dataType)
    + Bytes16(v.flags) + Bytes16(v.spare) + name
  }

  /**
   * A key value read from its layout gives every field back; an empty name
   * reads as no name, any other as its ASCII or UTF-16 text as the flags
   * choose, whatever follows the name.
   */
  lemma KeyValueRoundTrip(v: KeyValueRecord, sig: seq<uint8>, name: seq<uint8>, rest: seq<uint8>)
    requires |sig| == 2 && |name| < TWO_TO_16
    ensures DecodeKeyValue(EncodeKeyValue(v, sig, name) + rest)
         == Ok(v.(signature := Ascii(sig), nameLength := |name| as uint16,
                  valueName := if |name| == 0 then None else Some(ValueNameText(v.flags, name))))
  {
    var head := sig + Bytes16(|name|) + Bytes32(v.dataSize) + Bytes32(v.dataOffset) + Bytes32(v.dataType)
      + Bytes16(v.flags) + Bytes16(v.spare);
    var e := EncodeKeyValue(v, sig, name) + rest;
    assert e == head + (name + rest);
    assert e[20..20 + |name|] == name;
    assert e[0..2] == sig;
    assert e[2..4] == Bytes16(|name|);
    LE16At(e, 2, |name|);
    assert e[4..8] == Bytes32(v.dataSize);
    LE32At(e, 4, v.dataSize);
    assert e[8..12] == Bytes32(v.dataOffset);
    LE32At(e, 8, v.dataOffset);
    assert e[12..16] == Bytes32(v.dataType);
    LE32At(e, 12, v.dataType);
    assert e[16..18] == Bytes16(v.flags);
    LE16At(e, 16, v.flags);
    assert e[18..20] == Bytes16(v.spare);
    LE16At(e, 18, v.spare);
  }

  // ---- Record ----

  /** RecordType: the kind of record a cell holds. */
  datatype RecordType = IndexLeafType | FastLeafType | HashLeafType | IndexRootType
                      | KeyNodeType | KeyValueType | KeySecurityType | BigDataType

  /** A decoded record of one of the six kinds the source has a class for. */
  datatype Record =
    | IndexLeaf(li: IndexRecord)
    | FastLeaf(lf: FastLeafRecord)
    | HashLeaf(lh: HashLeafRecord)
    | IndexRoot(ri: IndexRecord)
    | KeyNode(nk: KeyNodeRecord)
    | KeyValue(vk: KeyValueRecord)
  {
    /** `Record.Type`. */
    function Type(): (t: RecordType)
      ensures t != KeySecurityType && t != BigDataType
      ensures (t == IndexLeafType <==> IndexLeaf?) && (t == FastLeafType <==> FastLeaf?)
      ensures (t == HashLeafType <==> HashLeaf?) && (t == IndexRootType <==> IndexRoot?)
      ensures (t == KeyNodeType <==> KeyNode?) && (t == KeyValueType <==> KeyValue?)
    {
      match this
      case IndexLeaf(_) => IndexLeafType
      case FastLeaf(_) => FastLeafType
      case HashLeaf(_) => HashLeafType
      case IndexRoot(_) => IndexRootType
      case KeyNode(_) => KeyNodeType
      case KeyValue(_) => KeyValueType
    }
  }
}
