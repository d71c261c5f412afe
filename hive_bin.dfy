/**
 * Hive bins: a 32-byte "hbin" header followed by cells, each a signed
 * 32-bit size word and its data, laid one after another at 8-byte aligned
 * offsets. Cells are keyed by their offset from the start of the file,
 * i.e. 4096 (the base block) plus their offset in the hive-bin data.
 */
module HiveBins {
  import opened Bytes
  import opened Results
  import opened Text
  import opened OrderedMaps
  import opened StreamHelper
  import opened Cells
  import opened BaseBlocks

  const HIVE_BIN_HEADER_SIZE: nat := 32

  /** `HiveBinHeader.HbinSignature`. */
  const HBIN_SIGNATURE: Str := Lit("hbin")

  datatype HiveBinHeader = HiveBinHeader(
    signature: Str, offset: uint32, size: uint32, reserved: uint64, timestamp: uint64, spare: uint32)

  /** `new HiveBinHeader(span)`: the ASCII of bytes 0..4 without NULs and trimmed, and five LE fields. */
  function DecodeHiveBinHeader(data: seq<uint8>): (r: Result<HiveBinHeader>)
    ensures r.Ok? <==> |data| >= HIVE_BIN_HEADER_SIZE
    ensures r.Ok? ==> NUL !in r.value.signature && |r.value.signature| <= 4
  {
    if |data| < HIVE_BIN_HEADER_SIZE then Err(Argument)
    else Ok(HiveBinHeader(Clean(Ascii(data[0..4])), LE32(data, 4), LE32(data, 8),
                          LE64(data, 12), LE64(data, 20), LE32(data, 28)))
  }

  function EncodeHiveBinHeader(h: HiveBinHeader, sig: seq<uint8>): (r: seq<uint8>)
    requires |sig| == 4
    ensures |r| == HIVE_BIN_HEADER_SIZE
  {
    sig + Bytes32(h.offset) + Bytes32(h.size) + Bytes64(h.reserved) + Bytes64(h.timestamp) + Bytes32(h.spare)
  }

  /** The numeric fields read back from offsets 4, 8, 12, 20 and 28; the signature in its cleaned form. */
  lemma HiveBinHeaderRoundTrip(h: HiveBinHeader, sig: seq<uint8>, rest: seq<uint8>)
    requires |sig| == 4
    ensures DecodeHiveBinHeader(EncodeHiveBinHeader(h, sig) + rest) == Ok(h.(signature := Clean(Ascii(sig))))
  {
    var e := EncodeHiveBinHeader(h, sig) + rest;
    assert e[0..4] == sig;
  }

  datatype HiveBin = HiveBin(header: HiveBinHeader, cells: OrderedMap<uint32, Cell>)

  // ---- the cell walk ----

  /** `(uint)((offset + 7) & ~7)`: rounded up to a multiple of 8, in 32 bits. */
  function Align8(offset: uint32): uint32
  {
    Wrap32((offset + 7) / 8 * 8)
  }

  /** `firstCellOffset`: the file offset of the first byte after the header. */
  function FirstCellOffset(h: HiveBinHeader): uint32
  {
    Wrap32(BASE_BLOCK_SIZE + h.offset + HIVE_BIN_HEADER_SIZE)
  }

  /** The walk's bound, `4096 + Offset + Size`, in 32 bits. */
  function EndOffset(h: HiveBinHeader): uint32
  {
    Wrap32(BASE_BLOCK_SIZE + h.offset + h.size)
  }

  /** Where a file offset falls in the cell data, `offset - firstCellOffset` in 32 bits. */
  function PositionOf(offset: uint32, first: uint32): uint32
  {
    Wrap32(offset - first)
  }

  /**
   * Rounding an offset up moves its position forward by less than 8 to a
   * multiple of 8, as long as that does not wrap.
   */
  lemma AlignAdvances(offset: uint32, first: uint32)
    requires PositionOf(offset, first) + 7 < TWO_TO_32
    ensures Align8(offset) % 8 == 0
    ensures PositionOf(offset, first) <= PositionOf(Align8(offset), first) < PositionOf(offset, first) + 8
  {
    var q := (offset + 7) / 8;
    assert offset <= 8 * q < offset + 8;
    var a := 8 * q;
    var p := PositionOf(offset, first);
    assert p == if offset >= first then offset - first else offset - first + TWO_TO_32;
    if a < TWO_TO_32 {
      assert Align8(offset) == a;
      assert PositionOf(a, first) == p + (a - offset);
    } else {
      assert Align8(offset) == a - TWO_TO_32 == 8 * (q - 0x2000_0000);
      assert PositionOf(a - TWO_TO_32, first) == p + (a - offset);
    }
  }

  /** Adding `n` to an offset adds `n` to its position, as long as that does not wrap. */
  lemma StepAdvances(offset: uint32, first: uint32, n: nat)
    requires PositionOf(offset, first) + n < TWO_TO_32
    ensures PositionOf(Wrap32(offset + n), first) == PositionOf(offset, first) + n
  {
  }

  /**
   * One turn of the constructor's `while` loop at `offset`, with `cells`
   * added so far: round the offset up, read the size word at its position,
   * take the `ActualSize - 4` bytes after it as the cell's data, add the
   * cell under the rounded offset and step past it. A position outside the
   * buffer, a size word of 0x80000000, a size below 4 or a cell running
   * past the buffer is an exception. A turn always moves the position
   * forward, which is what ends the walk.
   */
  function NextCell(data: seq<uint8>, first: uint32, offset: uint32, cells: OrderedMap<uint32, Cell>)
    : Result<(uint32, OrderedMap<uint32, Cell>)>
  {
    var key := Align8(offset);
    StepPast(key, ReadCell(data, Signed32(PositionOf(key, first)), key, cells))
  }

  /** `offset += (uint)actualSize` after a read at `key` that succeeded; a failed read is passed on. */
  function StepPast(key: uint32, read: Result<(nat, OrderedMap<uint32, Cell>)>): (r: Result<(uint32, OrderedMap<uint32, Cell>)>)
    ensures r.Ok? <==> read.Ok?
    ensures r.Ok? ==> r.value.1 == read.value.1 && r.value.0 == Wrap32(key + read.value.0)
  {
    var (actual, added) :- read;
    Ok((Wrap32(key + actual), added))
  }

  /**
   * The reads of one turn, at index `idx` of the buffer: the size word, its
   * magnitude, the cell's data and `Cells.Add` under `key`. Gives the
   * magnitude and the cells with the new one added.
   */
  function ReadCell(data: seq<uint8>, idx: int, key: uint32, cells: OrderedMap<uint32, Cell>)
    : (r: Result<(nat, OrderedMap<uint32, Cell>)>)
    ensures r.Ok? ==>
      && 0 <= idx && 4 <= r.value.0 && idx + r.value.0 <= |data|
      && AbsSize(LE32(data, idx)) == Ok(r.value.0)
      && cells.Add(key, Cell(LE32(data, idx), data[idx + 4..idx + r.value.0])) == Ok(r.value.1)
  {
    if idx < 0 || idx + 4 > |data| then Err(Argument)
    else
      var size := LE32(data, idx);
      var actual :- AbsSize(size);
      if actual < 4 || idx + actual > |data| then Err(Argument)
      else
        var added :- cells.Add(key, Cell(size, data[idx + 4..idx + actual]));
        Ok((actual, added))
  }

  /** The `while` loop: turns while the offset is below `end`. */
  function Walk(data: seq<uint8>, first: uint32, end: uint32, offset: uint32, cells: OrderedMap<uint32, Cell>)
    : Result<OrderedMap<uint32, Cell>>
    requires |data| < TWO_TO_31 && PositionOf(offset, first) <= |data|
    decreases |data| - PositionOf(offset, first)
  {
    if offset >= end then Ok(cells)
    else
      var (next, added) :- NextCell(data, first, offset, cells);
      NextCellAdvances(data, first, offset, cells, next, added);
      Walk(data, first, end, next, added)
  }

  // ---- the layout the walk finds ----

  /**
   * The cell the walk keeps under file offset `key`: `key` is a multiple of
   * 8, the size word is read at key's position, the magnitude of the size
   * covers that word and fits in the buffer, and the data is the rest of it.
   */
  ghost predicate CellAt(data: seq<uint8>, first: uint32, key: uint32, c: Cell)
  {
    var pos := PositionOf(key, first);
    && key % 8 == 0
    && pos + 4 <= |data|
    && c.size == LE32(data, pos)
    && c.ActualSize().Ok?
    && 4 <= c.ActualSize().value
    && pos + c.ActualSize().value <= |data|
    && c.data == data[pos + 4..pos + c.ActualSize().value]
  }

  /**
   * `keys` are cells laid one after another from position `p`: each starts
   * fewer than 8 bytes after the previous one ends (after `p` for the first).
   */
  ghost predicate Laid(data: seq<uint8>, first: uint32, p: nat, keys: seq<uint32>, items: map<uint32, Cell>)
    decreases |keys|
  {
    || keys == []
    || (&& keys[0] in items
        && CellAt(data, first, keys[0], items[keys[0]])
        && p <= PositionOf(keys[0], first) < p + 8
        && Laid(data, first, PositionOf(keys[0], first) + items[keys[0]].ActualSize().value, keys[1..], items))
  }

  /** A read that succeeds adds one new cell under `key`, made of the size word and the bytes after it. */
  lemma ReadCellSpec(data: seq<uint8>, idx: int, key: uint32, cells: OrderedMap<uint32, Cell>,
                     actual: nat, added: OrderedMap<uint32, Cell>)
    requires ReadCell(data, idx, key, cells) == Ok((actual, added))
    ensures 0 <= idx && 4 <= actual && idx + actual <= |data|
    ensures key !in cells.items
    ensures added.keys == cells.keys + [key]
    ensures added.items == cells.items[key := Cell(LE32(data, idx), data[idx + 4..idx + actual])]
    ensures cells.Valid() ==> added.Valid()
    ensures added.items[key].ActualSize() == Ok(actual)
  {
  }

  /** The cell a read at key's own position adds is the cell the layout keeps under `key`. */
  lemma CellAtRead(data: seq<uint8>, first: uint32, key: uint32, cells: OrderedMap<uint32, Cell>,
                   actual: nat, added: OrderedMap<uint32, Cell>)
    requires key % 8 == 0
    requires ReadCell(data, PositionOf(key, first), key, cells) == Ok((actual, added))
    ensures CellAt(data, first, key, added.items[key])
  {
    ReadCellSpec(data, PositionOf(key, first), key, cells, actual, added);
  }

  /** A turn that succeeds moves the position strictly forward and stays within the buffer. */
  lemma NextCellAdvances(data: seq<uint8>, first: uint32, offset: uint32, cells: OrderedMap<uint32, Cell>,
                         next: uint32, added: OrderedMap<uint32, Cell>)
    requires |data| < TWO_TO_31 && PositionOf(offset, first) <= |data|
    requires NextCell(data, first, offset, cells) == Ok((next, added))
    ensures PositionOf(offset, first) < PositionOf(next, first) <= |data|
  {
    NextCellSpec(data, first, offset, cells, next, added);
  }

  /** A turn that succeeds is the read at the rounded offset's position, followed by the step past the cell. */
  lemma NextCellRead(data: seq<uint8>, first: uint32, offset: uint32, cells: OrderedMap<uint32, Cell>,
                     next: uint32, added: OrderedMap<uint32, Cell>)
    requires NextCell(data, first, offset, cells) == Ok((next, added))
    ensures var key := Align8(offset);
      var read := ReadCell(data, Signed32(PositionOf(key, first)), key, cells);
      read.Ok? && read.value.1 == added && next == Wrap32(key + read.value.0)
  {
    var key := Align8(offset);
    var read := ReadCell(data, Signed32(PositionOf(key, first)), key, cells);
    assert StepPast(key, read) == Ok((next, added)) by {
      assert NextCell(data, first, offset, cells) == StepPast(key, read);
    }
    assert read.Ok? && read.value.1 == added && next == Wrap32(key + read.value.0) by {
      assert StepPast(key, read).Ok? && StepPast(key, read).value == (next, added);
    }
  }

  /** A turn that succeeds adds one new cell, under the rounded offset, and steps to its end. */
  lemma NextCellSpec(data: seq<uint8>, first: uint32, offset: uint32, cells: OrderedMap<uint32, Cell>,
                     next: uint32, added: OrderedMap<uint32, Cell>)
    requires |data| < TWO_TO_31 && PositionOf(offset, first) <= |data|
    requires NextCell(data, first, offset, cells) == Ok((next, added))
    ensures Align8(offset) !in cells.items
    ensures added.keys == cells.keys + [Align8(offset)]
    ensures added.items == cells.items[Align8(offset) := added.items[Align8(offset)]]
    ensures cells.Valid() ==> added.Valid()
    ensures CellAt(data, first, Align8(offset), added.items[Align8(offset)])
    ensures PositionOf(offset, first) <= PositionOf(Align8(offset), first) < PositionOf(offset, first) + 8
    ensures PositionOf(next, first) == PositionOf(Align8(offset), first) + added.items[Align8(offset)].ActualSize().value
  {
    var key := Align8(offset);
    var pos := PositionOf(key, first);
    NextCellRead(data, first, offset, cells, next, added);
    var actual := ReadCell(data, Signed32(pos), key, cells).value.0;
    ReadCellSpec(data, Signed32(pos), key, cells, actual, added);
    Signed32OfNonNegative(pos);
    AlignAdvances(offset, first);
    CellAtRead(data, first, key, cells, actual, added);
    StepAdvances(key, first, actual);
  }

  /** A cell laid from `p` followed by cells laid from its end. */
  lemma LaidCons(data: seq<uint8>, first: uint32, p: nat, keys: seq<uint32>, items: map<uint32, Cell>, c: Cell, q: nat)
    requires keys != [] && keys[0] in items && items[keys[0]] == c && CellAt(data, first, keys[0], c)
    requires p <= PositionOf(keys[0], first) < p + 8
    requires q == PositionOf(keys[0], first) + c.ActualSize().value
    requires Laid(data, first, q, keys[1..], items)
    ensures Laid(data, first, p, keys, items)
  {
  }

  /** A walk that succeeds keeps the cells it started with, in their order, and stays valid. */
  lemma {:induction false} WalkKeeps(data: seq<uint8>, first: uint32, end: uint32, offset: uint32, cells: OrderedMap<uint32, Cell>)
    requires |data| < TWO_TO_31 && PositionOf(offset, first) <= |data|
    requires cells.Valid()
    requires Walk(data, first, end, offset, cells).Ok?
    ensures var m := Walk(data, first, end, offset, cells).value;
      && m.Valid()
      && |cells.keys| <= |m.keys|
      && m.keys[..|cells.keys|] == cells.keys
      && (forall k | k in cells.items :: k in m.items && m.items[k] == cells.items[k])
    decreases |data| - PositionOf(offset, first)
  {
    if offset < end {
      var (next, added) := NextCell(data, first, offset, cells).value;
      NextCellSpec(data, first, offset, cells, next, added);
      WalkKeeps(data, first, end, next, added);
      var m := Walk(data, first, end, offset, cells).value;
      assert m.keys[..|cells.keys|] == (m.keys[..|added.keys|])[..|cells.keys|];
    }
  }

  /** The cells a walk that succeeds appends are laid one after another from the offset it starts at. */
  lemma {:induction false} WalkLaid(data: seq<uint8>, first: uint32, end: uint32, offset: uint32, cells: OrderedMap<uint32, Cell>)
    requires |data| < TWO_TO_31 && PositionOf(offset, first) <= |data|
    requires cells.Valid()
    requires Walk(data, first, end, offset, cells).Ok?
    ensures var m := Walk(data, first, end, offset, cells).value;
      && |cells.keys| <= |m.keys|
      && Laid(data, first, PositionOf(offset, first), m.keys[|cells.keys|..], m.items)
    decreases |data| - PositionOf(offset, first)
  {
    var m := Walk(data, first, end, offset, cells).value;
    if offset < end {
      var (next, added) := NextCell(data, first, offset, cells).value;
      NextCellSpec(data, first, offset, cells, next, added);
      assert m == Walk(data, first, end, next, added).value;
      WalkKeeps(data, first, end, next, added);
      WalkLaid(data, first, end, next, added);
      var key := Align8(offset);
      TailAfter(m.keys, cells.keys, key);
      LaidCons(data, first, PositionOf(offset, first), m.keys[|cells.keys|..], m.items, added.items[key], PositionOf(next, first));
    } else {
      assert m == cells;
      assert m.keys[|cells.keys|..] == [];
    }
  }

  /** What follows a prefix `pre + [x]` starts with `x`. */
  lemma TailAfter<T>(s: seq<T>, pre: seq<T>, x: T)
    requires |pre| < |s| && s[..|pre| + 1] == pre + [x]
    ensures s[|pre|..] != [] && s[|pre|..][0] == x && s[|pre|..][1..] == s[|pre| + 1..]
  {
    assert s[|pre|] == s[..|pre| + 1][|pre|];
  }

  /** Every cell of a layout lies at or after its start, in the buffer. */
  lemma {:induction false} LaidAbove(data: seq<uint8>, first: uint32, p: nat, keys: seq<uint32>, items: map<uint32, Cell>)
    requires Laid(data, first, p, keys, items)
    ensures forall i | 0 <= i < |keys| :: keys[i] in items && CellAt(data, first, keys[i], items[keys[i]])
    ensures forall i | 0 <= i < |keys| :: p <= PositionOf(keys[i], first)
    decreases |keys|
  {
    if keys != [] {
      var q := PositionOf(keys[0], first) + items[keys[0]].ActualSize().value;
      LaidAbove(data, first, q, keys[1..], items);
      assert forall i | 1 <= i < |keys| :: keys[i] == keys[1..][i - 1];
    }
  }

  /** Cells of a layout do not overlap, and each later one starts after every earlier one ends. */
  lemma {:induction false} LaidInOrder(data: seq<uint8>, first: uint32, p: nat, keys: seq<uint32>, items: map<uint32, Cell>)
    requires Laid(data, first, p, keys, items)
    ensures forall i | 0 <= i < |keys| :: keys[i] in items && items[keys[i]].ActualSize().Ok?
    ensures forall i, j | 0 <= i < j < |keys| ::
      PositionOf(keys[i], first) + items[keys[i]].ActualSize().value <= PositionOf(keys[j], first)
    decreases |keys|
  {
    LaidAbove(data, first, p, keys, items);
    if keys != [] {
      var q := PositionOf(keys[0], first) + items[keys[0]].ActualSize().value;
      LaidAbove(data, first, q, keys[1..], items);
      LaidInOrder(data, first, q, keys[1..], items);
      assert forall i | 1 <= i < |keys| :: keys[i] == keys[1..][i - 1];
    }
  }

  /**
   * `new HiveBin(header, cellsData)`: an ArgumentException unless the
   * signature is "hbin" and the data is `Size - 32` bytes (in 32 bits);
   * then the cell walk from `firstCellOffset`. A span is at most
   * int.MaxValue bytes long.
   */
  function MakeHiveBin(header: HiveBinHeader, cellsData: seq<uint8>): (r: Result<HiveBin>)
    requires |cellsData| < TWO_TO_31
    ensures header.signature != HBIN_SIGNATURE ==> r == Err(Argument)
    ensures |cellsData| != Wrap32(header.size - HIVE_BIN_HEADER_SIZE) ==> r == Err(Argument)
    ensures r.Ok? ==> r.value.header == header
  {
    if header.signature != HBIN_SIGNATURE then Err(Argument)
    else if |cellsData| != Wrap32(header.size - HIVE_BIN_HEADER_SIZE) then Err(Argument)
    else
      var first := FirstCellOffset(header);
      var cells :- Walk(cellsData, first, EndOffset(header), first, Empty());
      Ok(HiveBin(header, cells))
  }

  /**
   * The cells of a hive bin are keyed by their file offsets, multiples of 8,
   * in enumeration order; the first starts fewer than 8 bytes into the
   * data and each next one fewer than 8 bytes after the previous one ends.
   */
  lemma HiveBinLayout(header: HiveBinHeader, cellsData: seq<uint8>)
    requires |cellsData| < TWO_TO_31
    requires MakeHiveBin(header, cellsData).Ok?
    ensures var b := MakeHiveBin(header, cellsData).value;
      && b.cells.Valid()
      && Laid(cellsData, FirstCellOffset(header), 0, b.cells.keys, b.cells.items)
  {
    var first := FirstCellOffset(header);
    WalkKeeps(cellsData, first, EndOffset(header), first, Empty());
    WalkLaid(cellsData, first, EndOffset(header), first, Empty());
  }

  /** A bin of 32 bytes, the header alone, has no cells. */
  lemma EmptyHiveBin(header: HiveBinHeader)
    requires header.signature == HBIN_SIGNATURE && header.size == 32
    ensures MakeHiveBin(header, []) == Ok(HiveBin(header, Empty()))
  {
  }

  /** The constructor as the source writes it, with the `while` loop. */
  method NewHiveBin(header: HiveBinHeader, cellsData: seq<uint8>) returns (r: Result<HiveBin>)
    requires |cellsData| < TWO_TO_31
    ensures r == MakeHiveBin(header, cellsData)
  {
    if header.signature != HBIN_SIGNATURE || |cellsData| != Wrap32(header.size - HIVE_BIN_HEADER_SIZE) {
      return Err(Argument);
    }
    var first: uint32 := FirstCellOffset(header);
    var end: uint32 := EndOffset(header);
    var cells: OrderedMap<uint32, Cell> := Empty();
    var offset: uint32 := first;
    ghost var walk := Walk(cellsData, first, end, first, cells);
    while offset < end
      invariant PositionOf(offset, first) <= |cellsData|
      invariant Walk(cellsData, first, end, offset, cells) == walk
      decreases |cellsData| - PositionOf(offset, first)
    {
      var step := NextCell(cellsData, first, offset, cells);
      if step.Err? {
        return Err(step.error);
      }
      NextCellAdvances(cellsData, first, offset, cells, step.value.0, step.value.1);
      offset, cells := step.value.0, step.value.1;
    }
    return Ok(HiveBin(header, cells));
  }

  // ---- LoadHiveBin ----

  /**
   * `HiveBin.LoadHiveBin(stream, out bytesRead)` at position `pos`: read the
   * 32-byte header and then the bin's data.
   */
  function LoadHiveBin(stream: seq<uint8>, pos: nat): (r: Result<(HiveBin, uint32)>)
    ensures r.Ok? ==> HIVE_BIN_HEADER_SIZE <= r.value.1 && pos + r.value.1 <= |stream|
  {
    var headerData :- ReadExactly(stream, pos, HIVE_BIN_HEADER_SIZE);
    LoadCells(stream, pos + HIVE_BIN_HEADER_SIZE, DecodeHiveBinHeader(headerData).value)
  }

  /**
   * The rest of LoadHiveBin, from `start`, after `header`: allocate
   * `Size - 32` bytes (in 32 bits, so a `Size` below 32 asks for more than
   * an array can hold), read them and build the bin; `bytesRead` is 32
   * plus the data length. The stream is where the header read left it,
   * so never past its end.
   */
  function LoadCells(stream: seq<uint8>, start: nat, header: HiveBinHeader): (r: Result<(HiveBin, uint32)>)
    requires start <= |stream|
    ensures r.Ok? ==> HIVE_BIN_HEADER_SIZE <= r.value.1 && start + r.value.1 <= |stream| + HIVE_BIN_HEADER_SIZE
  {
    var n := Wrap32(header.size - HIVE_BIN_HEADER_SIZE);
    if n > MAX_ARRAY_LENGTH then Err(OutOfMemory)
    else
      var cellsData :- ReadExactly(stream, start, n);
      var bin :- MakeHiveBin(header, cellsData);
      assert Wrap32(HIVE_BIN_HEADER_SIZE + |cellsData|) == HIVE_BIN_HEADER_SIZE + |cellsData|;
      Ok((bin, Wrap32(HIVE_BIN_HEADER_SIZE + |cellsData|)))
  }

  /**
   * After a header, a bin loads exactly when its `Size` is at least 32 and
   * no more than an array can hold beyond that, the stream holds the
   * `Size - 32` data bytes and the bin built from them is valid; it then
   * reports `Size` bytes read. A `Size` below 32 runs out of memory.
   */
  lemma LoadCellsSpec(stream: seq<uint8>, start: nat, h: HiveBinHeader)
    requires start <= |stream|
    ensures var r := LoadCells(stream, start, h);
      && (h.size < HIVE_BIN_HEADER_SIZE ==> r == Err(OutOfMemory))
      && (r.Ok? <==>
            && HIVE_BIN_HEADER_SIZE <= h.size <= HIVE_BIN_HEADER_SIZE + MAX_ARRAY_LENGTH
            && start + h.size - HIVE_BIN_HEADER_SIZE <= |stream|
            && MakeHiveBin(h, stream[start..start + h.size - HIVE_BIN_HEADER_SIZE]).Ok?)
      && (r.Ok? ==>
            && r.value.0.header == h
            && r.value.1 == h.size
            && Ok(r.value.0) == MakeHiveBin(h, stream[start..start + h.size - HIVE_BIN_HEADER_SIZE]))
  {
    var n := Wrap32(h.size - HIVE_BIN_HEADER_SIZE);
    if h.size < HIVE_BIN_HEADER_SIZE {
      assert n > MAX_ARRAY_LENGTH;
    } else {
      assert n == h.size - HIVE_BIN_HEADER_SIZE;
      if n <= MAX_ARRAY_LENGTH && start + n <= |stream| {
        var cellsData := stream[start..start + n];
        assert ReadExactly(stream, start, n) == Ok(cellsData);
        assert Wrap32(HIVE_BIN_HEADER_SIZE + |cellsData|) == h.size;
      }
    }
  }

  /** LoadHiveBin as the source writes it, through the constructor's loop. */
  method ReadHiveBin(stream: seq<uint8>, pos: nat) returns (r: Result<(HiveBin, uint32)>)
    ensures r == LoadHiveBin(stream, pos)
  {
    var headerData := ReadExactly(stream, pos, HIVE_BIN_HEADER_SIZE);
    if headerData.Err? {
      return Err(headerData.error);
    }
    var header := DecodeHiveBinHeader(headerData.value).value;
    r := ReadCells(stream, pos + HIVE_BIN_HEADER_SIZE, header);
  }

  /** The rest of ReadHiveBin, after the header. */
  method ReadCells(stream: seq<uint8>, start: nat, header: HiveBinHeader) returns (r: Result<(HiveBin, uint32)>)
    requires start <= |stream|
    ensures r == LoadCells(stream, start, header)
  {
    var n := Wrap32(header.size - HIVE_BIN_HEADER_SIZE);
    if n > MAX_ARRAY_LENGTH {
      return Err(OutOfMemory);
    }
    var cellsData := ReadExactly(stream, start, n);
    if cellsData.Err? {
      return Err(cellsData.error);
    }
    var bin := NewHiveBin(header, cellsData.value);
    if bin.Err? {
      return Err(bin.error);
    }
    return Ok((bin.value, Wrap32(HIVE_BIN_HEADER_SIZE + |cellsData.value|)));
  }

  /** A stream with fewer than 32 bytes left has no header to read. */
  lemma LoadHiveBinShort(stream: seq<uint8>, pos: nat)
    requires |stream| < pos + HIVE_BIN_HEADER_SIZE
    ensures LoadHiveBin(stream, pos) == Err(EndOfStream)
  {
  }

  /** Otherwise the header is the 32 bytes at `pos` and the data follows it. */
  lemma LoadHiveBinHeader(stream: seq<uint8>, pos: nat)
    requires pos + HIVE_BIN_HEADER_SIZE <= |stream|
    ensures LoadHiveBin(stream, pos)
         == LoadCells(stream, pos + HIVE_BIN_HEADER_SIZE, DecodeHiveBinHeader(stream[pos..pos + HIVE_BIN_HEADER_SIZE]).value)
  {
  }
}
