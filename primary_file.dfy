/**
 * The regf primary file: the 4096-byte base block at the start of the
 * stream, then hive bins back to back until the base block's
 * `HiveBinsDataSize` is used up, and the lookup of a cell by its offset in
 * the hive-bin data.
 */
module PrimaryFiles {
  import opened Bytes
  import opened Results
  import opened StreamHelper
  import opened OrderedMaps
  import opened Cells
  import opened BaseBlocks
  import opened HiveBins

  /** The stream is kept only when the primary file takes ownership of it. */
  datatype PrimaryFile = PrimaryFile(stream: Option<seq<uint8>>, baseBlock: BaseBlock, hiveBins: seq<HiveBin>)

  /** LoadHiveBin at each position of `stream`. */
  function BinLoader(stream: seq<uint8>): nat -> Result<(HiveBin, uint32)>
  {
    (p: nat) => LoadHiveBin(stream, p)
  }

  /**
   * A loader of bins from a stream of `limit` bytes: a bin that loads at `p`
   * reports its `Size`, at least one byte, as the bytes it read, and ends
   * within the stream.
   */
  ghost predicate Advances(load: nat -> Result<(HiveBin, uint32)>, limit: nat)
  {
    forall p: nat :: load(p).Ok? ==>
      && 0 < load(p).value.0.header.size == load(p).value.1
      && p + load(p).value.1 <= limit
  }

  /** LoadHiveBin is such a loader. */
  lemma BinLoaderAdvances(stream: seq<uint8>)
    ensures Advances(BinLoader(stream), |stream|)
  {
    forall p: nat | LoadHiveBin(stream, p).Ok?
      ensures LoadHiveBin(stream, p).value.1 == LoadHiveBin(stream, p).value.0.header.size
    {
      LoadHiveBinHeader(stream, p);
      LoadCellsSpec(stream, p + HIVE_BIN_HEADER_SIZE, DecodeHiveBinHeader(stream[p..p + HIVE_BIN_HEADER_SIZE]).value);
    }
  }

  /**
   * The `while (bytesLeft > 0)` loop from position `pos`, with `bins`
   * loaded so far: load a bin, append it, subtract the bytes it read (in
   * 32 bits). Any exception from a bin becomes BadRegfFileException.
   */
  function ReadHiveBins(load: nat -> Result<(HiveBin, uint32)>, limit: nat, pos: nat, bytesLeft: uint32, bins: seq<HiveBin>)
    : (r: Result<seq<HiveBin>>)
    requires Advances(load, limit) && pos <= limit
    ensures r.Ok? ==> |bins| <= |r.value| && r.value[..|bins|] == bins
    decreases limit - pos
  {
    if bytesLeft == 0 then Ok(bins)
    else
      match load(pos)
      case Err(_) => Err(BadRegf)
      case Ok((bin, read)) => ReadHiveBins(load, limit, pos + read, Wrap32(bytesLeft - read), bins + [bin])
  }

  /**
   * `new PrimaryFile(stream, takeOwnership)`: from position 0 read the base
   * block (a short stream's EndOfStreamException escapes), refuse a
   * signature other than "regf", then load the hive bins that follow it.
   */
  function ReadPrimaryFile(stream: seq<uint8>, takeOwnership: bool): Result<PrimaryFile>
  {
    var data :- ReadExactly(stream, 0, BASE_BLOCK_SIZE);
    var baseBlock := DecodeBaseBlock(data).value;
    if baseBlock.signature != REGF_SIGNATURE then Err(BadRegf)
    else
      BinLoaderAdvances(stream);
      var bins :- ReadHiveBins(BinLoader(stream), |stream|, BASE_BLOCK_SIZE, baseBlock.hiveBinsDataSize, []);
      Ok(PrimaryFile(if takeOwnership then Some(stream) else None, baseBlock, bins))
  }

  /** The constructor as the source writes it, with the `while` loop. */
  method Open(stream: seq<uint8>, takeOwnership: bool) returns (r: Result<PrimaryFile>)
    ensures r == ReadPrimaryFile(stream, takeOwnership)
  {
    var data := ReadExactly(stream, 0, BASE_BLOCK_SIZE);
    if data.Err? {
      return Err(data.error);
    }
    var baseBlock := DecodeBaseBlock(data.value).value;
    if baseBlock.signature != REGF_SIGNATURE {
      return Err(BadRegf);
    }
    BinLoaderAdvances(stream);
    var hiveBins := LoadHiveBins(BinLoader(stream), |stream|, BASE_BLOCK_SIZE, baseBlock.hiveBinsDataSize);
    if hiveBins.Err? {
      return Err(hiveBins.error);
    }
    return Ok(PrimaryFile(if takeOwnership then Some(stream) else None, baseBlock, hiveBins.value));
  }

  /**
   * The constructor's `while` loop, from position `pos` of a stream of
   * `limit` bytes, with `load` the LoadHiveBin call at a position.
   */
  method LoadHiveBins(load: nat -> Result<(HiveBin, uint32)>, limit: nat, pos: nat, bytesLeft: uint32)
    returns (r: Result<seq<HiveBin>>)
    requires Advances(load, limit) && pos <= limit
    ensures r == ReadHiveBins(load, limit, pos, bytesLeft, [])
  {
    var hiveBins: seq<HiveBin> := [];
    var left: uint32 := bytesLeft;
    var at: nat := pos;
    while left > 0
      invariant at <= limit
      invariant ReadHiveBins(load, limit, at, left, hiveBins) == ReadHiveBins(load, limit, pos, bytesLeft, [])
      decreases limit - at
    {
      var loaded := load(at);
      if loaded.Err? {
        return Err(BadRegf);
      }
      var (hiveBin, read) := loaded.value;
      hiveBins := hiveBins + [hiveBin];
      left := Wrap32(left - read);
      at := at + read;
    }
    return Ok(hiveBins);
  }

  /** The bytes a run of bins takes up: the sum of their `Size`s. */
  function Span(bins: seq<HiveBin>): nat
  {
    if bins == [] then 0 else bins[0].header.size + Span(bins[1..])
  }

  /** Subtracting in 32 bits twice is subtracting the sum once. */
  lemma WrapSub(a: int, b: int, c: int)
    ensures Wrap32(Wrap32(a - b) - c) == Wrap32(a - (b + c))
  {
    var m := TWO_TO_32;
    var q := (a - b) / m;
    assert Wrap32(a - b) == a - b - q * m;
    assert (a - b - c) - q * m == Wrap32(a - b) - c;
    ModShift(a - (b + c), q);
  }

  lemma ModShift(x: int, q: int)
    ensures (x - q * TWO_TO_32) % TWO_TO_32 == x % TWO_TO_32
  {
    var m := TWO_TO_32;
    var y := x - q * m;
    assert y == (x / m - q) * m + x % m;
  }

  /** Every exception a bin throws comes out of the loop as BadRegfFileException. */
  lemma {:induction false} ReadHiveBinsFails(load: nat -> Result<(HiveBin, uint32)>, limit: nat, pos: nat, bytesLeft: uint32, bins: seq<HiveBin>)
    requires Advances(load, limit) && pos <= limit
    requires ReadHiveBins(load, limit, pos, bytesLeft, bins).Err?
    ensures ReadHiveBins(load, limit, pos, bytesLeft, bins).error == BadRegf
    decreases limit - pos
  {
    if bytesLeft != 0 && load(pos).Ok? {
      var (bin, read) := load(pos).value;
      ReadHiveBinsFails(load, limit, pos + read, Wrap32(bytesLeft - read), bins + [bin]);
    }
  }

  /** The span of the first `k` bins of `[bin] + rest` after the first is that of `rest`'s first `k - 1`. */
  lemma SpanPrefix(bin: HiveBin, rest: seq<HiveBin>, k: nat)
    requires 0 < k <= |rest| + 1
    ensures Span(([bin] + rest)[..k]) == bin.header.size + Span(rest[..k - 1])
  {
    assert ([bin] + rest)[..k][1..] == rest[..k - 1];
  }

  /**
   * `loaded` are the bins read back to back from `pos` while `bytesLeft`
   * (less the size of each bin read, in 32 bits) is not yet 0: each loads
   * where the previous one ends, and the count runs out exactly after the
   * last.
   */
  ghost predicate LoadedFrom(load: nat -> Result<(HiveBin, uint32)>, pos: nat, bytesLeft: uint32, loaded: seq<HiveBin>)
    decreases |loaded|
  {
    if loaded == [] then bytesLeft == 0
    else
      var size := loaded[0].header.size;
      && bytesLeft != 0
      && load(pos) == Ok((loaded[0], size))
      && LoadedFrom(load, pos + size, Wrap32(bytesLeft - size), loaded[1..])
  }

  /** What the loop appends is the run of bins loaded from `pos`. */
  lemma {:induction false} ReadHiveBinsLoaded(load: nat -> Result<(HiveBin, uint32)>, limit: nat, pos: nat, bytesLeft: uint32, bins: seq<HiveBin>)
    requires Advances(load, limit) && pos <= limit
    requires ReadHiveBins(load, limit, pos, bytesLeft, bins).Ok?
    ensures LoadedFrom(load, pos, bytesLeft, ReadHiveBins(load, limit, pos, bytesLeft, bins).value[|bins|..])
    decreases limit - pos
  {
    var all := ReadHiveBins(load, limit, pos, bytesLeft, bins).value;
    if bytesLeft == 0 {
      assert all[|bins|..] == [];
    } else {
      var (bin, read) := load(pos).value;
      var next := bins + [bin];
      ReadHiveBinsLoaded(load, limit, pos + read, Wrap32(bytesLeft - read), next);
      assert all[..|next|] == next;
      assert all[|bins|..][1..] == all[|next|..];
    }
  }

  /** Conversely a run of bins loaded from `pos` is what the loop appends. */
  lemma {:induction false} LoadedFromRead(load: nat -> Result<(HiveBin, uint32)>, limit: nat, pos: nat, bytesLeft: uint32,
                                          bins: seq<HiveBin>, loaded: seq<HiveBin>)
    requires Advances(load, limit) && pos <= limit
    requires LoadedFrom(load, pos, bytesLeft, loaded)
    ensures ReadHiveBins(load, limit, pos, bytesLeft, bins) == Ok(bins + loaded)
    decreases |loaded|
  {
    if loaded != [] {
      var size := loaded[0].header.size;
      LoadedFromRead(load, limit, pos + size, Wrap32(bytesLeft - size), bins + [loaded[0]], loaded[1..]);
      assert bins + [loaded[0]] + loaded[1..] == bins + loaded;
    } else {
      assert bins + loaded == bins;
    }
  }

  /** In a run of bins loaded from `pos`, bin i is the one at `pos` plus the sizes of the bins before it. */
  lemma {:induction false} LoadedFromAt(load: nat -> Result<(HiveBin, uint32)>, pos: nat, bytesLeft: uint32, loaded: seq<HiveBin>)
    requires LoadedFrom(load, pos, bytesLeft, loaded)
    ensures forall i | 0 <= i < |loaded| :: load(pos + Span(loaded[..i])) == Ok((loaded[i], loaded[i].header.size))
    decreases |loaded|
  {
    if loaded != [] {
      var bin, rest := loaded[0], loaded[1..];
      var size := bin.header.size;
      LoadedFromAt(load, pos + size, Wrap32(bytesLeft - size), rest);
      assert loaded == [bin] + rest;
      forall i | 0 <= i < |loaded|
        ensures load(pos + Span(loaded[..i])) == Ok((loaded[i], loaded[i].header.size))
      {
        if i == 0 {
          assert loaded[..0] == [];
        } else {
          SpanPrefix(bin, rest, i);
          assert loaded[i] == rest[i - 1];
          assert load(pos + size + Span(rest[..i - 1])) == Ok((rest[i - 1], rest[i - 1].header.size));
        }
      }
    }
  }

  /**
   * The sizes of the bins so far fall short of `bytesLeft` (in 32 bits)
   * before each bin of the run and make it up after the last.
   */
  lemma {:induction false} LoadedFromStops(load: nat -> Result<(HiveBin, uint32)>, pos: nat, bytesLeft: uint32, loaded: seq<HiveBin>)
    requires LoadedFrom(load, pos, bytesLeft, loaded)
    ensures forall i | 0 <= i < |loaded| :: Wrap32(bytesLeft - Span(loaded[..i])) != 0
    ensures Wrap32(bytesLeft - Span(loaded)) == 0
    decreases |loaded|
  {
    if loaded != [] {
      var bin, rest := loaded[0], loaded[1..];
      var size := bin.header.size;
      LoadedFromStops(load, pos + size, Wrap32(bytesLeft - size), rest);
      assert loaded == [bin] + rest;
      forall i | 0 <= i < |loaded|
        ensures Wrap32(bytesLeft - Span(loaded[..i])) != 0
      {
        if i == 0 {
          assert loaded[..0] == [];
        } else {
          SpanPrefix(bin, rest, i);
          WrapSub(bytesLeft, size, Span(rest[..i - 1]));
          assert Wrap32(Wrap32(bytesLeft - size) - Span(rest[..i - 1])) != 0;
        }
      }
      assert Span(loaded) == size + Span(rest);
      WrapSub(bytesLeft, size, Span(rest));
    }
  }

  /**
   * The constructor fails with EndOfStreamException on a stream shorter than
   * the base block and with BadRegfFileException otherwise. A primary file
   * it builds has the base block decoded from the first 4096 bytes, signed
   * "regf", keeps the stream exactly when it takes ownership, and holds the
   * run of bins loaded from offset 4096 that `HiveBinsDataSize` covers.
   */
  lemma ReadPrimaryFileSpec(stream: seq<uint8>, takeOwnership: bool)
    ensures var r := ReadPrimaryFile(stream, takeOwnership);
      && (|stream| < BASE_BLOCK_SIZE ==> r == Err(EndOfStream))
      && (r.Err? && |stream| >= BASE_BLOCK_SIZE ==> r.error == BadRegf)
      && (r.Ok? ==>
            && |stream| >= BASE_BLOCK_SIZE
            && r.value.baseBlock == DecodeBaseBlock(stream[..BASE_BLOCK_SIZE]).value
            && r.value.baseBlock.signature == REGF_SIGNATURE
            && r.value.stream == (if takeOwnership then Some(stream) else None)
            && LoadedFrom(BinLoader(stream), BASE_BLOCK_SIZE, r.value.baseBlock.hiveBinsDataSize, r.value.hiveBins))
  {
    if |stream| >= BASE_BLOCK_SIZE {
      assert ReadExactly(stream, 0, BASE_BLOCK_SIZE) == Ok(stream[..BASE_BLOCK_SIZE]);
      var bb := DecodeBaseBlock(stream[..BASE_BLOCK_SIZE]).value;
      if bb.signature == REGF_SIGNATURE {
        BinLoaderAdvances(stream);
        var r := ReadHiveBins(BinLoader(stream), |stream|, BASE_BLOCK_SIZE, bb.hiveBinsDataSize, []);
        if r.Ok? {
          ReadHiveBinsLoaded(BinLoader(stream), |stream|, BASE_BLOCK_SIZE, bb.hiveBinsDataSize, []);
          assert r.value[0..] == r.value;
        } else {
          ReadHiveBinsFails(BinLoader(stream), |stream|, BASE_BLOCK_SIZE, bb.hiveBinsDataSize, []);
        }
      }
    }
  }

  /** Conversely a "regf" base block and a run of bins it covers make a primary file. */
  lemma PrimaryFileOfBins(stream: seq<uint8>, takeOwnership: bool, bins: seq<HiveBin>)
    requires |stream| >= BASE_BLOCK_SIZE
    requires DecodeBaseBlock(stream[..BASE_BLOCK_SIZE]).value.signature == REGF_SIGNATURE
    requires LoadedFrom(BinLoader(stream), BASE_BLOCK_SIZE, DecodeBaseBlock(stream[..BASE_BLOCK_SIZE]).value.hiveBinsDataSize, bins)
    ensures ReadPrimaryFile(stream, takeOwnership)
         == Ok(PrimaryFile(if takeOwnership then Some(stream) else None, DecodeBaseBlock(stream[..BASE_BLOCK_SIZE]).value, bins))
  {
    assert ReadExactly(stream, 0, BASE_BLOCK_SIZE) == Ok(stream[..BASE_BLOCK_SIZE]);
    var bb := DecodeBaseBlock(stream[..BASE_BLOCK_SIZE]).value;
    BinLoaderAdvances(stream);
    LoadedFromRead(BinLoader(stream), |stream|, BASE_BLOCK_SIZE, bb.hiveBinsDataSize, [], bins);
    assert [] + bins == bins;
  }

  // ---- FindCell ----

  /** The value `FindCell` treats as no cell. */
  const NO_CELL: uint32 := 0xFFFF_FFFF

  /**
   * The test of the `foreach` loop: `offset` is within the bin's
   * `[Offset, Offset + Size)` (the end in 32 bits) and the bin has a cell
   * keyed `4096 + offset` (in 32 bits).
   */
  predicate Holds(bin: HiveBin, offset: uint32)
  {
    && offset >= bin.header.offset
    && offset < Wrap32(bin.header.offset + bin.header.size)
    && Wrap32(BASE_BLOCK_SIZE + offset) in bin.cells.items
  }

  /** The cell of the first bin that holds `offset`. */
  function FindCellIn(bins: seq<HiveBin>, offset: uint32): Option<Cell>
  {
    if bins == [] then None
    else if Holds(bins[0], offset) then Some(bins[0].cells.items[Wrap32(BASE_BLOCK_SIZE + offset)])
    else FindCellIn(bins[1..], offset)
  }

  /** `PrimaryFile.FindCell`: null for 0xFFFFFFFF, else the first bin's hit. */
  function FindCell(pf: PrimaryFile, offset: uint32): Option<Cell>
  {
    if offset == NO_CELL then None else FindCellIn(pf.hiveBins, offset)
  }

  /** FindCell as the source writes it, with the `foreach` loop. */
  method LookupCell(pf: PrimaryFile, offset: uint32) returns (r: Option<Cell>)
    ensures r == FindCell(pf, offset)
  {
    if offset == NO_CELL {
      return None;
    }
    var i := 0;
    while i < |pf.hiveBins|
      invariant 0 <= i <= |pf.hiveBins|
      invariant FindCellIn(pf.hiveBins[i..], offset) == FindCellIn(pf.hiveBins, offset)
    {
      var bin := pf.hiveBins[i];
      assert pf.hiveBins[i..][0] == bin && pf.hiveBins[i..][1..] == pf.hiveBins[i + 1..];
      if offset >= bin.header.offset && offset < Wrap32(bin.header.offset + bin.header.size) {
        var key := Wrap32(BASE_BLOCK_SIZE + offset);
        if key in bin.cells.items {
          return Some(bin.cells.items[key]);
        }
      }
      i := i + 1;
    }
    return None;
  }

  /** The first bin that holds `offset` gives the cell. */
  lemma {:induction false} FindCellInFirst(bins: seq<HiveBin>, offset: uint32, i: nat)
    requires i < |bins| && Holds(bins[i], offset)
    requires forall j | 0 <= j < i :: !Holds(bins[j], offset)
    ensures FindCellIn(bins, offset) == Some(bins[i].cells.items[Wrap32(BASE_BLOCK_SIZE + offset)])
    decreases i
  {
    if i > 0 {
      assert !Holds(bins[0], offset);
      FindCellInFirst(bins[1..], offset, i - 1);
    }
  }

  /** No cell is found exactly when no bin holds `offset`. */
  lemma {:induction false} FindCellInNone(bins: seq<HiveBin>, offset: uint32)
    ensures FindCellIn(bins, offset) == None <==> forall i | 0 <= i < |bins| :: !Holds(bins[i], offset)
    decreases |bins|
  {
    if bins != [] {
      FindCellInNone(bins[1..], offset);
      assert forall i | 1 <= i < |bins| :: bins[i] == bins[1..][i - 1];
    }
  }

  /**
   * FindCell gives null for 0xFFFFFFFF and when no bin holds the offset,
   * and otherwise the cell keyed `4096 + offset` in the first bin that does.
   */
  lemma FindCellSpec(pf: PrimaryFile, offset: uint32)
    ensures FindCell(pf, offset) == None <==>
      offset == NO_CELL || forall i | 0 <= i < |pf.hiveBins| :: !Holds(pf.hiveBins[i], offset)
    ensures forall i | 0 <= i < |pf.hiveBins| && offset != NO_CELL && Holds(pf.hiveBins[i], offset)
                       && (forall j | 0 <= j < i :: !Holds(pf.hiveBins[j], offset)) ::
      FindCell(pf, offset) == Some(pf.hiveBins[i].cells.items[Wrap32(BASE_BLOCK_SIZE + offset)])
  {
    FindCellInNone(pf.hiveBins, offset);
    forall i | 0 <= i < |pf.hiveBins| && offset != NO_CELL && Holds(pf.hiveBins[i], offset)
               && (forall j | 0 <= j < i :: !Holds(pf.hiveBins[j], offset))
      ensures FindCell(pf, offset) == Some(pf.hiveBins[i].cells.items[Wrap32(BASE_BLOCK_SIZE + offset)])
    {
      FindCellInFirst(pf.hiveBins, offset, i);
    }
  }
}
