/**
 * A hive-bin cell: the 32-bit size word in front of it, negative when the
 * cell is allocated, and the bytes that follow that word.
 */
module Cells {
  import opened Bytes
  import opened Results

  /**
   * `Math.Abs((int)size)`: the magnitude of the size word read as a signed
   * int. 0x80000000 is int.MinValue, whose magnitude has no int, and
   * Math.Abs throws an OverflowException for it.
   */
  function AbsSize(size: uint32): (r: Result<nat>)
    ensures r.Ok? <==> size != TWO_TO_31
    ensures r.Ok? ==> r.value < TWO_TO_31
    ensures r.Ok? && size < TWO_TO_31 ==> r.value == size
    ensures r.Ok? && size > TWO_TO_31 ==> r.value == TWO_TO_32 - size
  {
    var s := Signed32(size);
    if s == -TWO_TO_31 then Err(Overflow)
    else if s < 0 then Ok(-s)
    else Ok(s)
  }

  /** `new Cell(size, data)`: the size word kept as read, and a copy of the data bytes. */
  datatype Cell = Cell(size: uint32, data: seq<uint8>)
  {
    /** `IsAllocated`: bit 31 of the size word. */
    predicate IsAllocated() { HighBit32(size) }

    /** `ActualSize`. */
    function ActualSize(): Result<nat> { AbsSize(size) }
  }

  /**
   * A free cell's size is its size word; an allocated cell's is 2^32 minus
   * it, i.e. the negated signed value; only the word 0x80000000 has none.
   */
  lemma ActualSizeSpec(c: Cell)
    ensures c.ActualSize().Ok? <==> c.size != TWO_TO_31
    ensures !c.IsAllocated() ==> c.ActualSize() == Ok(c.size)
    ensures c.IsAllocated() && c.size != TWO_TO_31 ==> c.ActualSize() == Ok(TWO_TO_32 - c.size)
    ensures c.ActualSize().Ok? ==> c.ActualSize().value == if c.IsAllocated() then -Signed32(c.size) else Signed32(c.size)
  {
  }
}
