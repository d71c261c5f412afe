/**
 * Outcomes shared by every decoder of the model.
 *
 * The .NET code reports failure by throwing; each exception type that some
 * caller distinguishes becomes one constructor of `Error`, and a value that the
 * code may leave `null` becomes an `Option`.
 */
module Results {

  /** The exception kinds the decoders throw, plus exhaustion of a fuel bound. */
  datatype Error =
    | Argument          // ArgumentException and ArgumentOutOfRangeException (short buffers, bad slices, duplicate keys)
    | EndOfStream       // EndOfStreamException from Stream.ReadExactly or BinaryReader.ReadChar
    | InvalidOperation  // InvalidOperationException
    | IndexOutOfRange   // IndexOutOfRangeException from an array store
    | KeyNotFound       // KeyNotFoundException from a dictionary read
    | Overflow          // OverflowException from Math.Abs(int.MinValue)
    | OutOfMemory       // OutOfMemoryException from an array longer than Array.MaxLength
    | BadImage          // BadPortableExecutableException
    | BadRegf           // BadRegfFileException
    | OutOfFuel         // the model's bound on an unbounded loop or recursion was exhausted

  /** Array.MaxLength: `new byte[n]` for a longer `n` throws an OutOfMemoryException. */
  const MAX_ARRAY_LENGTH: nat := 0x7FFF_FFC7

  datatype Option<T> = None | Some(value: T)

  datatype Result<T> = Ok(value: T) | Err(error: Error)
  {
    predicate IsFailure() { Err? }

    function PropagateFailure<U>(): Result<U>
      requires Err?
    {
      Err(error)
    }

    function Extract(): T
      requires Ok?
    {
      value
    }
  }

  /**
   * The results of `read(0)`, ..., `read(n - 1)` in order, or the error of
   * the first of them that fails: the shape of a `for` loop that fills
   * an array with one read per index and lets the first exception escape.
   */
  function ReadEach<T>(read: nat -> Result<T>, n: nat): Result<seq<T>>
  {
    if n == 0 then Ok([])
    else
      var prefix :- ReadEach(read, n - 1);
      var x :- read(n - 1);
      Ok(prefix + [x])
  }

  /** The `for` loop itself: an array of `n` filled by `read(i)` at index i, the first exception escaping. */
  method ReadAll<T(0)>(read: nat -> Result<T>, n: nat) returns (r: Result<seq<T>>)
    ensures r == ReadEach(read, n)
  {
    var a := new T[n];
    var i := 0;
    while i < n
      invariant 0 <= i <= n
      invariant ReadEach(read, i) == Ok(a[..i])
    {
      var x := read(i);
      if x.Err? {
        ReadEachFail(read, i + 1, n);
        return Err(x.error);
      }
      ghost var prefix := a[..i];
      ReadEachNext(read, i, prefix, x.value);
      a[i] := x.value;
      assert a[..i + 1] == prefix + [x.value];
      i := i + 1;
    }
    assert a[..n] == a[..];
    return Ok(a[..]);
  }

  /** One more successful read extends the results by its value. */
  lemma ReadEachNext<T>(read: nat -> Result<T>, i: nat, prefix: seq<T>, x: T)
    requires ReadEach(read, i) == Ok(prefix) && read(i) == Ok(x)
    ensures ReadEach(read, i + 1) == Ok(prefix + [x])
  {
  }

  /** Once the first `m` reads fail, the first `n >= m` fail with the same error. */
  lemma {:induction false} ReadEachFail<T>(read: nat -> Result<T>, m: nat, n: nat)
    requires m <= n && ReadEach(read, m).Err?
    ensures ReadEach(read, n) == Err(ReadEach(read, m).error)
    decreases n - m
  {
    if m < n {
      ReadEachFail(read, m, n - 1);
    }
  }

  /** The `n` reads succeed exactly when each one does, and element i is then `read(i)`. */
  lemma {:induction false} ReadEachSpec<T>(read: nat -> Result<T>, n: nat)
    ensures ReadEach(read, n).Ok? <==> forall i | 0 <= i < n :: read(i).Ok?
    ensures ReadEach(read, n).Ok? ==>
      && |ReadEach(read, n).value| == n
      && forall i | 0 <= i < n :: read(i) == Ok(ReadEach(read, n).value[i])
  {
    if n > 0 {
      ReadEachSpec(read, n - 1);
    }
  }
}
