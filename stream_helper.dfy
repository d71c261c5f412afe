/**
 * The stream reads of the decoders: `Stream.ReadExactly` at a position and
 * `StreamHelper.ReadString`, which either reads a fixed number of characters
 * or characters up to and including a NUL. A stream is its bytes; every read
 * takes the position it starts at and the string read also reports the
 * position it leaves the stream at.
 */
module StreamHelper {
  import opened Bytes
  import opened Results
  import opened Text

  /**
   * `Stream.ReadExactly`: exactly `n` bytes from `pos`, else EndOfStream.
   * An empty buffer is filled without reading, so a zero-length read
   * succeeds even at a position past the end of the stream.
   */
  function ReadExactly(data: seq<uint8>, pos: nat, n: nat): (r: Result<seq<uint8>>)
    ensures r.Ok? <==> n == 0 || pos + n <= |data|
    ensures n == 0 ==> r == Ok([])
    ensures r.Ok? ==> |r.value| == n && (pos + n <= |data| ==> r.value == data[pos..pos + n])
    ensures r.Err? ==> r.error == EndOfStream
  {
    if n == 0 then Ok([])
    else if pos + n <= |data| then Ok(data[pos..pos + n])
    else Err(EndOfStream)
  }

  /** The two encodings the decoders hand to ReadString. */
  datatype Encoding = AsciiEncoding | UnicodeEncoding

  /** Bytes per character of a BinaryReader over the encoding. */
  function Width(enc: Encoding): (w: nat)
    ensures w == 1 || w == 2
  {
    if enc == AsciiEncoding then 1 else 2
  }

  /** The character decoded from the bytes at `pos`. */
  function UnitAt(data: seq<uint8>, pos: nat, enc: Encoding): CodeUnit
    requires pos + Width(enc) <= |data|
  {
    if enc == AsciiEncoding then AsciiUnit(data[pos]) else LE16(data, pos)
  }

  /**
   * ReadString without a length: `ReadChar` until a NUL, which is consumed
   * and not stored; running out of bytes first is EndOfStream.
   */
  function StringAt(data: seq<uint8>, pos: nat, enc: Encoding): (r: Result<(Str, nat)>)
    ensures r.Ok? ==> NUL !in r.value.0
    ensures r.Ok? ==> r.value.1 <= |data|
    ensures r.Ok? && enc == AsciiEncoding ==> r.value.1 == pos + |r.value.0| + 1
    ensures r.Ok? && enc != AsciiEncoding ==> r.value.1 == pos + 2 * |r.value.0| + 2
    decreases |data| - pos
  {
    if pos + Width(enc) > |data| then Err(EndOfStream)
    else
      var c := UnitAt(data, pos, enc);
      if c == NUL then Ok(([], pos + Width(enc)))
      else
        var (rest, end) :- StringAt(data, pos + Width(enc), enc);
        Ok(([c] + rest, end))
  }

  /**
   * ReadString with a length: `BinaryReader.ReadChars(length)`, which returns
   * fewer characters when the stream ends first and never fails.
   */
  function CharsAt(data: seq<uint8>, pos: nat, enc: Encoding, length: nat): (r: (Str, nat))
    ensures |r.0| <= length
    ensures r.1 >= pos
    decreases length
  {
    if length == 0 || pos + Width(enc) > |data| then ([], pos)
    else
      var (rest, end) := CharsAt(data, pos + Width(enc), enc, length - 1);
      ([UnitAt(data, pos, enc)] + rest, end)
  }

  /** `StreamHelper.ReadString(stream, encoding, length)`. */
  function ReadStringAt(data: seq<uint8>, pos: nat, enc: Encoding, length: Option<nat>): Result<(Str, nat)>
  {
    if length.Some? then Ok(CharsAt(data, pos, enc, length.value)) else StringAt(data, pos, enc)
  }

  /** `StreamHelper.ReadString`: a StringBuilder filled one character at a time. */
  method ReadString(data: seq<uint8>, pos: nat, enc: Encoding, length: Option<nat>) returns (r: Result<(Str, nat)>)
    ensures r == ReadStringAt(data, pos, enc, length)
  {
    if length.Some? {
      var chars := ReadChars(data, pos, enc, length.value);
      r := Ok(chars);
    } else {
      r := ReadToNul(data, pos, enc);
    }
  }

  method ReadChars(data: seq<uint8>, pos: nat, enc: Encoding, length: nat) returns (r: (Str, nat))
    ensures r == CharsAt(data, pos, enc, length)
  {
    var w := Width(enc);
    var builder: Str := [];
    var p := pos;
    assert builder + CharsAt(data, p, enc, length).0 == CharsAt(data, p, enc, length).0;
    while |builder| < length && p + w <= |data|
      invariant |builder| <= length
      invariant CharsAt(data, pos, enc, length).1 == CharsAt(data, p, enc, length - |builder|).1
      invariant CharsAt(data, pos, enc, length).0 == builder + CharsAt(data, p, enc, length - |builder|).0
      decreases |data| - p
    {
      var c := UnitAt(data, p, enc);
      CharsStep(data, p, enc, length - |builder|, builder);
      builder := builder + [c];
      p := p + w;
    }
    assert builder + [] == builder;
    return (builder, p);
  }

  /** One turn of the `ReadChars` loop: the character at `p` moves from the rest onto what was read. */
  lemma CharsStep(data: seq<uint8>, p: nat, enc: Encoding, left: nat, builder: Str)
    requires 0 < left && p + Width(enc) <= |data|
    ensures CharsAt(data, p, enc, left).1 == CharsAt(data, p + Width(enc), enc, left - 1).1
    ensures builder + CharsAt(data, p, enc, left).0
         == (builder + [UnitAt(data, p, enc)]) + CharsAt(data, p + Width(enc), enc, left - 1).0
  {
    var rest := CharsAt(data, p + Width(enc), enc, left - 1).0;
    assert CharsAt(data, p, enc, left).0 == [UnitAt(data, p, enc)] + rest;
    assert builder + ([UnitAt(data, p, enc)] + rest) == (builder + [UnitAt(data, p, enc)]) + rest;
  }

  method ReadToNul(data: seq<uint8>, pos: nat, enc: Encoding) returns (r: Result<(Str, nat)>)
    ensures r == StringAt(data, pos, enc)
  {
    var w := Width(enc);
    var builder: Str := [];
    var p := pos;
    assert Prefixed(builder, StringAt(data, p, enc)) == StringAt(data, p, enc) by {
      if StringAt(data, p, enc).Ok? { assert [] + StringAt(data, p, enc).value.0 == StringAt(data, p, enc).value.0; }
    }
    while true
      invariant pos <= p
      invariant StringAt(data, pos, enc) == Prefixed(builder, StringAt(data, p, enc))
      decreases |data| - p
    {
      if p + w > |data| {
        return Err(EndOfStream);
      }
      var c := UnitAt(data, p, enc);
      if c == NUL {
        assert builder + [] == builder;
        return Ok((builder, p + w));
      }
      StringStep(data, p, enc);
      PrefixedTwice(builder, [c], StringAt(data, p + w, enc));
      builder := builder + [c];
      p := p + w;
    }
  }

  /** One turn of the `ReadString` loop: a character other than NUL goes in front of the rest of the string. */
  lemma StringStep(data: seq<uint8>, p: nat, enc: Encoding)
    requires p + Width(enc) <= |data| && UnitAt(data, p, enc) != NUL
    ensures StringAt(data, p, enc) == Prefixed([UnitAt(data, p, enc)], StringAt(data, p + Width(enc), enc))
  {
  }

  /** A string read so far in front of the rest of a read. */
  function Prefixed(prefix: Str, r: Result<(Str, nat)>): Result<(Str, nat)>
  {
    if r.Ok? then Ok((prefix + r.value.0, r.value.1)) else r
  }

  lemma PrefixedTwice(a: Str, b: Str, r: Result<(Str, nat)>)
    ensures Prefixed(a, Prefixed(b, r)) == Prefixed(a + b, r)
  {
    if r.Ok? { assert a + (b + r.value.0) == (a + b) + r.value.0; }
  }

  /** A NUL-terminated ASCII string reads back as written, and the NUL is consumed. */
  lemma {:induction false} StringAtAscii(pre: seq<uint8>, text: seq<uint8>, post: seq<uint8>)
    requires forall i | 0 <= i < |text| :: 0 < text[i] < 0x80
    ensures StringAt(pre + text + [0] + post, |pre|, AsciiEncoding)
         == Ok((text, |pre| + |text| + 1))
    decreases |text|
  {
    var data := pre + text + [0] + post;
    if text == [] {
      assert data[|pre|] == 0;
    } else {
      assert data[|pre|] == text[0];
      assert data == (pre + [text[0]]) + text[1..] + [0] + post;
      StringAtAscii(pre + [text[0]], text[1..], post);
      assert [text[0] as CodeUnit] + text[1..] == text;
    }
  }
}
