/**
 * .NET strings as sequences of UTF-16 code units, and the text conversions the
 * decoders apply to header bytes: Encoding.ASCII, Encoding.Unicode (UTF-16LE),
 * the section-name decoding, `Replace("\0", "")`, `Trim()` and
 * `int.ToString()`.
 */
module Text {
  import opened Bytes

  type CodeUnit = uint16
  type Str = seq<CodeUnit>

  const NUL: CodeUnit := 0
  const QUESTION_MARK: CodeUnit := 0x3F
  const REPLACEMENT_CHARACTER: CodeUnit := 0xFFFD

  /** A string literal made of ASCII characters, as code units. */
  function Lit(s: string): (r: Str)
    requires forall i | 0 <= i < |s| :: s[i] as int < 0x80
    ensures |r| == |s|
    ensures forall i | 0 <= i < |s| :: r[i] == s[i] as int
  {
    seq(|s|, i requires 0 <= i < |s| => s[i] as int)
  }

  /** Encoding.ASCII.GetString: a byte outside 0..0x7F decodes to '?'. */
  function AsciiUnit(b: uint8): CodeUnit
  {
    if b < 0x80 then b else QUESTION_MARK
  }

  function Ascii(bs: seq<uint8>): (r: Str)
    ensures |r| == |bs|
  {
    seq(|bs|, i requires 0 <= i < |bs| => AsciiUnit(bs[i]))
  }

  /**
   * Encoding.Unicode.GetString: each little-endian byte pair is one code
   * unit; a trailing odd byte decodes to U+FFFD.
   */
  function Utf16(bs: seq<uint8>): (r: Str)
    ensures |r| == (|bs| + 1) / 2
  {
    if |bs| < 2 then (if |bs| == 1 then [REPLACEMENT_CHARACTER] else [])
    else [LE16(bs, 0)] + Utf16(bs[2..])
  }

  /**
   * Encoding.UTF8.GetString restricted to what an 8-byte section name can
   * hold in the model: ASCII bytes decode to themselves and every other byte
   * to U+FFFD.
   */
  function Utf8Unit(b: uint8): CodeUnit
  {
    if b < 0x80 then b else REPLACEMENT_CHARACTER
  }

  function Utf8(bs: seq<uint8>): (r: Str)
    ensures |r| == |bs|
  {
    seq(|bs|, i requires 0 <= i < |bs| => Utf8Unit(bs[i]))
  }

  /** `s.Replace("\0", "")`. */
  function RemoveNul(s: Str): (r: Str)
    ensures |r| <= |s|
  {
    if s == [] then []
    else (if s[0] == NUL then [] else [s[0]]) + RemoveNul(s[1..])
  }

  /** Every NUL is dropped and every other unit kept. */
  lemma {:induction false} RemoveNulSpec(s: Str)
    ensures NUL !in RemoveNul(s)
    ensures forall c :: c in RemoveNul(s) ==> c in s
    ensures forall c :: c in s && c != NUL ==> c in RemoveNul(s)
    decreases |s|
  {
    if s != [] {
      RemoveNulSpec(s[1..]);
      assert forall c :: c in s ==> c == s[0] || c in s[1..];
    }
  }

  /** char.IsWhiteSpace on one UTF-16 code unit. */
  predicate IsWhiteSpace(c: CodeUnit)
  {
    (0x09 <= c <= 0x0D) || c == 0x20 || c == 0x85 || c == 0xA0 || c == 0x1680
    || (0x2000 <= c <= 0x200A) || c == 0x2028 || c == 0x2029 || c == 0x202F
    || c == 0x205F || c == 0x3000
  }

  /** `s.TrimStart()`: the suffix left after every leading white-space unit. */
  function TrimStart(s: Str): (r: Str)
    ensures |r| <= |s| && r == s[|s| - |r|..]
    ensures r == [] || !IsWhiteSpace(r[0])
  {
    if s != [] && IsWhiteSpace(s[0]) then TrimStart(s[1..]) else s
  }

  /** Only white space is removed from the front. */
  lemma {:induction false} TrimStartRemoves(s: Str)
    ensures forall i | 0 <= i < |s| - |TrimStart(s)| :: IsWhiteSpace(s[i])
    decreases |s|
  {
    if s != [] && IsWhiteSpace(s[0]) {
      TrimStartRemoves(s[1..]);
      assert forall i | 1 <= i < |s| :: s[i] == s[1..][i - 1];
    }
  }

  /** `s.TrimEnd()`: the prefix left after every trailing white-space unit. */
  function TrimEnd(s: Str): (r: Str)
    ensures |r| <= |s| && r == s[..|r|]
    ensures r == [] || !IsWhiteSpace(r[|r| - 1])
  {
    if s != [] && IsWhiteSpace(s[|s| - 1]) then TrimEnd(s[..|s| - 1]) else s
  }

  /** Only white space is removed from the back. */
  lemma {:induction false} TrimEndRemoves(s: Str)
    ensures forall i | |TrimEnd(s)| <= i < |s| :: IsWhiteSpace(s[i])
    decreases |s|
  {
    if s != [] && IsWhiteSpace(s[|s| - 1]) {
      TrimEndRemoves(s[..|s| - 1]);
    }
  }

  /** `s.Trim()`. */
  function Trim(s: Str): (r: Str)
    ensures |r| <= |s|
    ensures r == [] || (!IsWhiteSpace(r[0]) && !IsWhiteSpace(r[|r| - 1]))
  {
    TrimEnd(TrimStart(s))
  }

  /** Trimming only removes units. */
  lemma TrimKeeps(s: Str)
    ensures forall c :: c in Trim(s) ==> c in s
  {
    var t := TrimStart(s);
    assert forall c :: c in TrimEnd(t) ==> c in t;
  }

  /** The text the decoders store for fixed-width names: NULs removed, then trimmed. */
  function Clean(s: Str): (r: Str)
    ensures |r| <= |s|
    ensures NUL !in r
  {
    RemoveNulSpec(s);
    TrimKeeps(RemoveNul(s));
    Trim(RemoveNul(s))
  }

  const DIGIT_ZERO: CodeUnit := 0x30

  predicate IsDigit(c: CodeUnit) { DIGIT_ZERO <= c < DIGIT_ZERO + 10 }

  /** `n.ToString()` for a non-negative integer: its decimal digits, no leading zero. */
  function Decimal(n: nat): (r: Str)
    ensures |r| >= 1
    ensures forall i | 0 <= i < |r| :: IsDigit(r[i])
    ensures r[0] == DIGIT_ZERO ==> n == 0
  {
    if n < 10 then [DIGIT_ZERO + n] else Decimal(n / 10) + [DIGIT_ZERO + n % 10]
  }

  /** The value of a string of decimal digits. */
  function ParseDecimal(s: Str): nat
    requires forall i | 0 <= i < |s| :: IsDigit(s[i])
  {
    if s == [] then 0
    else
      assert IsDigit(s[|s| - 1]);
      10 * ParseDecimal(s[..|s| - 1]) + (s[|s| - 1] as int - DIGIT_ZERO as int)
  }

  lemma {:induction false} ParseDecimalOfDecimal(n: nat)
    ensures ParseDecimal(Decimal(n)) == n
  {
    if n >= 10 {
      var d := Decimal(n);
      assert d[..|d| - 1] == Decimal(n / 10);
      ParseDecimalOfDecimal(n / 10);
    }
  }
}
