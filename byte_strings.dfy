/**
 * Bytes and the few scalar types the server's C++ code is written over.
 *
 * Both std::vector<uint8_t> and std::string are modelled as a sequence of
 * bytes: a std::string is a byte container, so the conversions between the
 * two (stringToByteVector, extractStringFromBytes) copy bytes unchanged.
 */
module ByteStrings {

  newtype byte = b: int | 0 <= b < 256

  type Bytes = seq<byte>

  const INT_MIN: int := -0x8000_0000
  const INT_MAX: int := 0x7FFF_FFFF
  const INT64_MIN: int := -0x8000_0000_0000_0000
  const INT64_MAX: int := 0x7FFF_FFFF_FFFF_FFFF

  /** std::int64_t */
  type int64 = n: int | INT64_MIN <= n <= INT64_MAX

  /** The conversion of an unsigned size to a 32-bit int, modulo 2^32 as
      C++20 defines it: a size the int range holds is kept. */
  function NarrowToInt(n: nat): (r: int)
    ensures INT_MIN <= r <= INT_MAX
    ensures (n - r) % 0x1_0000_0000 == 0
    ensures n <= INT_MAX ==> r == n
  {
    var low := n % 0x1_0000_0000;
    if low <= INT_MAX then low else low - 0x1_0000_0000
  }

  /** The bytes of a string literal. Every literal of the model is 7-bit ASCII,
      so each character is its own byte code; a wider character, which no
      literal here holds, would become 0. */
  function Ascii(s: string): (r: Bytes)
    ensures |r| == |s|
    ensures forall i | 0 <= i < |s| && s[i] as int < 256 :: r[i] as int == s[i] as int
  {
    seq(|s|, i requires 0 <= i < |s| => if s[i] as int < 256 then s[i] as int as byte else 0)
  }

  /** The bytes of two literals written one after the other. */
  lemma AsciiConcat(a: string, b: string)
    ensures Ascii(a + b) == Ascii(a) + Ascii(b)
  {
  }

  const CR: byte := '\r' as byte
  const LF: byte := '\n' as byte
  const CRLF: Bytes := [CR, LF]

  /** Bytes `i` and `i + 1` of `b` are the line terminator "\r\n". */
  predicate CrlfAt(b: Bytes, i: int) {
    0 <= i && i + 1 < |b| && b[i] == CR && b[i + 1] == LF
  }

  /** `b` contains no "\r\n". */
  predicate NoCrlf(b: Bytes) {
    forall i :: 0 <= i < |b| ==> !CrlfAt(b, i)
  }

  /** `b` begins with the bytes `prefix`. */
  predicate StartsWith(b: Bytes, prefix: Bytes) {
    |prefix| <= |b| && b[..|prefix|] == prefix
  }

  /** How a buffer that begins with `x + y`, or that `x + y` begins with,
      splits at the end of `x`. */
  lemma StartsWithConcatenation(b: Bytes, x: Bytes, y: Bytes)
    ensures StartsWith(b, x + y) ==> StartsWith(b, x) && StartsWith(b[|x|..], y)
    ensures StartsWith(x + y, b) && |b| <= |x| ==> StartsWith(x, b)
    ensures StartsWith(x + y, b) && |b| >= |x| ==> StartsWith(b, x) && StartsWith(y, b[|x|..])
  {
    if StartsWith(b, x + y) {
      assert b[..|x|] == (x + y)[..|x|];
      assert b[|x|..][..|y|] == y;
    }
    if StartsWith(x + y, b) && |b| >= |x| {
      assert b[..|x|] == (x + y)[..|x|];
      assert y[..|b[|x|..]|] == b[|x|..];
    }
  }

  /** Concatenation groups either way; stated on its own so that proofs
      about long encodings use it without unfolding them. */
  lemma AppendAssociates<T>(x: seq<T>, y: seq<T>, z: seq<T>)
    ensures x + (y + z) == x + y + z
  {
  }

  /** An empty sequence in front of `y` leaves `y`. */
  lemma AppendEmpty<T>(x: seq<T>, y: seq<T>)
    requires x == []
    ensures x + y == y
  {
  }

  /** The first element and the rest of a concatenation whose left part is
      not empty. */
  lemma AppendHead<T>(a: seq<T>, b: seq<T>)
    requires |a| > 0
    ensures (a + b)[0] == a[0] && (a + b)[1..] == a[1..] + b
  {
  }

  /** All elements of `s` are different. */
  predicate Distinct<T(==)>(s: seq<T>) {
    forall i, j :: 0 <= i < j < |s| ==> s[i] != s[j]
  }
}
