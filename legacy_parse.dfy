/**
 * The first parser of the project (parse.h at the repository root), which
 * the demonstration program main.cpp calls: extractFrameFromBuffer reads only
 * simple strings, simple errors and integers. Its findSeparator and
 * extractStringFromBytes are the same code as src/protocol.h's, modelled in
 * Protocol.
 */
module LegacyParse {
  import opened Wrappers
  import opened ByteStrings
  import opened RedisType
  import opened Decimal
  import opened Protocol
  import opened ProtocolProperties

  /** A scalar frame: the three kinds the legacy parser reads. */
  predicate IsScalar(v: RedisValue) {
    v.SimpleString? || v.SimpleError? || v.Integer?
  }

  /** extractFrameFromBuffer, as a function of the buffer. */
  function ExtractFrameFromBuffer(buffer: Bytes): (r: ParseOutcome)
    ensures r.Parsed? ==> IsScalar(r.value)
    ensures r.Parsed? ==> 2 <= r.consumed <= |buffer|
    ensures r.Parsed? ==> CrlfAt(buffer, r.consumed - 2)
  {
    match FindSeparator(buffer)
    case None => NoFrame
    case Some(separator) =>
      if separator == 0 then Undefined(SeparatorAtStart)
      else
        var payload := ExtractStringFromBytes(buffer, 1, separator - 1);
        var prefix := buffer[0];
        if prefix == PLUS then Parsed(SimpleString(payload), separator + 2)
        else if prefix == MINUS then Parsed(SimpleError(payload), separator + 2)
        else if prefix == COLON then
          match StoLL(payload)
          case Failed(e) => Thrown(e)
          case Converted(n) => Parsed(Integer(n), separator + 2)
        else NoFrame
  }

  /** On every buffer that does not start with a bulk or array tag the
      legacy parser gives what protocol.h's parseMessage gives; on those
      tags it finds no frame at all. */
  lemma AgreesWithParseMessage(buffer: Bytes)
    ensures |buffer| == 0 || (buffer[0] != DOLLAR && buffer[0] != STAR)
            ==> ExtractFrameFromBuffer(buffer) == Parse(buffer)
    ensures |buffer| > 0 && (buffer[0] == DOLLAR || buffer[0] == STAR)
            ==> ExtractFrameFromBuffer(buffer) == NoFrame
  {
  }

  /** A scalar the model can write is read back by the legacy parser, with
      the bytes after it untouched. */
  lemma ReadsBackScalars(v: RedisValue, rest: Bytes)
    requires IsScalar(v) && Encodable(v)
    ensures ExtractFrameFromBuffer(Encode(v) + rest) == Parsed(v, |Encode(v)|)
  {
    RoundTrip(v, rest);
    AgreesWithParseMessage(Encode(v) + rest);
  }

  /** main.cpp, first case: "+OK\r\n" is the simple string "OK". */
  lemma MainSimpleStringExample()
    ensures ExtractFrameFromBuffer(Ascii("+OK\r\n")) == Parsed(SimpleString(Ascii("OK")), 5)
  {
    SeparatorIs(Ascii("+OK\r\n"), 3);
  }

  /** main.cpp, second case: ":-123\r\n" is the integer -123. */
  lemma MainIntegerExample()
    ensures ExtractFrameFromBuffer(Ascii(":-123\r\n")) == Parsed(Integer(-123), 7)
  {
    var buffer := Ascii(":-123\r\n");
    SeparatorIs(buffer, 5);
    assert Ascii("-123") == ToDecimal(-123) by {
      assert Digits(12) == Digits(1) + [(ZERO as int + 2) as byte];
      assert Digits(123) == Digits(12) + [(ZERO as int + 3) as byte];
    }
    assert buffer[1..5] == Ascii("-123");
    StoLLOfToDecimal(-123);
  }

  /** main.cpp, third case: the bulk string "$5\r\nHello\r\n" gives no frame,
      so main.cpp's dereference of the result is undefined. */
  lemma MainBulkStringExample()
    ensures ExtractFrameFromBuffer(Ascii("$5\r\nHello\r\n")) == NoFrame
  {
    SeparatorIs(Ascii("$5\r\nHello\r\n"), 2);
  }

  /** main.cpp, fourth case: the array "*2\r\n+OK\r\n:123\r\n" gives no frame
      either, and main.cpp's dereference is undefined again. */
  lemma MainArrayExample()
    ensures ExtractFrameFromBuffer(Ascii("*2\r\n+OK\r\n:123\r\n")) == NoFrame
  {
    SeparatorIs(Ascii("*2\r\n+OK\r\n:123\r\n"), 2);
  }
}
