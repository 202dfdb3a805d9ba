/**
 * src/parse.h: the copy of the RESP2 parser that the unit tests include.
 * Its findSeparator, extractStringFromBytes and stringToByteVector are the
 * same code as in src/protocol.h and are modelled once, in Protocol. Its
 * parseMessage is modelled again here, from this file's own text, and is
 * proved to compute exactly what protocol.h's parseMessage computes: the
 * two copies agree on every buffer.
 */
module SrcParse {
  import opened Wrappers
  import opened ByteStrings
  import opened RedisType
  import opened Decimal
  import opened Protocol
  import opened ProtocolProperties

  method ParseMessage(buffer: Bytes) returns (r: ParseOutcome)
    ensures r == Parse(buffer)
    decreases |buffer|, 1
  {
    var found := FindSeparator(buffer);
    if found.None? {
      return NoFrame;
    }
    var separator := found.value;
    if separator == 0 {
      return Undefined(SeparatorAtStart);
    }
    var payload := ExtractStringFromBytes(buffer, 1, separator - 1);
    assert payload == buffer[1..separator];
    var prefix := buffer[0];
    if prefix == PLUS {
      ParsesSimpleString(buffer, separator);
      return Parsed(SimpleString(payload), separator + 2);
    } else if prefix == MINUS {
      ParsesSimpleError(buffer, separator);
      return Parsed(SimpleError(payload), separator + 2);
    } else if prefix == COLON {
      var n := StoLL(payload);
      if n.Failed? {
        return Thrown(n.error);
      }
      ParsesInteger(buffer, separator, n.value);
      return Parsed(Integer(n.value), separator + 2);
    } else if prefix == DOLLAR {
      var n := StoI(payload);
      if n.Failed? {
        return Thrown(n.error);
      }
      var length := n.value;
      if length == -1 {
        ParsesNullBulkString(buffer, separator);
        return Parsed(BulkString(None), 5);
      }
      if length < -1 {
        return Undefined(BulkLengthBelowMinusOne);
      }
      var endOfMessage := separator + 2 + length;
      if endOfMessage > |buffer| {
        ParsesBulkPastEnd(buffer, separator, length);
        return Undefined(BulkPastEnd);
      }
      ParsesBulkString(buffer, separator, length, buffer[separator + 2..endOfMessage], endOfMessage + 2);
      return Parsed(BulkString(Some(buffer[separator + 2..endOfMessage])), endOfMessage + 2);
    } else if prefix == STAR {
      var n := StoI(payload);
      if n.Failed? {
        return Thrown(n.error);
      }
      var length := n.value;
      if length == -1 {
        ParsesArray(buffer, separator, length);
        return Parsed(Array(NullArray), separator + 2);
      }
      if length == 0 {
        return Parsed(Array(Elements([])), separator + 2);
      }
      r := ParseArray(buffer, separator, length);
      ParsesArray(buffer, separator, length);
      return;
    }
    return NoFrame;
  }

  /** The `for` loop of the '*' case, for a header of `length` elements
      whose "\r\n" is at `separator`; a negative length runs it no times. */
  method ParseArray(buffer: Bytes, separator: nat, length: int) returns (r: ParseOutcome)
    ensures r == ParseElements(buffer, separator, length, [])
    decreases |buffer|, 0
  {
    var items: seq<RedisValue> := [];
    var currentPos: nat := separator;
    ghost var remaining := length;
    ghost var whole := ParseElements(buffer, separator, length, []);
    var i := 0;
    while i < length
      invariant remaining == length - i
      invariant ParseElements(buffer, currentPos, remaining, items) == whole
    {
      if currentPos + 2 > |buffer| {
        return Undefined(ElementPastEnd);
      }
      var nextElem := ParseMessage(buffer[currentPos + 2..]);
      if nextElem.Parsed? {
        ghost var position, done, count := currentPos, items, remaining;
        items := items + [nextElem.value];
        currentPos := currentPos + nextElem.consumed;
        remaining := remaining - 1;
        i := i + 1;
        ElementParsed(buffer, position, count, done, nextElem, whole, currentPos, remaining, items);
      } else {
        return nextElem;
      }
    }
    return Parsed(Array(Elements(items)), currentPos + 2);
  }
}
