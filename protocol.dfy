/**
 * The RESP2 frame codec of src/protocol.h: parseMessage, which reads one
 * frame from the front of a byte buffer and reports how many bytes it used,
 * and encode, which writes a value as a frame.
 *
 * `Parse` and `Encode` are the specification; `ParseMessage` and
 * `EncodeMessage` are the source's loops, proved to compute them.
 *
 * Outcomes the C++ leaves undefined are kept apart as `Undefined(cause)`,
 * and the exceptions std::stoi / std::stoll throw as `Thrown(error)`.
 */
module Protocol {
  import opened Wrappers
  import opened ByteStrings
  import opened RedisType
  import opened Decimal

  const PLUS: byte := '+' as byte
  const MINUS: byte := '-' as byte
  const COLON: byte := ':' as byte
  const DOLLAR: byte := '$' as byte
  const STAR: byte := '*' as byte

  /** std::search for "\r\n" in `buffer`, starting at `from`. */
  function SearchCrlf(buffer: Bytes, from: nat): (r: Option<nat>)
    requires from <= |buffer|
    ensures r.Some? ==> from <= r.value && CrlfAt(buffer, r.value)
    ensures r.Some? ==> forall i | from <= i < r.value :: !CrlfAt(buffer, i)
    ensures r.None? ==> forall i | from <= i < |buffer| :: !CrlfAt(buffer, i)
    decreases |buffer| - from
  {
    if from + 1 >= |buffer| then None
    else if buffer[from] == CR && buffer[from + 1] == LF then Some(from)
    else SearchCrlf(buffer, from + 1)
  }

  /** findSeparator: the index of the first "\r\n" of the buffer; `None`
      stands for std::string::npos. */
  function FindSeparator(buffer: Bytes): (r: Option<nat>)
    ensures r.Some? ==> CrlfAt(buffer, r.value) && forall i | 0 <= i < r.value :: !CrlfAt(buffer, i)
    ensures r.None? <==> NoCrlf(buffer)
  {
    SearchCrlf(buffer, 0)
  }

  /** extractStringFromBytes: the `length` bytes of `buffer` from `start` on.
      A range past the end of the buffer is undefined in the C++. */
  function ExtractStringFromBytes(buffer: Bytes, start: nat, length: nat): (r: Bytes)
    requires start + length <= |buffer|
    ensures |r| == length
    ensures forall i | 0 <= i < length :: r[i] == buffer[start + i]
  {
    buffer[start..start + length]
  }

  /** stringToByteVector: a std::string and a byte vector hold the same bytes. */
  function StringToByteVector(s: Bytes): (r: Bytes)
    ensures |r| == |s| && forall i | 0 <= i < |s| :: r[i] == s[i]
  {
    s
  }

  /** Turning a string into bytes and reading all of them back as a string
      gives the string again. */
  lemma ExtractOfStringToByteVector(t: Bytes)
    ensures ExtractStringFromBytes(StringToByteVector(t), 0, |t|) == t
  {
  }

  /** What the C++ does that the language leaves undefined. */
  datatype UndefinedCause =
      /** The buffer starts with "\r\n": `separator - 1` wraps around. */
    | SeparatorAtStart
      /** A bulk length below -1: the payload range ends before it starts. */
    | BulkLengthBelowMinusOne
      /** The bulk payload range runs past the end of the buffer. */
    | BulkPastEnd
      /** The next array element would start past the end of the buffer. */
    | ElementPastEnd

  datatype ParseOutcome =
      /** A frame and the number of bytes reported consumed. */
    | Parsed(value: RedisValue, consumed: nat)
      /** std::nullopt: no "\r\n" yet, an unknown tag byte, or an array
          element that is not complete. */
    | NoFrame
      /** std::stoi or std::stoll threw. */
    | Thrown(error: ConversionError)
    | Undefined(cause: UndefinedCause)

  /** parseMessage, as a function of the buffer. */
  function Parse(buffer: Bytes): (r: ParseOutcome)
    ensures r.Parsed? ==> r.consumed >= 2
    decreases |buffer|, 1
  {
    match FindSeparator(buffer)
    case None => NoFrame
    case Some(separator) =>
      if separator == 0 then Undefined(SeparatorAtStart)
      else
        var payload := ExtractStringFromBytes(buffer, 1, separator - 1);
        var prefix := buffer[0];
        if prefix == PLUS then Parsed(SimpleString(payload), separator + 2)
        else if prefix == MINUS then Parsed(SimpleError(payload), separator + 2)
        else if prefix == COLON then
          match StoLL(payload)
          case Failed(e) => Thrown(e)
          case Converted(n) => Parsed(Integer(n), separator + 2)
        else if prefix == DOLLAR then
          match StoI(payload)
          case Failed(e) => Thrown(e)
          case Converted(length) =>
            if length == -1 then Parsed(BulkString(None), 5)
            else if length < -1 then Undefined(BulkLengthBelowMinusOne)
            else if separator + 2 + length > |buffer| then Undefined(BulkPastEnd)
            else
              var endOfMessage := separator + 2 + length;
              Parsed(BulkString(Some(buffer[separator + 2..endOfMessage])), endOfMessage + 2)
        else if prefix == STAR then
          match StoI(payload)
          case Failed(e) => Thrown(e)
          case Converted(length) =>
            if length == -1 then Parsed(Array(NullArray), separator + 2)
            else if length == 0 then Parsed(Array(Elements([])), separator + 2)
            else ParseElements(buffer, separator, length, [])
        else NoFrame
  }

  /** The element loop of the array branch: `remaining` more elements are
      read, the next one from `position + 2` on, after the elements `done`. */
  function ParseElements(buffer: Bytes, position: nat, remaining: int, done: seq<RedisValue>): (r: ParseOutcome)
    ensures r.Parsed? ==> r.consumed >= position + 2
    decreases |buffer|, 0, remaining
  {
    if remaining <= 0 then Parsed(Array(Elements(done)), position + 2)
    else if position + 2 > |buffer| then Undefined(ElementPastEnd)
    else
      match Parse(buffer[position + 2..])
      case Parsed(element, length) => ParseElements(buffer, position + length, remaining - 1, done + [element])
      case NoFrame => NoFrame
      case Thrown(e) => Thrown(e)
      case Undefined(cause) => Undefined(cause)
  }

  /** The branches of parseMessage, one tag at a time, once the separator
      is known. */
  lemma ParsesSimpleString(buffer: Bytes, separator: nat)
    requires FindSeparator(buffer) == Some(separator) && separator > 0 && buffer[0] == PLUS
    ensures Parse(buffer) == Parsed(SimpleString(buffer[1..separator]), separator + 2)
  {
  }

  lemma ParsesSimpleError(buffer: Bytes, separator: nat)
    requires FindSeparator(buffer) == Some(separator) && separator > 0 && buffer[0] == MINUS
    ensures Parse(buffer) == Parsed(SimpleError(buffer[1..separator]), separator + 2)
  {
  }

  lemma ParsesInteger(buffer: Bytes, separator: nat, n: int64)
    requires FindSeparator(buffer) == Some(separator) && separator > 0 && buffer[0] == COLON
    requires StoLL(buffer[1..separator]) == Converted(n)
    ensures Parse(buffer) == Parsed(Integer(n), separator + 2)
  {
  }

  lemma ParsesNullBulkString(buffer: Bytes, separator: nat)
    requires FindSeparator(buffer) == Some(separator) && separator > 0 && buffer[0] == DOLLAR
    requires StoI(buffer[1..separator]) == Converted(-1)
    ensures Parse(buffer) == Parsed(BulkString(None), 5)
  {
    assert ExtractStringFromBytes(buffer, 1, separator - 1) == buffer[1..separator];
  }

  lemma ParsesBulkString(buffer: Bytes, separator: nat, length: nat, payload: Bytes, consumed: nat)
    requires FindSeparator(buffer) == Some(separator) && separator > 0 && buffer[0] == DOLLAR
    requires StoI(buffer[1..separator]) == Converted(length)
    requires separator + 2 + length <= |buffer|
    requires payload == buffer[separator + 2..separator + 2 + length] && consumed == separator + length + 4
    ensures Parse(buffer) == Parsed(BulkString(Some(payload)), consumed)
  {
    assert ExtractStringFromBytes(buffer, 1, separator - 1) == buffer[1..separator];
    BulkFrameOf(buffer, separator, length);
  }

  /** The bulk string branch, in the terms parseMessage computes it in. */
  lemma BulkFrameOf(buffer: Bytes, separator: nat, length: nat)
    requires FindSeparator(buffer) == Some(separator) && separator > 0 && buffer[0] == DOLLAR
    requires StoI(ExtractStringFromBytes(buffer, 1, separator - 1)) == Converted(length)
    requires separator + 2 + length <= |buffer|
    ensures Parse(buffer) == Parsed(BulkString(Some(buffer[separator + 2..separator + 2 + length])), separator + 2 + length + 2)
  {
  }

  lemma ParsesBulkPastEnd(buffer: Bytes, separator: nat, length: nat)
    requires FindSeparator(buffer) == Some(separator) && separator > 0 && buffer[0] == DOLLAR
    requires StoI(buffer[1..separator]) == Converted(length)
    requires separator + 2 + length > |buffer|
    ensures Parse(buffer) == Undefined(BulkPastEnd)
  {
    assert ExtractStringFromBytes(buffer, 1, separator - 1) == buffer[1..separator];
  }

  lemma ParsesArray(buffer: Bytes, separator: nat, length: int)
    requires FindSeparator(buffer) == Some(separator) && separator > 0 && buffer[0] == STAR
    requires StoI(buffer[1..separator]) == Converted(length)
    ensures length == -1 ==> Parse(buffer) == Parsed(Array(NullArray), separator + 2)
    ensures length == 0 || length < -1 ==> Parse(buffer) == Parsed(Array(Elements([])), separator + 2)
    ensures length > 0 ==> Parse(buffer) == ParseElements(buffer, separator, length, [])
  {
    assert ExtractStringFromBytes(buffer, 1, separator - 1) == buffer[1..separator];
  }

  /** A `:`, `$` or `*` header whose text std::stoll or std::stoi cannot
      convert: the exception leaves parseMessage. */
  lemma ParsesThrown(buffer: Bytes, separator: nat, e: ConversionError)
    requires FindSeparator(buffer) == Some(separator) && separator > 0
    requires || (buffer[0] == COLON && StoLL(buffer[1..separator]) == Failed(e))
             || ((buffer[0] == DOLLAR || buffer[0] == STAR) && StoI(buffer[1..separator]) == Failed(e))
    ensures Parse(buffer) == Thrown(e)
  {
    assert ExtractStringFromBytes(buffer, 1, separator - 1) == buffer[1..separator];
  }

  /** parseMessage as the source writes it; the element loop of its array
      branch is ParseArray. */
  method ParseMessage(buffer: Bytes) returns (r: ParseOutcome)
    ensures r == Parse(buffer)
    decreases |buffer|, 1
  {
    var found := FindSeparator(buffer);
    if found.None? {
      return NoFrame;
    }
    var separator := found.value;
    if separator == 0 {
      return Undefined(SeparatorAtStart);
    }
    var payload := ExtractStringFromBytes(buffer, 1, separator - 1);
    assert payload == buffer[1..separator];
    var prefix := buffer[0];
    if prefix == PLUS {
      ParsesSimpleString(buffer, separator);
      return Parsed(SimpleString(payload), separator + 2);
    } else if prefix == MINUS {
      ParsesSimpleError(buffer, separator);
      return Parsed(SimpleError(payload), separator + 2);
    } else if prefix == COLON {
      var n := StoLL(payload);
      if n.Failed? {
        return Thrown(n.error);
      }
      ParsesInteger(buffer, separator, n.value);
      return Parsed(Integer(n.value), separator + 2);
    } else if prefix == DOLLAR {
      var n := StoI(payload);
      if n.Failed? {
        return Thrown(n.error);
      }
      var length := n.value;
      if length == -1 {
        ParsesNullBulkString(buffer, separator);
        return Parsed(BulkString(None), 5);
      }
      if length < -1 {
        return Undefined(BulkLengthBelowMinusOne);
      }
      var endOfMessage := separator + 2 + length;
      if endOfMessage > |buffer| {
        ParsesBulkPastEnd(buffer, separator, length);
        return Undefined(BulkPastEnd);
      }
      ParsesBulkString(buffer, separator, length, buffer[separator + 2..endOfMessage], endOfMessage + 2);
      return Parsed(BulkString(Some(buffer[separator + 2..endOfMessage])), endOfMessage + 2);
    } else if prefix == STAR {
      var n := StoI(payload);
      if n.Failed? {
        return Thrown(n.error);
      }
      var length := n.value;
      ParsesArray(buffer, separator, length);
      if length == -1 {
        return Parsed(Array(NullArray), separator + 2);
      }
      if length == 0 {
        return Parsed(Array(Elements([])), separator + 2);
      }
      r := ParseArray(buffer, separator, length);
      return;
    }
    return NoFrame;
  }

  /** The `for` loop of parseMessage's '*' case, for a header of `length`
      elements whose "\r\n" is at `separator`; a negative length runs it no
      times. */
  method ParseArray(buffer: Bytes, separator: nat, length: int) returns (r: ParseOutcome)
    ensures r == ParseElements(buffer, separator, length, [])
    decreases |buffer|, 0
  {
    var items: seq<RedisValue> := [];
    var currentPos: nat := separator;
    ghost var remaining := length;
    ghost var whole := ParseElements(buffer, separator, length, []);
    var i := 0;
    while i < length
      invariant remaining == length - i
      invariant ParseElements(buffer, currentPos, remaining, items) == whole
    {
      if currentPos + 2 > |buffer| {
        return Undefined(ElementPastEnd);
      }
      var nextElem := ParseMessage(buffer[currentPos + 2..]);
      if !nextElem.Parsed? {
        return nextElem;
      }
      ghost var position, done, count := currentPos, items, remaining;
      items := items + [nextElem.value];
      currentPos := currentPos + nextElem.consumed;
      remaining := remaining - 1;
      i := i + 1;
      ElementParsed(buffer, position, count, done, nextElem, whole, currentPos, remaining, items);
    }
    return Parsed(Array(Elements(items)), currentPos + 2);
  }

  /** One turn of the element loop: once the next element is parsed, the
      loop from the following state (`later`, `rest`, `more`: one element
      further on, with that element appended) still ends in `whole`. */
  lemma ElementParsed(buffer: Bytes, position: nat, remaining: int, done: seq<RedisValue>, next: ParseOutcome, whole: ParseOutcome,
                      later: nat, rest: int, more: seq<RedisValue>)
    requires remaining > 0 && position + 2 <= |buffer|
    requires next == Parse(buffer[position + 2..]) && next.Parsed?
    requires later == position + next.consumed && rest == remaining - 1 && more == done + [next.value]
    requires ParseElements(buffer, position, remaining, done) == whole
    ensures ParseElements(buffer, later, rest, more) == whole
  {
    ParseElementsStep(buffer, position, remaining, done, next.value, next.consumed, later, rest);
  }

  /** One turn of the element loop, once the next element is known. */
  lemma ParseElementsStep(buffer: Bytes, position: nat, remaining: int, done: seq<RedisValue>, element: RedisValue, length: nat,
                          later: nat, rest: int)
    requires remaining > 0 && ElementAt(buffer, position, element, length)
    requires later == position + length && rest == remaining - 1
    ensures SameElements(buffer, position, remaining, done, later, rest, done + [element])
  {
    ElementsUnfold(buffer, position, remaining, done, element, length);
  }

  /** The same turn, in the terms the element loop computes it in. */
  lemma ElementsUnfold(buffer: Bytes, position: nat, remaining: int, done: seq<RedisValue>, element: RedisValue, length: nat)
    requires remaining > 0 && ElementAt(buffer, position, element, length)
    ensures SameElements(buffer, position, remaining, done, position + length, remaining - 1, done + [element])
  {
  }

  /** The element loop reads `element`, `length` bytes long, at `position`. */
  predicate ElementAt(buffer: Bytes, position: nat, element: RedisValue, length: nat) {
    position + 2 <= |buffer| && Parse(buffer[position + 2..]) == Parsed(element, length)
  }

  /** The element loop reaches the same outcome from two of its states. */
  predicate SameElements(buffer: Bytes, position: nat, remaining: int, done: seq<RedisValue>,
                         later: nat, rest: int, more: seq<RedisValue>) {
    ParseElements(buffer, position, remaining, done) == ParseElements(buffer, later, rest, more)
  }
  /** encode, as a function of the value. */
  function Encode(message: RedisValue): Bytes
    decreases message
  {
    match message
    case SimpleString(s) => StringToByteVector([PLUS] + s + CRLF)
    case SimpleError(s) => StringToByteVector([MINUS] + s + CRLF)
    case Integer(n) => StringToByteVector([COLON] + ToDecimal(n) + CRLF)
    case BulkString(None) => StringToByteVector(Ascii("$-1") + CRLF)
    case BulkString(Some(data)) =>
      if |data| == 0 then StringToByteVector(Ascii("$0") + CRLF + CRLF)
      else StringToByteVector([DOLLAR] + ToDecimal(|data|) + CRLF + ExtractStringFromBytes(data, 0, |data|) + CRLF)
    case Array(NullArray) => StringToByteVector(Ascii("*-1") + CRLF)
    case Array(Elements(items)) =>
      if |items| == 0 then StringToByteVector(Ascii("$0") + CRLF + CRLF)
      else StringToByteVector([STAR] + ToDecimal(|items|) + CRLF) + EncodeAll(items)
  }

  /** The encodings of `items`, one after the other. */
  function EncodeAll(items: seq<RedisValue>): Bytes
    decreases items
  {
    if |items| == 0 then [] else Encode(items[0]) + EncodeAll(items[1..])
  }

  lemma {:induction false} EncodeAllAppend(items: seq<RedisValue>, last: RedisValue)
    ensures EncodeAll(items + [last]) == EncodeAll(items) + Encode(last)
    decreases items
  {
    if |items| > 0 {
      assert (items + [last])[1..] == items[1..] + [last];
      EncodeAllAppend(items[1..], last);
    }
  }

  /** encode as the source writes it, appending element after element. */
  method EncodeMessage(message: RedisValue) returns (encoded: Bytes)
    ensures encoded == Encode(message)
    decreases message
  {
    match message {
      case SimpleString(s) =>
        encoded := StringToByteVector([PLUS] + s + CRLF);
      case SimpleError(s) =>
        encoded := StringToByteVector([MINUS] + s + CRLF);
      case Integer(n) =>
        encoded := StringToByteVector([COLON] + ToDecimal(n) + CRLF);
      case BulkString(data) =>
        if data.None? {
          encoded := StringToByteVector(Ascii("$-1") + CRLF);
          return;
        }
        if |data.value| == 0 {
          encoded := StringToByteVector(Ascii("$0") + CRLF + CRLF);
        } else {
          var bytes := data.value;
          encoded := StringToByteVector([DOLLAR] + ToDecimal(|bytes|) + CRLF + ExtractStringFromBytes(bytes, 0, |bytes|) + CRLF);
        }
      case Array(data) =>
        if data.NullArray? {
          encoded := StringToByteVector(Ascii("*-1") + CRLF);
          return;
        }
        var items := data.items;
        if |items| == 0 {
          encoded := StringToByteVector(Ascii("$0") + CRLF + CRLF);
        } else {
          var header := StringToByteVector([STAR] + ToDecimal(|items|) + CRLF);
          encoded := header;
          var i := 0;
          while i < |items|
            invariant 0 <= i <= |items|
            invariant encoded == header + EncodeAll(items[..i])
          {
            var elementEncoded := EncodeMessage(items[i]);
            EncodeAllAppend(items[..i], items[i]);
            assert items[..i + 1] == items[..i] + [items[i]];
            encoded := encoded + elementEncoded;
            i := i + 1;
          }
          assert items[..i] == items;
        }
    }
  }
}
