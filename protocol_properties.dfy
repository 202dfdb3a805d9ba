/**
 * What parseMessage and encode of src/protocol.h promise about each other:
 * every value encode writes faithfully is read back whole by parseMessage,
 * whatever bytes follow it, and no strict prefix of an encoding is read as
 * a complete frame. The empty array is the exception: it is written with
 * the bytes of an empty bulk string.
 */
module ProtocolProperties {
  import opened Wrappers
  import opened ByteStrings
  import opened RedisType
  import opened Decimal
  import opened Protocol

  /** The values encode writes in a form parseMessage reads back: simple
      strings and errors without "\r\n", bulk strings and arrays whose length
      std::stoi can read, and arrays that are neither empty nor hold an
      element outside this set. */
  ghost predicate Encodable(v: RedisValue)
    decreases v
  {
    match v
    case SimpleString(s) => NoCrlf(s)
    case SimpleError(s) => NoCrlf(s)
    case Integer(_) => true
    case BulkString(data) => data.Some? ==> |data.value| <= INT_MAX
    case Array(NullArray) => true
    case Array(Elements(items)) =>
      0 < |items| <= INT_MAX && forall i | 0 <= i < |items| :: Encodable(items[i])
  }

  /** A parse outcome that is no complete frame inside the `available`
      bytes: no frame yet, a read past the end of the buffer, or a frame
      that claims more bytes than there are. */
  predicate Incomplete(r: ParseOutcome, available: nat) {
    || r.NoFrame?
    || r == Undefined(BulkPastEnd)
    || r == Undefined(ElementPastEnd)
    || (r.Parsed? && r.consumed > available)
  }

  lemma NoCrlfOfDecimal(n: int)
    ensures NoCrlf(ToDecimal(n))
  {
    var t := ToDecimal(n);
    forall i | 0 <= i < |t|
      ensures !CrlfAt(t, i)
    {
      assert IsDigit(t[i]) || t[i] == MINUS_SIGN;
    }
  }

  lemma NoCrlfAfterTag(tag: byte, text: Bytes)
    requires tag != CR && NoCrlf(text)
    ensures NoCrlf([tag] + text)
  {
    var t := [tag] + text;
    forall i | 0 <= i < |t|
      ensures !CrlfAt(t, i)
    {
      if i > 0 {
        assert CrlfAt(t, i) ==> CrlfAt(text, i - 1);
      }
    }
  }

  lemma SeparatorIs(buffer: Bytes, k: nat)
    requires CrlfAt(buffer, k)
    requires forall i | 0 <= i < k :: !CrlfAt(buffer, i)
    ensures FindSeparator(buffer) == Some(k)
  {
  }

  /** parseMessage finds no frame in a buffer without "\r\n", nor in one
      whose first byte is none of the five tags. */
  lemma NoFrameCases(buffer: Bytes)
    ensures NoCrlf(buffer) ==> Parse(buffer) == NoFrame
    ensures FindSeparator(buffer).Some? && FindSeparator(buffer).value > 0
            && buffer[0] !in {PLUS, MINUS, COLON, DOLLAR, STAR}
            ==> Parse(buffer) == NoFrame
  {
  }

  /** An array element that is not complete makes the whole array not
      complete: no partial array is returned. */
  lemma ElementNoFrame(buffer: Bytes, position: nat, remaining: int, done: seq<RedisValue>)
    requires remaining > 0 && position + 2 <= |buffer|
    requires Parse(buffer[position + 2..]) == NoFrame
    ensures ParseElements(buffer, position, remaining, done) == NoFrame
  {
  }

  /** A frame `tag text "\r\n" tail` whose text holds no "\r\n": the
      separator is the one after the text. */
  lemma HeaderFrame(tag: byte, text: Bytes, tail: Bytes)
    requires tag != CR && NoCrlf(text)
    ensures var b := [tag] + text + CRLF + tail;
      && FindSeparator(b) == Some(|text| + 1)
      && b[0] == tag
      && b[1..|text| + 1] == text
      && b[|text| + 3..] == tail
  {
    var head := [tag] + text;
    var b := [tag] + text + CRLF + tail;
    NoCrlfAfterTag(tag, text);
    assert b == head + CRLF + tail;
    forall i | 0 <= i < |head|
      ensures !CrlfAt(b, i)
    {
      if i + 1 < |head| {
        assert CrlfAt(b, i) ==> CrlfAt(head, i);
      } else {
        assert b[i + 1] == CR;
      }
    }
    SeparatorIs(b, |head|);
    assert b[1..|text| + 1] == text;
    assert b[|text| + 3..] == tail;
  }

  /** A `:`, `$` or `*` header whose text does not convert: parsing any
      buffer that begins with it throws the conversion's exception. */
  lemma HeaderThrows(tag: byte, text: Bytes, tail: Bytes, e: ConversionError)
    requires NoCrlf(text)
    requires || (tag == COLON && StoLL(text) == Failed(e))
             || ((tag == DOLLAR || tag == STAR) && StoI(text) == Failed(e))
    ensures Parse([tag] + text + CRLF + tail) == Thrown(e)
  {
    HeaderFrame(tag, text, tail);
    ParsesThrown([tag] + text + CRLF + tail, |text| + 1, e);
  }

  /** A bulk or array length beyond the int range throws
      std::out_of_range. */
  lemma LengthOutOfRangeThrows(tag: byte, n: int, tail: Bytes)
    requires tag == DOLLAR || tag == STAR
    requires n < INT_MIN || INT_MAX < n
    ensures Parse([tag] + ToDecimal(n) + CRLF + tail) == Thrown(OutOfRange)
  {
    NoCrlfOfDecimal(n);
    ToDecimalOutOfRange(n, INT_MIN, INT_MAX);
    HeaderThrows(tag, ToDecimal(n), tail, OutOfRange);
  }

  /** An integer payload beyond the int64 range throws std::out_of_range. */
  lemma IntegerOutOfRangeThrows(n: int, tail: Bytes)
    requires n < INT64_MIN || INT64_MAX < n
    ensures Parse([COLON] + ToDecimal(n) + CRLF + tail) == Thrown(OutOfRange)
  {
    NoCrlfOfDecimal(n);
    ToDecimalOutOfRange(n, INT64_MIN, INT64_MAX);
    HeaderThrows(COLON, ToDecimal(n), tail, OutOfRange);
  }

  /** The first `k` bytes of such a frame, when they stop before its "\n",
      hold no separator. */
  lemma HeaderPrefix(tag: byte, text: Bytes, tail: Bytes, k: nat)
    requires tag != CR && NoCrlf(text)
    requires k <= |text| + 2
    ensures NoCrlf(([tag] + text + CRLF + tail)[..k])
  {
    var head := [tag] + text;
    var b := [tag] + text + CRLF + tail;
    var p := b[..k];
    NoCrlfAfterTag(tag, text);
    forall i | 0 <= i < |p|
      ensures !CrlfAt(p, i)
    {
      if i + 1 < |head| {
        assert CrlfAt(p, i) ==> CrlfAt(head, i);
      } else if i + 1 < |p| {
        assert p[i + 1] == CR;
      }
    }
  }

  /** The literal headers encode writes for the null values and the empty
      bulk string are the decimal headers of -1 and 0. */
  lemma LiteralHeaders()
    ensures Ascii("$-1") == [DOLLAR] + ToDecimal(-1)
    ensures Ascii("*-1") == [STAR] + ToDecimal(-1)
    ensures Ascii("$0") == [DOLLAR] + ToDecimal(0)
  {
    assert ToDecimal(-1) == [MINUS_SIGN] + Digits(1);
  }

  /** encode writes a bulk string as its decimal length, "\r\n", its
      bytes and "\r\n"; the empty one with a literal of the same bytes. */
  lemma BulkEncoding(data: Bytes)
    ensures Encode(BulkString(Some(data))) == [DOLLAR] + ToDecimal(|data|) + CRLF + data + CRLF
  {
    LiteralHeaders();
  }

  /** encode writes the null bulk string and the null array with length -1. */
  lemma NullEncodings()
    ensures Encode(BulkString(None)) == [DOLLAR] + ToDecimal(-1) + CRLF
    ensures Encode(Array(NullArray)) == [STAR] + ToDecimal(-1) + CRLF
  {
    LiteralHeaders();
  }

  /** The layout of every encoding: a tag, a header without "\r\n", the
      separator, and a body. */
  lemma EncodeLayout(v: RedisValue) returns (tag: byte, text: Bytes, body: Bytes)
    requires Encodable(v)
    ensures Encode(v) == [tag] + text + CRLF + body
    ensures tag != CR && NoCrlf(text)
    ensures v.SimpleString? ==> tag == PLUS && text == v.text && body == []
    ensures v.SimpleError? ==> tag == MINUS && text == v.message && body == []
    ensures v.Integer? ==> tag == COLON && text == ToDecimal(v.number) && body == []
    ensures v == BulkString(None) ==> tag == DOLLAR && text == ToDecimal(-1) && body == []
    ensures v.BulkString? && v.bytes.Some? ==>
      tag == DOLLAR && text == ToDecimal(|v.bytes.value|) && body == v.bytes.value + CRLF
    ensures v == Array(NullArray) ==> tag == STAR && text == ToDecimal(-1) && body == []
    ensures v.Array? && v.elements.Elements? ==>
      tag == STAR && text == ToDecimal(|v.elements.items|) && body == EncodeAll(v.elements.items)
  {
    LiteralHeaders();
    match v
    case SimpleString(s) =>
      tag, text, body := PLUS, s, [];
    case SimpleError(s) =>
      tag, text, body := MINUS, s, [];
    case Integer(n) =>
      NoCrlfOfDecimal(n);
      tag, text, body := COLON, ToDecimal(n), [];
    case BulkString(None) =>
      NoCrlfOfDecimal(-1);
      tag, text, body := DOLLAR, ToDecimal(-1), [];
    case BulkString(Some(data)) =>
      NoCrlfOfDecimal(|data|);
      tag, text, body := DOLLAR, ToDecimal(|data|), data + CRLF;
    case Array(NullArray) =>
      NoCrlfOfDecimal(-1);
      tag, text, body := STAR, ToDecimal(-1), [];
    case Array(Elements(items)) =>
      NoCrlfOfDecimal(|items|);
      tag, text, body := STAR, ToDecimal(|items|), EncodeAll(items);
  }

  /** Round trip: parseMessage reads back every value encode writes, with
      exactly the bytes of its encoding consumed, whatever follows it. */
  lemma RoundTrip(v: RedisValue, rest: Bytes)
    requires Encodable(v)
    ensures Parse(Encode(v) + rest) == Parsed(v, |Encode(v)|)
  {
    assert StartsWith(Encode(v) + rest, Encode(v));
    ReadsBack(v, Encode(v) + rest);
  }

  /** parseMessage reads `v` from every buffer that begins with its
      encoding. */
  lemma {:induction false} ReadsBack(v: RedisValue, buffer: Bytes)
    requires Encodable(v) && StartsWith(buffer, Encode(v))
    ensures Parse(buffer) == Parsed(v, |Encode(v)|)
    decreases v, 2
  {
    if v.Array? && v.elements.Elements? {
      ArrayReadsBack(v.elements.items, buffer);
    } else {
      FlatReadsBack(v, buffer);
    }
  }

  /** ReadsBack for an array of elements. */
  lemma ArrayReadsBack(items: seq<RedisValue>, buffer: Bytes)
    requires 0 < |items| <= INT_MAX && forall i | 0 <= i < |items| :: Encodable(items[i])
    requires StartsWith(buffer, Encode(Array(Elements(items))))
    ensures Parse(buffer) == Parsed(Array(Elements(items)), |Encode(Array(Elements(items)))|)
    decreases Array(Elements(items)), 1
  {
    var text := ToDecimal(|items|);
    ArrayEncoding(items);
    NoCrlfOfDecimal(|items|);
    HeaderOf(buffer, STAR, text, EncodeAll(items));
    StoIOfToDecimal(|items|);
    ParsesArray(buffer, |text| + 1, |items|);
    ElementsReadBack(buffer, |text| + 1, items, [], |items|);
    assert [] + items == items;
  }

  /** encode writes a non-empty array as its decimal length, "\r\n" and the
      encodings of its elements. */
  lemma ArrayEncoding(items: seq<RedisValue>)
    requires |items| > 0
    ensures Encode(Array(Elements(items))) == [STAR] + ToDecimal(|items|) + CRLF + EncodeAll(items)
  {
  }

  /** ReadsBack for the values that hold no further values. */
  lemma FlatReadsBack(v: RedisValue, buffer: Bytes)
    requires Encodable(v) && !(v.Array? && v.elements.Elements?)
    requires StartsWith(buffer, Encode(v))
    ensures Parse(buffer) == Parsed(v, |Encode(v)|)
  {
    if v.SimpleString? || v.SimpleError? || v.Integer? {
      ScalarReadsBack(v, buffer);
    } else {
      BulkOrNullReadsBack(v, buffer);
    }
  }

  lemma ScalarReadsBack(v: RedisValue, buffer: Bytes)
    requires Encodable(v) && (v.SimpleString? || v.SimpleError? || v.Integer?)
    requires StartsWith(buffer, Encode(v))
    ensures Parse(buffer) == Parsed(v, |Encode(v)|)
  {
    match v
    case SimpleString(s) =>
      HeaderOf(buffer, PLUS, s, []);
      ParsesSimpleString(buffer, |s| + 1);
    case SimpleError(s) =>
      HeaderOf(buffer, MINUS, s, []);
      ParsesSimpleError(buffer, |s| + 1);
    case Integer(n) =>
      NoCrlfOfDecimal(n);
      HeaderOf(buffer, COLON, ToDecimal(n), []);
      StoLLOfToDecimal(n);
      ParsesInteger(buffer, |ToDecimal(n)| + 1, n);
  }

  lemma BulkOrNullReadsBack(v: RedisValue, buffer: Bytes)
    requires Encodable(v) && (v.BulkString? || v == Array(NullArray))
    requires StartsWith(buffer, Encode(v))
    ensures Parse(buffer) == Parsed(v, |Encode(v)|)
  {
    if v.BulkString? && v.bytes.Some? {
      BulkReadsBack(v.bytes.value, buffer);
    } else {
      NullEncodings();
      NoCrlfOfDecimal(-1);
      StoIOfToDecimal(-1);
      if v.BulkString? {
        HeaderOf(buffer, DOLLAR, ToDecimal(-1), []);
        ParsesNullBulkString(buffer, |ToDecimal(-1)| + 1);
      } else {
        HeaderOf(buffer, STAR, ToDecimal(-1), []);
        ParsesArray(buffer, |ToDecimal(-1)| + 1, -1);
      }
    }
  }

  lemma BulkReadsBack(data: Bytes, buffer: Bytes)
    requires |data| <= INT_MAX
    requires StartsWith(buffer, Encode(BulkString(Some(data))))
    ensures Parse(buffer) == Parsed(BulkString(Some(data)), |Encode(BulkString(Some(data)))|)
  {
    var text := ToDecimal(|data|);
    BulkEncoding(data);
    NoCrlfOfDecimal(|data|);
    HeaderOf(buffer, DOLLAR, text, data + CRLF);
    StoIOfToDecimal(|data|);
    var separator := |text| + 1;
    var start := separator + 2;
    StartsWithConcatenation(buffer[start..], data, CRLF);
    assert buffer[start..start + |data|] == buffer[start..][..|data|] == data;
    ParsesBulkString(buffer, separator, |data|, data, |Encode(BulkString(Some(data)))|);
  }

  /** What a buffer that begins with a frame `tag text "\r\n" body` shows
      parseMessage. */
  lemma HeaderOf(buffer: Bytes, tag: byte, text: Bytes, body: Bytes)
    requires tag != CR && NoCrlf(text)
    requires StartsWith(buffer, [tag] + text + CRLF + body)
    ensures FindSeparator(buffer) == Some(|text| + 1) && |text| + 1 > 0
    ensures buffer[0] == tag && buffer[1..|text| + 1] == text
    ensures StartsWith(buffer[|text| + 3..], body)
  {
    var tail := buffer[|text| + 3..];
    StartsWithConcatenation(buffer, [tag] + text + CRLF, body);
    assert buffer == [tag] + text + CRLF + tail;
    HeaderFrame(tag, text, tail);
  }

  /** The encodings of `items`, each of them encodable, start two bytes
      after `position` (where the element loop looks for the next one). */
  ghost predicate ElementsFrom(buffer: Bytes, position: nat, items: seq<RedisValue>) {
    && position + 2 <= |buffer| && StartsWith(buffer[position + 2..], EncodeAll(items))
    && forall i | 0 <= i < |items| :: Encodable(items[i])
  }

  /** The element loop from `position`, with `remaining` elements to go,
      appends `items` to `done` and stops right after their encodings. */
  predicate ReadsElements(buffer: Bytes, position: nat, remaining: int, done: seq<RedisValue>, items: seq<RedisValue>) {
    ParseElements(buffer, position, remaining, done)
      == Parsed(Array(Elements(done + items)), position + 2 + |EncodeAll(items)|)
  }

  /** The element loop reads back the encodings of `items` one after the
      other. */
  lemma {:induction false} ElementsReadBack(buffer: Bytes, position: nat, items: seq<RedisValue>, done: seq<RedisValue>, remaining: int)
    requires ElementsFrom(buffer, position, items) && remaining == |items|
    ensures ReadsElements(buffer, position, remaining, done, items)
    decreases items, 2
  {
    if |items| == 0 {
      NoElementsLeft(buffer, position, items, done, remaining);
    } else {
      var first, length := ElementReadBack(buffer, position, items);
      ElementsReadBack(buffer, position + length, items[1..], done + [first], remaining - 1);
      ElementsReadOn(buffer, position, items, done, remaining, first, length);
    }
  }

  /** The element loop with no element left to read. */
  lemma NoElementsLeft(buffer: Bytes, position: nat, items: seq<RedisValue>, done: seq<RedisValue>, remaining: int)
    requires |items| == 0 && remaining == 0
    ensures ReadsElements(buffer, position, remaining, done, items)
  {
    assert done + items == done;
  }

  /** The first of the elements laid out from `position` is read back, and
      the others follow it. */
  lemma ElementReadBack(buffer: Bytes, position: nat, items: seq<RedisValue>) returns (first: RedisValue, length: nat)
    requires ElementsFrom(buffer, position, items) && |items| > 0
    ensures first == items[0] && length == |Encode(first)| && ElementAt(buffer, position, first, length)
    ensures ElementsFrom(buffer, position + length, items[1..])
    decreases items, 1
  {
    first := items[0];
    length := |Encode(first)|;
    ElementBytes(buffer, position, items, length);
    FirstElementReadsBack(buffer, position, items, first, length);
  }

  /** The first of the elements written out after `position` is read
      back. */
  lemma FirstElementReadsBack(buffer: Bytes, position: nat, xs: seq<RedisValue>, first: RedisValue, length: nat)
    requires position + 2 <= |buffer| && StartsWith(buffer[position + 2..], EncodeAll(xs))
    requires |xs| > 0 && first == xs[0] && Encodable(first) && length == |Encode(first)|
    ensures ElementAt(buffer, position, first, length)
    decreases xs, 0
  {
    var sub := buffer[position + 2..];
    assert StartsWith(sub, Encode(first)) by {
      assert EncodeAll(xs) == Encode(first) + EncodeAll(xs[1..]);
      StartsWithConcatenation(sub, Encode(first), EncodeAll(xs[1..]));
    }
    ReadsBack(first, sub);
  }

  /** The bytes after the first of the elements `xs` begin with the others. */
  lemma ElementBytes(buffer: Bytes, position: nat, xs: seq<RedisValue>, length: nat)
    requires position + 2 <= |buffer| && |xs| > 0
    requires StartsWith(buffer[position + 2..], EncodeAll(xs))
    requires forall i | 0 <= i < |xs| :: Encodable(xs[i])
    requires length == |Encode(xs[0])|
    ensures position + length + 2 <= |buffer| && StartsWith(buffer[position + length + 2..], EncodeAll(xs[1..]))
    ensures position + length + |EncodeAll(xs[1..])| == position + |EncodeAll(xs)|
    ensures forall i | 0 <= i < |xs[1..]| :: Encodable(xs[1..][i])
  {
    var first := Encode(xs[0]);
    var sub := buffer[position + 2..];
    assert EncodeAll(xs) == first + EncodeAll(xs[1..]);
    StartsWithConcatenation(sub, first, EncodeAll(xs[1..]));
    assert buffer[position + |first| + 2..] == sub[|first|..];
  }

  /** The element loop reads `items` once it reads their first element and
      then the rest. */
  lemma ElementsReadOn(buffer: Bytes, position: nat, items: seq<RedisValue>, done: seq<RedisValue>, remaining: int,
                       first: RedisValue, length: nat)
    requires |items| > 0 && first == items[0] && length == |Encode(first)|
    requires remaining > 0 && ElementAt(buffer, position, first, length)
    requires ReadsElements(buffer, position + length, remaining - 1, done + [first], items[1..])
    ensures ReadsElements(buffer, position, remaining, done, items)
  {
    ParseElementsStep(buffer, position, remaining, done, first, length, position + length, remaining - 1);
    AppendHeadAndTail(done, items);
    assert |EncodeAll(items)| == |Encode(first)| + |EncodeAll(items[1..])|;
  }

  lemma AppendHeadAndTail<T>(done: seq<T>, items: seq<T>)
    requires |items| > 0
    ensures done + [items[0]] + items[1..] == done + items
  {
  }

  /** The empty array is written as an empty bulk string, and read back as
      one: it is the value the round trip leaves out. */
  lemma EmptyArrayReadsBackAsBulkString()
    ensures Encode(Array(Elements([]))) == Encode(BulkString(Some([])))
    ensures Parse(Encode(Array(Elements([])))) == Parsed(BulkString(Some([])), 6)
    ensures Parse(Encode(Array(Elements([])))).value != Array(Elements([]))
  {
    LiteralHeaders();
    assert StartsWith(Encode(BulkString(Some([]))), Encode(BulkString(Some([]))));
    ReadsBack(BulkString(Some([])), Encode(BulkString(Some([]))));
  }

  /** An element loop whose next element would start past the end of the
      buffer is no complete frame. */
  lemma ElementsPastEnd(buffer: Bytes, position: nat, remaining: int, done: seq<RedisValue>)
    requires position + 2 > |buffer|
    ensures Incomplete(ParseElements(buffer, position, remaining, done), |buffer|)
  {
  }

  /** No strict prefix of an encoding is read as a complete frame: the parse
      waits for more bytes, is undefined, or claims more bytes than there are. */
  lemma {:induction false} PrefixIsIncomplete(v: RedisValue, prefix: Bytes)
    requires Encodable(v)
    requires |prefix| < |Encode(v)| && StartsWith(Encode(v), prefix)
    ensures Incomplete(Parse(prefix), |prefix|)
    decreases v, 2
  {
    var tag, text, body := EncodeLayout(v);
    var k := |prefix|;
    if k <= |text| + 2 {
      assert prefix == ([tag] + text + CRLF + body)[..k];
      HeaderPrefix(tag, text, body, k);
      return;
    }
    var tail := prefix[|text| + 3..];
    StartsWithConcatenation(prefix, [tag] + text + CRLF, body);
    assert prefix == [tag] + text + CRLF + tail;
    HeaderFrame(tag, text, tail);
    var separator := |text| + 1;
    if v.BulkString? {
      var data := v.bytes.value;
      StoIOfToDecimal(|data|);
      if separator + 2 + |data| <= k {
        ParsesBulkString(prefix, separator, |data|, prefix[separator + 2..separator + 2 + |data|], separator + |data| + 4);
      } else {
        ParsesBulkPastEnd(prefix, separator, |data|);
      }
    } else {
      var items := v.elements.items;
      StoIOfToDecimal(|items|);
      ParsesArray(prefix, separator, |items|);
      ElementsPrefix(prefix, separator, items, []);
    }
  }

  /** The element loop over a strict prefix of the encodings of `items`. */
  lemma {:induction false} ElementsPrefix(buffer: Bytes, position: nat, items: seq<RedisValue>, done: seq<RedisValue>)
    requires position + 2 <= |buffer|
    requires |buffer| - (position + 2) < |EncodeAll(items)|
    requires StartsWith(EncodeAll(items), buffer[position + 2..])
    requires forall i | 0 <= i < |items| :: Encodable(items[i])
    ensures Incomplete(ParseElements(buffer, position, |items|, done), |buffer|)
    decreases items, 1
  {
    var available := buffer[position + 2..];
    assert |items| > 0;
    var first := Encode(items[0]);
    assert EncodeAll(items) == first + EncodeAll(items[1..]);
    StartsWithConcatenation(available, first, EncodeAll(items[1..]));
    if |available| < |first| {
      FirstElementPrefix(buffer, position, items, done);
    } else {
      ReadsBack(items[0], available);
      ParseElementsStep(buffer, position, |items|, done, items[0], |first|, position + |first|, |items| - 1);
      assert buffer[position + |first| + 2..] == available[|first|..];
      ElementsPrefix(buffer, position + |first|, items[1..], done + [items[0]]);
    }
  }

  /** The element loop when the buffer ends inside the next element. */
  lemma FirstElementPrefix(buffer: Bytes, position: nat, items: seq<RedisValue>, done: seq<RedisValue>)
    requires position + 2 <= |buffer| && |items| > 0
    requires |buffer| - (position + 2) < |Encode(items[0])|
    requires StartsWith(Encode(items[0]), buffer[position + 2..])
    requires Encodable(items[0])
    ensures Incomplete(ParseElements(buffer, position, |items|, done), |buffer|)
    decreases items, 0
  {
    var available := buffer[position + 2..];
    PrefixIsIncomplete(items[0], available);
    var r := Parse(available);
    if r.Parsed? {
      ParseElementsStep(buffer, position, |items|, done, r.value, r.consumed, position + r.consumed, |items| - 1);
      ElementsPastEnd(buffer, position + r.consumed, |items| - 1, done + [r.value]);
    }
  }

  /** The element loop from `position` ends reading past the end of the
      buffer. */
  predicate ElementsCut(buffer: Bytes, position: nat, remaining: int, done: seq<RedisValue>) {
    ParseElements(buffer, position, remaining, done) == Undefined(BulkPastEnd)
  }
}
