/**
 * The concrete frames of the codec's unit tests (tests/parse_test.cpp),
 * stated over the model: what findSeparator, parseMessage and encode give
 * for each of them.
 */
module ProtocolExamples {
  import opened Wrappers
  import opened ByteStrings
  import opened RedisType
  import opened Decimal
  import opened Protocol
  import opened ProtocolProperties

  lemma FindSeparatorExamples()
    ensures FindSeparator(Ascii("AB\r\nCD")) == Some(2)
    ensures FindSeparator(Ascii("ABCD")) == None
    ensures FindSeparator(Ascii("A\r\nB\r\nC")) == Some(1)
    ensures FindSeparator([]) == None
    ensures FindSeparator(Ascii("ABC\r\n")) == Some(3)
  {
    SeparatorIs(Ascii("AB\r\nCD"), 2);
    SeparatorIs(Ascii("A\r\nB\r\nC"), 1);
    SeparatorIs(Ascii("ABC\r\n"), 3);
    assert NoCrlf(Ascii("ABCD"));
  }

  lemma ExtractStringFromBytesExample()
    ensures ExtractStringFromBytes(Ascii("Hello World"), 0, 5) == Ascii("Hello")
  {
  }

  lemma ParseSimpleStringExample()
    ensures Parse(Ascii("+OK\r\n")) == Parsed(SimpleString(Ascii("OK")), 5)
  {
    assert Ascii("+OK\r\n") == Encode(SimpleString(Ascii("OK"))) + [];
    RoundTrip(SimpleString(Ascii("OK")), []);
  }

  lemma ParseSimpleStringExtraDataExample()
    ensures Parse(Ascii("+OK\r\nhello")) == Parsed(SimpleString(Ascii("OK")), 5)
  {
    assert Ascii("+OK\r\nhello") == Encode(SimpleString(Ascii("OK"))) + Ascii("hello");
    RoundTrip(SimpleString(Ascii("OK")), Ascii("hello"));
  }

  lemma ParseSimpleErrorExample()
    ensures Parse(Ascii("-Error\r\n")) == Parsed(SimpleError(Ascii("Error")), 8)
  {
    assert Ascii("-Error\r\n") == Encode(SimpleError(Ascii("Error"))) + [];
    RoundTrip(SimpleError(Ascii("Error")), []);
  }

  lemma ParseIntegerExample()
    ensures Parse(Ascii(":124\r\n")) == Parsed(Integer(124), 6)
  {
    Decimal124();
    assert Ascii(":124\r\n") == Encode(Integer(124)) + [];
    RoundTrip(Integer(124), []);
  }

  lemma ParseNegativeIntegerExample()
    ensures Parse(Ascii(":-124\r\n")) == Parsed(Integer(-124), 7)
  {
    Decimal124();
    assert Ascii(":-124\r\n") == Encode(Integer(-124)) + [];
    RoundTrip(Integer(-124), []);
  }

  lemma ParseNullBulkStringExample()
    ensures Parse(Ascii("$-1\r\n")) == Parsed(BulkString(None), 5)
  {
    LiteralHeaders();
    assert Ascii("$-1\r\n") == Encode(BulkString(None)) + [];
    RoundTrip(BulkString(None), []);
  }

  lemma ParseEmptyBulkStringExample()
    ensures Parse(Ascii("$0\r\n\r\n")) == Parsed(BulkString(Some([])), 6)
  {
    LiteralHeaders();
    assert Ascii("$0\r\n\r\n") == Encode(BulkString(Some([]))) + [];
    RoundTrip(BulkString(Some([])), []);
  }

  lemma EncodeHelloWorld()
    ensures Encode(BulkString(Some(Ascii("Hello World")))) == Ascii("$11\r\nHello World\r\n")
  {
    var data := Ascii("Hello World");
    assert Encode(BulkString(Some(data))) == Ascii("$11\r\n") + data + CRLF by {
      BulkEncoding(data);
      assert ToDecimal(11) == Ascii("11");
    }
    assert Ascii("$11\r\nHello World\r\n") == Ascii("$11\r\n") + data + Ascii("\r\n") by {
      assert "$11\r\nHello World\r\n" == "$11\r\n" + "Hello World" + "\r\n";
      AsciiConcat("$11\r\n" + "Hello World", "\r\n");
      AsciiConcat("$11\r\n", "Hello World");
    }
  }

  lemma ParseBulkStringExample()
    ensures Parse(Ascii("$11\r\nHello World\r\n")) == Parsed(BulkString(Some(Ascii("Hello World"))), 18)
  {
    var hello := BulkString(Some(Ascii("Hello World")));
    EncodeHelloWorld();
    assert Encode(hello) + [] == Encode(hello);
    RoundTrip(hello, []);
  }

  lemma EncodeOkAnd123()
    ensures Encode(Array(Elements([SimpleString(Ascii("OK")), Integer(123)]))) == Ascii("*2\r\n+OK\r\n:123\r\n")
  {
    var items := [SimpleString(Ascii("OK")), Integer(123)];
    ArrayEncoding(items);
    EncodeOkAnd123Elements();
    ArrayHeader2();
    assert Ascii("*2\r\n+OK\r\n:123\r\n") == Ascii("*2\r\n") + Ascii("+OK\r\n") + Ascii(":123\r\n") by {
      assert "*2\r\n+OK\r\n:123\r\n" == "*2\r\n" + "+OK\r\n" + ":123\r\n";
      AsciiConcat("*2\r\n" + "+OK\r\n", ":123\r\n");
      AsciiConcat("*2\r\n", "+OK\r\n");
    }
  }

  lemma EncodeOkAnd123Elements()
    ensures EncodeAll([SimpleString(Ascii("OK")), Integer(123)]) == Ascii("+OK\r\n") + Ascii(":123\r\n")
  {
    var items := [SimpleString(Ascii("OK")), Integer(123)];
    Decimal123();
    assert EncodeAll(items[1..]) == Ascii(":123\r\n") by {
      assert EncodeAll(items[1..][1..]) == [];
    }
  }

  lemma ArrayHeader2()
    ensures [STAR] + ToDecimal(2) + CRLF == Ascii("*2\r\n")
  {
    assert ToDecimal(2) == Ascii("2");
  }

  lemma ParseArrayExample()
    ensures Parse(Ascii("*2\r\n+OK\r\n:123\r\n"))
         == Parsed(Array(Elements([SimpleString(Ascii("OK")), Integer(123)])), 15)
  {
    var items := [SimpleString(Ascii("OK")), Integer(123)];
    EncodeOkAnd123();
    assert Encode(Array(Elements(items))) + [] == Encode(Array(Elements(items)));
    assert Encodable(items[0]) && Encodable(items[1]);
    RoundTrip(Array(Elements(items)), []);
  }

  /** The four elements of the array test. */
  function ArrayTestItems(): seq<RedisValue> {
    [SimpleString(Ascii("simple1")), BulkString(Some(Ascii("bulk1"))),
     Integer(123), SimpleError(Ascii("error1"))]
  }

  /** Each element of the array test, written alone. */
  lemma EncodeArrayTestItems()
    ensures Encode(ArrayTestItems()[0]) == Ascii("+simple1\r\n")
    ensures Encode(ArrayTestItems()[1]) == Ascii("$5\r\nbulk1\r\n")
    ensures Encode(ArrayTestItems()[2]) == Ascii(":123\r\n")
    ensures Encode(ArrayTestItems()[3]) == Ascii("-error1\r\n")
  {
    Decimal123();
    assert ToDecimal(5) == Ascii("5");
  }

  /** The frame of the test, written element by element. */
  lemma EncodeArrayExample()
    ensures Encode(Array(Elements(ArrayTestItems())))
         == Ascii("*4\r\n") + Ascii("+simple1\r\n") + Ascii("$5\r\nbulk1\r\n") + Ascii(":123\r\n") + Ascii("-error1\r\n")
  {
    var e0 := Ascii("+simple1\r\n");
    var e1 := Ascii("$5\r\nbulk1\r\n");
    var e2 := Ascii(":123\r\n");
    var e3 := Ascii("-error1\r\n");
    EncodeAllArrayTestItems();
    ArrayHeader4();
    var header := Ascii("*4\r\n");
    FramedArray(ArrayTestItems(), header, e0 + e1 + e2 + e3);
    AppendAssociates(header, e0 + e1 + e2, e3);
    AppendAssociates(header, e0 + e1, e2);
    AppendAssociates(header, e0, e1);
  }

  /** An array frame is its header followed by the encodings of its items. */
  lemma FramedArray(items: seq<RedisValue>, header: Bytes, body: Bytes)
    requires |items| > 0 && header == [STAR] + ToDecimal(|items|) + CRLF && body == EncodeAll(items)
    ensures Encode(Array(Elements(items))) == header + body
  {
    ArrayEncoding(items);
  }

  lemma ArrayHeader4()
    ensures [STAR] + ToDecimal(4) + CRLF == Ascii("*4\r\n")
  {
    assert ToDecimal(4) == Ascii("4");
  }

  lemma EncodeAllArrayTestItems()
    ensures EncodeAll(ArrayTestItems())
         == Ascii("+simple1\r\n") + Ascii("$5\r\nbulk1\r\n") + Ascii(":123\r\n") + Ascii("-error1\r\n")
  {
    var items := ArrayTestItems();
    EncodeArrayTestItems();
    var e0 := Ascii("+simple1\r\n");
    var e1 := Ascii("$5\r\nbulk1\r\n");
    var e2 := Ascii(":123\r\n");
    var e3 := Ascii("-error1\r\n");
    assert EncodeAll(items[3..]) == e3 by {
      assert items[3..][1..] == [];
    }
    assert EncodeAll(items[2..]) == e2 + e3 by {
      assert items[2..][1..] == items[3..];
    }
    assert EncodeAll(items[1..]) == e1 + (e2 + e3) by {
      assert items[1..][1..] == items[2..];
    }
    assert EncodeAll(items) == e0 + (e1 + (e2 + e3));
  }

  lemma EncodeSimpleStringExample()
    ensures Encode(SimpleString(Ascii("Hello"))) == Ascii("+Hello\r\n")
  {
  }

  lemma EncodeIntegerExample()
    ensures Encode(Integer(42)) == Ascii(":42\r\n")
  {
    assert ToDecimal(42) == Ascii("42");
  }

  lemma EncodeSimpleErrorExample()
    ensures Encode(SimpleError(Ascii("Error message"))) == Ascii("-Error message\r\n")
  {
    assert Ascii("-Error message\r\n") == Ascii("-") + Ascii("Error message") + Ascii("\r\n") by {
      assert "-Error message\r\n" == "-" + "Error message" + "\r\n";
      AsciiConcat("-" + "Error message", "\r\n");
      AsciiConcat("-", "Error message");
    }
    assert Ascii("-") == [MINUS] && Ascii("\r\n") == CRLF;
  }

  lemma EncodeBulkStringExample()
    ensures Encode(BulkString(Some(Ascii("Hello, World!"))))
         == Ascii("$13\r\n") + Ascii("Hello, World!") + Ascii("\r\n")
  {
    var data := Ascii("Hello, World!");
    BulkEncoding(data);
    assert ToDecimal(13) == Ascii("13");
  }

  lemma Decimal123()
    ensures ToDecimal(123) == Ascii("123")
  {
    assert Digits(12) == Digits(1) + [(ZERO as int + 2) as byte];
  }

  lemma Decimal124()
    ensures ToDecimal(124) == Ascii("124") && ToDecimal(-124) == Ascii("-124")
  {
    assert Digits(12) == Digits(1) + [(ZERO as int + 2) as byte];
    assert Digits(124) == Digits(12) + [(ZERO as int + 4) as byte];
  }

  /** Headers std::stoll and std::stoi cannot convert: a non-numeric
      integer payload, a non-numeric bulk length and an empty array length
      all throw std::invalid_argument. */
  lemma ThrownExamples()
    ensures Parse(Ascii(":abc\r\n")) == Thrown(InvalidArgument)
    ensures Parse(Ascii("$abc\r\n")) == Thrown(InvalidArgument)
    ensures Parse(Ascii("*\r\n")) == Thrown(InvalidArgument)
  {
    var abc := Ascii("abc");
    NoDigitIsInvalidArgument([], [], abc, INT64_MIN, INT64_MAX);
    NoDigitIsInvalidArgument([], [], abc, INT_MIN, INT_MAX);
    NoDigitIsInvalidArgument([], [], [], INT_MIN, INT_MAX);
    assert NoCrlf(abc);
    assert Ascii(":abc\r\n") == [COLON] + abc + CRLF + [];
    assert Ascii("$abc\r\n") == [DOLLAR] + abc + CRLF + [];
    assert Ascii("*\r\n") == [STAR] + [] + CRLF + [];
    HeaderThrows(COLON, abc, [], InvalidArgument);
    HeaderThrows(DOLLAR, abc, [], InvalidArgument);
    HeaderThrows(STAR, [], [], InvalidArgument);
  }
}
