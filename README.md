# cpp-redis-clone core, modelled in Dafny

This project models the core of a small Redis-compatible key-value server written in C++:

- **The RESP2 frame codec.** `parseMessage` reads one frame from the front of a byte buffer and reports how many bytes it used. `encode` writes a value as a frame. The codec lives in `src/protocol.h`. Two more copies of the parser exist: `src/parse.h`, which the unit tests include, and the older scalar-only `parse.h` at the repository root, which the demonstration program `main.cpp` calls. The five value kinds of `src/redis_type.h` are one recursive datatype.
- **The key-value store** (`src/datastore.h`, `src/datastore.cpp`). Keys map to a value and an optional expiry instant. It has:
  - lazy expiry on `get`;
  - `set`, `setWithExpiry`, `exists` and `count`;
  - a sampling sweep, `removeExpiredKeys`, over at most 20 randomly chosen keys.
  The two files hold two versions of that sweep. The header's version visits the whole sample. The `.cpp` version breaks off once a quarter of the sample is deleted. Both are modelled.
- **Command dispatch** in `src/controller.cpp`: `handleCommand` and `handleEcho`.
- **Write-ahead-log replay** (`restoreFromFile` in `src/persister.cpp`):
  - the log is read in 2048-byte chunks, and each chunk is appended to a buffer;
  - the buffer is drained frame by frame;
  - every non-null array of bulk strings is handed to the controller's `handleSet`.

Each module pairs a specification with an implementation:

- A function of the inputs is the specification: `Parse`, `Encode`, `DrainBuffer`, `ReplayFrom` and `SweepUntilQuarter`.
- The source's loops are methods proved to compute it: `ParseMessage`, `ParseArray`, `EncodeMessage`, `RestoreFromFile`, and the `DataStore` class methods.
- Lemmas state what the source promises about the specification: the parse/encode round trip, behaviour on partial input, what the sweep deletes, and that replay hands over every logged command in order.

In the codec and the log replay, behaviour the C++ leaves undefined is kept as an explicit outcome, not assumed away. Examples: a read past the end of a vector, and `separator - 1` wrapping around when a buffer starts with `"\r\n"`. The same goes for the exceptions `std::stoi` and `std::stoll` throw. Two undefined cases in the controller are listed under "Left out".

Modules:

- `ByteStrings`: bytes, `int64`, `"\r\n"`.
- `Decimal`: `std::to_string`, `std::stoi` and `std::stoll`.
- `RedisType`.
- `Protocol`, `ProtocolProperties` and `ProtocolExamples`: the codec, its properties, and the codec unit tests as lemmas.
- `SrcParse`: `src/parse.h`.
- `LegacyParse`: the root `parse.h` and `main.cpp`.
- `Controller`.
- `DataStore` and `DataStoreExamples`.
- `Persister`.
- `ReplayChunking`: replay of frames that straddle a 2048-byte read.

## Model

| member | source | states |
|---|---|---|
| `RedisType.DefaultBulkString` | src/redis_type.h:22 | The default-constructed bulk string is the null bulk string. |
| `RedisType.BulkStringOf` | src/redis_type.h:24 | A bulk string built from a std::string is non-null and holds exactly its bytes, also when the string is empty. |
| `RedisType.NullArrayIsNotEmpty` | src/redis_type.h:38-40 | The null array and the empty array are different values. |
| `Decimal.ToDecimal` | src/protocol.h:104 | `std::to_string` writes only digits, with a leading minus sign for a negative number, and never writes nothing. |
| `Decimal.StoI` | src/protocol.h:50 | `std::stoi` either converts to a value in the 32-bit int range or fails. Which value it gives and when it fails are stated by `Decimal.NoDigitIsInvalidArgument` and `Decimal.DigitRunConversion`. |
| `Decimal.StoLL` | src/protocol.h:46 | `std::stoll` either converts to a value in the int64 range or fails. Which value it gives and when it fails are stated by the same two lemmas. |
| `Decimal.NoDigitIsInvalidArgument` | src/protocol.h:46 | When no digit follows the leading white space and the optional sign, the conversion throws `std::invalid_argument`, whatever comes after. |
| `Decimal.DigitRunConversion` | src/protocol.h:50 | A digit run after the leading white space and the optional sign converts to its signed value when that value lies in the target range. Outside the range it throws `std::out_of_range`. Whatever follows the run is ignored. |
| `Decimal.ToDecimalOutOfRange` | src/protocol.h:60 | A number outside the target range, written in decimal, throws `std::out_of_range` when read back. |
| `Decimal.ToDecimalRoundTrip` | src/protocol.h:117 | The strtol-style conversion reads back what `std::to_string` wrote, for every number in the target range. |
| `Decimal.StoIOfToDecimal` | src/protocol.h:60 | `std::stoi` reads back every length header `encode` writes. |
| `Decimal.StoLLOfToDecimal` | src/protocol.h:45-48 | `std::stoll` reads back every integer payload `encode` writes. |
| `Protocol.SearchCrlf` | src/protocol.h:17 | `std::search` for `"\r\n"` from a position returns the first occurrence at or after it, or none when there is none. |
| `Protocol.FindSeparator` | src/protocol.h:16-19 | The result is the first `"\r\n"` of the buffer. The result is npos exactly when the buffer holds no `"\r\n"`. |
| `Protocol.ExtractStringFromBytes` | src/protocol.h:21-24 | The result has `length` bytes, which are the buffer's bytes from `start` on. |
| `Protocol.StringToByteVector` | src/protocol.h:26 | A string's conversion to a byte vector holds the same bytes in the same order. |
| `Protocol.ExtractOfStringToByteVector` | src/protocol.h:21-26 | Reading all bytes of a converted string back gives the string. |
| `Protocol.Parse` | src/protocol.h:28-88 | `parseMessage` as a function of the buffer. A frame always consumes at least its two-byte separator. |
| `Protocol.ParseElements` | src/protocol.h:68-83 | The array element loop. A parsed array consumes everything up to and including the separator after its last element. |
| `Protocol.ParsesSimpleString` | src/protocol.h:37-40 | A `+` frame is the simple string between the tag and the first `"\r\n"`, consuming up to and including that separator. |
| `Protocol.ParsesSimpleError` | src/protocol.h:41-44 | A `-` frame is the simple error between the tag and the first `"\r\n"`, consuming up to and including that separator. |
| `Protocol.ParsesInteger` | src/protocol.h:45-48 | A `:` frame whose payload `std::stoll` converts is that integer, consuming up to and including the separator. |
| `Protocol.ParsesNullBulkString` | src/protocol.h:52 | A bulk header of length -1 is the null bulk string, and always reports 5 bytes consumed. |
| `Protocol.ParsesBulkString` | src/protocol.h:54-57 | A bulk header of length n followed by at least n bytes is the bulk string of those n bytes, consuming n + 2 bytes past the separator. |
| `Protocol.ParsesBulkPastEnd` | src/protocol.h:54-57 | A bulk header whose payload runs past the end of the buffer is undefined: the copy reads past the end of the vector. |
| `Protocol.ParsesArray` | src/protocol.h:59-84 | An array header of -1 gives the null array. A header of 0, or of a negative length other than -1, gives the empty array. A positive length runs the element loop. |
| `Protocol.ParsesThrown` | src/protocol.h:45-61 | A `:` header that `std::stoll` cannot convert, or a `$` or `*` header that `std::stoi` cannot convert, makes `parseMessage` throw that exception. |
| `Protocol.ParseMessage` | src/protocol.h:28-88 | The source's `parseMessage`, branch by branch, computes `Parse` on every buffer. |
| `Protocol.ParseArray` | src/protocol.h:68-83 | The `for` loop over the array elements computes the element loop of `Parse`. |
| `Protocol.ElementParsed` | src/protocol.h:76-77 | After one element is parsed, the loop state `currentPos += consumed`, with the element appended, leads to the same outcome. |
| `Protocol.EncodeAllAppend` | src/protocol.h:134-137 | Appending one element's encoding extends the encoding of the elements so far. |
| `Protocol.EncodeMessage` | src/protocol.h:91-144 | The source's `encode`, with its element-appending loop, computes `Encode` on every value. |
| `ProtocolProperties.NoCrlfOfDecimal` | src/protocol.h:104 | No decimal number `std::to_string` writes contains `"\r\n"`. |
| `ProtocolProperties.SeparatorIs` | src/protocol.h:16-19 | A `"\r\n"` with none before it is the separator `findSeparator` returns. |
| `ProtocolProperties.NoFrameCases` | src/protocol.h:28-88 | `parseMessage` returns nullopt for a buffer without `"\r\n"` and for an unknown tag byte. |
| `ProtocolProperties.ElementNoFrame` | src/protocol.h:78-80 | An incomplete array element makes the whole array nullopt, not a partial array. |
| `ProtocolProperties.HeaderFrame` | src/protocol.h:16-19 | In `tag text "\r\n" tail`, where the text holds no `"\r\n"`, the separator is the one right after the text. |
| `ProtocolProperties.HeaderPrefix` | src/protocol.h:28-31 | A prefix of such a frame that stops before the `"\n"` of its separator holds no `"\r\n"`, so `parseMessage` returns nullopt for it. |
| `ProtocolProperties.HeaderThrows` | src/protocol.h:45-61 | Any buffer beginning with a `:`, `$` or `*` header whose text does not convert throws the conversion's exception. |
| `ProtocolProperties.LengthOutOfRangeThrows` | src/protocol.h:49-61 | A bulk or array length outside the int range throws `std::out_of_range`. |
| `ProtocolProperties.IntegerOutOfRangeThrows` | src/protocol.h:46 | An integer payload outside the int64 range throws `std::out_of_range`. |
| `ProtocolProperties.LiteralHeaders` | src/protocol.h:107-129 | The literal headers `$-1`, `*-1` and `$0` are the decimal headers of -1 and 0. |
| `ProtocolProperties.BulkEncoding` | src/protocol.h:113-119 | Every bulk string, the empty one included, is written as `$`, its decimal length, `"\r\n"`, its bytes and `"\r\n"`. |
| `ProtocolProperties.NullEncodings` | src/protocol.h:108-126 | The null bulk string and the null array are written with the length -1. |
| `ProtocolProperties.EncodeLayout` | src/protocol.h:91-144 | Every encodable value is written as a tag, a header without `"\r\n"`, the separator and a body. For each kind, the lemma gives the tag, header and body. |
| `ProtocolProperties.RoundTrip` | src/protocol.h:28-144 | For every encodable value `v` and every bytes `rest` after it, `parseMessage(encode(v) + rest)` gives `v` back, consuming exactly `encode(v)`. |
| `ProtocolProperties.ReadsBack` | src/protocol.h:28-88 | Every buffer that begins with the encoding of `v` parses to `v`, consuming exactly its encoding. |
| `ProtocolProperties.ArrayReadsBack` | src/protocol.h:59-84 | A non-empty array of encodable elements is read back whole. |
| `ProtocolProperties.ArrayEncoding` | src/protocol.h:130-137 | A non-empty array is written as `*`, its decimal length, `"\r\n"` and its elements' encodings in order. |
| `ProtocolProperties.FlatReadsBack` | src/protocol.h:37-58 | Simple strings, errors, integers and bulk strings are read back whole. |
| `ProtocolProperties.ScalarReadsBack` | src/protocol.h:37-48 | Simple strings, errors and integers are read back whole. |
| `ProtocolProperties.BulkOrNullReadsBack` | src/protocol.h:49-58 | Bulk strings, the null bulk string and the null array are read back whole. |
| `ProtocolProperties.BulkReadsBack` | src/protocol.h:54-57 | A non-empty bulk string is read back with exactly its bytes. |
| `ProtocolProperties.ElementsReadBack` | src/protocol.h:68-83 | Over the concatenated encodings of the elements, the element loop reads each element back, in order. |
| `ProtocolProperties.EmptyArrayReadsBackAsBulkString` | src/protocol.h:128-129 | The empty array is written with the bytes of the empty bulk string, so it is read back as a bulk string, not as an array. |
| `ProtocolProperties.ElementsPastEnd` | src/protocol.h:73-74 | If the next element would start past the end of the buffer, the element loop is no complete frame. |
| `ProtocolProperties.PrefixIsIncomplete` | src/protocol.h:28-88 | No strict prefix of an encoding is read as a complete frame. The parse waits (nullopt), reads past the end, or claims more bytes than the prefix holds. |
| `ProtocolProperties.ElementsPrefix` | src/protocol.h:68-83 | The element loop over a strict prefix of its elements' encodings is no complete frame. |
| `SrcParse.ParseMessage` | src/parse.h:27-90 | The parser copy in `src/parse.h` computes exactly what `protocol.h`'s `parseMessage` computes, on every buffer. |
| `SrcParse.ParseArray` | src/parse.h:71-85 | That copy's element loop computes the same element loop. |
| `LegacyParse.ExtractFrameFromBuffer` | parse.h:27-55 | The legacy parser returns only simple strings, errors and integers. A frame lies inside the buffer and ends with `"\r\n"`. |
| `LegacyParse.AgreesWithParseMessage` | parse.h:36-51 | The legacy parser agrees with `parseMessage` on every buffer that does not start with `$` or `*`. On those two tags it returns nullopt. |
| `LegacyParse.ReadsBackScalars` | parse.h:27-55 | The legacy parser reads back every encodable scalar, whatever follows it. |
| `LegacyParse.MainSimpleStringExample` | main.cpp:11-16 | `"+OK\r\n"` is the simple string `OK`, 5 bytes. |
| `LegacyParse.MainIntegerExample` | main.cpp:18-23 | `":-123\r\n"` is the integer -123, 7 bytes. |
| `LegacyParse.MainBulkStringExample` | main.cpp:25-33 | `"$5\r\nHello\r\n"` gives nullopt, so `main.cpp` dereferences an empty optional. |
| `LegacyParse.MainArrayExample` | main.cpp:35-44 | `"*2\r\n+OK\r\n:123\r\n"` gives nullopt, so `main.cpp` dereferences an empty optional. |
| `ProtocolExamples.FindSeparatorExamples` | tests/parse_test.cpp:132-165 | The five `findSeparator` tests: 2, npos, 1, npos, 3. |
| `ProtocolExamples.ExtractStringFromBytesExample` | tests/parse_test.cpp:167-171 | The first five bytes of "Hello World" are "Hello". |
| `ProtocolExamples.ParseSimpleStringExample` | tests/parse_test.cpp:4-13 | `"+OK\r\n"` parses to `OK`, 5 bytes. |
| `ProtocolExamples.ParseSimpleStringExtraDataExample` | tests/parse_test.cpp:15-24 | Trailing bytes do not change the frame or its length. |
| `ProtocolExamples.ParseSimpleErrorExample` | tests/parse_test.cpp:26-35 | `"-Error\r\n"` parses to the error `Error`, 8 bytes. |
| `ProtocolExamples.ParseIntegerExample` | tests/parse_test.cpp:37-46 | `":124\r\n"` parses to 124, 6 bytes. |
| `ProtocolExamples.ParseNegativeIntegerExample` | tests/parse_test.cpp:48-57 | `":-124\r\n"` parses to -124, 7 bytes. |
| `ProtocolExamples.ParseNullBulkStringExample` | tests/parse_test.cpp:70-81 | `"$-1\r\n"` parses to the null bulk string, 5 bytes. |
| `ProtocolExamples.ParseEmptyBulkStringExample` | tests/parse_test.cpp:83-96 | `"$0\r\n\r\n"` parses to the empty bulk string, 6 bytes. |
| `ProtocolExamples.ParseBulkStringExample` | tests/parse_test.cpp:98-111 | `"$11\r\nHello World\r\n"` parses to "Hello World", 18 bytes. |
| `ProtocolExamples.EncodeHelloWorld` | tests/parse_test.cpp:98-111 | Encoding "Hello World" gives exactly that test's frame. |
| `ProtocolExamples.ParseArrayExample` | tests/parse_test.cpp:113-130 | `"*2\r\n+OK\r\n:123\r\n"` parses to the array [OK, 123], 15 bytes. |
| `ProtocolExamples.EncodeOkAnd123` | tests/parse_test.cpp:113-130 | Encoding the array [OK, 123] gives exactly that test's frame. |
| `ProtocolExamples.EncodeSimpleStringExample` | tests/parse_test.cpp:173-179 | Encoding `Hello` gives `"+Hello\r\n"`. |
| `ProtocolExamples.EncodeIntegerExample` | tests/parse_test.cpp:181-187 | Encoding 42 gives `":42\r\n"`. |
| `ProtocolExamples.EncodeSimpleErrorExample` | tests/parse_test.cpp:189-195 | Encoding the error gives `"-Error message\r\n"`. |
| `ProtocolExamples.EncodeBulkStringExample` | tests/parse_test.cpp:197-205 | Encoding "Hello, World!" gives `"$13\r\nHello, World!\r\n"`. |
| `ProtocolExamples.EncodeArrayExample` | tests/parse_test.cpp:207-224 | Encoding the four-element array gives the expected 40 bytes. |
| `ProtocolExamples.ThrownExamples` | src/protocol.h:45-61 | `":abc\r\n"`, `"$abc\r\n"` and `"*\r\n"` each throw `std::invalid_argument`. |
| `Controller.ToUpper` | src/controller.cpp:14 | `std::transform` with `::toupper` keeps the length and upper-cases each byte independently. |
| `Controller.ToUpperIdempotent` | src/controller.cpp:14 | Upper-casing twice is upper-casing once. |
| `Controller.EchoNameIgnoresCase` | src/controller.cpp:14-16 | The upper-cased name equals "ECHO" exactly when each of its letters is the upper-case or lower-case letter of "echo". |
| `Controller.CommandName` | src/controller.cpp:12 | The command name is the bytes of the first bulk string. |
| `Controller.HandleEcho` | src/controller.cpp:20-24 | With exactly two elements, the reply is the second bulk string unchanged. With any other count, the reply is the arity error. |
| `Controller.HandleCommand` | src/controller.cpp:9-19 | As written, the empty command gets "ERR empty command" and every other command, ECHO included, gets "ERR unsupported command". |
| `Controller.HandleCommandIntended` | src/controller.cpp:9-19 | The empty command gets "ERR empty command". A name equal to ECHO in any letter case gets `handleEcho`'s reply. Every other name gets "ERR unsupported command". |
| `Controller.IntendedIgnoresCase` | src/controller.cpp:14-16 | Changing only the letter case of the command name does not change the reply. |
| `Controller.EmptyCommandError` | src/controller.cpp:10 | The "ERR empty command" reply is given exactly for the empty command, as written and as intended. |
| `Controller.AsWrittenFailsControllerTests` | tests/controller_test.cpp:7-35 | As written, all three controller tests get the wrong reply. |
| `Controller.IntendedPassesControllerTests` | tests/controller_test.cpp:7-35 | With the echo reply returned, all three controller tests get the expected reply. |
| `DataStore.ExpiredKeys` | src/datastore.h:58-64 | The sweep only ever deletes keys that are in the store. |
| `DataStore.ShuffleCount` | src/datastore.cpp:70-77 | The shuffled key list lists every key exactly once. |
| `DataStore.SampleCount` | src/datastore.cpp:79 | The sample has `n` keys when the store holds more than `n`, and otherwise every key. |
| `DataStore.ExpiredKeysBound` | src/datastore.h:52-67 | The whole-sample sweep deletes no more keys than it samples. |
| `DataStore.EarlyBreakRemovesOnlyExpired` | src/datastore.cpp:47-54 | The early-break sweep removes only expired entries of the sample and leaves every other entry as it was. Its count is exactly what it removed. |
| `DataStore.EarlyBreakDeletesAtMostAQuarter` | src/datastore.cpp:53 | The early-break sweep deletes at most a quarter of the sample, rounded up. |
| `DataStore.EarlyBreakIsFullSweepBelowQuarter` | src/datastore.cpp:39-57 | If the early-break sweep stays below a quarter, it deletes exactly the expired keys of the sample, as the header's sweep does. |
| `DataStore.UnexpiringEntriesSurvive` | src/datastore.cpp:49 | An entry without an expiry survives both sweeps. |
| `DataStore.DataStore.constructor` | src/datastore.h:87 | A new store is empty. |
| `DataStore.DataStore.Get` | src/datastore.cpp:3-16 | A missing key gives none and changes nothing. An expired entry gives none and is erased, and nothing else changes. A live entry gives its value and changes nothing. |
| `DataStore.DataStore.Set` | src/datastore.cpp:18-21 | The key maps to the value with no expiry, replacing any earlier entry. Nothing else changes. |
| `DataStore.DataStore.SetWithExpiry` | src/datastore.cpp:23-27 | The key maps to the value and its expiry, replacing any earlier entry. Nothing else changes. |
| `DataStore.DataStore.Exists` | src/datastore.cpp:29-32 | True exactly when the key has an entry, expired or not. |
| `DataStore.DataStore.Count` | src/datastore.cpp:34-37 | The number of entries, expired ones included, narrowed modulo 2^32 to the `int` that `count()` returns. A count the int range holds is exact. |
| `DataStore.DataStore.GetRandomKeys` | src/datastore.cpp:70-82 | The first `n` keys of the shuffled key list, or all of them. They are distinct keys of the store. |
| `DataStore.DataStore.RemoveExpiredKeys` | src/datastore.h:52-67 | Erases exactly the expired keys of the sample and returns their number. That number is the drop in size, at most 20 and at most the store's size. |
| `DataStore.DataStore.EraseExpired` | src/datastore.h:58-64 | The loop over distinct keys of the store erases exactly the expired ones and counts them. |
| `DataStore.DataStore.RemoveExpiredKeysWithEarlyBreak` | src/datastore.cpp:39-57 | The loop with its quarter-of-the-sample break computes the early-break sweep of the sample, both the new store and the count. |
| `DataStoreExamples.GetWithoutExpiry` | tests/datastore_test.cpp:6-12 | A value set without expiry is read back. |
| `DataStoreExamples.GetExpired` | tests/datastore_test.cpp:14-21 | A value read after its expiry is none. |
| `DataStoreExamples.GetNotExpired` | tests/datastore_test.cpp:23-30 | A value read before its expiry is read back. |
| `DataStoreExamples.TestStoreSweep` | tests/datastore_test.cpp:32-41 | In the test's store at its read time, the expired keys are exactly key1 and key2, and the sample is the whole store. |
| `DataStoreExamples.RemoveExpiredKeysTest` | tests/datastore_test.cpp:32-49 | With the header's sweep, the test deletes 2, and key1 and key2 are then not found, whatever the shuffle. |
| `DataStoreExamples.EarlyBreakDeletesOneInTestStore` | tests/datastore_test.cpp:32-42 | With the `.cpp` sweep, the same test deletes 1, whatever the shuffle. |
| `Persister.CommandOf` | src/persister.cpp:64-72 | The elements make a command exactly when every one is a bulk string. The command then holds their data in order. |
| `Persister.ExtractCommand` | src/persister.cpp:64-77 | The conversion loop flags an error exactly when some element is not a bulk string. Otherwise it yields that command. |
| `Persister.DrainBuffer` | src/persister.cpp:40-83 | The drain only erases bytes from the front of the buffer. Without a failure, it stops where `parseMessage` returns nullopt. A failure is the one of the last parse. |
| `Persister.ChunkSize` | src/persister.cpp:29-38 | A read stays inside the file and gives at least one byte before the end. Only the read that reaches the end is shorter than 2048. |
| `Persister.CommandRecorder.HandleSet` | src/persister.cpp:80 | The command is recorded after all the commands before it. |
| `Persister.DispatchFrame` | src/persister.cpp:50-80 | A non-null array of bulk strings is handed to `handleSet`. Every other frame is skipped. |
| `Persister.DrainInto` | src/persister.cpp:40-83 | The inner loop hands `handleSet` the commands of `DrainBuffer`, in order, and leaves its rest and failure. |
| `Persister.RestoreFromFile` | src/persister.cpp:18-87 | An unopenable file replays nothing. Otherwise the chunked read-and-drain loop hands `handleSet` the commands of `Replay`, in order, and ends with its rest and failure. |
| `Persister.DrainParsed` | src/persister.cpp:41-57 | A parsed frame's commands come before those of the rest of the buffer. |
| `Persister.DrainFails` | src/persister.cpp:41-52 | A parse that throws, is undefined or claims too many bytes stops the drain with nothing handed on. |
| `Persister.DrainNoFrame` | src/persister.cpp:41-45 | A nullopt parse stops the drain, keeping the buffer to wait for more data. |
| `Persister.CommandFrame` | src/persister.cpp:59-72 | The array frame of a command is read back as that same command. |
| `Persister.CommandFramesDispatch` | src/persister.cpp:59-80 | The frames of a sequence of commands dispatch exactly those commands, in order. |
| `Persister.CommandFrameEncodable` | src/persister.cpp:59-72 | The frame of a non-empty command whose element count and argument lengths fit in an int is one `encode` writes faithfully. |
| `Persister.DrainFrame` | src/persister.cpp:40-83 | A whole encoded frame at the front of the buffer is drained, its command handed on, and the rest drained after it. |
| `Persister.DrainFrames` | src/persister.cpp:40-83 | Concatenated whole frames are drained in order, handing on each frame's command. |
| `Persister.DrainEmpty` | src/persister.cpp:41-44 | An empty buffer drains to nothing. |
| `Persister.DrainPrefix` | src/persister.cpp:41-44 | A strict prefix of one frame hands nothing on and stays in the buffer. |
| `Persister.TrailingPartialFrame` | src/persister.cpp:40-83 | Whole frames followed by the start of another: the whole frames are handed on, and the partial one stays in the buffer. |
| `Persister.DrainWhole` | src/persister.cpp:40-83 | A buffer of whole frames drains completely, handing on every command. |
| `Persister.SmallLogReplay` | src/persister.cpp:18-87 | A log of at most 2048 bytes is replayed whole: every logged command reaches `handleSet`, in the order written, and nothing is left. |
| `ReplayChunking.CutBulkPayload` | src/protocol.h:54-57 | A bulk header followed by fewer bytes than it announces is read past the end of the buffer. |
| `ReplayChunking.ElementsBeforeCut` | src/protocol.h:68-83 | The element loop passes over whole elements and then reads past the end at a cut bulk string. |
| `ReplayChunking.FirstChunkIsUndefined` | src/persister.cpp:29-41 | If the first 2048-byte read ends inside the last argument of a logged command, parsing that read is undefined. |
| `ReplayChunking.FirstReadFails` | src/persister.cpp:29-44 | If the first read fails to drain, the replay stops there. |
| `ReplayChunking.StraddledArgumentIsUndefined` | src/persister.cpp:29-45 | As written, a logged command whose last argument straddles the first read is not replayed. The replay stops in undefined behaviour, and nothing reaches `handleSet`. |
| `ReplayChunking.LongSetValueIsUndefined` | src/persister.cpp:27-45 | As written, a log holding `SET k v` with a 2048-byte value is not replayed. |
| `ReplayChunking.ParseOrWait` | src/persister.cpp:41-45 | The corrected parse returns "no frame yet" exactly for a buffer the frame does not fit in. Otherwise it is `parseMessage`. |
| `ReplayChunking.DrainWaiting` | src/persister.cpp:40-83 | The corrected inner loop only erases bytes from the front, and never erases past the end. |
| `ReplayChunking.DrainWaitingStops` | src/persister.cpp:40-45 | The corrected drain stops at a failure or where the rest holds no complete frame. |
| `ReplayChunking.DrainWaitingFrame` | src/persister.cpp:40-83 | The corrected drain handles a whole frame as the loop as written does. |
| `ReplayChunking.DrainWaitingFrames` | src/persister.cpp:40-83 | The corrected drain hands on the commands of concatenated whole frames, in order. |
| `ReplayChunking.DrainWaitingPrefix` | src/persister.cpp:41-44 | The corrected drain keeps a strict prefix of a frame, waiting for the rest of it. |
| `ReplayChunking.WaitingLogReplay` | src/persister.cpp:18-87 | With the corrected parse, a log of any size is replayed whole, wherever the 2048-byte reads cut its frames: every command reaches `handleSet`, in order, and nothing is left. |
| `ReplayChunking.StraddledArgumentWaits` | src/persister.cpp:18-87 | With the corrected parse, the log of the as-written counterexample is replayed: its command reaches `handleSet`. |

## Left out

- Networking is not modelled: the TCP server `src/tcp_server.cpp`, the connection loop and socket I/O. None of these is part of the core.
- The store's mutex, its expiry thread (`startExpiryDaemon`) and concurrency in general are not modelled. Every operation is one atomic step.
- The clock is a parameter: `now` stands for `system_clock::now()`, and time points are integers.
- The random sample is a parameter. `shuffled` is the order the key iteration and `std::shuffle` leave the keys in, and may be any ordering of them.
- DataStore.DataStore.RemoveExpiredKeysWithEarlyBreak: the break test `static_cast<float>(deleted) >= 0.25f * numKeys` is modelled as `4 * deleted >= numKeys`. Both are the same for the at most 20 sampled keys, where every value involved is exact in float.
- Files are their bytes: `RestoreFromFile` takes the log's contents, or `None` when it cannot be opened. The `std::ifstream` is not modelled.
- The log writer is not modelled: the persister's constructor and `writeAndFlush`.
- `spdlog` logging, the `operator<<` overloads and the `fmt::formatter` specialisations in `src/redis_type.h` are not modelled. They only format values for output.
- Controller::handleSet and the other handlers declared in `src/controller.h` are not modelled; their code is not part of this model. For replay, `handleSet` is a recorder of the commands it receives (`CommandRecorder`). The response that `restoreFromFile` encodes and logs is not modelled.
- Decimal.StoI and Decimal.StoLL model the strtol-style conversion: leading white space, an optional sign, the longest digit run, and the two exceptions. Locale-specific white space is not modelled.
- Controller.HandleCommand and Controller.HandleCommandIntended require a non-null first bulk string. `src/controller.cpp:12` dereferences it without a check, so a null name is undefined behaviour that the model does not cover.
- Controller.UpperByte leaves a byte of 0x80 or more unchanged. Where `char` is signed, such a byte is a negative `char`, and passing it to `::toupper` is undefined; the model gives it a defined result instead.
- The behaviour of undefined operations is not modelled. It is kept as an `Undefined` outcome and nothing is said about what follows it: reads past the end of a vector, and `separator - 1` wrapping around.
- `Encodable` leaves out values `parseMessage` cannot read back: simple strings and errors containing `"\r\n"`, lengths above `INT_MAX`, and the empty array, which is written as the empty bulk string.
- Where the code departs from RESP2 or from Redis's own behaviour, the model follows the code:
  - the empty array is written as `"$0\r\n\r\n"`;
  - `exists` and `count` apply no lazy expiry;
  - an unknown tag byte is nullopt (wait), not a malformed frame;
  - replay erases and skips a frame that is not a command array, and does not stop there;
  - `handleCommand` drops the echo reply;
  - the `.cpp` sweep breaks off at a quarter of the sample rather than being repeated.

## Findings

| source | as written | input that shows it | evidently intended | confidence | as-written member | corrected member |
|---|---|---|---|---|---|---|
| src/controller.cpp:16 | `handleEcho(command)` is called and its result discarded, so every non-empty command falls through to "ERR unsupported command" | `["ECHO", "Hello"]`, `["EcHo", "Hello"]` and `["ECHO"]` from tests/controller_test.cpp | `return handleEcho(command);` | high, not executed | `Controller.AsWrittenFailsControllerTests` | `Controller.IntendedPassesControllerTests` |
| src/datastore.cpp:53 | the sweep breaks off once `deleted >= 0.25 * numKeys`, and the header's version has no such break | the four keys of tests/datastore_test.cpp:32-42, two of them expired: the sample reaches a quarter at the first deletion, so the sweep deletes 1 where the test expects 2 | visit the whole sample, as `src/datastore.h:52-67` does; a quarter or more deleted is a signal to sweep again, not to stop | medium, not executed | `DataStoreExamples.EarlyBreakDeletesOneInTestStore` | `DataStore.DataStore.RemoveExpiredKeys` |
| src/persister.cpp:41-44 | the drain treats only nullopt as "wait for more data", but `parseMessage` (src/protocol.h:54-57) copies a bulk payload cut by the end of the buffer past the end of the vector | a log holding `SET k v` with a 2048-byte `v`: the first 2048-byte read ends inside `v` | a frame that runs past the end of the buffer is treated as not yet complete, and the replay waits for the next read | high, not executed | `ReplayChunking.StraddledArgumentIsUndefined` | `ReplayChunking.WaitingLogReplay` |
