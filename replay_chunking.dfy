/**
 * Frames that straddle a read of restoreFromFile (src/persister.cpp).
 *
 * The log is read 2048 bytes at a time, and the drain loop relies on
 * parseMessage answering std::nullopt for a buffer that does not yet hold a
 * whole frame ("wait for more data"). parseMessage answers nullopt only
 * while the header line of the next frame or array element is incomplete,
 * or for an unknown tag byte: a bulk string whose payload is cut off by the
 * end of the buffer is copied past the end of the vector. So a log whose
 * frame is cut by a read inside a bulk payload is not replayed.
 *
 * `StraddledArgumentIsUndefined` shows it for the replay as written.
 * `ParseOrWait`, `DrainWaiting` and `ReplayWaitingFrom` are the replay with
 * the intended parse, which reports no frame for a frame that runs past the
 * end of the buffer; `WaitingLogReplay` proves that it replays every log,
 * whatever its size and wherever the reads cut it.
 */
module ReplayChunking {
  import opened Wrappers
  import opened ByteStrings
  import opened RedisType
  import opened Decimal
  import opened Protocol
  import opened ProtocolProperties
  import opened Controller
  import opened Persister

  /** After the element loop's `position`, `buffer` holds the elements `xs`
      written out whole and then, at `cut`, a bulk string cut short. */
  ghost predicate ElementsThenCut(buffer: Bytes, position: nat, xs: seq<RedisValue>, cut: nat) {
    && position + 2 <= |buffer| && StartsWith(buffer[position + 2..], EncodeAll(xs))
    && (forall i | 0 <= i < |xs| :: Encodable(xs[i]))
    && cut == position + 2 + |EncodeAll(xs)| <= |buffer|
    && Parse(buffer[cut..]) == Undefined(BulkPastEnd)
  }

  /** The element loop passes over elements that are written out whole and
      reads past the end of the buffer at the cut bulk string after them. */
  lemma {:induction false} ElementsBeforeCut(buffer: Bytes, position: nat, xs: seq<RedisValue>, done: seq<RedisValue>, cut: nat, remaining: int)
    requires ElementsThenCut(buffer, position, xs, cut)
    requires remaining == |xs| + 1
    ensures ElementsCut(buffer, position, remaining, done)
    decreases |xs|
  {
    if |xs| == 0 {
      LastElementCut(buffer, position, xs, done, cut, remaining);
    } else {
      var first, length := NextElement(buffer, position, xs, cut);
      var later, rest := position + length, remaining - 1;
      ElementsBeforeCut(buffer, later, xs[1..], done + [first], cut, rest);
      CutAfterFirst(buffer, position, done, first, length, remaining, later, rest);
    }
  }

  /** The first of the elements `xs` is read back at `position`, and the
      others follow it. */
  lemma NextElement(buffer: Bytes, position: nat, xs: seq<RedisValue>, cut: nat) returns (first: RedisValue, length: nat)
    requires ElementsThenCut(buffer, position, xs, cut) && |xs| > 0
    ensures first == xs[0] && ElementAt(buffer, position, first, length)
    ensures ElementsThenCut(buffer, position + length, xs[1..], cut)
  {
    first := xs[0];
    length := |Encode(first)|;
    ElementBytes(buffer, position, xs, length);
    FirstElementReadsBack(buffer, position, xs, first, length);
  }

  /** The element loop reads past the end if it does so once it has read the
      element `first` at `position`. */
  lemma CutAfterFirst(buffer: Bytes, position: nat, done: seq<RedisValue>, first: RedisValue, length: nat, remaining: int,
                      later: nat, rest: int)
    requires remaining > 0 && ElementAt(buffer, position, first, length)
    requires later == position + length && rest == remaining - 1
    requires ElementsCut(buffer, later, rest, done + [first])
    ensures ElementsCut(buffer, position, remaining, done)
  {
    ParseElementsStep(buffer, position, remaining, done, first, length, later, rest);
    CutCarriesBack(buffer, position, remaining, done, later, rest, done + [first]);
  }

  /** A state of the element loop that leads to the same outcome as one that
      reads past the end reads past the end too. */
  lemma CutCarriesBack(buffer: Bytes, position: nat, remaining: int, done: seq<RedisValue>,
                       later: nat, rest: int, more: seq<RedisValue>)
    requires SameElements(buffer, position, remaining, done, later, rest, more)
    requires ElementsCut(buffer, later, rest, more)
    ensures ElementsCut(buffer, position, remaining, done)
  {
  }

  /** The last element of the loop reads past the end of the buffer. */
  lemma LastElementCut(buffer: Bytes, position: nat, xs: seq<RedisValue>, done: seq<RedisValue>, cut: nat, remaining: int)
    requires ElementsThenCut(buffer, position, xs, cut) && |xs| == 0
    requires remaining == 1
    ensures ElementsCut(buffer, position, remaining, done)
  {
    assert cut == position + 2;
  }

  /** A bulk string header followed by fewer bytes than it announces is read
      past the end of the buffer. */
  lemma CutBulkPayload(value: Bytes, m: nat)
    requires m < |value| <= INT_MAX
    ensures Parse([DOLLAR] + ToDecimal(|value|) + CRLF + value[..m]) == Undefined(BulkPastEnd)
  {
    var text := ToDecimal(|value|);
    var sub := [DOLLAR] + text + CRLF + value[..m];
    NoCrlfOfDecimal(|value|);
    HeaderOf(sub, DOLLAR, text, value[..m]);
    StoIOfToDecimal(|value|);
    ParsesBulkPastEnd(sub, |text| + 1, |value|);
  }

  /** The frame of a command, up to the payload of its last argument: the
      array header, the frames of the other arguments `xs`, and the last
      argument's length header. */
  function HeadBeforeLast(n: int, xs: seq<RedisValue>, value: Bytes): Bytes {
    [STAR] + ToDecimal(n) + CRLF + EncodeAll(xs) + [DOLLAR] + ToDecimal(|value|) + CRLF
  }

  /** An array whose last element is the bulk string `value`, written out. */
  lemma ArrayWithLastBulk(xs: seq<RedisValue>, value: Bytes)
    ensures Encode(Array(Elements(xs + [BulkString(Some(value))])))
         == HeadBeforeLast(|xs| + 1, xs, value) + value + CRLF
  {
    var last := BulkString(Some(value));
    ArrayEncoding(xs + [last]);
    EncodeAllAppend(xs, last);
    BulkEncoding(value);
  }

  /** The frame of a loggable command, split before the payload of its last
      argument. */
  lemma LastArgumentLayout(init: Command, value: Bytes) returns (xs: seq<RedisValue>)
    requires LoggableCommand(init + [Some(value)])
    ensures |xs| == |init| && forall i | 0 <= i < |xs| :: Encodable(xs[i])
    ensures forall i | 0 <= i < |xs| :: xs[i] == BulkString(init[i])
    ensures Encode(CommandFrame(init + [Some(value)])) == HeadBeforeLast(|init| + 1, xs, value) + value + CRLF
  {
    var c := init + [Some(value)];
    var items := CommandFrame(c).elements.items;
    CommandFrameEncodable(c);
    xs := items[..|init|];
    assert items == xs + [BulkString(Some(value))] by {
      assert items[|init|] == BulkString(c[|init|]);
    }
    ArrayWithLastBulk(xs, value);
  }

  /** The first read of the log below: its array header, the arguments before
      the last, the last one's length header and `m` bytes of its payload. */
  lemma CutFrameIsUndefined(xs: seq<RedisValue>, value: Bytes, m: nat, chunk: Bytes)
    requires |xs| + 1 <= INT_MAX
    requires forall i | 0 <= i < |xs| :: Encodable(xs[i])
    requires m < |value| <= INT_MAX
    requires chunk == HeadBeforeLast(|xs| + 1, xs, value) + value[..m]
    ensures Parse(chunk) == Undefined(BulkPastEnd)
  {
    var separator, at := CutFrameLayout(xs, value, m, chunk);
    CutLayoutHolds(chunk, separator, xs, at, value, m);
    ElementsBeforeCut(chunk, separator, xs, [], at, |xs| + 1);
  }

  /** The layout of a cut command frame, as ElementsThenCut states it. */
  lemma CutLayoutHolds(chunk: Bytes, separator: nat, xs: seq<RedisValue>, at: nat, value: Bytes, m: nat)
    requires forall i | 0 <= i < |xs| :: Encodable(xs[i])
    requires m < |value| <= INT_MAX
    requires separator + 2 <= |chunk| && StartsWith(chunk[separator + 2..], EncodeAll(xs))
    requires at == separator + 2 + |EncodeAll(xs)| <= |chunk|
    requires chunk[at..] == [DOLLAR] + ToDecimal(|value|) + CRLF + value[..m]
    ensures ElementsThenCut(chunk, separator, xs, at)
  {
    CutBulkPayload(value, m);
  }

  /** Where the parts of a cut command frame lie: the element loop starts
      at `separator`, and the cut bulk string starts at `at`. */
  lemma CutFrameLayout(xs: seq<RedisValue>, value: Bytes, m: nat, chunk: Bytes) returns (separator: nat, at: nat)
    requires |xs| + 1 <= INT_MAX
    requires m < |value| <= INT_MAX
    requires chunk == HeadBeforeLast(|xs| + 1, xs, value) + value[..m]
    ensures Parse(chunk) == ParseElements(chunk, separator, |xs| + 1, [])
    ensures separator + 2 <= |chunk| && StartsWith(chunk[separator + 2..], EncodeAll(xs))
    ensures at == separator + 2 + |EncodeAll(xs)| <= |chunk|
    ensures chunk[at..] == [DOLLAR] + ToDecimal(|value|) + CRLF + value[..m]
  {
    var cut := [DOLLAR] + ToDecimal(|value|) + CRLF + value[..m];
    var body := CutChunkBody(xs, value, m, chunk, cut);
    separator := ArrayHeaderOf(chunk, |xs| + 1, body);
    at := separator + 2 + |EncodeAll(xs)|;
    BodyParts(chunk, separator + 2, EncodeAll(xs), cut, at);
  }

  /** The cut chunk is an array header followed by the frames of `xs` and
      the cut last argument. */
  lemma CutChunkBody(xs: seq<RedisValue>, value: Bytes, m: nat, chunk: Bytes, cut: Bytes) returns (body: Bytes)
    requires m <= |value|
    requires chunk == HeadBeforeLast(|xs| + 1, xs, value) + value[..m]
    requires cut == [DOLLAR] + ToDecimal(|value|) + CRLF + value[..m]
    ensures body == EncodeAll(xs) + cut
    ensures chunk == [STAR] + ToDecimal(|xs| + 1) + CRLF + body
  {
    var header := [STAR] + ToDecimal(|xs| + 1) + CRLF;
    var front := header + EncodeAll(xs);
    var length := [DOLLAR] + ToDecimal(|value|);
    body := EncodeAll(xs) + cut;
    AppendAssociates(header, EncodeAll(xs), cut);
    AppendAssociates(front, length + CRLF, value[..m]);
    AppendAssociates(front, length, CRLF);
    AppendAssociates(front, [DOLLAR], ToDecimal(|value|));
  }

  /** A buffer holding `front + back` from `start` on starts with `front`
      there, and holds `back` from `at` on. */
  lemma BodyParts(buffer: Bytes, start: nat, front: Bytes, back: Bytes, at: nat)
    requires start <= |buffer| && buffer[start..] == front + back && at == start + |front|
    ensures StartsWith(buffer[start..], front)
    ensures at <= |buffer| && buffer[at..] == back
  {
    assert buffer[at..] == buffer[start..][|front|..];
    assert (front + back)[..|front|] == front;
  }

  lemma ArrayHeaderOf(buffer: Bytes, n: nat, body: Bytes) returns (separator: nat)
    requires 0 < n <= INT_MAX && buffer == [STAR] + ToDecimal(n) + CRLF + body
    ensures separator == |ToDecimal(n)| + 1 && buffer[separator + 2..] == body
    ensures Parse(buffer) == ParseElements(buffer, separator, n, [])
  {
    var text := ToDecimal(n);
    NoCrlfOfDecimal(n);
    HeaderOf(buffer, STAR, text, body);
    StoIOfToDecimal(n);
    separator := |text| + 1;
    ParsesArray(buffer, separator, n);
  }

  /** As written: a log holding one command whose last argument is cut by the
      first 2048-byte read (its length header fits in the read, its payload
      does not) is not replayed. parseMessage copies the payload past the end
      of the buffer, and no command reaches handleSet. */
  lemma StraddledArgumentIsUndefined(init: Command, value: Bytes)
    requires LoggableCommand(init + [Some(value)])
    requires var file := Encode(CommandFrame(init + [Some(value)]));
             |file| - |value| - 2 <= RECV_SIZE < |file| - 2
    ensures var file := Encode(CommandFrame(init + [Some(value)]));
            Replay(file) == Drain([], file[..RECV_SIZE], Some(ParserUndefined(BulkPastEnd)))
  {
    var file := Encode(CommandFrame(init + [Some(value)]));
    FirstChunkIsUndefined(init, value, file);
    FirstReadFails(file, ParserUndefined(BulkPastEnd));
  }

  /** The first read of that log ends inside the last argument's payload. */
  lemma FirstChunkIsUndefined(init: Command, value: Bytes, file: Bytes)
    requires LoggableCommand(init + [Some(value)])
    requires file == Encode(CommandFrame(init + [Some(value)]))
    requires |file| - |value| - 2 <= RECV_SIZE < |file| - 2
    ensures Parse(file[..RECV_SIZE]) == Undefined(BulkPastEnd)
  {
    var c := init + [Some(value)];
    assert c[|init|] == Some(value);
    var xs := LastArgumentLayout(init, value);
    var head := HeadBeforeLast(|init| + 1, xs, value);
    var m := RECV_SIZE - |head|;
    var chunk := file[..RECV_SIZE];
    assert chunk == HeadBeforeLast(|xs| + 1, xs, value) + value[..m] by {
      assert file == head + value + CRLF;
    }
    CutFrameIsUndefined(xs, value, m, chunk);
  }

  /** A replay whose first read, of a whole chunk, fails to drain stops there. */
  lemma FirstReadFails(file: Bytes, failure: Failure)
    requires |file| >= RECV_SIZE
    requires StepFailure(Parse(file[..RECV_SIZE]), RECV_SIZE) == Some(failure)
    ensures Replay(file) == Drain([], file[..RECV_SIZE], Some(failure))
  {
    var chunk := file[..RECV_SIZE];
    DrainFails(chunk, failure);
    assert ChunkSize(file, 0) == RECV_SIZE;
    assert [] + file[0..0 + RECV_SIZE] == chunk;
    assert ReplayFrom(file, 0, []) == Resume(file, RECV_SIZE, DrainBuffer(chunk));
  }

  /** An instance: a log holding `SET k v` whose value is 2048 bytes long. */
  lemma LongSetValueIsUndefined(value: Bytes)
    requires |value| == RECV_SIZE
    ensures var file := Encode(CommandFrame([Some(Ascii("SET")), Some(Ascii("k")), Some(value)]));
            Replay(file).commands == [] && Replay(file).failure == Some(ParserUndefined(BulkPastEnd))
  {
    var init := [Some(Ascii("SET")), Some(Ascii("k"))];
    assert init + [Some(value)] == [Some(Ascii("SET")), Some(Ascii("k")), Some(value)];
    var xs := LastArgumentLayout(init, value);
    LongSetHeader(xs, value);
    StraddledArgumentIsUndefined(init, value);
  }

  /** The bytes before the 2048-byte value of that command are 27. */
  lemma LongSetHeader(xs: seq<RedisValue>, value: Bytes)
    requires |xs| == 2 && xs[0] == BulkString(Some(Ascii("SET"))) && xs[1] == BulkString(Some(Ascii("k")))
    requires |value| == RECV_SIZE
    ensures |HeadBeforeLast(3, xs, value)| == 27
  {
    BulkEncoding(Ascii("SET"));
    BulkEncoding(Ascii("k"));
    assert EncodeAll(xs) == Encode(xs[0]) + Encode(xs[1]) by {
      assert EncodeAll(xs[1..]) == Encode(xs[1]) + EncodeAll(xs[1..][1..]);
      assert xs[1..][1..] == [];
    }
    assert |Digits(2048)| == 4 by {
      assert |Digits(204)| == 3 by {
        assert |Digits(20)| == 2;
      }
    }
  }

  /** parseMessage as the drain loop expects it: a frame that runs past the
      end of the buffer is no frame yet, and the loop waits for more bytes. */
  function ParseOrWait(buffer: Bytes): (r: ParseOutcome)
    ensures r.Parsed? ==> r == Parse(buffer) && 2 <= r.consumed <= |buffer|
    ensures r != Undefined(BulkPastEnd) && r != Undefined(ElementPastEnd)
    ensures r.NoFrame? <==> Incomplete(Parse(buffer), |buffer|)
    ensures !Incomplete(Parse(buffer), |buffer|) ==> r == Parse(buffer)
  {
    var r := Parse(buffer);
    if Incomplete(r, |buffer|) then NoFrame else r
  }

  /** The inner loop of restoreFromFile with ParseOrWait. */
  function DrainWaiting(buffer: Bytes): (r: Drain)
    ensures IsSuffix(r.rest, buffer)
    ensures r.failure != Some(EraseBeyondBuffer)
    decreases |buffer|
  {
    match ParseOrWait(buffer)
    case NoFrame => Drain([], buffer, None)
    case Thrown(e) => Drain([], buffer, Some(Threw(e)))
    case Undefined(cause) => Drain([], buffer, Some(ParserUndefined(cause)))
    case Parsed(message, length) =>
      var next := DrainWaiting(buffer[length..]);
      assert buffer[length..][|buffer[length..]| - |next.rest|..] == buffer[|buffer| - |next.rest|..];
      Prepend(Dispatched(message), next)
  }

  /** The corrected drain stops at a failure or where what is left holds no
      complete frame: a frame running past its end is kept, not read. */
  lemma {:induction false} DrainWaitingStops(buffer: Bytes)
    ensures var r := DrainWaiting(buffer);
            r.failure.None? ==> Incomplete(Parse(r.rest), |r.rest|)
    decreases |buffer|
  {
    var p := ParseOrWait(buffer);
    if p.Parsed? {
      DrainWaitingStops(buffer[p.consumed..]);
    }
  }

  /** The outer loop of restoreFromFile with ParseOrWait. */
  function ReplayWaitingFrom(file: Bytes, offset: nat, buffer: Bytes): Drain
    requires offset <= |file|
    decreases |file| - offset, 0
  {
    if offset == |file| then Drain([], buffer, None)
    else
      var count := ChunkSize(file, offset);
      ResumeWaiting(file, offset + count, DrainWaiting(buffer + file[offset..offset + count]))
  }

  function ResumeWaiting(file: Bytes, offset: nat, d: Drain): Drain
    requires offset <= |file|
    decreases |file| - offset, 1
  {
    if d.failure.Some? then d else Prepend(d.commands, ReplayWaitingFrom(file, offset, d.rest))
  }

  /** A frame written whole is drained by the corrected loop as by the loop
      as written. */
  lemma DrainWaitingFrame(v: RedisValue, rest: Bytes)
    requires Encodable(v)
    ensures DrainWaiting(Encode(v) + rest) == Prepend(Dispatched(v), DrainWaiting(rest))
  {
    var buffer := Encode(v) + rest;
    RoundTrip(v, rest);
    assert ParseOrWait(buffer) == Parsed(v, |Encode(v)|);
    assert buffer[|Encode(v)|..] == rest;
  }

  lemma {:induction false} DrainWaitingFrames(frames: seq<RedisValue>, tail: Bytes)
    requires forall i | 0 <= i < |frames| :: Encodable(frames[i])
    ensures DrainWaiting(EncodeAll(frames) + tail) == Prepend(DispatchedAll(frames), DrainWaiting(tail))
    decreases |frames|
  {
    if |frames| == 0 {
      DrainWaitingNoFrames(frames, tail);
    } else {
      DrainWaitingFrames(frames[1..], tail);
      DrainWaitingFirst(frames, tail);
    }
  }

  /** DrainWaitingFrames for no frames. */
  lemma DrainWaitingNoFrames(frames: seq<RedisValue>, tail: Bytes)
    requires |frames| == 0
    ensures DrainWaiting(EncodeAll(frames) + tail) == Prepend(DispatchedAll(frames), DrainWaiting(tail))
  {
    AppendEmpty(EncodeAll(frames), tail);
    assert Prepend(DispatchedAll(frames), DrainWaiting(tail)) == DrainWaiting(tail) by {
      AppendEmpty(DispatchedAll(frames), DrainWaiting(tail).commands);
    }
  }

  /** DrainWaitingFrames for `frames`, from DrainWaitingFrames for all but
      the first of them. */
  lemma DrainWaitingFirst(frames: seq<RedisValue>, tail: Bytes)
    requires |frames| > 0 && Encodable(frames[0])
    requires DrainWaiting(EncodeAll(frames[1..]) + tail) == Prepend(DispatchedAll(frames[1..]), DrainWaiting(tail))
    ensures DrainWaiting(EncodeAll(frames) + tail) == Prepend(DispatchedAll(frames), DrainWaiting(tail))
  {
    var first := frames[0];
    var rest := EncodeAll(frames[1..]) + tail;
    ConsFrames(frames, tail);
    DrainWaitingFrame(first, rest);
    PrependTwice(Dispatched(first), DispatchedAll(frames[1..]), DrainWaiting(tail));
  }

  /** A strict prefix of one encoding is kept whole by the corrected loop,
      waiting for the rest of the frame. */
  lemma DrainWaitingPrefix(last: RedisValue, partial: Bytes)
    requires Encodable(last) && |partial| < |Encode(last)| && StartsWith(Encode(last), partial)
    ensures DrainWaiting(partial) == Drain([], partial, None)
  {
    PrefixIsIncomplete(last, partial);
  }

  lemma DrainWaitingEmpty()
    ensures DrainWaiting([]) == Drain([], [], None)
  {
    assert NoCrlf([]);
  }

  lemma EncodeAllSplit(frames: seq<RedisValue>, k: nat)
    requires k <= |frames|
    ensures EncodeAll(frames) == EncodeAll(frames[..k]) + EncodeAll(frames[k..])
    ensures DispatchedAll(frames) == DispatchedAll(frames[..k]) + DispatchedAll(frames[k..])
  {
    assert frames == frames[..k] + frames[k..];
    EncodeAllConcat(frames[..k], frames[k..]);
    DispatchedAllConcat(frames[..k], frames[k..]);
  }

  lemma {:induction false} EncodeAllConcat(a: seq<RedisValue>, b: seq<RedisValue>)
    ensures EncodeAll(a + b) == EncodeAll(a) + EncodeAll(b)
    decreases |a|
  {
    if |a| == 0 {
      assert a + b == b;
    } else {
      EncodeAllConcat(a[1..], b);
      EncodeConsConcat(a, b);
    }
  }

  /** EncodeAllConcat for `a`, from EncodeAllConcat for all of `a` but its
      first frame. */
  lemma EncodeConsConcat(a: seq<RedisValue>, b: seq<RedisValue>)
    requires |a| > 0
    requires EncodeAll(a[1..] + b) == EncodeAll(a[1..]) + EncodeAll(b)
    ensures EncodeAll(a + b) == EncodeAll(a) + EncodeAll(b)
  {
    var first := a[0];
    AppendHead(a, b);
    AppendAssociates(Encode(first), EncodeAll(a[1..]), EncodeAll(b));
  }

  lemma {:induction false} DispatchedAllConcat(a: seq<RedisValue>, b: seq<RedisValue>)
    ensures DispatchedAll(a + b) == DispatchedAll(a) + DispatchedAll(b)
    decreases |a|
  {
    if |a| == 0 {
      assert a + b == b;
    } else {
      DispatchedAllConcat(a[1..], b);
      DispatchedConsConcat(a, b);
    }
  }

  /** DispatchedAllConcat for `a`, from DispatchedAllConcat for all of `a`
      but its first frame. */
  lemma DispatchedConsConcat(a: seq<RedisValue>, b: seq<RedisValue>)
    requires |a| > 0
    requires DispatchedAll(a[1..] + b) == DispatchedAll(a[1..]) + DispatchedAll(b)
    ensures DispatchedAll(a + b) == DispatchedAll(a) + DispatchedAll(b)
  {
    var first := a[0];
    AppendHead(a, b);
    AppendAssociates(Dispatched(first), DispatchedAll(a[1..]), DispatchedAll(b));
  }

  /** The frames a prefix of `p` bytes of their encodings holds whole: the
      first `k` of them, and the prefix ends inside the next one. */
  lemma {:induction false} SplitFrames(frames: seq<RedisValue>, p: nat) returns (k: nat)
    requires p <= |EncodeAll(frames)|
    ensures k <= |frames| && |EncodeAll(frames[..k])| <= p
    ensures k < |frames| ==> p < |EncodeAll(frames[..k])| + |Encode(frames[k])|
    ensures k == |frames| ==> p == |EncodeAll(frames)|
    decreases |frames|
  {
    if |frames| == 0 || p < |Encode(frames[0])| {
      k := 0;
      assert frames[..0] == [];
    } else {
      var j := SplitFrames(frames[1..], p - |Encode(frames[0])|);
      k := j + 1;
      assert frames[..k][1..] == frames[1..][..j];
      assert frames[..k][0] == frames[0];
      assert frames[k..] == frames[1..][j..];
    }
  }

  /** Every encoding has its tag byte, so the encodings of frames are at
      least as long as the first one's. */
  lemma FirstEncodingFits(frames: seq<RedisValue>)
    ensures |frames| > 0 ==> |Encode(frames[0])| <= |EncodeAll(frames)|
  {
  }

  /** Where a prefix of `whole == x + y` ends inside `x`, it is a prefix of `x`. */
  lemma PrefixInside(partial: Bytes, more: Bytes, x: Bytes, y: Bytes)
    requires partial + more == x + y && |partial| < |x|
    ensures StartsWith(x, partial)
  {
    assert x[..|partial|] == (x + y)[..|partial|];
  }

  /** A read `read`, followed by `later`, that holds the bytes `whole` keeps
      what comes after them. */
  lemma SplitRead(read: Bytes, later: Bytes, whole: Bytes, rest: Bytes) returns (partial: Bytes)
    requires read + later == whole + rest && |whole| <= |read|
    ensures read == whole + partial && partial + later == rest
  {
    partial := read[|whole|..];
    assert read[..|whole|] == (read + later)[..|whole|] == whole;
    assert read == read[..|whole|] + partial;
    assert whole + (partial + later) == whole + rest;
    assert partial + later == (whole + (partial + later))[|whole|..];
  }

  /** One read of the corrected replay, when what has been read so far ends
      inside the frames `frames`, after `buffer` is left of the first one. */
  lemma {:induction false} ResumeWaitingFrames(file: Bytes, offset: nat, buffer: Bytes, frames: seq<RedisValue>)
    requires offset <= |file|
    requires forall i | 0 <= i < |frames| :: Encodable(frames[i])
    requires buffer + file[offset..] == EncodeAll(frames)
    requires |frames| > 0 ==> |buffer| < |Encode(frames[0])|
    ensures ReplayWaitingFrom(file, offset, buffer) == Drain(DispatchedAll(frames), [], None)
    decreases |file| - offset
  {
    if offset == |file| {
      WaitingAtEnd(file, offset, buffer, frames);
    } else {
      var count := ChunkSize(file, offset);
      var k, partial := WaitingReadSplit(file, offset, buffer, frames);
      DrainRead(buffer + file[offset..offset + count], frames, k, partial);
      ResumeWaitingFrames(file, offset + count, partial, frames[k..]);
      WaitingStep(file, offset, buffer, DispatchedAll(frames[..k]), partial, DispatchedAll(frames[k..]));
    }
  }

  /** At the end of the file what is left is the end of the frames: none. */
  lemma WaitingAtEnd(file: Bytes, offset: nat, buffer: Bytes, frames: seq<RedisValue>)
    requires offset == |file|
    requires buffer + file[offset..] == EncodeAll(frames)
    requires |frames| > 0 ==> |buffer| < |Encode(frames[0])|
    ensures ReplayWaitingFrom(file, offset, buffer) == Drain(DispatchedAll(frames), [], None)
  {
    FirstEncodingFits(frames);
    assert buffer == EncodeAll(frames);
    assert frames == [];
    assert ReplayWaitingFrom(file, offset, buffer) == Drain([], [], None);
    assert DispatchedAll(frames) == [];
  }

  /** One read of the corrected replay: the buffer now holds the first `k`
      frames whole and then `partial`, the beginning of the next one, which
      the corrected drain keeps. */
  lemma WaitingReadSplit(file: Bytes, offset: nat, buffer: Bytes, frames: seq<RedisValue>)
      returns (k: nat, partial: Bytes)
    requires offset < |file|
    requires forall i | 0 <= i < |frames| :: Encodable(frames[i])
    requires buffer + file[offset..] == EncodeAll(frames)
    ensures k <= |frames|
    ensures buffer + file[offset..offset + ChunkSize(file, offset)] == EncodeAll(frames[..k]) + partial
    ensures partial + file[offset + ChunkSize(file, offset)..] == EncodeAll(frames[k..])
    ensures forall i | 0 <= i < |frames[k..]| :: Encodable(frames[k..][i])
    ensures |frames[k..]| > 0 ==> |partial| < |Encode(frames[k..][0])|
    ensures DrainWaiting(partial) == Drain([], partial, None)
    ensures DispatchedAll(frames) == DispatchedAll(frames[..k]) + DispatchedAll(frames[k..])
  {
    k, partial := ChunkFrames(file, offset, buffer, frames);
    WaitPartial(frames, k, partial, file[offset + ChunkSize(file, offset)..]);
  }

  /** The drain of a read holding the first `k` frames whole, then a part
      of the next one. */
  lemma DrainRead(read: Bytes, frames: seq<RedisValue>, k: nat, partial: Bytes)
    requires k <= |frames| && forall i | 0 <= i < |frames| :: Encodable(frames[i])
    requires read == EncodeAll(frames[..k]) + partial
    requires DrainWaiting(partial) == Drain([], partial, None)
    ensures DrainWaiting(read) == Prepend(DispatchedAll(frames[..k]), Drain([], partial, None))
  {
    var head := frames[..k];
    assert forall i | 0 <= i < |head| :: Encodable(head[i]);
    DrainWaitingFrames(head, partial);
  }

  /** One read of the corrected replay, from what its drain hands on and
      keeps and from the replay of the rest of the file. */
  lemma WaitingStep(file: Bytes, offset: nat, buffer: Bytes, first: seq<Command>, partial: Bytes, second: seq<Command>)
    requires offset < |file|
    requires DrainWaiting(buffer + file[offset..offset + ChunkSize(file, offset)])
          == Prepend(first, Drain([], partial, None))
    requires ReplayWaitingFrom(file, offset + ChunkSize(file, offset), partial) == Drain(second, [], None)
    ensures ReplayWaitingFrom(file, offset, buffer) == Drain(first + second, [], None)
  {
    WaitingRead(file, offset, buffer);
    ResumeAfterRead(file, offset + ChunkSize(file, offset), first, partial, second);
  }

  /** ReadFrames for the bytes held after a read of the log. */
  lemma ChunkFrames(file: Bytes, offset: nat, buffer: Bytes, frames: seq<RedisValue>) returns (k: nat, partial: Bytes)
    requires offset < |file| && buffer + file[offset..] == EncodeAll(frames)
    ensures var count := ChunkSize(file, offset);
            && k <= |frames|
            && buffer + file[offset..offset + count] == EncodeAll(frames[..k]) + partial
            && partial + file[offset + count..] == EncodeAll(frames[k..])
            && (k < |frames| ==> |partial| < |Encode(frames[k])|)
            && (k == |frames| ==> file[offset + count..] == [])
    ensures DispatchedAll(frames) == DispatchedAll(frames[..k]) + DispatchedAll(frames[k..])
  {
    var count := ChunkSize(file, offset);
    var read := buffer + file[offset..offset + count];
    var later := file[offset + count..];
    assert read + later == EncodeAll(frames) by {
      assert file[offset..] == file[offset..offset + count] + later;
    }
    k, partial := ReadFrames(read, later, frames);
  }

  /** The bytes read so far, `read`, split after the frames they hold whole;
      `partial` is what they hold of the next frame. */
  lemma ReadFrames(read: Bytes, later: Bytes, frames: seq<RedisValue>) returns (k: nat, partial: Bytes)
    requires read + later == EncodeAll(frames)
    ensures k <= |frames|
    ensures read == EncodeAll(frames[..k]) + partial && partial + later == EncodeAll(frames[k..])
    ensures k < |frames| ==> |partial| < |Encode(frames[k])|
    ensures k == |frames| ==> later == []
    ensures DispatchedAll(frames) == DispatchedAll(frames[..k]) + DispatchedAll(frames[k..])
  {
    k := SplitFrames(frames, |read|);
    EncodeAllSplit(frames, k);
    partial := SplitRead(read, later, EncodeAll(frames[..k]), EncodeAll(frames[k..]));
  }

  /** One read of the corrected outer loop. */
  lemma WaitingRead(file: Bytes, offset: nat, buffer: Bytes)
    requires offset < |file|
    ensures var count := ChunkSize(file, offset);
            ReplayWaitingFrom(file, offset, buffer)
            == ResumeWaiting(file, offset + count, DrainWaiting(buffer + file[offset..offset + count]))
  {
  }

  /** What is left after the whole frames of a read is kept, waiting. */
  lemma WaitPartial(frames: seq<RedisValue>, k: nat, partial: Bytes, later: Bytes)
    requires k <= |frames| && forall i | 0 <= i < |frames| :: Encodable(frames[i])
    requires partial + later == EncodeAll(frames[k..])
    requires k < |frames| ==> |partial| < |Encode(frames[k])|
    requires k == |frames| ==> later == []
    ensures DrainWaiting(partial) == Drain([], partial, None)
    ensures |frames[k..]| > 0 ==> |partial| < |Encode(frames[k..][0])|
    ensures forall i | 0 <= i < |frames[k..]| :: Encodable(frames[k..][i])
  {
    assert forall i | 0 <= i < |frames[k..]| :: frames[k..][i] == frames[k + i];
    if k < |frames| {
      assert EncodeAll(frames[k..]) == Encode(frames[k]) + EncodeAll(frames[k + 1..]) by {
        assert frames[k..][1..] == frames[k + 1..];
      }
      PrefixInside(partial, later, Encode(frames[k]), EncodeAll(frames[k + 1..]));
      DrainWaitingPrefix(frames[k], partial);
    } else {
      assert frames[k..] == [];
      DrainWaitingEmpty();
    }
  }

  /** The corrected replay after a read whose drain handed `first` to
      handleSet and kept `partial`. */
  lemma ResumeAfterRead(file: Bytes, offset: nat, first: seq<Command>, partial: Bytes, second: seq<Command>)
    requires offset <= |file|
    requires ReplayWaitingFrom(file, offset, partial) == Drain(second, [], None)
    ensures ResumeWaiting(file, offset, Prepend(first, Drain([], partial, None))) == Drain(first + second, [], None)
  {
    assert first + [] == first;
  }

  /** Corrected: replaying a log of loggable commands, of any size, hands
      every command to handleSet in the order they were written and leaves
      nothing behind, wherever the 2048-byte reads cut its frames. */
  lemma WaitingLogReplay(commands: seq<Command>, file: Bytes)
    requires forall i | 0 <= i < |commands| :: LoggableCommand(commands[i])
    requires file == EncodeAll(CommandFrames(commands))
    ensures ReplayWaitingFrom(file, 0, []) == Drain(commands, [], None)
  {
    var frames := CommandFrames(commands);
    forall i | 0 <= i < |frames|
      ensures Encodable(frames[i])
    {
      CommandFrameEncodable(commands[i]);
    }
    CommandFramesDispatch(commands);
    FirstEncodingFits(frames);
    assert [] + file[0..] == file;
    if |frames| > 0 {
      assert |Encode(frames[0])| > 0;
    }
    ResumeWaitingFrames(file, 0, [], frames);
  }

  /** The log of the as-written lemma above, replayed with the corrected
      parse: its one command reaches handleSet. */
  lemma StraddledArgumentWaits(init: Command, value: Bytes)
    requires LoggableCommand(init + [Some(value)])
    ensures var c := init + [Some(value)];
            ReplayWaitingFrom(Encode(CommandFrame(c)), 0, []) == Drain([c], [], None)
  {
    var c := init + [Some(value)];
    SingleFrameLog(c);
    assert [c][0] == c;
    WaitingLogReplay([c], Encode(CommandFrame(c)));
  }

  /** The log of one command is its frame. */
  lemma SingleFrameLog(c: Command)
    ensures EncodeAll(CommandFrames([c])) == Encode(CommandFrame(c))
  {
    var frames := CommandFrames([c]);
    assert frames == [CommandFrame(c)];
    assert frames[1..] == [];
    assert EncodeAll(frames) == Encode(CommandFrame(c)) + EncodeAll([]);
  }
}
