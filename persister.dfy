/**
 * Replay of the write-ahead log (restoreFromFile in src/persister.cpp): the
 * file is read in chunks of 2048 bytes, each chunk is appended to a buffer,
 * and the buffer is drained frame by frame with protocol.h's parseMessage.
 * Every frame that is a non-null array of bulk strings is handed to the
 * controller's handleSet; every other frame is erased and skipped.
 *
 * The file is a parameter (its bytes, or `None` when it cannot be opened),
 * and the controller is a recorder of the commands handleSet receives.
 * `DrainBuffer` and `ReplayFrom` are the specification of the two loops;
 * `RestoreFromFile` is the loops themselves, proved to compute them.
 *
 * What stops the replay early is kept as a `Failure`: an exception of
 * std::stoi or std::stoll leaves restoreFromFile, and the undefined cases of
 * parseMessage, or an erase of more bytes than the buffer holds, end the
 * defined behaviour of the program.
 */
module Persister {
  import opened Wrappers
  import opened ByteStrings
  import opened RedisType
  import opened Decimal
  import opened Protocol
  import opened ProtocolProperties
  import opened Controller

  /** The number of bytes one read asks for. */
  const RECV_SIZE: nat := 2048

  datatype Failure =
      /** parseMessage threw. */
    | Threw(error: ConversionError)
      /** parseMessage did something undefined. */
    | ParserUndefined(cause: UndefinedCause)
      /** The frame claims more bytes than the buffer holds, and erasing
          them runs past the end of the vector. */
    | EraseBeyondBuffer

  /** The commands handed to handleSet, in order, the bytes left in the
      buffer, and what stopped the replay early, if anything did. */
  datatype Drain = Drain(commands: seq<Command>, rest: Bytes, failure: Option<Failure>)

  /** `rest` is what is left of `whole` once bytes are erased from its front. */
  predicate IsSuffix(rest: Bytes, whole: Bytes) {
    |rest| <= |whole| && rest == whole[|whole| - |rest|..]
  }

  /** The command an array's elements make: a bulk string per element, and
      none at all once an element is not a bulk string. */
  function CommandOf(items: seq<RedisValue>): (r: Option<Command>)
    ensures r.Some? <==> forall i | 0 <= i < |items| :: items[i].BulkString?
    ensures r.Some? ==> |r.value| == |items| && forall i | 0 <= i < |items| :: r.value[i] == items[i].bytes
    decreases |items|
  {
    if |items| == 0 then Some([])
    else if !items[0].BulkString? then None
    else
      match CommandOf(items[1..])
      case None => None
      case Some(tail) => Some([items[0].bytes] + tail)
  }

  /** The command a frame carries: only a non-null array of bulk strings
      carries one. */
  function FrameCommand(message: RedisValue): Option<Command> {
    if message.Array? && message.elements.Elements? then CommandOf(message.elements.items) else None
  }

  /** What a frame adds to the commands handed to handleSet. */
  function Dispatched(message: RedisValue): seq<Command> {
    match FrameCommand(message)
    case None => []
    case Some(command) => [command]
  }

  /** The commands of a sequence of frames, in the order of the frames. */
  function DispatchedAll(frames: seq<RedisValue>): seq<Command>
    decreases |frames|
  {
    if |frames| == 0 then [] else Dispatched(frames[0]) + DispatchedAll(frames[1..])
  }

  /** `d`, after the commands `commands` have already been handled. */
  function Prepend(commands: seq<Command>, d: Drain): Drain {
    Drain(commands + d.commands, d.rest, d.failure)
  }

  /** What stops the drain at a parse outcome, for a buffer of `available`
      bytes; `None` when the drain goes on or waits for more bytes. */
  function StepFailure(parsed: ParseOutcome, available: nat): Option<Failure> {
    match parsed
    case NoFrame => None
    case Thrown(e) => Some(Threw(e))
    case Undefined(cause) => Some(ParserUndefined(cause))
    case Parsed(_, length) => if length > available then Some(EraseBeyondBuffer) else None
  }

  /** The inner `while (true)` loop over one buffer: frames are parsed and
      erased from its front until parseMessage finds none. The drain ends
      at nullopt, or at the first failure, and what is left of the buffer
      is the bytes at which it ended. */
  function DrainBuffer(buffer: Bytes): (r: Drain)
    ensures IsSuffix(r.rest, buffer)
    ensures r.failure.None? ==> Parse(r.rest).NoFrame?
    ensures r.failure.Some? ==> r.failure == StepFailure(Parse(r.rest), |r.rest|)
    decreases |buffer|
  {
    match Parse(buffer)
    case NoFrame => Drain([], buffer, None)
    case Thrown(e) => Drain([], buffer, Some(Threw(e)))
    case Undefined(cause) => Drain([], buffer, Some(ParserUndefined(cause)))
    case Parsed(message, length) =>
      if length > |buffer| then Drain([], buffer, Some(EraseBeyondBuffer))
      else
        var next := DrainBuffer(buffer[length..]);
        assert buffer[length..][|buffer[length..]| - |next.rest|..] == buffer[|buffer| - |next.rest|..];
        Prepend(Dispatched(message), next)
  }

  /** The number of bytes file.read gives from `offset` on: a whole chunk,
      or what is left of the file. */
  function ChunkSize(file: Bytes, offset: nat): (count: nat)
    requires offset <= |file|
    ensures offset + count <= |file|
    ensures offset < |file| ==> count > 0
    ensures count < RECV_SIZE ==> offset + count == |file|
  {
    if |file| - offset < RECV_SIZE then |file| - offset else RECV_SIZE
  }

  /** The outer `while (file)` loop from `offset` on, with `buffer` left
      over from the chunks before: each chunk is appended to the buffer and
      the buffer is drained; a read that gives no bytes ends the loop. */
  function ReplayFrom(file: Bytes, offset: nat, buffer: Bytes): (r: Drain)
    requires offset <= |file|
    decreases |file| - offset, 0
  {
    if offset == |file| then Drain([], buffer, None)
    else
      var count := ChunkSize(file, offset);
      Resume(file, offset + count, DrainBuffer(buffer + file[offset..offset + count]))
  }

  /** The replay after the drain `d` of a buffer: a failure ends it, and
      otherwise the next chunk is read from `offset` on. */
  function Resume(file: Bytes, offset: nat, d: Drain): (r: Drain)
    requires offset <= |file|
    decreases |file| - offset, 1
  {
    if d.failure.Some? then d else Prepend(d.commands, ReplayFrom(file, offset, d.rest))
  }

  /** restoreFromFile on the whole file, from an empty buffer. */
  function Replay(file: Bytes): Drain {
    ReplayFrom(file, 0, [])
  }

  /** Controller::handleSet as the replay sees it: a sink that keeps, in
      order, every command handed to it. */
  class CommandRecorder {
    var calls: seq<Command>

    constructor()
      ensures calls == []
    {
      calls := [];
    }

    method HandleSet(command: Command)
      modifies this
      ensures calls == old(calls) + [command]
    {
      calls := calls + [command];
    }
  }

  /** The `for` loop over an array's elements that builds the command,
      with `err` set at the first element that is not a bulk string. */
  method ExtractCommand(items: seq<RedisValue>) returns (command: Command, err: bool)
    ensures err <==> CommandOf(items).None?
    ensures !err ==> command == CommandOf(items).value
  {
    command := [];
    err := false;
    var j := 0;
    while j < |items|
      invariant 0 <= j <= |items|
      invariant |command| == j
      invariant forall i | 0 <= i < j :: items[i].BulkString? && command[i] == items[i].bytes
    {
      if !items[j].BulkString? {
        err := true;
        break;
      }
      command := command + [items[j].bytes];
      j := j + 1;
    }
  }

  /** The drain of a buffer that starts with a frame of `length` bytes:
      the frame's command, if any, then the drain of what follows it. */
  lemma DrainParsed(buffer: Bytes, message: RedisValue, length: nat)
    requires Parse(buffer) == Parsed(message, length) && length <= |buffer|
    ensures DrainBuffer(buffer) == Prepend(Dispatched(message), DrainBuffer(buffer[length..]))
  {
  }

  /** The drain of a buffer at which the parse fails stops there. */
  lemma DrainFails(buffer: Bytes, failure: Failure)
    requires StepFailure(Parse(buffer), |buffer|) == Some(failure)
    ensures DrainBuffer(buffer) == Drain([], buffer, Some(failure))
  {
  }

  /** The drain of a buffer holding no frame leaves it as it is. */
  lemma DrainNoFrame(buffer: Bytes)
    requires Parse(buffer).NoFrame?
    ensures DrainBuffer(buffer) == Drain([], buffer, None)
  {
  }

  /** Commands handled before a drain stay in front of everything the
      replay adds after it. */
  lemma ResumePrepend(file: Bytes, offset: nat, commands: seq<Command>, d: Drain)
    requires offset <= |file|
    ensures Resume(file, offset, Prepend(commands, d)) == Prepend(commands, Resume(file, offset, d))
  {
    if d.failure.None? {
      var more := ReplayFrom(file, offset, d.rest);
      assert commands + d.commands + more.commands == commands + (d.commands + more.commands);
    }
  }

  lemma PrependTwice(first: seq<Command>, second: seq<Command>, d: Drain)
    ensures Prepend(first, Prepend(second, d)) == Prepend(first + second, d)
  {
    assert first + (second + d.commands) == first + second + d.commands;
  }

  /** The inner `while (true)` loop of restoreFromFile: frames are parsed
      and erased from the front of `buffer`, each command among them is
      handed to `controller`, and the loop ends where DrainBuffer ends. */
  method DrainInto(buffer: Bytes, controller: CommandRecorder) returns (failure: Option<Failure>, rest: Bytes)
    modifies controller
    ensures controller.calls == old(controller.calls) + DrainBuffer(buffer).commands
    ensures rest == DrainBuffer(buffer).rest && failure == DrainBuffer(buffer).failure
  {
    rest := buffer;
    ghost var goal := Prepend(controller.calls, DrainBuffer(buffer));
    while true
      invariant Prepend(controller.calls, DrainBuffer(rest)) == goal
      decreases |rest|
    {
      var parsed := ParseMessage(rest);
      DrainStep(rest, parsed);
      if !parsed.Parsed? || parsed.consumed > |rest| {
        // nullopt ends the loop; an exception or undefined behaviour ends it too
        failure := StepFailure(parsed, |rest|);
        Stopped(controller.calls, rest, failure, goal);
        return;
      }
      var message := parsed.value;
      var length := parsed.consumed;
      PrependTwice(controller.calls, Dispatched(message), DrainBuffer(rest[length..]));
      rest := rest[length..];
      DispatchFrame(message, controller);
    }
  }

  /** The drain of a buffer, decided by what parseMessage finds at its front. */
  lemma DrainStep(buffer: Bytes, parsed: ParseOutcome)
    requires parsed == Parse(buffer)
    ensures !parsed.Parsed? || parsed.consumed > |buffer|
            ==> DrainBuffer(buffer) == Drain([], buffer, StepFailure(parsed, |buffer|))
    ensures parsed.Parsed? && parsed.consumed <= |buffer|
            ==> DrainBuffer(buffer) == Prepend(Dispatched(parsed.value), DrainBuffer(buffer[parsed.consumed..]))
  {
  }

  /** A drain that ends at once leaves the commands handled so far. */
  lemma Stopped(calls: seq<Command>, rest: Bytes, failure: Option<Failure>, goal: Drain)
    requires DrainBuffer(rest) == Drain([], rest, failure)
    requires Prepend(calls, DrainBuffer(rest)) == goal
    ensures goal == Drain(calls, rest, failure)
  {
    assert calls + [] == calls;
  }

  /** What the inner loop does with a parsed frame once it is erased: a
      frame that is not a non-null array of bulk strings is skipped, and the
      command of any other is handed to handleSet. */
  method DispatchFrame(message: RedisValue, controller: CommandRecorder)
    modifies controller
    ensures controller.calls == old(controller.calls) + Dispatched(message)
  {
    if !message.Array? || message.elements.NullArray? {
      assert controller.calls + Dispatched(message) == controller.calls;
      return;
    }
    var command, err := ExtractCommand(message.elements.items);
    if err {
      assert controller.calls + Dispatched(message) == controller.calls;
      return;
    }
    controller.HandleSet(command);
  }

  /** One read of the outer loop: the chunk is appended, which leads to
      the buffer `read` and the offset `later`, and the drain of the new
      buffer decides the rest. */
  lemma ChunkRead(file: Bytes, offset: nat, buffer: Bytes, calls: seq<Command>, goal: Drain, later: nat, read: Bytes)
    requires offset < |file|
    requires later == offset + ChunkSize(file, offset) && read == buffer + file[offset..later]
    requires Prepend(calls, ReplayFrom(file, offset, buffer)) == goal
    ensures Prepend(calls, Resume(file, later, DrainBuffer(read))) == goal
  {
    ChunkUnfold(file, offset, buffer);
    assert file[offset..later] == file[offset..offset + ChunkSize(file, offset)];
    ChunkResumesAt(file, offset, buffer, offset + ChunkSize(file, offset), later,
                   buffer + file[offset..offset + ChunkSize(file, offset)], read);
  }

  /** The outer loop, from `offset` with `buffer`, goes on from `later`
      with the drain of `read`. */
  predicate ChunkResumes(file: Bytes, offset: nat, buffer: Bytes, later: nat, read: Bytes) {
    offset <= |file| && later <= |file| && ReplayFrom(file, offset, buffer) == Resume(file, later, DrainBuffer(read))
  }

  /** One read, in the terms the outer loop computes it in. */
  lemma ChunkUnfold(file: Bytes, offset: nat, buffer: Bytes)
    requires offset < |file|
    ensures ChunkResumes(file, offset, buffer, offset + ChunkSize(file, offset),
                         buffer + file[offset..offset + ChunkSize(file, offset)])
  {
  }

  lemma ChunkResumesAt(file: Bytes, offset: nat, buffer: Bytes, later: nat, later': nat, read: Bytes, read': Bytes)
    requires ChunkResumes(file, offset, buffer, later, read)
    requires later == later' && read == read'
    ensures ChunkResumes(file, offset, buffer, later', read')
  {
  }

  /** After the drain `d` the replay either stops with it or goes on from
      its leftover bytes, with its commands handled. */
  lemma Drained(file: Bytes, offset: nat, calls: seq<Command>, d: Drain, goal: Drain)
    requires offset <= |file|
    requires Prepend(calls, Resume(file, offset, d)) == goal
    ensures d.failure.Some? ==> goal == Drain(calls + d.commands, d.rest, d.failure)
    ensures d.failure.None? ==> Prepend(calls + d.commands, ReplayFrom(file, offset, d.rest)) == goal
  {
    if d.failure.None? {
      PrependTwice(calls, d.commands, ReplayFrom(file, offset, d.rest));
    }
  }

  /** The end of the file: the replay adds nothing and leaves the buffer. */
  lemma EndOfFile(file: Bytes, buffer: Bytes, calls: seq<Command>, goal: Drain)
    requires Prepend(calls, ReplayFrom(file, |file|, buffer)) == goal
    ensures goal == Drain(calls, buffer, None)
  {
    assert calls + [] == calls;
  }

  /** restoreFromFile, for a file with contents `file` (`None` when it
      cannot be opened), replaying into `controller`. It returns what
      stopped the replay early, if anything did, and the bytes left in the
      buffer at the end. */
  method RestoreFromFile(file: Option<Bytes>, controller: CommandRecorder) returns (failure: Option<Failure>, leftover: Bytes)
    modifies controller
    ensures file.None? ==> controller.calls == old(controller.calls) && failure.None? && leftover == []
    ensures file.Some? ==> controller.calls == old(controller.calls) + Replay(file.value).commands
    ensures file.Some? ==> failure == Replay(file.value).failure && leftover == Replay(file.value).rest
  {
    var buffer: Bytes := [];
    if file.None? {
      return None, buffer;
    }
    var contents := file.value;
    ghost var goal := Prepend(old(controller.calls), Replay(contents));
    var offset: nat := 0;
    var good := true;
    while good
      invariant offset <= |contents|
      invariant !good ==> offset == |contents|
      invariant Prepend(controller.calls, ReplayFrom(contents, offset, buffer)) == goal
      decreases |contents| - offset, good
    {
      var count := ChunkSize(contents, offset);
      if count == 0 {
        break;
      }
      good := count == RECV_SIZE;
      var next := offset + count;
      var data := contents[offset..next];
      ghost var before, at := buffer, offset;
      offset := next;
      buffer := buffer + data;
      ChunkRead(contents, at, before, controller.calls, goal, offset, buffer);
      ghost var calls := controller.calls;
      ghost var d := DrainBuffer(buffer);
      var stopped;
      stopped, buffer := DrainInto(buffer, controller);
      Drained(contents, offset, calls, d, goal);
      if stopped.Some? {
        return stopped, buffer;
      }
    }
    EndOfFile(contents, buffer, controller.calls, goal);
    return None, buffer;
  }

  /** The frame the log holds for `command`: an array of its bulk strings. */
  function CommandFrame(command: Command): (v: RedisValue)
    ensures FrameCommand(v) == Some(command)
  {
    var items := seq(|command|, i requires 0 <= i < |command| => BulkString(command[i]));
    assert CommandOf(items).Some?;
    assert CommandOf(items).value == command;
    Array(Elements(items))
  }

  /** The frames of a log holding `commands`, one after the other. */
  function CommandFrames(commands: seq<Command>): (frames: seq<RedisValue>)
    ensures |frames| == |commands|
    ensures forall i | 0 <= i < |commands| :: frames[i] == CommandFrame(commands[i])
  {
    seq(|commands|, i requires 0 <= i < |commands| => CommandFrame(commands[i]))
  }

  /** A command whose frame encode writes in a form parseMessage reads back:
      at least one element, and no more elements or bytes than std::stoi
      reads as a length. */
  predicate LoggableCommand(command: Command) {
    && 0 < |command| <= INT_MAX
    && forall i | 0 <= i < |command| :: command[i].Some? ==> |command[i].value| <= INT_MAX
  }

  lemma CommandFrameEncodable(command: Command)
    requires LoggableCommand(command)
    ensures Encodable(CommandFrame(command))
  {
    var items := CommandFrame(command).elements.items;
    forall i | 0 <= i < |items|
      ensures Encodable(items[i])
    {
      assert items[i] == BulkString(command[i]);
    }
  }

  /** The frames of a log give back, in order, the commands they hold. */
  lemma {:induction false} CommandFramesDispatch(commands: seq<Command>)
    ensures DispatchedAll(CommandFrames(commands)) == commands
    decreases |commands|
  {
    if |commands| > 0 {
      assert CommandFrames(commands)[1..] == CommandFrames(commands[1..]);
      CommandFramesDispatch(commands[1..]);
    }
  }

  /** Draining a buffer that begins with the encoding of one frame. */
  lemma DrainFrame(v: RedisValue, rest: Bytes)
    requires Encodable(v)
    ensures DrainBuffer(Encode(v) + rest) == Prepend(Dispatched(v), DrainBuffer(rest))
  {
    var buffer := Encode(v) + rest;
    RoundTrip(v, rest);
    DrainParsed(buffer, v, |Encode(v)|);
    assert buffer[|Encode(v)|..] == rest;
  }

  /** Draining a buffer that begins with the encodings of `frames` hands
      their commands to handleSet, in order, and goes on with what follows
      them. */
  lemma {:induction false} DrainFrames(frames: seq<RedisValue>, tail: Bytes)
    requires forall i | 0 <= i < |frames| :: Encodable(frames[i])
    ensures DrainBuffer(EncodeAll(frames) + tail) == Prepend(DispatchedAll(frames), DrainBuffer(tail))
    decreases |frames|
  {
    if |frames| == 0 {
      DrainNoFrames(frames, tail);
    } else {
      DrainFrames(frames[1..], tail);
      DrainFirstFrame(frames, tail);
    }
  }

  /** No frames in front of `tail` leave its drain as it is. */
  lemma DrainNoFrames(frames: seq<RedisValue>, tail: Bytes)
    requires |frames| == 0
    ensures DrainBuffer(EncodeAll(frames) + tail) == Prepend(DispatchedAll(frames), DrainBuffer(tail))
  {
    var d := DrainBuffer(tail);
    AppendEmpty(EncodeAll(frames), tail);
    AppendEmpty(DispatchedAll(frames), d.commands);
  }

  /** The first frame is drained, then the others as the rest of the
      buffer. */
  lemma DrainFirstFrame(frames: seq<RedisValue>, tail: Bytes)
    requires |frames| > 0 && Encodable(frames[0])
    requires DrainBuffer(EncodeAll(frames[1..]) + tail) == Prepend(DispatchedAll(frames[1..]), DrainBuffer(tail))
    ensures DrainBuffer(EncodeAll(frames) + tail) == Prepend(DispatchedAll(frames), DrainBuffer(tail))
  {
    var rest := EncodeAll(frames[1..]) + tail;
    ConsFrames(frames, tail);
    DrainFrame(frames[0], rest);
    PrependTwice(Dispatched(frames[0]), DispatchedAll(frames[1..]), DrainBuffer(tail));
  }

  /** The first frame of a non-empty sequence, split off. */
  lemma ConsFrames(frames: seq<RedisValue>, tail: Bytes)
    requires |frames| > 0
    ensures EncodeAll(frames) + tail == Encode(frames[0]) + (EncodeAll(frames[1..]) + tail)
    ensures DispatchedAll(frames) == Dispatched(frames[0]) + DispatchedAll(frames[1..])
  {
  }

  /** A buffer that holds nothing is drained without a command. */
  lemma DrainEmpty()
    ensures DrainBuffer([]) == Drain([], [], None)
  {
    assert NoCrlf([]);
  }

  /** A buffer that holds a strict prefix of one encoding is drained
      without a command and without erasing anything. */
  lemma DrainPrefix(last: RedisValue, partial: Bytes)
    requires Encodable(last) && |partial| < |Encode(last)| && StartsWith(Encode(last), partial)
    ensures DrainBuffer(partial).commands == [] && DrainBuffer(partial).rest == partial
  {
    PrefixIsIncomplete(last, partial);
    var r := Parse(partial);
    match r
    case NoFrame => DrainNoFrame(partial);
    case Undefined(cause) => DrainFails(partial, ParserUndefined(cause));
    case Parsed(_, _) => DrainFails(partial, EraseBeyondBuffer);
  }

  /** A frame that is cut short at the end of the buffer is never handed to
      handleSet: the drain ends at it, waiting for more bytes or, where the
      C++ reads past the buffer, with a failure. */
  lemma TrailingPartialFrame(frames: seq<RedisValue>, last: RedisValue, partial: Bytes)
    requires forall i | 0 <= i < |frames| :: Encodable(frames[i])
    requires Encodable(last) && |partial| < |Encode(last)| && StartsWith(Encode(last), partial)
    ensures DrainBuffer(EncodeAll(frames) + partial).commands == DispatchedAll(frames)
    ensures DrainBuffer(EncodeAll(frames) + partial).rest == partial
  {
    DrainFrames(frames, partial);
    DrainPrefix(last, partial);
    assert DispatchedAll(frames) + [] == DispatchedAll(frames);
  }

  /** Every encoding holds at least its tag byte. */
  lemma EncodeAllNonEmpty(frames: seq<RedisValue>)
    ensures |frames| > 0 ==> |EncodeAll(frames)| > 0
  {
    if |frames| > 0 {
      assert |Encode(frames[0])| > 0;
    }
  }

  /** A buffer that holds exactly the encodings of `frames` is drained
      completely, handing their commands to handleSet. */
  lemma DrainWhole(frames: seq<RedisValue>)
    requires forall i | 0 <= i < |frames| :: Encodable(frames[i])
    ensures DrainBuffer(EncodeAll(frames)) == Drain(DispatchedAll(frames), [], None)
  {
    DrainFrames(frames, []);
    DrainEmpty();
    assert EncodeAll(frames) + [] == EncodeAll(frames);
    assert DispatchedAll(frames) + [] == DispatchedAll(frames);
  }

  /** Replaying a log that fits in one read hands every command it holds to
      handleSet, in the order they were written, and leaves nothing behind. */
  lemma SmallLogReplay(commands: seq<Command>)
    requires forall i | 0 <= i < |commands| :: LoggableCommand(commands[i])
    requires |EncodeAll(CommandFrames(commands))| <= RECV_SIZE
    ensures Replay(EncodeAll(CommandFrames(commands))) == Drain(commands, [], None)
  {
    var frames := CommandFrames(commands);
    var file := EncodeAll(frames);
    forall i | 0 <= i < |frames|
      ensures Encodable(frames[i])
    {
      CommandFrameEncodable(commands[i]);
    }
    CommandFramesDispatch(commands);
    if |file| == 0 {
      EncodeAllNonEmpty(frames);
    } else {
      DrainWhole(frames);
      SingleRead(file, commands);
    }
  }

  /** A file that one read takes whole is replayed by draining it. */
  lemma OneChunk(file: Bytes)
    requires 0 < |file| <= RECV_SIZE
    ensures Replay(file) == Resume(file, |file|, DrainBuffer(file))
  {
    assert ChunkSize(file, 0) == |file|;
    assert [] + file[0..|file|] == file;
  }

  /** A drain that ends without failure and without leftover bytes at the
      end of the file ends the replay. */
  lemma DrainedAtEnd(file: Bytes, d: Drain)
    requires d.failure.None? && d.rest == []
    ensures Resume(file, |file|, d) == Drain(d.commands, [], None)
  {
    assert d.commands + [] == d.commands;
  }

  /** The replay of a file that one read takes whole, whose drain hands
      `commands` to handleSet and leaves nothing. */
  lemma SingleRead(file: Bytes, commands: seq<Command>)
    requires 0 < |file| <= RECV_SIZE
    requires DrainBuffer(file) == Drain(commands, [], None)
    ensures Replay(file) == Drain(commands, [], None)
  {
    OneChunk(file);
    DrainedAtEnd(file, DrainBuffer(file));
  }
}
