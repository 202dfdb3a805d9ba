/**
 * Command dispatch of src/controller.cpp: handleCommand upper-cases the
 * command name and compares it with "ECHO"; handleEcho answers with its one
 * argument. Neither reads or writes the controller's data store, so both are
 * functions of the command.
 *
 * As written, handleCommand calls handleEcho but does not return its result,
 * so every non-empty command is answered "ERR unsupported command".
 * `HandleCommand` models that code; `HandleCommandIntended` returns the echo.
 */
module Controller {
  import opened Wrappers
  import opened ByteStrings
  import opened RedisType
  import opened Protocol

  /** A command as the controller receives it: the bulk strings of one
      array frame, a null bulk string as `None`. */
  type Command = seq<Option<Bytes>>

  const ECHO: Bytes := Ascii("ECHO")
  const LOWER_ECHO: Bytes := Ascii("echo")

  const EMPTY_COMMAND: RedisValue := SimpleError(Ascii("ERR empty command"))
  const UNSUPPORTED_COMMAND: RedisValue := SimpleError(Ascii("ERR unsupported command"))
  const ECHO_ARITY: RedisValue := SimpleError(Ascii("ERR wrong number of arguments for 'echo' command"))

  /** ::toupper in the "C" locale: 'a'..'z' become 'A'..'Z', every other
      byte is left as it is. */
  function UpperByte(b: byte): byte {
    if 'a' as byte <= b <= 'z' as byte then (b as int - 32) as byte else b
  }

  /** std::transform of the command name with ::toupper. */
  function ToUpper(s: Bytes): (r: Bytes)
    ensures |r| == |s|
    ensures forall i | 0 <= i < |s| :: r[i] == UpperByte(s[i])
  {
    seq(|s|, i requires 0 <= i < |s| => UpperByte(s[i]))
  }

  /** A name that is "echo" in any mix of cases, byte by byte. */
  predicate IsEchoName(name: Bytes) {
    |name| == 4 && forall i | 0 <= i < 4 :: name[i] == ECHO[i] || name[i] == LOWER_ECHO[i]
  }

  /** Upper-casing is idempotent. */
  lemma ToUpperIdempotent(s: Bytes)
    ensures ToUpper(ToUpper(s)) == ToUpper(s)
  {
    assert forall i | 0 <= i < |s| :: UpperByte(UpperByte(s[i])) == UpperByte(s[i]);
  }

  /** The upper-cased name is "ECHO" exactly when the name is "echo" in
      some mix of cases. */
  lemma EchoNameIgnoresCase(name: Bytes)
    ensures ToUpper(name) == ECHO <==> IsEchoName(name)
  {
    if IsEchoName(name) {
      forall i | 0 <= i < 4
        ensures ToUpper(name)[i] == ECHO[i]
      {
      }
    }
    if ToUpper(name) == ECHO {
      forall i | 0 <= i < 4
        ensures name[i] == ECHO[i] || name[i] == LOWER_ECHO[i]
      {
        assert UpperByte(name[i]) == ECHO[i];
      }
    }
  }

  /** The name of a non-empty command: the bytes of its first bulk string,
      which handleCommand dereferences without a null check. */
  function CommandName(command: Command): (name: Bytes)
    requires |command| > 0 && command[0].Some?
    ensures name == command[0].value
  {
    ExtractStringFromBytes(command[0].value, 0, |command[0].value|)
  }

  /** handleEcho: an error unless the command is ECHO with exactly one
      argument, which is then answered unchanged. */
  function HandleEcho(command: Command): (r: RedisValue)
    ensures r.SimpleError? <==> |command| != 2
    ensures r.SimpleError? ==> r == ECHO_ARITY
    ensures |command| == 2 ==> r == BulkString(command[1])
  {
    if |command| != 2 then ECHO_ARITY else BulkString(command[1])
  }

  /** handleCommand as written: the result of handleEcho is dropped, and
      the error for an unsupported command is returned after it. */
  function HandleCommand(command: Command): (r: RedisValue)
    requires |command| > 0 ==> command[0].Some?
    ensures |command| == 0 ==> r == EMPTY_COMMAND
    ensures |command| > 0 ==> r == UNSUPPORTED_COMMAND
  {
    if |command| == 0 then EMPTY_COMMAND
    else
      var commandType := ToUpper(CommandName(command));
      if commandType == ECHO then
        var dropped := HandleEcho(command);
        UNSUPPORTED_COMMAND
      else UNSUPPORTED_COMMAND
  }

  /** handleCommand with `return handleEcho(command);` on line 16: ECHO in
      any case is answered by handleEcho, every other name is unsupported. */
  function HandleCommandIntended(command: Command): (r: RedisValue)
    requires |command| > 0 ==> command[0].Some?
    ensures |command| == 0 ==> r == EMPTY_COMMAND
    ensures |command| > 0 && IsEchoName(command[0].value) ==> r == HandleEcho(command)
    ensures |command| > 0 && !IsEchoName(command[0].value) ==> r == UNSUPPORTED_COMMAND
  {
    if |command| == 0 then EMPTY_COMMAND
    else
      var commandType := ToUpper(CommandName(command));
      EchoNameIgnoresCase(command[0].value);
      if commandType == ECHO then HandleEcho(command)
      else UNSUPPORTED_COMMAND
  }

  /** The corrected dispatch answers the same for two names that differ
      only in case. */
  lemma IntendedIgnoresCase(command: Command, name: Bytes)
    requires |command| > 0 && command[0].Some?
    requires ToUpper(name) == ToUpper(command[0].value)
    ensures HandleCommandIntended(command[0 := Some(name)]) == HandleCommandIntended(command)
  {
    EchoNameIgnoresCase(name);
    EchoNameIgnoresCase(command[0].value);
  }

  /** The three tests of tests/controller_test.cpp hold for the corrected
      dispatch: ECHO without an argument is an arity error, ECHO "Hello"
      and EcHo "Hello" are answered "Hello". */
  lemma IntendedPassesControllerTests()
    ensures HandleCommandIntended([Some(Ascii("ECHO"))]) == ECHO_ARITY
    ensures HandleCommandIntended([Some(Ascii("ECHO")), Some(Ascii("Hello"))]) == BulkString(Some(Ascii("Hello")))
    ensures HandleCommandIntended([Some(Ascii("EcHo")), Some(Ascii("Hello"))]) == BulkString(Some(Ascii("Hello")))
  {
    assert IsEchoName(Ascii("ECHO"));
    assert IsEchoName(Ascii("EcHo"));
  }

  /** As written, handleCommand fails all three tests: it answers each of
      them with the unsupported-command error. */
  lemma AsWrittenFailsControllerTests()
    ensures HandleCommand([Some(Ascii("ECHO"))]) != ECHO_ARITY
    ensures HandleCommand([Some(Ascii("ECHO")), Some(Ascii("Hello"))]) != BulkString(Some(Ascii("Hello")))
    ensures HandleCommand([Some(Ascii("EcHo")), Some(Ascii("Hello"))]) != BulkString(Some(Ascii("Hello")))
  {
    assert ECHO_ARITY.message[4] == 'w' as byte by {
      var text := "ERR wrong number of arguments for 'echo' command";
      assert text[4] == 'w';
    }
    assert UNSUPPORTED_COMMAND.message[4] != ECHO_ARITY.message[4];
  }

  /** An empty command is the only one answered "ERR empty command", in
      both versions. */
  lemma EmptyCommandError(command: Command)
    requires |command| > 0 ==> command[0].Some?
    ensures HandleCommand(command) == EMPTY_COMMAND <==> |command| == 0
    ensures HandleCommandIntended(command) == EMPTY_COMMAND <==> |command| == 0
  {
    assert EMPTY_COMMAND.message[4] != UNSUPPORTED_COMMAND.message[4];
    assert ECHO_ARITY.message[4] == 'w' as byte by {
      var text := "ERR wrong number of arguments for 'echo' command";
      assert text[4] == 'w';
    }
    assert EMPTY_COMMAND.message[4] != ECHO_ARITY.message[4];
  }
}
