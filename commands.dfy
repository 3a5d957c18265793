/** The validation half of `PAGIWorld.send_message` (pagi_api.py:95-111): how an outgoing
    message is split into a command name and a "secondary" argument, which messages are
    refused, and which text goes on the wire. Everything here is pure; the state change
    (the command stack and the socket) is in module World. */
module Commands {
  import opened Wrappers
  import opened Strings
  import opened Vocabulary

  /** `message[:message.find(",")]`. Without a comma, `find` gives -1 and the slice drops the
      message's last character. */
  function CommandName(message: string): (command: string)
    ensures |command| <= |message| && command == message[..|command|]
    ensures ',' !in command
    ensures ',' in message ==> message[|command|] == ','
    ensures ',' !in message && message != [] ==> |command| == |message| - 1
  {
    FindMeaning(message, ',');
    var i := Find(message, ',');
    if i == -1 then (if message == [] then [] else message[..|message| - 1])
    else message[..i]
  }

  /** `message[len(command)+1:]`: the text after the command and its separator. */
  function ArgumentText(message: string): (rest: string)
    ensures |CommandName(message)| + 1 <= |message| ==>
      message == CommandName(message) + [message[|CommandName(message)|]] + rest
  {
    var start := |CommandName(message)| + 1;
    if start <= |message| then message[start..] else ""
  }

  /** The "secondary" of pagi_api.py:99-103. When the argument text holds another comma, the
      source slices `message[len(command)+1:end]` with `end` counted from the start of the
      argument text, not of the message; this is reproduced as written, so the result is
      always a comma-free prefix of the argument text, but not always all of its first field. */
  function Secondary(message: string): (secondary: string)
    ensures ',' !in secondary
    ensures |secondary| <= |ArgumentText(message)|
    ensures secondary == ArgumentText(message)[..|secondary|]
    ensures ',' !in ArgumentText(message) ==> secondary == ArgumentText(message)
  {
    var start := |CommandName(message)| + 1;
    var rest := ArgumentText(message);
    FindMeaning(rest, ',');
    var end := Find(rest, ',');
    if end == -1 then rest
    else
      assert start <= |message| && rest == message[start..];
      SliceWithinField(message, start, end);
      Slice(message, start, end)
  }

  /** Slicing `s` from `start` to a bound `end` counted from `start` instead of from 0 gives
      a prefix of `s[start..][..end]`. */
  lemma SliceWithinField(s: string, start: nat, end: nat)
    requires start <= |s| && end < |s| - start
    ensures var r := Slice(s, start, end);
      |r| <= end && r == s[start..][..end][..|r|]
  {
    var r := Slice(s, start, end);
    if start < end {
      assert r == s[start..end];
      assert s[start..end] == s[start..][..end][..end - start];
    }
  }

  /** The first comma of a message ends its command name; the argument text is what follows. */
  lemma SplitAtFirstComma(command: string, rest: string)
    requires ',' !in command
    ensures CommandName(command + "," + rest) == command
    ensures ArgumentText(command + "," + rest) == rest
  {
    var m := command + "," + rest;
    FindAfter(command, ',', rest);
    assert m[..|command|] == command;
    assert m[|command| + 1..] == rest;
  }

  /** A message of one field after the command: command and secondary are recovered. */
  lemma SplitSingleArgument(command: string, argument: string)
    requires ',' !in command && ',' !in argument
    ensures CommandName(command + "," + argument) == command
    ensures Secondary(command + "," + argument) == argument
  {
    SplitAtFirstComma(command, argument);
  }

  /** With a further field, the secondary is `first` cut down by `len(command) + 1`
      characters from its end: the consequence of the index mix-up at pagi_api.py:103. */
  lemma SplitSeveralArguments(command: string, first: string, more: string)
    requires ',' !in command && ',' !in first
    ensures CommandName(command + "," + first + "," + more) == command
    ensures Secondary(command + "," + first + "," + more) ==
      if |first| <= |command| + 1 then "" else first[..|first| - |command| - 1]
  {
    SecondaryOfSeveral(command, first, more);
    MisplacedSlice(command, first, more);
  }

  lemma SecondaryOfSeveral(command: string, first: string, more: string)
    requires ',' !in command && ',' !in first
    ensures var m := command + "," + first + "," + more;
      CommandName(m) == command && Secondary(m) == Slice(m, |command| + 1, |first|)
  {
    var rest := first + "," + more;
    var m := command + "," + first + "," + more;
    assert CommandName(m) == command && ArgumentText(m) == rest by {
      assert m == command + "," + rest;
      SplitAtFirstComma(command, rest);
    }
    assert Find(rest, ',') == |first| by {
      FindAfter(first, ',', more);
    }
    SecondaryWithComma(m, |first|);
  }

  /** Slicing the whole message from the argument's start up to the first field's length
      keeps only the head of that field. */
  lemma MisplacedSlice(command: string, first: string, more: string)
    ensures Slice(command + "," + first + "," + more, |command| + 1, |first|) ==
      if |first| <= |command| + 1 then "" else first[..|first| - |command| - 1]
  {
    var m := command + "," + first + "," + more;
    var start := |command| + 1;
    if start < |first| {
      assert m[start..|first|] == first[..|first| - start] by {
        assert forall j :: 0 <= j < |first| - start ==> m[start + j] == first[j];
      }
    }
  }

  /** When the argument text holds a comma at `end`, the secondary is the slice of the whole
      message between the argument's start and `end`. */
  lemma SecondaryWithComma(message: string, end: int)
    requires end == Find(ArgumentText(message), ',') && end != -1
    ensures Secondary(message) == Slice(message, |CommandName(message)| + 1, end)
  {
  }

  datatype SendError =
    | NoOpenSocket
    | InvalidCommand(message: string)
    | InvalidSensor(sensor: string, message: string)
    | InvalidForce(force: string, message: string)

  /** What a successful `send_message` records and writes. */
  datatype Dispatched = Dispatched(command: string, secondary: string, wire: string)

  /** pagi_api.py:110-111: the message, terminated by exactly one added "\n" unless it
      already ends in one. */
  function WithNewline(message: string): (wire: string)
    requires message != []
    ensures wire != [] && wire[|wire| - 1] == '\n'
    ensures |message| <= |wire| <= |message| + 1 && message == wire[..|message|]
    ensures message[|message| - 1] == '\n' <==> wire == message
  {
    if message[|message| - 1] != '\n' then message + "\n" else message
  }

  /** The checks of pagi_api.py:95-107, in the source's order. A message passes when its
      command is known and, for the two checked commands, its secondary is in that
      command's vocabulary; other commands pass whatever follows them. */
  function Dispatch(message: string): (r: Result<Dispatched, SendError>)
    ensures r.Success? <==>
      && CommandName(message) in VALID_COMMANDS
      && (CommandName(message) == SENSOR_REQUEST ==> IsValidSensor(Secondary(message)))
      && (CommandName(message) == ADD_FORCE ==> IsValidForce(Secondary(message)))
    ensures CommandName(message) !in VALID_COMMANDS ==> r == Failure(InvalidCommand(message))
    ensures r.Failure? ==> r.error != NoOpenSocket
    ensures r.Success? ==>
      && r.value.command == CommandName(message) && r.value.secondary == Secondary(message)
      && r.value.wire == WithNewline(message)
  {
    var command := CommandName(message);
    if command == "" || command !in VALID_COMMANDS then Failure(InvalidCommand(message))
    else
      var secondary := Secondary(message);
      if command == SENSOR_REQUEST && !IsValidSensor(secondary) then
        Failure(InvalidSensor(secondary, message))
      else if command == ADD_FORCE && !IsValidForce(secondary) then
        Failure(InvalidForce(secondary, message))
      else
        Success(Dispatched(command, secondary, WithNewline(message)))
  }

  /** A command other than the two checked ones, followed by a comma and any text, is
      always sent; when that text is one field, it is recorded as the secondary. */
  lemma DispatchUncheckedCommand(command: string, argument: string)
    requires command in VALID_COMMANDS && command != SENSOR_REQUEST && command != ADD_FORCE
    ensures var m := command + "," + argument;
      Dispatch(m) == Success(Dispatched(command, Secondary(m), WithNewline(m)))
    ensures ',' !in argument ==> Secondary(command + "," + argument) == argument
  {
    CommandNamesAreFields(command);
    SplitAtFirstComma(command, argument);
    if ',' !in argument {
      SplitSingleArgument(command, argument);
    }
  }

  /** `sensorRequest,<s>` is sent exactly when `s` is a known sensor. */
  lemma DispatchSensorRequest(sensor: string)
    requires ',' !in sensor
    ensures var m := SENSOR_REQUEST + "," + sensor;
      Dispatch(m) ==
        if IsValidSensor(sensor)
        then Success(Dispatched(SENSOR_REQUEST, sensor, WithNewline(m)))
        else Failure(InvalidSensor(sensor, m))
  {
    SplitSingleArgument(SENSOR_REQUEST, sensor);
  }

  /** Every known sensor can be requested. */
  lemma EverySensorCanBeRequested(sensor: string)
    requires IsValidSensor(sensor)
    ensures Dispatch(SENSOR_REQUEST + "," + sensor).Success?
  {
    NamesAreFields(sensor);
    DispatchSensorRequest(sensor);
  }

  /** `addForce,<f>` alone is sent exactly when `f` is a known force. */
  lemma DispatchBareForce(force: string)
    requires ',' !in force
    ensures var m := ADD_FORCE + "," + force;
      Dispatch(m) ==
        if IsValidForce(force)
        then Success(Dispatched(ADD_FORCE, force, WithNewline(m)))
        else Failure(InvalidForce(force, m))
  {
    SplitSingleArgument(ADD_FORCE, force);
  }

  /** A known force followed by a value, as `jump` sends it ("addForce,J,1000"), is always
      refused: the secondary comes out empty (pagi_api.py:103). */
  lemma DispatchForceWithValue(force: string, value: string)
    requires IsValidForce(force)
    ensures var m := ADD_FORCE + "," + force + "," + value;
      Dispatch(m) == Failure(InvalidForce("", m))
  {
    var m := ADD_FORCE + "," + force + "," + value;
    ForcesAreFields(force);
    SplitSeveralArguments(ADD_FORCE, force, value);
    CheckedCommands();
  }

  lemma CheckedCommands()
    ensures SENSOR_REQUEST in VALID_COMMANDS && ADD_FORCE in VALID_COMMANDS
    ensures SENSOR_REQUEST != ADD_FORCE && SENSOR_REQUEST != [] && ADD_FORCE != []
    ensures !IsValidForce("") && !IsValidSensor("")
  {
    VisionSensorMembership("");
  }

  /** A message whose first field is no command is refused, whatever follows it. */
  lemma UnknownCommandRefused(command: string, rest: string)
    requires ',' !in command && command !in VALID_COMMANDS
    ensures Dispatch(command + "," + rest) == Failure(InvalidCommand(command + "," + rest))
  {
    SplitAtFirstComma(command, rest);
  }

  /** The two commands the client sends with free text after them need no check. */
  lemma UncheckedCommands()
    ensures LOAD_TASK in VALID_COMMANDS && LOAD_TASK != SENSOR_REQUEST && LOAD_TASK != ADD_FORCE
    ensures PRINT in VALID_COMMANDS && PRINT != SENSOR_REQUEST && PRINT != ADD_FORCE
  {
  }

  /** A message without a comma is judged by all but its last character, and has an empty
      secondary; so only the unchecked commands can be sent this way. */
  lemma DispatchWithoutComma(message: string)
    requires ',' !in message && message != []
    ensures CommandName(message) == message[..|message| - 1]
    ensures Secondary(message) == ""
    ensures Dispatch(message).Success? <==>
      message[..|message| - 1] in VALID_COMMANDS
      && message[..|message| - 1] != SENSOR_REQUEST && message[..|message| - 1] != ADD_FORCE
  {
    assert ArgumentText(message) == "";
    CheckedCommands();
  }

  /** No command name holds a comma, and none is another one with its last character
      dropped. */
  lemma CommandNamesAreFields(command: string)
    requires command in VALID_COMMANDS
    ensures command != [] && ',' !in command
  {
  }

  lemma NoCommandIsATruncation(command: string)
    requires command in VALID_COMMANDS
    ensures command[..|command| - 1] !in VALID_COMMANDS
  {
    var shorter := command[..|command| - 1];
    assert shorter[0] == command[0] && shorter[3] == command[3];
  }

  /** A command sent bare, as `get_all_states` sends "getActiveStates", is always refused:
      it is judged with its last character dropped. */
  lemma BareCommandRefused(command: string)
    requires command in VALID_COMMANDS
    ensures Dispatch(command) == Failure(InvalidCommand(command))
  {
    CommandNamesAreFields(command);
    NoCommandIsATruncation(command);
    DispatchWithoutComma(command);
  }

  /** A command that needs no check, terminated by a line break and nothing else, is sent
      unchanged, with an empty secondary. */
  lemma TerminatedCommandSent(command: string)
    requires command in VALID_COMMANDS && command != SENSOR_REQUEST && command != ADD_FORCE
    ensures Dispatch(command + "\n") == Success(Dispatched(command, "", command + "\n"))
  {
    var m := command + "\n";
    CommandNamesAreFields(command);
    assert ',' !in m;
    DispatchWithoutComma(m);
    assert m[..|m| - 1] == command;
  }

  /** An unknown sensor is refused before anything is sent. */
  lemma DispatchUnknownSensor()
    ensures Dispatch("sensorRequest,ZZZ") == Failure(InvalidSensor("ZZZ", "sensorRequest,ZZZ"))
  {
    assert SENSOR_REQUEST + "," + "ZZZ" == "sensorRequest,ZZZ";
    DispatchSensorRequest("ZZZ");
    UnknownSensor();
  }

  lemma UnknownSensor()
    ensures !IsValidSensor("ZZZ")
  {
    VisionSensorMembership("ZZZ");
  }
}
