# PAGI World client, modelled in Dafny

The Python client of PAGI World (`pagi_api.py`) talks to the simulator over one TCP socket. It
writes one command per line, such as `sensorRequest,MPN` or `loadTask,<path>`. It reads the
replies back as lines of the form `<code>,<fields>`.

This project models the core of that client and proves properties of it:

- **Vocabularies.** The constant tables of commands, sensors and forces (`Vocabulary`). The
  202 vision sensor names `V%f` are generated as the same entries, in the same order, with
  integer arithmetic in place of the source's float division and `%f` formatting.
- **Outgoing messages.** How `send_message` splits a message into a command and a
  "secondary", which messages it refuses, and what it writes (`Commands`).
- **Line framing.** How replies are cut into lines and matched against a reply code
  (`Framing`).
- **Socket.** `recv(4096)`, `send` and `close`, over a finite queue of chunks the peer will
  deliver (`Transport`).
- **Reply correlation.** What one call of `get_message(code, block)` returns, as a pure
  function `Receive` of the buffer and the queue (`Correlator`).
- **The connection object.** The class `PAGIWorld`, with the fields its methods update in
  place: `send_message`, `get_message`, `disconnect`, `load_task`, `reset_task` and
  `print_text` (`World`). `GetMessage` runs the source's nested loops and is proved to agree
  with `Receive`. A ghost class invariant records that no received text is lost or
  reordered.
- **Agent helpers.** `assert_left_or_right`, the hand chosen by `PAGIAgentHand`, the sign
  used by `move_paces`, the messages the hand methods send, and `__process_vision`, which
  is a loop proved against the reference chunking `Rows` (`Agent`).

Where the code and its documentation disagree, the model follows the code:

- **Secondary argument.** At pagi_api.py:103 the end of the secondary argument is found
  relative to the argument text but used as an index into the whole message. The model
  reproduces this slice as written. As a result, `addForce,J,1000`, which `jump` sends, is
  refused (`Commands.DispatchForceWithValue`).
- **Messages without a comma.** Such a message is judged by all but its last character, so a
  bare command such as `getActiveStates` is refused (`Commands.BareCommandRefused`).
- **Vision sensor range.** The loop generates names up to `V30.150000`, not `V30.000000`
  (`Vocabulary.VisionSensorLast`).
- **Disconnect.** `disconnect` keeps `__task_file`. Without a socket it raises before it
  resets anything.
- **Hand messages.** `grab`, `release` and the hand's relative `send_force` always raise.
  Their messages (`RHG`, `LHR`, `RHvec,…`) do not start with a command
  (`Agent.HandGrabAndReleaseRefused`, `Agent.HandForceRefused`).

## Model

| member | source | states |
|---|---|---|
| Strings.FindMeaning | pagi_api.py:133 | `find` gives -1 exactly when the character is absent, otherwise the index of its first occurrence |
| Strings.Find | pagi_api.py:95 | Python's `find` of one character gives -1 or an index into the string; `FindMeaning` states which |
| Strings.Slice | pagi_api.py:99-103 | Python's `s[a:b]` with bounds clamped to the string, and "" for an empty or reversed range; used by `Secondary` and `MatchReply` and pinned down by `MisplacedSlice` and `SliceWithinField` |
| Strings.FindAfter | pagi_api.py:95 | after a prefix free of the character, `find` stops right after the prefix |
| Vocabulary.HundredthsName | pagi_api.py:19 | `"V%f" % (h / 100.)` printed with integer arithmetic; `ParseHundredthsName` reads it back |
| Vocabulary.IsValidSensor | pagi_api.py:14-19 | membership in VALID_SENSORS: the fixed names, the limb names and the vision names; characterised by `VisionSensorMembership` |
| Vocabulary.DigitsValueOfDecimal | pagi_api.py:19 | the decimal numeral printed for `n` reads back as `n` |
| Vocabulary.ParseHundredthsName | pagi_api.py:19 | a vision sensor name printed from a number of hundredths parses back to that number |
| Vocabulary.VisionSensorNamesDistinct | pagi_api.py:18-19 | the loop appends pairwise distinct names |
| Vocabulary.VisionSensorMembership | pagi_api.py:18-19 | a name is a vision sensor exactly when it is the canonical print of a multiple of 0.15 below 30.20 |
| Vocabulary.VisionSensorRange | pagi_api.py:18-19 | the names run from V0.000000 in steps of 0.15 to V30.150000 |
| Vocabulary.VisionSensorLast | pagi_api.py:18-19 | V30.150000 is a sensor and V30.300000 is not |
| Vocabulary.NamesAreFields | pagi_api.py:14-25 | no sensor or force name holds a comma or a line break |
| Commands.CommandName | pagi_api.py:95 | the command is a comma-free prefix of the message, ending at the first comma; without a comma it is the message minus its last character |
| Commands.ArgumentText | pagi_api.py:99 | the message is the command, one separator and the argument text |
| Commands.Secondary | pagi_api.py:99-103 | the secondary is a comma-free prefix of the argument text, and all of it when the text holds no comma |
| Commands.SplitAtFirstComma | pagi_api.py:95-99 | `command,rest` with a comma-free command splits back into that command and `rest` |
| Commands.SplitSingleArgument | pagi_api.py:99-101 | with one field after the command, the secondary is that field |
| Commands.SplitSeveralArguments | pagi_api.py:99-103 | with further fields, the secondary is the first field cut short by `len(command) + 1` characters, as the slice at line 103 computes |
| Commands.MisplacedSlice | pagi_api.py:103 | slicing the whole message with the argument-relative end keeps only the head of the first field |
| Commands.WithNewline | pagi_api.py:110-111 | the wire text ends in exactly one added line break, or is the message when it already ends in one |
| Commands.Dispatch | pagi_api.py:95-111 | a message is sent exactly when its command is known and, for sensorRequest and addForce, its secondary is a known sensor or force; an unknown command gives InvalidCommand; a sent message records its command and secondary |
| Commands.DispatchUncheckedCommand | pagi_api.py:96-107 | a known command other than the two checked ones is sent whatever text follows its comma |
| Commands.DispatchSensorRequest | pagi_api.py:104-105 | `sensorRequest,<s>` is sent exactly when `s` is a known sensor, and refused with InvalidSensor otherwise |
| Commands.EverySensorCanBeRequested | pagi_api.py:104-105 | every known sensor can be requested |
| Commands.DispatchBareForce | pagi_api.py:106-107 | `addForce,<f>` is sent exactly when `f` is a known force |
| Commands.DispatchForceWithValue | pagi_api.py:99-107 | a known force followed by a value, such as `addForce,J,1000`, is always refused with an empty secondary |
| Commands.UnknownCommandRefused | pagi_api.py:96-97 | a message whose first field is no command is refused, whatever follows |
| Commands.DispatchWithoutComma | pagi_api.py:95-97 | a message without a comma is judged by all but its last character and has an empty secondary |
| Commands.NoCommandIsATruncation | pagi_api.py:11-12 | no command is another command with its last character dropped |
| Commands.BareCommandRefused | pagi_api.py:95-97 | a command sent without a comma or line break is refused |
| Commands.TerminatedCommandSent | pagi_api.py:110-111 | an unchecked command followed only by "\n" is sent unchanged |
| Commands.DispatchUnknownSensor | pagi_api.py:104-105 | `sensorRequest,ZZZ` is refused with InvalidSensor |
| Framing.SplitLine | pagi_api.py:133-138 | the first line of the buffer and what follows its "\n"; specified by `SplitLineMeaning` and `SplitLineOfLine` |
| Framing.SplitLineMeaning | pagi_api.py:133-138 | a line can be cut exactly when the buffer holds "\n"; the cut line holds none, and line, "\n" and remainder make up the buffer |
| Framing.SplitLineOfLine | pagi_api.py:133-138 | cutting `line + "\n" + rest` gives back `line` and `rest` |
| Framing.MatchReply | pagi_api.py:139 | line 139's test, evaluated left to right, as a verdict Accept, Skip or IndexError; specified by `MatchReplyMeaning` |
| Framing.MatchReplyMeaning | pagi_api.py:139 | a line answers `code` exactly when the code is empty or the line is the code, a comma and anything; IndexError exactly when the line equals a non-empty code |
| Framing.AcceptReply | pagi_api.py:139 | `<code>,<fields>` answers `code` |
| Transport.TakeChunk | pagi_api.py:130 | what one `recv(4096)` delivers and what stays queued; specified by `TakeChunkBounds`, `TakeChunkConserves` and `SmallChunkWhole` |
| Transport.TakeChunkBounds | pagi_api.py:130 | `recv(4096)` gives "" once nothing is queued, at most 4096 characters, and lowers the backlog |
| Transport.TakeChunkConserves | pagi_api.py:130-132 | the delivered chunk followed by what stays queued is what was queued |
| Transport.SmallChunkWhole | pagi_api.py:130 | a chunk of at most 4096 characters is delivered whole |
| Transport.Socket.Recv | pagi_api.py:130 | the socket delivers the next chunk and keeps the rest queued |
| Transport.Socket.Send | pagi_api.py:113 | the text is appended to what was sent |
| Transport.Socket.Close | pagi_api.py:72 | the socket is closed and nothing else changes |
| Correlator.FillMeaning | pagi_api.py:129-130 | the blocking inner loop stops at a buffered "\n" or starves on an empty chunk, and loses nothing; `FillStopsAtFirstLine` and `FillStarvesOnEmptyChunk` pin where it stops |
| Correlator.Fill | pagi_api.py:129-130 | the blocking inner loop as a function of the buffer and the queue; its meaning is stated by `FillMeaning`, `FillStopsAtFirstLine` and `FillStarvesOnEmptyChunk` |
| Correlator.FillStopsAtFirstLine | pagi_api.py:129-130 | without a line buffered, the blocking loop ends right after the first `recv` that brings a "\n": after `n + 1` receives, the first `n` of which brought none |
| Correlator.FillStarvesOnEmptyChunk | pagi_api.py:129-130 | without a line buffered, the blocking loop starves only at the first empty chunk: after `n` receives that brought text but no "\n", the next one gives "" and the buffer holds exactly what those `n` brought |
| Correlator.Pull | pagi_api.py:128-132 | the receiving half of one pass as a function; its meaning is stated by `PullMeaning` and `PullHalt` |
| Correlator.PullMeaning | pagi_api.py:128-132 | the receiving half of a pass loses nothing, receives nothing without a socket, and, when blocking, leaves a "\n" buffered unless it halts |
| Correlator.PullHalt | pagi_api.py:128-132 | the receiving half halts only on starvation or a missing socket |
| Correlator.Receive | pagi_api.py:115-140 | the whole call of `get_message` as a function of the buffer and the queue; what it returns and keeps is stated by `ReceiveConserves`, `ReceiveMatches` and `ReceiveHalts` |
| Correlator.PassShrinks | pagi_api.py:128-138 | a pass that cuts a line receives something or shortens the buffer, so the outer loop ends |
| Correlator.ReceiveConserves | pagi_api.py:115-140 | the lines cut off, each with its "\n", then the buffer and the queue left, are the buffer and queue the call started with |
| Correlator.ReceiveMatches | pagi_api.py:133-140 | the call returns the first line that answers `code` and drops exactly the lines before it; IndexError comes from a line equal to the code |
| Correlator.ReceiveHalts | pagi_api.py:127-136 | "" only when non-blocking without a complete line; starvation only when blocking and connected, with no line buffered, which `FillStarvesOnEmptyChunk` places at the peer's empty chunk; no socket means nothing received |
| Correlator.ReadyLineAnswers | pagi_api.py:129-140 | blocking, a buffered answering line is returned without any `recv` |
| Correlator.NonBlockingReceivesOncePerPass | pagi_api.py:131-136 | non-blocking, the call makes one `recv` per line cut off, plus one after which no line was found |
| Correlator.NonBlockingWithoutLine | pagi_api.py:131-136 | non-blocking, when one chunk brings no line break, the call returns "" with the chunk buffered |
| Correlator.ReturnsFirstAnswer | pagi_api.py:127-140 | blocking, with buffered non-answering lines followed by an answering one, the call drops the former and returns the latter without receiving |
| Correlator.BlockingDropsSkippedLine | pagi_api.py:137-140 | blocking, a non-answering buffered line is dropped and the call goes on with the rest |
| World.PagiWorld.constructor | pagi_api.py:35-48 | given an open socket, a fresh connection has the socket, an empty buffer, no task file and empty stacks |
| World.PagiWorld.Connect | pagi_api.py:50-63 | an open socket replaces `pagi_socket`; the buffer and the stacks are kept |
| World.PagiWorld.AssertOpenSocket | pagi_api.py:78-84 | the guard passes exactly when a socket is present, and otherwise raises NoOpenSocket |
| World.PagiWorld.Disconnect | pagi_api.py:65-76 | the socket is closed and dropped, and the buffer and both stacks are emptied, and so is the record of received text; `__task_file` is kept; without a socket it raises and nothing changes; afterwards the open-socket guard fails |
| World.PagiWorld.SendMessage | pagi_api.py:86-113 | without a socket or when `Dispatch` refuses, it raises and nothing changes; otherwise `[command, secondary]` is pushed and the terminated message is written, and the class invariant is kept |
| World.PagiWorld.ReceiveInto | pagi_api.py:130-132 | one `recv` moves the next chunk from the socket to the end of the buffer and to the record of received text |
| World.PagiWorld.FillBuffer | pagi_api.py:129-130 | the blocking inner loop ends in the state `Fill` describes, keeps the class invariant, and moves text from the socket to the received record without loss |
| World.PagiWorld.ReceiveChunks | pagi_api.py:128-132 | the receiving half ends in the state `Pull` describes; the received record followed by the queue is unchanged |
| World.PagiWorld.CutFirstLine | pagi_api.py:133-138 | the first line is cut off the buffer and recorded as consumed, or nothing changes without a "\n"; nothing is received |
| World.PagiWorld.RunPass | pagi_api.py:128-140 | one pass either ends the call as `Receive` says or drops one line and leaves the rest of the call to the next pass |
| World.PagiWorld.GetMessage | pagi_api.py:115-140 | the reply, the buffer and the queue left are those of `Receive`, the lines cut off are appended to the consumed lines, and the received record followed by the queue is unchanged, so nothing received is lost |
| World.PagiWorld.LoadTask | pagi_api.py:142-152 | a path naming no file raises and changes nothing; otherwise the path becomes `__task_file` and `loadTask,<path>` is sent, or the call raises NoOpenSocket without a socket |
| World.PagiWorld.SendLoadTask | pagi_api.py:152 | `loadTask,<path>` is accepted whatever the path, so only a missing socket makes it raise |
| World.PagiWorld.ResetTask | pagi_api.py:154-161 | without a task file it raises and changes nothing; otherwise it behaves as `load_task` of that file |
| World.PagiWorld.PrintText | pagi_api.py:163-172 | `print,<text>` is always accepted once a socket is open, and the call then ends as `Receive` with code `print` says |
| World.CutLine | pagi_api.py:133-138 | cutting the first line keeps the accounting of the class invariant |
| Agent.Upper | pagi_api.py:492 | `str.upper()` on ASCII: same length, each character upper-cased; `UpperIdempotent` shows upper-casing twice changes nothing |
| Agent.AssertLeftOrRight | pagi_api.py:485-494 | a refused name raises NotLeftOrRight with that name |
| Agent.AssertLeftOrRightSpelled | pagi_api.py:485-494 | the check passes exactly for "r", "l", "right" and "left" in any mixture of cases |
| Agent.AssertLeftOrRightIgnoresCase | pagi_api.py:485-494 | a name passes exactly when its upper-cased form does |
| Agent.HandSide | pagi_api.py:438-440 | an invalid hand name raises NotLeftOrRight |
| Agent.HandSideMeaning | pagi_api.py:438-440 | the hand is 'R' exactly for R or RIGHT in any case and 'L' exactly for L or LEFT; nothing else makes a hand |
| Agent.PaceSign | pagi_api.py:333-335 | an invalid direction raises NotLeftOrRight |
| Agent.PaceSignMeaning | pagi_api.py:333-335 | the sign is 1 exactly for the right-side names and -1 exactly for the left-side ones, agreeing with the hand the same name selects |
| Agent.HandPositionRequestSent | pagi_api.py:448 | a hand's position request `sensorRequest,RP` or `sensorRequest,LP` is accepted |
| Agent.HandGrabAndReleaseRefused | pagi_api.py:452-466 | `RHG`, `LHG`, `RHR` and `LHR` are refused as invalid commands |
| Agent.HandForceRefused | pagi_api.py:468-482 | the hand's relative force message `RHvec,…` or `LHvec,…` is refused whatever the vector |
| Agent.FloorMod | pagi_api.py:419 | Python's `%`: the remainder lies between 0 and the divisor and differs from the dividend by a multiple of the divisor, which fixes its value; it is 0 exactly when Dafny's remainder is |
| Agent.ModUnique | pagi_api.py:419 | `q * abs(w) + r` with `0 <= r < abs(w)` leaves remainder `r` |
| Agent.Rows | pagi_api.py:408-425 | the reference chunking into rows of `width` fields; specified by `RowsFlatten`, `RowsShape`, `RowsIndex` and `RowsSnoc` |
| Agent.Vision | pagi_api.py:408-425 | what `__process_vision` returns: one empty row without fields, ZeroDivisionError for column length 0 with fields, `Rows` of the fields after the header otherwise; `ProcessVision` is proved equal to it |
| Agent.RowsFlatten | pagi_api.py:408-425 | the rows laid end to end are the fields: nothing is lost, added or reordered |
| Agent.RowsShape | pagi_api.py:408-425 | every row but the last is full, and the last holds the rest, which is non-empty unless there are no fields |
| Agent.RowsIndex | pagi_api.py:408-425 | item `k` of row `i` is field `i * width + k` |
| Agent.RowsSnoc | pagi_api.py:418-423 | one more field opens a new row when the last row is full, and extends it otherwise |
| Agent.VisionStep | pagi_api.py:418-423 | the loop's `(j - 1) % column_length == 0` holds exactly when the row being built is full |
| Agent.VisionKeepsFields | pagi_api.py:408-425 | chunking raises only for column length 0 with fields to place, and otherwise keeps every field after the header in order |
| Agent.PeripheralVisionGrid | pagi_api.py:388-397 | a peripheral vision reply with 11 × 16 values gives 11 rows of 16, value `k` of row `i` being field `1 + 16 i + k` |
| Agent.ProcessVision | pagi_api.py:408-425 | the loop's result equals the reference chunking `Vision`: rows of `abs(column_length)` fields after the header, one empty row without fields, ZeroDivisionError for column length 0 with fields |

## Left out

- Opening the connection is not modelled: `socket.socket`, `gethostbyname`, `connect` and `setblocking`. `PagiWorld` starts from a socket that is already open, and `Connect` only attaches one.
- Sockets are modelled abstractly. The peer's future output is a finite sequence of chunks, `send` appends to a log, and `encode`/`decode` are identity on ASCII text.
- GetMessage: when blocking and the peer has closed, the source's inner loop spins forever on empty `recv` results. The model ends the call with `Starved` at the first empty chunk.
- Real `recv` may return fewer bytes than are queued. The model delivers each queued chunk, split at 4096 characters.
- Non-blocking `get_message` is not modelled as polling. `connect` makes the socket blocking (pagi_api.py:63), so with `block=False` each pass still waits inside `recv` for one chunk, and the `BlockingIOError` the docstring mentions never arises. The model reads each non-blocking pass as exactly one `recv` of the next queued chunk.
- LoadTask: `os.path.isfile` is replaced by the set `files` of existing paths.
- Upper: only ASCII letters are upper-cased. Python's full Unicode case mapping is not modelled; for example, dotless ı upper-cases to I, so Python accepts "rıght".
- Floating-point work is not modelled: `rotate` with `reset_rotation` and `reset_agent` built on it, `get_rotation`, both `send_force` methods with their `%f` vectors and trigonometry, `float(...)` in `get_position` and `jump`, and the `%f` formatting of force values. For the 202 vision sensor names, `%f` is reproduced with integer arithmetic.
- `time.sleep` and the pace loop of `move_paces` are not modelled. Only its direction check and force sign are (`Agent.PaceSign`).
- Stubs that only raise NotImplementedError have nothing to model: `set_state`, `set_reflex`, `create_item` and `center_hands`.
- Most thin wrappers are not modelled: `remove_state`, `get_all_states`, `remove_reflex`, `get_all_reflexes`, `get_periphal_vision`, `get_detailed_vision`, the hand methods and `jump`. Each only sends a message and reads the reply. What matters about them is modelled: whether their message is accepted (`BareCommandRefused`, `DispatchForceWithValue`, the `Agent.Hand…` lemmas) and how a reply is chunked (`PeripheralVisionGrid`). `print_text` is modelled as one worked composition (`PrintText`).
- Splitting a reply on commas (`.split(",")`) is not modelled. `ProcessVision` starts from the list of fields.
- Constructing `PAGIAgent` with its two hands is not modelled. The hand name check is modelled by `HandSide`.
- `message_stack` is never filled by the client, so it is modelled only as being emptied.
