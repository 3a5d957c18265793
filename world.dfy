/** The connection object `PAGIWorld` (pagi_api.py:27-172): the socket, the buffered
    fragment of the reply stream, `__task_file`, and the stack of commands sent. Its methods
    update these fields in place, as the source's do. Ghost fields record the text received
    since construction or the last disconnect and the reply lines cut off that text, so that no loss or
    reordering of the reply stream is a class invariant. */
module World {
  import opened Wrappers
  import opened Strings
  import opened Vocabulary
  import opened Commands
  import opened Framing
  import opened Transport
  import opened Correlator

  /** The errors the connection-level operations raise. */
  datatype WorldError =
      /** `send_message` raised. */
    | SendFailed(cause: SendError)
      /** `disconnect` calls `close` on a `pagi_socket` that is None: AttributeError. */
    | SocketMissing
      /** `load_task` found no file at the path. */
    | TaskNotFound(path: string)
      /** `reset_task` has no previous task file. */
    | NoPreviousTask

  class PagiWorld {
    var pagiSocket: Socket?
    /** `__message_fragment`: received text not yet cut into lines. */
    var fragment: string
    /** `__task_file`. */
    var taskFile: string
    /** `__command_stack`: the `[command, secondary]` pair of every message sent. */
    var commandStack: seq<(string, string)>
    /** `message_stack`, which the client only ever empties. */
    var messageStack: seq<string>
    /** The text received since construction or the last disconnect. */
    ghost var received: string
    /** The reply lines cut off that text, in order. */
    ghost var consumed: seq<string>

    /** Nothing received is lost or reordered: the cut-off lines, each with its "\n",
        followed by the buffer, are the received text. */
    ghost predicate Valid()
      reads this
    {
      AllLines(consumed) && received == Join(consumed) + fragment
    }

    /** The chunks the peer will still deliver; none without a socket. */
    function Incoming(): seq<string>
      reads this`pagiSocket, pagiSocket
    {
      if pagiSocket == null then [] else pagiSocket.incoming
    }

    /** `__init__` with the connection already made (pagi_api.py:35-48). */
    constructor (socket: Socket)
      requires !socket.closed
      ensures Valid()
      ensures pagiSocket == socket && fragment == "" && taskFile == ""
      ensures commandStack == [] && messageStack == [] && consumed == []
    {
      pagiSocket := socket;
      fragment := "";
      taskFile := "";
      commandStack := [];
      messageStack := [];
      received := "";
      consumed := [];
    }

    /** `connect` (pagi_api.py:50-63) once the socket is open: it becomes `pagi_socket`;
        the buffer and the stacks are left as they are. */
    method Connect(socket: Socket)
      requires !socket.closed
      modifies this
      ensures pagiSocket == socket
      ensures fragment == old(fragment) && taskFile == old(taskFile)
      ensures commandStack == old(commandStack) && messageStack == old(messageStack)
      ensures received == old(received) && consumed == old(consumed)
    {
      pagiSocket := socket;
    }

    /** `__assert_open_socket` (pagi_api.py:78-84). */
    function AssertOpenSocket(): (r: Outcome<SendError>)
      reads this
      ensures r.Pass? <==> pagiSocket != null
      ensures r.Fail? ==> r.error == NoOpenSocket
    {
      if pagiSocket == null then Fail(NoOpenSocket) else Pass
    }

    /** `disconnect` (pagi_api.py:65-76): close the socket, drop it, and empty the buffer and
        both stacks; `__task_file` is kept. Without a socket, `close` raises before anything
        is reset. */
    method Disconnect() returns (r: Outcome<WorldError>)
      requires Valid()
      modifies this, pagiSocket
      ensures Valid()
      ensures old(pagiSocket) == null ==>
        && r == Fail(SocketMissing) && pagiSocket == null && received == old(received)
        && fragment == old(fragment) && commandStack == old(commandStack)
        && messageStack == old(messageStack) && consumed == old(consumed)
      ensures old(pagiSocket) != null ==>
        && r == Pass && old(pagiSocket).closed
        && old(pagiSocket).incoming == old(pagiSocket.incoming)
        && old(pagiSocket).sent == old(pagiSocket.sent)
        && pagiSocket == null && fragment == "" && commandStack == [] && messageStack == []
        && received == "" && consumed == []
        && AssertOpenSocket() == Fail(NoOpenSocket)
      ensures taskFile == old(taskFile)
    {
      if pagiSocket == null {
        return Fail(SocketMissing);
      }
      pagiSocket.Close();
      pagiSocket := null;
      fragment := "";
      commandStack := [];
      messageStack := [];
      received := "";
      consumed := [];
      r := Pass;
    }

    /** `send_message` (pagi_api.py:86-113). Without a socket, or when `Dispatch` refuses the
        message, it raises and nothing changes. Otherwise it pushes `[command, secondary]` and
        writes the message, terminated by "\n", to the socket. */
    method SendMessage(message: string) returns (r: Outcome<SendError>)
      requires Valid()
      modifies this, pagiSocket
      ensures Valid()
      ensures pagiSocket == old(pagiSocket)
      ensures fragment == old(fragment) && taskFile == old(taskFile)
      ensures messageStack == old(messageStack)
      ensures received == old(received) && consumed == old(consumed)
      ensures pagiSocket != null ==>
        pagiSocket.incoming == old(pagiSocket.incoming) && pagiSocket.closed == old(pagiSocket.closed)
      ensures old(pagiSocket) == null ==> r == Fail(NoOpenSocket) && commandStack == old(commandStack)
      ensures old(pagiSocket) != null ==>
        match Dispatch(message)
        case Success(d) =>
          && r == Pass
          && commandStack == old(commandStack) + [(d.command, d.secondary)]
          && pagiSocket.sent == old(pagiSocket.sent) + [d.wire]
        case Failure(e) =>
          && r == Fail(e)
          && commandStack == old(commandStack)
          && pagiSocket.sent == old(pagiSocket.sent)
    {
      r := AssertOpenSocket();
      if r.Fail? {
        return;
      }
      var checked := Dispatch(message);
      if checked.Failure? {
        return Fail(checked.error);
      }
      var d := checked.value;
      commandStack := commandStack + [(d.command, d.secondary)];
      pagiSocket.Send(d.wire);
    }

    /** `self.__message_fragment += self.pagi_socket.recv(4096).decode()` (pagi_api.py:130
        and 132): the next chunk moves from the socket to the end of the buffer. */
    method ReceiveInto() returns (chunk: string)
      requires Valid() && pagiSocket != null
      modifies this, pagiSocket
      ensures Valid()
      ensures (chunk, Incoming()) == TakeChunk(old(Incoming()))
      ensures fragment == old(fragment) + chunk
      ensures received == old(received) + chunk
      ensures chunk + Concat(Incoming()) == Concat(old(Incoming()))
      ensures pagiSocket == old(pagiSocket) && consumed == old(consumed)
      ensures taskFile == old(taskFile) && commandStack == old(commandStack)
      ensures messageStack == old(messageStack)
      ensures pagiSocket.sent == old(pagiSocket.sent) && pagiSocket.closed == old(pagiSocket.closed)
    {
      TakeChunkConserves(pagiSocket.incoming);
      chunk := pagiSocket.Recv();
      fragment := fragment + chunk;
      received := received + chunk;
    }

    /** The blocking inner loop of `get_message` (pagi_api.py:129-130): receive until the
        buffer holds a line break, or until the peer has nothing more to send. */
    method FillBuffer() returns (starved: bool)
      requires Valid() && pagiSocket != null
      modifies this, pagiSocket
      ensures Valid()
      ensures Pulled(if starved then Some(Starved) else None, fragment, Incoming()) ==
        Fill(old(fragment), old(Incoming()))
      ensures received + Concat(Incoming()) == old(received) + Concat(old(Incoming()))
      ensures pagiSocket == old(pagiSocket) && consumed == old(consumed)
      ensures taskFile == old(taskFile) && commandStack == old(commandStack)
      ensures messageStack == old(messageStack)
      ensures pagiSocket.sent == old(pagiSocket.sent) && pagiSocket.closed == old(pagiSocket.closed)
    {
      FillMeaning(fragment, Incoming());
      while '\n' !in fragment
        invariant Valid() && pagiSocket == old(pagiSocket)
        invariant Fill(fragment, Incoming()) == Fill(old(fragment), old(Incoming()))
        invariant consumed == old(consumed)
        invariant taskFile == old(taskFile) && commandStack == old(commandStack)
        invariant messageStack == old(messageStack)
        invariant pagiSocket.sent == old(pagiSocket.sent)
        invariant pagiSocket.closed == old(pagiSocket.closed)
        decreases Backlog(Incoming())
      {
        TakeChunkBounds(Incoming());
        var chunk := ReceiveInto();
        if chunk == "" {
          assert Fill(old(fragment), old(Incoming())) == Pulled(Some(Starved), fragment, Incoming());
          Regrouped(Join(consumed), fragment, Incoming(), old(fragment), old(Incoming()));
          return true;
        }
      }
      Regrouped(Join(consumed), fragment, Incoming(), old(fragment), old(Incoming()));
      starved := false;
    }

    /** The receiving half of one pass of `get_message` (pagi_api.py:128-132): `Pull`, with
        `pagi_socket` None raising AttributeError at the first `recv`. */
    method ReceiveChunks(block: bool) returns (halt: Option<Reply>)
      requires Valid()
      modifies this, pagiSocket
      ensures Valid()
      ensures Pulled(halt, fragment, Incoming()) ==
        Pull(block, old(pagiSocket) != null, old(fragment), old(Incoming()))
      ensures received + Concat(Incoming()) == old(received) + Concat(old(Incoming()))
      ensures pagiSocket == old(pagiSocket) && consumed == old(consumed)
      ensures taskFile == old(taskFile) && commandStack == old(commandStack)
      ensures messageStack == old(messageStack)
      ensures pagiSocket != null ==>
        pagiSocket.sent == old(pagiSocket.sent) && pagiSocket.closed == old(pagiSocket.closed)
    {
      if block {
        if '\n' in fragment {
          return None;
        }
        if pagiSocket == null {
          return Some(NoSocket);
        }
        var starved := FillBuffer();
        halt := if starved then Some(Starved) else None;
      } else {
        if pagiSocket == null {
          return Some(NoSocket);
        }
        var chunk := ReceiveInto();
        halt := None;
      }
    }

    /** The framing half of a pass of `get_message` (pagi_api.py:133-138): `find` the first
        line break; when there is one, cut the line before it off the buffer. */
    method CutFirstLine() returns (line: Option<string>)
      requires Valid()
      modifies this
      ensures Valid()
      ensures SplitLine(old(fragment)).None? ==>
        line.None? && fragment == old(fragment) && consumed == old(consumed)
      ensures SplitLine(old(fragment)).Some? ==>
        && line == Some(SplitLine(old(fragment)).value.0)
        && fragment == SplitLine(old(fragment)).value.1
        && consumed == old(consumed) + [line.value]
      ensures received == old(received)
      ensures pagiSocket == old(pagiSocket) && taskFile == old(taskFile)
      ensures commandStack == old(commandStack) && messageStack == old(messageStack)
    {
      var index := Find(fragment, '\n');
      if index == -1 {
        return None;
      }
      var response, rest := fragment[..index], fragment[index + 1..];
      CutLine(fragment, index, consumed);
      fragment := rest;
      consumed := consumed + [response];
      line := Some(response);
    }

    /** One pass of `get_message`'s outer loop (pagi_api.py:128-140): receive, then cut the
        first line off the buffer. The pass either ends the call as `Receive` says, or drops
        the line `dropped` and leaves the rest of the call to the next pass. */
    method RunPass(code: string, block: bool) returns (ended: Option<Reply>, ghost dropped: string)
      requires Valid()
      modifies this, pagiSocket
      ensures Valid()
      ensures pagiSocket == old(pagiSocket)
      ensures var x := Receive(code, block, pagiSocket != null, old(fragment), old(Incoming()));
        if ended.Some? then
          && ended.value == x.reply && fragment == x.fragment && Incoming() == x.incoming
          && consumed == old(consumed) + x.lines
        else
          && x == Resume([dropped], Receive(code, block, pagiSocket != null, fragment, Incoming()))
          && consumed == old(consumed) + [dropped]
          && (Backlog(Incoming()) < Backlog(old(Incoming())) ||
              (Incoming() == old(Incoming()) && |fragment| < |old(fragment)|))
      ensures received + Concat(Incoming()) == old(received) + Concat(old(Incoming()))
      ensures taskFile == old(taskFile) && commandStack == old(commandStack)
      ensures messageStack == old(messageStack)
      ensures pagiSocket != null ==>
        pagiSocket.sent == old(pagiSocket.sent) && pagiSocket.closed == old(pagiSocket.closed)
    {
      ghost var connected := pagiSocket != null;
      ghost var start, queued := fragment, Incoming();
      ghost var p := Pull(block, connected, start, queued);
      ReceivePass(code, block, connected, start, queued);
      PassShrinks(block, connected, start, queued);
      var halt := ReceiveChunks(block);
      assert p == Pulled(halt, fragment, Incoming());
      if halt.Some? {
        return halt, "";
      }
      var line := CutFirstLine();
      if line.None? {
        return Some(NoLine), "";
      }
      var response := line.value;
      var verdict := MatchReply(code, response);
      if verdict == Accept {
        ended := Some(Got(response));
      } else if verdict == IndexError {
        ended := Some(CodeIndexError);
      } else {
        ended := None;
      }
      dropped := response;
    }

    /** `get_message(code, block)` (pagi_api.py:115-140): pass after pass until one ends the
        call. It ends as `Receive` says, and the lines it cuts off are recorded in
        `consumed`. */
    method GetMessage(code: string, block: bool) returns (reply: Reply)
      requires Valid()
      modifies this, pagiSocket
      ensures Valid()
      ensures pagiSocket == old(pagiSocket)
      ensures var x := Receive(code, block, old(pagiSocket) != null, old(fragment), old(Incoming()));
        && reply == x.reply && fragment == x.fragment && Incoming() == x.incoming
        && consumed == old(consumed) + x.lines
      ensures received + Concat(Incoming()) == old(received) + Concat(old(Incoming()))
      ensures taskFile == old(taskFile) && commandStack == old(commandStack)
      ensures messageStack == old(messageStack)
      ensures pagiSocket != null ==>
        pagiSocket.sent == old(pagiSocket.sent) && pagiSocket.closed == old(pagiSocket.closed)
    {
      ghost var connected := pagiSocket != null;
      ghost var whole := Receive(code, block, connected, fragment, Incoming());
      ghost var cut: seq<string> := [];
      assert whole == Resume(cut, whole);
      while true
        invariant Valid()
        invariant pagiSocket == old(pagiSocket) && connected == (pagiSocket != null)
        invariant consumed == old(consumed) + cut
        invariant received + Concat(Incoming()) == old(received) + Concat(old(Incoming()))
        invariant whole == Resume(cut, Receive(code, block, connected, fragment, Incoming()))
        invariant taskFile == old(taskFile) && commandStack == old(commandStack)
        invariant messageStack == old(messageStack)
        invariant pagiSocket != null ==>
          pagiSocket.sent == old(pagiSocket.sent) && pagiSocket.closed == old(pagiSocket.closed)
        decreases Backlog(Incoming()), |fragment|
      {
        ghost var now := Receive(code, block, connected, fragment, Incoming());
        ghost var consumedBefore := consumed;
        var ended, dropped := RunPass(code, block);
        if ended.Some? {
          LinesAssociate(old(consumed), cut, now.lines);
          return ended.value;
        }
        ghost var next := Receive(code, block, connected, fragment, Incoming());
        assert now == Resume([dropped], next);
        ResumeAfter(cut, dropped, next);
        LinesAssociate(old(consumed), cut, [dropped]);
        cut := cut + [dropped];
      }
    }
    /** `load_task` (pagi_api.py:142-152): a path that names no file raises and changes
        nothing; otherwise the path becomes `__task_file` and "loadTask,<path>" is sent.
        `files` stands for the files that exist. */
    method LoadTask(path: string, files: set<string>) returns (r: Outcome<WorldError>)
      requires Valid()
      modifies this, pagiSocket
      ensures Valid()
      ensures pagiSocket == old(pagiSocket) && fragment == old(fragment)
      ensures messageStack == old(messageStack) && consumed == old(consumed)
      ensures received == old(received)
      ensures pagiSocket != null ==>
        pagiSocket.incoming == old(pagiSocket.incoming) && pagiSocket.closed == old(pagiSocket.closed)
      ensures path !in files ==>
        && r == Fail(TaskNotFound(path)) && taskFile == old(taskFile)
        && commandStack == old(commandStack)
        && (pagiSocket != null ==> pagiSocket.sent == old(pagiSocket.sent))
      ensures path in files ==> taskFile == path
      ensures path in files && old(pagiSocket) == null ==>
        r == Fail(SendFailed(NoOpenSocket)) && commandStack == old(commandStack)
      ensures path in files && old(pagiSocket) != null ==>
        var m := LOAD_TASK + "," + path;
        && r == Pass
        && commandStack == old(commandStack) + [(LOAD_TASK, Secondary(m))]
        && pagiSocket.sent == old(pagiSocket.sent) + [WithNewline(m)]
    {
      if path !in files {
        return Fail(TaskNotFound(path));
      }
      taskFile := path;
      r := SendLoadTask(path);
    }

    /** The last line of `load_task` (pagi_api.py:152): "loadTask,<path>" is accepted by
        `send_message` whatever the path, so only a missing socket makes it raise. */
    method SendLoadTask(path: string) returns (r: Outcome<WorldError>)
      requires Valid()
      modifies this, pagiSocket
      ensures Valid()
      ensures pagiSocket == old(pagiSocket) && fragment == old(fragment) && taskFile == old(taskFile)
      ensures messageStack == old(messageStack) && consumed == old(consumed)
      ensures received == old(received)
      ensures pagiSocket != null ==>
        pagiSocket.incoming == old(pagiSocket.incoming) && pagiSocket.closed == old(pagiSocket.closed)
      ensures old(pagiSocket) == null ==>
        r == Fail(SendFailed(NoOpenSocket)) && commandStack == old(commandStack)
      ensures old(pagiSocket) != null ==>
        var m := LOAD_TASK + "," + path;
        && r == Pass
        && commandStack == old(commandStack) + [(LOAD_TASK, Secondary(m))]
        && pagiSocket.sent == old(pagiSocket.sent) + [WithNewline(m)]
    {
      var message := LOAD_TASK + "," + path;
      UncheckedCommands();
      DispatchUncheckedCommand(LOAD_TASK, path);
      var sent := SendMessage(message);
      r := if sent.Fail? then Fail(SendFailed(sent.error)) else Pass;
    }

    /** `reset_task` (pagi_api.py:154-161): without a previous task file it raises and
        changes nothing; otherwise it loads that file again. */
    method ResetTask(files: set<string>) returns (r: Outcome<WorldError>)
      requires Valid()
      modifies this, pagiSocket
      ensures Valid()
      ensures pagiSocket == old(pagiSocket) && fragment == old(fragment)
      ensures messageStack == old(messageStack) && consumed == old(consumed)
      ensures received == old(received)
      ensures taskFile == old(taskFile)
      ensures pagiSocket != null ==>
        pagiSocket.incoming == old(pagiSocket.incoming) && pagiSocket.closed == old(pagiSocket.closed)
      ensures old(taskFile) == "" ==>
        && r == Fail(NoPreviousTask) && commandStack == old(commandStack)
        && (pagiSocket != null ==> pagiSocket.sent == old(pagiSocket.sent))
      ensures old(taskFile) != "" && old(taskFile) !in files ==>
        && r == Fail(TaskNotFound(old(taskFile))) && commandStack == old(commandStack)
        && (pagiSocket != null ==> pagiSocket.sent == old(pagiSocket.sent))
      ensures old(taskFile) != "" && old(taskFile) in files && old(pagiSocket) == null ==>
        r == Fail(SendFailed(NoOpenSocket)) && commandStack == old(commandStack)
      ensures old(taskFile) != "" && old(taskFile) in files && old(pagiSocket) != null ==>
        var m := LOAD_TASK + "," + old(taskFile);
        && r == Pass
        && commandStack == old(commandStack) + [(LOAD_TASK, Secondary(m))]
        && pagiSocket.sent == old(pagiSocket.sent) + [WithNewline(m)]
    {
      if taskFile == "" {
        return Fail(NoPreviousTask);
      }
      r := LoadTask(taskFile, files);
    }

    /** `print_text` (pagi_api.py:163-172): send "print,<text>", which is always accepted once
        a socket is open, then wait for the reply coded "print". A failed send raises before
        anything is received. */
    method PrintText(text: string) returns (r: Result<Reply, SendError>)
      requires Valid()
      modifies this, pagiSocket
      ensures Valid()
      ensures pagiSocket == old(pagiSocket) && taskFile == old(taskFile)
      ensures messageStack == old(messageStack)
      ensures old(pagiSocket) == null ==>
        && r == Failure(NoOpenSocket) && fragment == old(fragment)
        && commandStack == old(commandStack) && consumed == old(consumed)
        && received == old(received)
      ensures old(pagiSocket) != null ==>
        var m := PRINT + "," + text;
        var x := Receive(PRINT, true, true, old(fragment), old(pagiSocket.incoming));
        && r == Success(x.reply)
        && commandStack == old(commandStack) + [(PRINT, Secondary(m))]
        && pagiSocket.sent == old(pagiSocket.sent) + [WithNewline(m)]
        && fragment == x.fragment && pagiSocket.incoming == x.incoming
        && consumed == old(consumed) + x.lines
        && received + Concat(x.incoming) == old(received) + Concat(old(pagiSocket.incoming))
    {
      var message := PRINT + "," + text;
      UncheckedCommands();
      DispatchUncheckedCommand(PRINT, text);
      var sent := SendMessage(message);
      if sent.Fail? {
        return Failure(sent.error);
      }
      var reply := GetMessage(PRINT, true);
      r := Success(reply);
    }
  }

  lemma LinesAssociate(a: seq<string>, b: seq<string>, c: seq<string>)
    ensures a + b + c == a + (b + c)
  {
  }

  lemma ResumeAfter(cut: seq<string>, line: string, later: Exchange)
    ensures Resume(cut, Resume([line], later)) == Resume(cut + [line], later)
  {
    assert cut + ([line] + later.lines) == cut + [line] + later.lines;
  }

  /** Text kept by a step is kept after a common prefix too. */
  lemma Regrouped(joined: string, fragment: string, incoming: seq<string>, start: string,
                  queued: seq<string>)
    requires fragment + Concat(incoming) == start + Concat(queued)
    ensures joined + fragment + Concat(incoming) == joined + start + Concat(queued)
  {
    assert joined + fragment + Concat(incoming) == joined + (fragment + Concat(incoming));
    assert joined + start + Concat(queued) == joined + (start + Concat(queued));
  }

  /** Cutting the first line off the buffer keeps the class invariant's accounting. */
  lemma CutLine(fragment: string, index: int, consumed: seq<string>)
    requires index == Find(fragment, '\n') && index != -1
    ensures '\n' !in fragment[..index]
    ensures Join(consumed) + fragment == Join(consumed + [fragment[..index]]) + fragment[index + 1..]
  {
    FindMeaning(fragment, '\n');
    JoinSnoc(consumed, fragment[..index]);
    assert fragment == fragment[..index] + "\n" + fragment[index + 1..];
  }
}
