/** The socket the client talks through (pagi_api.py:61-63, 72, 113, 130-132), reduced to what
    the client observes: the chunks the peer will still deliver, the text written so far, and
    whether it has been closed. Text stands for its ASCII encoding. */
module Transport {
  import opened Strings

  /** The size every `recv` call asks for. */
  const RECV_SIZE: nat := 4096

  /** A measure of the undelivered input that every delivered chunk lowers, including an
      empty one. */
  function Backlog(incoming: seq<string>): nat
  {
    if incoming == [] then 0 else |incoming[0]| + 1 + Backlog(incoming[1..])
  }

  /** What one `recv(4096)` delivers and what stays queued: the next chunk, cut after 4096
      characters when it is longer, and "" once the peer has nothing more to send. */
  function TakeChunk(incoming: seq<string>): (string, seq<string>)
  {
    if incoming == [] then ("", [])
    else if |incoming[0]| <= RECV_SIZE then (incoming[0], incoming[1..])
    else (incoming[0][..RECV_SIZE], [incoming[0][RECV_SIZE..]] + incoming[1..])
  }

  /** A `recv` gives "" once nothing is queued, never more than 4096 characters, and lowers
      the backlog whenever something was queued. */
  lemma TakeChunkBounds(incoming: seq<string>)
    ensures incoming == [] ==> TakeChunk(incoming) == ("", [])
    ensures incoming != [] ==> Backlog(TakeChunk(incoming).1) < Backlog(incoming)
    ensures |TakeChunk(incoming).0| <= RECV_SIZE
  {
    if incoming != [] && |incoming[0]| > RECV_SIZE {
      var tail := incoming[0][RECV_SIZE..];
      assert ([tail] + incoming[1..])[1..] == incoming[1..];
    }
  }

  /** A `recv` neither loses nor reorders text: the chunk it delivers followed by what stays
      queued is what was queued. */
  lemma TakeChunkConserves(incoming: seq<string>)
    ensures TakeChunk(incoming).0 + Concat(TakeChunk(incoming).1) == Concat(incoming)
  {
    if incoming != [] && |incoming[0]| > RECV_SIZE {
      var head, tail := incoming[0][..RECV_SIZE], incoming[0][RECV_SIZE..];
      assert Concat([tail] + incoming[1..]) == tail + Concat(incoming[1..]) by {
        assert ([tail] + incoming[1..])[1..] == incoming[1..];
      }
      assert head + tail == incoming[0];
    }
  }

  /** A chunk that fits in one `recv` is delivered whole. */
  lemma SmallChunkWhole(chunk: string, more: seq<string>)
    requires |chunk| <= RECV_SIZE
    ensures TakeChunk([chunk] + more) == (chunk, more)
  {
    assert ([chunk] + more)[1..] == more;
  }

  class Socket {
    /** The chunks the peer sends from now on, in order. A TCP `recv` gives "" only once
        the peer has closed, so an empty chunk stands for that close, and so does the end of
        the queue; chunks queued after an empty one stand for nothing real. */
    var incoming: seq<string>
    /** Everything written to the socket, one entry per `send`. */
    var sent: seq<string>
    var closed: bool

    constructor (incoming: seq<string>)
      ensures this.incoming == incoming && sent == [] && !closed
    {
      this.incoming := incoming;
      sent := [];
      closed := false;
    }

    /** `recv(4096)`. */
    method Recv() returns (chunk: string)
      modifies this
      ensures (chunk, incoming) == TakeChunk(old(incoming))
      ensures sent == old(sent) && closed == old(closed)
    {
      var next := TakeChunk(incoming);
      chunk := next.0;
      incoming := next.1;
    }

    /** `send(data)`. */
    method Send(data: string)
      modifies this
      ensures sent == old(sent) + [data]
      ensures incoming == old(incoming) && closed == old(closed)
    {
      sent := sent + [data];
    }

    /** `close()`. */
    method Close()
      modifies this
      ensures closed
      ensures incoming == old(incoming) && sent == old(sent)
    {
      closed := true;
    }
  }
}
