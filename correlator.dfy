/** What one call of `PAGIWorld.get_message(code, block)` does (pagi_api.py:115-140), as a
    function of the buffered fragment and of the chunks the peer will deliver. The method
    in module World runs the source's loops and is proved to agree with `Receive`. */
module Correlator {
  import opened Wrappers
  import opened Strings
  import opened Framing
  import opened Transport

  /** How a call of `get_message` ends. */
  datatype Reply =
      /** It returns this line. */
    | Got(line: string)
      /** Non-blocking, and no complete line is buffered: it returns "". */
    | NoLine
      /** A line equal to the code: `response[len(code)]` raises IndexError. */
    | CodeIndexError
      /** Blocking, and the peer closed before completing a line: each `recv` now gives ""
          and the source's inner loop never ends. */
    | Starved
      /** `pagi_socket` is None when a `recv` is due: AttributeError. */
    | NoSocket

  /** The buffer and queue after the receiving half of one pass, and the reply when that
      half already ends the call. */
  datatype Pulled = Pulled(halt: Option<Reply>, fragment: string, incoming: seq<string>)

  /** The end of a call: the reply, the buffer and queue left behind, and the lines cut off
      the buffer on the way, in order (the dropped ones, then the one that ended it). */
  datatype Exchange = Exchange(reply: Reply, fragment: string, incoming: seq<string>,
                               lines: seq<string>)

  /** Either the step received something, lowering the backlog, or it left the buffer and
      the queue as they were. */
  predicate Progress(fragment: string, incoming: seq<string>, p: Pulled)
  {
    Backlog(p.incoming) < Backlog(incoming) || (p.incoming == incoming && p.fragment == fragment)
  }

  /** The queue left after `n` calls of `recv`. */
  function Drain(incoming: seq<string>, n: nat): seq<string>
    decreases n
  {
    if n == 0 then incoming else Drain(TakeChunk(incoming).1, n - 1)
  }

  /** The text the first `n` calls of `recv` deliver. */
  function Taken(incoming: seq<string>, n: nat): string
    decreases n
  {
    if n == 0 then "" else TakeChunk(incoming).0 + Taken(TakeChunk(incoming).1, n - 1)
  }

  /** The blocking inner loop (pagi_api.py:129-130) on an open socket: receive until the
      buffer holds a line break. An empty chunk is the peer's end of stream. */
  function Fill(fragment: string, incoming: seq<string>): Pulled
    decreases Backlog(incoming)
  {
    if '\n' in fragment then Pulled(None, fragment, incoming)
    else
      var (chunk, rest) := TakeChunk(incoming);
      if chunk == "" then Pulled(Some(Starved), fragment, rest)
      else
        assert Backlog(rest) < Backlog(incoming) by { TakeChunkBounds(incoming); }
        Fill(fragment + chunk, rest)
  }

  /** The inner loop ends with a line buffered or starves on an empty chunk; it loses
      nothing; it receives nothing when a line is already buffered. */
  lemma {:induction false} FillMeaning(fragment: string, incoming: seq<string>)
    ensures var p := Fill(fragment, incoming);
      && (p.halt.None? ==> '\n' in p.fragment)
      && (p.halt.Some? ==> p.halt.value == Starved && '\n' !in p.fragment)
      && p.fragment + Concat(p.incoming) == fragment + Concat(incoming)
      && ('\n' in fragment ==> p == Pulled(None, fragment, incoming))
      && Progress(fragment, incoming, p)
    decreases Backlog(incoming)
  {
    if '\n' !in fragment {
      var (chunk, rest) := TakeChunk(incoming);
      TakeChunkConserves(incoming);
      TakeChunkBounds(incoming);
      if chunk != "" {
        FillMeaning(fragment + chunk, rest);
        assert fragment + chunk + Concat(rest) == fragment + Concat(incoming);
      }
    }
  }

  /** The state after `n + 1` calls of `recv`, the first `n` of which brought no line break. */
  predicate FirstLineAt(fragment: string, incoming: seq<string>, n: nat, p: Pulled)
  {
    && p.incoming == Drain(incoming, n + 1)
    && p.fragment == fragment + Taken(incoming, n + 1)
    && '\n' !in fragment + Taken(incoming, n)
  }

  /** Without a line buffered, the inner loop stops at the first chunk that brings a line
      break: it ends after some `n + 1` receives, and the first `n` of them brought none. */
  lemma {:induction false} FillStopsAtFirstLine(fragment: string, incoming: seq<string>)
    requires '\n' !in fragment
    ensures var p := Fill(fragment, incoming);
      p.halt.None? ==> exists n: nat :: FirstLineAt(fragment, incoming, n, p)
    decreases Backlog(incoming)
  {
    var p := Fill(fragment, incoming);
    var (chunk, rest) := TakeChunk(incoming);
    if chunk != "" {
      TakeChunkBounds(incoming);
      if '\n' in fragment + chunk {
        assert p == Fill(fragment + chunk, rest);
        assert p == Pulled(None, fragment + chunk, rest);
        assert Drain(incoming, 1) == rest;
        assert Taken(incoming, 1) == chunk + "";
        assert fragment + Taken(incoming, 0) == fragment;
        assert FirstLineAt(fragment, incoming, 0, p);
      } else if p.halt.None? {
        FillStopsAtFirstLine(fragment + chunk, rest);
        var n: nat :| FirstLineAt(fragment + chunk, rest, n, p);
        assert Taken(incoming, n + 2) == chunk + Taken(rest, n + 1);
        assert Taken(incoming, n + 1) == chunk + Taken(rest, n);
        assert Drain(incoming, n + 2) == Drain(rest, n + 1);
        assert fragment + chunk + Taken(rest, n + 1) == fragment + Taken(incoming, n + 2);
        assert fragment + chunk + Taken(rest, n) == fragment + Taken(incoming, n + 1);
        assert FirstLineAt(fragment, incoming, n + 1, p);
      }
    }
  }

  /** The state after `n + 1` calls of `recv`: the first `n` brought text but no line break,
      and the last one gave "", the peer's close. */
  predicate StarvedAt(fragment: string, incoming: seq<string>, n: nat, p: Pulled)
  {
    && (forall k: nat :: k < n ==> TakeChunk(Drain(incoming, k)).0 != "")
    && TakeChunk(Drain(incoming, n)).0 == ""
    && p.incoming == Drain(incoming, n + 1)
    && p.fragment == fragment + Taken(incoming, n)
    && '\n' !in fragment + Taken(incoming, n)
  }

  /** Without a line buffered, the inner loop starves only at the first empty chunk: it
      keeps calling `recv` while no line break has arrived and the peer still sends. */
  lemma {:induction false} FillStarvesOnEmptyChunk(fragment: string, incoming: seq<string>)
    requires '\n' !in fragment
    ensures var p := Fill(fragment, incoming);
      p.halt.Some? ==> exists n: nat :: StarvedAt(fragment, incoming, n, p)
    decreases Backlog(incoming)
  {
    var p := Fill(fragment, incoming);
    var (chunk, rest) := TakeChunk(incoming);
    if chunk == "" {
      assert Drain(incoming, 0) == incoming && Drain(incoming, 1) == rest;
      assert fragment + Taken(incoming, 0) == fragment;
      assert StarvedAt(fragment, incoming, 0, p);
    } else if '\n' !in fragment + chunk && p.halt.Some? {
      TakeChunkBounds(incoming);
      assert p == Fill(fragment + chunk, rest);
      FillStarvesOnEmptyChunk(fragment + chunk, rest);
      var n: nat :| StarvedAt(fragment + chunk, rest, n, p);
      assert Drain(incoming, n + 1) == Drain(rest, n);
      assert Drain(incoming, n + 2) == Drain(rest, n + 1);
      assert Taken(incoming, n + 1) == chunk + Taken(rest, n);
      assert fragment + chunk + Taken(rest, n) == fragment + Taken(incoming, n + 1);
      forall k: nat | k < n + 1
        ensures TakeChunk(Drain(incoming, k)).0 != ""
      {
        if k > 0 {
          assert Drain(incoming, k) == Drain(rest, k - 1);
        }
      }
      assert StarvedAt(fragment, incoming, n + 1, p);
    }
  }

  /** The receiving half of one pass of the outer loop (pagi_api.py:128-132). */
  function Pull(block: bool, connected: bool, fragment: string, incoming: seq<string>): Pulled
  {
    if block then
      if '\n' in fragment then Pulled(None, fragment, incoming)
      else if !connected then Pulled(Some(NoSocket), fragment, incoming)
      else Fill(fragment, incoming)
    else if !connected then Pulled(Some(NoSocket), fragment, incoming)
    else
      var (chunk, rest) := TakeChunk(incoming);
      Pulled(None, fragment + chunk, rest)
  }

  /** Blocking, the pass receives only while no line is buffered and ends with one buffered
      unless it starves or finds no socket; it loses nothing; it either receives something
      or leaves everything as it was. */
  lemma PullMeaning(block: bool, connected: bool, fragment: string, incoming: seq<string>)
    ensures var p := Pull(block, connected, fragment, incoming);
      && (p.halt.Some? ==>
           (p.halt.value == Starved && block && connected && '\n' !in p.fragment) ||
           (p.halt.value == NoSocket && !connected && p.incoming == incoming))
      && (p.halt.None? && block ==> '\n' in p.fragment)
      && (!connected ==> p.incoming == incoming)
      && p.fragment + Concat(p.incoming) == fragment + Concat(incoming)
      && Progress(fragment, incoming, p)
  {
    if block {
      FillMeaning(fragment, incoming);
    } else if connected {
      TakeChunkConserves(incoming);
      TakeChunkBounds(incoming);
      assert incoming == [] ==> fragment + TakeChunk(incoming).0 == fragment;
    }
  }

  /** A pass halts the call only by starving or by finding no socket. */
  lemma PullHalt(block: bool, connected: bool, fragment: string, incoming: seq<string>)
    ensures var p := Pull(block, connected, fragment, incoming);
      p.halt.Some? ==> p.halt.value == Starved || p.halt.value == NoSocket
  {
    PullMeaning(block, connected, fragment, incoming);
  }

  /** The whole call: pass after pass, cut the first line off the buffer and return it if it
      answers `code`; drop it and go round again if it does not. */
  function Receive(code: string, block: bool, connected: bool, fragment: string,
                   incoming: seq<string>): Exchange
    decreases Backlog(incoming), |fragment|
  {
    var p := Pull(block, connected, fragment, incoming);
    if p.halt.Some? then Exchange(p.halt.value, p.fragment, p.incoming, [])
    else match SplitLine(p.fragment)
      case None => Exchange(NoLine, p.fragment, p.incoming, [])
      case Some((line, rest)) =>
        var verdict := MatchReply(code, line);
        if verdict == Accept then Exchange(Got(line), rest, p.incoming, [line])
        else if verdict == IndexError then Exchange(CodeIndexError, rest, p.incoming, [line])
        else
          assert Backlog(p.incoming) < Backlog(incoming) ||
                 (p.incoming == incoming && |rest| < |fragment|) by {
            PassShrinks(block, connected, fragment, incoming);
          }
          var x := Receive(code, block, connected, rest, p.incoming);
          x.(lines := [line] + x.lines)
  }

  /** A pass that cuts a line and goes round again has received something or has shortened
      the buffer: the call terminates. */
  lemma PassShrinks(block: bool, connected: bool, fragment: string, incoming: seq<string>)
    ensures var p := Pull(block, connected, fragment, incoming);
      p.halt.None? && SplitLine(p.fragment).Some? ==>
        Backlog(p.incoming) < Backlog(incoming) ||
        (p.incoming == incoming && |SplitLine(p.fragment).value.1| < |fragment|)
  {
    PullMeaning(block, connected, fragment, incoming);
    SplitLineMeaning(Pull(block, connected, fragment, incoming).fragment);
  }

  /** The call once the lines `cut` have been cut off and dropped, and `later` describes
      the remaining passes. */
  function Resume(cut: seq<string>, later: Exchange): (x: Exchange)
    ensures x.reply == later.reply && x.fragment == later.fragment
    ensures x.incoming == later.incoming && x.lines == cut + later.lines
  {
    later.(lines := cut + later.lines)
  }

  /** One pass of the call: after the receiving half, a buffer without a complete line ends
      the call with ""; otherwise the first line is returned, raises, or is dropped before
      the next pass. */
  lemma ReceivePass(code: string, block: bool, connected: bool, fragment: string,
                    incoming: seq<string>)
    ensures var p := Pull(block, connected, fragment, incoming);
      var x := Receive(code, block, connected, fragment, incoming);
      && (p.halt.Some? ==> x == Exchange(p.halt.value, p.fragment, p.incoming, []))
      && (p.halt.None? && SplitLine(p.fragment).None? ==>
           x == Exchange(NoLine, p.fragment, p.incoming, []))
      && (p.halt.None? && SplitLine(p.fragment).Some? ==>
           var (line, rest) := SplitLine(p.fragment).value;
           && (MatchReply(code, line) == Accept ==> x == Exchange(Got(line), rest, p.incoming, [line]))
           && (MatchReply(code, line) == IndexError ==>
                x == Exchange(CodeIndexError, rest, p.incoming, [line]))
           && (MatchReply(code, line) == Skip ==>
                x == Resume([line], Receive(code, block, connected, rest, p.incoming))))
  {
  }

  /** No data is lost or reordered: the buffer and the undelivered chunks before the call
      hold the same text as the lines cut off, each with its "\n", followed by the buffer
      and the undelivered chunks after it; and each cut-off line is a single line. */
  lemma {:induction false} ReceiveConserves(code: string, block: bool, connected: bool,
                                            fragment: string, incoming: seq<string>)
    ensures var x := Receive(code, block, connected, fragment, incoming);
      && AllLines(x.lines)
      && fragment + Concat(incoming) == Join(x.lines) + x.fragment + Concat(x.incoming)
    decreases Backlog(incoming), |fragment|
  {
    var p := Pull(block, connected, fragment, incoming);
    PullMeaning(block, connected, fragment, incoming);
    var x := Receive(code, block, connected, fragment, incoming);
    if p.halt.Some? || SplitLine(p.fragment).None? {
      assert x.lines == [] && x.fragment == p.fragment && x.incoming == p.incoming;
    } else {
      var (line, rest) := SplitLine(p.fragment).value;
      SplitLineMeaning(p.fragment);
      if MatchReply(code, line) == Skip {
        ReceiveConserves(code, block, connected, rest, p.incoming);
        var y := Receive(code, block, connected, rest, p.incoming);
        assert x == y.(lines := [line] + y.lines);
        ConservesAcrossCut(fragment, incoming, p, line, rest, y);
      } else {
        assert x.lines == [line] && x.fragment == rest && x.incoming == p.incoming;
        ConservesAtLastCut(fragment, incoming, p, line, rest);
      }
    }
  }

  /** One pass of the loop keeps the text: the pass's pull keeps it, cutting `line` keeps it,
      and what the later passes (summarised by `y`) do keeps it. */
  lemma ConservesAcrossCut(fragment: string, incoming: seq<string>, p: Pulled, line: string,
                            rest: string, y: Exchange)
    requires fragment + Concat(incoming) == p.fragment + Concat(p.incoming)
    requires p.fragment == line + "\n" + rest && '\n' !in line
    requires AllLines(y.lines)
    requires rest + Concat(p.incoming) == Join(y.lines) + y.fragment + Concat(y.incoming)
    ensures AllLines([line] + y.lines)
    ensures fragment + Concat(incoming) ==
      Join([line] + y.lines) + y.fragment + Concat(y.incoming)
  {
    JoinCons(line, y.lines);
    Regroup(line, rest, Concat(p.incoming), Join(y.lines), y.fragment, Concat(y.incoming));
  }

  /** The pass that ends the call keeps the text too. */
  lemma ConservesAtLastCut(fragment: string, incoming: seq<string>, p: Pulled, line: string,
                           rest: string)
    requires fragment + Concat(incoming) == p.fragment + Concat(p.incoming)
    requires p.fragment == line + "\n" + rest && '\n' !in line
    ensures AllLines([line])
    ensures fragment + Concat(incoming) == Join([line]) + rest + Concat(p.incoming)
  {
    assert Join([line]) == line + "\n";
  }

  lemma JoinCons(line: string, lines: seq<string>)
    requires '\n' !in line && AllLines(lines)
    ensures Join([line] + lines) == line + "\n" + Join(lines)
    ensures AllLines([line] + lines)
  {
    var all := [line] + lines;
    assert all[1..] == lines;
    assert forall i :: 0 < i < |all| ==> all[i] == lines[i - 1];
  }

  /** Cutting `line` and its "\n" off the front of a text and regrouping the remainder. */
  lemma Regroup(line: string, rest: string, queued: string, joined: string, fragment: string,
                left: string)
    requires rest + queued == joined + fragment + left
    ensures line + "\n" + rest + queued == (line + "\n" + joined) + fragment + left
  {
    calc {
      line + "\n" + rest + queued;
      line + "\n" + (rest + queued);
      line + "\n" + (joined + fragment + left);
      (line + "\n" + joined) + fragment + left;
    }
  }

  /** None of the lines answers `code`. */
  predicate AllSkipped(code: string, lines: seq<string>)
  {
    forall i :: 0 <= i < |lines| ==> MatchReply(code, lines[i]) == Skip
  }

  /** How the lines cut off during a call relate to `code`: every line cut off before the
      last was dropped because it does not answer `code`; a returned line is the last one cut
      and answers `code`; IndexError comes from the last line cut, which equals a non-empty
      code; a call that ends without a line dropped every line it cut. */
  predicate Matched(code: string, x: Exchange)
  {
    if x.reply.Got? || x.reply == CodeIndexError then
      && x.lines != []
      && AllSkipped(code, x.lines[..|x.lines| - 1])
      && (x.reply.Got? ==>
           x.reply.line == x.lines[|x.lines| - 1] && MatchReply(code, x.reply.line) == Accept)
      && (x.reply == CodeIndexError ==> MatchReply(code, x.lines[|x.lines| - 1]) == IndexError)
    else
      AllSkipped(code, x.lines)
  }

  /** Every call ends as `Matched` describes: it returns the first line that answers `code`,
      and drops exactly the lines before it. */
  lemma {:induction false} ReceiveMatches(code: string, block: bool, connected: bool,
                                          fragment: string, incoming: seq<string>)
    ensures Matched(code, Receive(code, block, connected, fragment, incoming))
    decreases Backlog(incoming), |fragment|
  {
    var p := Pull(block, connected, fragment, incoming);
    var x := Receive(code, block, connected, fragment, incoming);
    if p.halt.Some? || SplitLine(p.fragment).None? {
      PullHalt(block, connected, fragment, incoming);
      assert x.lines == [] && !x.reply.Got? && x.reply != CodeIndexError;
    } else {
      var (line, rest) := SplitLine(p.fragment).value;
      var verdict := MatchReply(code, line);
      if verdict == Skip {
        PassShrinks(block, connected, fragment, incoming);
        ReceiveMatches(code, block, connected, rest, p.incoming);
        var y := Receive(code, block, connected, rest, p.incoming);
        assert x == y.(lines := [line] + y.lines);
        MatchedAcrossSkip(code, line, y);
      } else if verdict == Accept {
        assert x == Exchange(Got(line), rest, p.incoming, [line]);
        MatchedAtCut(code, line, x);
      } else {
        assert x == Exchange(CodeIndexError, rest, p.incoming, [line]);
        MatchedAtCut(code, line, x);
      }
    }
  }

  lemma MatchedAtCut(code: string, line: string, x: Exchange)
    requires x.lines == [line]
    requires x.reply == Got(line) || x.reply == CodeIndexError
    requires x.reply.Got? ==> MatchReply(code, line) == Accept
    requires x.reply == CodeIndexError ==> MatchReply(code, line) == IndexError
    ensures Matched(code, x)
  {
    assert x.lines[..0] == [];
  }

  lemma MatchedAcrossSkip(code: string, line: string, y: Exchange)
    requires MatchReply(code, line) == Skip && Matched(code, y)
    ensures Matched(code, y.(lines := [line] + y.lines))
  {
    SkippedCons(code, line, y.lines);
  }

  lemma SkippedCons(code: string, line: string, lines: seq<string>)
    requires MatchReply(code, line) == Skip
    ensures AllSkipped(code, lines) ==> AllSkipped(code, [line] + lines)
    ensures lines != [] && AllSkipped(code, lines[..|lines| - 1]) ==>
      AllSkipped(code, ([line] + lines)[..|lines|])
    ensures lines != [] ==> ([line] + lines)[|lines|] == lines[|lines| - 1]
  {
    var all := [line] + lines;
    assert forall i :: 0 < i < |all| ==> all[i] == lines[i - 1];
  }

  /** The ways a call ends without a line: non-blocking with no complete line, starved on a
      closed peer while blocking, or with no socket, in which case nothing was received. */
  lemma {:induction false} ReceiveHalts(code: string, block: bool, connected: bool,
                                        fragment: string, incoming: seq<string>)
    ensures var x := Receive(code, block, connected, fragment, incoming);
      && (x.reply == NoLine ==> !block && '\n' !in x.fragment)
      && (x.reply == Starved ==> block && connected && '\n' !in x.fragment)
      && (x.reply == NoSocket ==> !connected && x.incoming == incoming)
      && (!connected ==> x.incoming == incoming)
    decreases Backlog(incoming), |fragment|
  {
    var p := Pull(block, connected, fragment, incoming);
    PullMeaning(block, connected, fragment, incoming);
    SplitLineMeaning(p.fragment);
    if p.halt.None? && SplitLine(p.fragment).Some? {
      var (line, rest) := SplitLine(p.fragment).value;
      if MatchReply(code, line) == Skip {
        ReceiveHalts(code, block, connected, rest, p.incoming);
      }
    }
  }

  /** Blocking, a buffered line that answers `code` is returned without any `recv`. */
  lemma ReadyLineAnswers(code: string, connected: bool, line: string, rest: string,
                         incoming: seq<string>)
    requires '\n' !in line && MatchReply(code, line) == Accept
    ensures Receive(code, true, connected, line + "\n" + rest, incoming) ==
      Exchange(Got(line), rest, incoming, [line])
  {
    SplitLineOfLine(line, rest);
  }

  /** Non-blocking, each pass receives exactly once: one `recv` per line cut off, plus the
      one after which no line was found. */
  lemma {:induction false} NonBlockingReceivesOncePerPass(code: string, fragment: string,
                                                          incoming: seq<string>)
    ensures var x := Receive(code, false, true, fragment, incoming);
      x.incoming == Drain(incoming, RecvCount(x))
    decreases Backlog(incoming), |fragment|
  {
    var p := Pull(false, true, fragment, incoming);
    var x := Receive(code, false, true, fragment, incoming);
    assert p.halt.None? && p.incoming == TakeChunk(incoming).1;
    if SplitLine(p.fragment).None? {
      assert x.reply == NoLine && x.lines == [] && x.incoming == p.incoming;
      DrainOnce(incoming, x);
    } else {
      var (line, rest) := SplitLine(p.fragment).value;
      if MatchReply(code, line) == Skip {
        PassShrinks(false, true, fragment, incoming);
        NonBlockingReceivesOncePerPass(code, rest, p.incoming);
        var y := Receive(code, false, true, rest, p.incoming);
        assert x == y.(lines := [line] + y.lines);
        DrainAcrossPass(incoming, line, y);
      } else {
        assert x.reply != NoLine && x.lines == [line] && x.incoming == p.incoming;
        DrainOnce(incoming, x);
      }
    }
  }

  /** The number of `recv` calls a non-blocking call makes, by how it ended. */
  function RecvCount(x: Exchange): nat
  {
    |x.lines| + (if x.reply == NoLine then 1 else 0)
  }

  lemma DrainOnce(incoming: seq<string>, x: Exchange)
    requires x.incoming == TakeChunk(incoming).1 && RecvCount(x) == 1
    ensures x.incoming == Drain(incoming, RecvCount(x))
  {
  }

  lemma DrainAcrossPass(incoming: seq<string>, line: string, y: Exchange)
    requires y.incoming == Drain(TakeChunk(incoming).1, RecvCount(y))
    ensures y.incoming == Drain(incoming, RecvCount(y.(lines := [line] + y.lines)))
  {
    assert RecvCount(y.(lines := [line] + y.lines)) == RecvCount(y) + 1;
  }

  /** Non-blocking, with no complete line after one `recv`, the call returns "" and keeps
      the chunk in the buffer. */
  lemma NonBlockingWithoutLine(code: string, fragment: string, incoming: seq<string>)
    requires '\n' !in fragment + TakeChunk(incoming).0
    ensures Receive(code, false, true, fragment, incoming) ==
      Exchange(NoLine, fragment + TakeChunk(incoming).0, TakeChunk(incoming).1, [])
  {
    SplitLineMeaning(fragment + TakeChunk(incoming).0);
  }

  /** Blocking, with buffered lines none of which answers `code` followed by one that does:
      the call drops the former, returns the latter, and receives nothing. */
  lemma {:induction false} ReturnsFirstAnswer(code: string, connected: bool,
                                              skipped: seq<string>, answer: string,
                                              rest: string, incoming: seq<string>)
    requires AllLines(skipped) && AllSkipped(code, skipped)
    requires '\n' !in answer && MatchReply(code, answer) == Accept
    ensures Receive(code, true, connected, Join(skipped) + answer + "\n" + rest, incoming) ==
      Exchange(Got(answer), rest, incoming, skipped + [answer])
  {
    if skipped == [] {
      assert Join(skipped) + answer + "\n" + rest == answer + "\n" + rest;
      assert skipped + [answer] == [answer];
      ReadyLineAnswers(code, connected, answer, rest, incoming);
    } else {
      var later := skipped[1..];
      assert AllLines(later) && AllSkipped(code, later) by {
        assert forall i :: 0 <= i < |later| ==> later[i] == skipped[i + 1];
      }
      var line, tail := skipped[0], Join(later) + answer + "\n" + rest;
      assert Join(skipped) + answer + "\n" + rest == line + "\n" + tail by {
        assert Join(skipped) == line + "\n" + Join(later);
      }
      ReturnsFirstAnswer(code, connected, later, answer, rest, incoming);
      BlockingDropsSkippedLine(code, connected, line, tail, incoming);
      LinesAfterFirst(skipped, answer);
    }
  }

  lemma LinesAfterFirst(skipped: seq<string>, answer: string)
    requires skipped != []
    ensures skipped + [answer] == [skipped[0]] + (skipped[1..] + [answer])
  {
    assert skipped == [skipped[0]] + skipped[1..];
  }

  /** Blocking, a buffered line that does not answer `code` is dropped and the call goes on
      with the rest of the buffer. */
  lemma BlockingDropsSkippedLine(code: string, connected: bool, line: string, tail: string,
                                 incoming: seq<string>)
    requires '\n' !in line && MatchReply(code, line) == Skip
    ensures var x := Receive(code, true, connected, tail, incoming);
      Receive(code, true, connected, line + "\n" + tail, incoming) ==
        x.(lines := [line] + x.lines)
  {
    SplitLineOfLine(line, tail);
    assert (line + "\n" + tail)[|line|] == '\n';
  }
}
