/** The line discipline of the replies (pagi_api.py:133-140): the server's replies are lines
    ended by "\n"; the client cuts the first complete line off its buffer and decides whether
    it answers the request it is waiting for. */
module Framing {
  import opened Wrappers
  import opened Strings

  /** The text a sequence of lines takes on the wire: each line followed by "\n". */
  function Join(lines: seq<string>): string
  {
    if lines == [] then "" else lines[0] + "\n" + Join(lines[1..])
  }

  /** Each entry is one line: none holds a line break. */
  predicate AllLines(lines: seq<string>)
  {
    forall i :: 0 <= i < |lines| ==> '\n' !in lines[i]
  }

  lemma {:induction false} JoinSnoc(lines: seq<string>, line: string)
    ensures Join(lines + [line]) == Join(lines) + line + "\n"
  {
    if lines != [] {
      assert (lines + [line])[1..] == lines[1..] + [line];
      JoinSnoc(lines[1..], line);
    }
  }

  /** pagi_api.py:133-138: the text before the first "\n" and the text after it, or None
      when the buffer holds no complete line. */
  function SplitLine(fragment: string): Option<(string, string)>
  {
    var i := Find(fragment, '\n');
    if i == -1 then None else Some((fragment[..i], fragment[i + 1..]))
  }

  /** There is a line to cut exactly when the buffer holds a "\n"; the cut line holds none,
      and the line, its "\n" and the remainder make up the buffer. */
  lemma SplitLineMeaning(fragment: string)
    ensures SplitLine(fragment).None? <==> '\n' !in fragment
    ensures SplitLine(fragment).Some? ==>
      var (line, rest) := SplitLine(fragment).value;
      '\n' !in line && fragment == line + "\n" + rest
  {
    var i := Find(fragment, '\n');
    FindMeaning(fragment, '\n');
    if i != -1 {
      assert fragment == fragment[..i] + "\n" + fragment[i + 1..];
    }
  }

  /** Cutting a line off the buffer gives back exactly that line and what followed it. */
  lemma SplitLineOfLine(line: string, rest: string)
    requires '\n' !in line
    ensures SplitLine(line + "\n" + rest) == Some((line, rest))
  {
    var s := line + "\n" + rest;
    FindAfter(line, '\n', rest);
    assert s[..|line|] == line;
    assert s[|line| + 1..] == rest;
  }

  /** What line 139 makes of a reply line: it answers the request, it is dropped, or
      `response[len(code)]` indexes past its end. */
  datatype Verdict = Accept | Skip | IndexError

  /** `code == "" or (response[:len(code)] == code and response[len(code)] == ",")`, with
      Python's left-to-right evaluation: the index is only reached when the prefix matched. */
  function MatchReply(code: string, response: string): Verdict
  {
    if code == "" then Accept
    else if Slice(response, 0, |code|) != code then Skip
    else if |response| <= |code| then IndexError
    else if response[|code|] == ',' then Accept
    else Skip
  }

  /** A line answers a request when the code is empty or the line is the code followed by a
      comma and anything; the index error happens exactly on a line equal to a non-empty code. */
  lemma MatchReplyMeaning(code: string, response: string)
    ensures MatchReply(code, response) == Accept <==>
      code == "" ||
      (|code| < |response| && response[..|code|] == code && response[|code|] == ',')
    ensures MatchReply(code, response) == IndexError <==> code != "" && response == code
  {
  }

  /** A reply of the form `<code>,<fields>` is accepted for `code`. */
  lemma AcceptReply(code: string, fields: string)
    ensures MatchReply(code, code + "," + fields) == Accept
  {
    var r := code + "," + fields;
    assert r[..|code|] == code;
  }
}
