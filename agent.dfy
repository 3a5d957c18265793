/** The agent-side helpers of the client (pagi_api.py:236-494): the left/right check on
    direction and hand names, the hand a `PAGIAgentHand` drives, the sign `move_paces` gives
    its force, the messages the hand methods send, and the chunking of a vision reply into
    rows. */
module Agent {
  import opened Wrappers
  import opened Vocabulary
  import opened Commands

  /** The errors the agent helpers raise. */
  datatype AgentError =
      /** `assert_left_or_right` refused the name: ValueError. */
    | NotLeftOrRight(direction: string)
      /** `(j - 1) % column_length` with `column_length` 0: ZeroDivisionError. */
    | ZeroDivision

  /** `str.upper` on one character, for the ASCII letters. */
  function UpperChar(c: char): char
  {
    if 'a' <= c <= 'z' then (c as int - 'a' as int + 'A' as int) as char else c
  }

  /** `str.upper`: every character mapped by `UpperChar`. */
  function Upper(s: string): (u: string)
    ensures |u| == |s|
    ensures forall i :: 0 <= i < |s| ==> u[i] == UpperChar(s[i])
  {
    if s == [] then [] else [UpperChar(s[0])] + Upper(s[1..])
  }

  /** Upper-casing twice is upper-casing once. */
  lemma UpperIdempotent(s: string)
    ensures Upper(Upper(s)) == Upper(s)
  {
    assert forall i :: 0 <= i < |s| ==> UpperChar(UpperChar(s[i])) == UpperChar(s[i]);
  }

  /** The four spellings `assert_left_or_right` accepts once upper-cased. */
  predicate IsSideName(u: string)
  {
    u == "R" || u == "L" || u == "RIGHT" || u == "LEFT"
  }

  /** `assert_left_or_right` (pagi_api.py:485-494): the direction passes when its upper-cased
      form is R, L, RIGHT or LEFT, and raises ValueError otherwise. */
  function AssertLeftOrRight(direction: string): (r: Outcome<AgentError>)
    ensures r.Fail? ==> r.error == NotLeftOrRight(direction)
  {
    if !IsSideName(Upper(direction)) then Fail(NotLeftOrRight(direction)) else Pass
  }

  /** One character matches a letter of a side name, in either case. */
  predicate Letter(c: char, upper: char)
    requires 'A' <= upper <= 'Z'
  {
    c == upper || c as int == upper as int - 'A' as int + 'a' as int
  }

  /** An independent reading of the check, letter by letter: "r", "l", "right" or "left" in
      any mixture of cases. */
  lemma AssertLeftOrRightSpelled(direction: string)
    ensures AssertLeftOrRight(direction).Pass? <==>
      || (|direction| == 1 && (Letter(direction[0], 'R') || Letter(direction[0], 'L')))
      || (|direction| == 5 && Letter(direction[0], 'R') && Letter(direction[1], 'I')
          && Letter(direction[2], 'G') && Letter(direction[3], 'H') && Letter(direction[4], 'T'))
      || (|direction| == 4 && Letter(direction[0], 'L') && Letter(direction[1], 'E')
          && Letter(direction[2], 'F') && Letter(direction[3], 'T'))
  {
    var u := Upper(direction);
    if |direction| == 1 {
      assert u == [UpperChar(direction[0])];
    } else if |direction| == 4 {
      assert u == [UpperChar(direction[0]), UpperChar(direction[1]), UpperChar(direction[2]),
                   UpperChar(direction[3])];
    } else if |direction| == 5 {
      assert u == [UpperChar(direction[0]), UpperChar(direction[1]), UpperChar(direction[2]),
                   UpperChar(direction[3]), UpperChar(direction[4])];
    }
  }

  /** The check ignores case: a name passes exactly when its upper-cased form does. */
  lemma AssertLeftOrRightIgnoresCase(direction: string)
    ensures AssertLeftOrRight(direction).Pass? == AssertLeftOrRight(Upper(direction)).Pass?
  {
    UpperIdempotent(direction);
  }

  /** `PAGIAgentHand.__init__` (pagi_api.py:438-440): the name is checked, then the hand is
      the upper-cased first character. */
  function HandSide(hand: string): (r: Result<char, AgentError>)
    ensures r.Failure? ==> r.error == NotLeftOrRight(hand)
  {
    match AssertLeftOrRight(hand)
    case Fail(e) => Failure(e)
    case Pass => Success(UpperChar(hand[0]))
  }

  /** `move_paces` (pagi_api.py:333-335): the direction is checked, then the sign of the
      sideways force sent at every pace is 1 for a direction starting with R or r, and -1
      otherwise. */
  function PaceSign(direction: string): (r: Result<int, AgentError>)
    ensures r.Failure? ==> r.error == NotLeftOrRight(direction)
  {
    match AssertLeftOrRight(direction)
    case Fail(e) => Failure(e)
    case Pass => Success(if UpperChar(direction[0]) == 'R' then 1 else -1)
  }

  /** A hand is 'R' exactly for "r" and "right" in any case, 'L' exactly for "l" and
      "left", and nothing else is a hand. */
  lemma HandSideMeaning(hand: string)
    ensures HandSide(hand) == Success('R') <==> Upper(hand) == "R" || Upper(hand) == "RIGHT"
    ensures HandSide(hand) == Success('L') <==> Upper(hand) == "L" || Upper(hand) == "LEFT"
    ensures HandSide(hand).Success? <==> AssertLeftOrRight(hand).Pass?
    ensures HandSide(hand).Success? ==> HandSide(hand).value == 'R' || HandSide(hand).value == 'L'
  {
    if hand != [] {
      assert Upper(hand)[0] == UpperChar(hand[0]);
    }
  }

  /** Pacing goes right, with sign 1, exactly for the names of the right side, and left,
      with sign -1, exactly for the names of the left side; so the sign agrees with the
      hand the same name would select. */
  lemma PaceSignMeaning(direction: string)
    ensures PaceSign(direction) == Success(1) <==>
      Upper(direction) == "R" || Upper(direction) == "RIGHT"
    ensures PaceSign(direction) == Success(-1) <==>
      Upper(direction) == "L" || Upper(direction) == "LEFT"
    ensures PaceSign(direction) == Success(1) <==> HandSide(direction) == Success('R')
    ensures PaceSign(direction) == Success(-1) <==> HandSide(direction) == Success('L')
    ensures PaceSign(direction).Failure? <==> HandSide(direction).Failure?
  {
    HandSideMeaning(direction);
    if direction != [] {
      assert Upper(direction)[0] == UpperChar(direction[0]);
    }
  }

  /** What a hand's `get_position` sends (pagi_api.py:448): "sensorRequest,LP" or
      "sensorRequest,RP", both of which `send_message` accepts. */
  lemma HandPositionRequestSent(hand: string)
    requires HandSide(hand).Success?
    ensures var sensor := [HandSide(hand).value] + "P";
      var m := SENSOR_REQUEST + "," + sensor;
      Dispatch(m) == Success(Dispatched(SENSOR_REQUEST, sensor, WithNewline(m)))
  {
    HandSideMeaning(hand);
    var sensor := [HandSide(hand).value] + "P";
    assert sensor == "RP" || sensor == "LP";
    assert sensor in BASIC_SENSORS;
    DispatchSensorRequest(sensor);
  }

  /** What a hand's `release` and `grab` send (pagi_api.py:457, 465): "LHR", "RHG" and so on
      carry no comma, so `send_message` judges them by "LH" or "RH", which is no command,
      and raises. */
  lemma HandGrabAndReleaseRefused(hand: string, action: string)
    requires HandSide(hand).Success? && (action == "HR" || action == "HG")
    ensures var m := [HandSide(hand).value] + action;
      Dispatch(m) == Failure(InvalidCommand(m))
  {
    HandSideMeaning(hand);
    var m := [HandSide(hand).value] + action;
    DispatchWithoutComma(m);
    assert m[..|m| - 1] == [m[0], m[1]];
  }

  /** What a hand's relative `send_force` sends (pagi_api.py:480): "LHvec,<x>,<y>" or
      "RHvec,<x>,<y>", whose command part "LHvec" or "RHvec" is a force name and no
      command, so `send_message` raises whatever the vector. */
  lemma HandForceRefused(hand: string, vector: string)
    requires HandSide(hand).Success?
    ensures var m := [HandSide(hand).value] + "Hvec," + vector;
      Dispatch(m) == Failure(InvalidCommand(m))
  {
    HandSideMeaning(hand);
    var command := [HandSide(hand).value] + "Hvec";
    assert [HandSide(hand).value] + "Hvec," + vector == command + "," + vector;
    assert command == "RHvec" || command == "LHvec";
    HandForcesAreNoCommands();
    UnknownCommandRefused(command, vector);
  }

  lemma HandForcesAreNoCommands()
    ensures "RHvec" !in VALID_COMMANDS && "LHvec" !in VALID_COMMANDS
  {
  }

  /** Python's `a % b` for `b != 0`: the remainder takes the sign of the divisor and differs
      from `a` by a multiple of `b`, which fixes its value; it is 0 exactly when Dafny's
      (Euclidean) remainder is. */
  function FloorMod(a: int, b: int): (r: int)
    requires b != 0
    ensures b > 0 ==> 0 <= r < b
    ensures b < 0 ==> b < r <= 0
    ensures (a - r) % b == 0
    ensures r == 0 <==> a % b == 0
  {
    var q := a / b;
    assert a == q * b + a % b;
    if b > 0 || a % b == 0 then
      ModUnique(if b > 0 then q else -q, 0, b);
      a % b
    else
      assert a - (a % b + b) == (1 - q) * Abs(b);
      ModUnique(1 - q, 0, b);
      a % b + b
  }

  lemma MulAtLeast(d: int, w: int)
    requires d >= 1 && w > 0
    ensures d * w >= w
  {
  }

  function Abs(n: int): nat
  {
    if n < 0 then -n else n
  }

  /** Division with remainder is unique: `q * |w| + r` with `0 <= r < |w|` leaves remainder
      `r` on division by `w`. */
  lemma ModUnique(q: int, r: int, w: int)
    requires w != 0 && 0 <= r < Abs(w)
    ensures (q * Abs(w) + r) % w == r
  {
    var a := Abs(w);
    var n := q * a + r;
    var q', r' := n / w, n % w;
    assert n == q' * w + r';
    if w > 0 {
      assert (q - q') * a == r' - r;
      if q - q' >= 1 { MulAtLeast(q - q', a); }
      else if q' - q >= 1 { MulAtLeast(q' - q, a); }
    } else {
      assert (q + q') * a == r' - r;
      if q + q' >= 1 { MulAtLeast(q + q', a); }
      else if -q - q' >= 1 { MulAtLeast(-q - q', a); }
    }
  }

  /** The chunking `__process_vision` performs, as a reference definition: consecutive rows
      of `width` items, the last row holding what is left over, and one empty row when there
      are no items. */
  function Rows(items: seq<string>, width: nat): seq<seq<string>>
    requires width > 0
    decreases |items|
  {
    if |items| <= width then [items] else [items[..width]] + Rows(items[width..], width)
  }

  /** The rows laid end to end. */
  function Flatten(rows: seq<seq<string>>): seq<string>
  {
    if rows == [] then [] else rows[0] + Flatten(rows[1..])
  }

  /** Chunking loses, adds and reorders nothing: the rows laid end to end are the items. */
  lemma {:induction false} RowsFlatten(items: seq<string>, width: nat)
    requires width > 0
    ensures Flatten(Rows(items, width)) == items
    decreases |items|
  {
    if |items| > width {
      var rows := Rows(items, width);
      assert rows[1..] == Rows(items[width..], width);
      RowsFlatten(items[width..], width);
      assert items == items[..width] + items[width..];
    }
  }

  /** Every row but the last holds exactly `width` items and the last holds the rest, at
      least one unless there are no items: so there are as few rows as can hold the items. */
  lemma {:induction false} RowsShape(items: seq<string>, width: nat)
    requires width > 0
    ensures var rows := Rows(items, width);
      && |rows| >= 1
      && (forall i :: 0 <= i < |rows| - 1 ==> |rows[i]| == width)
      && |items| == (|rows| - 1) * width + |rows[|rows| - 1]|
      && |rows[|rows| - 1]| <= width
      && (items != [] ==> 0 < |rows[|rows| - 1]|)
    decreases |items|
  {
    if |items| > width {
      var rows, rest := Rows(items, width), Rows(items[width..], width);
      RowsShape(items[width..], width);
      assert rows == [items[..width]] + rest;
      assert (|rows| - 1) * width == (|rest| - 1) * width + width;
    }
  }

  /** Item `k` of row `i` is item `i * width + k`. */
  lemma {:induction false} RowsIndex(items: seq<string>, width: nat, i: nat, k: nat)
    requires width > 0
    requires i < |Rows(items, width)| && k < |Rows(items, width)[i]|
    ensures i * width + k < |items| && Rows(items, width)[i][k] == items[i * width + k]
    decreases |items|
  {
    if |items| > width {
      var rows, rest := Rows(items, width), Rows(items[width..], width);
      assert rows == [items[..width]] + rest;
      if i > 0 {
        assert rows[i] == rest[i - 1];
        RowsIndex(items[width..], width, i - 1, k);
        assert (i - 1) * width + k + width == i * width + k;
      }
    }
  }

  /** Adding one item opens a new row when the last one is full, and extends the last row
      otherwise. */
  lemma {:induction false} RowsSnoc(items: seq<string>, item: string, width: nat)
    requires width > 0 && items != []
    ensures var rows := Rows(items, width);
      if |rows[|rows| - 1]| == width then Rows(items + [item], width) == rows + [[item]]
      else Rows(items + [item], width) == rows[..|rows| - 1] + [rows[|rows| - 1] + [item]]
    decreases |items|
  {
    var more := items + [item];
    if |items| == width {
      assert more[..width] == items && more[width..] == [item];
    } else if |items| > width {
      RowsSnoc(items[width..], item, width);
      assert more[..width] == items[..width] && more[width..] == items[width..] + [item];
    }
  }

  /** Chunking raises only for a zero column length with fields to place, and otherwise
      keeps every field after the header, in order. */
  lemma VisionKeepsFields(response: seq<string>, columnLength: int)
    ensures Vision(response, columnLength).Failure? <==> |response| > 1 && columnLength == 0
    ensures Vision(response, columnLength).Success? ==>
      Flatten(Vision(response, columnLength).value) == if |response| <= 1 then [] else response[1..]
  {
    if |response| <= 1 {
      assert Flatten([[]]) == [];
    } else if columnLength != 0 {
      RowsFlatten(response[1..], Abs(columnLength));
    }
  }

  /** A peripheral vision reply, its header and 11 * 16 values, gives 11 rows of 16 values
      in reply order (pagi_api.py:388-397). */
  lemma PeripheralVisionGrid(response: seq<string>)
    requires |response| == 1 + 11 * 16
    ensures Vision(response, 16).Success?
    ensures var rows := Vision(response, 16).value;
      && |rows| == 11
      && (forall i :: 0 <= i < 11 ==> |rows[i]| == 16)
      && (forall i, k :: 0 <= i < 11 && 0 <= k < 16 ==> rows[i][k] == response[1 + i * 16 + k])
  {
    var rows := Rows(response[1..], 16);
    RowsShape(response[1..], 16);
    assert |rows| == 11 by {
      if |rows| < 11 { MulAtLeast(11 - |rows|, 16); }
      else if |rows| > 11 { MulAtLeast(|rows| - 11, 16); }
    }
    forall i, k | 0 <= i < 11 && 0 <= k < 16
      ensures rows[i][k] == response[1 + i * 16 + k]
    {
      RowsIndex(response[1..], 16, i, k);
    }
  }

  /** `__process_vision` as a value: the fields after the reply's header, in rows of
      `|column_length|`; a reply without fields gives one empty row, and a zero column
      length with fields to place raises. */
  function Vision(response: seq<string>, columnLength: int): Result<seq<seq<string>>, AgentError>
  {
    if |response| <= 1 then Success([[]])
    else if columnLength == 0 then Failure(ZeroDivision)
    else Success(Rows(response[1..], Abs(columnLength)))
  }

  /** One pass of `__process_vision`'s loop after the first: the test `(j - 1) %
      column_length == 0` holds exactly when the row being built is full, and then the next
      field opens a new row, otherwise it extends that row. */
  lemma VisionStep(response: seq<string>, columnLength: int, j: nat,
                   vision: seq<seq<string>>, current: seq<string>)
    requires columnLength != 0 && 1 < j < |response|
    requires 0 < |current| <= Abs(columnLength)
    requires j - 1 == |vision| * Abs(columnLength) + |current|
    requires vision + [current] == Rows(response[1..j], Abs(columnLength))
    ensures FloorMod(j - 1, columnLength) == 0 <==> |current| == Abs(columnLength)
    ensures |current| == Abs(columnLength) ==>
      && vision + [current] + [[response[j]]] == Rows(response[1..j + 1], Abs(columnLength))
      && j == (|vision| + 1) * Abs(columnLength) + 1
    ensures |current| < Abs(columnLength) ==>
      vision + [current + [response[j]]] == Rows(response[1..j + 1], Abs(columnLength))
  {
    var width := Abs(columnLength);
    var items := response[1..j];
    assert response[1..j + 1] == items + [response[j]];
    var rows := vision + [current];
    assert rows[..|rows| - 1] == vision && rows[|rows| - 1] == current;
    RowsSnoc(items, response[j], width);
    if |current| == width {
      assert j - 1 == (|vision| + 1) * width + 0;
      ModUnique(|vision| + 1, 0, columnLength);
    } else {
      ModUnique(|vision|, |current|, columnLength);
    }
  }

  /** `__process_vision` (pagi_api.py:408-425): walk the fields after the header, starting
      a new row before every `column_length`-th one, and append the last row at the end. */
  method ProcessVision(response: seq<string>, columnLength: int)
    returns (r: Result<seq<seq<string>>, AgentError>)
    ensures r == Vision(response, columnLength)
  {
    ghost var width := Abs(columnLength);
    var vision: seq<seq<string>> := [];
    var current: seq<string> := [];
    var j := 1;
    while j < |response|
      invariant 1 <= j <= if |response| < 1 then 1 else |response|
      invariant j == 1 ==> vision == [] && current == []
      invariant j > 1 ==> columnLength != 0 && 0 < |current| <= width
      invariant j > 1 ==> j - 1 == |vision| * width + |current|
      invariant j > 1 ==> vision + [current] == Rows(response[1..j], width)
    {
      if columnLength == 0 {
        return Failure(ZeroDivision);
      }
      if j > 1 {
        VisionStep(response, columnLength, j, vision, current);
      } else {
        assert response[1..j + 1] == [response[j]];
        assert Rows([response[j]], width) == [[response[j]]];
        ModUnique(0, 0, columnLength);
      }
      if FloorMod(j - 1, columnLength) == 0 {
        if |current| > 0 {
          vision := vision + [current];
        }
        current := [];
        assert current + [response[j]] == [response[j]];
      }
      current := current + [response[j]];
      j := j + 1;
    }
    if j > 1 {
      assert response[1..j] == response[1..];
    }
    vision := vision + [current];
    assert j == 1 ==> vision == [[]];
    r := Success(vision);
  }
}
