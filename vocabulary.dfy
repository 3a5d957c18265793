/** The closed vocabularies of the protocol: command names, sensor names and force names
    (pagi_api.py:11-25). The sensor table is built by loops in the source; here the same
    entries are generated, in the same order, with integer arithmetic. */
module Vocabulary {
  import opened Wrappers

  const SENSOR_REQUEST: string := "sensorRequest"
  const ADD_FORCE: string := "addForce"
  const LOAD_TASK: string := "loadTask"
  const PRINT: string := "print"

  const VALID_COMMANDS: seq<string> :=
    [SENSOR_REQUEST, ADD_FORCE, LOAD_TASK, PRINT, "findObj", "setState",
     "getActiveStates", "setReflex", "removeReflex", "getActiveReflexes"]

  const BASIC_SENSORS: seq<string> := ["S", "BP", "LP", "RP", "A", "MDN", "MPN"]

  const VALID_FORCES: seq<string> :=
    ["RHvec", "LHvec", "BMvec", "RHH", "LHH", "RHV", "LHV", "BMH", "BMV", "J", "BR",
     "RHG", "LHG"]

  predicate IsDigit(c: char) { '0' <= c <= '9' }

  predicate AllDigits(s: string) { forall i :: 0 <= i < |s| ==> IsDigit(s[i]) }

  function Digit(d: nat): (c: char)
    requires d < 10
    ensures IsDigit(c) && c as int - '0' as int == d
  {
    ('0' as int + d) as char
  }

  /** `"%d" % n`: the decimal numeral of `n`, without leading zeros. */
  function Decimal(n: nat): (s: string)
    ensures s != [] && AllDigits(s)
  {
    if n < 10 then [Digit(n)] else Decimal(n / 10) + [Digit(n % 10)]
  }

  /** The number a string of decimal digits denotes. */
  function DigitsValue(s: string): nat
    requires AllDigits(s)
  {
    if s == [] then 0 else 10 * DigitsValue(s[..|s| - 1]) + (s[|s| - 1] as int - '0' as int)
  }

  lemma {:induction false} DigitsValueOfDecimal(n: nat)
    ensures DigitsValue(Decimal(n)) == n
  {
    if n >= 10 {
      var s := Decimal(n);
      assert s[..|s| - 1] == Decimal(n / 10);
      DigitsValueOfDecimal(n / 10);
    }
  }

  /** "L%d" and "R%d" for i in range(5), in the order the source's loop appends them. */
  const LIMB_SENSORS: seq<string> := ["L0", "R0", "L1", "R1", "L2", "R2", "L3", "R3", "L4", "R4"]

  /** The vision sensors are `"V%f" % (i / 100.)` for i in range(0, 3020, 15). */
  const VISION_STEP: nat := 15
  const VISION_LIMIT: nat := 3020
  const VISION_SENSOR_COUNT: nat := 202

  /** `"V%f" % (h / 100.)` for a whole number `h` of hundredths: `%f` prints six fractional
      digits, of which only the first two can be non-zero. */
  function HundredthsName(h: nat): string
  {
    "V" + Decimal(h / 100) + "." + [Digit(h % 100 / 10), Digit(h % 10)] + "0000"
  }

  /** The name the source's loop appends at its k-th step, i = 15 k. */
  function VisionSensorName(k: nat): string
  {
    HundredthsName(VISION_STEP * k)
  }

  /** Membership in the part of VALID_SENSORS that the `V%f` loop appends. */
  predicate IsVisionSensor(s: string)
  {
    exists k :: 0 <= k < VISION_SENSOR_COUNT && VisionSensorName(k) == s
  }

  /** Membership in VALID_SENSORS: the fixed names, the limb names, then the vision names. */
  predicate IsValidSensor(s: string)
  {
    s in BASIC_SENSORS || s in LIMB_SENSORS || IsVisionSensor(s)
  }

  /** Membership in VALID_FORCES. */
  predicate IsValidForce(f: string)
  {
    f in VALID_FORCES
  }

  /** Reads the number of hundredths back from a name of the shape `V<digits>.<dd>0000`. */
  function ParseVisionSensor(s: string): Option<nat>
  {
    if |s| < 9 || s[0] != 'V' || s[|s| - 7] != '.' || s[|s| - 4..] != "0000" then None
    else
      var whole, fraction := s[1..|s| - 7], s[|s| - 6..|s| - 4];
      if AllDigits(whole) && AllDigits(fraction)
      then Some(100 * DigitsValue(whole) + DigitsValue(fraction))
      else None
  }

  /** Printing a number of hundredths as a vision sensor name and reading it back gives
      that number. */
  lemma ParseHundredthsName(h: nat)
    ensures ParseVisionSensor(HundredthsName(h)) == Some(h)
  {
    var whole := Decimal(h / 100);
    var fraction := [Digit(h % 100 / 10), Digit(h % 10)];
    HundredthsNameFields(h);
    DigitsValueOfDecimal(h / 100);
    TwoDigitsValue(h % 100 / 10, h % 10);
  }

  /** Where the whole part, the two printed decimals and the zero padding sit in a name. */
  lemma HundredthsNameFields(h: nat)
    ensures var s := HundredthsName(h);
      && |s| >= 9 && s[0] == 'V' && s[|s| - 7] == '.' && s[|s| - 4..] == "0000"
      && s[1..|s| - 7] == Decimal(h / 100)
      && s[|s| - 6..|s| - 4] == [Digit(h % 100 / 10), Digit(h % 10)]
  {
    var s := HundredthsName(h);
    var whole := Decimal(h / 100);
    assert s == "V" + whole + "." + [Digit(h % 100 / 10), Digit(h % 10)] + "0000";
    assert s[1..|s| - 7] == whole;
  }

  lemma TwoDigitsValue(tens: nat, units: nat)
    requires tens < 10 && units < 10
    ensures AllDigits([Digit(tens), Digit(units)])
    ensures DigitsValue([Digit(tens), Digit(units)]) == 10 * tens + units
  {
    var t := [Digit(tens), Digit(units)];
    var head := [Digit(tens)];
    assert t[..1] == head && head[..0] == [];
    assert DigitsValue(head) == tens;
  }

  /** The loop's names are pairwise distinct: it appends 202 different sensors. */
  lemma VisionSensorNamesDistinct(j: nat, k: nat)
    requires j != k
    ensures VisionSensorName(j) != VisionSensorName(k)
  {
    ParseHundredthsName(VISION_STEP * j);
    ParseHundredthsName(VISION_STEP * k);
  }

  /** A name is a vision sensor exactly when it is the canonical print of a multiple of 15
      hundredths below 30.20. */
  lemma VisionSensorMembership(s: string)
    ensures IsVisionSensor(s) <==>
      ParseVisionSensor(s).Some? &&
      var h := ParseVisionSensor(s).value;
      h % VISION_STEP == 0 && h < VISION_LIMIT && HundredthsName(h) == s
  {
    if IsVisionSensor(s) {
      VisionSensorParses(s);
    }
    if ParseVisionSensor(s).Some? {
      var h := ParseVisionSensor(s).value;
      if h % VISION_STEP == 0 && h < VISION_LIMIT && HundredthsName(h) == s {
        HundredthsAreVisionSensors(h);
      }
    }
  }

  lemma VisionSensorParses(s: string)
    requires IsVisionSensor(s)
    ensures ParseVisionSensor(s).Some?
    ensures var h := ParseVisionSensor(s).value;
      h % VISION_STEP == 0 && h < VISION_LIMIT && HundredthsName(h) == s
  {
    var k :| 0 <= k < VISION_SENSOR_COUNT && VisionSensorName(k) == s;
    ParseHundredthsName(VISION_STEP * k);
  }

  lemma HundredthsAreVisionSensors(h: nat)
    requires h % VISION_STEP == 0 && h < VISION_LIMIT
    ensures IsVisionSensor(HundredthsName(h))
  {
    var k := h / VISION_STEP;
    assert VISION_STEP * k == h;
    assert VisionSensorName(k) == HundredthsName(h);
  }

  /** The generated range starts at V0.000000 and steps by 0.15 up to V30.150000. */
  lemma VisionSensorRange()
    ensures VisionSensorName(0) == "V0.000000"
    ensures VisionSensorName(1) == "V0.150000"
    ensures VisionSensorName(VISION_SENSOR_COUNT - 1) == "V30.150000"
  {
    assert Decimal(30) == "30";
  }

  /** V30.150000 is the last vision sensor: the next step, V30.300000, is not a sensor. */
  lemma VisionSensorLast()
    ensures IsVisionSensor("V30.150000")
    ensures !IsValidSensor("V30.300000")
  {
    VisionSensorRange();
    assert VisionSensorName(VISION_SENSOR_COUNT - 1) == "V30.150000";
    var s := "V30.300000";
    VisionSensorMembership(s);
    assert s[1..|s| - 7] == "30";
    assert s[|s| - 6..|s| - 4] == "30";
    assert DigitsValue("30") == 30 by { assert "30"[..1] == "3"; }
  }

  /** No sensor or force name holds a comma or a line break, so each one survives being
      sent as one comma-separated field. */
  lemma NamesAreFields(name: string)
    ensures IsValidSensor(name) ==> ',' !in name && '\n' !in name
    ensures IsValidForce(name) ==> ',' !in name && '\n' !in name
  {
    if IsVisionSensor(name) {
      VisionSensorsAreFields(name);
    }
    if name in BASIC_SENSORS || name in LIMB_SENSORS {
      FixedSensorsAreFields(name);
    }
    if IsValidForce(name) {
      ForcesAreFields(name);
    }
  }

  lemma VisionSensorsAreFields(name: string)
    requires IsVisionSensor(name)
    ensures ',' !in name && '\n' !in name
  {
    var k :| 0 <= k < VISION_SENSOR_COUNT && VisionSensorName(k) == name;
    var h := VISION_STEP * k;
    assert name == "V" + Decimal(h / 100) + "." + [Digit(h % 100 / 10), Digit(h % 10)] + "0000";
  }

  lemma FixedSensorsAreFields(name: string)
    requires name in BASIC_SENSORS || name in LIMB_SENSORS
    ensures ',' !in name && '\n' !in name
  {
  }

  lemma ForcesAreFields(name: string)
    requires IsValidForce(name)
    ensures ',' !in name && '\n' !in name && 0 < |name| <= 5
  {
  }
}
