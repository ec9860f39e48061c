/** The data transfer objects that the CAN components exchange. */
module CanTypes {
  import opened Bits

  datatype Option<+T> = None | Some(value: T)

  /** `multiplexedBy` is -1 for a signal that is always present. */
  datatype Signal = Signal(
    name: string, multiplexer: bool, multiplexedBy: int, startBit: nat, size: nat,
    bigEndian: bool, signed: bool, factor: real, offset: real, minimum: real, maximum: real,
    unit: string, receivers: seq<string>)

  datatype Message = Message(id: nat, name: string, size: nat, transmitter: string, signals: seq<Signal>)

  datatype SignalValue = SignalValue(name: string, value: real)

  /** What a message says about a signal: the first value of that name, if any. */
  function FirstValueOf(values: seq<SignalValue>, name: string): Option<real> {
    if values == [] then None
    else if values[0].name == name then Some(values[0].value)
    else FirstValueOf(values[1..], name)
  }

  /** The entry of that name that no entry of the same name precedes has the value. */
  ghost predicate IsFirstValue(values: seq<SignalValue>, name: string, value: real) {
    exists i | 0 <= i < |values| ::
      values[i] == SignalValue(name, value) && forall j | 0 <= j < i :: values[j].name != name
  }

  predicate Unnamed(values: seq<SignalValue>, name: string) {
    forall i | 0 <= i < |values| :: values[i].name != name
  }

  lemma {:induction false} FirstValueByIndex(values: seq<SignalValue>, name: string)
    ensures forall v :: FirstValueOf(values, name) == Some(v) <==> IsFirstValue(values, name, v)
    ensures FirstValueOf(values, name) == None <==> Unnamed(values, name)
    decreases |values|
  {
    if values != [] {
      FirstValueByIndex(values[1..], name);
      forall v
        ensures FirstValueOf(values, name) == Some(v) <==> IsFirstValue(values, name, v)
      {
        FirstValueStep(values, name, v);
      }
    }
  }

  lemma FirstValueStep(values: seq<SignalValue>, name: string, v: real)
    requires values != []
    ensures IsFirstValue(values, name, v) <==>
              if values[0].name == name then values[0].value == v else IsFirstValue(values[1..], name, v)
  {
    var more := values[1..];
    if IsFirstValue(values, name, v) {
      var i :| 0 <= i < |values| && values[i] == SignalValue(name, v) && forall j | 0 <= j < i ::
          values[j].name != name;
      if values[0].name != name { assert more[i - 1] == values[i]; }
    }
    if values[0].name != name && IsFirstValue(more, name, v) {
      var i :| 0 <= i < |more| && more[i] == SignalValue(name, v) && forall j | 0 <= j < i :: more[j].name != name;
      assert values[i + 1] == more[i];
    }
  }

  method FirstValue(values: seq<SignalValue>, name: string) returns (r: Option<real>)
    ensures r == FirstValueOf(values, name)
    ensures forall v :: r == Some(v) <==> IsFirstValue(values, name, v)
    ensures r == None <==> Unnamed(values, name)
  {
    FirstValueByIndex(values, name);
    for i := 0 to |values|
      invariant FirstValueOf(values, name) == FirstValueOf(values[i..], name)
    {
      if values[i].name == name { return Some(values[i].value); }
      assert values[i..][1..] == values[i + 1..];
    }
    r := None;
  }

  datatype DbcCanMessage = DbcCanMessage(receiveTime: int, signalValues: seq<SignalValue>, messageId: nat)

  /** The eight payload bytes of a classical CAN frame. */
  type Payload = d: seq<Byte> | |d| == 8 witness [0, 0, 0, 0, 0, 0, 0, 0]

  datatype RawCanMessage = RawCanMessage(receiveTime: int, data: Payload, messageId: nat, dlc: Byte)

  /** The number of standard (11-bit) CAN identifiers. */
  const ID_COUNT: nat := 2048
}
