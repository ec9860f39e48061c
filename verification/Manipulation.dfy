/**
 Manipulation of outgoing frames: triggers, effects, latches and the per-frame verdict
 (src/manipulation/service/manipulation_handler.cpp and its effect and trigger handlers).

 The random generator is an oracle: the n-th draw is `draws(n)`, and `drawn` counts the draws.
 */
module Manipulation {
  import opened Bits
  import opened CanTypes

  /** 0..7: a byte of the payload or a bit of a byte. */
  type Index8 = i: int | 0 <= i < 8

  /** One draw: a number in the unit interval, or an index, whichever is asked for. */
  datatype Draw = Draw(unit: real, index: Index8)

  type Oracle = nat -> Draw

  datatype RawTrigger = IdIs(id: nat) | DlcIs(dlc: Byte) | RawChance(probability: real)
  datatype DbcTrigger =
    | HasSignal(name: string) | Threshold(name: string, threshold: real, isGreater: bool) | DbcChance(probability: real)

  datatype RawEffect = BitFlip(byteIndex: Index8, bitIndex: Index8) | RandomBitFlip
  datatype DbcEffect =
    | ValueSet(name: string, value: real) | ClampTo(name: string, low: real, high: real)
    | Noise(name: string, amplitude: real)

  datatype RawStrategy = RawEffects(effects: seq<RawEffect>) | RawDelay(delayUs: nat) | RawDrop
  datatype DbcStrategy = DbcEffects(effects: seq<DbcEffect>) | DbcDelay(delayUs: nat) | DbcDrop
                       | DbcInsert(delayUs: nat, message: Option<DbcCanMessage>)

  datatype RawManipulation = RawManipulation(triggers: seq<RawTrigger>, strategy: RawStrategy, latch: bool)
  datatype DbcManipulation = DbcManipulation(triggers: seq<DbcTrigger>, strategy: DbcStrategy, latch: bool)

  datatype PendingInsertion = PendingInsertion(delayOffset: nat, message: DbcCanMessage)
  datatype FrameResult = FrameResult(drop: bool, delayOffset: nat, insertions: seq<PendingInsertion>)

  // ----- The verdict over a frame: what the strategies that fired ask for, in firing order

  datatype Action = Drop | Delay(us: nat) | Insertion(pending: PendingInsertion)

  function Max(a: nat, b: nat): nat {
    if a < b then b else a
  }

  function MaxDelay(log: seq<Action>): nat {
    if log == [] then 0
    else
      var last := log[|log| - 1];
      Max(MaxDelay(log[..|log| - 1]), if last.Delay? then last.us else 0)
  }

  function InsertionsOf(log: seq<Action>): seq<PendingInsertion> {
    if log == [] then []
    else
      var last := log[|log| - 1];
      InsertionsOf(log[..|log| - 1]) + if last.Insertion? then [last.pending] else []
  }

  /** Drop wins over every delay; the longest delay wins over the others. */
  function Verdict(log: seq<Action>): FrameResult {
    FrameResult(Drop in log, if Drop in log then 0 else MaxDelay(log), InsertionsOf(log))
  }

  lemma {:induction false} MaxDelayIsMax(log: seq<Action>)
    ensures forall us: nat :: Delay(us) in log ==> us <= MaxDelay(log)
    ensures MaxDelay(log) == 0 || Delay(MaxDelay(log)) in log
  {
    if log != [] {
      MaxDelayIsMax(log[..|log| - 1]);
      assert log == log[..|log| - 1] + [log[|log| - 1]];
    }
  }

  /** The verdict after one more strategy, as the code updates its three fields. */
  lemma VerdictStep(log: seq<Action>, action: Action)
    ensures var before, after := Verdict(log), Verdict(log + [action]);
            match action
            case Drop => after == FrameResult(true, 0, before.insertions)
            case Delay(us) => after == if before.drop then before
                else before.(delayOffset := Max(before.delayOffset, us))
            case Insertion(p) => after == before.(insertions := before.insertions + [p])
  {
    assert (log + [action])[..|log|] == log;
    assert Drop in log + [action] <==> Drop in log || action == Drop;
    if action != Drop && Drop !in log {
      assert MaxDelay(log + [action]) == Max(MaxDelay(log), if action.Delay? then action.us else 0);
    }
  }

  // ----- Raw manipulations

  function Xor(a: nat, b: nat): nat {
    if a == 0 && b == 0 then 0 else 2 * Xor(a / 2, b / 2) + (if a % 2 != b % 2 then 1 else 0)
  }

  lemma {:induction false} BitXor(a: nat, b: nat, i: nat)
    ensures Bit(Xor(a, b), i) == (Bit(a, i) != Bit(b, i))
  {
    if a == 0 && b == 0 {
      BitZero(i);
    } else if i > 0 {
      BitXor(a / 2, b / 2, i - 1);
    }
  }

  lemma {:induction false} XorBound(a: nat, b: nat, n: nat)
    requires a < Pow2(n) && b < Pow2(n)
    ensures Xor(a, b) < Pow2(n)
  {
    if n > 0 && (a != 0 || b != 0) {
      XorBound(a / 2, b / 2, n - 1);
    }
  }

  lemma {:induction false} XorAssociative(a: nat, b: nat, c: nat)
    ensures Xor(Xor(a, b), c) == Xor(a, Xor(b, c))
  {
    if a != 0 || b != 0 || c != 0 {
      XorAssociative(a / 2, b / 2, c / 2);
      XorHalf(a, b);
      XorHalf(b, c);
      XorHalf(Xor(a, b), c);
      XorHalf(a, Xor(b, c));
    }
  }

  lemma XorHalf(a: nat, b: nat)
    ensures Xor(a, b) / 2 == Xor(a / 2, b / 2) && Xor(a, b) % 2 == if a % 2 != b % 2 then 1 else 0
  {
  }

  lemma {:induction false} XorCommutes(a: nat, b: nat)
    ensures Xor(a, b) == Xor(b, a)
  {
    if a != 0 || b != 0 { XorCommutes(a / 2, b / 2); }
  }

  lemma {:induction false} XorInverse(a: nat)
    ensures Xor(a, a) == 0 && Xor(a, 0) == a
  {
    if a != 0 { XorInverse(a / 2); }
  }

  function XorByte(a: Byte, b: Byte): (r: Byte)
    ensures r == Xor(a, b)
  {
    Pow2Values();
    XorBound(a, b, 8);
    Xor(a, b)
  }

  function XorPayload(a: Payload, b: Payload): (r: Payload)
    ensures forall i | 0 <= i < 8 :: r[i] == XorByte(a[i], b[i])
  {
    seq(8, i requires 0 <= i < 8 => XorByte(a[i], b[i]))
  }

  const ZERO: Payload := [0, 0, 0, 0, 0, 0, 0, 0]

  lemma XorPayloadLaws(a: Payload, b: Payload, c: Payload)
    ensures XorPayload(XorPayload(a, b), c) == XorPayload(a, XorPayload(b, c))
    ensures XorPayload(a, b) == XorPayload(b, a)
    ensures XorPayload(a, a) == ZERO && XorPayload(a, ZERO) == a
  {
    hide XorPayload, Xor;
    forall i | 0 <= i < 8
      ensures XorPayload(XorPayload(a, b), c)[i] == XorPayload(a, XorPayload(b, c))[i]
      ensures XorPayload(a, b)[i] == XorPayload(b, a)[i]
      ensures XorPayload(a, a)[i] == 0 && XorPayload(a, ZERO)[i] == a[i]
    {
      XorAssociative(a[i], b[i], c[i]);
      XorCommutes(a[i], b[i]);
      XorInverse(a[i]);
      assert ZERO[i] == 0;
    }
    assert ZERO == XorPayload(a, a);
  }

  function BitOfByte(i: Index8): (b: Byte)
    ensures b == Pow2(i)
  {
    Pow2Values();
    Pow2Monotone(i, 7);
    Pow2(i)
  }

  /** The payload with a single bit. */
  function OneBit(byteIndex: Index8, bitIndex: Index8): Payload {
    ZERO[byteIndex := BitOfByte(bitIndex)]
  }

  /** data[byteIndex] ^= 1 << bitIndex */
  function Flipped(data: Payload, byteIndex: Index8, bitIndex: Index8): Payload {
    data[byteIndex := XorByte(data[byteIndex], BitOfByte(bitIndex))]
  }

  lemma FlipIsXor(data: Payload, byteIndex: Index8, bitIndex: Index8)
    ensures Flipped(data, byteIndex, bitIndex) == XorPayload(data, OneBit(byteIndex, bitIndex))
  {
    hide XorPayload, Xor;
    var flipped, xored := Flipped(data, byteIndex, bitIndex), XorPayload(data, OneBit(byteIndex, bitIndex));
    forall i | 0 <= i < 8
      ensures flipped[i] == xored[i]
    {
      XorInverse(data[i]);
      assert OneBit(byteIndex, bitIndex)[i] == if i == byteIndex then BitOfByte(bitIndex) else 0;
    }
  }

  function RawFires(t: RawTrigger, id: nat, dlc: Byte, draws: Oracle, drawn: nat): (bool, nat) {
    match t
    case IdIs(i) => (id == i, drawn)
    case DlcIs(d) => (dlc == d, drawn)
    case RawChance(p) => (draws(drawn).unit <= p, drawn + 1)
  }

  /** All triggers hold; the first that does not ends the evaluation. */
  function RawChain(ts: seq<RawTrigger>, id: nat, dlc: Byte, draws: Oracle, drawn: nat): (bool, nat) {
    if ts == [] then (true, drawn)
    else
      var (fires, next) := RawFires(ts[0], id, dlc, draws, drawn);
      if fires then RawChain(ts[1..], id, dlc, draws, next) else (false, next)
  }

  /** A random flip draws the bit before the byte: the right operand of an assignment comes first. */
  function RawEffectOn(e: RawEffect, data: Payload, draws: Oracle, drawn: nat): (Payload, nat) {
    match e
    case BitFlip(b, i) => (Flipped(data, b, i), drawn)
    case RandomBitFlip => (Flipped(data, draws(drawn + 1).index, draws(drawn).index), drawn + 2)
  }

  function RawEffectsOn(es: seq<RawEffect>, data: Payload, draws: Oracle, drawn: nat): (Payload, nat) {
    if es == [] then (data, drawn)
    else
      var (d, n) := RawEffectOn(es[0], data, draws, drawn);
      RawEffectsOn(es[1..], d, draws, n)
  }

  datatype RawSt = RawSt(data: Payload, drawn: nat, log: seq<Action>)

  function RawApply(strategy: RawStrategy, draws: Oracle, s: RawSt): RawSt {
    match strategy
    case RawEffects(es) => var (d, n) := RawEffectsOn(es, s.data, draws, s.drawn); RawSt(d, n, s.log)
    case RawDelay(us) => s.(log := s.log + [Delay(us)])
    case RawDrop => s.(log := s.log + [Drop])
  }

  /** One manipulation's turn: the new state, and whether its chain was evaluated and held. */
  function RawTurn(m: RawManipulation, latched: bool, id: nat, dlc: Byte, draws: Oracle, s: RawSt): (RawSt, bool) {
    if latched then (RawApply(m.strategy, draws, s), false)
    else
      var (held, drawn) := RawChain(m.triggers, id, dlc, draws, s.drawn);
      var t := s.(drawn := drawn);
      (if held then RawApply(m.strategy, draws, t) else t, held)
  }

  /** The first n manipulations. */
  function RawRun(ms: seq<RawManipulation>, latched: seq<bool>, n: nat, id: nat, dlc: Byte, draws: Oracle,
                  s: RawSt): (r: (RawSt, seq<bool>))
    requires n <= |ms| == |latched|
    ensures |r.1| == n
  {
    if n == 0 then (s, [])
    else
      var (t, held) := RawRun(ms, latched, n - 1, id, dlc, draws, s);
      var (u, h) := RawTurn(ms[n - 1], latched[n - 1], id, dlc, draws, t);
      (u, held + [h])
  }

  // ----- DBC manipulations

  /** The signal that a name stands for: the first of that name. */
  function Find(values: seq<SignalValue>, name: string): (r: Option<nat>)
    ensures r.Some? ==> r.value < |values| && values[r.value].name == name && forall i | 0 <= i < r.value ::
            values[i].name != name
    ensures r.None? ==> forall i | 0 <= i < |values| :: values[i].name != name
  {
    if values == [] then None
    else if values[0].name == name then Some(0)
    else
      var r := Find(values[1..], name);
      if r.None? then None else Some(r.value + 1)
  }

  function DbcFires(t: DbcTrigger, values: seq<SignalValue>, draws: Oracle, drawn: nat): (bool, nat) {
    match t
    case HasSignal(name) => (Find(values, name).Some?, drawn)
    case Threshold(name, threshold, isGreater) =>
      var at := Find(values, name);
      (at.Some? && (if isGreater then values[at.value].value >= threshold else values[at.value].value <= threshold),
       drawn)
    case DbcChance(p) => (draws(drawn).unit <= p, drawn + 1)
  }

  function DbcChain(ts: seq<DbcTrigger>, values: seq<SignalValue>, draws: Oracle, drawn: nat): (bool, nat) {
    if ts == [] then (true, drawn)
    else
      var (fires, next) := DbcFires(ts[0], values, draws, drawn);
      if fires then DbcChain(ts[1..], values, draws, next) else (false, next)
  }

  /** std::clamp */
  function Clamped(v: real, low: real, high: real): real {
    if v < low then low else if high < v then high else v
  }

  function WithValue(values: seq<SignalValue>, at: nat, v: real): seq<SignalValue>
    requires at < |values|
  {
    values[at := SignalValue(values[at].name, v)]
  }

  /** An effect on an absent signal does nothing; the noise is then not drawn either. */
  function DbcEffectOn(e: DbcEffect, values: seq<SignalValue>, draws: Oracle, drawn: nat): (seq<SignalValue>, nat) {
    var at := Find(values, e.name);
    if at.None? then (values, drawn)
    else
      var v := values[at.value].value;
      match e
      case ValueSet(_, value) => (WithValue(values, at.value, value), drawn)
      case ClampTo(_, low, high) => (WithValue(values, at.value, Clamped(v, low, high)), drawn)
      case Noise(_, a) => (WithValue(values, at.value, v + NoiseOf(a, draws(drawn))), drawn + 1)
  }

  /** A draw from [-amplitude, amplitude). */
  function NoiseOf(amplitude: real, draw: Draw): real {
    -amplitude + 2.0 * amplitude * draw.unit
  }

  function DbcEffectsOn(es: seq<DbcEffect>, values: seq<SignalValue>, draws: Oracle, drawn: nat)
    : (seq<SignalValue>, nat)
  {
    if es == [] then (values, drawn)
    else
      var (v, n) := DbcEffectOn(es[0], values, draws, drawn);
      DbcEffectsOn(es[1..], v, draws, n)
  }

  datatype DbcSt = DbcSt(message: DbcCanMessage, drawn: nat, log: seq<Action>)

  /** An insertion without a message of its own copies the message as it stands at that moment. */
  function DbcApply(strategy: DbcStrategy, draws: Oracle, s: DbcSt): DbcSt {
    match strategy
    case DbcEffects(es) =>
      var (v, n) := DbcEffectsOn(es, s.message.signalValues, draws, s.drawn);
      DbcSt(s.message.(signalValues := v), n, s.log)
    case DbcDelay(us) => s.(log := s.log + [Delay(us)])
    case DbcDrop => s.(log := s.log + [Drop])
    case DbcInsert(us, m) => s.(log := s.log
                                + [Insertion(PendingInsertion(us, if m.Some? then m.value else s.message))])
  }

  function DbcTurn(m: DbcManipulation, latched: bool, draws: Oracle, s: DbcSt): (DbcSt, bool) {
    if latched then (DbcApply(m.strategy, draws, s), false)
    else
      var (held, drawn) := DbcChain(m.triggers, s.message.signalValues, draws, s.drawn);
      var t := s.(drawn := drawn);
      (if held then DbcApply(m.strategy, draws, t) else t, held)
  }

  function DbcRun(ms: seq<DbcManipulation>, latched: seq<bool>, n: nat, draws: Oracle,
                  s: DbcSt): (r: (DbcSt, seq<bool>))
    requires n <= |ms| == |latched|
    ensures |r.1| == n
  {
    if n == 0 then (s, [])
    else
      var (t, held) := DbcRun(ms, latched, n - 1, draws, s);
      var (u, h) := DbcTurn(ms[n - 1], latched[n - 1], draws, t);
      (u, held + [h])
  }

  // ----- The handler

  /** Which manipulations are latched after a frame. */
  function Latches(latched: seq<bool>, latch: seq<bool>, held: seq<bool>): (r: seq<bool>)
    requires |latched| == |latch| && |held| <= |latched|
    ensures |r| == |latched|
    ensures forall i | 0 <= i < |r| :: r[i] == (latched[i] || (i < |held| && latch[i] && held[i]))
  {
    seq(|latched|, i requires 0 <= i < |latched| => latched[i] || (i < |held| && latch[i] && held[i]))
  }

  function RawLatch(ms: seq<RawManipulation>): (r: seq<bool>)
    ensures |r| == |ms| && forall i | 0 <= i < |ms| :: r[i] == ms[i].latch
  {
    seq(|ms|, i requires 0 <= i < |ms| => ms[i].latch)
  }

  function DbcLatch(ms: seq<DbcManipulation>): (r: seq<bool>)
    ensures |r| == |ms| && forall i | 0 <= i < |ms| :: r[i] == ms[i].latch
  {
    seq(|ms|, i requires 0 <= i < |ms| => ms[i].latch)
  }

  lemma LatchesStep(latched: seq<bool>, latch: seq<bool>, held: seq<bool>, h: bool)
    requires |latched| == |latch| && |held| < |latched|
    ensures var n := |held|;
            Latches(latched, latch, held + [h]) ==
            if h && latch[n] then Latches(latched, latch, held)[n := true] else Latches(latched, latch, held)
  {
  }

  /** The names of a signal map are those of the values, each standing for its first signal. */
  ghost predicate IsSignalMap(signalMap: map<string, nat>, values: seq<SignalValue>) {
    forall name :: Find(values, name) == if name in signalMap then Some(signalMap[name]) else None
  }

  lemma {:induction false} WithValueKeepsNames(values: seq<SignalValue>, at: nat, v: real, name: string)
    requires at < |values|
    ensures Find(WithValue(values, at, v), name) == Find(values, name)
  {
    var changed := WithValue(values, at, v);
    if at == 0 {
      assert changed[1..] == values[1..];
    } else {
      WithValueKeepsNames(values[1..], at - 1, v, name);
      assert changed[1..] == WithValue(values[1..], at - 1, v);
    }
  }

  lemma {:induction false} FindPrefix(values: seq<SignalValue>, n: nat, name: string)
    requires n < |values|
    ensures Find(values[..n + 1], name) ==
            if Find(values[..n], name).None? && values[n].name == name then Some(n) else Find(values[..n], name)
  {
    if n == 0 {
      assert values[..1][1..] == [];
    } else if values[0].name != name {
      FindPrefix(values[1..], n - 1, name);
      assert values[..n + 1][1..] == values[1..][..n] && values[..n][1..] == values[1..][..n - 1];
    }
  }

  class ManipulationHandler {
    const rawManipulations: seq<RawManipulation>
    const dbcManipulations: seq<DbcManipulation>
    const draws: Oracle
    var rawLatched: seq<bool>
    var dbcLatched: seq<bool>
    var drawn: nat
    var frameDrop: bool
    var frameMaxDelayUs: nat
    var frameInsertions: seq<PendingInsertion>
    /** The strategies that fired since the last evaluate(). */
    ghost var log: seq<Action>

    ghost predicate Valid()
      reads this
    {
      && |rawLatched| == |rawManipulations| && |dbcLatched| == |dbcManipulations|
      && Verdict(log) == FrameResult(frameDrop, frameMaxDelayUs, frameInsertions)
    }

    constructor (rawManipulations: seq<RawManipulation>, dbcManipulations: seq<DbcManipulation>, draws: Oracle)
      ensures Valid() && log == [] && drawn == 0
      ensures this.rawManipulations == rawManipulations && this.dbcManipulations == dbcManipulations
              && this.draws == draws
      ensures rawLatched == seq(|rawManipulations|, _ => false) && dbcLatched == seq(|dbcManipulations|, _ => false)
    {
      this.rawManipulations, this.dbcManipulations, this.draws := rawManipulations, dbcManipulations, draws;
      rawLatched, dbcLatched := seq(|rawManipulations|, _ => false), seq(|dbcManipulations|, _ => false);
      drawn, frameDrop, frameMaxDelayUs, frameInsertions, log := 0, false, 0, [], [];
    }

    method NextDraw() returns (draw: Draw)
      modifies `drawn
      ensures draw == draws(old(drawn)) && drawn == old(drawn) + 1
    {
      draw := draws(drawn);
      drawn := drawn + 1;
    }

    // ----- Frame-level strategies

    method RequestDelay(delayUs: nat)
      requires Valid()
      modifies `frameMaxDelayUs, `log
      ensures Valid() && log == old(log) + [Delay(delayUs)]
    {
      VerdictStep(log, Delay(delayUs));
      log := log + [Delay(delayUs)];
      if frameDrop { return; }
      frameMaxDelayUs := Max(frameMaxDelayUs, delayUs);
    }

    method RequestDrop()
      requires Valid()
      modifies `frameDrop, `frameMaxDelayUs, `log
      ensures Valid() && log == old(log) + [Drop]
    {
      VerdictStep(log, Drop);
      log := log + [Drop];
      frameDrop, frameMaxDelayUs := true, 0;
    }

    method RequestInsertion(pending: PendingInsertion)
      requires Valid()
      modifies `frameInsertions, `log
      ensures Valid() && log == old(log) + [Insertion(pending)]
    {
      VerdictStep(log, Insertion(pending));
      log := log + [Insertion(pending)];
      frameInsertions := frameInsertions + [pending];
    }

    // ----- Raw frames

    method FiresRawTrigger(t: RawTrigger, id: nat, dlc: Byte) returns (fires: bool)
      modifies `drawn
      ensures (fires, drawn) == RawFires(t, id, dlc, draws, old(drawn))
    {
      match t
      case IdIs(i) => fires := id == i;
      case DlcIs(d) => fires := dlc == d;
      case RawChance(p) =>
        var draw := NextDraw();
        fires := draw.unit <= p;
    }

    method RawTriggered(ts: seq<RawTrigger>, id: nat, dlc: Byte) returns (triggered: bool)
      modifies `drawn
      ensures (triggered, drawn) == RawChain(ts, id, dlc, draws, old(drawn))
    {
      var i := 0;
      while i < |ts|
        invariant 0 <= i <= |ts|
        invariant RawChain(ts, id, dlc, draws, old(drawn)) == RawChain(ts[i..], id, dlc, draws, drawn)
      {
        assert ts[i..][1..] == ts[i + 1..];
        var fires := FiresRawTrigger(ts[i], id, dlc);
        if !fires { return false; }
        i := i + 1;
      }
      triggered := true;
    }

    method ApplyRawEffect(e: RawEffect, data: array<Byte>)
      requires data.Length == 8
      modifies data, `drawn
      ensures (data[..], drawn) == RawEffectOn(e, old(data[..]), draws, old(drawn))
    {
      match e
      case BitFlip(b, i) => data[b] := XorByte(data[b], BitOfByte(i));
      case RandomBitFlip =>
        var bit := NextDraw();
        var at := NextDraw();
        data[at.index] := XorByte(data[at.index], BitOfByte(bit.index));
    }

    method ApplyRawEffects(es: seq<RawEffect>, data: array<Byte>)
      requires data.Length == 8
      modifies data, `drawn
      ensures (data[..], drawn) == RawEffectsOn(es, old(data[..]), draws, old(drawn))
    {
      hide RawEffectOn;
      var i := 0;
      while i < |es|
        invariant 0 <= i <= |es|
        invariant RawEffectsOn(es, old(data[..]), draws, old(drawn)) == RawEffectsOn(es[i..], data[..], draws, drawn)
      {
        assert es[i..][1..] == es[i + 1..];
        ApplyRawEffect(es[i], data);
        i := i + 1;
      }
    }

    ghost function RawState(data: array<Byte>): RawSt
      requires data.Length == 8
      reads this, data
    {
      RawSt(data[..], drawn, log)
    }

    method ApplyRawStrategy(strategy: RawStrategy, data: array<Byte>)
      requires Valid() && data.Length == 8
      modifies data, `drawn, `frameDrop, `frameMaxDelayUs, `log
      ensures Valid() && RawState(data) == RawApply(strategy, draws, old(RawState(data)))
    {
      match strategy
      case RawEffects(es) => ApplyRawEffects(es, data);
      case RawDelay(us) => RequestDelay(us);
      case RawDrop => RequestDrop();
    }

    method RawManipulationTurn(i: nat, id: nat, dlc: Byte, data: array<Byte>)
      requires Valid() && data.Length == 8 && i < |rawManipulations|
      modifies data, `drawn, `frameDrop, `frameMaxDelayUs, `log, `rawLatched
      ensures Valid()
      ensures var m := rawManipulations[i];
              var turn := RawTurn(m, old(rawLatched)[i], id, dlc, draws, old(RawState(data)));
              RawState(data) == turn.0 && rawLatched == if turn.1 && m.latch then old(rawLatched)[i := true]
                  else old(rawLatched)
    {
      hide RawApply, RawChain, Verdict;
      var m := rawManipulations[i];
      if !rawLatched[i] {
        var triggered := RawTriggered(m.triggers, id, dlc);
        if !triggered { return; }
        if m.latch { rawLatched := rawLatched[i := true]; }
      }
      ApplyRawStrategy(m.strategy, data);
    }

    /** inject(id, dlc, data) */
    method InjectRaw(id: nat, dlc: Byte, data: array<Byte>)
      requires Valid() && data.Length == 8
      modifies data, `drawn, `frameDrop, `frameMaxDelayUs, `log, `rawLatched
      ensures Valid()
      ensures var run := RawRun(rawManipulations, old(rawLatched), |rawManipulations|, id, dlc, draws,
                                old(RawState(data)));
              RawState(data) == run.0 && rawLatched == Latches(old(rawLatched), RawLatch(rawManipulations), run.1)
    {
      hide RawTurn, Latches, Verdict;
      ghost var latched, start := rawLatched, RawState(data);
      var i := 0;
      assert Latches(latched, RawLatch(rawManipulations), []) == latched;
      while i < |rawManipulations|
        invariant 0 <= i <= |rawManipulations| && Valid()
        invariant var run := RawRun(rawManipulations, latched, i, id, dlc, draws, start);
                  RawState(data) == run.0 && rawLatched == Latches(latched, RawLatch(rawManipulations), run.1)
      {
        ghost var held := RawRun(rawManipulations, latched, i, id, dlc, draws, start).1;
        LatchesStep(latched, RawLatch(rawManipulations), held,
                    RawTurn(rawManipulations[i], latched[i], id, dlc, draws, RawState(data)).1);
        RawManipulationTurn(i, id, dlc, data);
        i := i + 1;
      }
    }

    // ----- DBC messages

    /** The map from names to signals: a name that is already there is kept. */
    method SignalMap(values: seq<SignalValue>) returns (signalMap: map<string, nat>)
      ensures IsSignalMap(signalMap, values)
    {
      hide Find;
      signalMap := map[];
      var i := 0;
      assert IsSignalMap(signalMap, values[..0]);
      while i < |values|
        invariant 0 <= i <= |values|
        invariant IsSignalMap(signalMap, values[..i])
      {
        forall name {
          FindPrefix(values, i, name);
        }
        if values[i].name !in signalMap { signalMap := signalMap[values[i].name := i]; }
        i := i + 1;
      }
      assert values[..i] == values;
    }

    method FiresDbcTrigger(t: DbcTrigger, signalMap: map<string, nat>, values: seq<SignalValue>) returns (fires: bool)
      requires IsSignalMap(signalMap, values)
      modifies `drawn
      ensures (fires, drawn) == DbcFires(t, values, draws, old(drawn))
    {
      match t
      case HasSignal(name) =>
        assert Find(values, name) == if name in signalMap then Some(signalMap[name]) else None;
        fires := name in signalMap;
      case Threshold(name, threshold, isGreater) =>
        assert Find(values, name) == if name in signalMap then Some(signalMap[name]) else None;
        if name !in signalMap { return false; }
        var v := values[signalMap[name]].value;
        fires := if isGreater then v >= threshold else v <= threshold;
      case DbcChance(p) =>
        var draw := NextDraw();
        fires := draw.unit <= p;
    }

    method DbcTriggered(ts: seq<DbcTrigger>, signalMap: map<string, nat>, values: seq<SignalValue>)
      returns (triggered: bool)
      requires IsSignalMap(signalMap, values)
      modifies `drawn
      ensures (triggered, drawn) == DbcChain(ts, values, draws, old(drawn))
    {
      hide DbcFires, IsSignalMap;
      var i := 0;
      while i < |ts|
        invariant 0 <= i <= |ts|
        invariant DbcChain(ts, values, draws, old(drawn)) == DbcChain(ts[i..], values, draws, drawn)
      {
        assert ts[i..][1..] == ts[i + 1..];
        var fires := FiresDbcTrigger(ts[i], signalMap, values);
        if !fires { return false; }
        i := i + 1;
      }
      triggered := true;
    }

    method ApplyDbcEffect(e: DbcEffect, signalMap: map<string, nat>, values: seq<SignalValue>)
      returns (changed: seq<SignalValue>)
      requires IsSignalMap(signalMap, values)
      modifies `drawn
      ensures (changed, drawn) == DbcEffectOn(e, values, draws, old(drawn))
      ensures IsSignalMap(signalMap, changed)
    {
      assert Find(values, e.name) == if e.name in signalMap then Some(signalMap[e.name]) else None;
      if e.name !in signalMap { return values; }
      var at := signalMap[e.name];
      var v := values[at].value;
      match e {
        case ValueSet(_, value) => v := value;
        case ClampTo(_, low, high) => v := Clamped(v, low, high);
        case Noise(_, a) =>
          var draw := NextDraw();
          v := v + NoiseOf(a, draw);
      }
      changed := WithValue(values, at, v);
      forall name {
        WithValueKeepsNames(values, at, v, name);
      }
    }

    method ApplyDbcEffects(es: seq<DbcEffect>, signalMap: map<string, nat>, values: seq<SignalValue>)
      returns (changed: seq<SignalValue>)
      requires IsSignalMap(signalMap, values)
      modifies `drawn
      ensures (changed, drawn) == DbcEffectsOn(es, values, draws, old(drawn))
      ensures IsSignalMap(signalMap, changed)
    {
      hide DbcEffectOn, IsSignalMap;
      changed := values;
      var i := 0;
      while i < |es|
        invariant 0 <= i <= |es| && IsSignalMap(signalMap, changed)
        invariant DbcEffectsOn(es, values, draws, old(drawn)) == DbcEffectsOn(es[i..], changed, draws, drawn)
      {
        assert es[i..][1..] == es[i + 1..];
        changed := ApplyDbcEffect(es[i], signalMap, changed);
        i := i + 1;
      }
    }

    ghost function DbcState(message: DbcCanMessage): DbcSt
      reads this
    {
      DbcSt(message, drawn, log)
    }

    method ApplyDbcStrategy(strategy: DbcStrategy, signalMap: map<string, nat>, message: DbcCanMessage)
      returns (changed: DbcCanMessage)
      requires Valid() && IsSignalMap(signalMap, message.signalValues)
      modifies `drawn, `frameDrop, `frameMaxDelayUs, `frameInsertions, `log
      ensures Valid() && DbcState(changed) == DbcApply(strategy, draws, old(DbcState(message)))
      ensures IsSignalMap(signalMap, changed.signalValues)
    {
      hide IsSignalMap;
      changed := message;
      match strategy
      case DbcEffects(es) =>
        var values := ApplyDbcEffects(es, signalMap, message.signalValues);
        changed := message.(signalValues := values);
      case DbcDelay(us) => RequestDelay(us);
      case DbcDrop => RequestDrop();
      case DbcInsert(us, m) => RequestInsertion(PendingInsertion(us, if m.Some? then m.value else message));
    }

    method DbcManipulationTurn(i: nat, signalMap: map<string, nat>, message: DbcCanMessage)
      returns (changed: DbcCanMessage)
      requires Valid() && i < |dbcManipulations| && IsSignalMap(signalMap, message.signalValues)
      modifies `drawn, `frameDrop, `frameMaxDelayUs, `frameInsertions, `log, `dbcLatched
      ensures Valid() && IsSignalMap(signalMap, changed.signalValues)
      ensures var m := dbcManipulations[i];
              var turn := DbcTurn(m, old(dbcLatched)[i], draws, old(DbcState(message)));
              DbcState(changed) == turn.0 && dbcLatched == if turn.1 && m.latch then old(dbcLatched)[i := true]
                  else old(dbcLatched)
    {
      hide DbcApply, DbcChain, IsSignalMap, Verdict;
      changed := message;
      var m := dbcManipulations[i];
      if !dbcLatched[i] {
        var triggered := DbcTriggered(m.triggers, signalMap, message.signalValues);
        if !triggered { return; }
        if m.latch { dbcLatched := dbcLatched[i := true]; }
      }
      changed := ApplyDbcStrategy(m.strategy, signalMap, message);
    }

    /** inject(message) */
    method InjectDbc(message: DbcCanMessage) returns (changed: DbcCanMessage)
      requires Valid()
      modifies `drawn, `frameDrop, `frameMaxDelayUs, `frameInsertions, `log, `dbcLatched
      ensures Valid()
      ensures var run := DbcRun(dbcManipulations, old(dbcLatched), |dbcManipulations|, draws, old(DbcState(message)));
              DbcState(changed) == run.0 && dbcLatched == Latches(old(dbcLatched), DbcLatch(dbcManipulations), run.1)
    {
      hide DbcTurn, Latches, IsSignalMap, Verdict;
      ghost var latched, start := dbcLatched, DbcState(message);
      var signalMap := SignalMap(message.signalValues);
      changed := message;
      var i := 0;
      assert Latches(latched, DbcLatch(dbcManipulations), []) == latched;
      while i < |dbcManipulations|
        invariant 0 <= i <= |dbcManipulations| && Valid() && IsSignalMap(signalMap, changed.signalValues)
        invariant var run := DbcRun(dbcManipulations, latched, i, draws, start);
                  DbcState(changed) == run.0 && dbcLatched == Latches(latched, DbcLatch(dbcManipulations), run.1)
      {
        ghost var held := DbcRun(dbcManipulations, latched, i, draws, start).1;
        LatchesStep(latched, DbcLatch(dbcManipulations), held,
                    DbcTurn(dbcManipulations[i], latched[i], draws, DbcState(changed)).1);
        changed := DbcManipulationTurn(i, signalMap, changed);
        i := i + 1;
      }
    }

    /** The verdict on the frame; the per-frame fields start over. */
    method Evaluate() returns (result: FrameResult)
      requires Valid()
      modifies `frameDrop, `frameMaxDelayUs, `frameInsertions, `log
      ensures Valid() && log == [] && result == Verdict(old(log))
    {
      result := FrameResult(frameDrop, frameMaxDelayUs, frameInsertions);
      frameDrop, frameMaxDelayUs, frameInsertions, log := false, 0, [], [];
    }
  }
}
