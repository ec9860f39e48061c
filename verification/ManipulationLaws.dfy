/**
 When a manipulation applies and what it does, said of the signals, the bits and the draws alone
 (src/manipulation/service/manipulation_trigger_handler.hpp, manipulation_effect_handler.hpp).
 */
module ManipulationLaws {
  import opened Bits
  import opened CanTypes
  import opened Manipulation
  import opened Sending
  import opened ManipulationTheorems

  predicate IsFirstNamed(values: seq<SignalValue>, name: string, at: nat) {
    at < |values| && values[at].name == name && forall j | 0 <= j < at :: values[j].name != name
  }

  predicate IsNamed(values: seq<SignalValue>, name: string) {
    exists i | 0 <= i < |values| :: values[i].name == name
  }

  lemma FindsFirst(values: seq<SignalValue>, name: string)
    ensures Find(values, name).Some? <==> IsNamed(values, name)
    ensures forall at: nat :: IsFirstNamed(values, name, at) <==> Find(values, name) == Some(at)
  {
  }

  // ----- DBC triggers

  /** The signal is there; the first of the name is at least, or at most, the threshold; the draw is small enough. */
  ghost predicate DbcHolds(t: DbcTrigger, values: seq<SignalValue>, draw: Draw) {
    match t
    case HasSignal(name) => IsNamed(values, name)
    case Threshold(name, threshold, isGreater) =>
      exists at: nat :: IsFirstNamed(values, name, at)
                        && if isGreater then threshold <= values[at].value else values[at].value <= threshold
    case DbcChance(p) => draw.unit <= p
  }

  /** The draws that the first n triggers take: one for each chance. */
  function DbcDraws(ts: seq<DbcTrigger>, n: nat): nat
    requires n <= |ts|
  {
    if n == 0 then 0 else DbcDraws(ts, n - 1) + if ts[n - 1].DbcChance? then 1 else 0
  }

  ghost predicate DbcHoldsAt(ts: seq<DbcTrigger>, values: seq<SignalValue>, draws: Oracle, drawn: nat, k: nat)
    requires k < |ts|
  {
    DbcHolds(ts[k], values, draws(drawn + DbcDraws(ts, k)))
  }

  /** All triggers hold, or the first that does not is the last one to draw. */
  ghost predicate DbcDecides(ts: seq<DbcTrigger>, values: seq<SignalValue>, draws: Oracle, drawn: nat, held: bool,
                             next: nat)
  {
    if held then
      next == drawn + DbcDraws(ts, |ts|) && forall k | 0 <= k < |ts| :: DbcHoldsAt(ts, values, draws, drawn, k)
    else
      exists k: nat :: k < |ts| && !DbcHoldsAt(ts, values, draws, drawn, k) && next == drawn + DbcDraws(ts, k + 1)
                       && forall j | 0 <= j < k :: DbcHoldsAt(ts, values, draws, drawn, j)
  }

  lemma DbcFiresIfHolds(t: DbcTrigger, values: seq<SignalValue>, draws: Oracle, drawn: nat)
    ensures DbcFires(t, values, draws, drawn)
            == (DbcHolds(t, values, draws(drawn)), drawn + if t.DbcChance? then 1 else 0)
  {
    if !t.DbcChance? {
      FindsFirst(values, t.name);
      var found := Find(values, t.name);
      if found.Some? { assert IsFirstNamed(values, t.name, found.value); }
    }
  }

  lemma {:induction false} DbcDrawsShift(ts: seq<DbcTrigger>, n: nat)
    requires 0 < n <= |ts|
    ensures DbcDraws(ts, n) == (if ts[0].DbcChance? then 1 else 0) + DbcDraws(ts[1..], n - 1)
  {
    if n > 1 { DbcDrawsShift(ts, n - 1); }
  }

  lemma DbcHoldsShift(ts: seq<DbcTrigger>, values: seq<SignalValue>, draws: Oracle, drawn: nat, k: nat)
    requires 0 < k < |ts|
    ensures DbcHoldsAt(ts, values, draws, drawn, k)
            <==> DbcHoldsAt(ts[1..], values, draws, drawn + (if ts[0].DbcChance? then 1 else 0), k - 1)
  {
    hide DbcHolds;
    DbcDrawsShift(ts, k);
  }

  /** A chain is decided by its triggers one by one, each chance on the draw that falls to it. */
  lemma {:induction false} DbcChainIsDecided(ts: seq<DbcTrigger>, values: seq<SignalValue>, draws: Oracle, drawn: nat)
    ensures var (held, next) := DbcChain(ts, values, draws, drawn); DbcDecides(ts, values, draws, drawn, held, next)
  {
    hide DbcHolds, DbcFires, DbcHoldsAt, DbcDraws;
    var (held, next) := DbcChain(ts, values, draws, drawn);
    if ts == [] {
      NoDbcDraws(ts);
    } else {
      var rest, later := ts[1..], drawn + if ts[0].DbcChance? then 1 else 0;
      DbcFiresIfHolds(ts[0], values, draws, drawn);
      FirstDbcHolds(ts, values, draws, drawn);
      DbcChainIsDecided(rest, values, draws, later);
      if !DbcHoldsAt(ts, values, draws, drawn, 0) {
        assert !held && next == drawn + DbcDraws(ts, 1);
      } else if held {
        DbcDrawsShift(ts, |ts|);
        forall k | 0 <= k < |ts|
          ensures DbcHoldsAt(ts, values, draws, drawn, k)
        {
          if k > 0 { DbcHoldsShift(ts, values, draws, drawn, k); }
        }
      } else {
        var k: nat :| k < |rest| && !DbcHoldsAt(rest, values, draws, later, k) && next == later + DbcDraws(rest, k + 1)
                      && forall j | 0 <= j < k :: DbcHoldsAt(rest, values, draws, later, j);
        DbcDrawsShift(ts, k + 2);
        DbcHoldsShift(ts, values, draws, drawn, k + 1);
        forall j | 0 <= j < k + 1
          ensures DbcHoldsAt(ts, values, draws, drawn, j)
        {
          if j > 0 { DbcHoldsShift(ts, values, draws, drawn, j); }
        }
        assert !DbcHoldsAt(ts, values, draws, drawn, k + 1);
      }
    }
  }

  lemma NoDbcDraws(ts: seq<DbcTrigger>)
    ensures DbcDraws(ts, 0) == 0
  {
  }

  lemma FirstDbcHolds(ts: seq<DbcTrigger>, values: seq<SignalValue>, draws: Oracle, drawn: nat)
    requires ts != []
    ensures DbcHoldsAt(ts, values, draws, drawn, 0) <==> DbcHolds(ts[0], values, draws(drawn))
    ensures DbcDraws(ts, 1) == if ts[0].DbcChance? then 1 else 0
  {
    hide DbcHolds;
    assert DbcDraws(ts, 0) == 0;
  }

  // ----- Raw triggers

  predicate RawHolds(t: RawTrigger, id: nat, dlc: Byte, draw: Draw) {
    (t.IdIs? && t.id == id) || (t.DlcIs? && t.dlc == dlc) || (t.RawChance? && draw.unit <= t.probability)
  }

  function RawDraws(ts: seq<RawTrigger>, n: nat): nat
    requires n <= |ts|
  {
    if n == 0 then 0 else RawDraws(ts, n - 1) + if ts[n - 1].RawChance? then 1 else 0
  }

  predicate RawHoldsAt(ts: seq<RawTrigger>, id: nat, dlc: Byte, draws: Oracle, drawn: nat, k: nat)
    requires k < |ts|
  {
    RawHolds(ts[k], id, dlc, draws(drawn + RawDraws(ts, k)))
  }

  ghost predicate RawDecides(ts: seq<RawTrigger>, id: nat, dlc: Byte, draws: Oracle, drawn: nat, held: bool,
                             next: nat) {
    if held then
      next == drawn + RawDraws(ts, |ts|) && forall k | 0 <= k < |ts| :: RawHoldsAt(ts, id, dlc, draws, drawn, k)
    else
      exists k: nat :: k < |ts| && !RawHoldsAt(ts, id, dlc, draws, drawn, k) && next == drawn + RawDraws(ts, k + 1)
                       && forall j | 0 <= j < k :: RawHoldsAt(ts, id, dlc, draws, drawn, j)
  }

  lemma RawFiresIfHolds(t: RawTrigger, id: nat, dlc: Byte, draws: Oracle, drawn: nat)
    ensures RawFires(t, id, dlc, draws, drawn)
            == (RawHolds(t, id, dlc, draws(drawn)), drawn + if t.RawChance? then 1 else 0)
  {
  }

  lemma {:induction false} RawDrawsShift(ts: seq<RawTrigger>, n: nat)
    requires 0 < n <= |ts|
    ensures RawDraws(ts, n) == (if ts[0].RawChance? then 1 else 0) + RawDraws(ts[1..], n - 1)
  {
    if n > 1 { RawDrawsShift(ts, n - 1); }
  }

  lemma RawHoldsShift(ts: seq<RawTrigger>, id: nat, dlc: Byte, draws: Oracle, drawn: nat, k: nat)
    requires 0 < k < |ts|
    ensures RawHoldsAt(ts, id, dlc, draws, drawn, k)
            <==> RawHoldsAt(ts[1..], id, dlc, draws, drawn + (if ts[0].RawChance? then 1 else 0), k - 1)
  {
    hide RawHolds;
    RawDrawsShift(ts, k);
  }

  lemma {:induction false} RawChainIsDecided(ts: seq<RawTrigger>, id: nat, dlc: Byte, draws: Oracle, drawn: nat)
    ensures var (held, next) := RawChain(ts, id, dlc, draws, drawn); RawDecides(ts, id, dlc, draws, drawn, held, next)
  {
    hide RawHolds, RawFires, RawHoldsAt, RawDraws;
    var (held, next) := RawChain(ts, id, dlc, draws, drawn);
    if ts == [] {
      NoRawDraws(ts);
    } else {
      var rest, later := ts[1..], drawn + if ts[0].RawChance? then 1 else 0;
      RawFiresIfHolds(ts[0], id, dlc, draws, drawn);
      FirstRawHolds(ts, id, dlc, draws, drawn);
      RawChainIsDecided(rest, id, dlc, draws, later);
      if !RawHoldsAt(ts, id, dlc, draws, drawn, 0) {
        assert !held && next == drawn + RawDraws(ts, 1);
      } else if held {
        RawDrawsShift(ts, |ts|);
        forall k | 0 <= k < |ts|
          ensures RawHoldsAt(ts, id, dlc, draws, drawn, k)
        {
          if k > 0 { RawHoldsShift(ts, id, dlc, draws, drawn, k); }
        }
      } else {
        var k: nat :| k < |rest| && !RawHoldsAt(rest, id, dlc, draws, later, k) && next == later + RawDraws(rest, k + 1)
                      && forall j | 0 <= j < k :: RawHoldsAt(rest, id, dlc, draws, later, j);
        RawDrawsShift(ts, k + 2);
        RawHoldsShift(ts, id, dlc, draws, drawn, k + 1);
        forall j | 0 <= j < k + 1
          ensures RawHoldsAt(ts, id, dlc, draws, drawn, j)
        {
          if j > 0 { RawHoldsShift(ts, id, dlc, draws, drawn, j); }
        }
        assert !RawHoldsAt(ts, id, dlc, draws, drawn, k + 1);
      }
    }
  }

  lemma NoRawDraws(ts: seq<RawTrigger>)
    ensures RawDraws(ts, 0) == 0
  {
  }

  lemma FirstRawHolds(ts: seq<RawTrigger>, id: nat, dlc: Byte, draws: Oracle, drawn: nat)
    requires ts != []
    ensures RawHoldsAt(ts, id, dlc, draws, drawn, 0) <==> RawHolds(ts[0], id, dlc, draws(drawn))
    ensures RawDraws(ts, 1) == if ts[0].RawChance? then 1 else 0
  {
    hide RawHolds;
    assert RawDraws(ts, 0) == 0;
  }

  // ----- Effects on signals

  /** What an effect makes of the value of its signal. */
  predicate Changes(e: DbcEffect, before: real, after: real, draw: Draw) {
    match e
    case ValueSet(_, value) => after == value
    case ClampTo(_, low, high) =>
      && (before < low ==> after == low)
      && (low <= before <= high ==> after == before)
      && (low <= before && high < before ==> after == high)
    case Noise(_, amplitude) => after - before == amplitude * (2.0 * draw.unit - 1.0)
  }

  /** Only the first signal of the name changes, and nothing else about it than its value. */
  ghost predicate IsDbcEffect(e: DbcEffect, draws: Oracle, before: seq<SignalValue>, drawn: nat,
                              after: seq<SignalValue>, next: nat)
  {
    && |after| == |before|
    && (forall i | 0 <= i < |before| :: after[i].name == before[i].name)
    && (forall i: nat | i < |before| :: if IsFirstNamed(before, e.name, i)
                                        then Changes(e, before[i].value, after[i].value, draws(drawn))
                                        else after[i] == before[i])
    && next == if e.Noise? && IsNamed(before, e.name) then drawn + 1 else drawn
  }

  lemma DbcEffectIs(e: DbcEffect, draws: Oracle, values: seq<SignalValue>, drawn: nat)
    ensures var (after, next) := DbcEffectOn(e, values, draws, drawn);
            IsDbcEffect(e, draws, values, drawn, after, next)
  {
    hide Find;
    FindsFirst(values, e.name);
    var found := Find(values, e.name);
    if found.Some? {
      assert IsFirstNamed(values, e.name, found.value);
      if e.Noise? { NoiseSpreads(e.amplitude, draws(drawn)); }
    }
  }

  lemma NoiseSpreads(amplitude: real, draw: Draw)
    ensures NoiseOf(amplitude, draw) == amplitude * (2.0 * draw.unit - 1.0)
  {
  }

  /** The signals and draws before every effect and after the last. */
  ghost predicate IsDbcHistory(es: seq<DbcEffect>, draws: Oracle, history: seq<(seq<SignalValue>, nat)>) {
    && |history| == |es| + 1
    && forall k | 0 <= k < |es| ::
         IsDbcEffect(es[k], draws, history[k].0, history[k].1, history[k + 1].0, history[k + 1].1)
  }

  /** The effects one after the other. */
  ghost predicate AreDbcEffects(es: seq<DbcEffect>, draws: Oracle, before: seq<SignalValue>, drawn: nat,
                                after: seq<SignalValue>, next: nat)
  {
    exists history :: IsDbcHistory(es, draws, history) && history[0] == (before, drawn)
        && history[|es|] == (after, next)
  }

  lemma {:induction false} DbcEffectsAre(es: seq<DbcEffect>, draws: Oracle, values: seq<SignalValue>, drawn: nat)
    ensures var (after, next) := DbcEffectsOn(es, values, draws, drawn);
            AreDbcEffects(es, draws, values, drawn, after, next)
  {
    hide DbcEffectOn, IsDbcEffect;
    var (after, next) := DbcEffectsOn(es, values, draws, drawn);
    if es == [] {
      var history := [(values, drawn)];
      assert IsDbcHistory(es, draws, history);
    } else {
      var (v, n) := DbcEffectOn(es[0], values, draws, drawn);
      DbcEffectIs(es[0], draws, values, drawn);
      DbcEffectsAre(es[1..], draws, v, n);
      var rest :| IsDbcHistory(es[1..], draws, rest) && rest[0] == (v, n) && rest[|es| - 1] == (after, next);
      DbcHistoryGrows(es, draws, (values, drawn), rest);
    }
  }

  lemma DbcHistoryGrows(es: seq<DbcEffect>, draws: Oracle, first: (seq<SignalValue>, nat),
                        rest: seq<(seq<SignalValue>, nat)>)
    requires es != [] && IsDbcHistory(es[1..], draws, rest)
    requires IsDbcEffect(es[0], draws, first.0, first.1, rest[0].0, rest[0].1)
    ensures IsDbcHistory(es, draws, [first] + rest)
  {
    hide IsDbcEffect;
    var history := [first] + rest;
    forall k | 0 <= k < |es|
      ensures IsDbcEffect(es[k], draws, history[k].0, history[k].1, history[k + 1].0, history[k + 1].1)
    {
      if k > 0 {
        assert es[k] == es[1..][k - 1] && history[k] == rest[k - 1] && history[k + 1] == rest[k];
      }
    }
  }

  // ----- Effects on bits

  /** Exactly one bit differs. */
  ghost predicate Toggles(before: Payload, after: Payload, byteIndex: nat, bitIndex: nat) {
    forall k, b: nat | 0 <= k < 8 && b < 8 ::
      Bit(after[k], b) == if k == byteIndex && b == bitIndex then !Bit(before[k], b) else Bit(before[k], b)
  }

  lemma {:induction false} PowerHasOneBit(n: nat, b: nat)
    ensures Bit(Pow2(n), b) <==> b == n
    decreases n
  {
    if n == 0 {
      if b > 0 { BitZero(b - 1); }
    } else if b > 0 {
      PowerHasOneBit(n - 1, b - 1);
    }
  }

  lemma FlipToggles(data: Payload, byteIndex: Index8, bitIndex: Index8)
    ensures Toggles(data, Flipped(data, byteIndex, bitIndex), byteIndex, bitIndex)
  {
    hide Xor, Bit, Pow2;
    var after := Flipped(data, byteIndex, bitIndex);
    forall k, b: nat | 0 <= k < 8 && b < 8
      ensures Bit(after[k], b) == if k == byteIndex && b == bitIndex then !Bit(data[k], b) else Bit(data[k], b)
    {
      BitXor(data[byteIndex], BitOfByte(bitIndex), b);
      PowerHasOneBit(bitIndex, b);
    }
  }

  /** A random flip takes two draws: the bit first, then the byte. */
  ghost predicate IsRawEffect(e: RawEffect, draws: Oracle, before: Payload, drawn: nat, after: Payload, next: nat) {
    match e
    case BitFlip(byteIndex, bitIndex) => Toggles(before, after, byteIndex, bitIndex) && next == drawn
    case RandomBitFlip => Toggles(before, after, draws(drawn + 1).index, draws(drawn).index) && next == drawn + 2
  }

  ghost predicate IsRawHistory(es: seq<RawEffect>, draws: Oracle, history: seq<(Payload, nat)>) {
    && |history| == |es| + 1
    && forall k | 0 <= k < |es| ::
         IsRawEffect(es[k], draws, history[k].0, history[k].1, history[k + 1].0, history[k + 1].1)
  }

  ghost predicate AreRawEffects(es: seq<RawEffect>, draws: Oracle, before: Payload, drawn: nat, after: Payload,
                                next: nat) {
    exists history :: IsRawHistory(es, draws, history) && history[0] == (before, drawn)
        && history[|es|] == (after, next)
  }

  lemma {:induction false} RawEffectsAre(es: seq<RawEffect>, draws: Oracle, data: Payload, drawn: nat)
    ensures var (after, next) := RawEffectsOn(es, data, draws, drawn);
            AreRawEffects(es, draws, data, drawn, after, next)
  {
    hide Flipped, Toggles;
    var (after, next) := RawEffectsOn(es, data, draws, drawn);
    if es == [] {
      var history := [(data, drawn)];
      assert IsRawHistory(es, draws, history);
    } else {
      var (d, n) := RawEffectOn(es[0], data, draws, drawn);
      if es[0].BitFlip? {
        FlipToggles(data, es[0].byteIndex, es[0].bitIndex);
      } else {
        FlipToggles(data, draws(drawn + 1).index, draws(drawn).index);
      }
      RawEffectsAre(es[1..], draws, d, n);
      var rest :| IsRawHistory(es[1..], draws, rest) && rest[0] == (d, n) && rest[|es| - 1] == (after, next);
      RawHistoryGrows(es, draws, (data, drawn), rest);
    }
  }

  lemma RawHistoryGrows(es: seq<RawEffect>, draws: Oracle, first: (Payload, nat), rest: seq<(Payload, nat)>)
    requires es != [] && IsRawHistory(es[1..], draws, rest)
    requires IsRawEffect(es[0], draws, first.0, first.1, rest[0].0, rest[0].1)
    ensures IsRawHistory(es, draws, [first] + rest)
  {
    hide IsRawEffect;
    var history := [first] + rest;
    forall k | 0 <= k < |es|
      ensures IsRawEffect(es[k], draws, history[k].0, history[k].1, history[k + 1].0, history[k + 1].1)
    {
      if k > 0 {
        assert es[k] == es[1..][k - 1] && history[k] == rest[k - 1] && history[k + 1] == rest[k];
      }
    }
  }

  // ----- Turns

  /** What a strategy makes of a message, its frame's log and the draws. */
  ghost predicate IsDbcApplied(strategy: DbcStrategy, draws: Oracle, s: DbcSt, t: DbcSt) {
    match strategy
    case DbcEffects(es) =>
      && t.log == s.log && t.message == s.message.(signalValues := t.message.signalValues)
      && AreDbcEffects(es, draws, s.message.signalValues, s.drawn, t.message.signalValues, t.drawn)
    case DbcDelay(us) => t == s.(log := s.log + [Delay(us)])
    case DbcDrop => t == s.(log := s.log + [Drop])
    case DbcInsert(us, None) => t == s.(log := s.log + [Insertion(PendingInsertion(us, s.message))])
    case DbcInsert(us, Some(m)) => t == s.(log := s.log + [Insertion(PendingInsertion(us, m))])
  }

  /** A latched manipulation applies without a look at its triggers; another one applies if they hold. */
  ghost predicate IsDbcTurn(m: DbcManipulation, latched: bool, held: bool, draws: Oracle, s: DbcSt, t: DbcSt) {
    if latched then !held && IsDbcApplied(m.strategy, draws, s, t)
    else
      exists next: nat :: DbcDecides(m.triggers, s.message.signalValues, draws, s.drawn, held, next)
                          && if held then IsDbcApplied(m.strategy, draws, s.(drawn := next), t)
                             else t == s.(drawn := next)
  }

  lemma DbcTurnIs(m: DbcManipulation, latched: bool, draws: Oracle, s: DbcSt)
    ensures var (t, held) := DbcTurn(m, latched, draws, s); IsDbcTurn(m, latched, held, draws, s, t)
  {
    hide DbcChain, DbcEffectsOn, DbcDecides, AreDbcEffects;
    var next := DbcChain(m.triggers, s.message.signalValues, draws, s.drawn).1;
    DbcChainIsDecided(m.triggers, s.message.signalValues, draws, s.drawn);
    if m.strategy.DbcEffects? {
      DbcEffectsAre(m.strategy.effects, draws, s.message.signalValues, s.drawn);
      DbcEffectsAre(m.strategy.effects, draws, s.message.signalValues, next);
    }
  }

  ghost predicate IsRawApplied(strategy: RawStrategy, draws: Oracle, s: RawSt, t: RawSt) {
    match strategy
    case RawEffects(es) => t.log == s.log && AreRawEffects(es, draws, s.data, s.drawn, t.data, t.drawn)
    case RawDelay(us) => t == s.(log := s.log + [Delay(us)])
    case RawDrop => t == s.(log := s.log + [Drop])
  }

  ghost predicate IsRawTurn(m: RawManipulation, latched: bool, held: bool, id: nat, dlc: Byte, draws: Oracle, s: RawSt,
                            t: RawSt)
  {
    if latched then !held && IsRawApplied(m.strategy, draws, s, t)
    else
      exists next: nat :: RawDecides(m.triggers, id, dlc, draws, s.drawn, held, next)
                          && if held then IsRawApplied(m.strategy, draws, s.(drawn := next), t)
                             else t == s.(drawn := next)
  }

  lemma RawTurnIs(m: RawManipulation, latched: bool, id: nat, dlc: Byte, draws: Oracle, s: RawSt)
    ensures var (t, held) := RawTurn(m, latched, id, dlc, draws, s); IsRawTurn(m, latched, held, id, dlc, draws, s, t)
  {
    hide RawChain, RawEffectsOn, RawDecides, AreRawEffects;
    var next := RawChain(m.triggers, id, dlc, draws, s.drawn).1;
    RawChainIsDecided(m.triggers, id, dlc, draws, s.drawn);
    if m.strategy.RawEffects? {
      RawEffectsAre(m.strategy.effects, draws, s.data, s.drawn);
      RawEffectsAre(m.strategy.effects, draws, s.data, next);
    }
  }

  /** The turns of all manipulations, in their order, take the message from the first state to the last. */
  ghost predicate AreDbcTurns(ms: seq<DbcManipulation>, latched: seq<bool>, held: seq<bool>, draws: Oracle,
                              states: seq<DbcSt>)
  {
    && |latched| == |held| == |ms| && |states| == |ms| + 1
    && forall i | 0 <= i < |ms| :: IsDbcTurn(ms[i], latched[i], held[i], draws, states[i], states[i + 1])
  }

  ghost predicate AreRawTurns(ms: seq<RawManipulation>, latched: seq<bool>, held: seq<bool>, id: nat, dlc: Byte,
                              draws: Oracle, states: seq<RawSt>)
  {
    && |latched| == |held| == |ms| && |states| == |ms| + 1
    && forall i | 0 <= i < |ms| :: IsRawTurn(ms[i], latched[i], held[i], id, dlc, draws, states[i], states[i + 1])
  }

  lemma {:induction false} DbcRunIsTurns(ms: seq<DbcManipulation>, latched: seq<bool>, n: nat, draws: Oracle, s: DbcSt)
    returns (states: seq<DbcSt>)
    requires n <= |ms| == |latched|
    ensures var (t, held) := DbcRun(ms, latched, n, draws, s);
            AreDbcTurns(ms[..n], latched[..n], held, draws, states) && states[0] == s && states[n] == t
    ensures forall i | 0 <= i <= n :: states[i] == DbcRun(ms, latched, i, draws, s).0
  {
    hide DbcTurn, IsDbcTurn;
    if n == 0 {
      states := [s];
    } else {
      states := DbcRunIsTurns(ms, latched, n - 1, draws, s);
      var (t, held) := DbcRun(ms, latched, n - 1, draws, s);
      DbcTurnIs(ms[n - 1], latched[n - 1], draws, t);
      var all := states + [DbcTurn(ms[n - 1], latched[n - 1], draws, t).0];
      forall i | 0 <= i < n
        ensures IsDbcTurn(ms[i], latched[i], DbcRun(ms, latched, n, draws, s).1[i], draws, all[i], all[i + 1])
      {
        if i < n - 1 {
          assert ms[..n - 1][i] == ms[i] && latched[..n - 1][i] == latched[i];
        }
      }
      states := all;
    }
  }

  lemma {:induction false} RawRunIsTurns(ms: seq<RawManipulation>, latched: seq<bool>, n: nat, id: nat, dlc: Byte,
                                         draws: Oracle, s: RawSt)
    returns (states: seq<RawSt>)
    requires n <= |ms| == |latched|
    ensures var (t, held) := RawRun(ms, latched, n, id, dlc, draws, s);
            AreRawTurns(ms[..n], latched[..n], held, id, dlc, draws, states) && states[0] == s && states[n] == t
    ensures forall i | 0 <= i <= n :: states[i] == RawRun(ms, latched, i, id, dlc, draws, s).0
  {
    hide RawTurn, IsRawTurn;
    if n == 0 {
      states := [s];
    } else {
      states := RawRunIsTurns(ms, latched, n - 1, id, dlc, draws, s);
      var (t, held) := RawRun(ms, latched, n - 1, id, dlc, draws, s);
      RawTurnIs(ms[n - 1], latched[n - 1], id, dlc, draws, t);
      var all := states + [RawTurn(ms[n - 1], latched[n - 1], id, dlc, draws, t).0];
      forall i | 0 <= i < n
        ensures IsRawTurn(ms[i], latched[i], RawRun(ms, latched, n, id, dlc, draws, s).1[i], id, dlc, draws, all[i],
                          all[i + 1])
      {
        if i < n - 1 {
          assert ms[..n - 1][i] == ms[i] && latched[..n - 1][i] == latched[i];
        }
      }
      states := all;
    }
  }

  // ----- Runs

  /** The message, its log and the draws when the turn of DBC manipulation i comes for message n of a run. */
  function DbcStateAt(c: Setup, m: Memory, messages: seq<DbcCanMessage>, encode: Encoder, n: nat, i: nat): DbcSt
    requires Sending.Fits(c, m) && n < |messages| && i <= |c.dbcs|
  {
    var memory := MemoryAfter(c, m, messages, encode, n);
    DbcRun(c.dbcs, memory.dbcLatched, i, c.draws, DbcSt(messages[n], memory.drawn, [])).0
  }

  /** The triggers of DBC manipulation i hold for the values that message n has at its turn. */
  ghost predicate DbcTriggersHold(c: Setup, m: Memory, messages: seq<DbcCanMessage>, encode: Encoder, n: nat, i: nat)
    requires Sending.Fits(c, m) && n < |messages| && i < |c.dbcs|
  {
    var s, ts := DbcStateAt(c, m, messages, encode, n, i), c.dbcs[i].triggers;
    forall k | 0 <= k < |ts| :: DbcHoldsAt(ts, s.message.signalValues, c.draws, s.drawn, k)
  }

  predicate DbcApplies(c: Setup, m: Memory, messages: seq<DbcCanMessage>, encode: Encoder, n: nat, i: nat)
    requires Sending.Fits(c, m) && n < |messages| && i < |c.dbcs|
  {
    MemoryAfter(c, m, messages, encode, n).dbcLatched[i] || DbcHeldAt(c, m, messages, encode, n, i)
  }

  lemma DbcHeldIfTriggersHold(c: Setup, m: Memory, messages: seq<DbcCanMessage>, encode: Encoder, n: nat, i: nat)
    requires Sending.Fits(c, m) && n < |messages| && i < |c.dbcs|
    ensures DbcHeldAt(c, m, messages, encode, n, i)
            <==> !MemoryAfter(c, m, messages, encode, n).dbcLatched[i]
                 && DbcTriggersHold(c, m, messages, encode, n, i)
  {
    hide DbcRun, RawRun, DbcHoldsAt, IsDbcApplied, DbcDraws;
    var memory := MemoryAfter(c, m, messages, encode, n);
    var start := DbcSt(messages[n], memory.drawn, []);
    var states := DbcRunIsTurns(c.dbcs, memory.dbcLatched, |c.dbcs|, c.draws, start);
    var held := DbcRun(c.dbcs, memory.dbcLatched, |c.dbcs|, c.draws, start).1;
    assert c.dbcs[..|c.dbcs|] == c.dbcs && memory.dbcLatched[..|c.dbcs|] == memory.dbcLatched;
    assert IsDbcTurn(c.dbcs[i], memory.dbcLatched[i], held[i], c.draws, states[i], states[i + 1]);
    assert states[i] == DbcStateAt(c, m, messages, encode, n, i);
    assert held == TraceAt(c, m, messages, encode, n).dbcHeld;
    assert !memory.dbcLatched[i] ==> exists next: nat ::
      DbcDecides(c.dbcs[i].triggers, states[i].message.signalValues, c.draws, states[i].drawn, held[i], next);
  }

  /**
   Over any run, with chance or without: a DBC manipulation applies to a message exactly if it was latched at the
   start, or its triggers hold for the values that the message has at its turn, or it latches and they held so for an
   earlier message.
   */
  lemma DbcAppliesIfTriggersHold(c: Setup, m: Memory, messages: seq<DbcCanMessage>, encode: Encoder, n: nat, i: nat)
    requires Sending.Fits(c, m) && n < |messages| && i < |c.dbcs|
    ensures DbcApplies(c, m, messages, encode, n, i)
            <==> m.dbcLatched[i] || DbcTriggersHold(c, m, messages, encode, n, i)
                 || (c.dbcs[i].latch && exists j | 0 <= j < n :: DbcTriggersHold(c, m, messages, encode, j, i))
  {
    hide DbcRun, RawRun, DbcTriggersHold, DbcHeldAt, MemoryAfter;
    LatchedIffHeldBefore(c, m, messages, encode, n);
    forall j | 0 <= j <= n
      ensures DbcHeldAt(c, m, messages, encode, j, i)
              <==> !MemoryAfter(c, m, messages, encode, j).dbcLatched[i]
                   && DbcTriggersHold(c, m, messages, encode, j, i)
    {
      DbcHeldIfTriggersHold(c, m, messages, encode, j, i);
    }
    if c.dbcs[i].latch && exists j | 0 <= j < n :: DbcTriggersHold(c, m, messages, encode, j, i) {
      var j :| 0 <= j < n && DbcTriggersHold(c, m, messages, encode, j, i);
      LatchedIffHeldBefore(c, m, messages, encode, j);
    }
  }

  function RawStateAt(c: Setup, m: Memory, messages: seq<DbcCanMessage>, encode: Encoder, n: nat, i: nat): RawSt
    requires Sending.Fits(c, m) && n < |messages| && i <= |c.raws|
  {
    var s := DbcStateAt(c, m, messages, encode, n, |c.dbcs|);
    var frame := encode(s.message);
    RawRun(c.raws, MemoryAfter(c, m, messages, encode, n).rawLatched, i, frame.messageId, frame.dlc, c.draws,
           RawSt(frame.data, s.drawn, s.log)).0
  }

  /** The triggers of raw manipulation i hold for the frame that message n is encoded to. */
  ghost predicate RawTriggersHold(c: Setup, m: Memory, messages: seq<DbcCanMessage>, encode: Encoder, n: nat, i: nat)
    requires Sending.Fits(c, m) && n < |messages| && i < |c.raws|
  {
    var frame := encode(DbcStateAt(c, m, messages, encode, n, |c.dbcs|).message);
    var drawn, ts := RawStateAt(c, m, messages, encode, n, i).drawn, c.raws[i].triggers;
    forall k | 0 <= k < |ts| :: RawHoldsAt(ts, frame.messageId, frame.dlc, c.draws, drawn, k)
  }

  predicate RawApplies(c: Setup, m: Memory, messages: seq<DbcCanMessage>, encode: Encoder, n: nat, i: nat)
    requires Sending.Fits(c, m) && n < |messages| && i < |c.raws|
  {
    MemoryAfter(c, m, messages, encode, n).rawLatched[i] || RawHeldAt(c, m, messages, encode, n, i)
  }

  lemma RawHeldIfTriggersHold(c: Setup, m: Memory, messages: seq<DbcCanMessage>, encode: Encoder, n: nat, i: nat)
    requires Sending.Fits(c, m) && n < |messages| && i < |c.raws|
    ensures RawHeldAt(c, m, messages, encode, n, i)
            <==> !MemoryAfter(c, m, messages, encode, n).rawLatched[i]
                 && RawTriggersHold(c, m, messages, encode, n, i)
  {
    hide DbcRun, RawRun, RawHoldsAt, IsRawApplied;
    var latched := MemoryAfter(c, m, messages, encode, n).rawLatched;
    var s := DbcStateAt(c, m, messages, encode, n, |c.dbcs|);
    var frame := encode(s.message);
    var start := RawSt(frame.data, s.drawn, s.log);
    var states := RawRunIsTurns(c.raws, latched, |c.raws|, frame.messageId, frame.dlc, c.draws, start);
    var held := RawRun(c.raws, latched, |c.raws|, frame.messageId, frame.dlc, c.draws, start).1;
    assert c.raws[..|c.raws|] == c.raws && latched[..|c.raws|] == latched;
    assert IsRawTurn(c.raws[i], latched[i], held[i], frame.messageId, frame.dlc, c.draws, states[i], states[i + 1]);
    assert held == TraceAt(c, m, messages, encode, n).rawHeld;
  }

  /** The same for raw manipulations and the frames that the messages are encoded to. */
  lemma RawAppliesIfTriggersHold(c: Setup, m: Memory, messages: seq<DbcCanMessage>, encode: Encoder, n: nat, i: nat)
    requires Sending.Fits(c, m) && n < |messages| && i < |c.raws|
    ensures RawApplies(c, m, messages, encode, n, i)
            <==> m.rawLatched[i] || RawTriggersHold(c, m, messages, encode, n, i)
                 || (c.raws[i].latch && exists j | 0 <= j < n :: RawTriggersHold(c, m, messages, encode, j, i))
  {
    hide DbcRun, RawRun, RawTriggersHold, RawHeldAt, MemoryAfter;
    LatchedIffHeldBefore(c, m, messages, encode, n);
    forall j | 0 <= j <= n
      ensures RawHeldAt(c, m, messages, encode, j, i)
              <==> !MemoryAfter(c, m, messages, encode, j).rawLatched[i]
                   && RawTriggersHold(c, m, messages, encode, j, i)
    {
      RawHeldIfTriggersHold(c, m, messages, encode, j, i);
    }
    if c.raws[i].latch && exists j | 0 <= j < n :: RawTriggersHold(c, m, messages, encode, j, i) {
      var j :| 0 <= j < n && RawTriggersHold(c, m, messages, encode, j, i);
      LatchedIffHeldBefore(c, m, messages, encode, j);
    }
  }

  // ----- The items of a message

  /** The longest delay that a strategy asks for, or 0 if none does or one drops the frame. */
  ghost predicate IsLongestDelay(c: Setup, m: Memory, t: Trace, delay: nat)
    requires Sending.Fits(c, m) && |t.dbcHeld| == |c.dbcs| && |t.rawHeld| == |c.raws|
  {
    if Asked(c, m, t, Drop) then delay == 0
    else (delay == 0 || Asked(c, m, t, Delay(delay))) && forall us: nat :: Asked(c, m, t, Delay(us)) ==> us <= delay
  }

  /**
   Every insertion stands at the deadline plus the longest delay plus its own; the frame itself comes last and without
   a delay of its own, exactly if no strategy that applied drops it.
   */
  lemma ItemsAreScheduled(c: Setup, m: Memory, message: DbcCanMessage, encode: Encoder, deadline: int)
    returns (delay: nat)
    requires Sending.Fits(c, m)
    ensures var t := DbcTrace(c, m, message, encode);
            var items := Items(Verdict(t.log), t.frame, encode, deadline);
            var asked := FiredInsertions(c.dbcs, m.dbcLatched, |c.dbcs|, c.draws, DbcSt(message, m.drawn, []));
            && |t.dbcHeld| == |c.dbcs| && |t.rawHeld| == |c.raws| && IsLongestDelay(c, m, t, delay)
            && |items| == |asked| + (if Asked(c, m, t, Drop) then 0 else 1)
            && (forall i | 0 <= i < |asked| ::
                  items[i] == ScheduledItem(deadline + delay + asked[i].delayOffset, encode(asked[i].message)))
            && (!Asked(c, m, t, Drop) ==> items[|asked|] == ScheduledItem(deadline + delay, t.frame))
  {
    hide DbcTrace, Asked, FiredInsertions, MaxDelay, InsertionsOf;
    VerdictIsDecidedByWhatFired(c, m, message, encode);
    delay := Verdict(DbcTrace(c, m, message, encode).log).delayOffset;
  }

  /** The items of a run are those of its messages, one message after the other. */
  lemma {:induction false} ItemsInOrder(c: Setup, m: Memory, messages: seq<DbcCanMessage>, encode: Encoder,
                                        deadline: int, n: nat, j: nat)
    requires Sending.Fits(c, m) && j < n <= |messages|
    ensures var t := TraceAt(c, m, messages, encode, j);
            var all := RunItems(c, m, messages, encode, deadline, n);
            var before := |RunItems(c, m, messages, encode, deadline, j)|;
            var after := |RunItems(c, m, messages, encode, deadline, j + 1)|;
            && before <= after <= |all| && all[..after] == RunItems(c, m, messages, encode, deadline, j + 1)
            && all[before..after] == Items(Verdict(t.log), t.frame, encode, deadline)
    decreases n
  {
    hide TraceAt, Items, Verdict;
    if j < n - 1 { ItemsInOrder(c, m, messages, encode, deadline, n - 1, j); }
  }
}
