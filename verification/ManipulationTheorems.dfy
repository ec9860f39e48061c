/** What the manipulations of a handler add up to: per frame, over a run, and under reordering. */
module ManipulationTheorems {
  import opened Bits
  import opened CanTypes
  import opened Manipulation
  import opened Sending

  // ----- The verdict is decided by the strategies that fired

  function RawAction(strategy: RawStrategy): Option<Action> {
    match strategy
    case RawEffects(_) => None
    case RawDelay(us) => Some(Delay(us))
    case RawDrop => Some(Drop)
  }

  function DbcAction(strategy: DbcStrategy): Option<Action> {
    match strategy
    case DbcDelay(us) => Some(Delay(us))
    case DbcDrop => Some(Drop)
    case _ => None
  }

  /** Manipulation i applied: it was latched already, or its chain held. */
  predicate Applied(latched: seq<bool>, held: seq<bool>, i: nat)
    requires i < |held| <= |latched|
  {
    latched[i] || held[i]
  }

  ghost predicate RawAsked(ms: seq<RawManipulation>, latched: seq<bool>, held: seq<bool>, a: Action)
    requires |held| <= |ms| == |latched|
  {
    exists i | 0 <= i < |held| :: Applied(latched, held, i) && RawAction(ms[i].strategy) == Some(a)
  }

  ghost predicate DbcAsked(ms: seq<DbcManipulation>, latched: seq<bool>, held: seq<bool>, a: Action)
    requires |held| <= |ms| == |latched|
  {
    exists i | 0 <= i < |held| :: Applied(latched, held, i) && DbcAction(ms[i].strategy) == Some(a)
  }

  lemma RawAskedStep(ms: seq<RawManipulation>, latched: seq<bool>, held: seq<bool>, h: bool, a: Action)
    requires |held| < |ms| == |latched|
    ensures RawAsked(ms, latched, held + [h], a)
            <==> RawAsked(ms, latched, held, a) || ((latched[|held|] || h) && RawAction(ms[|held|].strategy) == Some(a))
  {
    var n, more := |held|, held + [h];
    if RawAsked(ms, latched, held, a) {
      var i :| 0 <= i < |held| && Applied(latched, held, i) && RawAction(ms[i].strategy) == Some(a);
      assert Applied(latched, more, i);
    }
    if RawAsked(ms, latched, more, a) {
      var i :| 0 <= i < |more| && Applied(latched, more, i) && RawAction(ms[i].strategy) == Some(a);
      if i < n { assert Applied(latched, held, i); }
    }
    if (latched[n] || h) && RawAction(ms[n].strategy) == Some(a) { assert Applied(latched, more, n); }
  }

  lemma DbcAskedStep(ms: seq<DbcManipulation>, latched: seq<bool>, held: seq<bool>, h: bool, a: Action)
    requires |held| < |ms| == |latched|
    ensures DbcAsked(ms, latched, held + [h], a)
            <==> DbcAsked(ms, latched, held, a) || ((latched[|held|] || h) && DbcAction(ms[|held|].strategy) == Some(a))
  {
    var n, more := |held|, held + [h];
    if DbcAsked(ms, latched, held, a) {
      var i :| 0 <= i < |held| && Applied(latched, held, i) && DbcAction(ms[i].strategy) == Some(a);
      assert Applied(latched, more, i);
    }
    if DbcAsked(ms, latched, more, a) {
      var i :| 0 <= i < |more| && Applied(latched, more, i) && DbcAction(ms[i].strategy) == Some(a);
      if i < n { assert Applied(latched, held, i); }
    }
    if (latched[n] || h) && DbcAction(ms[n].strategy) == Some(a) { assert Applied(latched, more, n); }
  }

  lemma RawTurnLog(m: RawManipulation, latched: bool, id: nat, dlc: Byte, draws: Oracle, s: RawSt)
    ensures var (t, h) := RawTurn(m, latched, id, dlc, draws, s);
            var action := RawAction(m.strategy);
            t.log == s.log + if (latched || h) && action.Some? then [action.value] else []
  {
    hide RawChain, RawEffectsOn;
  }

  lemma {:induction false} RawLogIsWhatFired(ms: seq<RawManipulation>, latched: seq<bool>, n: nat, id: nat, dlc: Byte,
                                             draws: Oracle, s: RawSt, a: Action)
    requires n <= |ms| == |latched|
    ensures var (t, held) := RawRun(ms, latched, n, id, dlc, draws, s);
            && (a in t.log <==> a in s.log || RawAsked(ms, latched, held, a))
            && InsertionsOf(t.log) == InsertionsOf(s.log)
  {
    hide RawTurn, RawAsked, InsertionsOf;
    if n == 0 {
      NoneAsked(ms, latched, a);
    } else {
      RawLogIsWhatFired(ms, latched, n - 1, id, dlc, draws, s, a);
      var (t, held) := RawRun(ms, latched, n - 1, id, dlc, draws, s);
      var (u, h) := RawTurn(ms[n - 1], latched[n - 1], id, dlc, draws, t);
      RawTurnLog(ms[n - 1], latched[n - 1], id, dlc, draws, t);
      RawAskedStep(ms, latched, held, h, a);
      var action := RawAction(ms[n - 1].strategy);
      InsertionsStep(t.log, if action.Some? then action.value else a);
    }
  }

  lemma NoneAsked(ms: seq<RawManipulation>, latched: seq<bool>, a: Action)
    requires |ms| == |latched|
    ensures !RawAsked(ms, latched, [], a)
  {
  }

  lemma InsertionsStep(log: seq<Action>, a: Action)
    ensures InsertionsOf(log + [a]) == InsertionsOf(log) + if a.Insertion? then [a.pending] else []
    ensures !a.Insertion? ==> InsertionsOf(log + [a]) == InsertionsOf(log)
    ensures log + [] == log
  {
    assert (log + [a])[..|log|] == log;
  }

  /** The insertions that the first n DBC manipulations ask for, each copy taken at its turn. */
  function FiredInsertions(ms: seq<DbcManipulation>, latched: seq<bool>, n: nat, draws: Oracle,
                           s: DbcSt): seq<PendingInsertion>
    requires n <= |ms| == |latched|
  {
    if n == 0 then []
    else
      var before := DbcRun(ms, latched, n - 1, draws, s).0;
      var held := DbcRun(ms, latched, n, draws, s).1;
      var strategy := ms[n - 1].strategy;
      FiredInsertions(ms, latched, n - 1, draws, s)
      + if Applied(latched, held, n - 1) && strategy.DbcInsert?
        then [PendingInsertion(strategy.delayUs, if strategy.message.Some? then strategy.message.value
                               else before.message)]
        else []
  }

  lemma DbcTurnLog(m: DbcManipulation, latched: bool, draws: Oracle, s: DbcSt)
    ensures var (t, h) := DbcTurn(m, latched, draws, s);
            var action := DbcAction(m.strategy);
            t.log == s.log + if !latched && !h then [] else if action.Some? then [action.value]
                             else if m.strategy.DbcInsert?
                             then
                               var message := if m.strategy.message.Some? then m.strategy.message.value else s.message;
                               [Insertion(PendingInsertion(m.strategy.delayUs, message))]
                             else []
  {
    hide DbcChain, DbcEffectsOn;
  }

  lemma {:induction false} DbcLogIsWhatFired(ms: seq<DbcManipulation>, latched: seq<bool>, n: nat, draws: Oracle,
                                             s: DbcSt, a: Action)
    requires n <= |ms| == |latched| && !a.Insertion?
    ensures var (t, held) := DbcRun(ms, latched, n, draws, s);
            && (a in t.log <==> a in s.log || DbcAsked(ms, latched, held, a))
            && InsertionsOf(t.log) == InsertionsOf(s.log) + FiredInsertions(ms, latched, n, draws, s)
  {
    hide DbcTurn, DbcAsked, InsertionsOf;
    if n == 0 {
      assert !DbcAsked(ms, latched, [], a) by { NoDbcAsked(ms, latched, a); }
    } else {
      DbcLogIsWhatFired(ms, latched, n - 1, draws, s, a);
      var (t, held) := DbcRun(ms, latched, n - 1, draws, s);
      var (u, h) := DbcTurn(ms[n - 1], latched[n - 1], draws, t);
      DbcTurnLog(ms[n - 1], latched[n - 1], draws, t);
      DbcAskedStep(ms, latched, held, h, a);
      InsertionsStep(t.log, a);
      if |u.log| > |t.log| { InsertionsStep(t.log, u.log[|t.log|]); }
      assert Applied(latched, held + [h], n - 1) == (latched[n - 1] || h);
    }
  }

  lemma NoDbcAsked(ms: seq<DbcManipulation>, latched: seq<bool>, a: Action)
    requires |ms| == |latched|
    ensures !DbcAsked(ms, latched, [], a)
  {
  }

  /** Some strategy that applied to the message asks for the action. */
  ghost predicate Asked(c: Setup, m: Memory, t: Trace, a: Action)
    requires Sending.Fits(c, m) && |t.dbcHeld| == |c.dbcs| && |t.rawHeld| == |c.raws|
  {
    DbcAsked(c.dbcs, m.dbcLatched, t.dbcHeld, a) || RawAsked(c.raws, m.rawLatched, t.rawHeld, a)
  }

  lemma DbcTraceLog(c: Setup, m: Memory, message: DbcCanMessage, encode: Encoder, a: Action)
    requires Sending.Fits(c, m) && !a.Insertion?
    ensures var t := DbcTrace(c, m, message, encode);
            && |t.dbcHeld| == |c.dbcs| && |t.rawHeld| == |c.raws|
            && (a in t.log <==> Asked(c, m, t, a))
            && InsertionsOf(t.log) == FiredInsertions(c.dbcs, m.dbcLatched, |c.dbcs|, c.draws,
                                                      DbcSt(message, m.drawn, []))
  {
    hide DbcRun, RawRun, DbcAsked, RawAsked, FiredInsertions;
    var (s, dbcHeld) := DbcRun(c.dbcs, m.dbcLatched, |c.dbcs|, c.draws, DbcSt(message, m.drawn, []));
    var frame := encode(s.message);
    DbcLogIsWhatFired(c.dbcs, m.dbcLatched, |c.dbcs|, c.draws, DbcSt(message, m.drawn, []), a);
    RawLogIsWhatFired(c.raws, m.rawLatched, |c.raws|, frame.messageId, frame.dlc, c.draws,
                      RawSt(frame.data, s.drawn, s.log), a);
  }

  lemma TraceShape(c: Setup, m: Memory, message: DbcCanMessage, encode: Encoder)
    requires Sending.Fits(c, m)
    ensures var t := DbcTrace(c, m, message, encode); |t.dbcHeld| == |c.dbcs| && |t.rawHeld| == |c.raws|
  {
    hide DbcRun, RawRun;
  }

  /**
   The aggregation of one message: it is dropped exactly if a strategy that applied drops it; else the
   delay is the longest that one of them asks for; the insertions come in firing order.
   */
  lemma VerdictIsDecidedByWhatFired(c: Setup, m: Memory, message: DbcCanMessage, encode: Encoder)
    requires Sending.Fits(c, m)
    ensures var t := DbcTrace(c, m, message, encode);
            var verdict := Verdict(t.log);
            && |t.dbcHeld| == |c.dbcs| && |t.rawHeld| == |c.raws|
            && (verdict.drop <==> Asked(c, m, t, Drop))
            && (verdict.drop ==> verdict.delayOffset == 0)
            && (!verdict.drop ==> forall us: nat :: Asked(c, m, t, Delay(us)) ==> us <= verdict.delayOffset)
            && (verdict.delayOffset == 0 || Asked(c, m, t, Delay(verdict.delayOffset)))
            && verdict.insertions == FiredInsertions(c.dbcs, m.dbcLatched, |c.dbcs|, c.draws,
                                                     DbcSt(message, m.drawn, []))
  {
    hide DbcTrace, Asked, FiredInsertions, MaxDelay, InsertionsOf;
    TraceShape(c, m, message, encode);
    var t := DbcTrace(c, m, message, encode);
    DbcTraceLog(c, m, message, encode, Drop);
    MaxDelayIsMax(t.log);
    forall us: nat
      ensures Delay(us) in t.log <==> Asked(c, m, t, Delay(us))
    {
      DbcTraceLog(c, m, message, encode, Delay(us));
    }
  }

  // ----- Without chance

  predicate NoChance(ms: seq<RawManipulation>) {
    forall m | m in ms :: Certain(m)
  }

  predicate Certain(m: RawManipulation) {
    (forall t | t in m.triggers :: !t.RawChance?)
        && (m.strategy.RawEffects? ==> forall e | e in m.strategy.effects :: e.BitFlip?)
  }

  /** Every trigger holds for the identifier and the length; the payload plays no part. */
  predicate ChainHolds(ts: seq<RawTrigger>, id: nat, dlc: Byte) {
    forall t | t in ts :: (t.IdIs? ==> t.id == id) && (t.DlcIs? ==> t.dlc == dlc)
  }

  lemma {:induction false} CertainChain(ts: seq<RawTrigger>, id: nat, dlc: Byte, draws: Oracle, drawn: nat)
    requires forall t | t in ts :: !t.RawChance?
    ensures RawChain(ts, id, dlc, draws, drawn) == (ChainHolds(ts, id, dlc), drawn)
  {
    if ts != [] {
      assert ts == [ts[0]] + ts[1..];
      assert ts[0] in ts;
      CertainChain(ts[1..], id, dlc, draws, drawn);
    }
  }

  /** The bits that a list of flips toggles. */
  function EffectsMask(es: seq<RawEffect>): Payload
    requires forall e | e in es :: e.BitFlip?
  {
    if es == [] then ZERO else XorPayload(OneBit(es[0].byteIndex, es[0].bitIndex), EffectsMask(es[1..]))
  }

  lemma {:induction false} CertainEffects(es: seq<RawEffect>, data: Payload, draws: Oracle, drawn: nat)
    requires forall e | e in es :: e.BitFlip?
    ensures RawEffectsOn(es, data, draws, drawn) == (XorPayload(data, EffectsMask(es)), drawn)
  {
    hide XorPayload, Flipped, OneBit;
    if es == [] {
      XorPayloadLaws(data, ZERO, ZERO);
    } else {
      var flip := OneBit(es[0].byteIndex, es[0].bitIndex);
      FlipIsXor(data, es[0].byteIndex, es[0].bitIndex);
      CertainEffects(es[1..], XorPayload(data, flip), draws, drawn);
      XorPayloadLaws(data, flip, EffectsMask(es[1..]));
    }
  }

  /** A manipulation together with its latch. */
  datatype Entry = Entry(manipulation: RawManipulation, latched: bool)

  function Entries(ms: seq<RawManipulation>, latched: seq<bool>): (r: seq<Entry>)
    requires |ms| == |latched|
    ensures |r| == |ms| && forall i | 0 <= i < |r| :: r[i] == Entry(ms[i], latched[i])
  {
    seq(|ms|, i requires 0 <= i < |ms| => Entry(ms[i], latched[i]))
  }

  predicate Applies(e: Entry, id: nat, dlc: Byte) {
    e.latched || ChainHolds(e.manipulation.triggers, id, dlc)
  }

  /** The entry after a frame. */
  function Next(e: Entry, id: nat, dlc: Byte): Entry {
    e.(latched := e.latched || (e.manipulation.latch && ChainHolds(e.manipulation.triggers, id, dlc)))
  }

  function EntryMask(e: Entry, id: nat, dlc: Byte): Payload {
    if Certain(e.manipulation) && Applies(e, id, dlc) && e.manipulation.strategy.RawEffects?
    then EffectsMask(e.manipulation.strategy.effects) else ZERO
  }

  /** The mask of a list of entries: it depends on the identifier, the length and the latches alone. */
  function Mask(es: seq<Entry>, id: nat, dlc: Byte): Payload {
    if es == [] then ZERO else XorPayload(Mask(es[..|es| - 1], id, dlc), EntryMask(es[|es| - 1], id, dlc))
  }

  lemma CertainTurn(m: RawManipulation, latched: bool, id: nat, dlc: Byte, draws: Oracle, s: RawSt)
    requires Certain(m)
    ensures var (t, h) := RawTurn(m, latched, id, dlc, draws, s);
            && t.data == XorPayload(s.data, EntryMask(Entry(m, latched), id, dlc)) && t.drawn == s.drawn
            && h == (!latched && ChainHolds(m.triggers, id, dlc))
  {
    hide XorPayload, RawChain, RawEffectsOn, EffectsMask, ChainHolds;
    CertainChain(m.triggers, id, dlc, draws, s.drawn);
    XorPayloadLaws(s.data, ZERO, ZERO);
    if m.strategy.RawEffects? { CertainEffects(m.strategy.effects, s.data, draws, s.drawn); }
  }

  /** Without chance, injection XORs the data with the mask and draws nothing. */
  lemma {:induction false} InjectionIsMask(ms: seq<RawManipulation>, latched: seq<bool>, n: nat, id: nat, dlc: Byte,
                                           draws: Oracle, s: RawSt)
    requires n <= |ms| == |latched| && NoChance(ms)
    ensures var (t, held) := RawRun(ms, latched, n, id, dlc, draws, s);
            && t.data == XorPayload(s.data, Mask(Entries(ms, latched)[..n], id, dlc)) && t.drawn == s.drawn
            && forall i | 0 <= i < n :: held[i] == (!latched[i] && ChainHolds(ms[i].triggers, id, dlc))
  {
    hide XorPayload, RawTurn, EntryMask, ChainHolds, Certain;
    var es := Entries(ms, latched);
    if n == 0 {
      XorPayloadLaws(s.data, ZERO, ZERO);
    } else {
      InjectionIsMask(ms, latched, n - 1, id, dlc, draws, s);
      var t := RawRun(ms, latched, n - 1, id, dlc, draws, s).0;
      CertainTurn(ms[n - 1], latched[n - 1], id, dlc, draws, t);
      assert es[..n][..n - 1] == es[..n - 1] && es[..n][n - 1] == Entry(ms[n - 1], latched[n - 1]);
      XorPayloadLaws(s.data, Mask(es[..n - 1], id, dlc), EntryMask(es[n - 1], id, dlc));
    }
  }

  // ----- Order does not matter

  lemma XorSwap(a: Payload, b: Payload, c: Payload)
    ensures XorPayload(XorPayload(a, b), c) == XorPayload(XorPayload(a, c), b)
  {
    hide XorPayload;
    XorPayloadLaws(a, b, c);
    XorPayloadLaws(b, c, ZERO);
    XorPayloadLaws(a, c, b);
  }

  lemma MaskLast(es: seq<Entry>, id: nat, dlc: Byte)
    requires es != []
    ensures Mask(es, id, dlc) == XorPayload(Mask(es[..|es| - 1], id, dlc), EntryMask(es[|es| - 1], id, dlc))
  {
  }

  lemma {:induction false} MaskSplit(es: seq<Entry>, k: nat, id: nat, dlc: Byte)
    requires k < |es|
    ensures Mask(es, id, dlc) == XorPayload(Mask(es[..k] + es[k + 1..], id, dlc), EntryMask(es[k], id, dlc))
    decreases |es|
  {
    hide XorPayload, EntryMask, Mask;
    var last := |es| - 1;
    MaskLast(es, id, dlc);
    if k == last {
      assert es[..k] + es[k + 1..] == es[..last];
    } else {
      var init, rest := es[..last], es[..k] + es[k + 1..];
      MaskSplit(init, k, id, dlc);
      assert rest[..|rest| - 1] == init[..k] + init[k + 1..] && rest[|rest| - 1] == es[last];
      MaskLast(rest, id, dlc);
      XorSwap(Mask(rest[..|rest| - 1], id, dlc), EntryMask(es[k], id, dlc), EntryMask(es[last], id, dlc));
    }
  }

  /** Where the first entry of one order stands in another, and what is left when it is taken out. */
  lemma TakeOut(es: seq<Entry>, fs: seq<Entry>) returns (k: nat)
    requires es != [] && multiset(es) == multiset(fs)
    ensures k < |fs| && fs[k] == es[|es| - 1] && multiset(es[..|es| - 1]) == multiset(fs[..k] + fs[k + 1..])
  {
    var e := es[|es| - 1];
    assert es == es[..|es| - 1] + [e];
    assert e in multiset(fs);
    k :| 0 <= k < |fs| && fs[k] == e;
    assert fs == fs[..k] + ([e] + fs[k + 1..]);
    assert multiset(es[..|es| - 1]) == multiset(es) - multiset{e};
    assert multiset(fs[..k] + fs[k + 1..]) == multiset(fs) - multiset{e};
  }

  lemma {:induction false} MaskIsOrderFree(es: seq<Entry>, fs: seq<Entry>, id: nat, dlc: Byte)
    requires multiset(es) == multiset(fs)
    ensures Mask(es, id, dlc) == Mask(fs, id, dlc)
    decreases |es|
  {
    hide XorPayload, EntryMask;
    if es == [] {
      assert |multiset(fs)| == 0;
    } else {
      var k := TakeOut(es, fs);
      MaskIsOrderFree(es[..|es| - 1], fs[..k] + fs[k + 1..], id, dlc);
      MaskSplit(fs, k, id, dlc);
    }
  }

  function AfterFrame(es: seq<Entry>, id: nat, dlc: Byte): (r: seq<Entry>)
    ensures |r| == |es| && forall i | 0 <= i < |r| :: r[i] == Next(es[i], id, dlc)
  {
    seq(|es|, i requires 0 <= i < |es| => Next(es[i], id, dlc))
  }

  lemma {:induction false} AfterFrameIsOrderFree(es: seq<Entry>, fs: seq<Entry>, id: nat, dlc: Byte)
    requires multiset(es) == multiset(fs)
    ensures multiset(AfterFrame(es, id, dlc)) == multiset(AfterFrame(fs, id, dlc))
    decreases |es|
  {
    hide Next;
    if es == [] {
      assert |multiset(fs)| == 0;
    } else {
      var k := TakeOut(es, fs);
      var last := |es| - 1;
      AfterFrameIsOrderFree(es[..last], fs[..k] + fs[k + 1..], id, dlc);
      var a, b, x := AfterFrame(es, id, dlc), AfterFrame(fs, id, dlc), Next(fs[k], id, dlc);
      assert a == AfterFrame(es[..last], id, dlc) + [x];
      assert b == b[..k] + ([x] + b[k + 1..]);
      assert b[..k] + b[k + 1..] == AfterFrame(fs[..k] + fs[k + 1..], id, dlc);
      assert multiset(b) == multiset(b[..k] + b[k + 1..]) + multiset{x};
    }
  }

  lemma VerdictByMembers(log: seq<Action>, other: seq<Action>)
    requires forall a :: a in log <==> a in other
    requires InsertionsOf(log) == InsertionsOf(other)
    ensures Verdict(log) == Verdict(other)
  {
    MaxDelayIsMax(log);
    MaxDelayIsMax(other);
    if MaxDelay(log) != 0 { assert Delay(MaxDelay(log)) in other; }
    if MaxDelay(other) != 0 { assert Delay(MaxDelay(other)) in log; }
  }

  ghost predicate EntryAsks(es: seq<Entry>, id: nat, dlc: Byte, a: Action) {
    exists e | e in es :: Applies(e, id, dlc) && RawAction(e.manipulation.strategy) == Some(a)
  }

  lemma AskedByEntries(ms: seq<RawManipulation>, latched: seq<bool>, id: nat, dlc: Byte, held: seq<bool>, a: Action)
    requires |ms| == |latched| == |held|
    requires forall i | 0 <= i < |held| :: held[i] == (!latched[i] && ChainHolds(ms[i].triggers, id, dlc))
    ensures RawAsked(ms, latched, held, a) <==> EntryAsks(Entries(ms, latched), id, dlc, a)
  {
    hide ChainHolds;
    var es := Entries(ms, latched);
    if RawAsked(ms, latched, held, a) {
      var i :| 0 <= i < |held| && Applied(latched, held, i) && RawAction(ms[i].strategy) == Some(a);
      assert es[i] in es && Applies(es[i], id, dlc);
    }
    if EntryAsks(es, id, dlc, a) {
      var e :| e in es && Applies(e, id, dlc) && RawAction(e.manipulation.strategy) == Some(a);
      var i :| 0 <= i < |es| && es[i] == e;
      assert Applied(latched, held, i);
    }
  }

  /** What one raw frame leads to, in terms of the entries alone. */
  lemma RawTraceByEntries(c: Setup, m: Memory, frame: RawCanMessage)
    requires Sending.Fits(c, m) && NoChance(c.raws)
    ensures var es := Entries(c.raws, m.rawLatched);
            var t := RawTrace(c, m, frame);
            && t.frame == frame.(data := XorPayload(frame.data, Mask(es, frame.messageId, frame.dlc)))
            && Entries(c.raws, t.after.rawLatched) == AfterFrame(es, frame.messageId, frame.dlc)
            && t.after.drawn == m.drawn
            && (forall a :: a in t.log <==> EntryAsks(es, frame.messageId, frame.dlc, a))
            && InsertionsOf(t.log) == []
  {
    hide RawRun, Mask, XorPayload, ChainHolds, EntryAsks, RawAsked, NoChance;
    var es, id, dlc := Entries(c.raws, m.rawLatched), frame.messageId, frame.dlc;
    var s := RawSt(frame.data, m.drawn, []);
    InjectionIsMask(c.raws, m.rawLatched, |c.raws|, id, dlc, c.draws, s);
    assert es[..|c.raws|] == es;
    var (t, held) := RawRun(c.raws, m.rawLatched, |c.raws|, id, dlc, c.draws, s);
    forall a
      ensures a in t.log <==> EntryAsks(es, id, dlc, a)
    {
      RawLogIsWhatFired(c.raws, m.rawLatched, |c.raws|, id, dlc, c.draws, s, a);
      AskedByEntries(c.raws, m.rawLatched, id, dlc, held, a);
    }
    RawLogIsWhatFired(c.raws, m.rawLatched, |c.raws|, id, dlc, c.draws, s, Drop);
    var after := RawTrace(c, m, frame).after.rawLatched;
    assert Entries(c.raws, after) == AfterFrame(es, id, dlc);
  }

  /** Permuted manipulations, with their latches, give the same bytes and the same verdict. */
  lemma InjectionIsOrderFree(c: Setup, m: Memory, c': Setup, m': Memory, frame: RawCanMessage)
    requires Sending.Fits(c, m) && Sending.Fits(c', m') && NoChance(c.raws) && NoChance(c'.raws)
    requires multiset(Entries(c.raws, m.rawLatched)) == multiset(Entries(c'.raws, m'.rawLatched))
    ensures var t, t' := RawTrace(c, m, frame), RawTrace(c', m', frame);
            && t.frame == t'.frame && Verdict(t.log) == Verdict(t'.log)
            && multiset(Entries(c.raws, t.after.rawLatched)) == multiset(Entries(c'.raws, t'.after.rawLatched))
  {
    hide RawTrace, Mask, XorPayload, EntryAsks, NoChance, AfterFrame;
    var es, es' := Entries(c.raws, m.rawLatched), Entries(c'.raws, m'.rawLatched);
    RawTraceByEntries(c, m, frame);
    RawTraceByEntries(c', m', frame);
    MaskIsOrderFree(es, es', frame.messageId, frame.dlc);
    AfterFrameIsOrderFree(es, es', frame.messageId, frame.dlc);
    forall a
      ensures EntryAsks(es, frame.messageId, frame.dlc, a) <==> EntryAsks(es', frame.messageId, frame.dlc, a)
    {
      AsksIsOrderFree(es, es', frame.messageId, frame.dlc, a);
    }
    VerdictByMembers(RawTrace(c, m, frame).log, RawTrace(c', m', frame).log);
  }

  lemma AsksIsOrderFree(es: seq<Entry>, fs: seq<Entry>, id: nat, dlc: Byte, a: Action)
    requires multiset(es) == multiset(fs)
    ensures EntryAsks(es, id, dlc, a) <==> EntryAsks(fs, id, dlc, a)
  {
    hide Applies;
    assert forall e :: e in es <==> e in multiset(es);
    assert forall e :: e in fs <==> e in multiset(fs);
  }

  /** A run of raw frames. */
  function RawTraces(c: Setup, m: Memory, frames: seq<RawCanMessage>): (r: seq<Trace>)
    requires Sending.Fits(c, m)
    ensures |r| == |frames|
    decreases |frames|
  {
    if frames == [] then []
    else
      var t := RawTrace(c, m, frames[0]);
      [t] + RawTraces(c, t.after, frames[1..])
  }

  predicate SameOutcome(t: Trace, t': Trace) {
    t.frame == t'.frame && Verdict(t.log) == Verdict(t'.log)
  }

  /** The order of the manipulations shows in no frame of a run. */
  lemma {:induction false} RunsAreOrderFree(c: Setup, m: Memory, c': Setup, m': Memory, frames: seq<RawCanMessage>)
    requires Sending.Fits(c, m) && Sending.Fits(c', m') && NoChance(c.raws) && NoChance(c'.raws)
    requires multiset(Entries(c.raws, m.rawLatched)) == multiset(Entries(c'.raws, m'.rawLatched))
    ensures forall i | 0 <= i < |frames| :: SameOutcome(RawTraces(c, m, frames)[i], RawTraces(c', m', frames)[i])
    decreases |frames|
  {
    hide NoChance, RawTrace, SameOutcome;
    if frames != [] {
      var t, t' := RawTrace(c, m, frames[0]), RawTrace(c', m', frames[0]);
      TraceFits(c, m, frames[0]);
      TraceFits(c', m', frames[0]);
      InjectionIsOrderFree(c, m, c', m', frames[0]);
      assert SameOutcome(t, t') by { Outcome(t, t'); }
      RunsAreOrderFree(c, t.after, c', t'.after, frames[1..]);
    }
  }

  lemma Outcome(t: Trace, t': Trace)
    requires t.frame == t'.frame && Verdict(t.log) == Verdict(t'.log)
    ensures SameOutcome(t, t')
  {
  }

  lemma {:induction false} MaskSurvivesFrame(es: seq<Entry>, id: nat, dlc: Byte)
    ensures Mask(AfterFrame(es, id, dlc), id, dlc) == Mask(es, id, dlc)
    decreases |es|
  {
    hide XorPayload, EffectsMask, Certain;
    if es != [] {
      var init, last := es[..|es| - 1], es[|es| - 1];
      MaskSurvivesFrame(init, id, dlc);
      var after := AfterFrame(es, id, dlc);
      assert after[..|es| - 1] == AfterFrame(init, id, dlc) && after[|es| - 1] == Next(last, id, dlc);
    }
  }

  /** Injecting twice restores the bytes, although latches may be set in between. */
  lemma InjectionIsSelfInverse(c: Setup, m: Memory, frame: RawCanMessage)
    requires Sending.Fits(c, m) && NoChance(c.raws)
    ensures var t := RawTrace(c, m, frame); RawTrace(c, t.after, t.frame).frame == frame
  {
    hide RawTrace, Mask, XorPayload, NoChance, EntryAsks, AfterFrame;
    RawTraceByEntries(c, m, frame);
    var t, mask := RawTrace(c, m, frame), Mask(Entries(c.raws, m.rawLatched), frame.messageId, frame.dlc);
    TraceFits(c, m, frame);
    RawTraceByEntries(c, t.after, t.frame);
    MaskSurvivesFrame(Entries(c.raws, m.rawLatched), frame.messageId, frame.dlc);
    XorPayloadLaws(frame.data, mask, mask);
    XorPayloadLaws(mask, ZERO, ZERO);
    XorPayloadLaws(frame.data, ZERO, ZERO);
  }

  lemma TraceFits(c: Setup, m: Memory, frame: RawCanMessage)
    requires Sending.Fits(c, m)
    ensures Sending.Fits(c, RawTrace(c, m, frame).after)
  {
    hide RawRun;
  }

  // ----- Latches over a run of raw frames, in terms of the frames alone

  ghost predicate HeldBefore(m: RawManipulation, frames: seq<RawCanMessage>, n: nat)
    requires n <= |frames|
  {
    exists j | 0 <= j < n :: ChainHolds(m.triggers, frames[j].messageId, frames[j].dlc)
  }

  function RawMemory(c: Setup, m: Memory, frames: seq<RawCanMessage>, n: nat): (r: Memory)
    requires Sending.Fits(c, m) && n <= |frames|
    ensures Sending.Fits(c, r)
  {
    if n == 0 then m else RawTrace(c, RawMemory(c, m, frames, n - 1), frames[n - 1]).after
  }

  /**
   A manipulation applies to frame n of a run exactly if its chain holds for that frame or it latches
   and its chain held for an earlier one.
   */
  lemma {:induction false} AppliesNowOrLatchedBefore(c: Setup, m: Memory, frames: seq<RawCanMessage>, n: nat, i: nat)
    requires Sending.Fits(c, m) && NoChance(c.raws) && i < |c.raws| && n <= |frames| && !m.rawLatched[i]
    ensures var e := Entry(c.raws[i], RawMemory(c, m, frames, n).rawLatched[i]);
            && (e.latched <==> c.raws[i].latch && HeldBefore(c.raws[i], frames, n))
            && (n < |frames| ==>
                  (Applies(e, frames[n].messageId, frames[n].dlc)
                   <==> ChainHolds(c.raws[i].triggers, frames[n].messageId, frames[n].dlc)
                        || (c.raws[i].latch && HeldBefore(c.raws[i], frames, n))))
  {
    hide RawTrace, ChainHolds, NoChance, EntryAsks, Mask;
    if n > 0 {
      AppliesNowOrLatchedBefore(c, m, frames, n - 1, i);
      var before, frame := RawMemory(c, m, frames, n - 1), frames[n - 1];
      RawTraceByEntries(c, before, frame);
      assert AfterFrame(Entries(c.raws, before.rawLatched), frame.messageId, frame.dlc)[i]
          == Next(Entry(c.raws[i], before.rawLatched[i]), frame.messageId, frame.dlc);
      assert Entries(c.raws, RawMemory(c, m, frames, n).rawLatched)[i].latched
             == RawMemory(c, m, frames, n).rawLatched[i];
    }
  }

  // ----- Nothing but latches carries over

  predicate CertainDbc(m: DbcManipulation) {
    (forall t | t in m.triggers :: !t.DbcChance?)
        && (m.strategy.DbcEffects? ==> forall e | e in m.strategy.effects :: !e.Noise?)
  }

  lemma {:induction false} CertainDbcChain(ts: seq<DbcTrigger>, values: seq<SignalValue>, draws: Oracle, drawn: nat,
                                           other: nat)
    requires forall t | t in ts :: !t.DbcChance?
    ensures DbcChain(ts, values, draws, drawn).1 == drawn
    ensures DbcChain(ts, values, draws, other) == (DbcChain(ts, values, draws, drawn).0, other)
  {
    hide Find;
    if ts != [] {
      assert ts[0] in ts;
      CertainDbcChain(ts[1..], values, draws, drawn, other);
    }
  }

  lemma {:induction false} CertainDbcEffects(es: seq<DbcEffect>, values: seq<SignalValue>, draws: Oracle, drawn: nat,
                                             other: nat)
    requires forall e | e in es :: !e.Noise?
    ensures DbcEffectsOn(es, values, draws, drawn).1 == drawn
    ensures DbcEffectsOn(es, values, draws, other) == (DbcEffectsOn(es, values, draws, drawn).0, other)
  {
    hide Find;
    if es != [] {
      assert es[0] in es;
      CertainDbcEffects(es[1..], DbcEffectOn(es[0], values, draws, drawn).0, draws, drawn, other);
    }
  }

  lemma CertainDbcTurn(m: DbcManipulation, latched: bool, draws: Oracle, s: DbcSt, other: nat)
    requires CertainDbc(m)
    ensures var (t, h) := DbcTurn(m, latched, draws, s);
            t.drawn == s.drawn && DbcTurn(m, latched, draws, s.(drawn := other)) == (t.(drawn := other), h)
  {
    hide DbcChain, DbcEffectsOn;
    CertainDbcChain(m.triggers, s.message.signalValues, draws, s.drawn, other);
    if m.strategy.DbcEffects? { CertainDbcEffects(m.strategy.effects, s.message.signalValues, draws, s.drawn, other); }
  }

  lemma {:induction false} DbcRunIgnoresDraws(ms: seq<DbcManipulation>, latched: seq<bool>, n: nat, draws: Oracle,
                                              s: DbcSt, other: nat)
    requires n <= |ms| == |latched| && forall m | m in ms :: CertainDbc(m)
    ensures var (t, held) := DbcRun(ms, latched, n, draws, s);
            t.drawn == s.drawn && DbcRun(ms, latched, n, draws, s.(drawn := other)) == (t.(drawn := other), held)
  {
    hide DbcTurn, CertainDbc;
    if n > 0 {
      DbcRunIgnoresDraws(ms, latched, n - 1, draws, s, other);
      CertainDbcTurn(ms[n - 1], latched[n - 1], draws, DbcRun(ms, latched, n - 1, draws, s).0, other);
    }
  }

  lemma CertainRawTurn(m: RawManipulation, latched: bool, id: nat, dlc: Byte, draws: Oracle, s: RawSt, other: nat)
    requires Certain(m)
    ensures var (t, h) := RawTurn(m, latched, id, dlc, draws, s);
            t.drawn == s.drawn && RawTurn(m, latched, id, dlc, draws, s.(drawn := other)) == (t.(drawn := other), h)
  {
    hide RawChain, RawEffectsOn, ChainHolds, XorPayload, EffectsMask;
    CertainChain(m.triggers, id, dlc, draws, s.drawn);
    CertainChain(m.triggers, id, dlc, draws, other);
    if m.strategy.RawEffects? {
      CertainEffects(m.strategy.effects, s.data, draws, s.drawn);
      CertainEffects(m.strategy.effects, s.data, draws, other);
    }
  }

  lemma {:induction false} RawRunIgnoresDraws(ms: seq<RawManipulation>, latched: seq<bool>, n: nat, id: nat, dlc: Byte,
                                              draws: Oracle, s: RawSt, other: nat)
    requires n <= |ms| == |latched| && NoChance(ms)
    ensures var (t, held) := RawRun(ms, latched, n, id, dlc, draws, s);
            t.drawn == s.drawn && RawRun(ms, latched, n, id, dlc, draws, s.(drawn := other))
                == (t.(drawn := other), held)
  {
    hide RawTurn, Certain;
    if n > 0 {
      RawRunIgnoresDraws(ms, latched, n - 1, id, dlc, draws, s, other);
      CertainRawTurn(ms[n - 1], latched[n - 1], id, dlc, draws, RawRun(ms, latched, n - 1, id, dlc, draws, s).0, other);
    }
  }

  /**
   Without chance, what happens to a message depends on the message and the latches alone: of everything
   else that earlier frames left behind, only the number of draws could differ, and it shows nowhere.
   */
  lemma OnlyLatchesCarryOver(c: Setup, m: Memory, other: nat, message: DbcCanMessage, encode: Encoder)
    requires Sending.Fits(c, m) && NoChance(c.raws) && forall d | d in c.dbcs :: CertainDbc(d)
    ensures var t := DbcTrace(c, m, message, encode);
            && t.after.drawn == m.drawn
            && DbcTrace(c, m.(drawn := other), message, encode) == t.(after := t.after.(drawn := other))
  {
    hide DbcRun, RawRun, NoChance, CertainDbc, Latches;
    DbcRunIgnoresDraws(c.dbcs, m.dbcLatched, |c.dbcs|, c.draws, DbcSt(message, m.drawn, []), other);
    var s := DbcRun(c.dbcs, m.dbcLatched, |c.dbcs|, c.draws, DbcSt(message, m.drawn, [])).0;
    var frame := encode(s.message);
    RawRunIgnoresDraws(c.raws, m.rawLatched, |c.raws|, frame.messageId, frame.dlc, c.draws,
                       RawSt(frame.data, s.drawn, s.log), other);
  }
}
