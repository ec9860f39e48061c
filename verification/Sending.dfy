/**
 Turning messages into scheduled frames: the callback of repeated sending
 (src/sending/sending_component.cpp:394-456, src/sending/sending_functions.hpp:60-77), and what the
 manipulations do over a whole run of frames.

 `encode` stands for the encoding event that the DBC codec answers.
 */
module Sending {
  import opened Bits
  import opened CanTypes
  import opened Manipulation

  type Encoder = DbcCanMessage -> RawCanMessage

  datatype ScheduledItem = ScheduledItem(scheduledAt: int, message: RawCanMessage)

  /** The fixed part of a handler. */
  datatype Setup = Setup(raws: seq<RawManipulation>, dbcs: seq<DbcManipulation>, draws: Oracle)

  /** All that a handler carries from one frame to the next. */
  datatype Memory = Memory(rawLatched: seq<bool>, dbcLatched: seq<bool>, drawn: nat)

  predicate Fits(c: Setup, m: Memory) {
    |m.rawLatched| == |c.raws| && |m.dbcLatched| == |c.dbcs|
  }

  /** What happened to one message: which chains held, the frame, the verdict, and the memory left. */
  datatype Trace = Trace(dbcHeld: seq<bool>, rawHeld: seq<bool>, frame: RawCanMessage, log: seq<Action>, after: Memory)

  function RawStage(c: Setup, m: Memory, dbcLatched: seq<bool>, dbcHeld: seq<bool>, frame: RawCanMessage, drawn: nat,
                    log: seq<Action>): Trace
    requires |m.rawLatched| == |c.raws|
  {
    var (s, rawHeld) := RawRun(c.raws, m.rawLatched, |c.raws|, frame.messageId, frame.dlc, c.draws,
                               RawSt(frame.data, drawn, log));
    Trace(dbcHeld, rawHeld, frame.(data := s.data), s.log,
          Memory(Latches(m.rawLatched, RawLatch(c.raws), rawHeld), dbcLatched, s.drawn))
  }

  function RawTrace(c: Setup, m: Memory, frame: RawCanMessage): Trace
    requires Fits(c, m)
  {
    RawStage(c, m, m.dbcLatched, [], frame, m.drawn, [])
  }

  function DbcTrace(c: Setup, m: Memory, message: DbcCanMessage, encode: Encoder): Trace
    requires Fits(c, m)
  {
    var (s, dbcHeld) := DbcRun(c.dbcs, m.dbcLatched, |c.dbcs|, c.draws, DbcSt(message, m.drawn, []));
    RawStage(c, m, Latches(m.dbcLatched, DbcLatch(c.dbcs), dbcHeld), dbcHeld, encode(s.message), s.drawn, s.log)
  }

  function InsertionItems(insertions: seq<PendingInsertion>, encode: Encoder, start: int): (r: seq<ScheduledItem>)
    ensures |r| == |insertions|
    ensures forall i | 0 <= i < |r| ::
              r[i] == ScheduledItem(start + insertions[i].delayOffset, encode(insertions[i].message))
  {
    seq(|insertions|, i requires 0 <= i < |insertions| => ScheduledItem(start + insertions[i].delayOffset,
          encode(insertions[i].message)))
  }

  /** The insertions in firing order, then the frame itself unless it was dropped. */
  function Items(verdict: FrameResult, frame: RawCanMessage, encode: Encoder, deadline: int): seq<ScheduledItem> {
    InsertionItems(verdict.insertions, encode, deadline + verdict.delayOffset)
    + if verdict.drop then [] else [ScheduledItem(deadline + verdict.delayOffset, frame)]
  }

  ghost predicate Represents(h: ManipulationHandler, c: Setup, m: Memory)
    reads h
  {
    && h.Valid() && h.log == [] && c == Setup(h.rawManipulations, h.dbcManipulations, h.draws)
    && m == Memory(h.rawLatched, h.dbcLatched, h.drawn)
  }

  method BuildInsertionItems(insertions: seq<PendingInsertion>, encode: Encoder, start: int)
    returns (items: seq<ScheduledItem>)
    ensures items == InsertionItems(insertions, encode, start)
  {
    items := [];
    for i := 0 to |insertions|
      invariant items == InsertionItems(insertions[..i], encode, start)
    {
      items := items + [ScheduledItem(start + insertions[i].delayOffset, encode(insertions[i].message))];
    }
    assert insertions[..|insertions|] == insertions;
  }

  /** The verdict on a frame whose manipulations have been applied, and the items that it leads to. */
  method Schedule(handler: ManipulationHandler, frame: RawCanMessage, encode: Encoder, deadline: int)
    returns (items: seq<ScheduledItem>)
    requires handler.Valid()
    modifies handler`frameDrop, handler`frameMaxDelayUs, handler`frameInsertions, handler`log
    ensures handler.Valid() && handler.log == [] && items == Items(Verdict(old(handler.log)), frame, encode, deadline)
  {
    var result := handler.Evaluate();
    items := BuildInsertionItems(result.insertions, encode, deadline + result.delayOffset);
    if result.drop { return; }
    items := items + [ScheduledItem(deadline + result.delayOffset, frame)];
  }

  /** inject() on the bytes of a frame. */
  method InjectFrame(handler: ManipulationHandler, frame: RawCanMessage) returns (changed: RawCanMessage)
    requires handler.Valid()
    modifies handler`drawn, handler`frameDrop, handler`frameMaxDelayUs, handler`log, handler`rawLatched
    ensures handler.Valid()
    ensures var run := RawRun(handler.rawManipulations, old(handler.rawLatched), |handler.rawManipulations|,
                              frame.messageId, frame.dlc,
                              handler.draws, RawSt(frame.data, old(handler.drawn), old(handler.log)));
            changed == frame.(data := run.0.data) && handler.drawn == run.0.drawn && handler.log == run.0.log
            && handler.rawLatched == Latches(old(handler.rawLatched), RawLatch(handler.rawManipulations), run.1)
  {
    hide RawRun, Latches, Verdict;
    var data := new Byte[8](i requires 0 <= i < 8 => frame.data[i]);
    assert data[..] == frame.data;
    handler.InjectRaw(frame.messageId, frame.dlc, data);
    changed := frame.(data := data[..]);
  }

  method SendRaw(handler: ManipulationHandler?, frame: RawCanMessage, encode: Encoder, deadline: int, ghost c: Setup,
                 ghost m: Memory)
    returns (items: seq<ScheduledItem>)
    requires handler != null ==> Represents(handler, c, m)
    modifies handler
    ensures handler == null ==> items == [ScheduledItem(deadline, frame)]
    ensures handler != null ==>
              var t := RawTrace(c, m, frame);
              Represents(handler, c, t.after) && items == Items(Verdict(t.log), t.frame, encode, deadline)
  {
    hide RawRun, Latches, Verdict, Items;
    if handler == null { return [ScheduledItem(deadline, frame)]; }
    var changed := InjectFrame(handler, frame);
    items := Schedule(handler, changed, encode, deadline);
  }

  method SendDbc(handler: ManipulationHandler?, message: DbcCanMessage, encode: Encoder, deadline: int, ghost c: Setup,
                 ghost m: Memory)
    returns (items: seq<ScheduledItem>)
    requires handler != null ==> Represents(handler, c, m)
    modifies handler
    ensures handler == null ==> items == [ScheduledItem(deadline, encode(message))]
    ensures handler != null ==>
              var t := DbcTrace(c, m, message, encode);
              Represents(handler, c, t.after) && items == Items(Verdict(t.log), t.frame, encode, deadline)
  {
    hide RawRun, DbcRun, Latches, Verdict, Items;
    if handler == null { return [ScheduledItem(deadline, encode(message))]; }
    var changed := handler.InjectDbc(message);
    var frame := InjectFrame(handler, encode(changed));
    items := Schedule(handler, frame, encode, deadline);
  }

  // ----- Runs

  /** The memory after the first n messages of a run. */
  function MemoryAfter(c: Setup, m: Memory, messages: seq<DbcCanMessage>, encode: Encoder, n: nat): (r: Memory)
    requires Fits(c, m) && n <= |messages|
    ensures Fits(c, r)
  {
    if n == 0 then m else DbcTrace(c, MemoryAfter(c, m, messages, encode, n - 1), messages[n - 1], encode).after
  }

  function TraceAt(c: Setup, m: Memory, messages: seq<DbcCanMessage>, encode: Encoder, n: nat): Trace
    requires Fits(c, m) && n < |messages|
  {
    DbcTrace(c, MemoryAfter(c, m, messages, encode, n), messages[n], encode)
  }

  function RunItems(c: Setup, m: Memory, messages: seq<DbcCanMessage>, encode: Encoder, deadline: int,
                    n: nat): seq<ScheduledItem>
    requires Fits(c, m) && n <= |messages|
  {
    if n == 0 then []
    else
      var t := TraceAt(c, m, messages, encode, n - 1);
      RunItems(c, m, messages, encode, deadline, n - 1) + Items(Verdict(t.log), t.frame, encode, deadline)
  }

  /** The callback of repeated sending over the cached DBC messages. */
  method CreateItems(handler: ManipulationHandler?, messages: seq<DbcCanMessage>, encode: Encoder, deadline: int,
                     ghost c: Setup, ghost m: Memory)
    returns (items: seq<ScheduledItem>)
    requires handler != null ==> Represents(handler, c, m)
    modifies handler
    ensures handler == null ==>
              items == seq(|messages|, i requires 0 <= i < |messages| => ScheduledItem(deadline, encode(messages[i])))
    ensures handler != null ==>
              && Represents(handler, c, MemoryAfter(c, m, messages, encode, |messages|))
              && items == RunItems(c, m, messages, encode, deadline, |messages|)
  {
    hide DbcTrace, Items, Verdict;
    items := [];
    for i := 0 to |messages|
      invariant handler == null ==>
                  items == seq(i, k requires 0 <= k < i => ScheduledItem(deadline, encode(messages[k])))
      invariant handler != null ==>
                  && Represents(handler, c, MemoryAfter(c, m, messages, encode, i))
                  && items == RunItems(c, m, messages, encode, deadline, i)
    {
      var more := SendDbc(handler, messages[i], encode, deadline, c, if handler == null then m
                          else MemoryAfter(c, m, messages, encode, i));
      items := items + more;
    }
  }

  // ----- Latches over a run

  ghost predicate DbcHeldBefore(c: Setup, m: Memory, messages: seq<DbcCanMessage>, encode: Encoder, n: nat, i: nat)
    requires Fits(c, m) && n <= |messages| && i < |c.dbcs|
  {
    exists j | 0 <= j < n :: DbcHeldAt(c, m, messages, encode, j, i)
  }

  /** The chain of manipulation i was evaluated for message j and held. */
  predicate DbcHeldAt(c: Setup, m: Memory, messages: seq<DbcCanMessage>, encode: Encoder, j: nat, i: nat)
    requires Fits(c, m) && j < |messages| && i < |c.dbcs|
  {
    TraceAt(c, m, messages, encode, j).dbcHeld[i]
  }

  predicate RawHeldAt(c: Setup, m: Memory, messages: seq<DbcCanMessage>, encode: Encoder, j: nat, i: nat)
    requires Fits(c, m) && j < |messages| && i < |c.raws|
  {
    TraceAt(c, m, messages, encode, j).rawHeld[i]
  }

  ghost predicate RawHeldBefore(c: Setup, m: Memory, messages: seq<DbcCanMessage>, encode: Encoder, n: nat, i: nat)
    requires Fits(c, m) && n <= |messages| && i < |c.raws|
  {
    exists j | 0 <= j < n :: RawHeldAt(c, m, messages, encode, j, i)
  }

  /** A manipulation is latched exactly if it can be and its chain held for an earlier message. */
  lemma {:induction false} LatchedIffHeldBefore(c: Setup, m: Memory, messages: seq<DbcCanMessage>, encode: Encoder,
                                                n: nat)
    requires Fits(c, m) && n <= |messages|
    ensures var after := MemoryAfter(c, m, messages, encode, n);
            && (forall i | 0 <= i < |c.raws| ::
                  after.rawLatched[i] <==>
                    m.rawLatched[i] || (c.raws[i].latch && RawHeldBefore(c, m, messages, encode, n, i)))
            && (forall i | 0 <= i < |c.dbcs| ::
                  after.dbcLatched[i] <==>
                    m.dbcLatched[i] || (c.dbcs[i].latch && DbcHeldBefore(c, m, messages, encode, n, i)))
  {
    hide RawRun, DbcRun;
    if n > 0 {
      LatchedIffHeldBefore(c, m, messages, encode, n - 1);
      forall i | 0 <= i < |c.raws|
        ensures RawHeldBefore(c, m, messages, encode, n, i)
                <==> RawHeldBefore(c, m, messages, encode, n - 1, i) || RawHeldAt(c, m, messages, encode, n - 1, i)
      {
      }
      forall i | 0 <= i < |c.dbcs|
        ensures DbcHeldBefore(c, m, messages, encode, n, i)
                <==> DbcHeldBefore(c, m, messages, encode, n - 1, i) || DbcHeldAt(c, m, messages, encode, n - 1, i)
      {
      }
    }
  }
}
