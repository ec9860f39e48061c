/**
 The logging worker (src/logging/worker/logging_worker.cpp): a thread that drains the ring into a
 writer, with a producer posting and any thread asking it to stop, in every interleaving.
 */
module LoggingWorker {
  import opened Bits
  import opened CanTypes
  import opened SpscRing

  /** Where the worker stands inside run. */
  datatype Pc = TestStop | InnerPop | InnerWrite | FlushCheck | Sleep | FinalPop | FinalWrite | Closing | Done

  datatype WriterCall<T> = Write(item: T) | Flush | Close

  /**
   `calls` is what the writer has received; `postedAtStop` counts the pushes completed when m_stop was first stored.
   */
  datatype Worker<T> = Worker(
    ring: Ring<T>, pc: Pc, item: Option<T>, calls: seq<WriterCall<T>>, stop: bool, postedAtStop: nat)

  ghost predicate WorkerInit<T>(s: Worker<T>) {
    Init(s.ring) && s.pc == TestStop && s.item == None && s.calls == [] && !s.stop && s.postedAtStop == 0
  }

  /** post: the result of push is ignored. */
  ghost predicate PostStep<T(!new)>(s: Worker<T>, t: Worker<T>) {
    (exists r :: ProducerStep(s.ring, t.ring, r)) && t == s.(ring := t.ring)
  }

  ghost predicate StopStep<T>(s: Worker<T>, t: Worker<T>) {
    t == s.(stop := true, postedAtStop := if s.stop then s.postedAtStop else |s.ring.pushed|)
  }

  /** One action of a pop; what follows depends on whether it delivered an item. */
  ghost predicate PopStep<T(!new)>(s: Worker<T>, t: Worker<T>, taken: Pc, empty: Pc) {
    exists r :: ConsumerStep(s.ring, t.ring, r)
             && match r
                case NoPop => t == s.(ring := t.ring)
                case Took(v) => t == s.(ring := t.ring, item := Some(v), pc := taken)
                case Nothing => t == s.(ring := t.ring, pc := empty)
  }

  ghost predicate RunStep<T(!new)>(s: Worker<T>, t: Worker<T>) {
    match s.pc
    case TestStop => t == s.(pc := if s.stop then FinalPop else InnerPop)
    case InnerPop => PopStep(s, t, InnerWrite, FlushCheck)
    case InnerWrite => s.item.Some? && t == s.(calls := s.calls + [Write(s.item.value)], item := None, pc := InnerPop)
    case FlushCheck => t == s.(pc := Sleep) || t == s.(calls := s.calls + [Flush], pc := Sleep)
    case Sleep => t == s.(pc := TestStop)
    case FinalPop => PopStep(s, t, FinalWrite, Closing)
    case FinalWrite => s.item.Some? && t == s.(calls := s.calls + [Write(s.item.value)], item := None, pc := FinalPop)
    case Closing => t == s.(calls := s.calls + [Close], pc := Done)
    case Done => false
  }

  ghost predicate WorkerStep<T(!new)>(s: Worker<T>, t: Worker<T>) {
    PostStep(s, t) || StopStep(s, t) || RunStep(s, t)
  }

  /** The items that the writer has received. */
  function Written<T>(calls: seq<WriterCall<T>>): seq<T> {
    if calls == [] then []
    else Written(calls[..|calls| - 1]) + if calls[|calls| - 1].Write? then [calls[|calls| - 1].item] else []
  }

  lemma WrittenAppend<T>(calls: seq<WriterCall<T>>, c: WriterCall<T>)
    ensures Written(calls + [c]) == Written(calls) + if c.Write? then [c.item] else []
  {
    assert (calls + [c])[..|calls|] == calls;
  }

  ghost predicate WorkerInv<T>(s: Worker<T>) {
    && Inv(s.ring)
    && (s.item.Some? <==> s.pc == InnerWrite || s.pc == FinalWrite)
    && s.ring.popped == Written(s.calls) + (if s.item.Some? then [s.item.value] else [])
    && (s.pc != InnerPop && s.pc != FinalPop ==> s.ring.consumer == Waiting)
    && (s.pc == FinalPop || s.pc == FinalWrite || s.pc == Closing || s.pc == Done ==> s.stop)
    && (s.stop ==> s.postedAtStop <= |s.ring.pushed|)
    && (s.pc == Closing || s.pc == Done ==> s.postedAtStop <= |s.ring.popped|)
    && ClosedLast(s)
  }

  /** close has been called exactly when the worker is done, and nothing follows it. */
  ghost predicate ClosedLast<T>(s: Worker<T>) {
    && (forall i | 0 <= i < |s.calls| :: s.calls[i].Close? ==> i == |s.calls| - 1)
    && (s.pc == Done <==> s.calls != [] && s.calls[|s.calls| - 1].Close?)
  }

  /** What a consumer action leaves behind, depending on what the pop returns. */
  lemma ConsumerResult<T(!new)>(s: Ring<T>, t: Ring<T>, r: PopResult<T>)
    requires Inv(s) && ConsumerStep(s, t, r)
    ensures Inv(t) && t.pushed == s.pushed
    ensures match r
            case NoPop => t.popped == s.popped
            case Took(v) => t.popped == s.popped + [v] && t.consumer == Waiting
            case Nothing => t.popped == s.popped == s.pushed && t.consumer == Waiting
  {
    hide Inv, Next;
    ConsumerKeepsInv(s, t, r);
  }

  lemma PopKeepsInv<T(!new)>(s: Worker<T>, t: Worker<T>, taken: Pc, empty: Pc)
    requires WorkerInv(s) && PopStep(s, t, taken, empty)
    requires (s.pc == InnerPop && taken == InnerWrite && empty == FlushCheck)
             || (s.pc == FinalPop && taken == FinalWrite && empty == Closing)
    ensures WorkerInv(t)
  {
    hide Inv, Written, ConsumerStep;
    var r :| ConsumerStep(s.ring, t.ring, r)
          && match r
             case NoPop => t == s.(ring := t.ring)
             case Took(v) => t == s.(ring := t.ring, item := Some(v), pc := taken)
             case Nothing => t == s.(ring := t.ring, pc := empty);
    ConsumerResult(s.ring, t.ring, r);
    assert Written(s.calls) + [] == Written(s.calls);
  }

  lemma StepKeepsInv<T(!new)>(s: Worker<T>, t: Worker<T>)
    requires WorkerInv(s) && WorkerStep(s, t)
    ensures WorkerInv(t)
    ensures s.ring.pushed <= t.ring.pushed && s.calls <= t.calls
  {
    hide Inv, Written, ConsumerStep, ProducerStep;
    if PostStep(s, t) {
      var r :| ProducerStep(s.ring, t.ring, r);
      ProducerKeepsInv(s.ring, t.ring, r);
      ProducerLeavesConsumer(s.ring, t.ring, r);
    } else if StopStep(s, t) {
    } else {
      match s.pc
      case InnerPop =>
        PopKeepsInv(s, t, InnerWrite, FlushCheck);
        PopLeavesPushed(s, t, InnerWrite, FlushCheck);
      case FinalPop =>
        PopKeepsInv(s, t, FinalWrite, Closing);
        PopLeavesPushed(s, t, FinalWrite, Closing);
      case InnerWrite => WrittenAppend(s.calls, Write(s.item.value));
      case FinalWrite => WrittenAppend(s.calls, Write(s.item.value));
      case FlushCheck => WrittenAppend(s.calls, Flush);
      case Closing => WrittenAppend(s.calls, Close);
      case _ =>
    }
  }

  lemma ProducerLeavesConsumer<T(!new)>(s: Ring<T>, t: Ring<T>, r: PushResult)
    requires ProducerStep(s, t, r)
    ensures t.consumer == s.consumer && t.popped == s.popped && s.pushed <= t.pushed
  {
  }

  lemma PopLeavesPushed<T(!new)>(s: Worker<T>, t: Worker<T>, taken: Pc, empty: Pc)
    requires PopStep(s, t, taken, empty)
    ensures t.ring.pushed == s.ring.pushed && t.calls == s.calls
  {
  }

  ghost predicate IsWorkerRun<T(!new)>(states: seq<Worker<T>>) {
    |states| > 0 && WorkerInit(states[0]) && forall i | 0 <= i < |states| - 1 :: WorkerStep(states[i], states[i + 1])
  }

  lemma {:induction false} InvInWorkerRun<T(!new)>(states: seq<Worker<T>>, i: nat)
    requires IsWorkerRun(states) && i < |states|
    ensures WorkerInv(states[i])
  {
    hide WorkerStep, WorkerInv;
    if i == 0 {
      WorkerStarts(states[0]);
    } else {
      InvInWorkerRun(states, i - 1);
      assert WorkerStep(states[i - 1], states[i - 1 + 1]);
      StepKeepsInv(states[i - 1], states[i]);
    }
  }

  lemma WorkerStarts<T>(s: Worker<T>)
    requires WorkerInit(s)
    ensures WorkerInv(s)
  {
    InitInv(s.ring);
  }

  /** The arguments of the posts that the ring accepted are what the consumer can see. */
  lemma AcceptedIsPushed<T(!new)>(s: Ring<T>)
    requires Inv(s)
    ensures |s.results| <= |s.args| && AcceptedArgs(s.args, s.results) == s.pushed
  {
  }

  /** What the writer has received is always a prefix of the messages whose post the ring accepted, in order. */
  lemma WriterSeesPrefix<T(!new)>(states: seq<Worker<T>>, i: nat)
    requires IsWorkerRun(states) && i < |states|
    ensures var r := states[i].ring;
            && |r.results| <= |r.args|
            && Written(states[i].calls) <= AcceptedArgs(r.args, r.results) == r.pushed
  {
    hide Written, Next, IsWorkerRun;
    InvInWorkerRun(states, i);
    var s := states[i];
    AcceptedIsPushed(s.ring);
    assert Written(s.calls) == s.ring.popped[..|Written(s.calls)|];
  }

  /**
   The drain loses nothing: when the worker is done, the message of every push that was completed with
   success before m_stop was stored has been written, close is the last call, and it is the only one.
   */
  lemma DrainIsComplete<T(!new)>(states: seq<Worker<T>>, i: nat)
    requires IsWorkerRun(states) && i < |states| && states[i].pc == Done
    ensures var s := states[i];
            && |s.ring.results| <= |s.ring.args|
            && var accepted := AcceptedArgs(s.ring.args, s.ring.results);
            && s.stop && s.postedAtStop <= |Written(s.calls)| && Written(s.calls) <= accepted
            && accepted[..s.postedAtStop] == Written(s.calls)[..s.postedAtStop]
            && s.calls != [] && s.calls[|s.calls| - 1] == Close
            && forall j | 0 <= j < |s.calls| - 1 :: !s.calls[j].Close?
  {
    hide Written, Next, IsWorkerRun;
    InvInWorkerRun(states, i);
    WriterSeesPrefix(states, i);
    var s := states[i];
    assert s.ring.popped == Written(s.calls) + [] == Written(s.calls);
  }

  /** The recorded count is the number of pushes completed in the state where m_stop is first stored. */
  lemma StopRecordsPushes<T(!new)>(s: Worker<T>, t: Worker<T>)
    requires WorkerStep(s, t) && !s.stop && t.stop
    ensures t.postedAtStop == |s.ring.pushed| && t.ring == s.ring
    ensures WorkerInv(s) ==>
              |s.ring.results| <= |s.ring.args| && s.ring.pushed == AcceptedArgs(s.ring.args, s.ring.results)
  {
    hide AcceptedArgs;
  }

  lemma {:induction false} StopCountIsKept<T(!new)>(states: seq<Worker<T>>, i: nat, j: nat)
    requires IsWorkerRun(states) && i <= j < |states| && states[i].stop
    ensures states[j].stop && states[j].postedAtStop == states[i].postedAtStop
    decreases j
  {
    if i < j {
      StopCountIsKept(states, i, j - 1);
      assert WorkerStep(states[j - 1], states[j - 1 + 1]);
    }
  }
}
