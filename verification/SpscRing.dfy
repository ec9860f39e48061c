/**
 The single-producer / single-consumer ring (src/core/util/spsc_ring.hpp).

 The class is the ring as one thread sees it.  The state machine below it interleaves the atomic
 actions of one push and one pop in every order, under sequential consistency.
 */
module SpscRing {
  import opened Bits
  import opened CanTypes

  /** Masking with 2^k - 1 is reduction modulo 2^k. */
  lemma MaskIsModulo(x: nat, k: nat)
    ensures And(x, Pow2(k) - 1) == x % Pow2(k)
  {
    hide Bit, And, Low, Pow2;
    var a := And(x, Pow2(k) - 1);
    forall i | 0 <= i < k
      ensures Bit(a, i) == Bit(x, i)
    {
      BitAnd(x, Pow2(k) - 1, i);
      BitAllOnes(k, i);
    }
    LowByBits(a, x, k);
    LowFixed(a, k);
    LowIsModulo(x, k);
  }

  lemma Successor(i: nat, k: nat)
    requires i < Pow2(k)
    ensures And(i + 1, Pow2(k) - 1) == if i + 1 == Pow2(k) then 0 else i + 1
  {
    hide And, Pow2;
    MaskIsModulo(i + 1, k);
    if i + 1 == Pow2(k) {
      DivModUnique(i + 1, Pow2(k), 1, 0);
    } else {
      DivModUnique(i + 1, Pow2(k), 0, i + 1);
    }
  }

  class SpscRing<T(0)> {
    const k: nat
    const ring: array<T>
    var head: nat
    var tail: nat

    function Size(): nat {
      Pow2(k)
    }

    ghost predicate Valid()
      reads this, ring
    {
      ring.Length == Size() && head < Size() && tail < Size()
    }

    /** The queued items, oldest first. */
    ghost function Contents(): seq<T>
      requires Valid()
      reads this, ring
    {
      if tail <= head then ring[tail..head] else ring[tail..] + ring[..head]
    }

    constructor (exponent: nat)
      ensures Valid() && fresh(ring) && k == exponent && Contents() == []
    {
      k := exponent;
      ring := new T[Pow2(exponent)];
      head, tail := 0, 0;
    }

    /** Refuses the item when N - 1 items are queued. */
    method Push(val: T) returns (ok: bool)
      requires Valid()
      modifies this, ring
      ensures Valid()
      ensures ok == (|old(Contents())| < Size() - 1)
      ensures Contents() == if ok then old(Contents()) + [val] else old(Contents())
    {
      hide And, Pow2;
      Successor(head, k);
      var next := And(head + 1, Size() - 1);
      if next == tail {
        return false;
      }
      ring[head] := val;
      head := next;
      ok := true;
    }

    /** Leaves `current` in place when the ring is empty. */
    method Pop(current: T) returns (ok: bool, val: T)
      requires Valid()
      modifies `tail
      ensures Valid()
      ensures ok == (old(Contents()) != [])
      ensures if ok then old(Contents()) == [val] + Contents() else Contents() == old(Contents()) && val == current
    {
      hide And, Pow2;
      val := current;
      if tail == head {
        return false, val;
      }
      val := ring[tail];
      Successor(tail, k);
      assert if tail < head then ring[tail..head] == [val] + ring[tail + 1..head]
             else ring[tail..] + ring[..head] == [val] + (ring[tail + 1..] + ring[..head]);
      tail := And(tail + 1, Size() - 1);
      assert tail == 0 ==> ring[..head] == ring[tail..head];
      ok := true;
    }

    method Empty() returns (r: bool)
      requires Valid()
      ensures r == (Contents() == [])
    {
      r := tail == head;
    }
  }

  // ----- Interleavings

  /** Where the producer stands inside push. */
  datatype Producer<T> =
    | Idle
    | HeadLoaded(head: nat, val: T)
    | Writing(head: nat, next: nat, val: T)
    | Publishing(head: nat, next: nat, val: T)

  /** Where the consumer stands inside pop. */
  datatype Consumer<T> =
    | Waiting
    | TailLoaded(tail: nat)
    | Reading(tail: nat)
    | Releasing(tail: nat, val: T)

  /**
   The histories: `args` holds the argument of every push that has begun, `results` what the ended pushes
   returned, `pushed` the items that became visible to the consumer, `popped` the items that the pops delivered.
   */
  datatype Ring<T> = Ring(
    k: nat, slots: seq<T>, head: nat, tail: nat, producer: Producer<T>, consumer: Consumer<T>,
    args: seq<T>, results: seq<bool>, pushed: seq<T>, popped: seq<T>)

  /** The arguments of the pushes that returned true. */
  function AcceptedArgs<T>(args: seq<T>, results: seq<bool>): seq<T>
    requires |results| <= |args|
  {
    if results == [] then []
    else
      var n := |results| - 1;
      AcceptedArgs(args, results[..n]) + if results[n] then [args[n]] else []
  }

  function Next(k: nat, i: nat): nat {
    And(i + 1, Pow2(k) - 1)
  }

  ghost predicate Init<T>(s: Ring<T>) {
    |s.slots| == Pow2(s.k) && s.head == s.tail == 0 && s.producer == Idle && s.consumer == Waiting
    && s.args == s.pushed == s.popped == [] && s.results == []
  }

  datatype PushResult = NoPush | Accepted | Refused
  datatype PopResult<T> = NoPop | Took(val: T) | Nothing

  /** One atomic action of the producer; `result` is what push returns if the action ends it. */
  ghost predicate ProducerStep<T(!new)>(s: Ring<T>, t: Ring<T>, result: PushResult) {
    match s.producer
    case Idle =>
      result == NoPush && exists val :: t == s.(producer := HeadLoaded(s.head, val), args := s.args + [val])
    case HeadLoaded(head, val) =>
      if Next(s.k, head) == s.tail then result == Refused && t == s.(producer := Idle, results := s.results + [false])
      else result == NoPush && t == s.(producer := Writing(head, Next(s.k, head), val))
    case Writing(head, next, val) =>
      result == NoPush && head < |s.slots|
          && t == s.(slots := s.slots[head := val], producer := Publishing(head, next, val))
    case Publishing(head, next, val) =>
      result == Accepted && t == s.(head := next, producer := Idle, results := s.results + [true],
                                    pushed := s.pushed + [val])
  }

  /** One atomic action of the consumer. */
  ghost predicate ConsumerStep<T>(s: Ring<T>, t: Ring<T>, result: PopResult<T>) {
    match s.consumer
    case Waiting =>
      result == NoPop && t == s.(consumer := TailLoaded(s.tail))
    case TailLoaded(tail) =>
      if tail == s.head then result == Nothing && t == s.(consumer := Waiting)
      else result == NoPop && t == s.(consumer := Reading(tail))
    case Reading(tail) =>
      result == NoPop && tail < |s.slots| && t == s.(consumer := Releasing(tail, s.slots[tail]))
    case Releasing(tail, val) =>
      result == Took(val) && t == s.(tail := Next(s.k, tail), consumer := Waiting, popped := s.popped + [val])
  }

  ghost predicate RingStep<T(!new)>(s: Ring<T>, t: Ring<T>) {
    (exists r :: ProducerStep(s, t, r)) || (exists r :: ConsumerStep(s, t, r))
  }

  /** The indices are those of the operation counts; every pending item is in its slot. */
  ghost predicate Inv<T>(s: Ring<T>) {
    var n := Pow2(s.k);
    && |s.slots| == n
    && |s.popped| <= |s.pushed| && s.pushed[..|s.popped|] == s.popped
    && |s.pushed| - |s.popped| <= n - 1
    && s.head == |s.pushed| % n && s.tail == |s.popped| % n
    && (forall i | |s.popped| <= i < |s.pushed| :: s.slots[i % n] == s.pushed[i])
    && ProducerInv(s) && ConsumerInv(s) && HistoryInv(s)
  }

  ghost predicate ProducerInv<T>(s: Ring<T>) {
    var n := Pow2(s.k);
    match s.producer
    case Idle => true
    case HeadLoaded(head, _) => head == s.head
    case Writing(head, next, _) => head == s.head && next == Next(s.k, head) && |s.pushed| - |s.popped| < n - 1
    case Publishing(head, next, val) =>
      && head == s.head && next == Next(s.k, head) && |s.pushed| - |s.popped| < n - 1
      && head < |s.slots| && s.slots[head] == val
  }

  /** What became visible is what the accepted pushes were given; the push under way carries its argument. */
  ghost predicate HistoryInv<T>(s: Ring<T>) {
    && |s.args| == |s.results| + (if s.producer.Idle? then 0 else 1)
    && s.pushed == AcceptedArgs(s.args, s.results)
    && (!s.producer.Idle? ==> s.producer.val == s.args[|s.results|])
  }

  lemma {:induction false} LaterArgs<T>(args: seq<T>, more: seq<T>, results: seq<bool>)
    requires |results| <= |args|
    ensures AcceptedArgs(args + more, results) == AcceptedArgs(args, results)
    decreases |results|
  {
    if results != [] { LaterArgs(args, more, results[..|results| - 1]); }
  }

  lemma OneMoreResult<T>(args: seq<T>, results: seq<bool>, r: bool)
    requires |results| < |args|
    ensures AcceptedArgs(args, results + [r]) == AcceptedArgs(args, results) + if r then [args[|results|]] else []
  {
    assert (results + [r])[..|results|] == results;
  }

  /** The histories stay in step whatever the producer does. */
  lemma HistoryIsKept<T(!new)>(s: Ring<T>, t: Ring<T>, result: PushResult)
    requires HistoryInv(s) && ProducerStep(s, t, result)
    ensures HistoryInv(t)
  {
    hide AcceptedArgs, Next;
    if s.producer.Idle? {
      LaterArgs(s.args, t.args[|s.args|..], s.results);
      assert t.args == s.args + t.args[|s.args|..];
    } else if |t.results| > |s.results| {
      OneMoreResult(s.args, s.results, t.results[|s.results|]);
    }
  }

  ghost predicate ConsumerInv<T>(s: Ring<T>) {
    match s.consumer
    case Waiting => true
    case TailLoaded(tail) => tail == s.tail
    case Reading(tail) => tail == s.tail && |s.popped| < |s.pushed|
    case Releasing(tail, val) => tail == s.tail && |s.popped| < |s.pushed| && val == s.pushed[|s.popped|]
  }

  lemma InitInv<T>(s: Ring<T>)
    requires Init(s)
    ensures Inv(s)
  {
  }

  /** Counting on wraps the index. */
  lemma NextIsModulo(k: nat, c: nat)
    ensures Next(k, c % Pow2(k)) == (c + 1) % Pow2(k)
  {
    hide And, Pow2;
    var n := Pow2(k);
    MaskIsModulo(c % n + 1, k);
    AddModulo(c, n);
  }

  lemma OneMoreMultiple(q: nat, n: nat)
    ensures (q + 1) * n == q * n + n
  {
  }

  lemma AddModulo(c: nat, n: nat)
    requires n > 0
    ensures (c % n + 1) % n == (c + 1) % n
  {
    var q, r := c / n, c % n;
    assert c == r + q * n;
    if r + 1 < n {
      DivModUnique(c + 1, n, q, r + 1);
      DivModUnique(r + 1, n, 0, r + 1);
    } else {
      OneMoreMultiple(q, n);
      DivModUnique(c + 1, n, q + 1, 0);
      DivModUnique(r + 1, n, 1, 0);
    }
  }

  /** Two counts closer than n share an index only if they are equal. */
  lemma IndicesDiffer(a: nat, b: nat, n: nat)
    requires n > 0 && a < b < a + n
    ensures a % n != b % n
  {
    if a % n == b % n {
      var p, q := a / n, b / n;
      assert b - a == q * n - p * n;
      if q > p { DistanceOfMultiples(q, p, n); } else if q < p { DistanceOfMultiples(p, q, n); }
      assert false;
    }
  }

  /** The successor index meets the tail exactly when N - 1 items are queued. */
  lemma FullExactly(c: nat, p: nat, n: nat)
    requires n > 0 && c <= p <= c + n - 1
    ensures (p + 1) % n == c % n <==> p - c == n - 1
  {
    if p - c < n - 1 {
      IndicesDiffer(c, p + 1, n);
    } else {
      var q, r := c / n, c % n;
      OneMoreMultiple(q, n);
      DivModUnique(p + 1, n, q + 1, r);
    }
  }

  lemma ProducerKeepsInv<T(!new)>(s: Ring<T>, t: Ring<T>, result: PushResult)
    requires Inv(s) && ProducerStep(s, t, result)
    ensures Inv(t) && t.popped == s.popped
    ensures result == Refused ==> |s.pushed| - |s.popped| == Pow2(s.k) - 1
    ensures t.pushed == s.pushed || (result == Accepted && s.producer.Publishing?
                                     && t.pushed == s.pushed + [s.producer.val])
  {
    hide And, Pow2, Next, AcceptedArgs, HistoryInv;
    var n, p, c := Pow2(s.k), |s.pushed|, |s.popped|;
    HistoryIsKept(s, t, result);
    match s.producer
    case Idle =>
    case HeadLoaded(head, val) =>
      NextIsModulo(s.k, p);
      FullExactly(c, p, n);
    case Writing(head, next, val) =>
      WriteKeepsPending(s, val);
    case Publishing(head, next, val) =>
      NextIsModulo(s.k, p);
      PublishKeepsInv(s, t);
  }

  /** Writing the slot under the head touches no pending item. */
  lemma WriteKeepsPending<T>(s: Ring<T>, val: T)
    requires Inv(s) && |s.pushed| - |s.popped| < Pow2(s.k) - 1
    ensures s.head < |s.slots|
    ensures forall i | |s.popped| <= i < |s.pushed| :: s.slots[s.head := val][i % Pow2(s.k)] == s.pushed[i]
  {
    hide And, Pow2, Next, ProducerInv, ConsumerInv;
    forall i | |s.popped| <= i < |s.pushed|
      ensures s.slots[s.head := val][i % Pow2(s.k)] == s.pushed[i]
    {
      IndicesDiffer(i, |s.pushed|, Pow2(s.k));
    }
  }

  lemma PublishKeepsInv<T>(s: Ring<T>, t: Ring<T>)
    requires Inv(s) && s.producer.Publishing? && HistoryInv(t)
    requires Next(s.k, s.head) == (|s.pushed| + 1) % Pow2(s.k)
    requires t == s.(head := s.producer.next, producer := Idle, results := s.results + [true],
                     pushed := s.pushed + [s.producer.val])
    ensures Inv(t)
  {
    hide And, Pow2, Next, AcceptedArgs, HistoryInv;
    forall i | |t.popped| <= i < |t.pushed|
      ensures t.slots[i % Pow2(t.k)] == t.pushed[i]
    {
      if i < |s.pushed| { assert s.slots[i % Pow2(s.k)] == s.pushed[i]; }
    }
  }

  lemma ConsumerKeepsInv<T>(s: Ring<T>, t: Ring<T>, result: PopResult<T>)
    requires Inv(s) && ConsumerStep(s, t, result)
    ensures Inv(t) && t.pushed == s.pushed
    ensures result == Nothing ==> s.popped == s.pushed
    ensures t.popped == s.popped || (result.Took? && t.popped == s.popped + [result.val])
  {
    hide And, Pow2, Next, AcceptedArgs;
    var n, p, c := Pow2(s.k), |s.pushed|, |s.popped|;
    NextIsModulo(s.k, c);
    if s.consumer.TailLoaded? && c < p {
      IndicesDiffer(c, p, n);
    }
  }

  ghost predicate IsRun<T(!new)>(states: seq<Ring<T>>) {
    |states| > 0 && Init(states[0]) && forall i | 0 <= i < |states| - 1 :: RingStep(states[i], states[i + 1])
  }

  lemma {:induction false} InvInRun<T(!new)>(states: seq<Ring<T>>, i: nat)
    requires IsRun(states) && i < |states|
    ensures Inv(states[i])
  {
    if i == 0 {
      InitInv(states[0]);
    } else {
      InvInRun(states, i - 1);
      assert RingStep(states[i - 1], states[i - 1 + 1]);
      var s, t := states[i - 1], states[i];
      if r :| ProducerStep(s, t, r) {
        ProducerKeepsInv(s, t, r);
      } else {
        var r :| ConsumerStep(s, t, r);
        ConsumerKeepsInv(s, t, r);
      }
    }
  }

  /** The items between tail and head, in ring order. */
  ghost function Queued<T>(s: Ring<T>): seq<T>
    requires |s.slots| == Pow2(s.k) && s.head < |s.slots| && s.tail < |s.slots|
  {
    if s.tail <= s.head then s.slots[s.tail..s.head] else s.slots[s.tail..] + s.slots[..s.head]
  }

  lemma QueuedIsPending<T>(s: Ring<T>)
    requires Inv(s)
    ensures s.head < |s.slots| && s.tail < |s.slots|
    ensures Queued(s) == s.pushed[|s.popped|..]
  {
    hide And, Pow2, Next;
    var n, p, c := Pow2(s.k), |s.pushed|, |s.popped|;
    WrapOf(c, p, n);
    assert |Queued(s)| == p - c;
    forall j | 0 <= j < p - c
      ensures Queued(s)[j] == s.pushed[c + j]
    {
      WrapOf(c, c + j, n);
      assert s.slots[(c + j) % n] == s.pushed[c + j];
    }
  }

  /** The index of a count less than n further on. */
  lemma WrapOf(c: nat, p: nat, n: nat)
    requires n > 0 && c <= p < c + n
    ensures p % n == if c % n + (p - c) < n then c % n + (p - c) else c % n + (p - c) - n
  {
    var q, r := c / n, c % n;
    assert c == r + q * n;
    if r + (p - c) < n {
      DivModUnique(p, n, q, r + (p - c));
    } else {
      OneMoreMultiple(q, n);
      DivModUnique(p, n, q + 1, r + (p - c) - n);
    }
  }

  /**
   In every interleaving the arguments of the accepted pushes are the popped items followed by the queued ones,
   at most N - 1 are queued, and the slot being written is never the slot being read.
   */
  lemma RingIsSafe<T(!new)>(states: seq<Ring<T>>, i: nat)
    requires IsRun(states) && i < |states|
    ensures var s := states[i];
            && |s.slots| == Pow2(s.k) && s.head < |s.slots| && s.tail < |s.slots|
            && |s.results| <= |s.args| && AcceptedArgs(s.args, s.results) == s.pushed == s.popped + Queued(s)
            && |Queued(s)| <= Pow2(s.k) - 1
            && (s.producer.Writing? && (s.consumer.Reading? || s.consumer.Releasing?) ==>
                s.producer.head != s.consumer.tail)
  {
    hide And, Pow2, Next;
    var s := states[i];
    InvInRun(states, i);
    QueuedIsPending(s);
    assert s.pushed == s.pushed[..|s.popped|] + s.pushed[|s.popped|..];
    if s.producer.Writing? && |s.popped| < |s.pushed| {
      IndicesDiffer(|s.popped|, |s.pushed|, Pow2(s.k));
    }
  }

  /** A push is refused only while N - 1 items are queued, a pop only while none is. */
  lemma RefusalsAreExact<T(!new)>(states: seq<Ring<T>>, i: nat)
    requires IsRun(states) && i + 1 < |states|
    ensures ProducerStep(states[i], states[i + 1], Refused) ==>
            |states[i].pushed| - |states[i].popped| == Pow2(states[i].k) - 1
    ensures ConsumerStep(states[i], states[i + 1], Nothing) ==> states[i].pushed == states[i].popped
  {
    hide And, Pow2, Next;
    InvInRun(states, i);
    if ProducerStep(states[i], states[i + 1], Refused) {
      ProducerKeepsInv(states[i], states[i + 1], Refused);
    }
    if ConsumerStep(states[i], states[i + 1], Nothing) {
      ConsumerKeepsInv(states[i], states[i + 1], Nothing);
    }
  }
}
