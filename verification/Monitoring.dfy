/**
 Windowed averaging and retention of received signal values
 (src/monitoring/model/monitoring_model.cpp:274-397).  Times are nanoseconds; a mean without samples
 is None where the code stores NaN.
 */
module Monitoring {
  import opened CanTypes

  const ENTRIES: nat := 2048
  const WINDOW_NS: int := 50_000_000
  const HOLDING_NS: int := 60_000_000_000

  // ----- Samples

  /** The sample of a signal in a message: none or one. */
  function SampleOf(values: seq<SignalValue>, name: string): (r: seq<real>)
    ensures |r| <= 1
  {
    match FirstValueOf(values, name)
    case Some(v) => [v]
    case None => []
  }

  function Sum(samples: seq<real>): real {
    if samples == [] then 0.0 else Sum(samples[..|samples| - 1]) + samples[|samples| - 1]
  }

  function Mean(samples: seq<real>): Option<real> {
    if samples == [] then None else Some(Sum(samples) / |samples| as real)
  }

  lemma SumAppend(samples: seq<real>, v: real)
    ensures Sum(samples + [v]) == Sum(samples) + v
  {
    assert (samples + [v])[..|samples|] == samples;
  }

  lemma {:induction false} SumConcat(a: seq<real>, b: seq<real>)
    ensures Sum(a + b) == Sum(a) + Sum(b)
  {
    if b == [] {
      assert a + b == a;
    } else {
      var init, last := b[..|b| - 1], b[|b| - 1];
      SumConcat(a, init);
      assert (a + b)[..|a + b| - 1] == a + init;
    }
  }

  // ----- The history of one message, as a list of windows

  /** A closed window; `until` is the start of the next one, or -1 if there is none yet. */
  datatype Window = Window(start: int, until: int, samples: seq<seq<real>>)

  /** `start` is -1 if no window is open.  The first `erased` windows are no longer stored. */
  datatype Book = Book(names: seq<string>, start: int, open: seq<seq<real>>, flushed: seq<Window>, erased: nat)

  predicate Sound(b: Book) {
    && |b.open| == |b.names| && b.erased <= |b.flushed|
    && forall w | w in b.flushed :: |w.samples| == |b.names|
  }

  function Empty(names: seq<string>): (b: Book)
    ensures Sound(b)
  {
    Book(names, -1, seq(|names|, _ => []), [], 0)
  }

  function Flushed(b: Book, newStart: int): (r: Book)
    requires Sound(b)
    ensures Sound(r)
  {
    Book(b.names, newStart, seq(|b.names|, _ => []), b.flushed + [Window(b.start, newStart, b.open)], b.erased)
  }

  function Opened(b: Book, t: int): (r: Book)
    requires Sound(b)
    ensures Sound(r)
  {
    var started := if b.start < 0 then b.(start := t) else b;
    if t - started.start >= WINDOW_NS then Flushed(started, t) else started
  }

  function Observing(b: Book, values: seq<SignalValue>): (r: Book)
    requires Sound(b)
    ensures Sound(r)
  {
    b.(open := seq(|b.names|, k requires 0 <= k < |b.names| => b.open[k] + SampleOf(values, b.names[k])))
  }

  function Stale(b: Book, now: int): (r: Book)
    requires Sound(b)
    ensures Sound(r)
  {
    if b.start >= 0 && now - b.start >= WINDOW_NS then Flushed(b, -1) else b
  }

  predicate IsOld(w: Window, now: int) {
    w.start + HOLDING_NS < now
  }

  /** How many windows in front are old. */
  function OldPrefix(ws: seq<Window>, now: int): (n: nat)
    ensures n <= |ws|
    ensures forall i | 0 <= i < n :: IsOld(ws[i], now)
    ensures n < |ws| ==> !IsOld(ws[n], now)
  {
    if ws == [] || !IsOld(ws[0], now) then 0 else 1 + OldPrefix(ws[1..], now)
  }

  function Erased(b: Book, now: int): (r: Book)
    requires Sound(b)
    ensures Sound(r)
  {
    b.(erased := b.erased + OldPrefix(b.flushed[b.erased..], now))
  }

  datatype Event = Received(time: int, values: seq<SignalValue>) | Refreshed(now: int) | Cleaned(now: int)

  function After(b: Book, e: Event): (r: Book)
    requires Sound(b)
    ensures Sound(r)
  {
    match e
    case Received(t, values) => Observing(Opened(b, t), values)
    case Refreshed(now) => Stale(b, now)
    case Cleaned(now) => Erased(b, now)
  }

  function History(names: seq<string>, events: seq<Event>): (r: Book)
    ensures Sound(r) && r.names == names
  {
    if events == [] then Empty(names) else After(History(names, events[..|events| - 1]), events[|events| - 1])
  }

  // ----- The stored entry

  datatype MessageTimestamp = MessageTimestamp(
    timestamps: seq<int>, signalValues: seq<seq<Option<real>>>, signalNames: seq<string>, windowStartNs: int,
    windowSum: seq<real>, windowCount: seq<nat>)

  function Starts(ws: seq<Window>): (r: seq<int>)
    ensures |r| == |ws| && forall i | 0 <= i < |ws| :: r[i] == ws[i].start
  {
    seq(|ws|, i requires 0 <= i < |ws| => ws[i].start)
  }

  function Means(ws: seq<Window>, k: nat): (r: seq<Option<real>>)
    requires forall w | w in ws :: k < |w.samples|
    ensures |r| == |ws| && forall i | 0 <= i < |ws| :: r[i] == Mean(ws[i].samples[k])
  {
    seq(|ws|, i requires 0 <= i < |ws| => Mean(ws[i].samples[k]))
  }

  /** The entry that stores a history: every column has one value per stored window. */
  function Stored(b: Book): (e: MessageTimestamp)
    requires Sound(b)
    ensures |e.signalValues| == |e.signalNames| == |e.windowSum| == |e.windowCount|
    ensures forall column | column in e.signalValues :: |column| == |e.timestamps|
  {
    var ws, n := b.flushed[b.erased..], |b.names|;
    MessageTimestamp(
      Starts(ws), seq(n, k requires 0 <= k < n => Means(ws, k)), b.names, b.start,
      seq(n, k requires 0 <= k < n => Sum(b.open[k])), seq(n, k requires 0 <= k < n => |b.open[k]|))
  }

  /** flushWindow */
  method FlushWindow(entry: MessageTimestamp, newWindowStartNs: int, ghost b: Book) returns (r: MessageTimestamp)
    requires Sound(b) && entry == Stored(b)
    ensures r == Stored(Flushed(b, newWindowStartNs))
  {
    hide Sum, Mean;
    ghost var n, ws := |b.names|, b.flushed[b.erased..];
    ghost var closed := Window(b.start, newWindowStartNs, b.open);
    var timestamps := entry.timestamps + [entry.windowStartNs];
    var columns, sums, counts := entry.signalValues, entry.windowSum, entry.windowCount;
    for k := 0 to |columns|
      invariant |columns| == |sums| == |counts| == n
      invariant forall i | 0 <= i < k ::
                  columns[i] == entry.signalValues[i] + [Mean(b.open[i])] && sums[i] == 0.0 && counts[i] == 0
      invariant forall i | k <= i < n ::
                  columns[i] == entry.signalValues[i] && sums[i] == entry.windowSum[i]
                      && counts[i] == entry.windowCount[i]
    {
      var mean := if counts[k] > 0 then Some(sums[k] / counts[k] as real) else None;
      assert mean == Mean(b.open[k]) by { MeanIs(b.open[k]); }
      columns := columns[k := columns[k] + [mean]];
      sums, counts := sums[k := 0.0], counts[k := 0];
    }
    r := MessageTimestamp(timestamps, columns, entry.signalNames, newWindowStartNs, sums, counts);
    StoredFlush(b, newWindowStartNs, r);
  }

  lemma MeanIs(samples: seq<real>)
    ensures Mean(samples) == if |samples| > 0 then Some(Sum(samples) / |samples| as real) else None
  {
  }

  lemma MeansAppend(ws: seq<Window>, w: Window, k: nat)
    requires forall v | v in ws + [w] :: k < |v.samples|
    requires forall v | v in ws :: k < |v.samples|
    ensures Means(ws + [w], k) == Means(ws, k) + [Mean(w.samples[k])]
  {
    hide Mean;
  }

  lemma FlushRows(b: Book, newStart: int)
    requires Sound(b)
    ensures var f := Flushed(b, newStart);
            f.flushed[f.erased..] == b.flushed[b.erased..] + [Window(b.start, newStart, b.open)]
  {
  }

  lemma FlushColumn(b: Book, newStart: int, i: nat)
    requires Sound(b) && i < |b.names|
    ensures |Stored(b).signalValues| == |Stored(Flushed(b, newStart)).signalValues| == |b.names|
    ensures Stored(Flushed(b, newStart)).signalValues[i] == Stored(b).signalValues[i] + [Mean(b.open[i])]
  {
    hide Mean, Means, Starts;
    FlushRows(b, newStart);
    MeansAppend(b.flushed[b.erased..], Window(b.start, newStart, b.open), i);
  }

  lemma FlushFields(b: Book, newStart: int)
    requires Sound(b)
    ensures var e, f := Stored(b), Stored(Flushed(b, newStart));
            && f.timestamps == e.timestamps + [b.start] && f.signalNames == b.names && f.windowStartNs == newStart
            && |f.windowSum| == |f.windowCount| == |f.signalValues| == |e.signalValues| == |b.names|
            && forall i | 0 <= i < |b.names| :: f.windowSum[i] == 0.0 && f.windowCount[i] == 0
  {
    hide Mean, Means, Starts;
    FlushRows(b, newStart);
    StartsAppend(b.flushed[b.erased..], Window(b.start, newStart, b.open));
  }

  lemma StoredFlush(b: Book, newStart: int, r: MessageTimestamp)
    requires Sound(b) && |Stored(b).signalValues| == |b.names|
    requires r.timestamps == Stored(b).timestamps + [b.start] && r.signalNames == b.names && r.windowStartNs == newStart
    requires |r.signalValues| == |r.windowSum| == |r.windowCount| == |b.names|
    requires forall i | 0 <= i < |b.names| :: r.signalValues[i] == Stored(b).signalValues[i] + [Mean(b.open[i])]
    requires forall i | 0 <= i < |b.names| :: r.windowSum[i] == 0.0 && r.windowCount[i] == 0
    ensures r == Stored(Flushed(b, newStart))
  {
    hide *;
    var f := Stored(Flushed(b, newStart));
    FlushFields(b, newStart);
    forall i | 0 <= i < |b.names|
      ensures r.signalValues[i] == f.signalValues[i]
    {
      FlushColumn(b, newStart, i);
    }
    assert r.signalValues == f.signalValues;
    assert r.windowSum == f.windowSum && r.windowCount == f.windowCount;
  }

  lemma StartsAppend(ws: seq<Window>, w: Window)
    ensures Starts(ws + [w]) == Starts(ws) + [w.start]
  {
  }

  /** The loops of onIncomingDbcFrame: the first value of each signal's name is added to its window. */
  method Accumulate(entry: MessageTimestamp, values: seq<SignalValue>, ghost b: Book) returns (r: MessageTimestamp)
    requires Sound(b) && entry == Stored(b)
    ensures r == Stored(Observing(b, values))
  {
    hide Sum, Mean, FirstValueOf;
    ghost var n, after := |b.names|, Observing(b, values);
    var sums, counts := entry.windowSum, entry.windowCount;
    for j := 0 to |entry.signalNames|
      invariant |sums| == |counts| == n
      invariant forall i | 0 <= i < j :: sums[i] == Sum(after.open[i]) && counts[i] == |after.open[i]|
      invariant forall i | j <= i < n :: sums[i] == Sum(b.open[i]) && counts[i] == |b.open[i]|
    {
      var sample := FirstValue(values, entry.signalNames[j]);
      if sample.Some? {
        SumAppend(b.open[j], sample.value);
        sums, counts := sums[j := sums[j] + sample.value], counts[j := counts[j] + 1];
      } else {
        assert b.open[j] + [] == b.open[j];
      }
    }
    r := entry.(windowSum := sums, windowCount := counts);
    assert sums == Stored(after).windowSum && counts == Stored(after).windowCount;
  }

  lemma StoredRows(b: Book, now: int)
    requires Sound(b)
    ensures var rows := Stored(b).timestamps;
            && |rows| == |b.flushed| - b.erased
            && (rows != [] ==> rows[0] == b.flushed[b.erased].start)
            && (if rows == [] || rows[0] + HOLDING_NS >= now then Erased(b, now) == b
                else Erased(b, now) == Erased(b.(erased := b.erased + 1), now))
  {
    var ws := b.flushed[b.erased..];
    if ws != [] { assert ws[1..] == b.flushed[b.erased + 1..]; }
  }

  /** Rows leave all columns in lockstep with their timestamp. */
  method DropRow(entry: MessageTimestamp, ghost b: Book) returns (r: MessageTimestamp)
    requires Sound(b) && entry == Stored(b) && entry.timestamps != []
    ensures b.erased < |b.flushed| && r == Stored(b.(erased := b.erased + 1))
  {
    hide Sum, Mean;
    ghost var next := b.(erased := b.erased + 1);
    assert b.flushed[b.erased..][1..] == next.flushed[next.erased..];
    var columns := entry.signalValues;
    for j := 0 to |columns|
      invariant |columns| == |entry.signalValues|
      invariant forall i | 0 <= i < j :: columns[i] == entry.signalValues[i][1..]
      invariant forall i | j <= i < |columns| :: columns[i] == entry.signalValues[i]
    {
      assert columns[j] in entry.signalValues;
      if columns[j] != [] { columns := columns[j := columns[j][1..]]; }
    }
    forall i | 0 <= i < |columns|
      ensures columns[i] == Stored(next).signalValues[i]
    {
      assert columns[i] == Means(b.flushed[b.erased..], i)[1..];
    }
    assert columns == Stored(next).signalValues;
    r := entry.(timestamps := entry.timestamps[1..], signalValues := columns);
  }

  /** The inner loop of eraseOldData. */
  method DropOldRows(entry: MessageTimestamp, now: int, ghost b: Book) returns (r: MessageTimestamp)
    requires Sound(b) && entry == Stored(b)
    ensures r == Stored(Erased(b, now))
  {
    hide Stored, Erased;
    r := entry;
    ghost var c := b;
    StoredRows(c, now);
    while r.timestamps != [] && r.timestamps[0] + HOLDING_NS < now
      invariant Sound(c) && r == Stored(c)
      invariant |r.timestamps| == |c.flushed| - c.erased
      invariant Erased(c, now) == Erased(b, now)
      invariant r.timestamps == [] || r.timestamps[0] + HOLDING_NS >= now ==> Erased(c, now) == c
      decreases |r.timestamps|
    {
      StoredRows(c, now);
      r := DropRow(r, c);
      c := c.(erased := c.erased + 1);
      StoredRows(c, now);
    }
  }

  /** The part of flushStaleWindows that concerns one entry. */
  method Refresh(entry: MessageTimestamp, now: int, ghost b: Book) returns (r: MessageTimestamp)
    requires Sound(b) && entry == Stored(b)
    ensures r == Stored(Stale(b, now))
  {
    hide Stored, Flushed;
    r := entry;
    StoredStart(b, 0);
    if entry.windowStartNs >= 0 && now - entry.windowStartNs >= WINDOW_NS {
      r := FlushWindow(entry, -1, b);
    }
  }

  /** The part of onIncomingDbcFrame that concerns the entry of the message. */
  method Observe(entry: MessageTimestamp, t: int, values: seq<SignalValue>, ghost b: Book) returns (r: MessageTimestamp)
    requires Sound(b) && entry == Stored(b)
    ensures r == Stored(After(b, Received(t, values)))
  {
    hide Stored, Flushed, Observing;
    r := entry;
    ghost var c := b;
    StoredStart(b, t);
    if r.windowStartNs < 0 {
      r := r.(windowStartNs := t);
      c := c.(start := t);
    }
    if t - r.windowStartNs >= WINDOW_NS {
      r := FlushWindow(r, t, c);
      c := Flushed(c, t);
    }
    r := Accumulate(r, values, c);
  }

  lemma StoredStart(b: Book, t: int)
    requires Sound(b)
    ensures Stored(b).windowStartNs == b.start
    ensures Stored(b.(start := t)) == Stored(b).(windowStartNs := t)
  {
  }

  function NamesOf(signals: seq<Signal>): (r: seq<string>)
    ensures |r| == |signals| && forall i | 0 <= i < |r| :: r[i] == signals[i].name
  {
    seq(|signals|, i requires 0 <= i < |signals| => signals[i].name)
  }

  /** The signal names of an entry: those of the last definition of its identifier. */
  function NamesFor(messages: seq<Message>, id: nat): seq<string> {
    if messages == [] then []
    else
      var last := messages[|messages| - 1];
      if last.id == id then NamesOf(last.signals) else NamesFor(messages[..|messages| - 1], id)
  }

  lemma NamesForStep(messages: seq<Message>, n: nat, id: nat)
    requires n < |messages|
    ensures NamesFor(messages[..n + 1], id)
            == if messages[n].id == id then NamesOf(messages[n].signals) else NamesFor(messages[..n], id)
  {
    assert messages[..n + 1][..n] == messages[..n] && messages[..n + 1][n] == messages[n];
  }

  lemma EmptyEntry()
    ensures Stored(History([], [])) == MessageTimestamp([], [], [], -1, [], [])
  {
  }

  class MonitoringModel {
    var messageValues: array<MessageTimestamp>
    var hasDbc: bool
    var deleteOldData: bool
    /** What reached each entry since the DBC was set. */
    ghost var names: seq<seq<string>>
    ghost var history: seq<seq<Event>>

    ghost predicate Valid()
      reads this, messageValues
    {
      && messageValues.Length == |names| == |history| == ENTRIES
      && forall i | 0 <= i < ENTRIES :: messageValues[i] == Stored(History(names[i], history[i]))
    }

    constructor ()
      ensures Valid() && fresh(messageValues) && !hasDbc && deleteOldData
    {
      hasDbc, deleteOldData := false, true;
      names, history := seq(ENTRIES, _ => []), seq(ENTRIES, _ => []);
      messageValues := new MessageTimestamp[ENTRIES](_ => MessageTimestamp([], [], [], -1, [], []));
      new;
      EmptyEntry();
    }

    /** Records one event in one entry. */
    method Put(i: nat, entry: MessageTimestamp, ghost e: Event)
      requires Valid() && i < ENTRIES
      requires entry == Stored(After(History(names[i], history[i]), e))
      modifies messageValues, `history
      ensures Valid() && names == old(names) && history == old(history)[i := old(history)[i] + [e]]
    {
      hide Stored, After;
      assert (history[i] + [e])[..|history[i]|] == history[i];
      messageValues[i] := entry;
      history := history[i := history[i] + [e]];
    }

    /** A message counts if a DBC is set and its identifier is in range. */
    method OnIncomingDbcFrame(message: DbcCanMessage)
      requires Valid()
      modifies messageValues, `history
      ensures Valid() && names == old(names)
      ensures history == if hasDbc && deleteOldData && message.messageId < 2048
                         then
                           var id, event := message.messageId, Received(message.receiveTime, message.signalValues);
                           old(history)[id := old(history)[id] + [event]]
                         else old(history)
    {
      hide Stored, After, History;
      if !hasDbc || !deleteOldData || message.messageId >= messageValues.Length { return; }
      var i := message.messageId;
      var entry := Observe(messageValues[i], message.receiveTime, message.signalValues, History(names[i], history[i]));
      Put(i, entry, Received(message.receiveTime, message.signalValues));
    }

    method RefreshOne(i: nat, now: int)
      requires Valid() && i < ENTRIES
      modifies messageValues, `history
      ensures Valid() && names == old(names) && |history| == ENTRIES
              && history == old(history)[i := old(history)[i] + [Refreshed(now)]]
    {
      hide Stored, Stale, History;
      var entry := Refresh(messageValues[i], now, History(names[i], history[i]));
      Put(i, entry, Refreshed(now));
    }

    /** Every entry with an open window that is at least 50 ms old closes it. */
    method FlushStaleWindows(now: int)
      requires Valid()
      modifies messageValues, `history
      ensures Valid() && names == old(names) && |history| == ENTRIES
      ensures forall i | 0 <= i < ENTRIES ::
                history[i] == if hasDbc && deleteOldData then old(history[i]) + [Refreshed(now)] else old(history[i])
    {
      if !hasDbc || !deleteOldData { return; }
      assert |history| == ENTRIES && messageValues.Length == ENTRIES;
      hide Valid;
      for i := 0 to messageValues.Length
        invariant Valid() && names == old(names) && |history| == ENTRIES
        invariant forall j | 0 <= j < i :: history[j] == old(history)[j] + [Refreshed(now)]
        invariant forall j | i <= j < ENTRIES :: history[j] == old(history)[j]
      {
        RefreshOne(i, now);
      }
    }

    method EraseOne(i: nat, now: int)
      requires Valid() && i < ENTRIES
      modifies messageValues, `history
      ensures Valid() && names == old(names) && |history| == ENTRIES
              && history == old(history)[i := old(history)[i] + [Cleaned(now)]]
    {
      hide Stored, Erased, History;
      var entry := DropOldRows(messageValues[i], now, History(names[i], history[i]));
      Put(i, entry, Cleaned(now));
    }

    method EraseOldData(now: int)
      requires Valid()
      modifies messageValues, `history
      ensures Valid() && names == old(names) && |history| == ENTRIES
      ensures forall i | 0 <= i < ENTRIES :: history[i] == old(history[i]) + [Cleaned(now)]
    {
      assert |history| == ENTRIES && messageValues.Length == ENTRIES;
      hide Valid;
      for i := 0 to messageValues.Length
        invariant Valid() && names == old(names) && |history| == ENTRIES
        invariant forall j | 0 <= j < i :: history[j] == old(history)[j] + [Cleaned(now)]
        invariant forall j | i <= j < ENTRIES :: history[j] == old(history)[j]
      {
        EraseOne(i, now);
      }
    }

    /** 2048 entries without signals. */
    method Clear()
      modifies this
      ensures Valid() && fresh(messageValues) && hasDbc == old(hasDbc) && deleteOldData == old(deleteOldData)
      ensures names == seq(ENTRIES, _ => []) && history == seq(ENTRIES, _ => [])
    {
      hide Stored, History;
      messageValues := new MessageTimestamp[ENTRIES](_ => MessageTimestamp([], [], [], -1, [], []));
      names, history := seq(ENTRIES, _ => []), seq(ENTRIES, _ => []);
      EmptyEntry();
    }

    /** Every entry starts over with the signals of its message. */
    method OnDbcChange(messages: seq<Message>)
      requires Valid()
      modifies this
      ensures Valid() && fresh(messageValues) && hasDbc && deleteOldData == old(deleteOldData)
      ensures |names| == |history| == ENTRIES
      ensures forall i | 0 <= i < ENTRIES :: names[i] == NamesFor(messages, i) && history[i] == []
    {
      hide NamesOf, Valid;
      hasDbc := true;
      Clear();
      for n := 0 to |messages|
        invariant Valid() && fresh(messageValues) && hasDbc && deleteOldData == old(deleteOldData)
        invariant |names| == ENTRIES && history == seq(ENTRIES, _ => [])
        invariant forall i | 0 <= i < ENTRIES :: names[i] == NamesFor(messages[..n], i)
      {
        var signalNames := SignalNames(messages[n].signals);
        forall i | 0 <= i < ENTRIES {
          NamesForStep(messages, n, i);
        }
        if messages[n].id < ENTRIES { Reset(messages[n].id, signalNames); }
      }
      assert messages[..|messages|] == messages;
    }

    /** An entry without any history. */
    method Reset(id: nat, signalNames: seq<string>)
      requires Valid() && id < ENTRIES && |names| == |history| == ENTRIES && history[id] == []
      modifies messageValues, `names
      ensures Valid() && names == old(names)[id := signalNames]
    {
      hide Stored, History;
      messageValues[id] := FreshEntry(signalNames);
      names := names[id := signalNames];
    }
  }

  method SignalNames(signals: seq<Signal>) returns (names: seq<string>)
    ensures names == NamesOf(signals)
  {
    names := [];
    for k := 0 to |signals|
      invariant names == NamesOf(signals[..k])
    {
      names := names + [signals[k].name];
    }
    assert signals[..|signals|] == signals;
  }

  function FreshEntry(names: seq<string>): (e: MessageTimestamp)
    ensures e == Stored(History(names, []))
  {
    var n := |names|;
    var e := MessageTimestamp([], seq(n, _ => []), names, -1, seq(n, _ => 0.0), seq(n, _ => 0));
    assert e == Stored(Empty(names)) by {
      var s := Stored(Empty(names));
      assert e.signalValues == s.signalValues && e.windowSum == s.windowSum && e.windowCount == s.windowCount;
    }
    e
  }
}
